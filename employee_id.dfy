/**
 * The employee-ID successor: strip the first "EMP", parse what is left the
 * way JavaScript's `parseInt` does, add one and left-pad the decimal
 * rendering with '0' to three characters. A failed parse is NaN, which
 * renders as "NaN".
 */
module EmployeeId {
  import opened Wrappers

  /** "EMP" starts at position i of s. */
  predicate EmpAt(s: string, i: int) {
    0 <= i && i + 3 <= |s| && s[i..i + 3] == "EMP"
  }

  /** The text after removing the first occurrence of "EMP" (`replace('EMP', '')`). */
  function StripEmp(s: string): (r: string)
    ensures |s| >= 3 && s[..3] == "EMP" ==> r == s[3..]
    ensures |r| == |s| || |r| == |s| - 3
  {
    if |s| < 3 then s
    else if s[..3] == "EMP" then s[3..]
    else [s[0]] + StripEmp(s[1..])
  }

  /** An occurrence in the tail is one position further right in the whole string. */
  lemma EmpAtTail(s: string)
    requires s != []
    ensures forall i :: 0 <= i ==> (EmpAt(s[1..], i) <==> EmpAt(s, i + 1))
  {
    forall i | 0 <= i ensures EmpAt(s[1..], i) <==> EmpAt(s, i + 1) {
      if 0 <= i && i + 3 <= |s| - 1 {
        assert s[1..][i..i + 3] == s[i + 1..i + 4];
      }
    }
  }

  /** Where "EMP" first starts at i, exactly those three letters are cut out. */
  lemma {:induction false} StripEmpRemovesFirst(s: string, i: int)
    requires EmpAt(s, i)
    requires forall j :: 0 <= j < i ==> !EmpAt(s, j)
    ensures StripEmp(s) == s[..i] + s[i + 3..]
  {
    if i == 0 {
      assert s[..0] + s[3..] == s[3..];
    } else {
      assert !EmpAt(s, 0);
      EmpAtTail(s);
      StripEmpRemovesFirst(s[1..], i - 1);
      assert s[..i] + s[i + 3..] == [s[0]] + (s[1..][..i - 1] + s[1..][i - 1 + 3..]);
    }
  }

  /** A string in which "EMP" does not occur is left unchanged. */
  lemma {:induction false} StripEmpWithoutEmp(s: string)
    requires forall i :: 0 <= i ==> !EmpAt(s, i)
    ensures StripEmp(s) == s
  {
    if |s| >= 3 {
      assert !EmpAt(s, 0);
      EmpAtTail(s);
      StripEmpWithoutEmp(s[1..]);
      assert [s[0]] + s[1..] == s;
    }
  }

  /** Whitespace `parseInt` skips before the number (the ASCII and BOM/no-break spaces). */
  predicate IsSpace(c: char) {
    c == ' ' || c == '\t' || c == '\n' || c == '\r' || c == '\U{000B}' || c == '\U{000C}'
    || c == '\U{00A0}' || c == '\U{FEFF}'
  }

  function TrimStart(s: string): (r: string)
    ensures |r| <= |s|
    ensures r == [] || !IsSpace(r[0])
  {
    if s != [] && IsSpace(s[0]) then TrimStart(s[1..]) else s
  }

  /** What is trimmed is a run of whitespace at the front; the rest is kept as it stands. */
  lemma {:induction false} TrimStartSuffix(s: string)
    ensures TrimStart(s) == s[|s| - |TrimStart(s)|..]
    ensures forall i :: 0 <= i < |s| - |TrimStart(s)| ==> IsSpace(s[i])
  {
    if s != [] && IsSpace(s[0]) {
      TrimStartSuffix(s[1..]);
      assert s[1..][|s| - 1 - |TrimStart(s)|..] == s[|s| - |TrimStart(s)|..];
      forall i | 0 < i < |s| - |TrimStart(s)| ensures IsSpace(s[i]) {
        assert s[i] == s[1..][i - 1];
      }
    }
  }

  /** The value of a digit character in base 10 or 16, if it is one. */
  function DigitValue(c: char, radix: nat): (v: Option<nat>)
    requires radix == 10 || radix == 16
    ensures v.Some? ==> v.value < radix
  {
    if '0' <= c <= '9' then Some((c as int - '0' as int) as nat)
    else if radix == 16 && 'a' <= c <= 'f' then Some((c as int - 'a' as int + 10) as nat)
    else if radix == 16 && 'A' <= c <= 'F' then Some((c as int - 'A' as int + 10) as nat)
    else None
  }

  predicate AllDigits(s: string, radix: nat)
    requires radix == 10 || radix == 16
  {
    forall i :: 0 <= i < |s| ==> DigitValue(s[i], radix).Some?
  }

  /** The longest prefix made of digits. */
  function DigitPrefix(s: string, radix: nat): (r: string)
    requires radix == 10 || radix == 16
    ensures |r| <= |s| && r == s[..|r|] && AllDigits(r, radix)
    ensures |r| < |s| ==> DigitValue(s[|r|], radix).None?
  {
    if s == [] || DigitValue(s[0], radix).None? then []
    else [s[0]] + DigitPrefix(s[1..], radix)
  }

  /** Positional value, most significant digit first. */
  function ValueOf(ds: string, radix: nat): nat
    requires radix == 10 || radix == 16
    requires AllDigits(ds, radix)
  {
    if ds == [] then 0
    else ValueOf(ds[..|ds| - 1], radix) * radix + DigitValue(ds[|ds| - 1], radix).value
  }

  /** The digits after the sign: "0x"/"0X" switches to base 16; no digits at all is NaN (None). */
  function Unsigned(u: string): (r: Option<nat>)
  {
    var hex := |u| >= 2 && u[0] == '0' && (u[1] == 'x' || u[1] == 'X');
    var radix := if hex then 16 else 10;
    var ds := DigitPrefix(if hex then u[2..] else u, radix);
    if ds == [] then None else Some(ValueOf(ds, radix))
  }

  /** `parseInt(s)` with no radix: optional whitespace, an optional sign, then the unsigned part. */
  function ParseInt(s: string): (r: Option<int>)
  {
    Signed(TrimStart(s))
  }

  /** What `parseInt` reads once the whitespace is gone: an optional sign, then the unsigned part. */
  function Signed(t: string): (r: Option<int>)
  {
    if |t| > 0 && t[0] == '-' then
      match Unsigned(t[1..])
      case None => None
      case Some(v) => Some(-(v as int))
    else if |t| > 0 && t[0] == '+' then Unsigned(t[1..])
    else Unsigned(t)
  }

  /** `parseInt` skips exactly the leading whitespace. */
  lemma {:induction false} TrimSpaces(w: string, rest: string)
    requires forall i :: 0 <= i < |w| ==> IsSpace(w[i])
    requires rest == [] || !IsSpace(rest[0])
    ensures TrimStart(w + rest) == rest
  {
    if w == [] {
      assert w + rest == rest;
    } else {
      assert (w + rest)[1..] == w[1..] + rest;
      TrimSpaces(w[1..], rest);
    }
  }

  lemma {:induction false} DigitPrefixStops(ds: string, tail: string)
    requires AllDigits(ds, 10)
    requires tail == [] || DigitValue(tail[0], 10).None?
    ensures DigitPrefix(ds + tail, 10) == ds
  {
    if ds == [] {
      assert ds + tail == tail;
    } else {
      assert (ds + tail)[1..] == ds[1..] + tail;
      DigitPrefixStops(ds[1..], tail);
    }
  }

  /** Digits followed by anything that is not a digit and does not make "0x" read as decimal. */
  lemma UnsignedReads(ds: string, tail: string)
    requires ds != [] && AllDigits(ds, 10)
    requires tail == [] || DigitValue(tail[0], 10).None?
    requires !(ds == "0" && tail != [] && (tail[0] == 'x' || tail[0] == 'X'))
    ensures Unsigned(ds + tail) == Some(ValueOf(ds, 10))
  {
    var u := ds + tail;
    DigitPrefixStops(ds, tail);
    assert u[0] == ds[0];
    if |u| >= 2 && u[0] == '0' {
      if |ds| >= 2 {
        assert u[1] == ds[1] && DigitValue(ds[1], 10).Some?;
      } else {
        assert ds == "0" && u[1] == tail[0];
      }
    }
  }

  /**
   * After the leading whitespace (`TrimSpaces`): an optional sign, a run of
   * decimal digits and anything that is not a digit (and does not turn a lone
   * "0" into "0x"). `parseInt` reads the signed value of the digits and
   * ignores the rest.
   */
  lemma ParseIntReadsNumber(s: string, sign: string, ds: string, tail: string)
    requires TrimStart(s) == sign + (ds + tail)
    requires sign == "" || sign == "+" || sign == "-"
    requires ds != [] && AllDigits(ds, 10)
    requires tail == [] || DigitValue(tail[0], 10).None?
    requires !(ds == "0" && tail != [] && (tail[0] == 'x' || tail[0] == 'X'))
    ensures sign == "-" ==> ParseInt(s) == Some(-(ValueOf(ds, 10) as int))
    ensures sign != "-" ==> ParseInt(s) == Some(ValueOf(ds, 10) as int)
  {
    UnsignedReads(ds, tail);
    assert DigitValue(ds[0], 10).Some? && (ds + tail)[0] == ds[0];
    SignedDigits(sign, ds + tail, ValueOf(ds, 10));
  }

  lemma SignedDigits(sign: string, u: string, v: nat)
    requires sign == "" || sign == "+" || sign == "-"
    requires u != [] && '0' <= u[0] <= '9'
    requires Unsigned(u) == Some(v)
    ensures sign == "-" ==> Signed(sign + u) == Some(-(v as int))
    ensures sign != "-" ==> Signed(sign + u) == Some(v as int)
  {
    if sign == "" {
      assert sign + u == u;
      SignedUnsigned(u);
    } else if sign == "-" {
      assert sign + u == ['-'] + u;
      SignedAfterSign('-', u, v);
    } else {
      assert sign + u == ['+'] + u;
      SignedAfterSign('+', u, v);
    }
  }

  /** Without a sign the unsigned part is read as it stands. */
  lemma SignedUnsigned(u: string)
    requires u != [] && '0' <= u[0] <= '9'
    ensures Signed(u) == Unsigned(u)
  {
  }

  /** A '-' negates the unsigned part after it, a '+' keeps it. */
  lemma SignedAfterSign(c: char, u: string, v: nat)
    requires c == '-' || c == '+'
    requires Unsigned(u) == Some(v)
    ensures c == '-' ==> Signed([c] + u) == Some(-(v as int))
    ensures c == '+' ==> Signed([c] + u) == Some(v as int)
  {
    assert ([c] + u)[0] == c && ([c] + u)[1..] == u;
  }

  /** Without a digit after the whitespace and the sign, `parseInt` gives NaN. */
  lemma ParseIntNaN(s: string, sign: string, t: string)
    requires TrimStart(s) == sign + t
    requires sign == "" || sign == "+" || sign == "-"
    requires t == [] || (DigitValue(t[0], 10).None? && t[0] != '+' && t[0] != '-')
    ensures ParseInt(s) == None
  {
    if sign == "" {
      assert sign + t == t;
    } else {
      assert (sign + t)[0] == sign[0] && (sign + t)[1..] == t;
    }
  }

  function DigitChar(d: nat): (c: char)
    requires d < 10
    ensures DigitValue(c, 10) == Some(d)
  {
    ('0' as int + d) as char
  }

  /** Decimal rendering of a natural number, without leading zeros. */
  function Natural(n: nat): (s: string)
    ensures |s| >= 1 && AllDigits(s, 10)
    ensures |s| > 1 ==> s[0] != '0'
  {
    if n < 10 then [DigitChar(n)] else Natural(n / 10) + [DigitChar(n % 10)]
  }

  /** `Number.prototype.toString()` on an integer: '-' then the digits when negative. */
  function Decimal(k: int): string {
    if k < 0 then "-" + Natural(-k) else Natural(k)
  }

  /** `s.padStart(n, c)`: fill on the left up to length n; never shortens. */
  function PadStart(s: string, n: nat, c: char): (r: string)
    ensures |r| == if |s| >= n then |s| else n
    ensures r[|r| - |s|..] == s
    ensures forall i :: 0 <= i < |r| - |s| ==> r[i] == c
  {
    if |s| >= n then s else seq(n - |s|, _ => c) + s
  }

  /** The ID after the last one; None or "" stands for "no user has an ID yet". */
  function NextEmployeeId(last: Option<string>): (r: string)
    ensures |r| >= 6 && r[..3] == "EMP"
    ensures (last.None? || last.value == "") ==> r == "EMP001"
  {
    if last.None? || last.value == "" then "EMP001"
    else
      match ParseInt(StripEmp(last.value))
      case None => "EMPNaN"
      case Some(n) => "EMP" + PadStart(Decimal(n + 1), 3, '0')
  }

  lemma {:induction false} ValueOfNatural(n: nat)
    ensures ValueOf(Natural(n), 10) == n
  {
    if n >= 10 {
      ValueOfNatural(n / 10);
      var s := Natural(n);
      assert s[..|s| - 1] == Natural(n / 10);
    }
  }

  lemma {:induction false} ZerosAreZero(z: string)
    requires forall i :: 0 <= i < |z| ==> z[i] == '0'
    ensures AllDigits(z, 10) && ValueOf(z, 10) == 0
  {
    if z != [] {
      ZerosAreZero(z[..|z| - 1]);
    }
  }

  /** Leading zeros do not change the value. */
  lemma {:induction false} LeadingZeros(z: string, ds: string)
    requires forall i :: 0 <= i < |z| ==> z[i] == '0'
    requires AllDigits(ds, 10)
    ensures AllDigits(z + ds, 10) && ValueOf(z + ds, 10) == ValueOf(ds, 10)
  {
    ZerosAreZero(z);
    assert AllDigits(z + ds, 10) by {
      forall i | 0 <= i < |z + ds| ensures DigitValue((z + ds)[i], 10).Some? {
        if i >= |z| {
          assert (z + ds)[i] == ds[i - |z|];
        }
      }
    }
    if ds != [] {
      var init := ds[..|ds| - 1];
      LeadingZeros(z, init);
      assert (z + ds)[..|z + ds| - 1] == z + init;
    } else {
      assert z + ds == z;
    }
  }

  lemma {:induction false} DigitPrefixOfDigits(s: string)
    requires AllDigits(s, 10)
    ensures DigitPrefix(s, 10) == s
  {
    if s != [] {
      DigitPrefixOfDigits(s[1..]);
    }
  }

  /** A non-empty run of decimal digits parses as its value (it cannot start with "0x"). */
  lemma UnsignedDecimal(p: string)
    requires p != [] && AllDigits(p, 10)
    ensures Unsigned(p) == Some(ValueOf(p, 10))
  {
    DigitPrefixOfDigits(p);
    if |p| >= 2 {
      assert DigitValue(p[1], 10).Some?;
    }
  }

  /** Parsing the zero-padded decimal rendering of a natural number gives it back. */
  lemma ParsePadded(m: nat)
    ensures AllDigits(PadStart(Natural(m), 3, '0'), 10)
    ensures ParseInt(PadStart(Natural(m), 3, '0')) == Some(m)
  {
    var ds := Natural(m);
    var p := PadStart(ds, 3, '0');
    var z := p[..|p| - |ds|];
    assert p == z + ds;
    LeadingZeros(z, ds);
    ValueOfNatural(m);
    UnsignedDecimal(p);
    NoLeadingSpace(p);
  }

  lemma NoLeadingSpace(p: string)
    requires p != [] && DigitValue(p[0], 10).Some?
    ensures ParseInt(p) == Unsigned(p)
  {
    assert TrimStart(p) == p;
  }

  /**
   * With n the number after "EMP" in the last ID and n + 1 not negative, the
   * next ID is "EMP" then n + 1 in decimal, zero-padded to at least three
   * digits but never cut, and reading it back gives n + 1.
   */
  lemma Successor(last: string, n: int)
    requires last != "" && ParseInt(StripEmp(last)) == Some(n) && n + 1 >= 0
    ensures NextEmployeeId(Some(last)) == "EMP" + PadStart(Natural(n + 1), 3, '0')
    ensures |NextEmployeeId(Some(last))| - 3 == if |Natural(n + 1)| >= 3 then |Natural(n + 1)| else 3
    ensures AllDigits(NextEmployeeId(Some(last))[3..], 10)
    ensures ParseInt(StripEmp(NextEmployeeId(Some(last)))) == Some(n + 1)
  {
    assert Decimal(n + 1) == Natural(n + 1);
    assert NextEmployeeId(Some(last)) == "EMP" + PadStart(Natural(n + 1), 3, '0');
    PaddedId(n + 1);
  }

  /** The ID built from a number: "EMP", then at least three digits, and it reads back as that number. */
  lemma PaddedId(m: nat)
    ensures |"EMP" + PadStart(Natural(m), 3, '0')| - 3 == if |Natural(m)| >= 3 then |Natural(m)| else 3
    ensures AllDigits(("EMP" + PadStart(Natural(m), 3, '0'))[3..], 10)
    ensures ParseInt(StripEmp("EMP" + PadStart(Natural(m), 3, '0'))) == Some(m)
  {
    var ds := Natural(m);
    var p := PadStart(ds, 3, '0');
    var r := "EMP" + p;
    assert r[..3] == "EMP" && r[3..] == p;
    ParsePadded(m);
  }

  /** "EMP041" is followed by "EMP042". */
  lemma AfterEmp041()
    ensures NextEmployeeId(Some("EMP041")) == "EMP042"
  {
    ParseEmp041();
    Successor("EMP041", 41);
    RenderEmp042();
  }

  lemma ParseEmp041()
    ensures ParseInt(StripEmp("EMP041")) == Some(41)
  {
    assert StripEmp("EMP041") == "041" by {
      assert "EMP041"[..3] == "EMP" && "EMP041"[3..] == "041";
    }
    assert PadStart(Natural(41), 3, '0') == "041" by {
      assert Natural(41) == "41" by { assert Natural(4) == "4"; }
    }
    ParsePadded(41);
  }

  lemma RenderEmp042()
    ensures "EMP" + PadStart(Natural(42), 3, '0') == "EMP042"
  {
    assert Natural(42) == "42" by { assert Natural(4) == "4"; }
  }

  /** A suffix that is not a number yields NaN, rendered as "EMPNaN". */
  lemma NotANumber()
    ensures NextEmployeeId(Some("EMPabc")) == "EMPNaN"
  {
    assert StripEmp("EMPabc") == "abc" by {
      assert "EMPabc"[..3] == "EMP" && "EMPabc"[3..] == "abc";
    }
    ParseAbc();
  }

  lemma ParseAbc()
    ensures ParseInt("abc") == None
  {
    assert TrimStart("abc") == "abc" by { assert !IsSpace('a'); }
    assert Unsigned("abc") == None by {
      assert "abc"[0] != '0';
      assert DigitPrefix("abc", 10) == [];
    }
  }

  /** Three and four digit renderings, used by the example below. */
  lemma ParseEmp999()
    ensures ParseInt(StripEmp("EMP999")) == Some(999)
  {
    assert StripEmp("EMP999") == "999" by {
      assert "EMP999"[..3] == "EMP" && "EMP999"[3..] == "999";
    }
    assert Natural(999) == "999" by {
      assert Natural(9) == "9";
      assert Natural(99) == "99";
    }
    ParsePadded(999);
  }

  lemma RenderEmp1000()
    ensures "EMP" + PadStart(Natural(1000), 3, '0') == "EMP1000"
  {
    assert Natural(1000) == "1000" by {
      assert Natural(1) == "1";
      assert Natural(10) == "10";
      assert Natural(100) == "100";
    }
  }

  /** Padding never cuts: "EMP999" is followed by "EMP1000". */
  lemma AfterEmp999()
    ensures NextEmployeeId(Some("EMP999")) == "EMP1000"
  {
    ParseEmp999();
    Successor("EMP999", 999);
    RenderEmp1000();
  }

  // ---------------------------------------------------------------------
  // Which ID counts as the last one

  /** String order of the `employeeId` sort: character by character, a proper prefix first. */
  predicate IdLess(a: string, b: string) {
    if a == [] then b != []
    else if b == [] then false
    else if a[0] != b[0] then a[0] < b[0]
    else IdLess(a[1..], b[1..])
  }

  lemma {:induction false} IdLessTotal(a: string, b: string)
    ensures a == b || IdLess(a, b) || IdLess(b, a)
  {
    if a != [] && b != [] && a[0] == b[0] {
      IdLessTotal(a[1..], b[1..]);
      if a[1..] == b[1..] {
        assert a == [a[0]] + a[1..] && b == [b[0]] + b[1..];
      }
    }
  }

  lemma {:induction false} IdLessAsymmetric(a: string, b: string)
    requires IdLess(a, b)
    ensures !IdLess(b, a) && a != b
  {
    if a != [] && b != [] && a[0] == b[0] {
      IdLessAsymmetric(a[1..], b[1..]);
    }
  }

  lemma IdLessIrreflexive(a: string)
    ensures !IdLess(a, a)
  {
    if IdLess(a, a) {
      IdLessAsymmetric(a, a);
    }
  }

  lemma {:induction false} IdLessTransitive(a: string, b: string, c: string)
    requires IdLess(a, b) && IdLess(b, c)
    ensures IdLess(a, c)
  {
    if a != [] && a[0] == b[0] && b[0] == c[0] {
      IdLessTransitive(a[1..], b[1..], c[1..]);
    }
  }

  /**
   * `findOne({ employeeId: { $exists: true } }).sort({ employeeId: -1 })`
   * over the IDs on file: the greatest in string order (the first of equals).
   */
  function LexLast(ids: seq<string>): (r: Option<string>)
    ensures r.None? <==> ids == []
    ensures r.Some? ==> r.value in ids
  {
    if ids == [] then None
    else
      var rest := LexLast(ids[1..]);
      if rest.None? || !IdLess(ids[0], rest.value) then Some(ids[0]) else rest
  }

  /** No ID on file sorts after the one picked. */
  lemma {:induction false} LexLastIsGreatest(ids: seq<string>)
    requires ids != []
    ensures forall k :: 0 <= k < |ids| ==> !IdLess(LexLast(ids).value, ids[k])
  {
    var top := LexLast(ids).value;
    if |ids| > 1 {
      LexLastIsGreatest(ids[1..]);
      var rest := LexLast(ids[1..]).value;
      forall k | 0 <= k < |ids| ensures !IdLess(top, ids[k]) {
        if k == 0 {
          IdLessIrreflexive(ids[0]);
          if top != ids[0] {
            IdLessTotal(ids[0], rest);
            IdLessAsymmetric(ids[0], rest);
          }
        } else {
          assert ids[k] == ids[1..][k - 1];
          if top == ids[0] && IdLess(ids[0], ids[k]) {
            IdLessTotal(ids[0], rest);
            if ids[0] != rest {
              IdLessTransitive(rest, ids[0], ids[k]);
            }
          }
        }
      }
    } else {
      IdLessIrreflexive(ids[0]);
    }
  }

  /** The ID the registration receives, as the source picks the last one. */
  function GenerateAsWritten(ids: seq<string>): (r: string)
    ensures |r| >= 6 && r[..3] == "EMP"
    ensures ids == [] ==> r == "EMP001"
  {
    NextEmployeeId(LexLast(ids))
  }

  /** Once "EMP1000" exists, the string sort still picks "EMP999" and the next user gets "EMP1000" again. */
  lemma ReissuesEmp1000()
    ensures LexLast(["EMP999", "EMP1000"]) == Some("EMP999")
    ensures GenerateAsWritten(["EMP999", "EMP1000"]) == "EMP1000"
    ensures GenerateAsWritten(["EMP999", "EMP1000"]) in ["EMP999", "EMP1000"]
  {
    assert IdLess("EMP1000", "EMP999") by {
      assert "EMP1000"[1..] == "MP1000" && "EMP999"[1..] == "MP999";
      assert "MP1000"[1..] == "P1000" && "MP999"[1..] == "P999";
      assert "P1000"[1..] == "1000" && "P999"[1..] == "999";
    }
    assert ["EMP999", "EMP1000"][1..] == ["EMP1000"];
    IdLessAsymmetric("EMP1000", "EMP999");
    AfterEmp999();
  }

  /** The number an ID carries, as the successor reads it. */
  function Number(id: string): Option<int> {
    ParseInt(StripEmp(id))
  }

  /** The numbers the IDs on file carry, position by position. */
  function Numbers(ids: seq<string>): (ns: seq<Option<int>>)
    ensures |ns| == |ids| && forall k :: 0 <= k < |ids| ==> ns[k] == Number(ids[k])
  {
    seq(|ids|, k requires 0 <= k < |ids| => Number(ids[k]))
  }

  /** The largest non-negative number among those given, 0 when there is none. */
  function Highest(ns: seq<Option<int>>): (h: nat)
    ensures forall k :: 0 <= k < |ns| && ns[k].Some? && ns[k].value >= 0 ==> ns[k].value <= h
    ensures h == 0 || exists k :: 0 <= k < |ns| && ns[k] == Some(h)
  {
    if ns == [] then 0
    else
      var rest := Highest(ns[..|ns| - 1]);
      var last := ns[|ns| - 1];
      assert forall k :: 0 <= k < |ns| - 1 ==> ns[k] == ns[..|ns| - 1][k];
      if last.Some? && last.value > rest then last.value else rest
  }

  /** The intended successor: one more than the highest number on file, padded as before. */
  function GenerateCorrected(ids: seq<string>): string {
    "EMP" + PadStart(Natural(Highest(Numbers(ids)) + 1), 3, '0')
  }

  /** The corrected ID is never one already on file, and reads back as one more than the highest. */
  lemma CorrectedIsFresh(ids: seq<string>)
    ensures Number(GenerateCorrected(ids)) == Some(Highest(Numbers(ids)) + 1)
    ensures forall k :: 0 <= k < |ids| ==> ids[k] != GenerateCorrected(ids)
  {
    var m := Highest(Numbers(ids)) + 1;
    assert GenerateCorrected(ids) == "EMP" + PadStart(Natural(m), 3, '0');
    FreshAbove(ids, m);
  }

  /** An ID numbered above every number in use is none of the IDs in use. */
  lemma FreshAbove(ids: seq<string>, m: nat)
    requires forall k :: 0 <= k < |Numbers(ids)| && Numbers(ids)[k].Some? && Numbers(ids)[k].value >= 0 ==>
      Numbers(ids)[k].value < m
    ensures Number("EMP" + PadStart(Natural(m), 3, '0')) == Some(m)
    ensures forall k :: 0 <= k < |ids| ==> ids[k] != "EMP" + PadStart(Natural(m), 3, '0')
  {
    var r := "EMP" + PadStart(Natural(m), 3, '0');
    PaddedId(m);
    forall k | 0 <= k < |ids| ensures ids[k] != r {
      assert Numbers(ids)[k] == Number(ids[k]);
    }
  }

  /** Where the string sort does pick the highest number, the source already gives the corrected ID. */
  lemma CorrectedAgreesWithSource(ids: seq<string>)
    requires LexLast(ids).Some? && LexLast(ids).value != ""
    requires Number(LexLast(ids).value) == Some(Highest(Numbers(ids)))
    ensures GenerateAsWritten(ids) == GenerateCorrected(ids)
  {
    Successor(LexLast(ids).value, Highest(Numbers(ids)));
  }
}

/**
 * The Python string operations the import pipeline relies on: `str.strip()`,
 * `str.upper()`, `int(...)` and `float(...)` on text, and the decimal rendering
 * of row numbers and counts inside messages.
 */
module Strings {
  import opened Options

  /** The characters `str.isspace()` accepts, which `str.strip()` removes. */
  predicate IsSpace(c: char)
  {
    || c == ' '
    || ('\t' <= c <= '\r')
    || ('\U{1C}' <= c <= '\U{1F}')
    || c == '\U{85}' || c == '\U{A0}' || c == '\U{1680}'
    || ('\U{2000}' <= c <= '\U{200A}')
    || c == '\U{2028}' || c == '\U{2029}' || c == '\U{202F}' || c == '\U{205F}' || c == '\U{3000}'
  }

  predicate AllSpace(s: string)
  {
    forall i :: 0 <= i < |s| ==> IsSpace(s[i])
  }

  /** The number of whitespace characters `s` starts with. */
  function LeadingSpaces(s: string): (k: nat)
    ensures k <= |s|
  {
    if s != [] && IsSpace(s[0]) then 1 + LeadingSpaces(s[1..]) else 0
  }

  /** The length of `s` once its trailing whitespace is cut off. */
  function TrailingCut(s: string): (k: nat)
    ensures k <= |s|
  {
    if s != [] && IsSpace(s[|s| - 1]) then TrailingCut(s[..|s| - 1]) else |s|
  }

  /** `s.lstrip()`: `s` without its leading whitespace. */
  function TrimLeft(s: string): string
  {
    s[LeadingSpaces(s)..]
  }

  /** `s.rstrip()`: `s` without its trailing whitespace. */
  function TrimRight(s: string): string
  {
    s[..TrailingCut(s)]
  }

  /** `s.strip()`: `s` without its leading and trailing whitespace. */
  function Strip(s: string): string
  {
    TrimRight(TrimLeft(s))
  }

  /** `lstrip()` removes whitespace only, and stops at the first other character. */
  lemma {:induction false} LeadingSpacesBorder(s: string)
    ensures forall i :: 0 <= i < LeadingSpaces(s) ==> IsSpace(s[i])
    ensures LeadingSpaces(s) < |s| ==> !IsSpace(s[LeadingSpaces(s)])
  {
    if s != [] && IsSpace(s[0]) {
      var t := s[1..];
      LeadingSpacesBorder(t);
      forall i | 0 < i < LeadingSpaces(s) ensures IsSpace(s[i]) {
        assert s[i] == t[i - 1];
      }
      assert LeadingSpaces(s) < |s| ==> s[LeadingSpaces(s)] == t[LeadingSpaces(t)];
    }
  }

  /** `rstrip()` removes whitespace only, and stops at the last other character. */
  lemma {:induction false} TrailingCutBorder(s: string)
    ensures forall i :: TrailingCut(s) <= i < |s| ==> IsSpace(s[i])
    ensures 0 < TrailingCut(s) ==> !IsSpace(s[TrailingCut(s) - 1])
  {
    if s != [] && IsSpace(s[|s| - 1]) {
      var t := s[..|s| - 1];
      TrailingCutBorder(t);
      forall i | TrailingCut(s) <= i < |s| - 1 ensures IsSpace(s[i]) {
        assert s[i] == t[i];
      }
      assert 0 < TrailingCut(s) ==> s[TrailingCut(s) - 1] == t[TrailingCut(t) - 1];
    }
  }

  lemma TrimLeftBorder(s: string)
    ensures TrimLeft(s) == [] || !IsSpace(TrimLeft(s)[0])
    ensures TrimLeft(s) == [] <==> AllSpace(s)
    ensures AllSpace(s[..LeadingSpaces(s)])
  {
    LeadingSpacesBorder(s);
    var k := LeadingSpaces(s);
    if k < |s| {
      assert TrimLeft(s)[0] == s[k];
    }
  }

  lemma TrimRightBorder(s: string)
    ensures TrimRight(s) == [] || !IsSpace(TrimRight(s)[|TrimRight(s)| - 1])
    ensures TrimRight(s) == [] <==> AllSpace(s)
    ensures AllSpace(s[TrailingCut(s)..])
  {
    TrailingCutBorder(s);
    var k := TrailingCut(s);
    if 0 < k {
      assert TrimRight(s)[k - 1] == s[k - 1];
    }
  }

  /** `strip()` leaves no whitespace at either end. */
  lemma StripBorders(s: string)
    ensures Strip(s) == [] || (!IsSpace(Strip(s)[0]) && !IsSpace(Strip(s)[|Strip(s)| - 1]))
  {
    TrimLeftBorder(s);
    TrimRightBorder(TrimLeft(s));
  }

  /** `strip()` gives "" exactly on an all-whitespace text. */
  lemma StripEmptyIff(s: string)
    ensures Strip(s) == [] <==> AllSpace(s)
  {
    var t := TrimLeft(s);
    TrimLeftBorder(s);
    TrimRightBorder(t);
  }

  /** `strip()` cuts only whitespace, and only at the ends: the result is a slice of `s`. */
  lemma StripSlice(s: string) returns (i: nat, j: nat)
    ensures i <= j <= |s| && Strip(s) == s[i..j]
    ensures AllSpace(s[..i]) && AllSpace(s[j..])
  {
    var t := TrimLeft(s);
    TrimLeftBorder(s);
    TrimRightBorder(t);
    i := LeadingSpaces(s);
    j := i + TrailingCut(t);
    assert t[TrailingCut(t)..] == s[j..];
  }

  /** Stripping twice is stripping once. */
  lemma StripIdempotent(s: string)
    ensures Strip(Strip(s)) == Strip(s)
  {
    StripBorders(s);
    StripNoBorderSpace(Strip(s));
  }

  /** A text with no whitespace at either end is left alone by `strip()`. */
  lemma StripNoBorderSpace(s: string)
    requires s == [] || (!IsSpace(s[0]) && !IsSpace(s[|s| - 1]))
    ensures Strip(s) == s
  {
  }

  /** `c.upper()` for the ASCII letters; every other character is kept. */
  function UpperChar(c: char): (u: char)
    ensures 'a' <= c <= 'z' ==> u as int == c as int - 32
    ensures !('a' <= c <= 'z') ==> u == c
  {
    if 'a' <= c <= 'z' then (c as int - 32) as char else c
  }

  /** `s.upper()`, character by character. */
  function Upper(s: string): (r: string)
    ensures |r| == |s|
    ensures forall i :: 0 <= i < |s| ==> r[i] == UpperChar(s[i])
  {
    seq(|s|, i requires 0 <= i < |s| => UpperChar(s[i]))
  }

  /** Upper-casing a letter never makes or removes whitespace. */
  lemma {:induction false} UpperLeadingSpaces(s: string)
    ensures LeadingSpaces(Upper(s)) == LeadingSpaces(s)
  {
    if s != [] {
      assert Upper(s)[1..] == Upper(s[1..]);
      UpperLeadingSpaces(s[1..]);
    }
  }

  lemma {:induction false} UpperTrailingCut(s: string)
    ensures TrailingCut(Upper(s)) == TrailingCut(s)
  {
    if s != [] {
      assert Upper(s)[..|s| - 1] == Upper(s[..|s| - 1]);
      UpperTrailingCut(s[..|s| - 1]);
    }
  }

  /** Trimming and upper-casing can be done in either order. */
  lemma StripUpper(s: string)
    ensures Strip(Upper(s)) == Upper(Strip(s))
  {
    UpperLeadingSpaces(s);
    var k := LeadingSpaces(s);
    assert TrimLeft(Upper(s)) == Upper(TrimLeft(s));
    UpperTrailingCut(TrimLeft(s));
    var l := TrimLeft(s);
    assert TrimRight(Upper(l)) == Upper(TrimRight(l));
  }

  predicate IsDigit(c: char)
  {
    '0' <= c <= '9'
  }

  predicate AllDigits(s: string)
  {
    forall i :: 0 <= i < |s| ==> IsDigit(s[i])
  }

  function DigitChar(d: nat): (c: char)
    requires d < 10
    ensures IsDigit(c) && c as int - '0' as int == d
  {
    ('0' as int + d) as char
  }

  /** The value of a run of decimal digits, most significant first. */
  function DigitsValue(s: string): nat
    requires AllDigits(s)
  {
    if s == [] then 0 else DigitsValue(s[..|s| - 1]) * 10 + (s[|s| - 1] as int - '0' as int)
  }

  /** `str(n)` for a natural number: its shortest decimal rendering. */
  function NatToString(n: nat): (s: string)
    ensures s != [] && AllDigits(s)
    ensures |s| > 1 ==> s[0] != '0'
  {
    if n < 10 then [DigitChar(n)] else NatToString(n / 10) + [DigitChar(n % 10)]
  }

  /** Reading back the digits of `NatToString(n)` gives `n`. */
  lemma {:induction false} NatToStringValue(n: nat)
    ensures DigitsValue(NatToString(n)) == n
  {
    if n >= 10 {
      NatToStringValue(n / 10);
      var s := NatToString(n);
      assert s[..|s| - 1] == NatToString(n / 10);
    }
  }

  /** The rendering of `n` sits at index `i` of `m`, and no digit follows it there. */
  predicate NumberAt(m: string, i: nat, n: nat)
  {
    var d := NatToString(n);
    i + |d| <= |m| && m[i..i + |d|] == d && (i + |d| == |m| || !IsDigit(m[i + |d|]))
  }

  /** A text holds at most one number at a given index: the digits there can be read back. */
  lemma NumberAtUnique(m: string, i: nat, a: nat, b: nat)
    requires NumberAt(m, i, a) && NumberAt(m, i, b)
    ensures a == b
  {
    NatToStringValue(a);
    NatToStringValue(b);
  }

  /** A number written just before a non-digit can be found at its index. */
  lemma NumberBefore(p: string, n: nat, x: string)
    requires x != [] && !IsDigit(x[0])
    ensures NumberAt(p + NatToString(n) + x, |p|, n)
  {
    var d := NatToString(n);
    assert (p + d + x)[|p|..|p| + |d|] == d;
  }

  /** Text written after a number and what follows it leaves the number readable. */
  lemma NumberAtExtend(m: string, i: nat, n: nat, y: string)
    requires NumberAt(m, i, n) && i + |NatToString(n)| < |m|
    ensures NumberAt(m + y, i, n)
  {
    var d := NatToString(n);
    assert (m + y)[i..i + |d|] == m[i..i + |d|];
  }

  function Pow10(k: nat): (p: nat)
    ensures p >= 1
  {
    if k == 0 then 1 else 10 * Pow10(k - 1)
  }

  /**
   * `int(s)` on a text: surrounding whitespace is ignored, then an optional
   * sign and at least one decimal digit. `None` stands for the `ValueError`.
   */
  function ParseInt(s: string): Option<int>
  {
    var t := Strip(s);
    if t != [] && (t[0] == '-' || t[0] == '+') then
      var digits := t[1..];
      if digits != [] && AllDigits(digits) then
        var v: int := DigitsValue(digits);
        Some(if t[0] == '-' then -v else v)
      else None
    else if t != [] && AllDigits(t) then Some(DigitsValue(t))
    else None
  }

  /** `int(str(n)) == n`. */
  lemma ParseIntNatToString(n: nat)
    ensures ParseInt(NatToString(n)) == Some(n)
  {
    var s := NatToString(n);
    assert !IsSpace(s[0]) && !IsSpace(s[|s| - 1]);
    StripNoBorderSpace(s);
    NatToStringValue(n);
  }

  /** Position of the first `c` in `s`, or `|s|` when there is none. */
  function IndexOf(s: string, c: char): (k: nat)
    ensures k <= |s|
    ensures k < |s| ==> s[k] == c
    ensures forall i :: 0 <= i < k ==> s[i] != c
  {
    if s == [] then 0 else if s[0] == c then 0 else 1 + IndexOf(s[1..], c)
  }

  /** The number written with these integer digits and these fraction digits. */
  function DecimalValue(whole: string, fraction: string): real
    requires AllDigits(whole) && AllDigits(fraction)
  {
    DigitsValue(whole) as real + DigitsValue(fraction) as real / Pow10(|fraction|) as real
  }

  /**
   * The value of an unsigned decimal `digits[.digits]` or `.digits`, at
   * least one digit in all.
   */
  function UnsignedDecimal(s: string): Option<real>
  {
    var dot := IndexOf(s, '.');
    var whole := s[..dot];
    var fraction := if dot < |s| then s[dot + 1..] else [];
    if |whole| + |fraction| > 0 && AllDigits(whole) && AllDigits(fraction) then
      Some(DecimalValue(whole, fraction))
    else None
  }

  /**
   * `float(s)` on a plain decimal text: surrounding whitespace is ignored,
   * then an optional sign and an unsigned decimal. `None` stands for the
   * `ValueError`.
   */
  function ParseDecimal(s: string): Option<real>
  {
    var t := Strip(s);
    if t != [] && t[0] == '-' then Negated(UnsignedDecimal(t[1..]))
    else if t != [] && t[0] == '+' then UnsignedDecimal(t[1..])
    else UnsignedDecimal(t)
  }

  /** The value of a number read after a minus sign. */
  function Negated(v: Option<real>): Option<real>
  {
    match v
    case None => None
    case Some(x) => Some(-x)
  }

  /** `float(str(n)) == n`. */
  lemma ParseDecimalNatToString(n: nat)
    ensures ParseDecimal(NatToString(n)) == Some(n as real)
  {
    var s := NatToString(n);
    assert !IsSpace(s[0]) && !IsSpace(s[|s| - 1]);
    StripNoBorderSpace(s);
    assert IsDigit(s[0]);
    UnsignedDecimalOfDigits(s);
    NatToStringValue(n);
  }

  /** A run of digits reads as a decimal with no fraction. */
  lemma UnsignedDecimalOfDigits(s: string)
    requires s != [] && AllDigits(s)
    ensures UnsignedDecimal(s) == Some(DigitsValue(s) as real)
  {
    forall i | 0 <= i < |s| ensures s[i] != '.' { assert IsDigit(s[i]); }
    IndexOfAbsent(s, '.');
    assert s[..|s|] == s;
    assert DigitsValue([]) == 0;
  }

  lemma {:induction false} IndexOfAbsent(s: string, c: char)
    requires forall i :: 0 <= i < |s| ==> s[i] != c
    ensures IndexOf(s, c) == |s|
  {
    if s != [] { IndexOfAbsent(s[1..], c); }
  }

  /** A run of digits read with one more digit in front. */
  lemma {:induction false} DigitsValueCons(c: char, s: string)
    requires IsDigit(c) && AllDigits(s)
    ensures AllDigits([c] + s)
    ensures DigitsValue([c] + s) == (c as int - '0' as int) * Pow10(|s|) + DigitsValue(s)
    decreases |s|
  {
    if s != [] {
      var init := s[..|s| - 1];
      var last := s[|s| - 1] as int - '0' as int;
      DigitsValueCons(c, init);
      assert ([c] + s)[..|s|] == [c] + init;
      assert DigitsValue([c] + s) == DigitsValue([c] + init) * 10 + last;
      ShiftDigit(c as int - '0' as int, Pow10(|init|), DigitsValue(init), last);
    }
  }

  /** Appending a digit to `a` followed by `v`, written with `p` places for `v`. */
  lemma ShiftDigit(a: int, p: int, v: int, last: int)
    ensures (a * p + v) * 10 + last == a * (10 * p) + (v * 10 + last)
  {
  }

  /** `s` without its leading zeros. */
  function DropLeadingZeros(s: string): (r: string)
    ensures r == [] || r[0] != '0'
    ensures |r| <= |s| && r == s[|s| - |r|..]
  {
    if s != [] && s[0] == '0' then DropLeadingZeros(s[1..]) else s
  }

  /** `s` without its trailing zeros. */
  function DropTrailingZeros(s: string): (r: string)
    ensures r == [] || r[|r| - 1] != '0'
    ensures |r| <= |s| && r == s[..|r|]
  {
    if s != [] && s[|s| - 1] == '0' then DropTrailingZeros(s[..|s| - 1]) else s
  }

  /** Dropping trailing zeros keeps a text of digits made of digits. */
  lemma DropTrailingZerosDigits(s: string)
    requires AllDigits(s)
    ensures AllDigits(DropTrailingZeros(s))
  {
    var r := DropTrailingZeros(s);
    assert forall i :: 0 <= i < |r| ==> r[i] == s[i];
  }

  /** Leading zeros do not change the value of an integer part. */
  lemma {:induction false} DropLeadingZerosValue(s: string)
    requires AllDigits(s)
    ensures AllDigits(DropLeadingZeros(s)) && DigitsValue(DropLeadingZeros(s)) == DigitsValue(s)
    decreases |s|
  {
    if s != [] && s[0] == '0' {
      DropLeadingZerosValue(s[1..]);
      assert s == [s[0]] + s[1..];
      DigitsValueCons(s[0], s[1..]);
    }
  }

  /** Cutting `k` trailing zeros divides the value by `10^k`. */
  lemma {:induction false} DropTrailingZerosValue(s: string)
    requires AllDigits(s)
    ensures AllDigits(DropTrailingZeros(s))
    ensures DigitsValue(s) == DigitsValue(DropTrailingZeros(s)) * Pow10(|s| - |DropTrailingZeros(s)|)
    decreases |s|
  {
    if s != [] && s[|s| - 1] == '0' {
      var init := s[..|s| - 1];
      DropTrailingZerosValue(init);
      var d := DropTrailingZeros(init);
      assert DropTrailingZeros(s) == d;
      assert DigitsValue(s) == DigitsValue(init) * 10;
      assert Pow10(|s| - |d|) == 10 * Pow10(|init| - |d|);
      TimesTen(DigitsValue(d), Pow10(|init| - |d|));
    }
  }

  /** Multiplying by `p` and then by ten is multiplying by `10 * p`. */
  lemma TimesTen(x: int, p: int)
    ensures x * p * 10 == x * (10 * p)
  {
  }

  lemma {:induction false} Pow10Add(a: nat, b: nat)
    ensures Pow10(a + b) == Pow10(a) * Pow10(b)
  {
    if b > 0 {
      Pow10Add(a, b - 1);
      calc {
        Pow10(a + b);
        10 * Pow10(a + b - 1);
        10 * (Pow10(a) * Pow10(b - 1));
        Pow10(a) * (10 * Pow10(b - 1));
      }
    }
  }

  /** A fraction keeps its value when its numerator and denominator are scaled alike. */
  lemma Rescale(a: nat, b: nat, p: nat)
    requires b > 0 && p > 0
    ensures (a * p) as real / (b * p) as real == a as real / b as real
  {
    var x := a as real / b as real;
    assert x * b as real == a as real;
    assert (a * p) as real == a as real * p as real;
    assert (b * p) as real == b as real * p as real;
    assert x * (b * p) as real == (a * p) as real;
  }

  /** The integer digits of an unsigned decimal as written: all of it when there is no dot. */
  function WholeOf(u: string): string
  {
    u[..IndexOf(u, '.')]
  }

  /** The fraction digits of an unsigned decimal as written: none when there is no dot. */
  function FractionOf(u: string): string
  {
    var dot := IndexOf(u, '.');
    if dot < |u| then u[dot + 1..] else []
  }

  /** The integer digits `repr` prints for integer digits as written: no leading zero, or `0`. */
  function ReprWhole(whole: string): (w: string)
    requires AllDigits(whole)
    ensures w != [] && AllDigits(w)
  {
    DropLeadingZerosValue(whole);
    var d := DropLeadingZeros(whole);
    if d == [] then "0" else d
  }

  /** The printed integer digits have no leading zero unless they are `0`, and keep the value. */
  lemma ReprWholeShape(whole: string)
    requires AllDigits(whole)
    ensures var w := ReprWhole(whole); (w[0] == '0' ==> w == "0") && DigitsValue(w) == DigitsValue(whole)
  {
    DropLeadingZerosValue(whole);
    var d := DropLeadingZeros(whole);
    if d == [] {
      assert ReprWhole(whole) == "0";
      assert DigitsValue("0") == 0;
    } else {
      assert ReprWhole(whole) == d;
    }
  }

  /** The fraction digits `repr` prints for fraction digits as written: no trailing zero, or `0`. */
  function ReprFraction(fraction: string): (f: string)
    requires AllDigits(fraction)
    ensures f != [] && AllDigits(f)
  {
    DropTrailingZerosDigits(fraction);
    var d := DropTrailingZeros(fraction);
    if d == [] then "0" else d
  }

  /** The printed fraction digits have no trailing zero unless they are `0`. */
  lemma ReprFractionShape(fraction: string)
    requires AllDigits(fraction)
    ensures var f := ReprFraction(fraction); f[|f| - 1] == '0' ==> f == "0"
  {
  }

  /** The printed fraction digits have the value of the written ones. */
  lemma ReprFractionValue(fraction: string)
    requires AllDigits(fraction)
    ensures DigitsValue(ReprFraction(fraction)) as real / Pow10(|ReprFraction(fraction)|) as real
         == DigitsValue(fraction) as real / Pow10(|fraction|) as real
  {
    DropTrailingZerosValue(fraction);
    var d := DropTrailingZeros(fraction);
    var k := |fraction| - |d|;
    Pow10Add(|d|, k);
    var a, b, p := DigitsValue(d), Pow10(|d|), Pow10(k);
    assert DigitsValue(fraction) == a * p;
    assert Pow10(|fraction|) == b * p;
    Rescale(a, b, p);
    if d == [] {
      assert DigitsValue("0") == 0;
      assert a == 0;
    }
  }

  /** An unsigned decimal is its integer digits and its fraction digits, and has their value. */
  lemma UnsignedDecimalParts(u: string)
    requires UnsignedDecimal(u).Some?
    ensures AllDigits(WholeOf(u)) && AllDigits(FractionOf(u))
    ensures UnsignedDecimal(u)
         == Some(DecimalValue(WholeOf(u), FractionOf(u)))
  {
  }

  /** `r` starts and ends with a digit, and reads as `v` when taken for an unsigned decimal. */
  predicate ReadsAs(r: string, v: Option<real>)
  {
    UnsignedDecimal(r) == v && r != [] && IsDigit(r[0]) && IsDigit(r[|r| - 1])
  }

  /**
   * `repr` of the number written with these integer and fraction digits: it
   * reads back as that number, and starts and ends with a digit.
   */
  function DecimalRepr(whole: string, fraction: string): (r: string)
    requires AllDigits(whole) && AllDigits(fraction)
    ensures ReadsAs(r, Some(DecimalValue(whole, fraction)))
  {
    var w, f := ReprWhole(whole), ReprFraction(fraction);
    PrintedValue(whole, fraction);
    Dotted(w, f);
    w + "." + f
  }

  /**
   * `repr` of an unsigned decimal's value: integer digits, a dot, fraction
   * digits. It reads back as the value of `u`.
   */
  function UnsignedRepr(u: string): (r: string)
    requires UnsignedDecimal(u).Some?
    ensures ReadsAs(r, UnsignedDecimal(u))
  {
    UnsignedReprParts(u);
    DecimalRepr(WholeOf(u), FractionOf(u))
  }

  /** The printed digits of an unsigned decimal read back as its value. */
  lemma UnsignedReprParts(u: string)
    requires UnsignedDecimal(u).Some?
    ensures AllDigits(WholeOf(u)) && AllDigits(FractionOf(u))
    ensures ReadsAs(DecimalRepr(WholeOf(u), FractionOf(u)), UnsignedDecimal(u))
  {
    UnsignedDecimalParts(u);
  }

  /**
   * A text in the shape `repr` gives a float of ordinary size: integer
   * digits with no leading zero (or `0`), a dot, and fraction digits with no
   * trailing zero (or `0`), after an optional minus sign.
   */
  ghost predicate FloatText(r: string)
  {
    exists w, f ::
      && w != [] && AllDigits(w) && (w[0] == '0' ==> w == "0")
      && f != [] && AllDigits(f) && (f[|f| - 1] == '0' ==> f == "0")
      && (r == w + "." + f || r == "-" + (w + "." + f))
  }

  /**
   * `repr(float(s))` for a text `float()` accepts: `21` and ` 21.00 ` give
   * `21.0`, `+.5` gives `0.5`, `-3` gives `-3.0`.
   */
  function FloatRepr(s: string): (r: string)
    requires ParseDecimal(s).Some?
    ensures FloatText(r)
  {
    var t := Strip(s);
    var signed := t != [] && (t[0] == '-' || t[0] == '+');
    var u := if signed then t[1..] else t;
    UnsignedDecimalParts(u);
    ReprWholeShape(WholeOf(u));
    ReprFractionShape(FractionOf(u));
    if signed && t[0] == '-' then "-" + UnsignedRepr(u) else UnsignedRepr(u)
  }

  /** The dot of `w + "." + f`, `w` free of dots, is right after `w`. */
  lemma IndexOfDot(w: string, f: string)
    requires AllDigits(w)
    ensures IndexOf(w + "." + f, '.') == |w|
  {
    var r := w + "." + f;
    assert r[|w|] == '.';
    assert forall i :: 0 <= i < |w| ==> r[i] == w[i] && IsDigit(w[i]);
  }

  /** The two sides of the dot in `w + "." + f`. */
  lemma AroundDot(w: string, f: string)
    ensures var r := w + "." + f; |w| < |r| && r[..|w|] == w && r[|w| + 1..] == f
  {
  }

  /** The value of an unsigned decimal whose first dot has the digits `w` before it and `f` after it. */
  lemma UnsignedDecimalAt(r: string, w: string, f: string)
    requires |w| < |r| && IndexOf(r, '.') == |w| && r[..|w|] == w && r[|w| + 1..] == f
    requires w != [] && AllDigits(w) && AllDigits(f)
    ensures UnsignedDecimal(r) == Some(DecimalValue(w, f))
  {
  }

  /** The value of digits, a dot and digits. */
  lemma UnsignedDecimalOfParts(w: string, f: string)
    requires w != [] && AllDigits(w) && AllDigits(f)
    ensures UnsignedDecimal(w + "." + f) == Some(DecimalValue(w, f))
  {
    IndexOfDot(w, f);
    AroundDot(w, f);
    UnsignedDecimalAt(w + "." + f, w, f);
  }

  /** Digits, a dot and digits: a text bounded by digits that reads back as its value. */
  lemma Dotted(w: string, f: string)
    requires w != [] && AllDigits(w) && f != [] && AllDigits(f)
    ensures ReadsAs(w + "." + f, Some(DecimalValue(w, f)))
  {
    UnsignedDecimalOfParts(w, f);
    var r := w + "." + f;
    assert r[0] == w[0] && r[|r| - 1] == f[|f| - 1];
  }

  /** The digits `repr` prints have the value of the digits as written. */
  lemma PrintedValue(whole: string, fraction: string)
    requires AllDigits(whole) && AllDigits(fraction)
    ensures DecimalValue(ReprWhole(whole), ReprFraction(fraction)) == DecimalValue(whole, fraction)
  {
    ReprWholeShape(whole);
    ReprFractionValue(fraction);
  }

  /** `float()` of a digit-bounded text, with or without a minus sign in front. */
  lemma ParseDecimalOfDigits(u: string)
    requires u != [] && IsDigit(u[0]) && IsDigit(u[|u| - 1])
    ensures ParseDecimal(u) == UnsignedDecimal(u)
    ensures ParseDecimal("-" + u) == Negated(UnsignedDecimal(u))
  {
    StripNoBorderSpace(u);
    var m := "-" + u;
    assert m[1..] == u;
    StripNoBorderSpace(m);
  }

  /** `float(s)` read as a sign and the unsigned decimal after it. */
  lemma ParseDecimalParts(s: string)
    requires ParseDecimal(s).Some?
    ensures var t := Strip(s);
      var signed := t != [] && (t[0] == '-' || t[0] == '+');
      var u := if signed then t[1..] else t;
      && UnsignedDecimal(u).Some?
      && ParseDecimal(s) == if signed && t[0] == '-' then Negated(UnsignedDecimal(u)) else UnsignedDecimal(u)
  {
  }

  /** `float(repr(float(s))) == float(s)`: the rendering reads back as the same number. */
  lemma FloatReprRoundTrip(s: string)
    requires ParseDecimal(s).Some?
    ensures ParseDecimal(FloatRepr(s)) == ParseDecimal(s)
  {
    var t := Strip(s);
    var signed := t != [] && (t[0] == '-' || t[0] == '+');
    var u := if signed then t[1..] else t;
    ParseDecimalParts(s);
    var r := UnsignedRepr(u);
    ParseDecimalOfDigits(r);
    if signed && t[0] == '-' {
      assert FloatRepr(s) == "-" + r;
    } else {
      assert FloatRepr(s) == r;
    }
  }

  /** A text of digits has no dot: all of it is integer digits. */
  lemma DigitsNoDot(s: string)
    requires AllDigits(s)
    ensures WholeOf(s) == s && FractionOf(s) == []
  {
    forall i | 0 <= i < |s| ensures s[i] != '.' { assert IsDigit(s[i]); }
    IndexOfAbsent(s, '.');
    assert s[..|s|] == s;
  }

  /** The text of a natural number has no leading zero to drop. */
  lemma ReprWholeOfNat(n: nat)
    ensures ReprWhole(NatToString(n)) == NatToString(n)
  {
    var s := NatToString(n);
    if n == 0 {
      assert s == "0";
      assert DropLeadingZeros(s) == [];
    } else if n < 10 {
      assert s == [DigitChar(n)];
      assert s[0] != '0';
    } else {
      assert s[0] != '0';
    }
  }

  /** Digits with no fraction print with `.0` after their integer digits. */
  lemma DecimalReprNoFraction(whole: string)
    requires AllDigits(whole)
    ensures DecimalRepr(whole, []) == ReprWhole(whole) + ".0"
  {
    assert ReprFraction([]) == "0";
    DotZero(ReprWhole(whole));
  }

  /** A non-empty text of digits is an unsigned decimal with no fraction. */
  lemma DigitsUnsignedDecimal(s: string)
    requires s != [] && AllDigits(s)
    ensures UnsignedDecimal(s).Some? && UnsignedRepr(s) == DecimalRepr(s, [])
  {
    DigitsNoDot(s);
  }

  /** The text of a natural number, read as an unsigned decimal, prints with `.0` after it. */
  lemma UnsignedReprOfNat(n: nat)
    ensures UnsignedDecimal(NatToString(n)).Some? && UnsignedRepr(NatToString(n)) == NatToString(n) + ".0"
  {
    var s := NatToString(n);
    DigitsUnsignedDecimal(s);
    DecimalReprNoFraction(s);
    ReprWholeOfNat(n);
  }

  /** The text of a natural number renders as itself followed by `.0`, as `repr(21.0)` is `21.0`. */
  lemma FloatReprOfNat(n: nat)
    ensures ParseDecimal(NatToString(n)).Some?
    ensures FloatRepr(NatToString(n)) == NatToString(n) + ".0"
  {
    var s := NatToString(n);
    ParseDecimalNatToString(n);
    assert IsDigit(s[0]) && IsDigit(s[|s| - 1]);
    StripNoBorderSpace(s);
    UnsignedReprOfNat(n);
  }

  lemma DotZero(s: string)
    ensures s + "." + "0" == s + ".0"
  {
  }

  /** The quote Python's `repr` puts around a text: `"` when the text holds `'` and no `"`. */
  function ReprQuote(s: string): (q: char)
    ensures q == '"' <==> '\'' in s && '"' !in s
    ensures q == '"' || q == '\''
  {
    if '\'' in s && '"' !in s then '"' else '\''
  }

  /**
   * The characters up to U+00FF that `repr` writes as `\xHH`: the controls
   * other than tab, line feed and carriage return, DEL, the C1 controls,
   * the no-break space and the soft hyphen.
   */
  predicate HexEscaped(c: char)
  {
    (c < ' ' && c != '\t' && c != '\n' && c != '\r') || ('\U{7F}' <= c <= '\U{A0}') || c == '\U{AD}'
  }

  function HexDigit(d: nat): (c: char)
    requires d < 16
  {
    "0123456789abcdef"[d]
  }

  function HexValue(c: char): (d: nat)
    ensures d < 16
  {
    if '0' <= c <= '9' then (c - '0') as nat
    else if 'a' <= c <= 'f' then (c - 'a') as nat + 10
    else 0
  }

  lemma HexDigitValue(d: nat)
    requires d < 16
    ensures HexValue(HexDigit(d)) == d
  {
  }

  /** How `repr` writes one character of a text quoted with `q`. */
  function EscapeChar(c: char, q: char): (e: string)
    ensures 1 <= |e| <= 4
    ensures e[0] == '\\' <==> |e| > 1
  {
    if c == q || c == '\\' then ['\\', c]
    else if c == '\t' then "\\t"
    else if c == '\n' then "\\n"
    else if c == '\r' then "\\r"
    else if HexEscaped(c) then ['\\', 'x', HexDigit(c as int / 16), HexDigit(c as int % 16)]
    else [c]
  }

  function EscapeBody(s: string, q: char): (e: string)
    ensures |e| >= |s|
  {
    if s == [] then [] else EscapeChar(s[0], q) + EscapeBody(s[1..], q)
  }

  /**
   * Python's `repr` of a text: the quote of `ReprQuote`, then every
   * character escaped as `EscapeChar` says, then the same quote.
   */
  function StrRepr(s: string): (r: string)
    ensures |r| >= |s| + 2
    ensures r[0] == r[|r| - 1] == ReprQuote(s)
  {
    var q := ReprQuote(s);
    [q] + EscapeBody(s, q) + [q]
  }

  /** Reads back the body of a quoted text, undoing the escapes `EscapeChar` writes. */
  function UnescapeBody(e: string): string
    decreases |e|
  {
    if e == [] then []
    else if e[0] == '\\' && |e| >= 2 then
      if e[1] == 't' then ['\t'] + UnescapeBody(e[2..])
      else if e[1] == 'n' then ['\n'] + UnescapeBody(e[2..])
      else if e[1] == 'r' then ['\r'] + UnescapeBody(e[2..])
      else if e[1] == 'x' && |e| >= 4 then
        [(HexValue(e[2]) * 16 + HexValue(e[3])) as char] + UnescapeBody(e[4..])
      else [e[1]] + UnescapeBody(e[2..])
    else [e[0]] + UnescapeBody(e[1..])
  }

  /** Reads a text back from its `repr`. */
  function Unrepr(r: string): string
  {
    if |r| >= 2 then UnescapeBody(r[1..|r| - 1]) else []
  }

  lemma UnescapeChar(c: char, q: char, rest: string)
    requires q == '\'' || q == '"'
    ensures UnescapeBody(EscapeChar(c, q) + rest) == [c] + UnescapeBody(rest)
  {
    var e := EscapeChar(c, q);
    if c == q || c == '\\' {
      assert (e + rest)[2..] == rest;
    } else if c == '\t' || c == '\n' || c == '\r' {
      assert (e + rest)[2..] == rest;
    } else if HexEscaped(c) {
      var n := c as int;
      HexDigitValue(n / 16);
      HexDigitValue(n % 16);
      assert (e + rest)[4..] == rest;
    } else {
      assert (e + rest)[1..] == rest;
    }
  }

  lemma {:induction false} UnescapeEscapeBody(s: string, q: char)
    requires q == '\'' || q == '"'
    ensures UnescapeBody(EscapeBody(s, q)) == s
  {
    if s != [] {
      UnescapeChar(s[0], q, EscapeBody(s[1..], q));
      UnescapeEscapeBody(s[1..], q);
    }
  }

  /** `repr` loses nothing: the text can be read back from it. */
  lemma StrReprRoundTrip(s: string)
    ensures Unrepr(StrRepr(s)) == s
  {
    var q := ReprQuote(s);
    var r := StrRepr(s);
    assert r[1..|r| - 1] == EscapeBody(s, q);
    UnescapeEscapeBody(s, q);
  }

  /** Distinct texts have distinct `repr`s. */
  lemma StrReprInjective(s: string, t: string)
    requires StrRepr(s) == StrRepr(t)
    ensures s == t
  {
    StrReprRoundTrip(s);
    StrReprRoundTrip(t);
  }

  /** A character `repr` writes as it is whatever the quote. */
  predicate PlainChar(c: char)
  {
    c != '\'' && c != '"' && c != '\\' && c != '\t' && c != '\n' && c != '\r' && !HexEscaped(c)
  }

  lemma {:induction false} EscapeBodyPlain(s: string, q: char)
    requires forall i :: 0 <= i < |s| ==> PlainChar(s[i])
    requires q == '\'' || q == '"'
    ensures EscapeBody(s, q) == s
  {
    if s != [] {
      EscapeBodyPlain(s[1..], q);
    }
  }

  /** A text without quotes, backslashes or escaped controls is printed between apostrophes as it is. */
  lemma StrReprPlain(s: string)
    requires forall i :: 0 <= i < |s| ==> PlainChar(s[i])
    ensures StrRepr(s) == "'" + s + "'"
  {
    assert '\'' !in s by {
      assert forall i :: 0 <= i < |s| ==> s[i] != '\'';
    }
    EscapeBodyPlain(s, '\'');
  }

  /** The first `n` characters of `s`, or all of it when it is shorter: the `.n` precision of `%.nR`. */
  function Cut(s: string, n: nat): (r: string)
    ensures |r| == if |s| <= n then |s| else n
    ensures r <= s
  {
    if |s| <= n then s else s[..n]
  }

  /** `sep.join(parts)`. */
  function Join(parts: seq<string>, sep: string): string
  {
    if |parts| == 0 then "" else if |parts| == 1 then parts[0] else parts[0] + sep + Join(parts[1..], sep)
  }

  /** Joining `a + b` is joining `a`, the separator, then joining `b`. */
  lemma {:induction false} JoinAppend(a: seq<string>, b: seq<string>, sep: string)
    requires a != [] && b != []
    ensures Join(a + b, sep) == Join(a, sep) + sep + Join(b, sep)
  {
    if |a| == 1 {
      assert (a + b)[1..] == b;
    } else {
      assert (a + b)[1..] == a[1..] + b;
      JoinAppend(a[1..], b, sep);
    }
  }

  /**
   * Code-point lexicographic order on texts: the order in which the store
   * returns primary keys of type text.
   */
  predicate LexLe(a: string, b: string)
  {
    a == [] || (b != [] && (a[0] < b[0] || (a[0] == b[0] && LexLe(a[1..], b[1..]))))
  }

  lemma {:induction false} LexLeTotal(a: string, b: string)
    ensures LexLe(a, b) || LexLe(b, a)
  {
    if a != [] && b != [] && a[0] == b[0] { LexLeTotal(a[1..], b[1..]); }
  }

  lemma {:induction false} LexLeAntisymmetric(a: string, b: string)
    requires LexLe(a, b) && LexLe(b, a)
    ensures a == b
  {
    if a != [] && b != [] {
      LexLeAntisymmetric(a[1..], b[1..]);
      assert a == [a[0]] + a[1..];
      assert b == [b[0]] + b[1..];
    }
  }

  lemma {:induction false} LexLeTransitive(a: string, b: string, c: string)
    requires LexLe(a, b) && LexLe(b, c)
    ensures LexLe(a, c)
  {
    if a != [] && b != [] && c != [] && a[0] == b[0] && b[0] == c[0] {
      LexLeTransitive(a[1..], b[1..], c[1..]);
    }
  }

  predicate IsLeast(m: string, s: set<string>)
  {
    m in s && forall k :: k in s ==> LexLe(m, k)
  }

  lemma LeastExists(s: set<string>)
    requires s != {}
    ensures exists m :: IsLeast(m, s)
    decreases |s|
  {
    var x :| x in s;
    if s - {x} == {} {
      assert s == {x};
      LexLeTotal(x, x);
      assert IsLeast(x, s);
    } else {
      LeastExists(s - {x});
      var m :| IsLeast(m, s - {x});
      LexLeTotal(x, m);
      if LexLe(x, m) {
        forall k | k in s ensures LexLe(x, k) {
          if k != x { LexLeTransitive(x, m, k); } else { LexLeTotal(x, x); }
        }
        assert IsLeast(x, s);
      } else {
        assert IsLeast(m, s);
      }
    }
  }

  lemma LeastUnique(s: set<string>)
    ensures forall a, b :: IsLeast(a, s) && IsLeast(b, s) ==> a == b
  {
    forall a, b | IsLeast(a, s) && IsLeast(b, s) ensures a == b {
      LexLeAntisymmetric(a, b);
    }
  }

  /** The first of a non-empty set of texts in code-point order. */
  function Least(s: set<string>): (m: string)
    requires s != {}
    ensures m in s && forall k :: k in s ==> LexLe(m, k)
  {
    LeastExists(s);
    LeastUnique(s);
    var m :| IsLeast(m, s); m
  }
}

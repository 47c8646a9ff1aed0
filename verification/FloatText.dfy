/**
 fast_ftoa (memory/mem9/embed-service/json.c): the decimal text of an embedding value.  The
 value is a real number; the two float operations that round, the scaling and the addition
 of one half, go through a rounding function.
 */
module FloatText {
  import opened Ascii
  import opened JsonGrammar

  function Pow10(n: nat): (r: nat)
    ensures r > 0
  {
    if n == 0 then 1 else 10 * Pow10(n - 1)
  }

  function Digit(c: char): nat
    requires IsDigit(c)
  {
    (c - '0') as nat
  }

  /** The number a string of decimal digits denotes. */
  function DigitsValue(s: string): nat
    requires AllDigits(s)
  {
    if s == "" then 0
    else Digit(s[0]) * Pow10(|s| - 1) + DigitsValue(s[1..])
  }

  /** The number a JSON number without exponent denotes. */
  function NumberValue(n: Number): real
    requires NumberOk(n) && n.exponent.NoExponent?
  {
    var magnitude := DigitsValue(n.whole) as real + DigitsValue(n.fraction) as real / Pow10(|n.fraction|) as real;
    if n.minus then -magnitude else magnitude
  }

  function Abs(x: real): real {
    if x < 0.0 then -x else x
  }

  /** The float nearest to 5e-9. */
  const SMALLEST := 11258999.0 / 2251799813685248.0
  const CAP: nat := 99999999

  /** A trailing zero multiplies by ten, so stripping it keeps the fraction. */
  lemma {:induction false} TrailingZero(s: string)
    requires AllDigits(s)
    ensures AllDigits(s + "0") && DigitsValue(s + "0") == 10 * DigitsValue(s)
  {
    if s == "" {
      assert s + "0" == "0";
      assert DigitsValue("0") == Digit('0') * Pow10(0) + DigitsValue("");
    } else {
      assert (s + "0")[1..] == s[1..] + "0";
      TrailingZero(s[1..]);
      assert Pow10(|s|) == 10 * Pow10(|s| - 1);
      TimesTen(Digit(s[0]), Pow10(|s| - 1));
    }
  }

  lemma TimesTen(d: nat, p: nat)
    ensures d * (10 * p) == 10 * (d * p)
  {
  }

  /** One turn of the digit loop: the digits written so far and what is left of the
      number always make up the number. */
  lemma DigitPeeled(q: nat, d: nat, ds: string)
    requires AllDigits(ds) && d < 10
    ensures var c := '0' + d as char;
      && AllDigits([c] + ds)
      && DigitsValue([c] + ds) + q * Pow10(|ds| + 1) == DigitsValue(ds) + (10 * q + d) * Pow10(|ds|)
  {
    var c := '0' + d as char;
    assert ([c] + ds)[1..] == ds && Digit(c) == d;
    Recombine(q, d, Pow10(|ds|));
  }

  lemma Recombine(q: nat, d: nat, p: nat)
    ensures d * p + q * (10 * p) == (10 * q + d) * p
  {
  }

  /** Fraction digits with the trailing zeros stripped denote the same number. */
  lemma {:induction false} ZerosStripped(ds: string, k: nat)
    requires AllDigits(ds) && k <= |ds| && forall i | k <= i < |ds| :: ds[i] == '0'
    ensures AllDigits(ds[..k]) && DigitsValue(ds) == DigitsValue(ds[..k]) * Pow10(|ds| - k)
    decreases |ds|
  {
    if k == |ds| {
      assert ds[..k] == ds;
    } else {
      var shorter := ds[..|ds| - 1];
      assert ds == shorter + "0";
      ZerosStripped(shorter, k);
      TrailingZero(shorter);
      assert shorter[..k] == ds[..k];
      TimesTen(DigitsValue(ds[..k]), Pow10(|ds| - 1 - k));
    }
  }

  lemma {:induction false} Pow10Sum(a: nat, b: nat)
    ensures Pow10(a + b) == Pow10(a) * Pow10(b)
  {
    if a > 0 {
      Pow10Sum(a - 1, b);
    }
  }

  lemma SameFraction(ds: string, k: nat)
    requires AllDigits(ds) && k <= |ds| && forall i | k <= i < |ds| :: ds[i] == '0'
    ensures AllDigits(ds[..k])
    ensures DigitsValue(ds[..k]) as real / Pow10(k) as real == DigitsValue(ds) as real / Pow10(|ds|) as real
  {
    ZerosStripped(ds, k);
    Pow10Sum(k, |ds| - k);
    Cancel(DigitsValue(ds[..k]), Pow10(k), Pow10(|ds| - k));
  }

  lemma Cancel(a: nat, b: nat, c: nat)
    requires b > 0 && c > 0
    ensures b * c > 0 && a as real / b as real == (a * c) as real / (b * c) as real
  {
    var x, y, z := a as real, b as real, c as real;
    assert (a * c) as real == x * z && (b * c) as real == y * z;
    assert x / y * (y * z) == x * z;
  }

  /** What is used of rounding to the nearest single-precision number: the relative error is
      at most 2^-24, and nothing is rounded across 1/2 or 1 from close by. */
  ghost predicate SingleRounding(fl: real -> real) {
    && (forall x: real :: 0.25 <= x <= 200000000.0 ==> Abs(fl(x) - x) <= x / 16777216.0)
    && (forall x: real :: x >= 0.49999999 ==> fl(x) >= 0.5)
    && (forall x: real :: x >= 1.0 ==> fl(x) >= 1.0)
  }

  lemma SingleRoundingExists() returns (fl: real -> real)
    ensures SingleRounding(fl)
  {
    fl := x => if 0.49999999 <= x < 0.5 then 0.5 else x;
  }

  /** The rounded and capped eight digits of a fraction in [5e-9, 1). */
  function Rounded(fl: real -> real, frac: real): (r: nat)
    requires SingleRounding(fl) && SMALLEST <= frac < 1.0
    ensures 1 <= r <= CAP
  {
    var r := fl(fl(frac * 100000000.0) + 0.5).Floor;
    if r > CAP then CAP else r
  }

  /** The error of the printed value: half a unit of the eighth digit, and two roundings in
      single precision. */
  function Tolerance(val: real): real {
    0.0000000051 + 0.00000012 * Abs(val)
  }

  lemma RoundedIsNear(fl: real -> real, frac: real)
    requires SingleRounding(fl) && SMALLEST <= frac < 1.0
    ensures Abs(Rounded(fl, frac) as real / 100000000.0 - frac) <= Tolerance(frac)
  {
    var x := frac * 100000000.0;
    var p := fl(x);
    var q := fl(p + 0.5);
    assert Abs(p - x) <= x / 16777216.0 && Abs(q - (p + 0.5)) <= (p + 0.5) / 16777216.0;
    assert Abs(q.Floor as real - x) <= 0.51 + 0.00000012 * x;
    var r := Rounded(fl, frac) as real;
    assert r / 100000000.0 - frac == (r - x) / 100000000.0;
  }

  /** Where the two operations happen to be exact, the error is at most 5e-9 (and below 1e-8
      next to 1, where the cap bites). */
  lemma ExactScalingIsNearer(fl: real -> real, frac: real)
    requires SingleRounding(fl) && SMALLEST <= frac < 1.0
    requires var x := frac * 100000000.0; fl(x) == x && fl(x + 0.5) == x + 0.5
    ensures Abs(Rounded(fl, frac) as real / 100000000.0 - frac) < 0.00000001
    ensures frac < 0.999999995 ==> Abs(Rounded(fl, frac) as real / 100000000.0 - frac) <= 0.000000005
  {
    var x := frac * 100000000.0;
    var r := Rounded(fl, frac) as real;
    assert r / 100000000.0 - frac == (r - x) / 100000000.0;
  }

  /** In general it is not: the float nearest to 0.7 is scaled to 69999998.8..., which is
      rounded to 70000000, and 0.7 is printed - off by more than 1e-8. */
  lemma RoundingCostsDigits(fl: real -> real)
    requires SingleRounding(fl)
    requires fl(11744051.0 / 16777216.0 * 100000000.0) == 70000000.0 && fl(70000000.5) == 70000000.0
    ensures Rounded(fl, 11744051.0 / 16777216.0) == 70000000
    ensures Abs(0.7 - 11744051.0 / 16777216.0) > 0.00000001
  {
  }

  // By magnitude: how far off the eighth digit can be, for fractions of at most m units of it,
  // as far as the relative error of the two operations tells

  /** The error in units of the eighth digit. */
  function UnitsOff(fl: real -> real, frac: real): real
    requires SingleRounding(fl) && SMALLEST <= frac < 1.0
  {
    Abs(Rounded(fl, frac) as real - frac * 100000000.0)
  }

  /** However it is rounded, a fraction of at most m units is printed with an error of at
      most `units`. */
  ghost predicate Promised(m: nat, units: real) {
    forall fl: real -> real, frac: real
      | SingleRounding(fl) && SMALLEST <= frac < 1.0 && frac * 100000000.0 <= m as real ::
      UnitsOff(fl, frac) <= units
  }

  /** The nearest eighth digit - half a unit - can be promised for no size at all. */
  lemma HalfUnitPromisedIff(m: nat)
    ensures Promised(m, 0.5) <==> m == 0
  {
    if m > 0 {
      var fl := SingleRoundingExists();
      assert UnitsOff(fl, SMALLEST) > 0.5;
    }
  }

  /** One unit of the eighth digit can be promised exactly below 2^22 units, that is for
      fractions up to about 0.042. */
  lemma UnitPromisedIff(m: nat)
    ensures Promised(m, 1.0) <==> m < 4194304
  {
    if m < 4194304 {
      forall fl: real -> real, frac: real
        | SingleRounding(fl) && SMALLEST <= frac < 1.0 && frac * 100000000.0 <= m as real
        ensures UnitsOff(fl, frac) <= 1.0
      {
        UnitKept(fl, frac);
      }
    } else {
      UnitLost(RoundUp, 4194303.99999999 / 100000000.0);
    }
  }

  lemma UnitKept(fl: real -> real, frac: real)
    requires SingleRounding(fl) && SMALLEST <= frac < 1.0 && frac * 100000000.0 <= 4194303.0
    ensures UnitsOff(fl, frac) <= 1.0
  {
    var x := frac * 100000000.0;
    var p := fl(x);
    var q := fl(p + 0.5);
    assert Abs(p - x) <= x / 16777216.0 && Abs(q - (p + 0.5)) <= (p + 0.5) / 16777216.0;
    assert x - 1.0 <= q - 1.0 < q.Floor as real <= q <= x + 1.0;
  }

  /** Rounding up by as much as the relative error allows. */
  function RoundUp(x: real): real {
    x * (16777217.0 / 16777216.0)
  }

  lemma UnitLost(fl: real -> real, frac: real)
    requires frac == 4194303.99999999 / 100000000.0 && forall x: real :: fl(x) == RoundUp(x)
    ensures SingleRounding(fl) && UnitsOff(fl, frac) > 1.0
  {
    var x := frac * 100000000.0;
    assert fl(fl(x) + 0.5) >= 4194305.0;
  }

  /** What a caller may expect of the printed text. */
  ghost predicate Prints(text: string, val: real, n: Number) {
    && NumberOk(n) && n.exponent.NoExponent? && text == NumberText(n, "")
    && Abs(NumberValue(n) - val) <= Tolerance(val)
    && (Abs(val) == 1.0 || val == 0.0 ==> NumberValue(n) == val)
    && (n.minus <==> val < 0.0)
    && (n.fraction != "" ==> n.fraction[|n.fraction| - 1] != '0')
    && |text| <= 11
  }

  /** The acceptable texts of a value, each with the JSON number it is. */
  ghost function Numerals(val: real): iset<(string, Number)> {
    iset t: string, n: Number | Prints(t, val, n) :: (t, n)
  }

  /** Writes a value of [-1, 1]; any other value is left to snprintf (fallback). */
  method FastFtoa(fl: real -> real, val: real, buf: array<char>, at: nat) returns (pos: nat, fallback: bool, ghost n: Number)
    requires SingleRounding(fl) && at + 14 <= buf.Length
    modifies buf
    ensures fallback <==> val > 1.0 || val < -1.0
    ensures !fallback ==> 0 < pos <= 11 && (buf[at..at + pos], n) in Numerals(val)
    ensures buf[..at] == old(buf[..at])
  {
    ghost var pre := buf[..at];
    n := Number(false, "0", "", NoExponent);
    if val == 0.0 {
      Put(buf, at, "0", pre, "");
      ZeroIsExact();
      Behind(buf, at, 1, pre, "0");
      return 1, false, n;
    }
    if val > 1.0 || val < -1.0 {
      return 0, true, n;
    }
    var v, integerPart, whole;
    ghost var text;
    pos, v, integerPart, whole, text := PutWhole(val, buf, at, pre);
    var frac := v - integerPart as real;

    var count := 0;
    if frac < SMALLEST {
      n := Number(val < 0.0, whole, "", NoExponent);
      WholeIsNear(val, v, integerPart, n);
    } else {
      count, n := PutFraction(fl, val, v, buf, at + pos, pre, text);
      text := text + ("." + n.fraction);
    }
    pos := pos + count;
    Behind(buf, at, pos, pre, text);
    return pos, false, n;
  }

  /** The sign and the integer part. */
  method PutWhole(val: real, buf: array<char>, at: nat, ghost pre: string)
    returns (pos: nat, v: real, integerPart: int, whole: string, ghost text: string)
    requires at + 14 <= buf.Length && pre == buf[..at] && -1.0 <= val <= 1.0 && val != 0.0
    modifies buf
    ensures v == Abs(val) && integerPart == v.Floor && whole == (if integerPart == 0 then "0" else "1")
    ensures text == (if val < 0.0 then "-" else "") + whole && pos == |text|
    ensures buf[..at + pos] == pre + text
  {
    pos, v, text := 0, val, "";
    if v < 0.0 {
      Put(buf, at, "-", pre, text);
      pos, v, text := 1, -v, "-";
    }
    integerPart := v.Floor;
    whole := ['0' + integerPart as char];
    Put(buf, at + pos, whole, pre, text);
    pos, text := pos + 1, text + whole;
  }

  /** The decimal point and the digits behind it. */
  method PutFraction(fl: real -> real, val: real, v: real, buf: array<char>, at: nat, ghost pre: string, ghost text: string)
    returns (count: nat, ghost n: Number)
    requires SingleRounding(fl) && v == Abs(val) && SMALLEST <= v < 1.0 && text == if val < 0.0 then "-0" else "0"
    requires at + 9 <= buf.Length && at == |pre| + |text| && buf[..at] == pre + text
    modifies buf
    ensures (text + ("." + n.fraction), n) in Numerals(val) && count <= 9
    ensures count == 1 + |n.fraction| && at + count <= buf.Length
    ensures buf[..at + count] == pre + (text + ("." + n.fraction))
  {
    Put(buf, at, ".", pre, text);
    var fracInt := Rounded(fl, v);
    var digits := EightDigits(fracInt);
    count := WithoutTrailingZeros(digits);
    n := Number(val < 0.0, "0", digits[..count], NoExponent);
    DigitsAreNear(fl, val, v, digits, count - 1, n);
    Put(buf, at + 1, digits[..count], pre, text + ".");
    assert (text + ".") + digits[..count] == text + ("." + digits[..count]);
    count := count + 1;
  }

  lemma Behind(buf: array<char>, at: nat, pos: nat, pre: string, text: string)
    requires |pre| == at && |text| == pos && at + pos <= buf.Length && buf[..at + pos] == pre + text
    ensures buf[..at] == pre && buf[at..at + pos] == text
  {
    assert buf[..at + pos][..at] == buf[..at] && buf[..at + pos][at..] == buf[at..at + pos];
  }

  /** Writes `more` behind the text that is already there. */
  method Put(buf: array<char>, at: nat, more: string, ghost pre: string, ghost text: string)
    requires at + |more| <= buf.Length && at == |pre| + |text| && buf[..at] == pre + text
    modifies buf
    ensures buf[..at + |more|] == pre + (text + more)
  {
    var i := 0;
    while i < |more|
      invariant 0 <= i <= |more|
      invariant buf[..at + i] == pre + text + more[..i]
    {
      buf[at + i] := more[i];
      assert buf[..at + i + 1] == buf[..at + i] + [more[i]];
      i := i + 1;
    }
    assert more[..i] == more;
    assert pre + text + more == pre + (text + more);
  }

  method WithoutTrailingZeros(digits: string) returns (count: nat)
    requires |digits| == 8
    ensures 0 < count <= 8 && (count > 1 ==> digits[count - 1] != '0')
    ensures forall i | count <= i < 8 :: digits[i] == '0'
  {
    var lastNonzero := 7;
    while lastNonzero > 0 && digits[lastNonzero] == '0'
      invariant 0 <= lastNonzero <= 7
      invariant forall i | lastNonzero < i < 8 :: digits[i] == '0'
    {
      lastNonzero := lastNonzero - 1;
    }
    return lastNonzero + 1;
  }

  method EightDigits(f: nat) returns (digits: string)
    requires f <= CAP
    ensures |digits| == 8 && AllDigits(digits) && DigitsValue(digits) == f
  {
    var rest := f;
    digits := "";
    var i := 7;
    while i >= 0
      invariant -1 <= i <= 7 && |digits| == 7 - i && AllDigits(digits) && rest >= 0
      invariant DigitsValue(digits) + rest * Pow10(|digits|) == f
      decreases i
    {
      DigitPeeled(rest / 10, rest % 10, digits);
      assert 10 * (rest / 10) + rest % 10 == rest;
      digits := ['0' + (rest % 10) as char] + digits;
      rest := rest / 10;
      i := i - 1;
    }
    assert Pow10(8) == 100000000;
  }

  lemma ZeroIsExact()
    ensures ("0", Number(false, "0", "", NoExponent)) in Numerals(0.0)
  {
    assert DigitsValue("0") == Digit('0') * Pow10(0) + DigitsValue("");
  }

  lemma WholeIsNear(val: real, v: real, integerPart: int, n: Number)
    requires v == Abs(val) && 0.0 < v <= 1.0 && integerPart == v.Floor && v - integerPart as real < SMALLEST
    requires n == Number(val < 0.0, if integerPart == 0 then "0" else "1", "", NoExponent)
    ensures ((if val < 0.0 then "-" else "") + n.whole, n) in Numerals(val)
  {
    assert DigitsValue("0") == Digit('0') * Pow10(0) + DigitsValue("");
    assert DigitsValue("1") == Digit('1') * Pow10(0) + DigitsValue("");
    var text := (if val < 0.0 then "-" else "") + n.whole;
    assert n.whole + ("" + "") == n.whole;
    assert Prints(text, val, n);
  }

  lemma LastDigitNonzero(digits: string, last: nat)
    requires |digits| == 8 && AllDigits(digits) && DigitsValue(digits) > 0
    requires last < 8 && (last > 0 ==> digits[last] != '0') && forall i | last < i < 8 :: digits[i] == '0'
    ensures digits[last] != '0'
  {
    if digits[last] == '0' {
      AllZeros(digits);
    }
  }

  lemma AllZeros(digits: string)
    requires AllDigits(digits) && forall i | 0 <= i < |digits| :: digits[i] == '0'
    ensures DigitsValue(digits) == 0
  {
    ZerosStripped(digits, 0);
    assert digits[..0] == "";
  }

  lemma DigitsAreNear(fl: real -> real, val: real, v: real, digits: string, last: nat, n: Number)
    requires SingleRounding(fl) && v == Abs(val) && 0.0 < v < 1.0 && SMALLEST <= v
    requires |digits| == 8 && AllDigits(digits) && DigitsValue(digits) == Rounded(fl, v)
    requires last < 8 && (last > 0 ==> digits[last] != '0') && forall i | last < i < 8 :: digits[i] == '0'
    requires n == Number(val < 0.0, "0", digits[..last + 1], NoExponent)
    ensures ((if val < 0.0 then "-0" else "0") + ("." + n.fraction), n) in Numerals(val)
  {
    RoundedIsNear(fl, v);
    FractionValue(digits, last + 1);
    LastDigitNonzero(digits, last);
    assert NumberText(n, "") == (if val < 0.0 then "-0" else "0") + ("." + n.fraction);
    assert n.fraction[|n.fraction| - 1] == digits[last];
    ValueOfFraction(n);
  }

  lemma FractionValue(digits: string, k: nat)
    requires |digits| == 8 && AllDigits(digits) && k <= 8 && forall i | k <= i < 8 :: digits[i] == '0'
    ensures AllDigits(digits[..k])
    ensures DigitsValue(digits[..k]) as real / Pow10(k) as real == DigitsValue(digits) as real / 100000000.0
  {
    SameFraction(digits, k);
    assert Pow10(8) == 100000000;
  }

  lemma ValueOfFraction(n: Number)
    requires NumberOk(n) && n.exponent.NoExponent? && n.whole == "0"
    ensures var x := DigitsValue(n.fraction) as real / Pow10(|n.fraction|) as real;
      NumberValue(n) == if n.minus then -x else x
  {
    assert DigitsValue("0") == Digit('0') * Pow10(0) + DigitsValue("");
  }
}

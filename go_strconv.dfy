/** Decimal text <-> numbers as Go's `strconv` and `fmt` produce and accept
    them: `strconv.Atoi`, the decimal forms of `strconv.ParseFloat`, zero-padded
    fixed-width digits (as `time.Format` writes them) and the `%.2f` verb. */
module GoStrconv {
  import opened Wrappers
  import opened GoInt

  predicate IsDigit(c: char) {
    '0' <= c <= '9'
  }

  predicate AllDigits(s: string) {
    forall i :: 0 <= i < |s| ==> IsDigit(s[i])
  }

  function DigitChar(d: nat): (c: char)
    requires d < 10
    ensures IsDigit(c)
  {
    ('0' as int + d) as char
  }

  function DigitValue(c: char): (d: nat)
    requires IsDigit(c)
    ensures d < 10 && DigitChar(d) == c
  {
    c as int - '0' as int
  }

  function Pow10(n: nat): (p: nat)
    ensures p >= 1
  {
    if n == 0 then 1 else 10 * Pow10(n - 1)
  }

  /** The number a run of decimal digits denotes (the empty run denotes 0). */
  function DigitsValue(s: string): (v: nat)
    requires AllDigits(s)
    ensures v < Pow10(|s|)
  {
    if s == [] then 0 else DigitsValue(s[..|s| - 1]) * 10 + DigitValue(s[|s| - 1])
  }

  /** The last `width` decimal digits of `n`, zero-padded on the left. */
  function FixedDigits(n: nat, width: nat): (s: string)
    ensures |s| == width && AllDigits(s)
  {
    if width == 0 then [] else FixedDigits(n / 10, width - 1) + [DigitChar(n % 10)]
  }

  /** The shortest decimal spelling of `n`, as `strconv.Itoa` writes it. */
  function DecimalDigits(n: nat): (s: string)
    ensures |s| >= 1 && AllDigits(s)
    ensures n < Pow10(|s|)
  {
    if n < 10 then [DigitChar(n)] else DecimalDigits(n / 10) + [DigitChar(n % 10)]
  }

  /** Writing `n` in `width` digits and reading them back gives `n` when it fits. */
  lemma {:induction false} FixedDigitsValue(n: nat, width: nat)
    requires n < Pow10(width)
    ensures DigitsValue(FixedDigits(n, width)) == n
  {
    if width > 0 {
      var s := FixedDigits(n, width);
      assert s[..|s| - 1] == FixedDigits(n / 10, width - 1);
      FixedDigitsValue(n / 10, width - 1);
    }
  }

  /** Reading a run of digits and writing it back in as many digits restores it. */
  lemma {:induction false} DigitsValueFixed(s: string)
    requires AllDigits(s)
    ensures FixedDigits(DigitsValue(s), |s|) == s
  {
    if s != [] {
      var init := s[..|s| - 1];
      DigitsValueFixed(init);
      assert s == init + [s[|s| - 1]];
    }
  }

  lemma {:induction false} DecimalDigitsValue(n: nat)
    ensures DigitsValue(DecimalDigits(n)) == n
  {
    if n >= 10 {
      var s := DecimalDigits(n);
      assert s[..|s| - 1] == DecimalDigits(n / 10);
      DecimalDigitsValue(n / 10);
    }
  }

  // ---------------------------------------------------------------- Atoi

  /** `[+-]? digit+`, the syntax `strconv.Atoi` accepts (base 10, no underscores). */
  predicate IsIntegerText(s: string) {
    if |s| > 0 && (s[0] == '+' || s[0] == '-') then |s| > 1 && AllDigits(s[1..])
    else |s| > 0 && AllDigits(s)
  }

  /** The integer an `IsIntegerText` string spells, before any range check. */
  function IntegerTextValue(s: string): int
    requires IsIntegerText(s)
  {
    if s[0] == '-' then -(DigitsValue(s[1..]) as int)
    else if s[0] == '+' then DigitsValue(s[1..])
    else DigitsValue(s)
  }

  /** `strconv.Atoi` on a 64-bit platform: a syntax error and a value outside
      the `int` range are both errors, reported here as `None`. */
  function Atoi(s: string): (r: Option<int>)
    ensures r.Some? <==> IsIntegerText(s) && IsInt64(IntegerTextValue(s))
    ensures r.Some? ==> r.value == IntegerTextValue(s)
  {
    if IsIntegerText(s) && IsInt64(IntegerTextValue(s)) then Some(IntegerTextValue(s)) else None
  }

  lemma AtoiOfDecimal(n: nat)
    requires n <= MaxInt64
    ensures Atoi(DecimalDigits(n)) == Some(n)
  {
    DecimalDigitsValue(n);
  }

  // ---------------------------------------------------------- ParseFloat

  /** Index of the first character of `s` satisfying `IsExpMark`, or |s|. */
  function IndexOfExp(s: string): (i: nat)
    ensures i <= |s|
    ensures i < |s| ==> s[i] == 'e' || s[i] == 'E'
    ensures forall k :: 0 <= k < i ==> s[k] != 'e' && s[k] != 'E'
  {
    if s == [] then 0
    else if s[0] == 'e' || s[0] == 'E' then 0
    else 1 + IndexOfExp(s[1..])
  }

  function IndexOfDot(s: string): (i: nat)
    ensures i <= |s|
    ensures i < |s| ==> s[i] == '.'
    ensures forall k :: 0 <= k < i ==> s[k] != '.'
  {
    if s == [] then 0 else if s[0] == '.' then 0 else 1 + IndexOfDot(s[1..])
  }

  function Power10(e: int): (p: real)
    ensures p > 0.0
  {
    if e >= 0 then Pow10(e) as real else 1.0 / (Pow10(-e) as real)
  }

  /** Digits with at most one point and at least one digit, read exactly. */
  function ParseMantissa(m: string): (r: Option<real>)
    ensures r.Some? ==> r.value >= 0.0
  {
    var dot := IndexOfDot(m);
    var intPart := m[..dot];
    var fracPart := if dot < |m| then m[dot + 1..] else [];
    if !AllDigits(intPart) || !AllDigits(fracPart) || |intPart| + |fracPart| == 0 then None
    else Some(PointedValue(intPart, fracPart))
  }

  /** The number `intPart.fracPart` denotes. */
  function PointedValue(intPart: string, fracPart: string): (v: real)
    requires AllDigits(intPart) && AllDigits(fracPart)
    ensures v >= 0.0
  {
    DigitsValue(intPart) as real + DigitsValue(fracPart) as real / Pow10(|fracPart|) as real
  }

  /** An unsigned decimal number: a mantissa and an optional exponent
      `e`/`E` with an optional sign and at least one digit. */
  function ParseUnsigned(body: string): (r: Option<real>)
    ensures r.Some? ==> r.value >= 0.0
  {
    var e := IndexOfExp(body);
    var mantissa := ParseMantissa(body[..e]);
    if mantissa.None? then None
    else if e == |body| then mantissa
    else if IsIntegerText(body[e + 1..]) then Some(mantissa.value * Power10(IntegerTextValue(body[e + 1..])))
    else None
  }

  /** The decimal spellings `strconv.ParseFloat` accepts: an optional sign
      before an unsigned decimal number. The value is exact. */
  function ParseFloat(s: string): (r: Option<real>)
  {
    if |s| > 0 && (s[0] == '+' || s[0] == '-') then
      var u := ParseUnsigned(s[1..]);
      if u.Some? && s[0] == '-' then Some(-u.value) else u
    else ParseUnsigned(s)
  }

  // --------------------------------------------------------------- %.2f

  /** `x` rounded to the nearest integer, ties to even. */
  function RoundHalfEven(x: real): (n: int)
    ensures x - 0.5 <= n as real <= x + 0.5
    ensures x >= 0.0 ==> n >= 0
  {
    var f := x.Floor;
    var frac := x - f as real;
    if frac > 0.5 || (frac == 0.5 && f % 2 == 1) then f + 1 else f
  }

  /** `fmt.Sprintf("%.2f", r)` on the exact value `r`: a minus sign for a
      negative value, the integral part, a point and two fractional digits. */
  function FormatFixed2(r: real): (s: string)
    ensures |s| >= 4 && s[|s| - 3] == '.'
    ensures (s[0] == '-' <==> r < 0.0) && (r >= 0.0 ==> IsDigit(s[0])) && IsDigit(s[|s| - 1])
  {
    var neg := r < 0.0;
    var cents := RoundHalfEven((if neg then -r else r) * 100.0);
    var c: nat := cents;
    (if neg then "-" else "") + (DecimalDigits(c / 100) + "." + FixedDigits(c % 100, 2))
  }

  /** A value with at most two fractional digits survives `%.2f` followed by
      `ParseFloat` unchanged. */
  lemma {:induction false} FormatFixed2RoundTrip(r: real)
    requires (r * 100.0).Floor as real == r * 100.0
    ensures ParseFloat(FormatFixed2(r)) == Some(r)
  {
    var neg := r < 0.0;
    var a := if neg then -r else r;
    var k := (r * 100.0).Floor;
    assert a * 100.0 == (if neg then -k else k) as real;
    var c: nat := if neg then -k else k;
    FormatFixed2Cents(r, c);
    CentsValue(a, c);
    ParsePointed(neg, DecimalDigits(c / 100), FixedDigits(c % 100, 2));
  }

  /** `%.2f` of a value that is a whole number `c` of hundredths. */
  lemma FormatFixed2Cents(r: real, c: nat)
    requires c as real == (if r < 0.0 then -r else r) * 100.0
    ensures FormatFixed2(r) ==
            (if r < 0.0 then "-" else "") + (DecimalDigits(c / 100) + "." + FixedDigits(c % 100, 2))
  {
    RoundIntegral((if r < 0.0 then -r else r) * 100.0, c);
  }

  /** Reading back the two parts `%.2f` writes for `c` hundredths gives `c / 100`. */
  lemma CentsValue(a: real, c: nat)
    requires c as real == a * 100.0
    ensures PointedValue(DecimalDigits(c / 100), FixedDigits(c % 100, 2)) == a
  {
    var q, m := c / 100, c % 100;
    assert c == 100 * q + m;
    assert c as real == 100.0 * q as real + m as real;
    DecimalDigitsValue(q);
    FixedDigitsValue(m, 2);
    assert Pow10(2) == 100;
  }

  lemma RoundIntegral(x: real, n: int)
    requires x == n as real
    ensures RoundHalfEven(x) == n
  {
  }

  /** `ParseFloat` reads `[-]digits.digits` as the number it spells. */
  lemma {:induction false} ParsePointed(neg: bool, ip: string, fp: string)
    requires |ip| >= 1 && AllDigits(ip) && AllDigits(fp)
    ensures ParseFloat((if neg then "-" else "") + (ip + "." + fp)) ==
            Some(if neg then -PointedValue(ip, fp) else PointedValue(ip, fp))
  {
    var body := ip + "." + fp;
    assert body[0] == ip[0];
    ParsePointedUnsigned(ip, fp);
    ParseFloatSigned(neg, body);
  }

  /** An optional minus sign before a numeral that starts with a digit negates
      what the numeral reads as. */
  lemma ParseFloatSigned(neg: bool, body: string)
    requires |body| >= 1 && IsDigit(body[0])
    ensures var u := ParseUnsigned(body);
            ParseFloat((if neg then "-" else "") + body) == (if neg && u.Some? then Some(-u.value) else u)
  {
    if neg {
      ParseFloatNegated(body);
    } else {
      assert "" + body == body;
    }
  }

  lemma ParseFloatNegated(body: string)
    requires |body| >= 1
    ensures var u := ParseUnsigned(body);
            ParseFloat("-" + body) == (if u.Some? then Some(-u.value) else u)
  {
    var s := "-" + body;
    assert s[0] == '-' && s[1..] == body;
  }

  lemma {:induction false} ParsePointedUnsigned(ip: string, fp: string)
    requires |ip| >= 1 && AllDigits(ip) && AllDigits(fp)
    ensures ParseUnsigned(ip + "." + fp) == Some(PointedValue(ip, fp))
  {
    var body := ip + "." + fp;
    ParsePointedMantissa(ip, fp);
    forall k | 0 <= k < |body| ensures body[k] != 'e' && body[k] != 'E' {
      if k < |ip| { assert body[k] == ip[k]; } else if k > |ip| { assert body[k] == fp[k - |ip| - 1]; }
    }
    IndexOfExpAbsent(body);
    assert body[..|body|] == body;
  }

  lemma {:induction false} ParsePointedMantissa(ip: string, fp: string)
    requires |ip| >= 1 && AllDigits(ip) && AllDigits(fp)
    ensures ParseMantissa(ip + "." + fp) == Some(PointedValue(ip, fp))
  {
    var m := ip + "." + fp;
    forall k | 0 <= k < |ip| ensures m[k] != '.' {
      assert m[k] == ip[k];
    }
    IndexOfDotAt(m, |ip|);
    assert m[..|ip|] == ip;
    assert m[|ip| + 1..] == fp;
  }

  lemma {:induction false} IndexOfExpAbsent(s: string)
    requires forall k :: 0 <= k < |s| ==> s[k] != 'e' && s[k] != 'E'
    ensures IndexOfExp(s) == |s|
  {
    if s != [] {
      IndexOfExpAbsent(s[1..]);
    }
  }

  lemma {:induction false} IndexOfDotAt(s: string, i: nat)
    requires i < |s| && s[i] == '.'
    requires forall k :: 0 <= k < i ==> s[k] != '.'
    ensures IndexOfDot(s) == i
  {
    if i > 0 {
      IndexOfDotAt(s[1..], i - 1);
    }
  }
}

/** Text-to-number conversions the engines rely on: Rust's `str::parse::<u64>()`,
    `str::parse::<f64>()` (over exact reals), and `Display` of an unsigned integer. */
module Numbers {
  import opened Wrappers

  const U64_LIMIT: int := 0x1_0000_0000_0000_0000

  /** Rust's `u64`: subtraction on it is checked, so `b - a` is only well formed when `a <= b`. */
  newtype u64 = x: int | 0 <= x < 0x1_0000_0000_0000_0000

  predicate IsDigit(c: char) { '0' <= c <= '9' }

  predicate AllDigits(s: string) { forall i :: 0 <= i < |s| ==> IsDigit(s[i]) }

  function DigitValue(c: char): (d: nat)
    requires IsDigit(c)
    ensures d < 10
  {
    c as int - '0' as int
  }

  function DigitChar(d: nat): (c: char)
    requires d < 10
    ensures IsDigit(c) && DigitValue(c) == d
  {
    ('0' as int + d) as char
  }

  function Pow10(n: nat): (r: nat)
    ensures r >= 1
  {
    if n == 0 then 1 else 10 * Pow10(n - 1)
  }

  /** The value of a string of decimal digits, most significant first; leading zeros are allowed. */
  function DecimalValue(ds: string): (v: nat)
    requires AllDigits(ds)
    ensures v < Pow10(|ds|)
  {
    if ds == [] then 0 else DecimalValue(ds[..|ds| - 1]) * 10 + DigitValue(ds[|ds| - 1])
  }

  /** `format!("{}", n)` for an unsigned integer: shortest decimal, no sign, no leading zero. */
  function FormatNat(n: nat): (s: string)
    ensures |s| > 0 && AllDigits(s)
    ensures DecimalValue(s) == n
    ensures s[0] == '0' <==> n == 0
  {
    if n < 10 then [DigitChar(n)]
    else
      var prefix := FormatNat(n / 10);
      var s := prefix + [DigitChar(n % 10)];
      assert s[..|s| - 1] == prefix;
      s
  }

  /** The value of a non-empty string of digits, or `None` when the string is empty or
      holds anything but digits. */
  function DigitsValue(ds: string): Option<nat>
  {
    if |ds| == 0 || !IsDigit(ds[|ds| - 1]) then None
    else if |ds| == 1 then Some(DigitValue(ds[0]))
    else
      match DigitsValue(ds[..|ds| - 1])
      case None => None
      case Some(v) => Some(v * 10 + DigitValue(ds[|ds| - 1]))
  }

  /** `DigitsValue` accepts exactly the non-empty digit strings, and gives their value. */
  lemma {:induction false} DigitsValueCorrect(ds: string)
    ensures DigitsValue(ds).Some? <==> |ds| > 0 && AllDigits(ds)
    ensures DigitsValue(ds).Some? ==> DigitsValue(ds).value == DecimalValue(ds)
  {
    if |ds| > 1 {
      DigitsValueCorrect(ds[..|ds| - 1]);
      if IsDigit(ds[|ds| - 1]) && !AllDigits(ds[..|ds| - 1]) {
        var k :| 0 <= k < |ds| - 1 && !IsDigit(ds[..|ds| - 1][k]);
        assert ds[k] == ds[..|ds| - 1][k];
      }
    } else if |ds| == 1 {
      assert ds[..0] == [];
    }
  }

  /** `s.parse::<u64>()`: an optional leading `+`, then one or more ASCII digits whose
      value fits in 64 bits; anything else (empty text, a lone `+`, a `-`, any other
      character, an overflow) is an error. */
  function ParseU64(s: string): Option<u64>
  {
    match DigitsValue(if |s| > 0 && s[0] == '+' then s[1..] else s)
    case Some(v) => if v < U64_LIMIT then Some(v as u64) else None
    case None => None
  }

  /** Formatting a `u64` and parsing it back gives the same number. */
  lemma ParseFormatU64(n: u64)
    ensures ParseU64(FormatNat(n as nat)) == Some(n)
  {
    DigitsValueCorrect(FormatNat(n as nat));
  }

  /** A parsed `u64` is written with digits only, after an optional `+`; so a
      negative or signed-minus text never parses. */
  lemma ParseU64RejectsMinus(s: string)
    requires |s| > 0 && s[0] == '-'
    ensures ParseU64(s) == None
  {
    assert !IsDigit(s[0]);
    DigitsValueCorrect(s);
  }

  /** `10^e` applied to `m`, for a possibly negative exponent `e`. */
  function Scale(m: real, e: int): real
  {
    if e >= 0 then m * Pow10(e) as real else m / Pow10(-e) as real
  }

  // ---------------------------------------------------------------------------
  // `str::parse::<f64>()`: a left-to-right scan of an optional sign, a decimal
  // mantissa (`int`, `int.`, `int.frac` or `.frac`) and an optional exponent.

  /** Where the scanner is in the text. */
  datatype Phase = Start | Integral | Fractional | ExponentStart | ExponentDigits

  /** The scanner's state: its phase, the sign, every mantissa digit read so far as one
      integer, how many of those digits follow the point, and the exponent read so far. */
  datatype FloatScan = FloatScan(
    phase: Phase,
    negative: bool,
    mantissa: nat,
    mantissaDigits: nat,
    fractionDigits: nat,
    exponentNegative: bool,
    exponent: nat,
    exponentDigits: nat)

  const SCAN_START := FloatScan(Start, false, 0, 0, 0, false, 0, 0)

  function MantissaDigit(st: FloatScan, c: char): FloatScan
    requires IsDigit(c)
  {
    st.(mantissa := st.mantissa * 10 + DigitValue(c),
        mantissaDigits := st.mantissaDigits + 1,
        fractionDigits := if st.phase == Fractional then st.fractionDigits + 1 else st.fractionDigits)
  }

  function ExponentDigit(st: FloatScan, c: char): FloatScan
    requires IsDigit(c)
  {
    st.(exponent := st.exponent * 10 + DigitValue(c), exponentDigits := st.exponentDigits + 1)
  }

  /** One character, or `None` where the grammar rejects it. */
  function Advance(st: FloatScan, c: char): Option<FloatScan>
  {
    match st.phase
    case Start =>
      if c == '+' then Some(st.(phase := Integral))
      else if c == '-' then Some(st.(phase := Integral, negative := true))
      else if IsDigit(c) then Some(MantissaDigit(st.(phase := Integral), c))
      else if c == '.' then Some(st.(phase := Fractional))
      else None
    case Integral =>
      if IsDigit(c) then Some(MantissaDigit(st, c))
      else if c == '.' then Some(st.(phase := Fractional))
      else if (c == 'e' || c == 'E') && st.mantissaDigits > 0 then Some(st.(phase := ExponentStart))
      else None
    case Fractional =>
      if IsDigit(c) then Some(MantissaDigit(st, c))
      else if (c == 'e' || c == 'E') && st.mantissaDigits > 0 then Some(st.(phase := ExponentStart))
      else None
    case ExponentStart =>
      if c == '+' then Some(st.(phase := ExponentDigits))
      else if c == '-' then Some(st.(phase := ExponentDigits, exponentNegative := true))
      else if IsDigit(c) then Some(ExponentDigit(st.(phase := ExponentDigits), c))
      else None
    case ExponentDigits =>
      if IsDigit(c) then Some(ExponentDigit(st, c)) else None
  }

  function Scan(s: string, st: FloatScan): Option<FloatScan>
  {
    if s == [] then Some(st)
    else
      match Advance(st, s[0])
      case None => None
      case Some(next) => Scan(s[1..], next)
  }

  /** The end of the text: at least one mantissa digit, and digits after any `e`. */
  function Finish(st: FloatScan): Option<real>
  {
    if st.mantissaDigits == 0 || st.phase == ExponentStart || (st.phase == ExponentDigits && st.exponentDigits == 0) then
      None
    else
      var magnitude := Scale(st.mantissa as real / Pow10(st.fractionDigits) as real,
                             if st.exponentNegative then -(st.exponent as int) else st.exponent);
      Some(if st.negative then -magnitude else magnitude)
  }

  /** `s.parse::<f64>()` over exact reals. The words `inf`, `infinity` and `nan` have no
      real value and are not accepted here; rounding to the nearest double is not modelled. */
  function ParseReal(s: string): Option<real>
  {
    match Scan(s, SCAN_START)
    case Some(st) => Finish(st)
    case None => None
  }

  /** Scanning a text and one more character is scanning the text, then the character. */
  lemma {:induction false} ScanSnoc(s: string, c: char, st: FloatScan)
    ensures Scan(s + [c], st) == match Scan(s, st) case Some(x) => Advance(x, c) case None => None
  {
    if s != [] {
      assert (s + [c])[0] == s[0] && (s + [c])[1..] == s[1..] + [c];
      match Advance(st, s[0])
      case None =>
      case Some(next) => ScanSnoc(s[1..], c, next);
    } else {
      assert [c][1..] == [];
    }
  }

  /** In the integral part, each digit shifts the mantissa one decimal place. */
  lemma {:induction false} ScanIntegralDigits(ds: string, st: FloatScan)
    requires st.phase == Integral && AllDigits(ds)
    ensures Scan(ds, st) == Some(st.(mantissa := st.mantissa * Pow10(|ds|) + DecimalValue(ds),
                                     mantissaDigits := st.mantissaDigits + |ds|))
  {
    if ds != [] {
      var n := |ds| - 1;
      var init := ds[..n];
      assert AllDigits(init);
      ScanIntegralDigits(init, st);
      assert init + [ds[n]] == ds;
      ScanSnoc(init, ds[n], st);
      var x := Scan(init, st).value;
      assert IsDigit(ds[n]) && x.phase == Integral;
      assert Advance(x, ds[n]) == Some(MantissaDigit(x, ds[n]));
      assert Scan(ds, st) == Some(MantissaDigit(x, ds[n]));
      ShiftDigit(st.mantissa, Pow10(n), DecimalValue(init), DigitValue(ds[n]));
      assert MantissaDigit(x, ds[n]).mantissa == st.mantissa * Pow10(|ds|) + DecimalValue(ds);
    }
  }

  lemma ShiftDigit(m: nat, p: nat, v: nat, d: nat)
    ensures (m * p + v) * 10 + d == m * (p * 10) + (v * 10 + d)
  {
  }

  /** A string of digits (what `u64` parsing accepts after its optional `+`) parses as
      the same number when read as a float. */
  lemma ParseRealOfDigits(s: string)
    requires |s| > 0 && AllDigits(s)
    ensures ParseReal(s) == Some(DecimalValue(s) as real)
  {
    var integral := SCAN_START.(phase := Integral);
    assert IsDigit(s[0]);
    assert Advance(SCAN_START, s[0]) == Advance(integral, s[0]);
    assert Scan(s, SCAN_START) == Scan(s, integral);
    ScanIntegralDigits(s, integral);
    var st := integral.(mantissa := DecimalValue(s), mantissaDigits := |s|);
    assert Scan(s, SCAN_START) == Some(st);
    assert Pow10(0) == 1;
    assert Scale(st.mantissa as real / 1.0, 0) == st.mantissa as real;
  }

  /** Every text that parses as a `u64` parses as a float with the same value. */
  lemma ParseU64ThenParseReal(s: string, n: u64)
    requires ParseU64(s) == Some(n)
    ensures ParseReal(s) == Some(n as real)
  {
    if |s| > 0 && s[0] == '+' {
      DigitsValueCorrect(s[1..]);
      ParseRealOfDigits(s[1..]);
      var integral := SCAN_START.(phase := Integral);
      assert Scan(s, SCAN_START) == Scan(s[1..], integral);
      assert Scan(s[1..], integral) == Scan(s[1..], SCAN_START);
    } else {
      DigitsValueCorrect(s);
      ParseRealOfDigits(s);
    }
  }

  /** Formatting a natural number and parsing it as a float gives the same number. */
  lemma ParseRealOfFormat(n: nat)
    ensures ParseReal(FormatNat(n)) == Some(n as real)
  {
    ParseRealOfDigits(FormatNat(n));
  }
}

/** Java's 32-bit `int`, and the decimal text the adapter stores for it:
    `Integer.toString` on the way into the hash, `Integer.valueOf` on the way out. */
module IntCodec {

  const MinInt: int := -0x8000_0000
  const MaxInt: int := 0x7fff_ffff

  /** The values a non-null `java.lang.Integer` can hold. */
  type Int32 = x: int | MinInt <= x <= MaxInt

  datatype Option<T> = None | Some(value: T)

  predicate IsDigit(c: char) {
    '0' <= c <= '9'
  }

  predicate AllDigits(s: string) {
    forall i :: 0 <= i < |s| ==> IsDigit(s[i])
  }

  function DigitChar(d: nat): (c: char)
    requires d < 10
    ensures IsDigit(c) && DigitValue(c) == d
  {
    (48 + d) as char
  }

  function DigitValue(c: char): (d: nat)
    requires IsDigit(c)
    ensures d < 10
  {
    (c as int) - 48
  }

  /** The value of a string of decimal digits, most significant first. */
  function DecimalValue(ds: string): nat
    requires AllDigits(ds)
    decreases |ds|
  {
    if ds == [] then 0 else 10 * DecimalValue(ds[..|ds| - 1]) + DigitValue(ds[|ds| - 1])
  }

  /** The shortest decimal numeral of `n`: at least one digit, and no leading zero
      unless `n` is zero itself. */
  function NatToDecimal(n: nat): (s: string)
    ensures |s| >= 1 && AllDigits(s)
    ensures s[0] == '0' <==> n == 0
    ensures n == 0 ==> s == "0"
    decreases n
  {
    if n < 10 then [DigitChar(n)] else NatToDecimal(n / 10) + [DigitChar(n % 10)]
  }

  /** `Integer.toString(v)`: an optional `-`, then the digits of the magnitude. */
  function EncodeInt(v: int): (s: string)
    ensures |s| >= 1 && (s[0] == '-' <==> v < 0)
  {
    if v < 0 then "-" + NatToDecimal(-v) else NatToDecimal(v)
  }

  /** How many characters of `s` form the sign that `Integer.parseInt` accepts. */
  function SignLength(s: string): (k: nat)
    ensures k <= 1 && k <= |s|
  {
    if |s| > 0 && (s[0] == '-' || s[0] == '+') then 1 else 0
  }

  /** A string `Integer.parseInt` reads as a number (before the range check):
      an optional sign followed by at least one digit. */
  predicate IsNumeral(s: string) {
    SignLength(s) < |s| && AllDigits(s[SignLength(s)..])
  }

  function NumeralValue(s: string): int
    requires IsNumeral(s)
  {
    var magnitude: int := DecimalValue(s[SignLength(s)..]);
    if s[0] == '-' then -magnitude else magnitude
  }

  /** `Integer.valueOf(s)`: `None` where Java throws `NumberFormatException`, which is
      for text that is not a numeral and for a numeral outside the 32-bit range. */
  function DecodeInt(s: string): (r: Option<Int32>)
    ensures r.Some? ==> IsNumeral(s)
    ensures forall v: Int32 :: s == EncodeInt(v) ==> r == Some(v)
  {
    forall v: Int32 | s == EncodeInt(v) ensures IsNumeral(s) && NumeralValue(s) == v {
      NumeralOfEncodeInt(v);
    }
    if IsNumeral(s) && MinInt <= NumeralValue(s) <= MaxInt then Some(NumeralValue(s)) else None
  }

  /** The text `Integer.toString` writes is exactly the text that survives a round
      trip through `Integer.valueOf` unchanged. */
  predicate Canonical(s: string) {
    match DecodeInt(s)
    case Some(v) => EncodeInt(v) == s
    case None => false
  }

  /** `(int) x` for a `long` x: keep the low 32 bits, read them in two's complement. */
  function LongToInt(x: int): (r: Int32)
    ensures (x - r) % 0x1_0000_0000 == 0
    ensures MinInt <= x <= MaxInt ==> r == x
  {
    var low := x % 0x1_0000_0000;
    if low <= MaxInt then low else low - 0x1_0000_0000
  }

  lemma {:induction false} DecimalValueOfNatToDecimal(n: nat)
    ensures DecimalValue(NatToDecimal(n)) == n
    decreases n
  {
    var s := NatToDecimal(n);
    if n >= 10 {
      DecimalValueOfNatToDecimal(n / 10);
      assert s[..|s| - 1] == NatToDecimal(n / 10);
    }
  }

  /** The text of any integer is a numeral whose value is that integer. */
  lemma NumeralOfEncodeInt(v: int)
    ensures IsNumeral(EncodeInt(v)) && NumeralValue(EncodeInt(v)) == v
  {
    var s := EncodeInt(v);
    var magnitude := if v < 0 then -v else v;
    DecimalValueOfNatToDecimal(magnitude);
    if v < 0 {
      assert s[1..] == NatToDecimal(-v);
    } else {
      assert s[0] != '-' && s[0] != '+';
      assert s[0..] == s;
    }
    assert IsNumeral(s) && NumeralValue(s) == v;
  }

  /** Decoding the text of any integer gives that integer back when it fits in 32
      bits, and fails, as `Integer.valueOf` throws, when it does not. */
  lemma RoundTrip(v: int)
    ensures DecodeInt(EncodeInt(v)) == if MinInt <= v <= MaxInt then Some(v) else None
  {
    NumeralOfEncodeInt(v);
  }

  lemma EncodedIsCanonical(v: Int32)
    ensures Canonical(EncodeInt(v))
  {
    RoundTrip(v);
  }

  /** Distinct integers are stored as distinct strings. */
  lemma EncodeInjective(a: Int32, b: Int32)
    ensures EncodeInt(a) == EncodeInt(b) <==> a == b
  {
    RoundTrip(a);
    RoundTrip(b);
  }

  /** For canonical text, comparing strings is the same as comparing decoded values;
      this is what lets a string comparison stand for an integer comparison. */
  lemma CanonicalText(s: string, x: Int32)
    ensures Canonical(s) && DecodeInt(s) == Some(x) <==> s == EncodeInt(x)
  {
    RoundTrip(x);
  }

  /** `Integer.valueOf` accepts text `Integer.toString` never writes: leading zeros
      and an explicit plus sign. */
  lemma DecodeAcceptsNonCanonicalText()
    ensures DecodeInt("07") == Some(7) && !Canonical("07")
    ensures DecodeInt("+7") == Some(7) && !Canonical("+7")
    ensures DecodeInt("") == None && DecodeInt("-") == None && DecodeInt("7a") == None
  {
    assert "07"[0..] == "07" && "07"[..1] == "0";
    assert DecimalValue("0") == 0;
    assert "+7"[1..] == "7";
    assert "7a"[0..] == "7a" && !IsDigit("7a"[1]);
    assert NatToDecimal(7) == "7";
  }

  /** Just outside the 32-bit range, decoding fails. */
  lemma DecodeRejectsOverflow()
    ensures DecodeInt(EncodeInt(MaxInt + 1)) == None
    ensures DecodeInt(EncodeInt(MinInt - 1)) == None
  {
    RoundTrip(MaxInt + 1);
    RoundTrip(MinInt - 1);
  }
}

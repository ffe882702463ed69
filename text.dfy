/**
 * Byte strings, suffix tests, number formatting and the integer semantics of
 * Go (int64 wrap-around, division truncating toward zero) that the model
 * needs to state explicitly, since Dafny's integers are unbounded and its
 * division is Euclidean.
 */
module Text {

  import opened Wrappers

  type Byte = b: int | 0 <= b < 256
  type Bytes = seq<Byte>

  /** The bytes of an ASCII/Latin-1 string, as Go's []byte("...") for such text. */
  function StrBytes(s: string): (r: Bytes)
    requires forall k :: 0 <= k < |s| ==> s[k] as int < 256
    ensures |r| == |s|
    ensures forall k :: 0 <= k < |s| ==> r[k] == s[k] as int
  {
    seq(|s|, k requires 0 <= k < |s| => s[k] as int)
  }

  /** strings.HasSuffix */
  predicate HasSuffix<T(==)>(s: seq<T>, suffix: seq<T>)
  {
    |suffix| <= |s| && s[|s| - |suffix|..] == suffix
  }

  // ---------------------------------------------------------------- numbers

  const Digits: string := "0123456789abcdef"

  /** Value of a lower-case digit in the given base, or -1 when c is not one. */
  function DigitValue(c: char, base: nat): (v: int)
    requires 2 <= base <= 16
    ensures -1 <= v < base
    ensures v >= 0 ==> Digits[v] == c
  {
    if '0' <= c <= '9' && (c as int - '0' as int) < base then c as int - '0' as int
    else if 'a' <= c <= 'f' && (c as int - 'a' as int) + 10 < base then c as int - 'a' as int + 10
    else -1
  }

  /** strconv.FormatUint(n, base): lower-case digits, no leading zeros. */
  function FormatNat(n: nat, base: nat): (r: string)
    requires 2 <= base <= 16
    decreases n
  {
    if n < base then [Digits[n]] else FormatNat(n / base, base) + [Digits[n % base]]
  }

  /** strconv.FormatInt(x, base): a '-' sign, then the digits of |x|. */
  function FormatInt(x: int, base: nat): string
    requires 2 <= base <= 16
  {
    if x < 0 then "-" + FormatNat(-x, base) else FormatNat(x, base)
  }

  /** Reads back a digit string (the inverse of FormatNat); None on a non-digit or on "". */
  function ParseNat(s: string, base: nat): (r: Option<nat>)
    requires 2 <= base <= 16
    decreases |s|
  {
    if s == [] then None
    else
      var v := DigitValue(s[|s| - 1], base);
      if v < 0 then None
      else if |s| == 1 then Some(v)
      else match ParseNat(s[..|s| - 1], base)
        case None => None
        case Some(p) => Some(Horner(p, base, v))
  }

  /** One step of reading digits: the number so far, shifted by one digit, plus the next digit. */
  function Horner(p: nat, base: nat, d: nat): nat
  {
    p * base + d
  }

  /** Reads back an optional '-' and a digit string (the inverse of FormatInt). */
  function ParseInt(s: string, base: nat): Option<int>
    requires 2 <= base <= 16
  {
    if |s| > 0 && s[0] == '-' then
      match ParseNat(s[1..], base)
      case None => None
      case Some(p) => Some(0 - p)
    else
      match ParseNat(s, base)
      case None => None
      case Some(p) => Some(p)
  }

  lemma {:induction false} DigitRoundTrip(d: nat, base: nat)
    requires 2 <= base <= 16 && d < base
    ensures DigitValue(Digits[d], base) == d
  {
  }

  lemma DivModSplit(n: nat, base: nat)
    requires 2 <= base
    ensures Horner(n / base, base, n % base) == n
    ensures n / base < n || n < base
  {
  }

  /** Every formatted number is a non-empty run of digits valid in its base. */
  lemma {:induction false} FormatNatDigits(n: nat, base: nat)
    requires 2 <= base <= 16
    ensures |FormatNat(n, base)| > 0
    ensures forall k :: 0 <= k < |FormatNat(n, base)| ==> DigitValue(FormatNat(n, base)[k], base) >= 0
    decreases n
  {
    if n < base {
      DigitRoundTrip(n, base);
    } else {
      DivModSplit(n, base);
      FormatNatDigits(n / base, base);
      DigitRoundTrip(n % base, base);
    }
  }

  /** Formatting loses nothing: the digits read back as the number. */
  lemma {:induction false} FormatNatRoundTrip(n: nat, base: nat)
    requires 2 <= base <= 16
    ensures ParseNat(FormatNat(n, base), base) == Some(n)
    decreases n
  {
    if n < base {
      DigitRoundTrip(n, base);
    } else {
      var q, d := n / base, n % base;
      DivModSplit(n, base);
      var s := FormatNat(n, base);
      var prefix := FormatNat(q, base);
      assert s == prefix + [Digits[d]];
      FormatNatRoundTrip(q, base);
      FormatNatDigits(q, base);
      DigitRoundTrip(d, base);
      assert s[..|s| - 1] == prefix;
      assert ParseNat(s, base) == Some(Horner(q, base, d));
    }
  }

  /** strconv.FormatInt is injective: the text determines the number, sign included. */
  lemma {:induction false} FormatIntRoundTrip(x: int, base: nat)
    requires 2 <= base <= 16
    ensures ParseInt(FormatInt(x, base), base) == Some(x)
  {
    var digits := FormatNat(if x < 0 then -x else x, base);
    FormatNatRoundTrip(if x < 0 then -x else x, base);
    if x < 0 {
      var s := "-" + digits;
      assert s[1..] == digits;
      assert FormatInt(x, base) == s;
    } else {
      FormatNatDigits(x, base);
      assert DigitValue(digits[0], base) >= 0;
      assert digits[0] != '-';
      assert FormatInt(x, base) == digits;
    }
  }

  // ------------------------------------------------------------ Go integers

  const TwoTo63: int := 0x8000_0000_0000_0000
  const TwoTo64: int := 0x1_0000_0000_0000_0000

  /** Two's-complement wrap-around into int64, as Go's int64 arithmetic and conversions do. */
  function WrapInt64(x: int): (r: int)
    ensures -TwoTo63 <= r < TwoTo63
    ensures (r - x) % TwoTo64 == 0
    ensures -TwoTo63 <= x < TwoTo63 ==> r == x
  {
    (x + TwoTo63) % TwoTo64 - TwoTo63
  }

  /**
   * Go's integer division a / b for b > 0: the quotient is truncated toward
   * zero, so q * b is the multiple of b nearest to a on zero's side of it.
   */
  function Quot(a: int, b: int): (q: int)
    requires b > 0
    ensures a >= 0 ==> q >= 0 && q * b <= a < q * b + b
    ensures a < 0 ==> q <= 0 && q * b - b < a <= q * b
  {
    if a >= 0 then DivBounds(a, b); a / b
    else DivBounds(-a, b); NegMul((-a) / b, b); -((-a) / b)
  }

  lemma DivBounds(a: nat, b: int)
    requires b > 0
    ensures a / b >= 0 && (a / b) * b <= a < (a / b) * b + b
  {
    var q, r := a / b, a % b;
    assert a == q * b + r && 0 <= r < b;
  }

  lemma NegMul(x: int, y: int)
    ensures (-x) * y == -(x * y)
  {
  }
}

/**
 Go's `strconv.Atoi` on a 64-bit platform, as the server uses it to read a
 lease-time override (`seconds, _ := strconv.Atoi(string(value))`): the error
 is dropped, so only the returned number matters. `Itoa` is the formatter
 the round trip is proved against.
 */
module GoStrconv {
  import opened IPv4

  const MaxInt64: int := 0x7fff_ffff_ffff_ffff
  const MinInt64: int := -0x8000_0000_0000_0000
  const MaxUint64: int := 0xffff_ffff_ffff_ffff
  /** `ParseUint`'s `cutoff`: the first accumulator value whose product by ten overflows. */
  const Cutoff: int := MaxUint64 / 10 + 1

  const Plus: Byte := 0x2b
  const Minus: Byte := 0x2d
  const DigitZero: Byte := 0x30

  predicate IsDigit(c: Byte)
  {
    DigitZero <= c <= DigitZero + 9
  }

  /** Outcome of `strconv.ParseUint(s, 10, 64)`. */
  datatype Unsigned = SyntaxError | RangeError | Parsed(n: nat)

  /** The digit loop of `ParseUint`, left to right from accumulator `acc`: a
      non-digit is a syntax error, and overflow stops the scan at once (so a
      later non-digit is never seen). */
  function ParseDigits(s: seq<Byte>, acc: nat): (r: Unsigned)
    requires acc <= MaxUint64
    ensures r.Parsed? ==> acc <= r.n <= MaxUint64
    ensures r.Parsed? ==> forall i :: 0 <= i < |s| ==> IsDigit(s[i])
    decreases |s|
  {
    if |s| == 0 then Parsed(acc)
    else if !IsDigit(s[0]) then SyntaxError
    else if acc >= Cutoff then RangeError
    else if acc * 10 + (s[0] - DigitZero) > MaxUint64 then RangeError
    else ParseDigits(s[1..], acc * 10 + (s[0] - DigitZero))
  }

  /** `strconv.ParseUint(s, 10, 64)`. */
  function ParseUint(s: seq<Byte>): Unsigned
  {
    if |s| == 0 then SyntaxError else ParseDigits(s, 0)
  }

  /** The value `strconv.Atoi(s)` returns, its error ignored: zero on a syntax
      error, the int64 bound of the right sign on overflow. */
  function Atoi(s: seq<Byte>): (r: int)
    ensures MinInt64 <= r <= MaxInt64
  {
    if |s| == 0 then 0
    else
      var negative := s[0] == Minus;
      var body := if s[0] == Plus || s[0] == Minus then s[1..] else s;
      match ParseUint(body)
      case SyntaxError => 0
      case RangeError => if negative then MinInt64 else MaxInt64
      case Parsed(n) =>
        if !negative && n > MaxInt64 then MaxInt64
        else if negative && n > MaxInt64 + 1 then MinInt64
        else if negative then 0 - n
        else n
  }

  function Pow10(k: nat): (r: nat)
    ensures r >= 1
  {
    if k == 0 then 1 else 10 * Pow10(k - 1)
  }

  /** Decimal digits of a natural number, most significant first, no leading zeros. */
  function Decimal(n: nat): (s: seq<Byte>)
    ensures 1 <= |s|
    ensures forall i :: 0 <= i < |s| ==> IsDigit(s[i])
  {
    if n < 10 then [DigitZero + n] else Decimal(n / 10) + [DigitZero + n % 10]
  }

  /** The rendering has enough digits for the number. */
  lemma {:induction false} DecimalBound(n: nat)
    ensures n < Pow10(|Decimal(n)|)
    decreases n
  {
    if n >= 10 {
      DecimalBound(n / 10);
      DecimalSplit(n);
    }
  }

  /** `strconv.Itoa`. */
  function Itoa(n: int): seq<Byte>
  {
    if n < 0 then [Minus] + Decimal(-n) else Decimal(n)
  }

  /** One digit of the loop: it is added to the accumulator when the result
      still fits in 64 bits. */
  lemma DigitStep(c: Byte, rest: seq<Byte>, acc: nat)
    requires IsDigit(c) && acc * 10 + (c - DigitZero) <= MaxUint64
    ensures ParseDigits([c] + rest, acc) == ParseDigits(rest, acc * 10 + (c - DigitZero))
  {
    assert ([c] + rest)[0] == c;
    assert ([c] + rest)[1..] == rest;
  }

  /** A rendering of ten or more is the rendering of its leading digits
      followed by its last digit. */
  lemma DecimalSplit(n: nat)
    requires n >= 10
    ensures Decimal(n) == Decimal(n / 10) + [DigitZero + n % 10]
    ensures Pow10(|Decimal(n)|) == 10 * Pow10(|Decimal(n / 10)|)
  {
    PowSucc(|Decimal(n / 10)|);
  }

  lemma PowSucc(k: nat)
    ensures Pow10(k + 1) == 10 * Pow10(k)
  {
  }

  /** Moving the last digit of `n` out of the accumulator keeps the total,
      and the smaller accumulator still fits. */
  lemma ShiftDigit(acc: nat, pow: nat, n: nat, mid: nat)
    requires mid == acc * pow + n / 10
    requires acc * (10 * pow) + n <= MaxUint64
    ensures mid * 10 + n % 10 == acc * (10 * pow) + n
    ensures mid * 10 + n % 10 <= MaxUint64 && mid <= MaxUint64
  {
    assert mid * 10 == acc * (10 * pow) + (n / 10) * 10;
  }

  /** A one-digit rendering is read as that digit. */
  lemma ParseSingle(n: nat, acc: nat, rest: seq<Byte>)
    requires n < 10 && acc * 10 + n <= MaxUint64
    ensures |Decimal(n)| == 1
    ensures ParseDigits(Decimal(n) + rest, acc) == ParseDigits(rest, acc * 10 + n)
  {
    DigitStep(DigitZero + n, rest, acc);
  }

  /** Reading the digits of `n` after a prefix that left `acc` in the
      accumulator gives `acc * 10^len + n`, as long as that fits in 64 bits. */
  lemma {:induction false} ParseDecimal(n: nat, acc: nat, rest: seq<Byte>)
    requires acc * Pow10(|Decimal(n)|) + n <= MaxUint64
    ensures ParseDigits(Decimal(n) + rest, acc) == ParseDigits(rest, acc * Pow10(|Decimal(n)|) + n)
    decreases n
  {
    if n < 10 {
      ParseSingle(n, acc, rest);
    } else {
      DecimalSplit(n);
      var high := Decimal(n / 10);
      var low: Byte := DigitZero + n % 10;
      var pow := Pow10(|high|);
      var mid := acc * pow + n / 10;
      ShiftDigit(acc, pow, n, mid);
      ParseDecimal(n / 10, acc, [low] + rest);
      assert Decimal(n) + rest == high + ([low] + rest);
      DigitStep(low, rest, mid);
    }
  }

  /** The rendering of a 64-bit natural parses back to it. */
  lemma DecimalParses(m: nat)
    requires m <= MaxUint64
    ensures ParseUint(Decimal(m)) == Parsed(m)
  {
    assert 0 * Pow10(|Decimal(m)|) + m == m;
    ParseDecimal(m, 0, []);
    assert Decimal(m) + [] == Decimal(m);
  }

  /** `Atoi` inverts `Itoa` on every int64. */
  lemma AtoiItoa(n: int)
    requires MinInt64 <= n <= MaxInt64
    ensures Atoi(Itoa(n)) == n
  {
    if n < 0 {
      DecimalParses(-n);
      assert Itoa(n)[1..] == Decimal(-n);
    } else {
      DecimalParses(n);
    }
  }

  /** A lease-time value of at most 19 bytes with a non-digit in its body
      (after an optional sign) reads as zero seconds: too short to overflow
      before the scan reaches the bad byte. */
  lemma NonNumericIsZero(s: seq<Byte>, i: nat)
    requires |s| <= 19
    requires 0 < |s| && (s[0] == Plus || s[0] == Minus) ==> 0 < i < |s|
    requires 0 < |s| && !(s[0] == Plus || s[0] == Minus) ==> i < |s|
    requires i < |s| ==> !IsDigit(s[i])
    ensures Atoi(s) == 0
  {
    if |s| > 0 {
      var start := if s[0] == Plus || s[0] == Minus then 1 else 0;
      var body := s[start..];
      assert !IsDigit(body[i - start]);
      NoOverflowShort(body, 0);
    }
  }

  /** Fewer than twenty bytes cannot overflow 64 bits. */
  lemma {:induction false} NoOverflowShort(s: seq<Byte>, acc: nat)
    requires |s| <= 19
    requires acc < Pow10(19 - |s|)
    ensures acc <= MaxUint64 && ParseDigits(s, acc) != RangeError
    decreases |s|
  {
    Pow10At19();
    PowMonotone(19 - |s|, 19);
    if |s| > 0 && IsDigit(s[0]) {
      assert Pow10(19 - |s|) * 10 == Pow10(19 - |s| + 1);
      assert acc * 10 + (s[0] - DigitZero) < Pow10(19 - |s| + 1);
      PowMonotone(19 - |s| + 1, 19);
      NoOverflowShort(s[1..], acc * 10 + (s[0] - DigitZero));
    }
  }

  lemma Pow10At19()
    ensures Pow10(19) == 10_000_000_000_000_000_000
  {
    assert Pow10(1) == 10;
    assert Pow10(2) == 100;
    assert Pow10(3) == 1000;
    assert Pow10(4) == 10000;
    assert Pow10(5) == 100000;
    assert Pow10(6) == 1000000;
    assert Pow10(7) == 10000000;
    assert Pow10(8) == 100000000;
    assert Pow10(9) == 1000000000;
    assert Pow10(10) == 10000000000;
    assert Pow10(11) == 100000000000;
    assert Pow10(12) == 1000000000000;
    assert Pow10(13) == 10000000000000;
    assert Pow10(14) == 100000000000000;
    assert Pow10(15) == 1000000000000000;
    assert Pow10(16) == 10000000000000000;
    assert Pow10(17) == 100000000000000000;
    assert Pow10(18) == 1000000000000000000;
    assert Pow10(19) == 10000000000000000000;
  }

  lemma {:induction false} PowMonotone(i: nat, j: nat)
    requires i <= j
    ensures Pow10(i) <= Pow10(j)
    decreases j
  {
    if i < j {
      PowMonotone(i, j - 1);
    }
  }
}

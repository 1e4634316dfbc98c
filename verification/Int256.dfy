/**
Signed arithmetic on unsigned 256-bit words, as the EVM defines SDIV, SMOD and SLT
(Appendix H of the Ethereum Yellow Paper).
*/
module Int256 {
  import opened Bits

  const TWO_63: nat := 0x8000_0000_0000_0000
  const TWO_64: nat := 0x1_0000_0000_0000_0000
  const TWO_192: nat := TWO_64 * TWO_64 * TWO_64
  const TWO_255: nat := TWO_192 * TWO_63
  const TWO_256: nat := TWO_192 * TWO_64

  type U256 = x: nat | x < TWO_256

  datatype Ordering = Less | Equal | Greater

  function Compare(a: int, b: int): Ordering
  {
    if a < b then Less else if a == b then Equal else Greater
  }

  /** The number a word stands for in two's complement. */
  function Signed(x: U256): int
  {
    if x >= TWO_255 then x - TWO_256 else x
  }

  /** The constants are the powers of two they are named after. */
  lemma WordSizes()
    ensures TWO_63 == Pow2(63) && TWO_64 == Pow2(64) && TWO_192 == Pow2(192)
    ensures TWO_255 == Pow2(255) && TWO_256 == Pow2(256)
  {
    Pow2Of64();
    Pow2Add(64, 64);
    Pow2Add(128, 64);
    Pow2Add(192, 63);
    Pow2Add(192, 64);
  }

  // ---- The operations ----

  /** The top 64-bit limb, reinterpreted as a signed number, is negative. */
  predicate IsNegative(x: U256)
  {
    var limb := x / TWO_192;
    (if limb >= TWO_63 then limb - TWO_64 else limb) < 0
  }

  function Not(x: U256): U256
  {
    TWO_256 - 1 - x
  }

  function Neg(x: U256): U256
  {
    if x == 0 then 0 else Not(x) + 1
  }

  function Cmp(a: U256, b: U256): Ordering
  {
    match Compare(if IsNegative(b) then 1 else 0, if IsNegative(a) then 1 else 0)
    case Equal => Compare(a, b)
    case signs => signs
  }

  function Strip(x: U256): U256
  {
    if IsNegative(x) then Neg(x) else x
  }

  function Div(a: U256, b: U256): U256
  {
    if a == 0 || b == 0 then 0
    else
      StripIsMagnitude(b);
      DivisionLaw(Strip(a), Strip(b));
      var d := Strip(a) / Strip(b);
      if d == 0 || IsNegative(a) == IsNegative(b) then d else Neg(d)
  }

  function Mod(a: U256, b: U256): U256
  {
    if a == 0 || b == 0 then 0
    else
      StripIsMagnitude(b);
      DivisionLaw(Strip(a), Strip(b));
      var r := Strip(a) % Strip(b);
      if IsNegative(a) && r != 0 then Neg(r) else r
  }

  lemma Grows(q: nat, n: nat)
    requires n > 0
    ensures q <= q * n && q <= n * q
  {
  }

  lemma DivisionLaw(m: nat, n: nat)
    requires n > 0
    ensures m == m / n * n + m % n && 0 <= m / n <= m && m % n < n && m % n <= m
  {
    var q, r := m / n, m % n;
    assert m == q * n + r;
    Grows(q, n);
  }

  // ---- What they mean ----

  lemma NegativeIsSign(x: U256)
    ensures IsNegative(x) <==> Signed(x) < 0
  {
    assert x / TWO_192 >= TWO_63 <==> x >= TWO_255;
  }

  function Abs(a: int): nat
  {
    if a < 0 then -a else a
  }

  lemma StripIsMagnitude(x: U256)
    ensures Strip(x) == Abs(Signed(x)) && Strip(x) <= TWO_255 && (x > 0 <==> Strip(x) > 0)
  {
    NegativeIsSign(x);
  }

  /** Negation negates, except that the least number is its own negation. */
  lemma NegNegates(x: U256)
    ensures Signed(Neg(x)) == if x == TWO_255 then Signed(x) else -Signed(x)
  {
  }

  lemma CmpIsSignedOrder(a: U256, b: U256)
    ensures Cmp(a, b) == Compare(Signed(a), Signed(b))
  {
    NegativeIsSign(a);
    NegativeIsSign(b);
  }

  /** Quotient and remainder by truncation towards zero: the remainder is small and has the dividend's sign. */
  predicate Truncates(a: int, b: int, q: int, r: int)
  {
    && a == q * b + r
    && Abs(r) < Abs(b)
    && (r > 0 ==> a > 0) && (r < 0 ==> a < 0)
  }

  /** There is only one such quotient and remainder. */
  lemma TruncatesUnique(a: int, b: int, q: int, r: int, q': int, r': int)
    requires b != 0 && Truncates(a, b, q, r) && Truncates(a, b, q', r')
    ensures q == q' && r == r'
  {
    var d := q - q';
    assert d * b == q * b - q' * b;
    assert Abs(r' - r) < Abs(b);
    if d != 0 {
      LargeMultiple(d, b);
    }
  }

  lemma LargeMultiple(d: int, b: int)
    requires d != 0
    ensures Abs(d * b) >= Abs(b)
  {
    if d > 0 {
      Grows(Abs(b), d);
    } else {
      Grows(Abs(b), -d);
    }
    assert Abs(d * b) == Abs(d) * Abs(b);
  }

  /** Dividing magnitudes and restoring the signs truncates towards zero. */
  lemma SignsRestored(a: int, b: int, q: int, r: int)
    requires b != 0 && q >= 0 && r >= 0 && Abs(a) == q * Abs(b) + r && r < Abs(b)
    ensures Truncates(a, b, if (a < 0) == (b < 0) then q else -q, if a < 0 then -r else r)
  {
    assert (-q) * b == -(q * b);
    assert q * (-b) == -(q * b);
    assert q * Abs(b) >= 0;
  }

  /**
  Signed division and remainder: zero for a zero divisor; the least number divided by minus one wraps around
  to itself; in every other case exactly the truncating quotient and remainder.
  */
  lemma DivModTruncate(a: U256, b: U256)
    ensures b == 0 ==> Div(a, b) == 0 && Mod(a, b) == 0
    ensures b != 0 ==>
      if a == TWO_255 && b == TWO_256 - 1 then Signed(Div(a, b)) == Signed(a) && Mod(a, b) == 0
      else Truncates(Signed(a), Signed(b), Signed(Div(a, b)), Signed(Mod(a, b)))
  {
    if a != 0 && b != 0 {
      NegativeIsSign(a);
      NegativeIsSign(b);
      StripIsMagnitude(a);
      StripIsMagnitude(b);
      DivisionLaw(Strip(a), Strip(b));
      SignsRestored(Signed(a), Signed(b), Strip(a) / Strip(b), Strip(a) % Strip(b));
      NegNegates(Strip(a) / Strip(b));
      NegNegates(Strip(a) % Strip(b));
    }
  }

  /** For a nonzero divisor, quotient times divisor plus remainder is the dividend, modulo 2^256. */
  lemma DivModCongruent(a: U256, b: U256)
    requires b != 0
    ensures (Signed(Div(a, b)) * Signed(b) + Signed(Mod(a, b)) - Signed(a)) % TWO_256 == 0
  {
    DivModTruncate(a, b);
    if a == TWO_255 && b == TWO_256 - 1 {
      assert Signed(Div(a, b)) * Signed(b) - Signed(a) == TWO_256;
    }
  }
}

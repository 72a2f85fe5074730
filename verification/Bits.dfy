/** Unsigned machine-word arithmetic: powers of two, masking and wrap-around of `size_t`. */
module Bits {

  /** The range of `size_t`: arithmetic on it wraps modulo this number. */
  const SIZE_RANGE: int := 0x1_0000_0000_0000_0000

  function Pow2(k: nat): (p: nat)
    ensures p >= 1
  {
    if k == 0 then 1 else 2 * Pow2(k - 1)
  }

  /** True of 1, 2, 4, 8, ... */
  ghost predicate IsPow2(n: nat) {
    exists k: nat :: n == Pow2(k)
  }

  /** The bitwise conjunction of two naturals. */
  function BitAnd(a: nat, b: nat): nat {
    if a == 0 || b == 0 then 0 else 2 * BitAnd(a / 2, b / 2) + (a % 2) * (b % 2)
  }

  /** `a - b` on `size_t`. */
  function WrapSub(a: int, b: int): nat {
    (a - b) % SIZE_RANGE
  }

  /** `val & (n - 1)` on `size_t`, the reduction modulo a table size. */
  function Mask(val: nat, n: nat): nat {
    BitAnd(val, WrapSub(n, 1))
  }

  /** The number of bits up to the highest one: 64 - clz. */
  function BitLength(v: nat): nat {
    if v == 0 then 0 else 1 + BitLength(v / 2)
  }

  lemma {:induction false} Pow2Monotone(a: nat, b: nat)
    requires a <= b
    ensures Pow2(a) <= Pow2(b)
  {
    if a < b {
      Pow2Monotone(a, b - 1);
    }
  }

  lemma {:induction false} Pow2Strict(a: nat, b: nat)
    requires Pow2(a) < Pow2(b)
    ensures a < b
  {
    if b <= a {
      Pow2Monotone(b, a);
    }
  }

  /** Bit length brackets a number between neighbouring powers of two. */
  lemma {:induction false} BitLengthBrackets(v: nat)
    ensures v < Pow2(BitLength(v))
    ensures v > 0 ==> Pow2(BitLength(v) - 1) <= v
  {
    if v > 0 {
      BitLengthBrackets(v / 2);
    }
  }

  lemma OnesHalve(k: nat)
    requires k > 0
    ensures Pow2(k) - 1 > 0 && (Pow2(k) - 1) / 2 == Pow2(k - 1) - 1 && (Pow2(k) - 1) % 2 == 1
    ensures Pow2(k) == 2 * Pow2(k - 1)
  {
  }

  lemma AndStep(a: nat, b: nat)
    requires a > 0 && b > 0
    ensures BitAnd(a, b) == 2 * BitAnd(a / 2, b / 2) + (a % 2) * (b % 2)
  {
  }

  lemma {:induction false} AndLowBits(a: nat, k: nat)
    ensures BitAnd(a, Pow2(k) - 1) == a % Pow2(k)
  {
    if k == 0 {
    } else if a == 0 {
    } else {
      AndLowBits(a / 2, k - 1);
      OnesHalve(k);
      AndStep(a, Pow2(k) - 1);
      ModDouble(a, Pow2(k - 1));
    }
  }

  lemma ModDouble(a: nat, p: nat)
    requires p > 0
    ensures a % (2 * p) == 2 * ((a / 2) % p) + a % 2
  {
    var q, r := (a / 2) / p, (a / 2) % p;
    assert a / 2 == q * p + r;
    assert a == q * (2 * p) + (2 * r + a % 2);
    ModUnique(a, 2 * p, q, 2 * r + a % 2);
  }

  lemma MulAtLeast(q: int, d: int)
    requires q >= 1 && d >= 1
    ensures q * d >= d
  {
  }

  lemma QuotientUnique(d: int, q: int, r: int, q': int, r': int)
    requires 0 <= r < d && 0 <= r' < d
    requires q * d + r == q' * d + r'
    ensures q == q' && r == r'
  {
    if q > q' {
      MulAtLeast(q - q', d);
    } else if q < q' {
      MulAtLeast(q' - q, d);
    }
  }

  lemma ModUnique(x: int, d: int, q: int, r: int)
    requires 0 <= r < d
    requires x == q * d + r
    ensures x % d == r && x / d == q
  {
    var q', r' := x / d, x % d;
    assert x == q' * d + r';
    QuotientUnique(d, q, r, q', r');
  }

  lemma Regroup(q: int, p: int, m: int, q': int, r': int)
    ensures q * (p * m) + (q' * p + r') == (q * m + q') * p + r'
  {
  }

  /** Reducing a wrapped difference is reducing the true difference: 2^k divides the word size. */
  lemma ModOfWrap(x: int, k: nat)
    requires k <= 64
    ensures (x % SIZE_RANGE) % Pow2(k) == x % Pow2(k)
  {
    var p, m := Pow2(k), Pow2(64 - k);
    Pow2Product(k, 64 - k);
    Pow2At64();
    WrapThenMod(x, p, m);
  }

  lemma WrapThenMod(x: int, p: int, m: int)
    requires p > 0 && m > 0 && p * m == SIZE_RANGE
    ensures (x % SIZE_RANGE) % p == x % p
  {
    var q, r := x / SIZE_RANGE, x % SIZE_RANGE;
    var q', r' := r / p, r % p;
    Regroup(q, p, m, q', r');
    ModUnique(x, p, q * m + q', r');
  }

  lemma {:induction false} Pow2Product(a: nat, b: nat)
    ensures Pow2(a) * Pow2(b) == Pow2(a + b)
  {
    if a > 0 {
      Pow2Product(a - 1, b);
      assert Pow2(a) * Pow2(b) == 2 * (Pow2(a - 1) * Pow2(b));
    }
  }

  lemma Pow2At64()
    ensures Pow2(5) == 32
    ensures Pow2(30) == 0x4000_0000
    ensures Pow2(64) == SIZE_RANGE
  {
    assert Pow2(8) == 256;
    Pow2Product(8, 8);
    Pow2Product(16, 14);
    assert Pow2(6) == 64;
    Pow2Product(8, 6);
    Pow2Product(16, 16);
    Pow2Product(32, 32);
  }

  /** Masking reduces modulo a power of two, which is how a table index is kept in range. */
  lemma MaskIsMod(val: nat, n: nat)
    requires IsPow2(n) && n <= SIZE_RANGE
    ensures Mask(val, n) == val % n
  {
    var k: nat :| n == Pow2(k);
    if n == 0 {
    } else {
      AndLowBits(val, k);
      assert WrapSub(n, 1) == n - 1;
    }
  }

  /** Steps forward from `a` to `b` around a ring of `n` slots. */
  function Dist(a: nat, b: nat, n: nat): (d: nat)
    requires a < n && b < n
    ensures d < n
  {
    if a <= b then b - a else b - a + n
  }

  /** The slot `d` steps after `r` around a ring of `n` slots. */
  function At(r: nat, d: nat, n: nat): (i: nat)
    requires r < n && d < n
    ensures i < n && Dist(r, i, n) == d
  {
    if r + d < n then r + d else r + d - n
  }

  /** The slot after `i` around a ring of `n` slots. */
  function Next(i: nat, n: nat): (j: nat)
    requires i < n
    ensures j < n
  {
    if i + 1 == n then 0 else i + 1
  }

  /** Masking a wrapped difference gives the cyclic distance. */
  lemma MaskIsDist(a: nat, b: nat, n: nat)
    requires IsPow2(n) && n <= SIZE_RANGE && a < n && b < n
    ensures Mask(WrapSub(b, a), n) == Dist(a, b, n)
  {
    var k: nat :| n == Pow2(k);
    Pow2At64();
    if k > 64 {
      Pow2Monotone(65, k);
      assert false;
    }
    MaskIsMod(WrapSub(b, a), n);
    ModOfWrap(b - a, k);
    if a <= b {
      ModUnique(b - a, n, 0, b - a);
    } else {
      ModUnique(b - a, n, -1, b - a + n);
    }
  }

  lemma MaskIsNext(i: nat, n: nat)
    requires IsPow2(n) && n <= SIZE_RANGE && i < n
    ensures Mask(i + 1, n) == Next(i, n)
  {
    MaskIsMod(i + 1, n);
    if i + 1 == n {
      ModUnique(n, n, 1, 0);
    } else {
      ModUnique(i + 1, n, 0, i + 1);
    }
  }
}

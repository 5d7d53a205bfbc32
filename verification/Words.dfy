/** 32-bit words as C computes with them. */
module Words {
  type U32 = x: int | 0 <= x < 0x1_0000_0000

  /** uint32_t arithmetic is modulo 2^32. */
  function Wrap(x: int): U32 { x % 0x1_0000_0000 }

  /** -x */
  function Negate32(x: U32): U32 { if x == 0 then 0 else 0x1_0000_0000 - x }

  function Pow2(k: nat): (p: nat)
    ensures p > 0
  {
    if k == 0 then 1 else 2 * Pow2(k - 1)
  }

  /** x << k, for k below 32 */
  function ShiftLeft(x: U32, k: nat): U32
    requires k < 32
  {
    Wrap(x * Pow2(k))
  }

  // ---------- division ----------

  lemma DivUnique(n: int, p: int, q: int)
    requires p > 0 && q * p <= n < (q + 1) * p
    ensures n / p == q
  {
    var r := n / p;
    assert r * p <= n < (r + 1) * p by { assert n == r * p + n % p; }
    if r < q { Times(r + 1, q, p); }
    if r > q { Times(q + 1, r, p); }
  }

  lemma Times(a: int, b: int, p: int)
    requires a <= b && p > 0
    ensures a * p <= b * p
  {}

  lemma DivBounds(n: int, p: int)
    requires p > 0
    ensures (n / p) * p <= n < (n / p + 1) * p
  {
    assert n == (n / p) * p + n % p;
  }

  /** Halving first. */
  lemma DivTwice(n: int, p: int)
    requires p > 0
    ensures n / (2 * p) == n / 2 / p
  {
    var q := n / 2 / p;
    DivBounds(n / 2, p);
    var lo, hi := q * p, (q + 1) * p;
    assert q * (2 * p) == 2 * lo && (q + 1) * (2 * p) == 2 * hi;
    DivUnique(n, 2 * p, q);
  }

  lemma QuotientSmall(x: nat, p: nat)
    requires p > 0
    ensures 0 <= x / p <= x
  {
    DivBounds(x, p);
    var q := x / p;
    if q < 0 { Times(q + 1, 0, p); }
    if q > 0 { Times(1, p, q); }
  }

  // ---------- powers of two ----------

  lemma Doubled(k: nat)
    ensures Pow2(k + 1) == 2 * Pow2(k)
  {}

  lemma DoubleFactor(p: int, q: int)
    ensures (2 * p) * q == 2 * (p * q)
  {}

  lemma {:induction false} Pow2Sum(j: nat, k: nat)
    ensures Pow2(j) * Pow2(k) == Pow2(j + k)
  {
    if j > 0 {
      hide Pow2;
      Pow2Sum(j - 1, k);
      Doubled(j - 1);
      Doubled(j - 1 + k);
      DoubleFactor(Pow2(j - 1), Pow2(k));
    } else {
      assert Pow2(0) == 1;
    }
  }

  // ---------- bits ----------

  /** Bit j of x. */
  predicate BitAt(x: nat, j: nat) { x / Pow2(j) % 2 == 1 }

  /** What f makes of the lowest n bits of two numbers, from the lowest bit up. */
  function Bitwise(f: (bool, bool) -> bool, x: nat, y: nat, n: nat): (r: nat)
    ensures r < Pow2(n)
  {
    if n == 0 then 0 else 2 * Bitwise(f, x / 2, y / 2, n - 1) + if f(x % 2 == 1, y % 2 == 1) then 1 else 0
  }

  lemma BitsAbove(x: nat, j: nat)
    ensures BitAt(x / 2, j) == BitAt(x, j + 1)
    ensures BitAt(x, 0) == (x % 2 == 1)
  {
    DivTwice(x, Pow2(j));
    assert Pow2(0) == 1;
  }

  lemma {:induction false} BitwiseAt(f: (bool, bool) -> bool, x: nat, y: nat, n: nat, j: nat)
    requires j < n
    ensures BitAt(Bitwise(f, x, y, n), j) == f(BitAt(x, j), BitAt(y, j))
  {
    hide BitAt;
    var r := Bitwise(f, x, y, n);
    assert r / 2 == Bitwise(f, x / 2, y / 2, n - 1);
    BitsAbove(x, if j > 0 then j - 1 else 0);
    BitsAbove(y, if j > 0 then j - 1 else 0);
    BitsAbove(r, if j > 0 then j - 1 else 0);
    if j > 0 { BitwiseAt(f, x / 2, y / 2, n - 1, j - 1); }
  }

  /** The number whose bit j, for every j below n, is bit(j). */
  function NumberOf(bit: nat -> bool, n: nat): (x: nat)
    ensures x < Pow2(n)
  {
    if n == 0 then 0 else NumberOf(bit, n - 1) + if bit(n - 1) then Pow2(n - 1) else 0
  }

  lemma {:induction false} NumberOfLow(bit: nat -> bool, up: nat -> bool, n: nat)
    requires forall j: nat :: j < n ==> up(j) == bit(j + 1)
    ensures NumberOf(bit, n + 1) == 2 * NumberOf(up, n) + if bit(0) then 1 else 0
  {
    if n > 0 { NumberOfLow(bit, up, n - 1); }
  }

  lemma {:induction false} NumberOfSame(bit: nat -> bool, same: nat -> bool, n: nat)
    requires forall j: nat :: j < n ==> bit(j) == same(j)
    ensures NumberOf(bit, n) == NumberOf(same, n)
  {
    if n > 0 { NumberOfSame(bit, same, n - 1); }
  }

  lemma {:induction false} BitwiseIs(f: (bool, bool) -> bool, x: nat, y: nat, n: nat)
    ensures Bitwise(f, x, y, n) == NumberOf((j: nat) => f(BitAt(x, j), BitAt(y, j)), n)
  {
    if n > 0 {
      hide BitAt;
      BitwiseIs(f, x / 2, y / 2, n - 1);
      var bit, up := (j: nat) => f(BitAt(x, j), BitAt(y, j)), (j: nat) => f(BitAt(x / 2, j), BitAt(y / 2, j));
      forall j: nat | j < n - 1 ensures up(j) == bit(j + 1) {
        BitsAbove(x, j);
        BitsAbove(y, j);
      }
      BitsAbove(x, 0);
      BitsAbove(y, 0);
      NumberOfLow(bit, up, n - 1);
    }
  }

  /** A number of 32 bits is a word. */
  function ToWord(x: nat): (w: U32)
    requires x < Pow2(32)
    ensures w == x
  {
    Pow2Of32();
    x
  }

  lemma Pow2Of32()
    ensures Pow2(32) == 0x1_0000_0000
  {
    assert Pow2(8) == 0x100;
    assert Pow2(16) == 0x1_0000;
    assert Pow2(24) == 0x100_0000;
  }
}

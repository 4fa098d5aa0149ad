/** Powers of two, alignment and exclusive-or on the naturals, as the page
    allocator uses them.  Machine words are 32 bits wide; every value below is
    smaller than 2^32, so the unbounded operations agree with the machine's. */
module BitArith {

  function Pow2(k: nat): (r: nat)
    ensures r >= 1
  {
    if k == 0 then 1 else 2 * Pow2(k - 1)
  }

  /** Bitwise exclusive-or, bit by bit from the least significant one. */
  function Xor(a: nat, b: nat): nat
    decreases a + b
  {
    if a == 0 && b == 0 then 0
    else 2 * Xor(a / 2, b / 2) + (if a % 2 != b % 2 then 1 else 0)
  }

  /** `x` with bit `k` inverted. */
  function Flip(x: nat, k: nat): nat
  {
    if k > 0 then 2 * Flip(x / 2, k - 1) + x % 2
    else if x % 2 == 0 then x + 1 else x - 1
  }

  /** The `k` low bits of `x` are zero. */
  predicate Aligned(x: nat, k: nat)
  {
    k == 0 || (x % 2 == 0 && Aligned(x / 2, k - 1))
  }

  lemma {:induction false} XorZero(a: nat)
    ensures Xor(a, 0) == a
  {
    if a != 0 { XorZero(a / 2); }
  }

  /** Exclusive-or with a single bit flips that bit. */
  lemma {:induction false} XorPow2(a: nat, k: nat)
    ensures Xor(a, Pow2(k)) == Flip(a, k)
  {
    if k == 0 {
      assert Xor(a, 1) == 2 * Xor(a / 2, 0) + (if a % 2 != 1 then 1 else 0);
      XorZero(a / 2);
    } else {
      var b := Pow2(k);
      assert b % 2 == 0 && b / 2 == Pow2(k - 1);
      assert Xor(a, b) == 2 * Xor(a / 2, b / 2) + (if a % 2 != b % 2 then 1 else 0);
      XorPow2(a / 2, k - 1);
    }
  }

  lemma {:induction false} AlignedSum(x: nat, y: nat, k: nat)
    requires Aligned(x, k) && Aligned(y, k)
    ensures Aligned(x + y, k)
  {
    if k > 0 {
      assert (x + y) / 2 == x / 2 + y / 2;
      AlignedSum(x / 2, y / 2, k - 1);
    }
  }

  lemma {:induction false} AlignedPow2(j: nat, k: nat)
    requires j <= k
    ensures Aligned(Pow2(k), j) && Pow2(j) <= Pow2(k)
  {
    if j > 0 {
      AlignedPow2(j - 1, k - 1);
      assert Pow2(k) == 2 * Pow2(k - 1) && Pow2(k) / 2 == Pow2(k - 1);
    }
  }

  lemma {:induction false} AlignedDown(x: nat, j: nat, k: nat)
    requires j <= k && Aligned(x, k)
    ensures Aligned(x, j)
  {
    if j > 0 { AlignedDown(x / 2, j - 1, k - 1); }
  }

  lemma {:induction false} AlignedGap(x: nat, y: nat, k: nat)
    requires Aligned(x, k) && Aligned(y, k)
    ensures x < y ==> x + Pow2(k) <= y
  {
    if k > 0 { AlignedGap(x / 2, y / 2, k - 1); }
  }

  /** Two aligned blocks that overlap are nested: the smaller starts and ends inside the larger. */
  lemma Laminar(p: nat, j: nat, q: nat, k: nat)
    requires j <= k && Aligned(p, j) && Aligned(q, k)
    requires p < q + Pow2(k) && q < p + Pow2(j)
    ensures q <= p && p + Pow2(j) <= q + Pow2(k)
  {
    var e := q + Pow2(k);
    assert Aligned(q, j) && Aligned(e, j) by {
      AlignedDown(q, j, k);
      AlignedPow2(j, k);
      AlignedSum(q, Pow2(k), j);
    }
    AlignedGap(p, q, j);
    AlignedGap(p, e, j);
  }

  lemma HalfOfSum(x: nat, y: nat)
    requires x % 2 == 0
    ensures (x + y) / 2 == x / 2 + y / 2 && (x + y) % 2 == y % 2
  {
  }

  lemma {:induction false} FlipDistance(x: nat, k: nat)
    ensures Flip(x, k) == x + Pow2(k) || Flip(x, k) + Pow2(k) == x
  {
    if k > 0 { FlipDistance(x / 2, k - 1); }
  }

  lemma {:induction false} FlipTwice(p: nat, k: nat)
    ensures Flip(Flip(p, k), k) == p
  {
    if k > 0 {
      var r := Flip(p, k);
      assert r / 2 == Flip(p / 2, k - 1) && r % 2 == p % 2;
      FlipTwice(p / 2, k - 1);
    }
  }

  lemma {:induction false} FlipKeepsAligned(p: nat, k: nat)
    requires Aligned(p, k)
    ensures Aligned(Flip(p, k), k)
  {
    if k > 0 {
      var r := Flip(p, k);
      assert r / 2 == Flip(p / 2, k - 1) && r % 2 == 0;
      FlipKeepsAligned(p / 2, k - 1);
    }
  }

  lemma {:induction false} FlipUp(p: nat, k: nat)
    requires Aligned(p, k)
    ensures Flip(p, k) == p + Pow2(k) <==> Aligned(p, k + 1)
  {
    if k == 0 {
      assert Aligned(p, 1) <==> p % 2 == 0 && Aligned(p / 2, 0);
    } else {
      assert Aligned(p, k + 1) <==> Aligned(p / 2, k);
      assert Flip(p, k) == 2 * Flip(p / 2, k - 1);
      FlipUp(p / 2, k - 1);
    }
  }

  /** The lower of a block and its buddy starts the enclosing block of the next order. */
  lemma FlipAligned(p: nat, k: nat)
    requires Aligned(p, k)
    ensures Aligned(Flip(p, k), k)
    ensures Flip(Flip(p, k), k) == p
    ensures Flip(p, k) == p + Pow2(k) || Flip(p, k) + Pow2(k) == p
    ensures Flip(p, k) == p + Pow2(k) <==> Aligned(p, k + 1)
    ensures Flip(p, k) + Pow2(k) == p <==> Aligned(Flip(p, k), k + 1)
  {
    FlipDistance(p, k);
    FlipTwice(p, k);
    FlipKeepsAligned(p, k);
    FlipUp(p, k);
    FlipUp(Flip(p, k), k);
  }

  /** Exclusive-or relative to an aligned base agrees with exclusive-or on the absolute value. */
  lemma {:induction false} FlipAlignedBase(base: nat, x: nat, k: nat)
    requires Aligned(base, k + 1)
    ensures base + Flip(x, k) == Flip(base + x, k)
  {
    if k > 0 {
      HalfOfSum(base, x);
      FlipAlignedBase(base / 2, x / 2, k - 1);
    }
  }

  /** `x` shifted left by `s` bits. */
  function Shift(x: nat, s: nat): nat
  {
    if s == 0 then x else 2 * Shift(x, s - 1)
  }

  lemma {:induction false} FlipShift(x: nat, low: nat, s: nat, k: nat)
    requires low < Pow2(s)
    ensures Flip(Shift(x, s) + low, k + s) == Shift(Flip(x, k), s) + low
  {
    if s > 0 {
      var y, z := Shift(x, s) + low, Shift(x, s - 1) + low / 2;
      HalfOfSum(Shift(x, s), low);
      assert y / 2 == z && y % 2 == low % 2;
      assert Flip(y, k + s) == 2 * Flip(z, k + s - 1) + low % 2;
      FlipShift(x, low / 2, s - 1, k);
    }
  }

  /** Flipping bit `k + 12` of a byte address flips bit `k` of its page frame number. */
  lemma FlipScale(pfn: nat, low: nat, k: nat)
    requires low < 4096
    ensures Flip(4096 * pfn + low, k + 12) == 4096 * Flip(pfn, k) + low
  {
    FlipShift(pfn, low, 12, k);
    ShiftPage(pfn);
    ShiftPage(Flip(pfn, k));
  }

  lemma ShiftPage(x: nat)
    ensures Shift(x, 12) == 4096 * x && Pow2(12) == 4096
  {
    Doubled(x, 0, 1);
    Doubled(x, 1, 2);
    Doubled(x, 2, 4);
    Doubled(x, 3, 8);
    Doubled(x, 4, 16);
    Doubled(x, 5, 32);
    Doubled(x, 6, 64);
    Doubled(x, 7, 128);
    Doubled(x, 8, 256);
    Doubled(x, 9, 512);
    Doubled(x, 10, 1024);
    Doubled(x, 11, 2048);
  }

  lemma Doubled(x: nat, s: nat, p: nat)
    requires Shift(x, s) == p * x && Pow2(s) == p
    ensures Shift(x, s + 1) == 2 * p * x && Pow2(s + 1) == 2 * p
  {
  }

  lemma ModHalf(x: nat, m: nat)
    requires m >= 1
    ensures x % (2 * m) == 0 <==> x % 2 == 0 && (x / 2) % m == 0
  {
    if x % (2 * m) == 0 {
      var q := x / (2 * m);
      assert x == (2 * m) * q == 2 * (m * q);
      MultipleMod(m, q);
    }
    if x % 2 == 0 && (x / 2) % m == 0 {
      var q := (x / 2) / m;
      assert x == 2 * (m * q) == (2 * m) * q;
      MultipleMod(2 * m, q);
    }
  }

  lemma MultipleMod(m: nat, q: nat)
    requires m >= 1
    ensures (m * q) % m == 0
  {
    var q', r' := (m * q) / m, (m * q) % m;
    assert m * q == m * q' + r';
    Distribute(m, q, q');
    if q > q' { AtLeastOne(m, q - q'); }
  }

  lemma AtLeastOne(m: int, d: int)
    requires m >= 1 && d >= 1
    ensures m * d >= m
  {
    Distribute(m, d - 1, 1);
  }

  /** Alignment is divisibility by the power of two. */
  lemma {:induction false} AlignedIsDivisible(x: nat, k: nat)
    ensures Aligned(x, k) <==> x % Pow2(k) == 0
  {
    if k == 0 {
      assert Pow2(0) == 1;
    } else {
      ModHalf(x, Pow2(k - 1));
      AlignedIsDivisible(x / 2, k - 1);
    }
  }

  lemma Distribute(m: int, a: int, b: int)
    ensures m * (a + b) == m * a + m * b
    ensures m * (a - b) == m * a - m * b
  {
  }
}

/**
  Shifts and masks of natural numbers. All definitions double or halve one bit at a time, so
  that every proof about them is linear.
  */
module PowersOfTwo {

  function Pow2(n: nat): (p: nat)
    ensures p >= 1
  {
    if n == 0 then 1 else 2 * Pow2(n - 1)
  }

  // x << n
  function Shl(x: nat, n: nat): nat {
    if n == 0 then x else 2 * Shl(x, n - 1)
  }

  // x >> n
  function Shr(x: nat, n: nat): nat {
    if n == 0 then x else Shr(x / 2, n - 1)
  }

  // The low n bits of x.
  function Low(x: nat, n: nat): (r: nat)
    ensures r < Pow2(n)
  {
    if n == 0 then 0 else 2 * Low(x / 2, n - 1) + x % 2
  }

  lemma Values(x: nat)
    ensures Shl(x, 0) == x && Shl(x, 6) == 64 * x && Shl(x, 16) == 0x1_0000 * x && Shl(x, 32) == 0x1_0000_0000 * x
    ensures Pow2(0) == 1 && Pow2(6) == 64 && Pow2(16) == 0x1_0000 && Pow2(32) == 0x1_0000_0000
  {
    FourBits(x, 16);
    FourBits(x, 20);
    FourBits(x, 24);
    FourBits(x, 28);
    FourBits(x, 32);
    FourBits(x, 12);
    FourBits(x, 8);
    FourBits(x, 6);
    FourBits(x, 4);
  }

  lemma FourBits(x: nat, n: nat)
    requires n >= 4
    ensures Shl(x, n) == 16 * Shl(x, n - 4) && Pow2(n) == 16 * Pow2(n - 4)
  {
    assert Shl(x, n - 2) == 4 * Shl(x, n - 4) && Pow2(n - 2) == 4 * Pow2(n - 4);
    assert Shl(x, n - 1) == 8 * Shl(x, n - 4) && Pow2(n - 1) == 8 * Pow2(n - 4);
  }

  lemma {:induction false} ShlSum(x: nat, y: nat, n: nat)
    ensures Shl(x + y, n) == Shl(x, n) + Shl(y, n)
  {
    if n > 0 {
      ShlSum(x, y, n - 1);
    }
  }

  lemma {:induction false} ShlShl(x: nat, a: nat, b: nat)
    ensures Shl(Shl(x, a), b) == Shl(x, a + b)
  {
    if b > 0 {
      ShlShl(x, a, b - 1);
    }
  }

  // Shifting keeps the order.
  lemma {:induction false} ShlBelow(x: nat, n: nat, k: nat)
    requires x < Pow2(n)
    ensures Shl(x, k) + Pow2(k) <= Pow2(n + k)
  {
    if k > 0 {
      ShlBelow(x, n, k - 1);
    }
  }

  lemma {:induction false} SplitAt(x: nat, n: nat)
    ensures x == Shl(Shr(x, n), n) + Low(x, n)
  {
    if n > 0 {
      SplitAt(x / 2, n - 1);
    }
  }

  lemma {:induction false} SplitIs(q: nat, n: nat, r: nat)
    requires r < Pow2(n)
    ensures Shr(Shl(q, n) + r, n) == q && Low(Shl(q, n) + r, n) == r
  {
    if n > 0 {
      SplitIs(q, n - 1, r / 2);
      assert (Shl(q, n) + r) / 2 == Shl(q, n - 1) + r / 2;
    }
  }

  // The bits from n on of an (n + k)-bit number form a k-bit number.
  lemma {:induction false} HighBits(x: nat, n: nat, k: nat)
    requires x < Pow2(n + k)
    ensures Shr(x, n) < Pow2(k)
  {
    if n > 0 {
      HighBits(x / 2, n - 1, k);
    }
  }

  // d appended below x.
  lemma Append(x: nat, n: nat, k: nat, d: nat)
    requires x < Pow2(n) && d < Pow2(k)
    ensures Shl(x, k) + d < Pow2(n + k)
  {
    ShlBelow(x, n, k);
  }

  // The low bits after d is shifted in below x.
  lemma ShiftIn(x: nat, n: nat, k: nat, d: nat)
    requires d < Pow2(k)
    ensures Low(Shl(x, k) + d, n + k) == Shl(Low(x, n), k) + d
  {
    var q, r := Shr(x, n), Low(x, n);
    SplitAt(x, n);
    ShlSum(Shl(q, n), r, k);
    ShlShl(q, n, k);
    Append(r, n, k, d);
    SplitIs(q, n + k, Shl(r, k) + d);
  }

  // Masking twice is masking with the shorter mask.
  lemma {:induction false} LowOfLow(x: nat, n: nat, k: nat)
    ensures Low(Low(x, n + k), n) == Low(x, n)
  {
    if n > 0 {
      LowOfLow(x / 2, n - 1, k);
    }
  }

  lemma {:induction false} ShrOfLow(x: nat, n: nat, k: nat)
    ensures Shr(Low(x, n + k), n) == Low(Shr(x, n), k)
  {
    if n > 0 {
      ShrOfLow(x / 2, n - 1, k);
    }
  }

  // The masks 0x3F and 0xFFFF, and the truncation to 32 bits.
  lemma Mask6(x: nat)
    ensures Low(x, 6) == x % 64
  {
    SplitAt(x, 6);
    Values(Shr(x, 6));
  }

  lemma Mask16(x: nat)
    ensures Low(x, 16) == x % 0x1_0000
  {
    SplitAt(x, 16);
    Values(Shr(x, 16));
  }

  lemma Mask32(x: nat)
    ensures Low(x, 32) == x % 0x1_0000_0000
  {
    SplitAt(x, 32);
    Values(Shr(x, 32));
  }
}

/** Bucket indexes: `hash & size_mask` for power-of-two table sizes. */
module Mask {

  /** Bitwise and of two naturals. */
  function And(a: nat, b: nat): nat
    decreases a
  {
    if a == 0 then 0 else (a % 2) * (b % 2) + 2 * And(a / 2, b / 2)
  }

  predicate IsPow2(n: nat) {
    n == 1 || (n >= 2 && n % 2 == 0 && IsPow2(n / 2))
  }

  /** `size() - 1` in 64-bit unsigned arithmetic. */
  function SizeMask(size: nat): nat {
    if size == 0 then 0xFFFF_FFFF_FFFF_FFFF else size - 1
  }

  lemma {:induction false} AndZero(h: nat)
    ensures And(h, 0) == 0
  {
    if h > 0 {
      AndZero(h / 2);
    }
  }

  /** One more mask bit lets one more hash bit through. */
  lemma AndStep(h: nat, size: nat)
    requires size > 0
    ensures And(h, SizeMask(2 * size)) == h % 2 + 2 * And(h / 2, SizeMask(size))
  {
    assert (2 * size - 1) % 2 == 1 && (2 * size - 1) / 2 == size - 1;
    if h == 0 {
      assert And(0, size - 1) == 0;
    }
  }

  /** A masked hash is an index of the table; in a table twice as large the entry goes to its old
      bucket or exactly one table further. */
  lemma {:induction false} Doubled(h: nat, size: nat)
    requires IsPow2(size)
    ensures IsPow2(2 * size)
    ensures And(h, SizeMask(size)) < size
    ensures var b, b2 := And(h, SizeMask(size)), And(h, SizeMask(2 * size)); b2 == b || b2 == b + size
  {
    AndStep(h, size);
    if size == 1 {
      AndZero(h);
      AndZero(h / 2);
    } else {
      AndStep(h, size / 2);
      Doubled(h / 2, size / 2);
    }
  }

  /** Masking with a power of two minus one is the remainder. */
  lemma {:induction false} AndMask(h: nat, size: nat)
    requires IsPow2(size)
    ensures And(h, SizeMask(size)) == h % size
  {
    if size == 1 {
      AndZero(h);
    } else {
      AndStep(h, size / 2);
      AndMask(h / 2, size / 2);
      HalfMod(h, size / 2);
    }
  }

  lemma {:induction false} HalfMod(h: nat, s: nat)
    requires s > 0
    ensures h % (2 * s) == h % 2 + 2 * ((h / 2) % s)
    decreases h
  {
    if h >= 2 * s {
      HalfMod(h - 2 * s, s);
      assert (h - 2 * s) / 2 == h / 2 - s && (h - 2 * s) % 2 == h % 2;
      ModMinus(h, 2 * s);
      ModMinus(h / 2, s);
    } else {
      ModSmall(h, 2 * s);
      ModSmall(h / 2, s);
    }
  }

  lemma ModMinus(h: nat, s: nat)
    requires 0 < s <= h
    ensures (h - s) % s == h % s
  {
    var q, r, q', r' := h / s, h % s, (h - s) / s, (h - s) % s;
    assert s * (q - 1 - q') == r' - r;
    Multiple(s, q - 1 - q');
  }

  /** A multiple of `s` that is not zero is at least `s` away from it. */
  lemma Multiple(s: int, d: int)
    requires s > 0
    ensures d >= 1 ==> s * d >= s
    ensures d <= -1 ==> s * d <= -s
  {
    assert s * d - s == s * (d - 1);
    assert s * d + s == s * (d + 1);
  }

  lemma ModSmall(h: nat, s: nat)
    requires h < s
    ensures h % s == h
  {
  }
}

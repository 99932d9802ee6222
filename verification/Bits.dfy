/**
 The bit tricks the source leans on, on unbounded numbers: masking an index, testing for a power of
 two, and rounding an address up.
 */
module Bits {
  import opened Numbers
  import opened Words

  /** Bitwise conjunction. */
  function And(a: nat, b: nat): (r: nat)
    ensures r <= a && r <= b
  {
    if a == 0 || b == 0 then 0
    else 2 * And(a / 2, b / 2) + if a % 2 == 1 && b % 2 == 1 then 1 else 0
  }

  lemma {:induction false} AndZero(a: nat)
    ensures And(a, 0) == 0 && And(0, a) == 0
  {
  }

  lemma RemainderIs(x: nat, d: nat, q: nat, r: nat)
    requires r < d && x == q * d + r
    ensures x / d == q && x % d == r
  {
    var e, f := x / d, x % d;
    assert x == d * e + f;
    assert d * e == e * d;
    DivisionUnique(q, r, e, f, d);
  }

  lemma Divide(x: nat, d: nat)
    requires d > 0
    ensures x == (x / d) * d + x % d && x % d < d
  {
  }

  lemma HalfStep(x: nat, p: nat)
    requires p > 0
    ensures x % (2 * p) == 2 * (x / 2 % p) + x % 2
  {
    var y := x / 2;
    var q, r := y / p, y % p;
    Divide(y, p);
    assert q * (2 * p) == 2 * (q * p);
    RemainderIs(x, 2 * p, q, 2 * r + x % 2);
  }

  lemma AndEven(x: nat, h: nat)
    ensures And(x, 2 * h) == 2 * And(x / 2, h)
  {
    if x != 0 && h != 0 {
      assert 2 * h / 2 == h;
    }
  }

  /** Masking with one less than a power of two is the remainder: the hash map's home slot. */
  lemma {:induction false} MaskIsRemainder(x: nat, k: nat)
    ensures Pow(2, k) > 0 && And(x, Pow(2, k) - 1) == x % Pow(2, k)
  {
    if k == 0 {
      AndZero(x);
    } else {
      var p := Pow(2, k - 1);
      MaskIsRemainder(x / 2, k - 1);
      HalfStep(x, p);
      assert (2 * p - 1) / 2 == p - 1 && (2 * p - 1) % 2 == 1;
    }
  }

  /** `r` is the greatest multiple of `p` up to `x`. */
  predicate RoundedDown(x: nat, p: nat, r: nat) {
    p > 0 && r % p == 0 && r <= x < r + p
  }

  lemma TwiceMultiple(b: nat, p: nat)
    requires p > 0 && b % p == 0
    ensures 2 * b % (2 * p) == 0
  {
    var q := b / p;
    Divide(b, p);
    RemainderIs(2 * b, 2 * p, q, 0) by { assert q * (2 * p) == 2 * (q * p); }
  }

  lemma RoundDownStep(x: nat, p: nat, h: nat)
    requires RoundedDown(x / 2, p, And(x / 2, h))
    ensures RoundedDown(x, 2 * p, And(x, 2 * h))
  {
    AndEven(x, h);
    TwiceMultiple(And(x / 2, h), p);
    hide And();
  }

  lemma RoundDownToOne(x: nat, n: nat)
    requires x < Pow(2, n)
    ensures RoundedDown(x, Pow(2, 0), And(x, Pow(2, n) - Pow(2, 0)))
  {
    MaskIsRemainder(x, n);
    RemainderIs(x, Pow(2, n), 0, x);
    hide And();
  }

  lemma PowDoubles(k: nat)
    requires k > 0
    ensures Pow(2, k) == 2 * Pow(2, k - 1)
  {
  }

  /** Masking with the complement of a power of two rounds down to a multiple of it. */
  lemma {:induction false} ComplementRoundsDown(x: nat, k: nat, n: nat)
    requires k <= n && x < Pow(2, n)
    ensures Pow(2, k) <= Pow(2, n) && RoundedDown(x, Pow(2, k), And(x, Pow(2, n) - Pow(2, k)))
  {
    hide *;
    PowMonotone(2, k, n);
    if k == 0 {
      RoundDownToOne(x, n);
    } else {
      PowDoubles(k);
      PowDoubles(n);
      ComplementRoundsDown(x / 2, k - 1, n - 1);
      RoundDownStep(x, Pow(2, k - 1), Pow(2, n - 1) - Pow(2, k - 1));
      assert 2 * (Pow(2, n - 1) - Pow(2, k - 1)) == Pow(2, n) - Pow(2, k);
    }
  }

  predicate IsPowerOfTwo(v: nat) {
    v != 0 && And(v, v - 1) == 0
  }

  lemma PowerIsPower(k: nat)
    ensures IsPowerOfTwo(Pow(2, k))
  {
    MaskIsRemainder(Pow(2, k), k);
    RemainderIs(Pow(2, k), Pow(2, k), 1, 0);
  }

  /** `v & (v - 1)` is zero exactly at the powers of two. */
  lemma {:induction false} PowerOfTwoIff(v: nat)
    ensures IsPowerOfTwo(v) <==> exists k: nat :: v == Pow(2, k)
  {
    if k: nat :| v == Pow(2, k) {
      PowerIsPower(k);
    }
    if IsPowerOfTwo(v) {
      var k := ExponentOf(v);
    }
  }

  lemma {:induction false} ExponentOf(v: nat) returns (k: nat)
    requires IsPowerOfTwo(v)
    ensures v == Pow(2, k)
  {
    if v % 2 == 1 {
      OddPower(v);
      k := 0;
    } else {
      assert (v - 1) / 2 == v / 2 - 1;
      var half := ExponentOf(v / 2);
      k := half + 1;
    }
  }

  lemma OddPower(v: nat)
    requires v % 2 == 1 && IsPowerOfTwo(v)
    ensures v == 1
  {
    AndSelf(v / 2);
    assert (v - 1) / 2 == v / 2;
  }

  lemma {:induction false} AndSelf(v: nat)
    ensures And(v, v) == v
  {
    if v != 0 { AndSelf(v / 2); }
  }

  // ---------------------------------------------------------------- rounding up an address

  function Complement(v: nat): nat
    requires v < WORD
  {
    WORD - 1 - v
  }

  /** The distance from `cursor` to the next multiple of `align`, as 64-bit arithmetic computes it. */
  function PaddingTo(cursor: nat, align: nat): nat
    requires cursor < WORD && 0 < align < WORD
  {
    var aligned := And((cursor + align - 1) % WORD, Complement(align - 1));
    (aligned + WORD - cursor) % WORD
  }

  lemma WordIsPower()
    ensures Pow(2, 64) == WORD
  {
    assert Pow(2, 4) == 16;
    PowAdds(2, 4, 4);
    PowAdds(2, 8, 8);
    PowAdds(2, 16, 16);
    PowAdds(2, 32, 32);
  }

  lemma WordDivides(k: nat)
    requires k <= 64
    ensures 0 < Pow(2, k) <= WORD && WORD % Pow(2, k) == 0
  {
    WordIsPower();
    PowPositive(2, k);
    PowMonotone(2, k, 64);
    PowAdds(2, 64 - k, k);
    RemainderIs(WORD, Pow(2, k), Pow(2, 64 - k), 0);
  }

  lemma SmallExponent(k: nat)
    requires Pow(2, k) < WORD
    ensures k < 64
  {
    WordIsPower();
    if k >= 64 { PowMonotone(2, 64, k); }
  }

  lemma MaskRounds(up: nat, align: nat)
    requires up < WORD && IsPowerOfTwo(align) && align < WORD
    ensures WORD % align == 0 && RoundedDown(up, align, And(up, Complement(align - 1)))
  {
    hide And(), IsPowerOfTwo(), Pow(), RoundedDown();
    var k := ExponentOf(align);
    SmallExponent(k);
    WordDivides(k);
    WordIsPower();
    ComplementRoundsDown(up, k, 64);
  }

  /** From a cursor to the rounded address, or, where that wrapped to zero, to the end of the word. */
  lemma DistanceAligns(cursor: nat, align: nat, aligned: nat)
    requires cursor < WORD && 0 < align < WORD && WORD % align == 0
    requires RoundedDown((cursor + align - 1) % WORD, align, aligned)
    ensures var padding := (aligned + WORD - cursor) % WORD;
            padding < align && (cursor + padding) % align == 0
  {
    var up := cursor + align - 1;
    if up < WORD {
      RemainderIs(up, WORD, 0, up);
      RemainderIs(aligned + WORD - cursor, WORD, 1, aligned - cursor);
    } else {
      RemainderIs(up, WORD, 1, up - WORD);
      RemainderIs(aligned, align, 0, aligned);
      RemainderIs(WORD - cursor, WORD, 0, WORD - cursor);
    }
  }

  /** The padding is the least that aligns, even where the rounded address wraps to zero. */
  lemma PaddingAligns(cursor: nat, align: nat)
    requires cursor < WORD && IsPowerOfTwo(align) && align < WORD
    ensures PaddingTo(cursor, align) < align
    ensures (cursor + PaddingTo(cursor, align)) % align == 0
  {
    var up := (cursor + align - 1) % WORD;
    MaskRounds(up, align);
    hide And(), RoundedDown();
    DistanceAligns(cursor, align, And(up, Complement(align - 1)));
  }
}

/**
 The byte keys of `src/bar.c`: a swap's place in execution order, packed so that comparing bytes
 compares places, and a bar's identity, packed so that no two bars share one.
 */
module BarKeys {
  import opened Numbers
  import opened Words

  datatype BarSeq = BarSeq(slot: U64, transaction: U16, instruction: U16, inner: bool, innerIndex: U16)

  /** `idx_bar_seq_compare`: by slot, transaction and instruction, an instruction itself before its inner ones. */
  function Compare(a: BarSeq, b: BarSeq): int {
    if a.slot != b.slot then (if a.slot < b.slot then -1 else 1)
    else if a.transaction != b.transaction then (if a.transaction < b.transaction then -1 else 1)
    else if a.instruction != b.instruction then (if a.instruction < b.instruction then -1 else 1)
    else if a.inner != b.inner then (if a.inner then 1 else -1)
    else if a.innerIndex != b.innerIndex then (if a.innerIndex < b.innerIndex then -1 else 1)
    else 0
  }

  /** Execution order is a total order. */
  lemma CompareIsTotalOrder(a: BarSeq, b: BarSeq, c: BarSeq)
    ensures Compare(a, b) == 0 <==> a == b
    ensures Compare(a, b) == -Compare(b, a)
    ensures Compare(a, b) <= 0 && Compare(b, c) <= 0 ==> Compare(a, c) <= 0
    ensures Compare(a, b) <= 0 ==> a.slot <= b.slot
  {
  }

  /**
   What the order means: slots first; in a slot its transactions; in a transaction its instructions; of
   one instruction, itself before the inner ones it made, and those in their order.
   */
  lemma CompareIsExecutionOrder(a: BarSeq, b: BarSeq)
    ensures a.slot < b.slot ==> Compare(a, b) < 0
    ensures a.slot == b.slot && a.transaction < b.transaction ==> Compare(a, b) < 0
    ensures var same := a.slot == b.slot && a.transaction == b.transaction;
            && (same && a.instruction < b.instruction ==> Compare(a, b) < 0)
            && (same && a.instruction == b.instruction && !a.inner && b.inner ==> Compare(a, b) < 0)
            && (same && a.instruction == b.instruction && a.inner == b.inner && a.innerIndex < b.innerIndex ==>
                  Compare(a, b) < 0)
  {
  }

  // ---------------------------------------------------------------- big-endian numbers

  function BigEndian(x: nat, n: nat): (s: seq<nat>)
    ensures |s| == n
  {
    if n == 0 then [] else BigEndian(x / 256, n - 1) + [x % 256]
  }

  lemma {:induction false} BigEndianValue(x: nat, n: nat)
    requires x < Pow(256, n)
    ensures AllBelow(BigEndian(x, n), 256) && Val(BigEndian(x, n), 256) == x
  {
    if n == 0 {
      ValNothing(256);
    } else {
      assert x / 256 < Pow(256, n - 1);
      BigEndianValue(x / 256, n - 1);
      ValSnoc(BigEndian(x / 256, n - 1), x % 256, 256);
    }
  }

  lemma QuotientIs(x: nat, d: nat, q: nat, r: nat)
    requires d > 0 && r < d && x == q * d + r
    ensures x / d == q
  {
    var e, f := x / d, x % d;
    assert x == d * e + f;
    assert d * e == e * d;
    DivisionUnique(q, r, e, f, d);
  }

  lemma DivDivParts(a: nat, b: nat, q: nat, r: nat, s: nat, t: nat)
    requires r < a && t < b && q == s * b + t
    ensures q * a + r == s * (a * b) + (t * a + r) && t * a + r < a * b
  {
    assert q * a == (s * b) * a + t * a;
    assert (s * b) * a == s * (a * b);
    LeadingDigit(t, a, b);
    assert a * b == b * a;
  }

  lemma DivDiv(x: nat, b: nat)
    requires b > 0
    ensures x / 256 / b == x / (256 * b)
  {
    var q, r := x / 256, x % 256;
    var s, t := q / b, q % b;
    assert q == b * s + t;
    assert b * s == s * b;
    DivDivParts(256, b, q, r, s, t);
    QuotientIs(x, 256 * b, s, t * 256 + r);
  }

  /** The byte at `i` is the number shifted right past the bytes after it. */
  lemma {:induction false} BigEndianByte(x: nat, n: nat, i: nat)
    requires i < n
    ensures Pow(256, n - 1 - i) > 0
    ensures BigEndian(x, n)[i] == x / Pow(256, n - 1 - i) % 256
  {
    PowPositive(256, n - 1 - i);
    if i < n - 1 {
      BigEndianByte(x / 256, n - 1, i);
      PowPositive(256, n - 2 - i);
      DivDiv(x, Pow(256, n - 2 - i));
    }
  }

  // ---------------------------------------------------------------- bytewise order

  /** The sign `memcmp` gives on strings of one length. */
  function LexCompare(a: seq<nat>, b: seq<nat>): int
    requires |a| == |b|
  {
    if a == [] then 0
    else if a[0] != b[0] then (if a[0] < b[0] then -1 else 1)
    else LexCompare(a[1..], b[1..])
  }

  lemma {:induction false} LexConcat(a: seq<nat>, b: seq<nat>, c: seq<nat>, d: seq<nat>)
    requires |a| == |b| && |c| == |d|
    ensures LexCompare(a + c, b + d) == if LexCompare(a, b) != 0 then LexCompare(a, b) else LexCompare(c, d)
  {
    if a == [] {
      assert a + c == c && b + d == d;
    } else {
      assert (a + c)[1..] == a[1..] + c && (b + d)[1..] == b[1..] + d;
      LexConcat(a[1..], b[1..], c, d);
    }
  }

  function Sign(x: int): int { if x < 0 then -1 else if x > 0 then 1 else 0 }

  /** Bytes of one length compare as the numbers they stand for. */
  lemma {:induction false} LexIsNumeric(a: seq<nat>, b: seq<nat>, base: nat)
    requires base > 0 && |a| == |b| && AllBelow(a, base) && AllBelow(b, base)
    ensures LexCompare(a, b) == Sign(Val(a, base) - Val(b, base))
  {
    if a != [] {
      LexIsNumeric(a[1..], b[1..], base);
      ValBounds(a[1..], base);
      ValBounds(b[1..], base);
      LeadingDecides(a[0], Val(a[1..], base), b[0], Val(b[1..], base), Pow(base, |a| - 1));
    }
  }

  lemma LeadingDecides(q: nat, r: nat, q': nat, r': nat, d: nat)
    requires r < d && r' < d
    ensures q < q' ==> q * d + r < q' * d + r'
    ensures q' < q ==> q' * d + r' < q * d + r
  {
    if q < q' { LeadingDigit(q, d, q'); }
    if q' < q { LeadingDigit(q', d, q); }
  }

  lemma BigEndianOrder(x: nat, y: nat, n: nat)
    requires x < Pow(256, n) && y < Pow(256, n)
    ensures LexCompare(BigEndian(x, n), BigEndian(y, n)) == Sign(x - y)
  {
    BigEndianValue(x, n);
    BigEndianValue(y, n);
    LexIsNumeric(BigEndian(x, n), BigEndian(y, n), 256);
  }

  // ---------------------------------------------------------------- the packed keys

  const SEQ_KEY_LEN: nat := 15

  function Pack(s: BarSeq): (k: seq<nat>)
    ensures |k| == SEQ_KEY_LEN
  {
    BigEndian(s.slot, 8) + (BigEndian(s.transaction, 2) + (BigEndian(s.instruction, 2)
    + ([if s.inner then 1 else 0] + BigEndian(s.innerIndex, 2))))
  }

  lemma PowersOf256()
    ensures Pow(256, 1) == 0x100 && Pow(256, 2) == 0x1_0000 && Pow(256, 8) == 0x1_0000_0000_0000_0000
  {
  }

  /** Comparing packed keys byte by byte is comparing places in execution order. */
  lemma PackPreservesOrder(a: BarSeq, b: BarSeq)
    ensures LexCompare(Pack(a), Pack(b)) == Compare(a, b)
  {
    hide BigEndian;
    PowersOf256();
    BigEndianOrder(a.slot, b.slot, 8);
    BigEndianOrder(a.transaction, b.transaction, 2);
    BigEndianOrder(a.instruction, b.instruction, 2);
    BigEndianOrder(a.innerIndex, b.innerIndex, 2);
    PackTail(a, b);
  }

  lemma PackTail(a: BarSeq, b: BarSeq)
    ensures LexCompare(Pack(a), Pack(b)) ==
            var slot := LexCompare(BigEndian(a.slot, 8), BigEndian(b.slot, 8));
            var tx := LexCompare(BigEndian(a.transaction, 2), BigEndian(b.transaction, 2));
            var ix := LexCompare(BigEndian(a.instruction, 2), BigEndian(b.instruction, 2));
            var inner := if a.inner == b.inner then 0 else if a.inner then 1 else -1;
            if slot != 0 then slot else if tx != 0 then tx else if ix != 0 then ix else if inner != 0 then inner
            else LexCompare(BigEndian(a.innerIndex, 2), BigEndian(b.innerIndex, 2))
  {
    hide BigEndian;
    var fa, fb := [if a.inner then 1 else 0], [if b.inner then 1 else 0];
    var ra, rb := BigEndian(a.innerIndex, 2), BigEndian(b.innerIndex, 2);
    assert fa[1..] == [] == fb[1..];
    LexConcat(fa, fb, ra, rb);
    LexConcat(BigEndian(a.instruction, 2), BigEndian(b.instruction, 2), fa + ra, fb + rb);
    LexConcat(BigEndian(a.transaction, 2), BigEndian(b.transaction, 2),
              BigEndian(a.instruction, 2) + (fa + ra), BigEndian(b.instruction, 2) + (fb + rb));
    LexConcat(BigEndian(a.slot, 8), BigEndian(b.slot, 8),
              BigEndian(a.transaction, 2) + (BigEndian(a.instruction, 2) + (fa + ra)),
              BigEndian(b.transaction, 2) + (BigEndian(b.instruction, 2) + (fb + rb)));
  }

  /** Two places never share a packed key. */
  lemma PackInjective(a: BarSeq, b: BarSeq)
    requires Pack(a) == Pack(b)
    ensures a == b
  {
    PackPreservesOrder(a, b);
    PackPreservesOrder(a, a);
  }

  /** The key spells the place out, each number highest byte first. */
  lemma PackBytes(s: BarSeq, i: nat)
    requires i < 8
    ensures Pow(256, 7 - i) > 0 && Pack(s)[i] == s.slot / Pow(256, 7 - i) % 256
    ensures Pack(s)[8..10] == [s.transaction / 256 % 256, s.transaction % 256]
    ensures Pack(s)[10..12] == [s.instruction / 256 % 256, s.instruction % 256]
    ensures Pack(s)[12] == if s.inner then 1 else 0
    ensures Pack(s)[13..] == [s.innerIndex / 256 % 256, s.innerIndex % 256]
  {
    BigEndianByte(s.slot, 8, i);
    TwoBytes(s.transaction);
    TwoBytes(s.instruction);
    TwoBytes(s.innerIndex);
  }

  /** `idx_bar_seq_pack`: the bytes of `Pack`, written one shift at a time. */
  method PackInto(s: BarSeq, out: array<nat>)
    requires out.Length == SEQ_KEY_LEN
    modifies out
    ensures out[..] == Pack(s)
  {
    for i := 0 to 8
      invariant forall k | 0 <= k < i :: out[k] == BigEndian(s.slot, 8)[k]
    {
      BigEndianByte(s.slot, 8, i);
      out[i] := s.slot / Pow(256, 7 - i) % 256;
    }
    out[8] := s.transaction / 256 % 256;
    out[9] := s.transaction % 256;
    out[10] := s.instruction / 256 % 256;
    out[11] := s.instruction % 256;
    out[12] := if s.inner then 1 else 0;
    out[13] := s.innerIndex / 256 % 256;
    out[14] := s.innerIndex % 256;
    TwoBytes(s.transaction);
    TwoBytes(s.instruction);
    TwoBytes(s.innerIndex);
    assert out[..8] == BigEndian(s.slot, 8);
    assert out[..] == out[..8] + out[8..];
  }

  lemma TwoBytes(x: nat)
    ensures BigEndian(x, 2) == [x / 256 % 256, x % 256]
  {
    assert BigEndian(x / 256 / 256, 0) == [];
    assert BigEndian(x / 256, 1) == [x / 256 % 256];
  }

  // ---------------------------------------------------------------- a bar's identity

  type Pubkey = k: seq<Byte> | |k| == 32 witness seq(32, _ => 0)

  datatype Interval = Second | Minute

  function Width(i: Interval): nat { if i.Second? then 1 else 60 }

  datatype BarKey = BarKey(pool: Pubkey, interval: Interval, bucket: int)

  /** A signed 64-bit number as its unsigned bit pattern. */
  function Unsigned64(x: int): nat
    requires -0x8000_0000_0000_0000 <= x < 0x8000_0000_0000_0000
  {
    if x >= 0 then x else x + 0x1_0000_0000_0000_0000
  }

  function LittleEndian(x: nat, n: nat): (s: seq<nat>)
    ensures |s| == n
  {
    if n == 0 then [] else [x % 256] + LittleEndian(x / 256, n - 1)
  }

  lemma {:induction false} LittleEndianInjective(x: nat, y: nat, n: nat)
    requires x < Pow(256, n) && y < Pow(256, n) && LittleEndian(x, n) == LittleEndian(y, n)
    ensures x == y
  {
    if n > 0 {
      var s, t := LittleEndian(x, n), LittleEndian(y, n);
      assert s[0] == x % 256 && t[0] == y % 256;
      assert s[1..] == LittleEndian(x / 256, n - 1) && t[1..] == LittleEndian(y / 256, n - 1);
      LittleEndianInjective(x / 256, y / 256, n - 1);
    }
  }

  predicate Timely(k: BarKey) {
    -0x8000_0000_0000_0000 <= k.bucket < 0x8000_0000_0000_0000
  }

  /** `bar_key`: 41 bytes. */
  function PackKey(k: BarKey): (s: seq<nat>)
    requires Timely(k)
    ensures |s| == 41
  {
    k.pool + [if k.interval.Second? then 0 else 1] + LittleEndian(Unsigned64(k.bucket), 8)
  }

  lemma {:induction false} LittleEndianByte(x: nat, n: nat, i: nat)
    requires i < n
    ensures Pow(256, i) > 0 && LittleEndian(x, n)[i] == x / Pow(256, i) % 256
  {
    PowPositive(256, i);
    if i > 0 {
      LittleEndianByte(x / 256, n - 1, i - 1);
      DivDiv(x, Pow(256, i - 1));
    }
  }

  /** The key spells the bar out: the pool's bytes, the interval, and the bucket's bits, lowest byte first. */
  lemma PackKeyBytes(k: BarKey, i: nat)
    requires Timely(k) && i < 8
    ensures PackKey(k)[..32] == k.pool && (PackKey(k)[32] == 0 <==> k.interval == Second) && PackKey(k)[32] <= 1
    ensures Pow(256, i) > 0
    ensures var bits := if k.bucket < 0 then k.bucket + 0x1_0000_0000_0000_0000 else k.bucket;
            PackKey(k)[33 + i] == bits / Pow(256, i) % 256
  {
    LittleEndianByte(Unsigned64(k.bucket), 8, i);
  }

  /** No two distinct bars collide. */
  lemma PackKeyInjective(a: BarKey, b: BarKey)
    requires Timely(a) && Timely(b) && PackKey(a) == PackKey(b)
    ensures a == b
  {
    var s, t := PackKey(a), PackKey(b);
    assert s[..32] == a.pool && t[..32] == b.pool;
    assert s[32] == t[32];
    assert s[33..] == LittleEndian(Unsigned64(a.bucket), 8) && t[33..] == LittleEndian(Unsigned64(b.bucket), 8);
    PowersOf256();
    LittleEndianInjective(Unsigned64(a.bucket), Unsigned64(b.bucket), 8);
  }
}

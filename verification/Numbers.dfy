/** Numbers as sequences of digits, most significant first. */
module Numbers {

  function Pow(b: nat, n: nat): nat {
    if n == 0 then 1 else b * Pow(b, n - 1)
  }

  /** The value of big-endian digits. */
  ghost function Val(digits: seq<nat>, base: nat): nat
    decreases |digits|
  {
    if digits == [] then 0 else digits[0] * Pow(base, |digits| - 1) + Val(digits[1..], base)
  }

  ghost predicate AllBelow(digits: seq<nat>, base: nat) {
    forall i | 0 <= i < |digits| :: digits[i] < base
  }

  /** Digits of the base, none of them a leading zero. */
  ghost predicate Canonical(digits: seq<nat>, base: nat) {
    AllBelow(digits, base) && (digits != [] ==> digits[0] != 0)
  }

  lemma PowPositive(b: nat, n: nat)
    requires b > 0
    ensures Pow(b, n) > 0
  {
    if n > 0 { PowPositive(b, n - 1); }
  }

  lemma {:induction false} PowAdds(b: nat, m: nat, n: nat)
    ensures Pow(b, m + n) == Pow(b, m) * Pow(b, n)
  {
    if m > 0 {
      PowAdds(b, m - 1, n);
      assert Pow(b, m + n) == b * (Pow(b, m - 1) * Pow(b, n)) == (b * Pow(b, m - 1)) * Pow(b, n);
    }
  }

  lemma LeadingDigit(d: nat, p: nat, base: nat)
    requires d < base
    ensures d * p + p <= base * p
    ensures d != 0 ==> d * p >= p
  {
    var gap := base - d - 1;
    assert base * p == (d + 1 + gap) * p == d * p + p + gap * p;
  }

  lemma ShiftDigits(d: nat, p: nat, q: nat, v: nat)
    ensures d * (p * q) + v * q == (d * p + v) * q
  {
  }

  lemma {:induction false} ValBounds(digits: seq<nat>, base: nat)
    requires base > 0 && AllBelow(digits, base)
    ensures Val(digits, base) < Pow(base, |digits|)
    ensures digits != [] && digits[0] != 0 ==> Val(digits, base) >= Pow(base, |digits| - 1)
    decreases |digits|
  {
    if digits != [] {
      ValBounds(digits[1..], base);
      LeadingDigit(digits[0], Pow(base, |digits| - 1), base);
    }
  }

  lemma {:induction false} ValConcat(a: seq<nat>, b: seq<nat>, base: nat)
    ensures Val(a + b, base) == Val(a, base) * Pow(base, |b|) + Val(b, base)
    decreases |a|
  {
    if a == [] {
      assert a + b == b;
    } else {
      assert (a + b)[1..] == a[1..] + b;
      ValConcat(a[1..], b, base);
      PowAdds(base, |a| - 1, |b|);
      ShiftDigits(a[0], Pow(base, |a| - 1), Pow(base, |b|), Val(a[1..], base));
    }
  }

  lemma ValSnoc(a: seq<nat>, d: nat, base: nat)
    ensures Val(a + [d], base) == base * Val(a, base) + d
  {
    ValConcat(a, [d], base);
    assert Pow(base, 1) == base * Pow(base, 0) == base;
    assert [d][1..] == [];
  }

  /** Canonical digits of equal value are equal: a number is written one way only. */
  lemma {:induction false} CanonicalUnique(a: seq<nat>, b: seq<nat>, base: nat)
    requires base > 1 && Canonical(a, base) && Canonical(b, base) && Val(a, base) == Val(b, base)
    ensures a == b
  {
    ValBounds(a, base);
    ValBounds(b, base);
    if |a| < |b| { PowMonotone(base, |a|, |b| - 1); }
    if |b| < |a| { PowMonotone(base, |b|, |a| - 1); }
    SameLength(a, b, base);
  }

  lemma PowMonotone(b: nat, m: nat, n: nat)
    requires b > 0 && m <= n
    ensures Pow(b, m) <= Pow(b, n)
  {
    if m < n {
      PowMonotone(b, m, n - 1);
      PowPositive(b, n - 1);
    }
  }

  lemma {:induction false} SameLength(a: seq<nat>, b: seq<nat>, base: nat)
    requires base > 0 && AllBelow(a, base) && AllBelow(b, base) && |a| == |b| && Val(a, base) == Val(b, base)
    ensures a == b
    decreases |a|
  {
    if a != [] {
      ValBounds(a[1..], base);
      ValBounds(b[1..], base);
      DivisionUnique(a[0], Val(a[1..], base), b[0], Val(b[1..], base), Pow(base, |a| - 1));
      SameLength(a[1..], b[1..], base);
      assert a == [a[0]] + a[1..] && b == [b[0]] + b[1..];
    }
  }

  lemma DivisionUnique(q: nat, r: nat, q': nat, r': nat, d: nat)
    requires r < d && r' < d && q * d + r == q' * d + r'
    ensures q == q' && r == r'
  {
    var e := q - q';
    assert e * d == r' - r;
    assert e >= 1 ==> e * d >= d;
    assert e <= -1 ==> e * d + d <= 0;
  }

  /** The canonical digits of a number. */
  function Digits(n: nat, base: nat): (s: seq<nat>)
    requires base > 1
    decreases n
  {
    if n == 0 then [] else
      Quotient(n, base);
      Digits(n / base, base) + [n % base]
  }

  lemma Doubles(base: nat, q: nat)
    requires base > 1
    ensures base * q >= 2 * q
  {
  }

  lemma Quotient(n: nat, base: nat)
    requires base > 1 && n > 0
    ensures n / base < n && n == base * (n / base) + n % base
  {
    var q, r := n / base, n % base;
    assert n == base * q + r;
    Doubles(base, q);
  }

  lemma {:induction false} DigitsCorrect(n: nat, base: nat)
    requires base > 1
    ensures Canonical(Digits(n, base), base) && Val(Digits(n, base), base) == n
    decreases n
  {
    if n > 0 {
      hide Val;
      hide Pow;
      Quotient(n, base);
      var q, r := n / base, n % base;
      DigitsCorrect(q, base);
      ValSnoc(Digits(q, base), r, base);
      assert Digits(n, base) == Digits(q, base) + [r];
      assert q == 0 ==> Digits(q, base) == [];
    } else {
      ValNothing(base);
    }
  }

  lemma DigitsOfVal(s: seq<nat>, base: nat)
    requires base > 1 && Canonical(s, base)
    ensures Digits(Val(s, base), base) == s
  {
    DigitsCorrect(Val(s, base), base);
    CanonicalUnique(Digits(Val(s, base), base), s, base);
  }

  lemma DigitsFit(n: nat, base: nat, size: nat)
    requires base > 1 && n < Pow(base, size)
    ensures |Digits(n, base)| <= size
  {
    DigitsCorrect(n, base);
    ValBounds(Digits(n, base), base);
    if |Digits(n, base)| > size { PowMonotone(base, size, |Digits(n, base)| - 1); }
  }

  lemma ValNothing(base: nat)
    ensures Val([], base) == 0
  {
  }
}

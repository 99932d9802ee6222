/**
 Base58 with the Bitcoin alphabet (`src/base58.c`): a number rewritten in place, digit by digit,
 in a buffer sized by `EncodedMax`.

 The conversions are specified by value: an encoding is one '1' per leading zero byte, then the
 digits of the number without a leading zero, and decoding is its inverse.
 */
module Base58 {
  import opened Numbers
  import opened Words

  datatype Result<+T> = Ok(value: T) | ParseError(offset: nat) | RangeError(needed: nat)

  const DIGITS := "123456789"
  const UPPER_A_H := "ABCDEFGH"
  const UPPER_J_N := "JKLMN"
  const UPPER_P_Z := "PQRSTUVWXYZ"
  const LOWER_A_K := "abcdefghijk"
  const LOWER_M_Z := "mnopqrstuvwxyz"
  const ALPHABET: string := DIGITS + UPPER_A_H + UPPER_J_N + UPPER_P_Z + LOWER_A_K + LOWER_M_Z

  /** The digit a character stands for, or -1 outside the alphabet. */
  function DigitOf(c: char): int {
    if '1' <= c <= '9' then c as int - '1' as int
    else if 'A' <= c <= 'H' then c as int - 'A' as int + 9
    else if 'J' <= c <= 'N' then c as int - 'J' as int + 17
    else if 'P' <= c <= 'Z' then c as int - 'P' as int + 22
    else if 'a' <= c <= 'k' then c as int - 'a' as int + 33
    else if 'm' <= c <= 'z' then c as int - 'm' as int + 44
    else -1
  }

  ghost predicate Consecutive(s: string, first: char) {
    forall i | 0 <= i < |s| :: s[i] as int == first as int + i
  }

  lemma AlphabetPieces()
    ensures Consecutive(DIGITS, '1') && Consecutive(UPPER_A_H, 'A') && Consecutive(UPPER_J_N, 'J')
    ensures Consecutive(UPPER_P_Z, 'P') && Consecutive(LOWER_A_K, 'a') && Consecutive(LOWER_M_Z, 'm')
  {
  }

  /** The alphabet and `DigitOf` are inverse to each other. */
  lemma AlphabetDigits(i: nat)
    requires i < 58
    ensures |ALPHABET| == 58 && DigitOf(ALPHABET[i]) == i
  {
    AlphabetPieces();
  }

  lemma DigitsAlphabet(c: char)
    requires DigitOf(c) >= 0
    ensures DigitOf(c) < 58 == |ALPHABET| && ALPHABET[DigitOf(c)] == c
  {
    AlphabetPieces();
    assert ALPHABET[DigitOf(c)] as int == c as int;
  }

  lemma AlphabetHas(c: char)
    ensures c in ALPHABET <==> ('0' <= c <= '9' || 'A' <= c <= 'Z' || 'a' <= c <= 'z') && c !in "0OIl"
  {
    if DigitOf(c) >= 0 { DigitsAlphabet(c); }
    if c in ALPHABET {
      var i :| 0 <= i < |ALPHABET| && ALPHABET[i] == c;
      AlphabetDigits(i);
    }
  }

  /** The alphabet is the digits and letters in character order, without the four that look alike. */
  lemma AlphabetIsBitcoins()
    ensures forall c :: c in ALPHABET <==>
              ('0' <= c <= '9' || 'A' <= c <= 'Z' || 'a' <= c <= 'z') && c !in "0OIl"
    ensures forall i, j | 0 <= i < j < |ALPHABET| :: ALPHABET[i] < ALPHABET[j]
  {
    AlphabetDigits(0);
    forall c ensures c in ALPHABET <==>
                     ('0' <= c <= '9' || 'A' <= c <= 'Z' || 'a' <= c <= 'z') && c !in "0OIl" {
      AlphabetHas(c);
    }
    forall i, j | 0 <= i < j < |ALPHABET| ensures ALPHABET[i] < ALPHABET[j] {
      AlphabetDigits(i);
      AlphabetDigits(j);
      DigitsInOrder(ALPHABET[i], ALPHABET[j]);
    }
  }

  lemma DigitsInOrder(c: char, d: char)
    requires 0 <= DigitOf(c) < DigitOf(d)
    ensures c < d
  {
  }

  // ---------------------------------------------------------------- the buffer bound

  /** `idx_base58_encoded_max`. */
  function EncodedMax(byteCount: nat): (m: nat)
    ensures 100 * (m - 1) <= 138 * byteCount < 100 * m
  {
    byteCount * 138 / 100 + 1
  }

  /** Eleven base-58 digits hold eight bytes, and eight bytes buy at least eleven digits. */
  lemma {:induction false} BufferHolds(n: nat)
    ensures Pow(256, n) <= Pow(58, EncodedMax(n))
  {
    if n < 8 {
      BufferHoldsSmall(n);
    } else {
      hide Pow;
      BufferHolds(n - 8);
      assert n - 8 + 8 == n;
      PowAdds(256, n - 8, 8);
      PowAdds(58, EncodedMax(n - 8), 11);
      EightBytes();
      MulMono(Pow(256, n - 8), Pow(58, EncodedMax(n - 8)), Pow(256, 8), Pow(58, 11));
      PowMonotone(58, EncodedMax(n - 8) + 11, EncodedMax(n));
    }
  }

  lemma MulMono(a: nat, b: nat, c: nat, d: nat)
    requires a <= b && c <= d
    ensures a * c <= b * d
  {
    assert a * c <= b * c <= b * d;
  }

  lemma EightBytes()
    ensures Pow(256, 8) <= Pow(58, 11)
  {
  }

  lemma BufferHoldsSmall(n: nat)
    requires n < 8
    ensures Pow(256, n) <= Pow(58, EncodedMax(n))
  {
    if n < 4 {
      assert n == 0 || n == 1 || n == 2 || n == 3;
    } else {
      BufferHoldsMiddle(n);
    }
  }

  lemma BufferHoldsMiddle(n: nat)
    requires 4 <= n < 8
    ensures Pow(256, n) <= Pow(58, EncodedMax(n))
  {
    assert n == 4 || n == 5 || n == 6 || n == 7;
  }

  // ---------------------------------------------------------------- the carry loop

  /** The low `used` cells hold a number without leading zeros; the cells above are zero. */
  ghost predicate Holding(buffer: seq<nat>, used: nat, base: nat) {
    && used <= |buffer|
    && Canonical(buffer[|buffer| - used..], base)
    && (forall i | 0 <= i < |buffer| - used :: buffer[i] == 0)
  }

  ghost function Held(buffer: seq<nat>, used: nat, base: nat): nat
    requires used <= |buffer|
  {
    Val(buffer[|buffer| - used..], base)
  }

  /** Zeros in front of a number do not change it. */
  lemma {:induction false} LeadingZeros(s: seq<nat>, n: nat, base: nat)
    requires n <= |s| && forall i | 0 <= i < n :: s[i] == 0
    ensures Val(s, base) == Val(s[n..], base)
  {
    if n > 0 {
      LeadingZeros(s[1..], n - 1, base);
      assert s[1..][n - 1..] == s[n..];
    } else {
      assert s[0..] == s;
    }
  }

  /** One digit of the multiplication: `t` leaves its low digit here and carries the rest. */
  lemma CarryStep(d: nat, carry: nat, factor: nat, base: nat, p: nat, low: nat, was: nat, addend: nat)
    requires base > 1 && low + carry * p == factor * was + addend
    ensures var t := carry + factor * d;
            t % base * p + low + t / base * (base * p) == factor * (d * p + was) + addend
  {
    var t := carry + factor * d;
    var q, r := t / base, t % base;
    assert t == base * q + r;
    assert q * (base * p) == (base * q) * p;
    assert r * p + (base * q) * p == t * p;
    assert t * p == carry * p + factor * (d * p);
    assert factor * (d * p + was) == factor * (d * p) + factor * was;
  }

  lemma FactorLess(b: nat, q: nat, f: nat)
    requires b * q < b * f
    ensures q < f
  {
  }

  lemma CarrySmall(d: nat, carry: nat, factor: nat, base: nat)
    requires base > 1 && d < base && carry < factor
    ensures (carry + factor * d) / base < factor
  {
    var t := carry + factor * d;
    var q, r := t / base, t % base;
    assert t == base * q + r;
    LeadingDigit(d, factor, base);
    assert base * q < base * factor;
    FactorLess(base, q, factor);
  }

  lemma NonZeroSplits(t: nat, base: nat)
    requires base > 1 && t > 0
    ensures t % base != 0 || t / base != 0
  {
    assert t == base * (t / base) + t % base;
  }

  /** No carry is left once the number fits in the digits already written. */
  lemma NoCarry(low: nat, carry: nat, p: nat, total: nat)
    requires low + carry * p == total < p
    ensures carry == 0
  {
    assert carry >= 1 ==> carry * p >= p;
  }

  /** What the carry loop has done once the cells from `j` up to the top are rewritten. */
  ghost predicate Carried(
    was: seq<nat>, now: seq<nat>, j: nat, used: nat, carry: nat, base: nat, factor: nat, addend: nat)
  {
    && j <= |now| == |was|
    && now[..j] == was[..j]
    && AllBelow(now[j..], base)
    && Val(now[j..], base) + carry * Pow(base, |now| - j) == factor * Val(was[j..], base) + addend
    && carry < factor
    && (j < |now| && |now| - j >= used ==> now[j] != 0 || carry != 0)
  }

  lemma ValCons(d: nat, s: seq<nat>, base: nat)
    ensures Val([d] + s, base) == d * Pow(base, |s|) + Val(s, base)
  {
    assert ([d] + s)[1..] == s;
  }

  /** A digit of the old number: below the base, and not zero when it is the leading one. */
  lemma OldDigit(was: seq<nat>, used: nat, base: nat, i: nat)
    requires base > 0 && Holding(was, used, base) && i < |was|
    ensures was[i] < base && (used == |was| - i > 0 ==> was[i] != 0)
  {
    var top := |was| - used;
    if i >= top { assert was[top..][i - top] == was[i]; }
  }

  lemma CarriedDigits(now: seq<nat>, j: nat, r: nat, base: nat)
    requires 0 < j <= |now| && AllBelow(now[j..], base) && r < base
    ensures AllBelow([r] + now[j..], base)
  {
  }

  lemma CarriedStep(was: seq<nat>, now: seq<nat>, j: nat, used: nat, carry: nat, base: nat, factor: nat, addend: nat)
    requires base > 1 && Holding(was, used, base) && Carried(was, now, j, used, carry, base, factor, addend)
    requires j > 0 && factor > 0 && (carry != 0 || |now| - j < used)
    ensures var t := carry + factor * now[j - 1];
            Carried(was, now[j - 1 := t % base], j - 1, used, t / base, base, factor, addend)
  {
    hide Val;
    hide Holding;
    hide AllBelow;
    var d, p := was[j - 1], Pow(base, |now| - j);
    var t := carry + factor * d;
    var after := now[j - 1 := t % base];
    assert now[j - 1] == now[..j][j - 1] == d;
    assert after[j - 1..] == [t % base] + now[j..] && was[j - 1..] == [d] + was[j..];
    OldDigit(was, used, base, j - 1);
    CarryStep(d, carry, factor, base, p, Val(now[j..], base), Val(was[j..], base), addend);
    ValCons(t % base, now[j..], base);
    ValCons(d, was[j..], base);
    CarrySmall(d, carry, factor, base);
    CarriedDigits(now, j, t % base, base);
    if |now| - (j - 1) >= used {
      assert d != 0 ==> factor * d > 0;
      NonZeroSplits(t, base);
    }
    assert after[..j - 1] == was[..j - 1];
  }

  lemma CarriedDone(was: seq<nat>, now: seq<nat>, j: nat, used: nat, carry: nat, base: nat, factor: nat, addend: nat)
    requires base > 1 && Holding(was, used, base) && Carried(was, now, j, used, carry, base, factor, addend)
    requires j == 0 || (carry == 0 && |now| - j >= used)
    requires factor * Held(was, used, base) + addend < Pow(base, |was|)
    ensures carry == 0 && Holding(now, |now| - j, base)
    ensures Held(now, |now| - j, base) == factor * Held(was, used, base) + addend
  {
    hide Val;
    hide Pow;
    hide AllBelow;
    OldValue(was, used, base, j);
    if j == 0 { NoCarry(Val(now[j..], base), carry, Pow(base, |now|), factor * Held(was, used, base) + addend); }
    CarriedPrefix(was, now, j, used, carry, base, factor, addend);
    assert |now| - (|now| - j) == j;
  }

  /** Everything above the digits in use is zero, so it adds nothing. */
  lemma OldValue(was: seq<nat>, used: nat, base: nat, j: nat)
    requires base > 0 && Holding(was, used, base) && j <= |was| - used
    ensures Val(was[j..], base) == Held(was, used, base)
  {
    hide Val;
    var top := |was| - used;
    forall i | 0 <= i < top - j ensures was[j..][i] == 0 {
      assert was[j..][i] == was[j + i];
    }
    LeadingZeros(was[j..], top - j, base);
    assert was[j..][top - j..] == was[top..];
  }

  /** Cells the carry loop did not reach are still zero. */
  lemma CarriedPrefix(was: seq<nat>, now: seq<nat>, j: nat, used: nat, carry: nat, base: nat, factor: nat, addend: nat)
    requires base > 1 && Holding(was, used, base) && Carried(was, now, j, used, carry, base, factor, addend)
    requires |now| - j >= used
    ensures forall i | 0 <= i < j :: now[i] == 0
  {
    hide Val;
    hide Pow;
    forall i | 0 <= i < j ensures now[i] == 0 {
      assert now[i] == now[..j][i] == was[..j][i] == was[i];
    }
  }

  /**
   The inner loop of both conversions: multiplies the number in the buffer by `factor` and adds
   `addend`, stopping as soon as no carry is left and every old digit has been rewritten.
   */
  method MultiplyAdd(digits: array<nat>, used: nat, base: nat, factor: nat, addend: nat) returns (consumed: nat)
    requires 1 < base <= 256 && addend < factor <= 256 && Holding(digits[..], used, base)
    requires factor * Held(digits[..], used, base) + addend < Pow(base, digits.Length)
    modifies digits
    ensures Holding(digits[..], consumed, base)
    ensures Held(digits[..], consumed, base) == factor * old(Held(digits[..], used, base)) + addend
  {
    hide Val;
    hide Pow;
    hide Holding;
    hide Carried;
    ghost var was := digits[..];
    var carry: nat := addend;
    consumed := 0;
    var j: nat := digits.Length;
    CarriedStarts(was, used, base, factor, addend);
    while j > 0 && (carry != 0 || consumed < used)
      invariant j + consumed == digits.Length
      invariant Carried(was, digits[..], j, used, carry, base, factor, addend)
    {
      CarriedStep(was, digits[..], j, used, carry, base, factor, addend);
      ghost var before := digits[..];
      carry := carry + factor * digits[j - 1];
      digits[j - 1] := carry % base;
      carry := carry / base;
      assert digits[..] == before[j - 1 := digits[j - 1]];
      j, consumed := j - 1, consumed + 1;
    }
    CarriedDone(was, digits[..], j, used, carry, base, factor, addend);
  }

  lemma CarriedStarts(was: seq<nat>, used: nat, base: nat, factor: nat, addend: nat)
    requires base > 1 && addend < factor
    ensures Carried(was, was, |was|, used, addend, base, factor, addend)
  {
  }

  // ---------------------------------------------------------------- what the conversions mean

  /** How many elements at the front equal `x`. */
  function Leading<T(==)>(s: seq<T>, x: T): (n: nat)
    ensures n <= |s| && (n < |s| ==> s[n] != x)
    ensures forall i | 0 <= i < n :: s[i] == x
  {
    if s == [] || s[0] != x then 0 else 1 + Leading(s[1..], x)
  }

  lemma {:induction false} LeadingOf<T>(n: nat, x: T, rest: seq<T>)
    requires rest != [] ==> rest[0] != x
    ensures Leading(seq(n, _ => x) + rest, x) == n
  {
    var s := seq(n, _ => x) + rest;
    if n == 0 {
      assert s == rest;
    } else {
      assert s[1..] == seq(n - 1, _ => x) + rest;
      LeadingOf(n - 1, x, rest);
    }
  }

  function Letters(digits: seq<nat>): (s: string)
    requires forall i | 0 <= i < |digits| :: digits[i] < 58
    ensures |s| == |digits|
  {
    AlphabetLength();
    seq(|digits|, i requires 0 <= i < |digits| => ALPHABET[digits[i]])
  }

  lemma AlphabetLength()
    ensures |ALPHABET| == 58
  {
  }

  function LetterDigits(text: string): (s: seq<nat>)
    requires forall i | 0 <= i < |text| :: DigitOf(text[i]) >= 0
    ensures |s| == |text|
  {
    seq(|text|, i requires 0 <= i < |text| => DigitOf(text[i]))
  }

  lemma LettersInverse(digits: seq<nat>)
    requires AllBelow(digits, 58)
    ensures forall i | 0 <= i < |digits| :: DigitOf(Letters(digits)[i]) == digits[i]
    ensures LetterDigits(Letters(digits)) == digits
  {
    forall i | 0 <= i < |digits| ensures DigitOf(Letters(digits)[i]) == digits[i] {
      AlphabetDigits(digits[i]);
    }
  }

  lemma LetterDigitsInverse(text: string)
    requires forall i | 0 <= i < |text| :: DigitOf(text[i]) >= 0
    ensures AllBelow(LetterDigits(text), 58) && Letters(LetterDigits(text)) == text
  {
    forall i | 0 <= i < |text| ensures DigitOf(text[i]) < 58 && ALPHABET[DigitOf(text[i])] == text[i] {
      DigitsAlphabet(text[i]);
    }
  }

  ghost function Encoding(input: seq<Byte>): string {
    var zeros := Leading(input, 0);
    var digits := Digits(Val(input[zeros..], 256), 58);
    DigitsCorrect(Val(input[zeros..], 256), 58);
    seq(zeros, _ => '1') + Letters(digits)
  }

  ghost predicate InAlphabet(text: string) {
    forall i | 0 <= i < |text| :: DigitOf(text[i]) >= 0
  }

  ghost function Decoding(text: string): seq<Byte>
    requires InAlphabet(text)
  {
    var ones := Leading(text, '1');
    var digits := Digits(Val(LetterDigits(text[ones..]), 58), 256);
    DigitsCorrect(Val(LetterDigits(text[ones..]), 58), 256);
    seq(ones, _ => 0) + digits
  }

  /** Stripped of its leading zeros a byte string is a canonical base-256 number. */
  lemma StrippedCanonical(input: seq<Byte>)
    ensures Canonical(input[Leading(input, 0)..], 256)
  {
  }

  /** An encoding is a '1' for each leading zero byte, and then the digits of the rest, the first not a '1'. */
  lemma EncodingParts(input: seq<Byte>)
    ensures var text, zeros := Encoding(input), Leading(input, 0);
            && zeros <= |text| && (forall i | 0 <= i < zeros :: text[i] == '1')
            && (zeros < |text| ==> text[zeros] != '1')
            && InAlphabet(text) && LetterDigits(text[zeros..]) == Digits(Val(input[zeros..], 256), 58)
  {
    hide Val, Digits, Letters;
    var zeros := Leading(input, 0);
    var digits := Digits(Val(input[zeros..], 256), 58);
    DigitsCorrect(Val(input[zeros..], 256), 58);
    LettersRead(digits);
    OnesAbove(zeros, Letters(digits));
  }

  lemma LettersRead(digits: seq<nat>)
    requires AllBelow(digits, 58) && (digits != [] ==> digits[0] != 0)
    ensures InAlphabet(Letters(digits)) && LetterDigits(Letters(digits)) == digits
    ensures digits != [] ==> Letters(digits)[0] != '1'
  {
    LettersInverse(digits);
    hide Letters;
    assert digits != [] ==> DigitOf(Letters(digits)[0]) == digits[0];
  }

  lemma OnesAbove(n: nat, letters: string)
    requires InAlphabet(letters)
    ensures var text := seq(n, _ => '1') + letters;
            InAlphabet(text) && text[n..] == letters && forall i | 0 <= i < n :: text[i] == '1'
  {
  }

  /** decode(encode(b)) == b, for every byte string. */
  lemma DecodeEncode(input: seq<Byte>)
    ensures InAlphabet(Encoding(input)) && Decoding(Encoding(input)) == input
  {
    hide Val, Digits;
    EncodingParts(input);
    StrippedCanonical(input);
    hide Encoding, DigitOf, Canonical;
    var zeros, text := Leading(input, 0), Encoding(input);
    assert text == seq(zeros, _ => '1') + text[zeros..];
    LeadingOf(zeros, '1', text[zeros..]);
    var rest: seq<nat> := input[zeros..];
    DigitsCorrect(Val(rest, 256), 58);
    DigitsOfVal(rest, 256);
    assert input == seq(zeros, _ => 0) + input[zeros..];
  }

  /** Stripped of its leading '1's a text is a canonical base-58 number. */
  lemma StrippedText(text: string)
    requires InAlphabet(text)
    ensures var rest := text[Leading(text, '1')..];
            Canonical(LetterDigits(rest), 58) && Letters(LetterDigits(rest)) == rest
  {
    var rest := text[Leading(text, '1')..];
    LetterDigitsInverse(rest);
    if rest != [] {
      DigitsAlphabet(rest[0]);
      AlphabetPieces();
    }
  }

  /** encode(decode(t)) == t, for every text over the alphabet. */
  lemma EncodeDecode(text: string)
    requires InAlphabet(text)
    ensures Encoding(Decoding(text)) == text
  {
    hide Val;
    hide Digits;
    var ones := Leading(text, '1');
    var rest := LetterDigits(text[ones..]);
    var digits := Digits(Val(rest, 58), 256);
    StrippedText(text);
    DigitsOfVal(rest, 58);
    DigitsCorrect(Val(rest, 58), 256);
    LeadingOf(ones, 0, digits);
    hide Canonical, DigitOf, LetterDigits, Letters, InAlphabet, Leading;
    var bytes := Decoding(text);
    assert bytes == seq(ones, _ => 0) + digits;
    hide Decoding;
    assert bytes[ones..] == digits;
    assert text == seq(ones, _ => '1') + text[ones..];
  }

  /**
   What an encoding says: a '1' for each leading zero byte and no more, and after those the number the
   bytes are, written in base 58 by places in the alphabet, most significant first.
   */
  lemma EncodingReads(input: seq<Byte>)
    ensures var text, zeros := Encoding(input), Leading(input, 0);
            && zeros <= |text| && (forall i | 0 <= i < zeros :: text[i] == '1')
            && (zeros < |text| ==> text[zeros] != '1')
            && InAlphabet(text) && Val(LetterDigits(text[zeros..]), 58) == Val(input, 256)
  {
    hide Val, Digits, Encoding;
    var zeros := Leading(input, 0);
    EncodingParts(input);
    DigitsCorrect(Val(input[zeros..], 256), 58);
    LeadingZeros(input, zeros, 256);
  }

  /** Bytes 0, 1, 0 are "15R": a leading zero, and 256 as 4 * 58 + 24. */
  lemma EncodingExample()
    ensures Encoding([0, 1, 0]) == "15R"
  {
    assert Leading([0, 1, 0], 0) == 1 && [0, 1, 0][1..] == [1, 0];
    ExampleDigits();
    hide Val, Digits, Leading;
    assert ALPHABET[4] == '5' && ALPHABET[24] == 'R' by {
      assert |DIGITS| == 9 && |UPPER_A_H| == 8 && |UPPER_J_N| == 5;
    }
    assert Encoding([0, 1, 0]) == ['1'] + ['5', 'R'];
  }

  lemma ExampleDigits()
    ensures Digits(Val([1, 0], 256), 58) == [4, 24]
  {
    assert Val([1, 0], 256) == 256 by { assert [1, 0][1..] == [0] && [0][1..] == [] && Pow(256, 1) == 256; }
    assert Digits(256, 58) == [4, 24] by { assert Digits(4, 58) == [] + [4]; }
  }

  /** `idx_base58_encoded_max` bounds every encoding, and `idx_base58_decoded_max` every decoding. */
  lemma EncodingFits(input: seq<Byte>)
    ensures |Encoding(input)| <= EncodedMax(|input|)
  {
    var zeros := Leading(input, 0);
    var rest: seq<nat> := input[zeros..];
    ValBounds(rest, 256);
    BufferHolds(|rest|);
    DigitsFit(Val(rest, 256), 58, EncodedMax(|rest|));
  }

  lemma DecodingFits(text: string)
    requires InAlphabet(text)
    ensures |Decoding(text)| <= |text|
  {
    var ones := Leading(text, '1');
    var rest := LetterDigits(text[ones..]);
    StrippedText(text);
    ValBounds(rest, 58);
    PowBases(|rest|);
    DigitsFit(Val(rest, 58), 256, |rest|);
  }

  lemma {:induction false} PowBases(n: nat)
    ensures Pow(58, n) <= Pow(256, n)
  {
    if n > 0 { PowBases(n - 1); }
  }

  // ---------------------------------------------------------------- the conversions

  /** A buffer that holds `v` holds exactly its canonical digits. */
  lemma HoldingIsDigits(buffer: seq<nat>, used: nat, base: nat)
    requires base > 1 && Holding(buffer, used, base)
    ensures buffer[|buffer| - used..] == Digits(Held(buffer, used, base), base)
  {
    DigitsOfVal(buffer[|buffer| - used..], base);
  }

  lemma EmptyBuffer(n: nat, base: nat)
    ensures Holding(seq(n, _ => 0), 0, base) && Held(seq(n, _ => 0), 0, base) == 0
  {
  }

  /** One more digit of the input, read from the left. */
  lemma PrefixStep(s: seq<nat>, i: nat, base: nat, size: nat, room: nat, target: nat)
    requires i < |s| <= size && base > 1 && AllBelow(s, base) && Pow(base, size) <= Pow(target, room)
    ensures Val(s[..i + 1], base) == base * Val(s[..i], base) + s[i]
    ensures Val(s[..i + 1], base) < Pow(target, room)
  {
    assert s[..i + 1] == s[..i] + [s[i]];
    ValSnoc(s[..i], s[i], base);
    ValBounds(s[..i + 1], base);
    PowMonotone(base, i + 1, size);
  }

  /**
   The outer loop of the encoding: reads digits of one base, leaves the number in the buffer in the
   other. The buffer bound keeps the carry from ever running off its top.
   */
  method Convert(source: seq<nat>, from: nat, to: nat, room: nat) returns (buffer: array<nat>, used: nat)
    requires 1 < from <= 256 && 1 < to <= 256 && AllBelow(source, from) && Pow(from, |source|) <= Pow(to, room)
    ensures fresh(buffer) && used <= buffer.Length == room
    ensures buffer[room - used..] == Digits(Val(source, from), to)
  {
    hide Val;
    hide Holding;
    hide Pow;
    hide Digits;
    buffer := new nat[room](_ => 0);
    used := 0;
    EmptyBuffer(room, to);
    assert buffer[..] == seq(room, _ => 0);
    ValNothing(from);
    var i := 0;
    while i < |source|
      invariant i <= |source| && fresh(buffer) && used <= room == |buffer[..]|
      invariant Holding(buffer[..], used, to) && Held(buffer[..], used, to) == Val(source[..i], from)
    {
      PrefixStep(source, i, from, |source|, room, to);
      used := MultiplyAdd(buffer, used, to, from, source[i]);
      HoldingUsed(buffer[..], used, to);
      i := i + 1;
    }
    assert source[..i] == source;
    HoldingIsDigits(buffer[..], used, to);
    assert buffer[..][room - used..] == buffer[room - used..];
  }

  lemma HoldingUsed(buffer: seq<nat>, used: nat, base: nat)
    requires Holding(buffer, used, base)
    ensures used <= |buffer|
  {
  }

  method CountLeading<T(==)>(s: seq<T>, x: T) returns (n: nat)
    ensures n == Leading(s, x)
  {
    n := 0;
    while n < |s| && s[n] == x
      invariant n <= |s| && Leading(s, x) == n + Leading(s[n..], x)
    {
      assert s[n..][1..] == s[n + 1..];
      n := n + 1;
    }
  }

  method WriteLetters(digits: seq<nat>, out: array<char>, at: nat)
    requires AllBelow(digits, 58) && at + |digits| <= out.Length
    modifies out
    ensures out[..at] == old(out[..at]) && out[at..at + |digits|] == Letters(digits)
  {
    AlphabetLength();
    for i := 0 to |digits|
      invariant out[..at] == old(out[..at])
      invariant forall k | 0 <= k < i :: out[at + k] == ALPHABET[digits[k]]
    {
      out[at + i] := ALPHABET[digits[i]];
    }
  }

  /** The leading zeros of the input, and the base-58 digits of the rest. */
  method EncodeDigits(input: seq<Byte>) returns (zeros: nat, digits: seq<nat>)
    ensures AllBelow(digits, 58) && Encoding(input) == seq(zeros, _ => '1') + Letters(digits)
  {
    hide Val;
    hide Digits;
    zeros := CountLeading(input, 0);
    var rest: seq<nat> := input[zeros..];
    var room := EncodedMax(|input|);
    BufferHolds(|rest|);
    PowMonotone(58, EncodedMax(|rest|), room);
    var buffer, used := Convert(rest, 256, 58, room);
    DigitsCorrect(Val(rest, 256), 58);
    digits := buffer[room - used..];
  }

  /** `idx_base58_encode`: the encoding and a terminator, or an error that writes nothing. */
  method Encode(input: seq<Byte>, out: array<char>) returns (r: Result<nat>)
    modifies out
    ensures r == if out.Length < |Encoding(input)| + 1 then RangeError(|Encoding(input)| + 1) else Ok(|Encoding(input)|)
    ensures r.Ok? ==> out[..r.value] == Encoding(input) && out[r.value] == '\0'
    ensures !r.Ok? ==> out[..] == old(out[..])
  {
    hide Encoding;
    var zeros, digits := EncodeDigits(input);
    var total := zeros + |digits|;
    if out.Length < total + 1 {
      return RangeError(total + 1);
    }
    forall i | 0 <= i < zeros {
      out[i] := '1';
    }
    assert out[..zeros] == seq(zeros, _ => '1');
    WriteLetters(digits, out, zeros);
    out[total] := '\0';
    assert out[..total] == out[..zeros] + out[zeros..total];
    return Ok(total);
  }

  /** The first character after the leading '1's that is not in the alphabet. */
  ghost predicate FirstBad(text: string, i: nat) {
    i < |text| && DigitOf(text[i]) < 0 && forall k | 0 <= k < i :: DigitOf(text[k]) >= 0
  }

  /** `idx_base58_decode`: a character outside the alphabet is reported where it first occurs. */
  method Decode(text: string, out: array<nat>) returns (r: Result<nat>)
    modifies out
    ensures r.ParseError? <==> !InAlphabet(text)
    ensures r.ParseError? ==> FirstBad(text, r.offset)
    ensures InAlphabet(text) ==>
              r == if out.Length < |Decoding(text)| then RangeError(|Decoding(text)|) else Ok(|Decoding(text)|)
    ensures r.Ok? ==> out[..r.value] == Decoding(text)
    ensures !r.Ok? ==> out[..] == old(out[..])
  {
    hide Decoding;
    var ones, digits;
    r, ones, digits := DecodeDigits(text);
    if r.ParseError? {
      return;
    }
    var total := ones + |digits|;
    if out.Length < total {
      return RangeError(total);
    }
    forall i | 0 <= i < ones {
      out[i] := 0;
    }
    forall i | 0 <= i < |digits| {
      out[ones + i] := digits[i];
    }
    assert out[..total] == seq(ones, _ => 0) + digits;
    return Ok(total);
  }

  lemma NextDigit(source: seq<nat>, digit: nat, room: nat)
    requires AllBelow(source, 58) && digit < 58 && |source| < room
    ensures Val(source + [digit], 58) == 58 * Val(source, 58) + digit < Pow(256, room)
  {
    ValSnoc(source, digit, 58);
    ValBounds(source + [digit], 58);
    PowBases(|source| + 1);
    PowMonotone(256, |source| + 1, room);
  }

  /** The buffer holds the number the digits read so far stand for. */
  ghost predicate HasRead(buffer: seq<nat>, used: nat, source: seq<nat>) {
    AllBelow(source, 58) && Holding(buffer, used, 256) && Held(buffer, used, 256) == Val(source, 58)
  }

  method ReadDigit(bytes: array<nat>, used: nat, digit: nat, ghost source: seq<nat>) returns (consumed: nat)
    requires HasRead(bytes[..], used, source) && digit < 58 && |source| < bytes.Length
    modifies bytes
    ensures HasRead(bytes[..], consumed, source + [digit])
  {
    NextDigit(source, digit, bytes.Length);
    hide Val, Holding, Pow;
    consumed := MultiplyAdd(bytes, used, 256, 58, digit);
  }

  lemma DigitBelow(c: char)
    ensures DigitOf(c) < 58
  {
  }

  lemma NothingRead(n: nat)
    ensures HasRead(seq(n, _ => 0), 0, [])
  {
    EmptyBuffer(n, 256);
    ValNothing(58);
  }

  lemma ReadDigits(buffer: seq<nat>, used: nat, source: seq<nat>)
    requires HasRead(buffer, used, source)
    ensures used <= |buffer| && buffer[|buffer| - used..] == Digits(Val(source, 58), 256)
  {
    HoldingIsDigits(buffer, used, 256);
  }

  lemma DecodesTo(text: string, source: seq<nat>, digits: seq<nat>)
    requires InAlphabet(text)
    requires |source| == |text| - Leading(text, '1')
    requires forall k | Leading(text, '1') <= k < |text| :: DigitOf(text[k]) == source[k - Leading(text, '1')]
    requires digits == Digits(Val(source, 58), 256)
    ensures Decoding(text) == seq(Leading(text, '1'), _ => 0) + digits
  {
    hide DigitOf, Digits, Val;
    assert source == LetterDigits(text[Leading(text, '1')..]);
  }

  /** Reads the text from `start`, a character at a time, up to the first one not in the alphabet. */
  method ReadText(text: string, start: nat) returns (end: nat, digits: seq<nat>, ghost source: seq<nat>)
    requires start <= |text|
    ensures start <= end <= |text| && |source| == end - start
    ensures forall k | start <= k < end :: DigitOf(text[k]) == source[k - start] >= 0
    ensures end < |text| ==> DigitOf(text[end]) < 0
    ensures digits == Digits(Val(source, 58), 256)
  {
    hide Val, Digits, HasRead, DigitOf;
    var room := |text|;
    var bytes := new nat[room](_ => 0);
    var used: nat := 0;
    NothingRead(room);
    assert bytes[..] == seq(room, _ => 0);
    source := [];
    end := start;
    while end < |text| && DigitOf(text[end]) >= 0
      invariant start <= end <= |text| && |source| == end - start
      invariant forall k | start <= k < end :: DigitOf(text[k]) == source[k - start] >= 0
      invariant HasRead(bytes[..], used, source)
    {
      DigitBelow(text[end]);
      used := ReadDigit(bytes, used, DigitOf(text[end]), source);
      source := source + [DigitOf(text[end])];
      end := end + 1;
    }
    ReadDigits(bytes[..], used, source);
    digits := bytes[room - used..];
    assert digits == bytes[..][room - used..];
  }

  /** The leading '1's of the text, and the base-256 digits of the rest. */
  method DecodeDigits(text: string) returns (r: Result<nat>, ones: nat, digits: seq<nat>)
    ensures r.ParseError? || r == Ok(ones)
    ensures r.ParseError? <==> !InAlphabet(text)
    ensures r.ParseError? ==> FirstBad(text, r.offset)
    ensures InAlphabet(text) ==> Decoding(text) == seq(ones, _ => 0) + digits
  {
    assert DigitOf('1') == 0;
    hide Val, Digits, DigitOf, Decoding;
    ones := CountLeading(text, '1');
    var end;
    ghost var source;
    end, digits, source := ReadText(text, ones);
    if end < |text| {
      return ParseError(end), ones, digits;
    }
    DecodesTo(text, source, digits);
    r := Ok(ones);
  }
}

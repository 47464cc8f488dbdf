/** Client-side encodings: hex strings to 256-bit words, and the 256-bit left legs that the
    pseudo-random functions hash. */
module Encodings {
  import opened Bytes
  import opened Outcomes
  import opened Hex
  import opened PrimeField
  import opened Numerals

  // ----- Hex strings as numerals

  predicate IsHex(s: string)
  {
    forall i :: 0 <= i < |s| ==> CharToNibble(s[i]).Some?
  }

  function Nibbles(s: string): (ds: seq<nat>)
    requires IsHex(s)
    ensures |ds| == |s|
  {
    seq(|s|, i requires 0 <= i < |s| => CharToNibble(s[i]).value)
  }

  lemma NibbleDigits(s: string)
    requires IsHex(s)
    ensures Digits(Nibbles(s), 16)
  {}

  /** The integer a non-empty string of hex digits denotes; None is a ValueError. */
  function ParseHex(s: string): (r: Option<nat>)
  {
    if s == "" || !IsHex(s) then None else Some(Value(Nibbles(s), 16))
  }

  // ----- Words

  const WORD_DIGITS := 64

  datatype WordError = OddLength | NotHex

  function Stripped(s: string): string
  {
    if HasPrefix(s) then s[2..] else s
  }

  /** 2^256, as the base in which the words are digits. */
  function WordBase(): (b: nat)
    ensures b > 0
  {
    PowPositive(16, WORD_DIGITS);
    Pow(16, WORD_DIGITS)
  }

  lemma WordBaseIsPowerOfTwo()
    ensures WordBase() == Pow(2, 256)
  {
    PowMul(2, 4, WORD_DIGITS);
    assert Pow(2, 4) == 16;
  }

  function NumWords(s: string): nat
  {
    (|s| + WORD_DIGITS - 1) / WORD_DIGITS
  }

  /** As many words of 64 digits as are needed, and no more. */
  lemma NumWordsIsCeiling(s: string)
    ensures 64 * NumWords(s) - 64 < |s| <= 64 * NumWords(s)
  {}

  /** The only base-2^256 numeral of that length with the string's value. */
  function Words(s: string): seq<nat>
    requires IsHex(s)
  {
    ToDigits(Value(Nibbles(s), 16), WordBase(), NumWords(s))
  }

  /** So these three facts, which the splitting loop guarantees, determine the words. */
  lemma WordsUnique(words: seq<nat>, s: string)
    requires IsHex(s) && |words| == NumWords(s)
    requires Digits(words, WordBase()) && Value(words, WordBase()) == Value(Nibbles(s), 16)
    ensures words == Words(s)
  {
    ToDigitsOfValue(words, WordBase());
  }

  /** Strings of one length with the same words are the same up to letter case. */
  lemma WordsInjective(a: string, b: string)
    requires IsHex(a) && IsHex(b) && |a| == |b| && Words(a) == Words(b)
    ensures Lower(a) == Lower(b)
  {
    ValueOfWords(a);
    ValueOfWords(b);
    NibbleDigits(a);
    NibbleDigits(b);
    ValueInjective(Nibbles(a), Nibbles(b), 16);
    forall i | 0 <= i < |a|
      ensures Lower(a)[i] == Lower(b)[i]
    {
      assert Nibbles(a)[i] == Nibbles(b)[i];
      NibbleRoundTrip(Nibbles(a)[i], a[i]);
      NibbleRoundTrip(Nibbles(b)[i], b[i]);
    }
  }

  lemma ValueOfWords(s: string)
    requires IsHex(s)
    ensures Value(Words(s), WordBase()) == Value(Nibbles(s), 16)
  {
    NibbleDigits(s);
    ValueBound(Nibbles(s), 16);
    PowMono(16, |s|, WORD_DIGITS * NumWords(s));
    PowMul(16, WORD_DIGITS, NumWords(s));
    ValueOfToDigits(Value(Nibbles(s), 16), WordBase(), NumWords(s));
  }

  /** Left-padded split into 256-bit words, most significant first. */
  method HexToUint256List(hex: string) returns (r: Result<seq<nat>, WordError>)
    ensures
      var s := Stripped(hex);
      if |s| % 2 != 0 then r == Err(OddLength)
      else if s == "" || !IsHex(s) then r == Err(NotHex)
      else
        && r.Ok? && |r.value| == NumWords(s)
        && Digits(r.value, WordBase())
        && Value(r.value, WordBase()) == Value(Nibbles(s), 16)
  {
    var s := hex;
    if HasPrefix(s) {
      s := s[2..];
    }
    if |s| % 2 != 0 {
      return Err(OddLength);
    }
    var fullWords := if |s| == 0 then 0 else (|s| - 1) / WORD_DIGITS;
    var startIdx := 0;
    var nextIdx := |s| - fullWords * WORD_DIGITS;
    var words: seq<nat> := [];
    ghost var first, base := nextIdx, WordBase();
    while nextIdx <= |s|
      invariant nextIdx == first + WORD_DIGITS * |words| && |words| <= fullWords + 1
      invariant startIdx == if |words| == 0 then 0 else nextIdx - WORD_DIGITS
      invariant |s| == 0 ==> |words| == 0
      invariant IsHex(s[..startIdx])
      invariant Digits(words, base) && Value(words, base) == Value(Nibbles(s[..startIdx]), 16)
      decreases |s| + WORD_DIGITS - nextIdx
    {
      var sub := s[startIdx..nextIdx];
      var v := ParseHex(sub);
      if v.None? {
        SubHex(s, startIdx, nextIdx);
        return Err(NotHex);
      }
      WordStep(s, startIdx, nextIdx, words, WORD_DIGITS, base);
      words := words + [v.value];
      startIdx := nextIdx;
      nextIdx := nextIdx + WORD_DIGITS;
    }
    assert |words| == fullWords + 1;
    assert startIdx == |s|;
    assert s[..|s|] == s;
    return Ok(words);
  }

  lemma SubHex(s: string, a: nat, b: nat)
    requires a <= b <= |s|
    ensures IsHex(s) ==> IsHex(s[a..b])
  {}

  /** Appending one parsed chunk to the words appends its digits to the number. Every chunk but
      the first has exactly `digits` digits. */
  lemma WordStep(s: string, start: nat, next: nat, words: seq<nat>, digits: nat, base: nat)
    requires start < next <= |s| && base == Pow(16, digits)
    requires next - start <= digits && (start > 0 ==> next - start == digits)
    requires start == 0 ==> words == []
    requires IsHex(s[..start]) && IsHex(s[start..next])
    requires Digits(words, base) && Value(words, base) == Value(Nibbles(s[..start]), 16)
    ensures IsHex(s[..next])
    ensures
      var words' := words + [Value(Nibbles(s[start..next]), 16)];
      Digits(words', base) && Value(words', base) == Value(Nibbles(s[..next]), 16)
  {
    var a, b := s[..start], s[start..next];
    assert s[..next] == a + b;
    NibblesAppend(a, b);
    ChunkBound(b, digits);
    ChunkValue(Nibbles(a), Nibbles(b), words, digits, base);
  }

  lemma ChunkBound(b: string, digits: nat)
    requires IsHex(b) && |b| <= digits
    ensures Value(Nibbles(b), 16) < Pow(16, digits)
  {
    NibbleDigits(b);
    ValueBound(Nibbles(b), 16);
    PowMono(16, |b|, digits);
  }

  lemma ChunkValue(a: seq<nat>, b: seq<nat>, words: seq<nat>, digits: nat, base: nat)
    requires base == Pow(16, digits) && Value(words, base) == Value(a, 16)
    requires if a == [] then words == [] else |b| == digits
    ensures Value(words + [Value(b, 16)], base) == Value(a + b, 16)
  {
    if a == [] {
      assert a + b == b && words + [Value(b, 16)] == [Value(b, 16)];
      SingleDigit(Value(b, 16), base);
    } else {
      NextChunk(a, b, words, base);
    }
  }

  lemma NextChunk(a: seq<nat>, b: seq<nat>, words: seq<nat>, base: nat)
    requires base == Pow(16, |b|) && Value(words, base) == Value(a, 16)
    ensures Value(words + [Value(b, 16)], base) == Value(a + b, 16)
  {
    ValueSnoc(words, Value(b, 16), base);
    ValueAppend(a, b, 16);
    EqualProducts(Value(words, base), Value(a, 16), base, Pow(16, |b|));
  }

  lemma ValueSnoc(ds: seq<nat>, d: nat, base: nat)
    ensures Value(ds + [d], base) == Value(ds, base) * base + d
  {
    assert (ds + [d])[..|ds|] == ds;
  }

  lemma EqualProducts(x: int, y: int, p: int, q: int)
    requires x == y && p == q
    ensures x * p == y * q
  {}

  lemma NibblesAppend(a: string, b: string)
    requires IsHex(a) && IsHex(b)
    ensures IsHex(a + b) && Nibbles(a + b) == Nibbles(a) + Nibbles(b)
  {}

  lemma SingleDigit(v: nat, base: nat)
    ensures Value([v], base) == v && Pow(base, 1) == base
  {
    assert [v][..0] == [];
  }

  // ----- Left legs of the pseudo-random functions

  function ByteDigits(bs: Bytes): (ds: seq<nat>)
    ensures |ds| == |bs| && Digits(ds, 256)
  {
    seq(|bs|, i requires 0 <= i < |bs| => bs[i] as nat)
  }

  /** digest_to_binary_string: eight bits per byte. */
  function DigestBits(digest: Bytes): (bits: seq<nat>)
    ensures |bits| == 8 * |digest|
  {
    Expand(ByteDigits(digest), 2, 8)
  }

  lemma DigestBitsAreBits(digest: Bytes)
    ensures Digits(DigestBits(digest), 2)
  {
    assert Pow(2, 8) == 256;
    ExpandValue(ByteDigits(digest), 2, 8);
  }

  const LEG_BITS := 256
  const LEG_BYTES := 32

  /** int(bits, 2).to_bytes(32, 'big') */
  function LegBytes(bits: seq<nat>): (bs: seq<nat>)
    ensures |bs| == LEG_BYTES
  {
    ToDigits(Value(bits, 2), 256, LEG_BYTES)
  }

  function Truncated(digest: Bytes, n: nat): (bits: seq<nat>)
    requires n <= 8 * |digest|
    ensures |bits| == n
  {
    DigestBits(digest)[..n]
  }

  /** 1100 || first 252 bits of a_sk */
  function ApkBits(sk: Bytes): (bits: seq<nat>)
    requires |sk| == LEG_BYTES
    ensures |bits| == LEG_BITS
  {
    [1, 1, 0, 0] + Truncated(sk, 252)
  }

  /** 1110 || first 252 bits of a_sk */
  function NullifierBits(sk: Bytes): (bits: seq<nat>)
    requires |sk| == LEG_BYTES
    ensures |bits| == LEG_BITS
  {
    [1, 1, 1, 0] + Truncated(sk, 252)
  }

  /** 0 || i || 10 || phi truncated so that 256 bits result; indexBits is 1 for two outputs. */
  function RhoBits(phi: Bytes, i: nat, indexBits: nat): (bits: seq<nat>)
    requires |phi| == LEG_BYTES && indexBits <= 253
    ensures |bits| == LEG_BITS
  {
    [0] + ToDigits(i, 2, indexBits) + [1, 0] + Truncated(phi, 253 - indexBits)
  }

  lemma {:induction false} ExpandAt(ds: seq<nat>, base: nat, g: nat, i: nat)
    requires base > 0 && i < |ds|
    ensures g * i <= g * i + g <= |Expand(ds, base, g)|
    ensures Expand(ds, base, g)[g * i..g * i + g] == ToDigits(ds[i], base, g)
  {
    var init := ds[..|ds| - 1];
    assert |Expand(init, base, g)| == g * |init| && g * |ds| == g * |init| + g;
    if i < |init| {
      ExpandAt(init, base, g, i);
      assert Expand(ds, base, g)[g * i..g * i + g] == Expand(init, base, g)[g * i..g * i + g];
    }
  }

  /** Bits 8i to 8i + 7 are byte i, most significant bit first. */
  lemma DigestBitsAt(digest: Bytes, i: nat)
    requires i < |digest|
    ensures DigestBits(digest)[8 * i..8 * i + 8] == ToDigits(digest[i] as nat, 2, 8)
    ensures Value(DigestBits(digest)[8 * i..8 * i + 8], 2) == digest[i] as nat
  {
    ExpandAt(ByteDigits(digest), 2, 8, i);
    assert Pow(2, 8) == 256;
    ValueOfToDigits(digest[i] as nat, 2, 8);
  }

  lemma HighNibble(v: nat)
    requires v < 256
    ensures Value(ToDigits(v, 2, 8)[..4], 2) == v / 16
  {
    var ds := ToDigits(v, 2, 8);
    assert ds[..7] == ToDigits(v / 2, 2, 7);
    assert ds[..6] == ds[..7][..6] == ToDigits(v / 2 / 2, 2, 6);
    assert ds[..5] == ds[..6][..5] == ToDigits(v / 2 / 2 / 2, 2, 5);
    assert ds[..4] == ds[..5][..4] == ToDigits(v / 2 / 2 / 2 / 2, 2, 4);
    assert Pow(2, 4) == 16 && v / 2 / 2 / 2 / 2 == v / 16;
    ValueOfToDigits(v / 16, 2, 4);
  }

  /** After the four tag bits come the bytes of the secret in order, and of the last byte the upper
      half: the first 252 bits. */
  lemma SecretLayout(tag: seq<nat>, sk: Bytes, i: nat)
    requires |tag| == 4 && |sk| == 32 && i < 32
    ensures
      var bits := tag + Truncated(sk, 252);
      && bits[..4] == tag
      && (i < 31 ==> Value(bits[4 + 8 * i..12 + 8 * i], 2) == sk[i] as nat)
      && (i == 31 ==> Value(bits[252..256], 2) == sk[31] as nat / 16)
  {
    var all := DigestBits(sk);
    DigestBitsAt(sk, i);
    if i < 31 {
      TaggedSlice(tag, all, 252, 8 * i, 8 * i + 8);
    } else {
      TaggedSlice(tag, all, 252, 248, 252);
      assert all[248..252] == all[248..256][..4];
      HighNibble(sk[31] as nat);
    }
  }

  lemma TaggedSlice(tag: seq<nat>, all: seq<nat>, n: nat, a: nat, b: nat)
    requires a <= b <= n <= |all|
    ensures (tag + all[..n])[..|tag|] == tag && (tag + all[..n])[|tag| + a..|tag| + b] == all[a..b]
  {
    var s := tag + all[..n];
    assert s[..|tag|] == tag;
    assert s[|tag|..] == all[..n];
    assert s[|tag| + a..|tag| + b] == s[|tag|..][a..b];
    assert all[..n][a..b] == all[a..b];
  }

  /** The left legs of a_pk and of the nullifier, bit by bit. */
  lemma SecretLegs(sk: Bytes, i: nat)
    requires |sk| == 32 && i < 32
    ensures ApkBits(sk)[..4] == [1, 1, 0, 0] && NullifierBits(sk)[..4] == [1, 1, 1, 0]
    ensures i < 31 ==> Value(ApkBits(sk)[4 + 8 * i..12 + 8 * i], 2) == sk[i] as nat
    ensures i < 31 ==> Value(NullifierBits(sk)[4 + 8 * i..12 + 8 * i], 2) == sk[i] as nat
    ensures Value(ApkBits(sk)[252..256], 2) == Value(NullifierBits(sk)[252..256], 2) == sk[31] as nat / 16
  {
    SecretLayout([1, 1, 0, 0], sk, i);
    SecretLayout([1, 1, 1, 0], sk, i);
    SecretLayout([1, 1, 0, 0], sk, 31);
    SecretLayout([1, 1, 1, 0], sk, 31);
  }

  lemma RhoOfTwo(phi: Bytes, index: nat)
    requires |phi| == 32 && index < 2
    ensures RhoBits(phi, index, 1) == [0, index, 1, 0] + Truncated(phi, 252)
  {
    assert ToDigits(index, 2, 1) == [index];
    assert [0] + [index] + [1, 0] == [0, index, 1, 0];
  }

  /** The left leg of rho_i with two outputs, bit by bit: 0, the index, 10, then phi from its first
      bit on, all but the last four. */
  lemma RhoLeg(phi: Bytes, index: nat, i: nat)
    requires |phi| == 32 && index < 2 && i < 32
    ensures RhoBits(phi, index, 1)[..4] == [0, index, 1, 0]
    ensures i < 31 ==> Value(RhoBits(phi, index, 1)[4 + 8 * i..12 + 8 * i], 2) == phi[i] as nat
    ensures Value(RhoBits(phi, index, 1)[252..256], 2) == phi[31] as nat / 16
  {
    RhoOfTwo(phi, index);
    SecretLayout([0, index, 1, 0], phi, i);
    SecretLayout([0, index, 1, 0], phi, 31);
  }

  /** The 256 bits of a leg can be read back from its 32 bytes. */
  lemma LegBitsBack(bits: seq<nat>, bytes: nat)
    requires |bits| == 8 * bytes && Digits(bits, 2)
    ensures Expand(ToDigits(Value(bits, 2), 256, bytes), 2, 8) == bits
  {
    ValueBound(bits, 2);
    PowMul(2, 8, bytes);
    assert Pow(2, 8) == 256;
    var ds := ToDigits(Value(bits, 2), 256, bytes);
    ValueOfToDigits(Value(bits, 2), 256, bytes);
    ExpandValue(ds, 2, 8);
    ValueInjective(Expand(ds, 2, 8), bits, 2);
  }

  /** Byte i of a leg is made of its bits 8i to 8i + 7, most significant first. */
  lemma LegByteAt(bits: seq<nat>, i: nat)
    requires |bits| == LEG_BITS && Digits(bits, 2) && i < LEG_BYTES
    ensures LegBytes(bits)[i] == Value(bits[8 * i..8 * i + 8], 2)
  {
    LegBitsBack(bits, LEG_BYTES);
    var bytes := LegBytes(bits);
    ExpandAt(bytes, 2, 8, i);
    LegByteBound(bits, i);
    assert Pow(2, 8) == 256;
    ValueOfToDigits(bytes[i], 2, 8);
  }

  lemma LegByteBound(bits: seq<nat>, i: nat)
    requires |bits| == LEG_BITS && Digits(bits, 2) && i < LEG_BYTES
    ensures LegBytes(bits)[i] < 256
  {
    ValueBound(bits, 2);
    PowMul(2, 8, LEG_BYTES);
    assert Pow(2, 8) == 256;
    ValueOfToDigits(Value(bits, 2), 256, LEG_BYTES);
  }

  lemma LegsInjective(a: seq<nat>, b: seq<nat>)
    requires |a| == |b| == LEG_BITS && Digits(a, 2) && Digits(b, 2) && LegBytes(a) == LegBytes(b)
    ensures a == b
  {
    LegBitsBack(a, LEG_BYTES);
    LegBitsBack(b, LEG_BYTES);
  }

  lemma TruncatedBits(digest: Bytes, n: nat)
    requires n <= 8 * |digest|
    ensures Digits(Truncated(digest, n), 2)
  {
    DigestBitsAreBits(digest);
  }

  lemma DigitsAppend(a: seq<nat>, b: seq<nat>, base: nat)
    requires Digits(a, base) && Digits(b, base)
    ensures Digits(a + b, base)
  {}

  lemma LegDigits(digest: Bytes, i: nat, indexBits: nat)
    requires |digest| == LEG_BYTES && indexBits <= 253 && i < Pow(2, indexBits)
    ensures Digits(ApkBits(digest), 2) && Digits(NullifierBits(digest), 2) && Digits(RhoBits(digest, i, indexBits), 2)
  {
    TruncatedBits(digest, 252);
    DigitsAppend([1, 1, 0, 0], Truncated(digest, 252), 2);
    DigitsAppend([1, 1, 1, 0], Truncated(digest, 252), 2);
    RhoDigits(digest, i, indexBits);
  }

  lemma RhoDigits(digest: Bytes, i: nat, indexBits: nat)
    requires |digest| == LEG_BYTES && indexBits <= 253 && i < Pow(2, indexBits)
    ensures Digits(RhoBits(digest, i, indexBits), 2)
  {
    var index, low := ToDigits(i, 2, indexBits), Truncated(digest, 253 - indexBits);
    TruncatedBits(digest, 253 - indexBits);
    ValueOfToDigits(i, 2, indexBits);
    DigitsAppend([0], index, 2);
    DigitsAppend([0] + index, [1, 0], 2);
    DigitsAppend([0] + index + [1, 0], low, 2);
  }

  /** Left legs of different functions never coincide, for any secrets and indices; within one
      function they determine the index and the secret bits that were kept. */
  lemma LegsSeparate(sk: Bytes, sk': Bytes, phi: Bytes, phi': Bytes, i: nat, i': nat, indexBits: nat)
    requires |sk| == |sk'| == |phi| == |phi'| == LEG_BYTES && indexBits <= 253
    requires i < Pow(2, indexBits) && i' < Pow(2, indexBits)
    ensures LegBytes(ApkBits(sk)) != LegBytes(NullifierBits(sk'))
    ensures LegBytes(ApkBits(sk)) != LegBytes(RhoBits(phi, i, indexBits))
    ensures LegBytes(NullifierBits(sk)) != LegBytes(RhoBits(phi, i, indexBits))
    ensures LegBytes(ApkBits(sk)) == LegBytes(ApkBits(sk')) ==> Truncated(sk, 252) == Truncated(sk', 252)
    ensures LegBytes(NullifierBits(sk)) == LegBytes(NullifierBits(sk')) ==> Truncated(sk, 252) == Truncated(sk', 252)
    ensures LegBytes(RhoBits(phi, i, indexBits)) == LegBytes(RhoBits(phi', i', indexBits)) ==>
      i == i' && Truncated(phi, 253 - indexBits) == Truncated(phi', 253 - indexBits)
  {
    LegDigits(sk, i, indexBits);
    LegDigits(sk', i', indexBits);
    LegDigits(phi, i, indexBits);
    LegDigits(phi', i', indexBits);
    PrefixDiffers(ApkBits(sk), NullifierBits(sk'), 2);
    PrefixDiffers(ApkBits(sk), RhoBits(phi, i, indexBits), 0);
    PrefixDiffers(NullifierBits(sk), RhoBits(phi, i, indexBits), 0);
    if LegBytes(ApkBits(sk)) == LegBytes(ApkBits(sk')) {
      LegsInjective(ApkBits(sk), ApkBits(sk'));
      assert Truncated(sk, 252) == ApkBits(sk)[4..] && Truncated(sk', 252) == ApkBits(sk')[4..];
    }
    if LegBytes(NullifierBits(sk)) == LegBytes(NullifierBits(sk')) {
      LegsInjective(NullifierBits(sk), NullifierBits(sk'));
      assert Truncated(sk, 252) == NullifierBits(sk)[4..] && Truncated(sk', 252) == NullifierBits(sk')[4..];
    }
    if LegBytes(RhoBits(phi, i, indexBits)) == LegBytes(RhoBits(phi', i', indexBits)) {
      RhoParts(phi, phi', i, i', indexBits);
    }
  }

  lemma PrefixDiffers(a: seq<nat>, b: seq<nat>, j: nat)
    requires |a| == |b| == LEG_BITS && Digits(a, 2) && Digits(b, 2) && j < LEG_BITS && a[j] != b[j]
    ensures LegBytes(a) != LegBytes(b)
  {
    if LegBytes(a) == LegBytes(b) {
      LegsInjective(a, b);
    }
  }

  lemma RhoParts(phi: Bytes, phi': Bytes, i: nat, i': nat, n: nat)
    requires |phi| == |phi'| == LEG_BYTES && n <= 253 && i < Pow(2, n) && i' < Pow(2, n)
    requires LegBytes(RhoBits(phi, i, n)) == LegBytes(RhoBits(phi', i', n))
    ensures i == i' && Truncated(phi, 253 - n) == Truncated(phi', 253 - n)
  {
    LegDigits(phi, i, n);
    LegDigits(phi', i', n);
    var a, b := RhoBits(phi, i, n), RhoBits(phi', i', n);
    LegsInjective(a, b);
    RhoSlices(ToDigits(i, 2, n), Truncated(phi, 253 - n));
    RhoSlices(ToDigits(i', 2, n), Truncated(phi', 253 - n));
    ValueOfToDigits(i, 2, n);
    ValueOfToDigits(i', 2, n);
  }

  lemma RhoSlices(index: seq<nat>, low: seq<nat>)
    ensures
      var bits := [0] + index + [1, 0] + low;
      bits[1..1 + |index|] == index && bits[3 + |index|..] == low
  {}

  // ----- The variable-width hex route that _derive_a_pk takes

  function UpperHex(n: nat): (c: char)
    requires n < 16
  {
    if n > 9 then ((('A' as int) + n - 10) as char) else ((('0' as int) + n) as char)
  }

  /** As many upper-case hex digits as the number needs. */
  function ShortHex(v: nat): (s: string)
    ensures |s| >= 1
  {
    if v < 16 then [UpperHex(v)] else ShortHex(v / 16) + [UpperHex(v % 16)]
  }

  /** "{0:0>4X}": at least four digits. */
  function FormatHex(v: nat): string
  {
    var s := ShortHex(v);
    if |s| < 4 then seq(4 - |s|, _ => '0') + s else s
  }

  lemma {:induction false} ShortHexValue(v: nat, n: nat)
    requires n >= 1 && v < Pow(16, n) && (n == 1 || Pow(16, n - 1) <= v)
    ensures |ShortHex(v)| == n && IsHex(ShortHex(v)) && Value(Nibbles(ShortHex(v)), 16) == v
    decreases n
  {
    if n == 1 {
      assert Nibbles([UpperHex(v)]) == [v];
      SingleDigit(v, 16);
    } else {
      PowPositive(16, n - 2);
      assert 16 <= Pow(16, n - 1) <= v;
      QuotientBound(v, 16, Pow(16, n - 1));
      ShortHexValue(v / 16, n - 1);
      var s, d := ShortHex(v / 16), UpperHex(v % 16);
      assert Nibbles(s + [d]) == Nibbles(s) + [v % 16];
      assert (Nibbles(s) + [v % 16])[..|s|] == Nibbles(s);
    }
  }

  /** Decoding hex text keeps its value. */
  lemma {:induction false} DecodeValue(s: string)
    requires |s| % 2 == 0 && IsHex(s)
    ensures Decode(s).Some? && Value(ByteDigits(Decode(s).value), 256) == Value(Nibbles(s), 16)
  {
    if s != "" {
      assert IsHex(s[2..]);
      DecodeValue(s[2..]);
      var b, rest := CharsToByte(s[0], s[1]).value, Decode(s[2..]).value;
      assert s == s[..2] + s[2..];
      NibblesAppend(s[..2], s[2..]);
      ValueAppend(Nibbles(s[..2]), Nibbles(s[2..]), 16);
      PairValue(s[..2]);
      assert ByteDigits([b] + rest) == [b as nat] + ByteDigits(rest);
      ValueAppend([b as nat], ByteDigits(rest), 256);
      SingleDigit(b as nat, 256);
      PowSquare(|rest|);
    }
  }

  lemma PairValue(s: string)
    requires |s| == 2 && IsHex(s)
    ensures CharsToByte(s[0], s[1]).Some? && Value(Nibbles(s), 16) == CharsToByte(s[0], s[1]).value as nat
  {
    SingleDigit(Nibbles(s)[0], 16);
    assert Nibbles(s)[..1] == [Nibbles(s)[0]];
  }

  lemma PowSquare(n: nat)
    ensures Pow(16, 2 * n) == Pow(256, n)
  {
    PowMul(16, 2, n);
    assert Pow(16, 2) == 256;
  }

  /** The leading bits 1100 make the hex text exactly `nibbles` digits long, so that decoding it
      gives the same bytes as a fixed-width conversion. */
  lemma HexRoute(low: seq<nat>, nibbles: nat)
    requires nibbles >= 4 && nibbles % 2 == 0 && |low| == 4 * (nibbles - 1) && Digits(low, 2)
    ensures
      var v := Value([1, 1, 0, 0] + low, 2);
      var r := Decode(FormatHex(v));
      r.Some? && ByteDigits(r.value) == ToDigits(v, 256, nibbles / 2)
  {
    var v := Value([1, 1, 0, 0] + low, 2);
    LeadingNibble(low, nibbles);
    ShortHexValue(v, nibbles);
    DecodeValue(ShortHex(v));
    var bs := Decode(ShortHex(v)).value;
    ToDigitsOfValue(ByteDigits(bs), 256);
  }

  lemma LeadingNibble(low: seq<nat>, nibbles: nat)
    requires nibbles >= 1 && |low| == 4 * (nibbles - 1) && Digits(low, 2)
    ensures Pow(16, nibbles - 1) <= Value([1, 1, 0, 0] + low, 2) < Pow(16, nibbles)
  {
    ValueAppend([1, 1, 0, 0], low, 2);
    TopNibbleValue();
    ValueBound(low, 2);
    PowMul(2, 4, nibbles - 1);
    assert Pow(2, 4) == 16;
  }

  lemma TopNibbleValue()
    ensures Value([1, 1, 0, 0], 2) == 12
  {
    assert [1, 1, 0, 0][..3] == [1, 1, 0];
    assert [1, 1, 0][..2] == [1, 1];
    assert [1, 1][..1] == [1];
    SingleDigit(1, 2);
  }

  /** So for every secret key the left leg of a_pk is 32 bytes, the same as the fixed-width one. */
  lemma ApkLegIsFixedWidth(sk: Bytes)
    requires |sk| == LEG_BYTES
    ensures
      var r := Decode(FormatHex(Value(ApkBits(sk), 2)));
      r.Some? && |r.value| == LEG_BYTES && ByteDigits(r.value) == LegBytes(ApkBits(sk))
  {
    TruncatedBits(sk, 252);
    HexRoute(Truncated(sk, 252), 64);
  }
}

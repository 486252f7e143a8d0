/** The streaming SHA-1 of libselinux/src/sha1.c, proved to compute the hash
    that FIPS 180-4 defines for the concatenation of everything it was fed.

    The first part is the standard, written from sections 3 to 6 of FIPS 180-4;
    the second part is the implementation, with its 16-word circular schedule,
    its rewritten round functions and its 64-byte carry-over buffer. */
module Sha1 {
  import opened Arithmetic

  type Word = bv32
  type Byte = bv8

  /** The five chaining words, and also the five working variables. */
  datatype Chain = Chain(a: Word, b: Word, c: Word, d: Word, e: Word)

  const BLOCK_SIZE: nat := 64
  const TWO32: nat := 0x1_0000_0000
  const TWO64: nat := 0x1_0000_0000_0000_0000

  // ------------------------------------------------------------------
  // FIPS 180-4
  // ------------------------------------------------------------------

  /** Section 3.2: ROTL^n(x). */
  function Rol(x: Word, n: nat): Word
    requires 0 < n < 32
  {
    (x << n) | (x >> (32 - n))
  }

  /** Section 4.1.1: Ch, Parity, Maj, Parity in groups of twenty rounds. */
  function RoundFunction(t: nat, x: Word, y: Word, z: Word): Word {
    if t < 20 then (x & y) ^ (!x & z)
    else if 40 <= t < 60 then (x & y) ^ (x & z) ^ (y & z)
    else x ^ y ^ z
  }

  /** Section 4.2.1. */
  function RoundConstant(t: nat): Word {
    if t < 20 then 0x5A827999
    else if t < 40 then 0x6ED9EBA1
    else if t < 60 then 0x8F1BBCDC
    else 0xCA62C1D6
  }

  /** Section 3.1: a word is four bytes, most significant first. */
  function BigEndianWord(b0: Byte, b1: Byte, b2: Byte, b3: Byte): Word {
    (b3 as Word) | (b2 as Word << 8) | (b1 as Word << 16) | (b0 as Word << 24)
  }

  /** Section 6.1.2 step 1: the 80-word message schedule. */
  function Schedule(block: seq<Byte>, t: nat): Word
    requires |block| == BLOCK_SIZE
  {
    if t < 16 then BigEndianWord(block[4 * t], block[4 * t + 1], block[4 * t + 2], block[4 * t + 3])
    else Rol(Schedule(block, t - 3) ^ Schedule(block, t - 8) ^ Schedule(block, t - 14) ^ Schedule(block, t - 16), 1)
  }

  /** Section 6.1.2 step 3: one round. */
  function Round(v: Chain, t: nat, w: Word): Chain {
    Chain(RoundSum(Rol(v.a, 5), RoundFunction(t, v.b, v.c, v.d), v.e, RoundConstant(t), w), v.a, Rol(v.b, 30), v.c, v.d)
  }

  function RoundSum(r: Word, f: Word, e: Word, k: Word, w: Word): Word {
    r + f + e + k + w
  }

  /** The working variables after the first `n` rounds. */
  function Rounds(v: Chain, block: seq<Byte>, n: nat): Chain
    requires |block| == BLOCK_SIZE
  {
    if n == 0 then v else Round(Rounds(v, block, n - 1), n - 1, Schedule(block, n - 1))
  }

  function Sum(x: Word, y: Word): Word {
    x + y
  }

  function AddChains(x: Chain, y: Chain): Chain {
    Chain(Sum(x.a, y.a), Sum(x.b, y.b), Sum(x.c, y.c), Sum(x.d, y.d), Sum(x.e, y.e))
  }

  /** Section 6.1.2: one block. */
  function Compress(h: Chain, block: seq<Byte>): Chain
    requires |block| == BLOCK_SIZE
  {
    AddChains(h, Rounds(h, block, 80))
  }

  /** Section 6.1.2: all whole blocks of `s`, in order. */
  function Absorb(h: Chain, s: seq<Byte>): Chain
    decreases |s|
  {
    if |s| < BLOCK_SIZE then h else Absorb(Compress(h, s[..BLOCK_SIZE]), s[BLOCK_SIZE..])
  }

  /** Section 5.3.1. */
  const INITIAL: Chain := Chain(0x67452301, 0xEFCDAB89, 0x98BADCFE, 0x10325476, 0xC3D2E1F0)

  /** The `width`-byte big-endian representation of `n`. */
  function BigEndian(n: nat, width: nat): (s: seq<Byte>)
    ensures |s| == width
  {
    if width == 0 then [] else BigEndian(n / 256, width - 1) + [ByteOf(n)]
  }

  function ByteOf(n: nat): Byte {
    (n % 256) as Byte
  }

  /** How many zero bytes section 5.1.1 inserts after the 0x80 byte. */
  function PaddingZeros(length: nat): nat {
    (119 - length % 64) % 64
  }

  function Zeros(k: nat): (s: seq<Byte>)
    ensures |s| == k
    ensures forall i | 0 <= i < k :: s[i] == 0
  {
    seq(k, i => 0)
  }

  /** Section 5.1.1. */
  function Pad(m: seq<Byte>): seq<Byte> {
    m + [0x80] + Zeros(PaddingZeros(|m|)) + BigEndian(8 * |m|, 8)
  }

  function WordBytes(w: Word): (s: seq<Byte>)
    ensures |s| == 4
  {
    [((w >> 24) & 255) as Byte, ((w >> 16) & 255) as Byte, ((w >> 8) & 255) as Byte, (w & 255) as Byte]
  }

  function ChainBytes(h: Chain): (s: seq<Byte>)
    ensures |s| == 20
  {
    WordBytes(h.a) + WordBytes(h.b) + WordBytes(h.c) + WordBytes(h.d) + WordBytes(h.e)
  }

  /** The hash of a message of fewer than 2^64 bits. */
  function Hash(m: seq<Byte>): seq<Byte> {
    ChainBytes(Absorb(INITIAL, Pad(m)))
  }

  // ------------------------------------------------------------------
  // What the standard's definitions mean
  // ------------------------------------------------------------------

  /** A rotation by one brings the top bit in at the bottom and moves the other 31 bits up. */
  lemma RotationByOne(x: Word)
    ensures Rol(x, 1) & 1 == x >> 31 && Rol(x, 1) >> 1 == x & 0x7FFF_FFFF
  {
    hide Rol;
    RolIsShifts(x);
  }

  /** A rotation by five is five rotations by one, and one by thirty is undone by two. */
  lemma Rotations(x: Word)
    ensures Rol(x, 5) == Rol(Rol(Rol(Rol(Rol(x, 1), 1), 1), 1), 1)
    ensures Rol(Rol(Rol(x, 30), 1), 1) == x
  {
    hide Rol, Rotate1;
    var y := Rotate1(Rotate1(Rotate1(x)));
    RolIsShifts(x);
    RolIsShifts(Rotate1(x));
    RolIsShifts(Rotate1(Rotate1(x)));
    RolIsShifts(y);
    RolIsShifts(Rotate1(y));
    RolIsShifts(Rol(x, 30));
    RolIsShifts(Rotate1(Rol(x, 30)));
    FiveBits(x);
    ThirtyBits(x);
  }

  function Rotate1(x: Word): Word {
    (x << 1) | (x >> 31)
  }

  lemma RolIsShifts(x: Word)
    ensures Rol(x, 1) == Rotate1(x) && Rol(x, 5) == (x << 5) | (x >> 27) && Rol(x, 30) == (x << 30) | (x >> 2)
  {
  }

  lemma FiveBits(x: Word)
    ensures (x << 5) | (x >> 27) == Rotate1(Rotate1(Rotate1(Rotate1(Rotate1(x)))))
  {
  }

  lemma ThirtyBits(x: Word)
    ensures Rotate1(Rotate1((x << 30) | (x >> 2))) == x
  {
  }

  /** Where x has a bit the choice is y's, and elsewhere z's. */
  lemma ChoiceMeaning(t: nat, x: Word, y: Word, z: Word)
    requires t < 20
    ensures RoundFunction(t, x, y, z) & x == y & x && RoundFunction(t, x, y, z) & !x == z & !x
  {
    ChoiceBits(x, y, z);
  }

  /** Where x and y agree the majority is theirs, and elsewhere z's. */
  lemma MajorityMeaning(t: nat, x: Word, y: Word, z: Word)
    requires 40 <= t < 60
    ensures RoundFunction(t, x, y, z) & !(x ^ y) == x & !(x ^ y) && RoundFunction(t, x, y, z) & (x ^ y) == z & (x ^ y)
  {
    MajorityBits(x, y, z);
  }

  /** The remaining rounds take the parity: nothing of nothing, and complementing any one
      word complements the result. */
  lemma ParityMeaning(t: nat, x: Word, y: Word, z: Word)
    requires 20 <= t < 40 || 60 <= t
    ensures RoundFunction(t, 0, 0, 0) == 0
    ensures RoundFunction(t, !x, y, z) == !RoundFunction(t, x, y, z)
    ensures RoundFunction(t, x, !y, z) == !RoundFunction(t, x, y, z)
    ensures RoundFunction(t, x, y, !z) == !RoundFunction(t, x, y, z)
  {
    hide RoundFunction, Parity;
    ParityIs(t, 0, 0, 0);
    ParityIs(t, x, y, z);
    ParityIs(t, !x, y, z);
    ParityIs(t, x, !y, z);
    ParityIs(t, x, y, !z);
    ParityBits(x, y, z);
  }

  function Parity(x: Word, y: Word, z: Word): Word {
    x ^ y ^ z
  }

  lemma ParityIs(t: nat, x: Word, y: Word, z: Word)
    requires 20 <= t < 40 || 60 <= t
    ensures RoundFunction(t, x, y, z) == Parity(x, y, z)
  {
  }

  lemma ParityBits(x: Word, y: Word, z: Word)
    ensures Parity(0, 0, 0) == 0
    ensures Parity(!x, y, z) == !Parity(x, y, z)
    ensures Parity(x, !y, z) == !Parity(x, y, z)
    ensures Parity(x, y, !z) == !Parity(x, y, z)
  {
    hide Parity;
    ParityFirst(x, y, z);
    ParitySecond(x, y, z);
    ParityThird(x, y, z);
  }

  lemma ParityFirst(x: Word, y: Word, z: Word)
    ensures Parity(0, 0, 0) == 0 && Parity(!x, y, z) == !Parity(x, y, z)
  {
  }

  lemma ParitySecond(x: Word, y: Word, z: Word)
    ensures Parity(x, !y, z) == !Parity(x, y, z)
  {
  }

  lemma ParityThird(x: Word, y: Word, z: Word)
    ensures Parity(x, y, !z) == !Parity(x, y, z)
  {
  }

  lemma ChoiceBits(x: Word, y: Word, z: Word)
    ensures ((x & y) ^ (!x & z)) & x == y & x && ((x & y) ^ (!x & z)) & !x == z & !x
  {
  }

  lemma MajorityBits(x: Word, y: Word, z: Word)
    ensures ((x & y) ^ (x & z) ^ (y & z)) & !(x ^ y) == x & !(x ^ y)
    ensures ((x & y) ^ (x & z) ^ (y & z)) & (x ^ y) == z & (x ^ y)
  {
  }

  /** Counting up from the first summand. */
  lemma SumCounts(x: Word, y: Word)
    ensures Sum(x, 0) == x && Sum(x, y + 1) == Sum(x, y) + 1
  {
  }

  /** The round constants are the integer parts of 2^30 times the square roots of 2, 3,
      5 and 10. */
  lemma ConstantsAreRoots(t: nat)
    ensures var c, k := RoundConstant(t) as nat, if t < 20 then 2 else if t < 40 then 3 else if t < 60 then 5 else 10;
            c * c <= k * 0x1000_0000_0000_0000 < (c + 1) * (c + 1)
  {
  }

  /** The initial words, read least significant byte first, are the bytes 01 to ef in
      steps of 22, fe to 10 in the same steps down, and f0 to c3 in steps of 0f down. */
  lemma InitialBytes()
    ensures INITIAL.a == BigEndianWord(0x01 + 3 * 0x22, 0x01 + 2 * 0x22, 0x01 + 0x22, 0x01)
    ensures INITIAL.b == BigEndianWord(0x01 + 7 * 0x22, 0x01 + 6 * 0x22, 0x01 + 5 * 0x22, 0x01 + 4 * 0x22)
    ensures INITIAL.c == BigEndianWord(0xfe - 3 * 0x22, 0xfe - 2 * 0x22, 0xfe - 0x22, 0xfe)
    ensures INITIAL.d == BigEndianWord(0xfe - 7 * 0x22, 0xfe - 6 * 0x22, 0xfe - 5 * 0x22, 0xfe - 4 * 0x22)
    ensures INITIAL.e == BigEndianWord(0xf0 - 3 * 0x0f, 0xf0 - 2 * 0x0f, 0xf0 - 0x0f, 0xf0)
  {
  }

  /** The bytes of a word, read most significant first, are the word. */
  lemma WordBytesSpell(w: Word)
    ensures var s := WordBytes(w); BigEndianWord(s[0], s[1], s[2], s[3]) == w
  {
  }

  /** Twenty bytes that spell the five words, each most significant byte first. */
  ghost predicate Spells(s: seq<Byte>, h: Chain) {
    && |s| == 20
    && BigEndianWord(s[0], s[1], s[2], s[3]) == h.a && BigEndianWord(s[4], s[5], s[6], s[7]) == h.b
    && BigEndianWord(s[8], s[9], s[10], s[11]) == h.c && BigEndianWord(s[12], s[13], s[14], s[15]) == h.d
    && BigEndianWord(s[16], s[17], s[18], s[19]) == h.e
  }

  lemma ChainBytesSpell(h: Chain)
    ensures Spells(ChainBytes(h), h)
  {
    hide WordBytes, BigEndianWord;
    WordBytesSpell(h.a);
    WordBytesSpell(h.b);
    WordBytesSpell(h.c);
    WordBytesSpell(h.d);
    WordBytesSpell(h.e);
  }

  function Power256(k: nat): (p: nat)
    ensures p > 0
  {
    if k == 0 then 1 else 256 * Power256(k - 1)
  }

  /** Byte i of a number is its digit to the base 256, counted from the most
      significant. */
  lemma {:induction false} BigEndianDigits(n: nat, width: nat, i: nat)
    requires i < width
    ensures BigEndian(n, width)[i] == (n / Power256(width - 1 - i) % 256) as Byte
    decreases width
  {
    if i < width - 1 {
      var p := Power256(width - 2 - i);
      BigEndianDigits(n / 256, width - 1, i);
      DivTwice(n, 256, p);
      assert Power256(width - 1 - i) == 256 * p;
    }
  }

  /** The last eight bytes of a padded message are the digits of its length in bits. */
  lemma PadEndsInLength(m: seq<Byte>, i: nat)
    requires i < 8
    ensures |Pad(m)| >= 8 && Pad(m)[|Pad(m)| - 8 + i] == (8 * |m| / Power256(7 - i) % 256) as Byte
  {
    hide BigEndian, Power256, ByteOf, PaddingZeros;
    BigEndianDigits(8 * |m|, 8, i);
    assert Pad(m)[|Pad(m)| - 8..] == BigEndian(8 * |m|, 8);
    assert Pad(m)[|Pad(m)| - 8 + i] == Pad(m)[|Pad(m)| - 8..][i];
  }

  /** The padding is the one of section 5.1.1: it completes a block, and no
      smaller number of zero bytes would. */
  lemma PaddingIsMinimal(length: nat, zeros: nat)
    ensures CompletesBlock(length, PaddingZeros(length))
    ensures CompletesBlock(length, zeros) ==> PaddingZeros(length) <= zeros
  {
    hide PaddingZeros;
    var r, k := length % 64, PaddingZeros(length);
    var q := if r <= 55 then 0 else 1;
    PaddingZerosValue(length);
    ReduceModulo64(length, 9 + k);
    DivMod(r + (9 + k), 64, q + 1, 0);
    if zeros < k {
      ReduceModulo64(length, 9 + zeros);
      DivMod(r + (9 + zeros), 64, q, r + 9 + zeros - 64 * q);
    }
  }

  lemma PaddingZerosValue(length: nat)
    ensures PaddingZeros(length) == if length % 64 <= 55 then 55 - length % 64 else 119 - length % 64
  {
    var x := 119 - length % 64;
    DivMod(x, 64, if 64 <= x then 1 else 0, if 64 <= x then x - 64 else x);
  }

  lemma ReduceModulo64(n: nat, x: nat)
    ensures (n + x) % 64 == (n % 64 + x) % 64
  {
    var y := n % 64 + x;
    DivMod(n + x, 64, n / 64 + y / 64, y % 64);
  }

  ghost predicate CompletesBlock(length: nat, zeros: nat) {
    (length + 1 + zeros + 8) % 64 == 0
  }

  // ------------------------------------------------------------------
  // One block: the unrolled rounds and the circular schedule
  // ------------------------------------------------------------------

  /** The rewritten choice, parity and majority functions of the macros R0 to R4. */
  function MacroFunction(t: nat, w: Word, x: Word, y: Word): Word {
    if t < 20 then (w & (x ^ y)) ^ y
    else if 40 <= t < 60 then ((w | x) & y) | (w & x)
    else w ^ x ^ y
  }

  /** The rewritten functions are those of section 4.1.1. */
  lemma MacroFunctionIsRoundFunction(t: nat, w: Word, x: Word, y: Word)
    ensures MacroFunction(t, w, x, y) == RoundFunction(t, w, x, y)
  {
    ChoiceRewrite(w, x, y);
    MajorityRewrite(w, x, y);
  }

  lemma ChoiceRewrite(w: Word, x: Word, y: Word)
    ensures (w & (x ^ y)) ^ y == (w & x) ^ (!w & y)
  {
  }

  lemma MajorityRewrite(w: Word, x: Word, y: Word)
    ensures ((w | x) & y) | (w & x) == (w & x) ^ (w & y) ^ (x & y)
  {
  }

  /** A word of the block as a little-endian machine loads it. */
  function LoadedWord(b0: Byte, b1: Byte, b2: Byte, b3: Byte): Word {
    (b0 as Word) | (b1 as Word << 8) | (b2 as Word << 16) | (b3 as Word << 24)
  }

  function SwapWord(l: Word): Word {
    (Rol(l, 24) & 0xFF00FF00) | (Rol(l, 8) & 0x00FF00FF)
  }

  lemma SwapWordMakesBigEndian(b0: Byte, b1: Byte, b2: Byte, b3: Byte)
    ensures SwapWord(LoadedWord(b0, b1, b2, b3)) == BigEndianWord(b0, b1, b2, b3)
  {
    var l := LoadedWord(b0, b1, b2, b3);
    assert (((l << 24) | (l >> 8)) & 0xFF00FF00) | (((l << 8) | (l >> 24)) & 0x00FF00FF) == BigEndianWord(b0, b1, b2, b3) by {
      SwapBytes(b0 as Word, b1 as Word, b2 as Word, b3 as Word);
    }
  }

  lemma SwapBytes(b0: Word, b1: Word, b2: Word, b3: Word)
    requires b0 < 256 && b1 < 256 && b2 < 256 && b3 < 256
    ensures var l := b0 | (b1 << 8) | (b2 << 16) | (b3 << 24);
            (((l << 24) | (l >> 8)) & 0xFF00FF00) | (((l << 8) | (l >> 24)) & 0x00FF00FF)
            == b3 | (b2 << 8) | (b1 << 16) | (b0 << 24)
  {
  }

  /** What the 16-word workspace holds before round `t`: the last sixteen
      schedule words already produced, and loaded words not yet reached. */
  ghost predicate WorkspaceAt(l: seq<Word>, block: seq<Byte>, t: nat)
    requires |block| == BLOCK_SIZE
  {
    && |l| == 16
    && (forall u | 0 <= u < t && t <= u + 16 :: l[u % 16] == Schedule(block, u))
    && (forall u | t <= u < 16 :: l[u] == LoadedWord(block[4 * u], block[4 * u + 1], block[4 * u + 2], block[4 * u + 3]))
  }

  /** `blk0` and `blk`: produce schedule word `i` in place. */
  method NextScheduleWord(l: array<Word>, i: nat, ghost block: seq<Byte>) returns (w: Word)
    requires |block| == BLOCK_SIZE && l.Length == 16 && i < 80
    requires WorkspaceAt(l[..], block, i)
    modifies l
    ensures w == Schedule(block, i)
    ensures WorkspaceAt(l[..], block, i + 1)
  {
    hide Rol, SwapWord, LoadedWord, BigEndianWord;
    ghost var before := l[..];
    if i < 16 {
      SwapWordMakesBigEndian(block[4 * i], block[4 * i + 1], block[4 * i + 2], block[4 * i + 3]);
      l[i] := SwapWord(l[i]);
      w := l[i];
    } else {
      ReadWorkspace(before, block, i);
      l[i % 16] := Rol(l[(i + 13) % 16] ^ l[(i + 8) % 16] ^ l[(i + 2) % 16] ^ l[i % 16], 1);
      w := l[i % 16];
    }
    assert l[..] == before[i % 16 := w];
    AdvanceWorkspace(before, block, i);
  }

  /** The four circular reads are the words at distance 3, 8, 14 and 16. */
  lemma ReadWorkspace(l: seq<Word>, block: seq<Byte>, i: nat)
    requires |block| == BLOCK_SIZE && 16 <= i < 80 && WorkspaceAt(l, block, i)
    ensures Rol(l[(i + 13) % 16] ^ l[(i + 8) % 16] ^ l[(i + 2) % 16] ^ l[i % 16], 1) == Schedule(block, i)
  {
    hide Rol;
    Back16(i - 3);
    Back16(i - 8);
    Back16(i - 14);
    Back16(i - 16);
  }

  lemma Back16(u: nat)
    ensures (u + 16) % 16 == u % 16
  {
  }

  lemma DistinctSlots(u: nat, i: nat)
    requires u < i < u + 16
    ensures u % 16 != i % 16
  {
    var k := i / 16 - u / 16;
    assert i - u == 16 * k + (i % 16 - u % 16);
  }

  lemma AdvanceWorkspace(l: seq<Word>, block: seq<Byte>, i: nat)
    requires |block| == BLOCK_SIZE && i < 80 && WorkspaceAt(l, block, i)
    ensures WorkspaceAt(l[i % 16 := Schedule(block, i)], block, i + 1)
  {
    hide LoadedWord, Schedule;
    forall u | 0 <= u < i && i < u + 16
      ensures u % 16 != i % 16
    {
      DistinctSlots(u, i);
    }
  }

  /** The right-hand side of a macro: what is added to `z`, in the source's order. */
  function MacroSum(z: Word, f: Word, s: Word, k: Word, r: Word): Word {
    z + (f + s + k + r)
  }

  lemma MacroRoundIsRound(v: Chain, i: nat, s: Word)
    ensures Chain(MacroSum(v.e, MacroFunction(i, v.b, v.c, v.d), s, RoundConstant(i), Rol(v.a, 5)), v.a, Rol(v.b, 30), v.c, v.d)
            == Round(v, i, s)
  {
    hide Rol, MacroFunction, RoundFunction, RoundConstant, MacroSum, RoundSum;
    MacroFunctionIsRoundFunction(i, v.b, v.c, v.d);
    SumOrder(v.e, RoundFunction(i, v.b, v.c, v.d), s, RoundConstant(i), Rol(v.a, 5));
  }

  lemma SumOrder(z: Word, f: Word, s: Word, k: Word, r: Word)
    ensures MacroSum(z, f, s, k, r) == RoundSum(r, f, z, k, s)
  {
  }

  /** One macro call R(v, w, x, y, z, i): the new values of `z` and `w`. */
  method MacroRound(v: Word, w: Word, x: Word, y: Word, z: Word, i: nat, l: array<Word>, ghost h: Chain, ghost block: seq<Byte>)
    returns (z': Word, w': Word)
    requires |block| == BLOCK_SIZE && l.Length == 16 && i < 80
    requires WorkspaceAt(l[..], block, i)
    requires Chain(v, w, x, y, z) == Rounds(h, block, i)
    modifies l
    ensures WorkspaceAt(l[..], block, i + 1)
    ensures Chain(z', v, w', x, y) == Rounds(h, block, i + 1)
  {
    hide Rol, MacroFunction, RoundConstant, MacroSum, Round, Schedule, WorkspaceAt;
    var s := NextScheduleWord(l, i, block);
    MacroRoundIsRound(Chain(v, w, x, y, z), i, s);
    z' := MacroSum(z, MacroFunction(i, w, x, y), s, RoundConstant(i), Rol(v, 5));
    w' := Rol(w, 30);
  }

  lemma NoRounds(h: Chain, block: seq<Byte>)
    requires |block| == BLOCK_SIZE
    ensures Rounds(h, block, 0) == h
  {
  }

  /** Copy the block into the workspace and view it as words. */
  method LoadBlock(buffer: seq<Byte>) returns (l: array<Word>)
    requires |buffer| == BLOCK_SIZE
    ensures fresh(l) && l.Length == 16 && WorkspaceAt(l[..], buffer, 0)
  {
    hide LoadedWord, Schedule;
    l := new Word[16](k requires 0 <= k < 16 => LoadedWord(buffer[4 * k], buffer[4 * k + 1], buffer[4 * k + 2], buffer[4 * k + 3]));
  }

  lemma ChainsAdded(h: Chain, a: Word, b: Word, c: Word, d: Word, e: Word)
    ensures Chain(Sum(h.a, a), Sum(h.b, b), Sum(h.c, c), Sum(h.d, d), Sum(h.e, e)) == AddChains(h, Chain(a, b, c, d, e))
  {
    hide Sum;
  }

  /** Hash one 64-byte block into the state. */
  method Transform(state: Chain, buffer: seq<Byte>) returns (next: Chain)
    requires |buffer| == BLOCK_SIZE
    ensures next == Compress(state, buffer)
  {
    hide LoadedWord, WorkspaceAt, Rounds, AddChains, Sum;
    var l := LoadBlock(buffer);
    var a, b, c, d, e := state.a, state.b, state.c, state.d, state.e;
    NoRounds(state, buffer);
    var i := 0;
    while i < 80
      invariant 0 <= i <= 80 && i % 5 == 0
      invariant WorkspaceAt(l[..], buffer, i)
      invariant Chain(a, b, c, d, e) == Rounds(state, buffer, i)
      decreases 80 - i
    {
      // Five macro calls bring the roles of the five variables back in place.
      e, b := MacroRound(a, b, c, d, e, i, l, state, buffer);
      d, a := MacroRound(e, a, b, c, d, i + 1, l, state, buffer);
      c, e := MacroRound(d, e, a, b, c, i + 2, l, state, buffer);
      b, d := MacroRound(c, d, e, a, b, i + 3, l, state, buffer);
      a, c := MacroRound(b, c, d, e, a, i + 4, l, state, buffer);
      i := i + 5;
    }
    ChainsAdded(state, a, b, c, d, e);
    next := Chain(Sum(state.a, a), Sum(state.b, b), Sum(state.c, c), Sum(state.d, d), Sum(state.e, e));
  }

  // ------------------------------------------------------------------
  // Streaming
  // ------------------------------------------------------------------

  function WholeBlocks(n: nat): (k: nat)
    ensures k <= n && k % 64 == 0 && n - k == n % 64
  {
    n / 64 * 64
  }

  /** Absorbing in two goes is absorbing once, when the first ends on a block. */
  lemma {:induction false} AbsorbAppend(h: Chain, s: seq<Byte>, t: seq<Byte>)
    requires |s| % BLOCK_SIZE == 0
    ensures Absorb(h, s + t) == Absorb(Absorb(h, s), t)
    decreases |s|
  {
    if |s| == 0 {
      assert s + t == t;
    } else {
      assert (s + t)[..BLOCK_SIZE] == s[..BLOCK_SIZE];
      assert (s + t)[BLOCK_SIZE..] == s[BLOCK_SIZE..] + t;
      AbsorbAppend(Compress(h, s[..BLOCK_SIZE]), s[BLOCK_SIZE..], t);
    }
  }

  lemma AbsorbOneMore(h: Chain, s: seq<Byte>, block: seq<Byte>)
    requires |s| % BLOCK_SIZE == 0 && |block| == BLOCK_SIZE
    ensures Absorb(h, s + block) == Compress(Absorb(h, s), block)
  {
    AbsorbAppend(h, s, block);
    assert block[..BLOCK_SIZE] == block;
    var g := Compress(Absorb(h, s), block);
    assert Absorb(g, block[BLOCK_SIZE..]) == g;
  }

  /** The bits of a byte count: what `BufferSize << 3` loses is what `BufferSize >> 29` keeps. */
  lemma SplitBits(k: nat)
    requires k < TWO32
    ensures 8 * k == k / 0x2000_0000 * TWO32 + k * 8 % TWO32
  {
  }

  /** The two 32-bit counters hold the number of bits in `n` bytes, modulo 2^64. */
  ghost predicate Counts(n: nat, c0: nat, c1: nat) {
    c0 < TWO32 && c1 < TWO32 && c1 * TWO32 + c0 == (8 * n) % TWO64
  }

  /** The counters add with carry. */
  lemma AddToCounters(n: nat, k: nat, c0: nat, c1: nat)
    requires k < TWO32 && Counts(n, c0, c1)
    ensures var low := k * 8 % TWO32;
            var c0' := (c0 + low) % TWO32;
            var c1' := if c0' < low then (c1 + 1) % TWO32 else c1;
            Counts(n + k, c0', (c1' + k / 0x2000_0000) % TWO32)
  {
    SplitBits(k);
    var low, high := k * 8 % TWO32, k / 0x2000_0000;
    var c0' := (c0 + low) % TWO32;
    var carry := Carry(c0, low);
    AddModulo(8 * n, 8 * k);
    HighModulo(c1 + carry + high, c0');
    AddModulo32(c1 + carry, high);
  }

  lemma Carry(c0: nat, low: nat) returns (carry: nat)
    requires c0 < TWO32 && low < TWO32
    ensures carry == if (c0 + low) % TWO32 < low then 1 else 0
    ensures c0 + low == carry * TWO32 + (c0 + low) % TWO32
  {
    carry := if c0 + low < TWO32 then 0 else 1;
  }

  lemma AddModulo32(x: nat, y: nat)
    ensures (x % TWO32 + y) % TWO32 == (x + y) % TWO32
  {
  }

  lemma AddModulo(x: nat, y: nat)
    ensures (x % TWO64 + y) % TWO64 == (x + y) % TWO64
  {
  }

  lemma HighModulo(high: nat, low: nat)
    requires low < TWO32
    ensures (high * TWO32 + low) % TWO64 == high % TWO32 * TWO32 + low
  {
  }

  /** `(Count[0] >> 3) & 63` is the number of bytes waiting in the buffer. */
  lemma BufferedBytes(n: nat, c0: nat, c1: nat)
    requires Counts(n, c0, c1)
    ensures c0 / 8 % 64 == n % 64
  {
    var q := 8 * n / TWO64;
    var t := q * 0x80_0000_0000_0000 + c1 * 0x80_0000;
    assert 8 * n == q * TWO64 + c1 * TWO32 + c0;
    assert c0 == 8 * (n - 64 * t);
    DivMod(c0, 8, n - 64 * t, 0);
    DivMod(n, 64, (n - 64 * t) / 64 + t, (n - 64 * t) % 64);
  }

  /** Whole blocks of `m` are absorbed and the rest of it waits in the buffer. */
  ghost predicate Holds(state: Chain, buffer: seq<Byte>, m: seq<Byte>) {
    var k := WholeBlocks(|m|);
    && |buffer| == BLOCK_SIZE
    && state == Absorb(INITIAL, m[..k])
    && buffer[..|m| - k] == m[k..]
  }

  /** Filling the buffer completes a block. */
  lemma CompleteBlock(state: Chain, before: seq<Byte>, m: seq<Byte>, data: seq<Byte>, after: seq<Byte>)
    requires Holds(state, before, m) && |m| % 64 + |data| == BLOCK_SIZE
    requires after == before[..|m| % 64] + data
    ensures |m + data| % 64 == 0
    ensures Compress(state, after) == Absorb(INITIAL, m + data)
  {
    hide Absorb, Compress;
    var k := WholeBlocks(|m|);
    AbsorbOneMore(INITIAL, m[..k], after);
    assert m[..k] + after == m + data;
  }

  /** Leftover bytes after the last whole block start a new buffer. */
  lemma StartBuffer(state: Chain, buffer: seq<Byte>, done: seq<Byte>, data: seq<Byte>)
    requires |done| % 64 == 0 && |data| < BLOCK_SIZE && |buffer| == BLOCK_SIZE
    requires state == Absorb(INITIAL, done) && buffer[..|data|] == data
    ensures Holds(state, buffer, done + data)
  {
    hide Absorb;
    assert WholeBlocks(|done + data|) == |done|;
    assert (done + data)[..|done|] == done && (done + data)[|done|..] == data;
  }

  lemma RestartBuffer(state: Chain, buffer: seq<Byte>, m: seq<Byte>, data: seq<Byte>, i: nat)
    requires i <= |data| < i + BLOCK_SIZE && |buffer| == BLOCK_SIZE && (|m| + i) % 64 == 0
    requires state == Absorb(INITIAL, m + data[..i]) && buffer[..|data| - i] == data[i..]
    ensures Holds(state, buffer, m + data)
  {
    hide Absorb, Holds;
    StartBuffer(state, buffer, m + data[..i], data[i..]);
    assert m + data[..i] + data[i..] == m + data;
  }

  /** Bytes that do not complete a block extend the buffer. */
  lemma ExtendBuffer(state: Chain, before: seq<Byte>, m: seq<Byte>, data: seq<Byte>, after: seq<Byte>)
    requires Holds(state, before, m) && |m| % 64 + |data| < BLOCK_SIZE && |after| == BLOCK_SIZE
    requires after[..|m| % 64 + |data|] == before[..|m| % 64] + data
    ensures Holds(state, after, m + data)
  {
    hide Absorb;
    var k := WholeBlocks(|m|);
    StartBuffer(state, after, m[..k], m[k..] + data);
    assert m[..k] + (m[k..] + data) == m + data;
  }

  /** The loop test `i + 63 < BufferSize` does not wrap. */
  lemma NoWrap(n: nat, i: nat, size: nat)
    requires n % 64 + size < TWO32 && (n + i) % 64 == 0 && i <= size
    ensures (i + 63) % TWO32 == i + 63
    ensures i + 63 < size ==> (n + (i + 64)) % 64 == 0
  {
    assert (n % 64 + i) % 64 == 0;
  }

  /** What `Update` asks for is what the source needs: with j bytes buffered, data that
      takes the short branch fits into the 64-byte buffer for all sizes but those
      whose 32-bit sum with j wraps. */
  lemma UpdateDemand(j: nat, size: nat)
    requires j < BLOCK_SIZE && size < TWO32
    ensures ((j + size) % TWO32 <= 63 ==> j + size <= BLOCK_SIZE) <==> j + size < TWO32
  {
    if j + size >= TWO32 {
      assert (j + size) % TWO32 == j + size - TWO32;
    }
  }

  /** The padding loop stops exactly when section 5.1.1 says. */
  lemma PaddingStops(length: nat, k: nat)
    requires k <= PaddingZeros(length)
    ensures (length + 1 + k) % 64 == 56 <==> k == PaddingZeros(length)
    ensures k == PaddingZeros(length) ==> (length + 1 + k + 8) % 64 == 0
  {
  }

  lemma NothingLeft(state: Chain, buffer: seq<Byte>, m: seq<Byte>)
    requires Holds(state, buffer, m) && |m| % 64 == 0
    ensures state == Absorb(INITIAL, m)
  {
    assert m[..|m|] == m;
  }

  class Context {
    var state: Chain
    var count0: nat
    var count1: nat
    const buffer: array<Byte>
    ghost var message: seq<Byte>

    /** The context represents `message`: whole blocks are absorbed, the rest
        waits in the buffer, and the two counters hold the bit length. */
    ghost predicate Valid()
      reads this, buffer
    {
      && buffer.Length == BLOCK_SIZE
      && Counts(|message|, count0, count1)
      && Holds(state, buffer[..], message)
    }

    constructor ()
      ensures Valid() && message == [] && fresh(buffer)
    {
      buffer := new Byte[BLOCK_SIZE];
      state := INITIAL;
      count0, count1 := 0, 0;
      message := [];
    }

    /** Start over on the same buffer. */
    method Initialise()
      requires buffer.Length == BLOCK_SIZE
      modifies this
      ensures Valid() && message == []
    {
      state := INITIAL;
      count0, count1 := 0, 0;
      message := [];
    }

    /** `memcpy(&Buffer[at], data, |data|)`. */
    method CopyIn(at: nat, data: seq<Byte>)
      requires at + |data| <= buffer.Length
      modifies buffer
      ensures buffer[..] == old(buffer[..at]) + data + old(buffer[at + |data|..])
    {
      forall k | 0 <= k < |data| {
        buffer[at + k] := data[k];
      }
    }

    /** Count `size` more bytes: a 64-bit add with carry on two 32-bit words. */
    method AddCount(size: nat, ghost n: nat)
      requires size < TWO32 && Counts(n, count0, count1)
      modifies this`count0, this`count1
      ensures Counts(n + size, count0, count1)
    {
      AddToCounters(n, size, count0, count1);
      count0 := (count0 + size * 8 % TWO32) % TWO32;
      if count0 < size * 8 % TWO32 {
        count1 := (count1 + 1) % TWO32;
      }
      count1 := (count1 + size / 0x2000_0000) % TWO32;
    }

    /** Complete the buffered block and hash it. */
    method FillBlock(j: nat, data: seq<Byte>)
      requires Holds(state, buffer[..], message)
      requires j == |message| % 64 && j + |data| == BLOCK_SIZE
      modifies this`state, buffer
      ensures state == Absorb(INITIAL, message + data) && |message + data| % 64 == 0
    {
      hide Absorb, Compress;
      ghost var before := buffer[..];
      CopyIn(j, data);
      assert buffer[..] == before[..j] + data;
      CompleteBlock(state, before, message, data, buffer[..]);
      state := Transform(state, buffer[..]);
    }

    /** Hash whole blocks of `data` straight from the caller's memory. */
    method AbsorbBlocks(data: seq<Byte>, start: nat) returns (i: nat)
      requires |message| % 64 + |data| < TWO32
      requires start <= |data| && (|message| + start) % 64 == 0
      requires state == Absorb(INITIAL, message + data[..start])
      modifies this`state
      ensures start <= i <= |data| < i + 64 && (|message| + i) % 64 == 0
      ensures state == Absorb(INITIAL, message + data[..i])
    {
      hide Absorb, Compress;
      i := start;
      NoWrap(|message|, i, |data|);
      while (i + 63) % TWO32 < |data|
        invariant start <= i <= |data| && (|message| + i) % 64 == 0
        invariant (i + 63) % TWO32 == i + 63
        invariant state == Absorb(INITIAL, message + data[..i])
        decreases |data| - i
      {
        AbsorbOneMore(INITIAL, message + data[..i], data[i..i + 64]);
        assert message + data[..i] + data[i..i + 64] == message + data[..i + 64];
        state := Transform(state, data[i..i + 64]);
        NoWrap(|message|, i, |data|);
        i := i + 64;
        NoWrap(|message|, i, |data|);
      }
    }

    /** The long branch: the data reaches the end of the buffered block. */
    method FeedBlocks(j: nat, data: seq<Byte>)
      requires buffer.Length == BLOCK_SIZE && Holds(state, buffer[..], message)
      requires j == |message| % 64 && BLOCK_SIZE <= j + |data| < TWO32
      modifies this`state, buffer
      ensures Holds(state, buffer[..], message + data)
    {
      hide Holds, Absorb, Compress;
      FillBlock(j, data[..64 - j]);
      var i := AbsorbBlocks(data, 64 - j);
      CopyIn(0, data[i..]);
      RestartBuffer(state, buffer[..], message, data, i);
    }

    /** Add `data` to the message. The 32-bit sum of the bytes already buffered
        and the new size must not wrap: when it does, the source takes the short
        branch and copies past the end of its 64-byte buffer. */
    method Update(data: seq<Byte>)
      requires Valid()
      requires |message| % 64 + |data| < TWO32
      modifies this, buffer
      ensures Valid()
      ensures message == old(message) + data
    {
      hide Holds, Absorb, Compress, Counts;
      var j := count0 / 8 % 64;
      BufferedBytes(|message|, count0, count1);
      AddCount(|data|, |message|);
      ghost var before := buffer[..];
      if (j + |data|) % TWO32 > 63 {
        FeedBlocks(j, data);
      } else {
        CopyIn(j, data);
        ExtendBuffer(state, before, message, data, buffer[..]);
      }
      message := message + data;
    }

    /** Pad and produce the digest: the FIPS 180-4 hash of the message. */
    method Finalise() returns (digest: seq<Byte>)
      requires Valid()
      requires 8 * |message| < TWO64
      modifies this, buffer
      ensures digest == Hash(old(message)) && Spells(digest, Absorb(INITIAL, Pad(old(message))))
    {
      hide Absorb, WordBytes, BigEndian, CounterBytes, Holds, PaddingZeros, Counts;
      ghost var m := message;
      var finalcount := CounterBytes(count1) + CounterBytes(count0);
      CounterBytesAreLength(|m|, count0, count1);
      Update([0x80]);
      ghost var k := 0;
      BufferedBytes(|message|, count0, count1);
      PaddingStops(|m|, k);
      while count0 / 8 % 64 != 56
        invariant Valid() && k <= PaddingZeros(|m|)
        invariant message == m + [0x80] + Zeros(k)
        invariant count0 / 8 % 64 == |message| % 64
        invariant (|m| + 1 + k) % 64 == 56 <==> k == PaddingZeros(|m|)
        decreases PaddingZeros(|m|) - k
      {
        Update([0]);
        assert Zeros(k) + [0] == Zeros(k + 1);
        k := k + 1;
        BufferedBytes(|message|, count0, count1);
        PaddingStops(|m|, k);
      }
      PaddingStops(|m|, k);
      Update(finalcount);
      assert message == Pad(m);
      NothingLeft(state, buffer[..], message);
      digest := ChainBytes(state);
      ChainBytesSpell(state);
    }
  }

  /** The low four bytes of a counter, most significant first. */
  function CounterBytes(c: nat): (s: seq<Byte>)
    ensures |s| == 4
  {
    [ByteOf(c / 0x100_0000), ByteOf(c / 0x1_0000), ByteOf(c / 256), ByteOf(c)]
  }

  /** The two counters, high word first, spell out the 64-bit length. */
  lemma CounterBytesAreLength(n: nat, c0: nat, c1: nat)
    requires 8 * n < TWO64 && Counts(n, c0, c1)
    ensures CounterBytes(c1) + CounterBytes(c0) == BigEndian(8 * n, 8)
  {
    hide ByteOf, BigEndian, CounterBytes;
    BigEndianWordBytes(8 * n, 4);
    BigEndianWordBytes(c1, 0);
    LowBytes(8 * n, c0, c1);
    assert BigEndian(c1 / TWO32, 0) == [];
  }

  lemma LowBytes(n: nat, c0: nat, c1: nat)
    requires c0 < TWO32 && n == c1 * TWO32 + c0
    ensures CounterBytes(n) == CounterBytes(c0) && n / TWO32 == c1
  {
    hide ByteOf;
    DivMod(n, TWO32, c1, c0);
    DivMod(n, 256, 256 * (c1 * 0x1_0000) + c0 / 256, c0 % 256);
    DivMod(n, 0x1_0000, 256 * (c1 * 256) + c0 / 0x1_0000, c0 % 0x1_0000);
    DivMod(n, 0x100_0000, 256 * c1 + c0 / 0x100_0000, c0 % 0x100_0000);
    LowByte(c1 * 0x100_0000, c0);
    LowByte(c1 * 0x1_0000, c0 / 256);
    LowByte(c1 * 256, c0 / 0x1_0000);
    LowByte(c1, c0 / 0x100_0000);
  }

  lemma LowByte(h: nat, x: nat)
    ensures ByteOf(256 * h + x) == ByteOf(x)
  {
    DivMod(256 * h + x, 256, h + x / 256, x % 256);
  }

  lemma BigEndianWordBytes(n: nat, width: nat)
    ensures BigEndian(n, width + 4) == BigEndian(n / TWO32, width) + CounterBytes(n)
  {
    hide ByteOf;
    assert BigEndian(n, width + 4) == BigEndian(n / 256, width + 3) + [ByteOf(n)];
    assert BigEndian(n / 256, width + 3) == BigEndian(n / 256 / 256, width + 2) + [ByteOf(n / 256)];
    assert BigEndian(n / 256 / 256, width + 2) == BigEndian(n / 256 / 256 / 256, width + 1) + [ByteOf(n / 256 / 256)];
    assert n / 256 / 256 == n / 0x1_0000 && n / 256 / 256 / 256 == n / 0x100_0000;
  }

  /** A whole use of the interface: initialise, one update per chunk, finalise. Each
      update gets what it asks for; a chunk of at most 2^32 - 64 bytes always does. */
  method HashChunks(chunks: seq<seq<Byte>>) returns (digest: seq<Byte>)
    requires forall i | 0 <= i < |chunks| :: |Concat(chunks[..i])| % 64 + |chunks[i]| < TWO32
    requires 8 * |Concat(chunks)| < TWO64
    ensures digest == Hash(Concat(chunks)) && Spells(digest, Absorb(INITIAL, Pad(Concat(chunks))))
  {
    var context := new Context();
    for n := 0 to |chunks|
      invariant context.Valid() && fresh(context) && fresh(context.buffer)
      invariant context.message == Concat(chunks[..n])
    {
      context.Update(chunks[n]);
      assert chunks[..n + 1][..n] == chunks[..n];
    }
    assert chunks[..|chunks|] == chunks;
    digest := context.Finalise();
  }

  function Concat(chunks: seq<seq<Byte>>): seq<Byte> {
    if chunks == [] then [] else Concat(chunks[..|chunks| - 1]) + chunks[|chunks| - 1]
  }
}

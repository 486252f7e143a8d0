/** Extended-permission bitmaps: 256 bits in eight 32-bit words, set a word at a
    time by mask arithmetic (checkpolicy/policy_define.c and the xperm macros of
    libsepol). Masks are proved to mean the bit ranges they stand for. */
module XpermBits {
  import opened Arithmetic

  type Word = bv32
  type Bitmap = seq<Word>

  const WORDS: nat := 8
  const BITS: nat := 256

  predicate WordBit(w: Word, b: nat)
    requires b < 32
  {
    BitAt(w, Place(b))
  }

  predicate BitAt(w: Word, s: bv6)
    requires s < 32
  {
    (w >> s) & 1 == 1
  }

  /** A bit number as the width of shift that a 32-bit word takes. */
  function Place(b: nat): (s: bv6)
    requires b < 32
    ensures s < 32
  {
    b as bv6
  }

  predicate Bit(p: Bitmap, x: nat)
    requires |p| == WORDS
  {
    x < BITS && WordBit(p[x / 32], x % 32)
  }

  // ------------------------------------------------------------------
  // Bits of a word
  // ------------------------------------------------------------------

  /** Bits 0 to x-1 of a word, with x taken modulo 32. */
  function SetBits(x: nat): Word {
    LowMask(Place(x % 32))
  }

  /** The bits of a word from x upwards: all ones less `SetBits(x)`. */
  function BitsFrom(x: nat): Word {
    HighMask(Place(x % 32))
  }

  /** `SetBits(h) - SetBits(low)`. */
  function BitsBetween(low: nat, h: nat): Word {
    MiddleMask(Place(low % 32), Place(h % 32))
  }

  lemma SetBitsWord(x: nat, b: nat)
    requires b < 32
    ensures WordBit(SetBits(x), b) <==> b < x % 32
  {
    hide Place, LowMask, BitAt;
    LowMaskAt(Place(x % 32), Place(b));
    PlaceOrder(b, x % 32);
  }

  lemma BitsFromWord(x: nat, b: nat)
    requires b < 32
    ensures WordBit(BitsFrom(x), b) <==> x % 32 <= b
  {
    hide Place, HighMask, BitAt;
    HighMaskAt(Place(x % 32), Place(b));
    PlaceOrder(b, x % 32);
  }

  lemma BitsBetweenWord(low: nat, h: nat, b: nat)
    requires b < 32 && low % 32 <= h % 32
    ensures WordBit(BitsBetween(low, h), b) <==> low % 32 <= b < h % 32
  {
    hide Place, MiddleMask, BitAt;
    PlaceOrder(h % 32, low % 32);
    MiddleMaskAt(Place(low % 32), Place(h % 32), Place(b));
    PlaceOrder(b, low % 32);
    PlaceOrder(b, h % 32);
  }

  function HighMask(s: bv6): Word
    requires s < 32
  {
    0xffff_ffff - LowMask(s)
  }

  function MiddleMask(l: bv6, n: bv6): Word
    requires l < 32 && n < 32
  {
    LowMask(n) - LowMask(l)
  }

  function LowMask(s: bv6): Word
    requires s < 32
  {
    ((1 as Word) << s) - 1
  }

  function OneAt(s: bv6): Word
    requires s < 32
  {
    (1 as Word) << s
  }

  lemma PlaceOrder(m: nat, n: nat)
    requires m < 32 && n < 32
    ensures Place(m) < Place(n) <==> m < n
  {
    ConversionOrder(m, n);
  }

  lemma ConversionOrder(m: nat, n: nat)
    requires m < 32 && n < 32
    ensures (m as bv6) < (n as bv6) <==> m < n
  {
  }

  lemma PlaceEqual(m: nat, n: nat)
    requires m < 32 && n < 32
    ensures Place(m) == Place(n) <==> m == n
  {
    hide Place;
    PlaceOrder(m, n);
    PlaceOrder(n, m);
  }

  lemma LowMaskAt(n: bv6, s: bv6)
    requires n < 32 && s < 32
    ensures BitAt(LowMask(n), s) <==> s < n
  {
    assert (((((1 as Word) << n) - 1) >> s) & 1 == 1) == (s < n);
  }

  lemma HighMaskAt(l: bv6, s: bv6)
    requires l < 32 && s < 32
    ensures BitAt(HighMask(l), s) <==> l <= s
  {
    assert (((0xffff_ffff - (((1 as Word) << l) - 1)) >> s) & 1 == 1) == (l <= s);
  }

  lemma MiddleMaskAt(l: bv6, n: bv6, s: bv6)
    requires l <= n < 32 && s < 32
    ensures BitAt(MiddleMask(l, n), s) <==> l <= s < n
  {
    hide BitAt, LowMask, MiddleMask, AndNot;
    MaskDifference(l, n);
    AndNotAt(LowMask(n), LowMask(l), s);
    LowMaskAt(l, s);
    LowMaskAt(n, s);
  }

  lemma MaskDifference(l: bv6, n: bv6)
    requires l <= n < 32
    ensures MiddleMask(l, n) == AndNot(LowMask(n), LowMask(l))
  {
    assert (((1 as Word) << n) - 1) - (((1 as Word) << l) - 1) == (((1 as Word) << n) - 1) & !(((1 as Word) << l) - 1);
  }

  lemma OneBitAt(n: bv6, s: bv6)
    requires n < 32 && s < 32
    ensures BitAt(OneAt(n), s) <==> s == n
  {
    assert ((((1 as Word) << n) >> s) & 1 == 1) == (s == n);
  }

  lemma OrAt(v: Word, w: Word, s: bv6)
    requires s < 32
    ensures BitAt(Or(v, w), s) <==> BitAt(v, s) || BitAt(w, s)
  {
    assert (((v | w) >> s) & 1 == 1) == ((v >> s) & 1 == 1 || (w >> s) & 1 == 1);
  }

  lemma AndNotAt(v: Word, w: Word, s: bv6)
    requires s < 32
    ensures BitAt(AndNot(v, w), s) <==> BitAt(v, s) && !BitAt(w, s)
  {
    hide BitAt, And, Not;
    AndAt(v, Not(w), s);
    NotAt(w, s);
  }

  lemma AndAt(v: Word, w: Word, s: bv6)
    requires s < 32
    ensures BitAt(And(v, w), s) <==> BitAt(v, s) && BitAt(w, s)
  {
    assert (((v & w) >> s) & 1 == 1) == ((v >> s) & 1 == 1 && (w >> s) & 1 == 1);
  }

  lemma NotAt(w: Word, s: bv6)
    requires s < 32
    ensures BitAt(Not(w), s) <==> !BitAt(w, s)
  {
    assert (((!w) >> s) & 1 == 1) == ((w >> s) & 1 != 1);
  }

  function Or(v: Word, w: Word): Word {
    v | w
  }

  function And(v: Word, w: Word): Word {
    v & w
  }

  function Not(w: Word): Word {
    !w
  }

  function AndNot(v: Word, w: Word): Word {
    And(v, Not(w))
  }

  lemma OrWord(v: Word, w: Word, b: nat)
    requires b < 32
    ensures WordBit(Or(v, w), b) <==> WordBit(v, b) || WordBit(w, b)
  {
    hide Place, BitAt, Or;
    OrAt(v, w, Place(b));
  }

  lemma SetWord(w: Word, n: nat, b: nat)
    requires n < 32 && b < 32
    ensures WordBit(Or(w, OneAt(Place(n))), b) <==> WordBit(w, b) || b == n
  {
    hide Place, BitAt, OneAt, Or, AndNot;
    PlaceEqual(n, b);
    OneBitAt(Place(n), Place(b));
    OrAt(w, OneAt(Place(n)), Place(b));
  }

  lemma ClearWord(w: Word, n: nat, b: nat)
    requires n < 32 && b < 32
    ensures WordBit(AndNot(w, OneAt(Place(n))), b) <==> WordBit(w, b) && b != n
  {
    hide Place, BitAt, OneAt, Or, AndNot;
    PlaceEqual(n, b);
    OneBitAt(Place(n), Place(b));
    AndNotAt(w, OneAt(Place(n)), Place(b));
  }

  lemma ConstantBits(b: nat)
    requires b < 32
    ensures WordBit(0xffff_ffff, b) && !WordBit(0, b)
  {
    hide Place;
    var s := Place(b);
    assert (0xffff_ffff as Word >> s) & 1 == 1 && (0 as Word >> s) & 1 == 0;
  }

  /** A word that is not zero has a bit. */
  lemma SomeBit(w: Word) returns (b: nat)
    requires w != 0
    ensures b < 32 && WordBit(w, b)
  {
    hide Place, BitAt;
    var s: bv6;
    b, s := 0, 0;
    PlaceZero();
    ShiftZero(w);
    while b < 31 && !BitAt(w, s)
      invariant b < 32 && s < 32 && s == Place(b) && ShiftNonzero(w, s)
    {
      PlaceNext(b);
      NextShift(w, s);
      b, s := b + 1, s + 1;
    }
    if b == 31 {
      PlaceLast();
      TopBit(w);
    }
  }

  ghost predicate ShiftNonzero(w: Word, s: bv6)
    requires s < 32
  {
    w >> s != 0
  }

  lemma ShiftZero(w: Word)
    requires w != 0
    ensures ShiftNonzero(w, 0)
  {
  }

  lemma PlaceZero()
    ensures Place(0) == 0
  {
  }

  lemma PlaceLast()
    ensures Place(31) == 31
  {
  }

  lemma PlaceNext(b: nat)
    requires b < 31
    ensures Place(b) < 31 && Place(b + 1) == Place(b) + 1
  {
  }

  lemma NextShift(w: Word, s: bv6)
    requires s < 31 && ShiftNonzero(w, s) && !BitAt(w, s)
    ensures ShiftNonzero(w, s + 1)
  {
    assert w >> s != 0 && (w >> s) & 1 != 1 ==> w >> (s + 1) != 0;
  }

  lemma TopBit(w: Word)
    requires ShiftNonzero(w, 31)
    ensures BitAt(w, 31)
  {
    assert w >> 31 != 0 ==> (w >> 31) & 1 == 1;
  }

  // ------------------------------------------------------------------
  // Bitmaps
  // ------------------------------------------------------------------

  /** What `avrule_xperm_setrangebits` adds to word `i`; `h` is the 16-bit high + 1. */
  function RangeMask(low: nat, high: nat, i: nat): Word {
    var h := (high + 1) % 0x1_0000;
    if low <= 32 * i && high >= 32 * i + 31 then 0xffff_ffff
    else if low <= 32 * i && high < 32 * i + 31 then SetBits(h)
    else if low > 32 * i && high >= 32 * i + 31 then BitsFrom(low)
    else BitsBetween(low, h)
  }

  /** The word masks together spell out the range. */
  lemma RangeMaskBit(low: nat, high: nat, i: nat, b: nat)
    requires low <= high < BITS && low / 32 <= i <= high / 32 && b < 32
    ensures WordBit(RangeMask(low, high, i), b) <==> low <= 32 * i + b <= high
  {
    hide WordBit, SetBits, BitsFrom, BitsBetween;
    var h := high + 1;
    assert low < 32 * i + 32 && 32 * i <= high;
    if low <= 32 * i && high >= 32 * i + 31 {
      ConstantBits(b);
    } else if low <= 32 * i {
      DivMod(h, 32, i, h - 32 * i);
      SetBitsWord(h, b);
    } else if high >= 32 * i + 31 {
      DivMod(low, 32, i, low - 32 * i);
      BitsFromWord(low, b);
    } else {
      DivMod(h, 32, i, h - 32 * i);
      DivMod(low, 32, i, low - 32 * i);
      BitsBetweenWord(low, h, b);
    }
  }

  /** `avrule_xperm_setrangebits`. A range given the wrong way round, which an
      ill-placed `~` can produce, disturbs at most the word of its upper end. */
  method SetRangeBits(low: nat, high: nat, p: array<Word>)
    requires low < BITS && high < BITS && p.Length == WORDS
    modifies p
    ensures low <= high ==>
              forall x: nat | x < BITS :: Bit(p[..], x) <==> old(Bit(p[..], x)) || low <= x <= high
    ensures high < low ==> forall k | 0 <= k < WORDS && k != high / 32 :: p[k] == old(p[k])
  {
    hide WordBit, RangeMask, Or;
    ghost var before := p[..];
    var i := low / 32;
    while i <= high / 32
      invariant low / 32 <= i && (i == low / 32 || i <= high / 32 + 1)
      invariant forall k | 0 <= k < WORDS && !(low / 32 <= k < i) :: p[k] == before[k]
      invariant forall k | low / 32 <= k < i && k < WORDS :: p[k] == Or(before[k], RangeMask(low, high, k))
    {
      p[i] := Or(p[i], RangeMask(low, high, i));
      i := i + 1;
    }
    if low <= high {
      RangeBits(before, p[..], low, high);
    }
  }

  lemma RangeBits(before: Bitmap, after: Bitmap, low: nat, high: nat)
    requires |before| == |after| == WORDS && low <= high < BITS
    requires forall k | 0 <= k < WORDS ::
               after[k] == if low / 32 <= k <= high / 32 then Or(before[k], RangeMask(low, high, k)) else before[k]
    ensures forall x: nat | x < BITS :: Bit(after, x) <==> Bit(before, x) || low <= x <= high
  {
    hide WordBit, RangeMask, Or;
    forall x: nat | x < BITS
      ensures Bit(after, x) <==> Bit(before, x) || low <= x <= high
    {
      var k := x / 32;
      if low / 32 <= k <= high / 32 {
        OrWord(before[k], RangeMask(low, high, k), x % 32);
        RangeMaskBit(low, high, k, x % 32);
      }
    }
  }

  method SetBit(x: nat, p: array<Word>)
    requires x < BITS && p.Length == WORDS
    modifies p
    ensures forall y: nat | y < BITS :: Bit(p[..], y) <==> old(Bit(p[..], y)) || y == x
  {
    hide WordBit, OneAt, Place, Or, AndNot;
    ghost var before := p[..];
    p[x / 32] := Or(p[x / 32], OneAt(Place(x % 32)));
    forall y: nat | y < BITS
      ensures Bit(p[..], y) <==> Bit(before, y) || y == x
    {
      if y / 32 == x / 32 {
        SetWord(before[x / 32], x % 32, y % 32);
      }
    }
  }

  method ClearBit(x: nat, p: array<Word>)
    requires x < BITS && p.Length == WORDS
    modifies p
    ensures forall y: nat | y < BITS :: Bit(p[..], y) <==> old(Bit(p[..], y)) && y != x
  {
    hide WordBit, OneAt, Place, Or, AndNot;
    ghost var before := p[..];
    p[x / 32] := AndNot(p[x / 32], OneAt(Place(x % 32)));
    forall y: nat | y < BITS
      ensures Bit(p[..], y) <==> Bit(before, y) && y != x
    {
      if y / 32 == x / 32 {
        ClearWord(before[x / 32], x % 32, y % 32);
      }
    }
  }

  /** `avrule_xperms_used`: some bit is set. */
  method Used(p: array<Word>) returns (used: bool)
    requires p.Length == WORDS
    ensures used <==> exists x: nat :: x < BITS && Bit(p[..], x)
  {
    hide WordBit;
    var i := 0;
    while i < WORDS
      invariant 0 <= i <= WORDS && forall k | 0 <= k < i :: p[k] == 0
    {
      if p[i] != 0 {
        ghost var b := SomeBit(p[i]);
        assert Bit(p[..], 32 * i + b);
        return true;
      }
      i := i + 1;
    }
    forall x: nat | x < BITS
      ensures !Bit(p[..], x)
    {
      ConstantBits(x % 32);
    }
    used := false;
  }

  method NewBitmap() returns (p: array<Word>)
    ensures fresh(p) && p.Length == WORDS
    ensures forall k | 0 <= k < WORDS :: p[k] == 0
    ensures forall x: nat | x < BITS :: !Bit(p[..], x)
  {
    hide WordBit;
    p := new Word[WORDS](_ => 0);
    forall x: nat | x < BITS
      ensures !Bit(p[..], x)
    {
      ConstantBits(x % 32);
    }
  }
}

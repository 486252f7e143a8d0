/** The node and genfs context lists of checkpolicy (policy_define.c), kept from the
    most specific entry to the least by insertion.

    Addresses and masks are sequences of bits, the first bit being the highest bit of
    the first byte on the wire. */
module OrderedContexts {

  type Bits = seq<bool>

  datatype Node = Node(addr: Bits, mask: Bits, context: nat)

  // ------------------------------------------------------------------
  // How masks are compared
  // ------------------------------------------------------------------

  function Bit(b: bool): nat {
    if b then 1 else 0
  }

  /** Byte k of a bit sequence. */
  function Byte(b: Bits, k: nat): nat
    requires 8 * k + 8 <= |b|
  {
    128 * Bit(b[8 * k]) + 64 * Bit(b[8 * k + 1]) + 32 * Bit(b[8 * k + 2]) + 16 * Bit(b[8 * k + 3])
    + 8 * Bit(b[8 * k + 4]) + 4 * Bit(b[8 * k + 5]) + 2 * Bit(b[8 * k + 6]) + Bit(b[8 * k + 7])
  }

  datatype ByteOrder = Big | Little

  /** The four bytes of an IPv4 address as the host's 32-bit integer. */
  function Word(order: ByteOrder, b: Bits): nat
    requires |b| == 32
  {
    if order.Big? then Byte(b, 0) * 0x100_0000 + Byte(b, 1) * 0x1_0000 + Byte(b, 2) * 0x100 + Byte(b, 3)
    else Byte(b, 3) * 0x100_0000 + Byte(b, 2) * 0x1_0000 + Byte(b, 1) * 0x100 + Byte(b, 0)
  }

  /** The bytes from the first to byte n as one number, the first most significant. */
  function Number(b: Bits, n: nat): nat
    requires 8 * n <= |b|
  {
    if n == 0 then 0 else Number(b, n - 1) * 256 + Byte(b, n - 1)
  }

  /** The number that bits spell, the first most significant. */
  ghost function Binary(b: Bits): nat {
    if b == [] then 0 else 2 * Binary(b[..|b| - 1]) + Bit(b[|b| - 1])
  }

  lemma BinarySnoc(b: Bits, x: bool)
    ensures Binary(b + [x]) == 2 * Binary(b) + Bit(x)
  {
    assert (b + [x])[..|b|] == b;
  }

  lemma {:induction false} NumberIsBinary(b: Bits, n: nat)
    requires 8 * n <= |b|
    ensures Number(b, n) == Binary(b[..8 * n])
  {
    hide Binary, Byte;
    if n == 0 {
      NoBits(b[..0]);
    } else {
      NumberIsBinary(b, n - 1);
      NextByte(b, n - 1);
      assert 8 * (n - 1) + 8 == 8 * n;
    }
  }

  lemma NextByte(b: Bits, k: nat)
    requires 8 * k + 8 <= |b|
    ensures Binary(b[..8 * k + 8]) == 256 * Binary(b[..8 * k]) + Byte(b, k)
  {
    hide Binary, Bit;
    NextBits(b, 8 * k);
    NextBits(b, 8 * k + 4);
  }

  lemma NextBits(b: Bits, i: nat)
    requires i + 4 <= |b|
    ensures Binary(b[..i + 4]) == 16 * Binary(b[..i]) + 8 * Bit(b[i]) + 4 * Bit(b[i + 1]) + 2 * Bit(b[i + 2]) + Bit(b[i + 3])
  {
    hide Binary, Bit;
    NextBit(b, i);
    NextBit(b, i + 1);
    NextBit(b, i + 2);
    NextBit(b, i + 3);
  }

  lemma NoBits(b: Bits)
    requires b == []
    ensures Binary(b) == 0
  {
  }

  lemma NextBit(b: Bits, i: nat)
    requires i < |b|
    ensures Binary(b[..i + 1]) == 2 * Binary(b[..i]) + Bit(b[i])
  {
    BinarySnoc(b[..i], b[i]);
    assert b[..i + 1] == b[..i] + [b[i]];
  }

  /** A big-endian host reads the bits as they stand, and a little-endian one with the
      bytes turned round. */
  lemma WordIsBinary(b: Bits)
    requires |b| == 32
    ensures Word(Big, b) == Binary(b)
    ensures Word(Little, b) == Binary(b[24..] + b[16..24] + b[8..16] + b[..8])
  {
    hide Byte, Binary;
    var r := b[24..] + b[16..24] + b[8..16] + b[..8];
    NumberIsBinary(b, 4);
    NumberIsBinary(r, 4);
    assert b[..32] == b && r[..32] == r;
    FourBytes(b);
    FourBytes(r);
    SameByte(r, 0, b, 3);
    SameByte(r, 1, b, 2);
    SameByte(r, 2, b, 1);
    SameByte(r, 3, b, 0);
  }

  lemma FourBytes(b: Bits)
    requires |b| == 32
    ensures Number(b, 4) == Byte(b, 0) * 0x100_0000 + Byte(b, 1) * 0x1_0000 + Byte(b, 2) * 0x100 + Byte(b, 3)
  {
    hide Byte;
    assert Number(b, 1) == Byte(b, 0) && Number(b, 2) == Number(b, 1) * 256 + Byte(b, 1);
    assert Number(b, 3) == Number(b, 2) * 256 + Byte(b, 2);
  }

  lemma SameByte(a: Bits, i: nat, b: Bits, j: nat)
    requires 8 * i + 8 <= |a| && 8 * j + 8 <= |b| && a[8 * i..8 * i + 8] == b[8 * j..8 * j + 8]
    ensures Byte(a, i) == Byte(b, j)
  {
    var s, t := a[8 * i..8 * i + 8], b[8 * j..8 * j + 8];
    assert s[0] == t[0] && s[1] == t[1] && s[2] == t[2] && s[3] == t[3];
    assert s[4] == t[4] && s[5] == t[5] && s[6] == t[6] && s[7] == t[7];
  }

  /** `memcmp(a, b, n) > 0` */
  method MemCmpAbove(a: Bits, b: Bits, n: nat) returns (above: bool)
    requires 8 * n <= |a| && 8 * n <= |b|
    ensures above <==> Number(a, n) > Number(b, n)
  {
    for k := 0 to n
      invariant Number(a, k) == Number(b, k)
    {
      if Byte(a, k) != Byte(b, k) {
        Decided(a, b, k + 1, n);
        return Byte(a, k) > Byte(b, k);
      }
    }
    return false;
  }

  /** Later bytes do not change which number is greater. */
  lemma {:induction false} Decided(a: Bits, b: Bits, k: nat, n: nat)
    requires k <= n && 8 * n <= |a| && 8 * n <= |b|
    requires Number(a, k) != Number(b, k)
    ensures Number(a, n) > Number(b, n) <==> Number(a, k) > Number(b, k)
    ensures Number(a, n) != Number(b, n)
    decreases n
  {
    hide Byte;
    if k < n {
      Decided(a, b, k, n - 1);
      ByteBound(a, n - 1);
      ByteBound(b, n - 1);
    }
  }

  lemma ByteBound(b: Bits, k: nat)
    requires 8 * k + 8 <= |b|
    ensures Byte(b, k) < 256
  {
  }

  lemma ByteSame(b: Bits, k: nat, v: bool)
    requires 8 * k + 8 <= |b| && forall i | 8 * k <= i < 8 * k + 8 :: b[i] == v
    ensures Byte(b, k) == if v then 255 else 0
  {
  }

  // ------------------------------------------------------------------
  // Contiguous masks
  // ------------------------------------------------------------------

  /** The first n bits are set and no other. */
  ghost predicate Prefix(mask: Bits, n: nat) {
    n <= |mask| && forall i | 0 <= i < |mask| :: mask[i] <==> i < n
  }

  lemma BytesOfPrefixes(a: Bits, n: nat, b: Bits, m: nat, k: nat)
    requires Prefix(a, n) && Prefix(b, m) && |a| == |b| && n <= m && 8 * k + 8 <= |a|
    ensures Byte(a, k) <= Byte(b, k)
    ensures n < m && 8 * k <= n < 8 * k + 8 ==> Byte(a, k) < Byte(b, k)
  {
    hide Byte;
    BytePrefix(a, n, k);
    BytePrefix(b, m, k);
  }

  /** How many bits of byte k a prefix of n bits covers. */
  function Part(n: nat, k: nat): nat {
    if n <= 8 * k then 0 else if n >= 8 * k + 8 then 8 else n - 8 * k
  }

  function Leading(p: nat): nat {
    if p == 0 then 0 else if p == 1 then 128 else if p == 2 then 192 else if p == 3 then 224 else if p == 4 then 240
    else if p == 5 then 248 else if p == 6 then 252 else if p == 7 then 254 else 255
  }

  lemma BytePrefix(a: Bits, n: nat, k: nat)
    requires Prefix(a, n) && 8 * k + 8 <= |a|
    ensures Byte(a, k) == Leading(Part(n, k))
  {
  }

  /** In either byte order a longer contiguous IPv4 mask is the greater integer. */
  lemma LongerIsGreater4(order: ByteOrder, a: Bits, n: nat, b: Bits, m: nat)
    requires |a| == |b| == 32 && Prefix(a, n) && Prefix(b, m)
    ensures n < m <==> Word(order, a) < Word(order, b)
    ensures n == m <==> Word(order, a) == Word(order, b)
  {
    hide Byte;
    if n == m {
      assert a == b;
    } else if n < m {
      Longer4(order, a, n, b, m);
    } else {
      Longer4(order, b, m, a, n);
    }
  }

  lemma Longer4(order: ByteOrder, a: Bits, n: nat, b: Bits, m: nat)
    requires |a| == |b| == 32 && Prefix(a, n) && Prefix(b, m) && n < m
    ensures Word(order, a) < Word(order, b)
  {
    hide Byte, Prefix;
    PrefixBound(a, n);
    PrefixBound(b, m);
    BytesOfPrefixes(a, n, b, m, 0);
    BytesOfPrefixes(a, n, b, m, 1);
    BytesOfPrefixes(a, n, b, m, 2);
    BytesOfPrefixes(a, n, b, m, 3);
  }

  lemma PrefixBound(a: Bits, n: nat)
    requires Prefix(a, n)
    ensures n <= |a|
  {
  }

  /** The same for IPv6 masks as `memcmp` orders them. */
  lemma LongerIsGreater6(a: Bits, n: nat, b: Bits, m: nat)
    requires |a| == |b| == 128 && Prefix(a, n) && Prefix(b, m)
    ensures n < m <==> Number(a, 16) < Number(b, 16)
    ensures n == m <==> Number(a, 16) == Number(b, 16)
  {
    hide Byte, Number;
    if n == m {
      assert a == b;
    } else if n < m {
      Longer6(a, n, b, m, 16);
    } else {
      Longer6(b, m, a, n, 16);
    }
  }

  lemma {:induction false} Longer6(a: Bits, n: nat, b: Bits, m: nat, k: nat)
    requires |a| == |b| && 8 * k <= |a| && Prefix(a, n) && Prefix(b, m) && n < m
    ensures Number(a, k) <= Number(b, k) && (n < 8 * k ==> Number(a, k) < Number(b, k))
    decreases k
  {
    hide Byte;
    if k > 0 {
      Longer6(a, n, b, m, k - 1);
      BytesOfPrefixes(a, n, b, m, k - 1);
      ByteBound(a, k - 1);
      ByteBound(b, k - 1);
    }
  }

  // ------------------------------------------------------------------
  // Node lists
  // ------------------------------------------------------------------

  /** The family decides the size of an address and how masks are compared. */
  datatype Family = V4(order: ByteOrder) | V6

  function Size(fam: Family): nat {
    if fam.V4? then 32 else 128
  }

  function Rank(fam: Family, mask: Bits): nat {
    if |mask| != Size(fam) then 0
    else if fam.V4? then Word(fam.order, mask)
    else Number(mask, 16)
  }

  lemma LongerRanksHigher(fam: Family, a: Bits, n: nat, b: Bits, m: nat)
    requires |a| == |b| == Size(fam) && Prefix(a, n) && Prefix(b, m)
    ensures n < m <==> Rank(fam, a) < Rank(fam, b)
    ensures n == m <==> Rank(fam, a) == Rank(fam, b)
  {
    hide Word, Number, Prefix;
    if fam.V4? {
      LongerIsGreater4(fam.order, a, n, b, m);
    } else {
      LongerIsGreater6(a, n, b, m);
    }
  }

  ghost predicate Fits(fam: Family, ns: seq<Node>) {
    forall i | 0 <= i < |ns| :: |ns[i].addr| == |ns[i].mask| == Size(fam)
  }

  function Ranks(fam: Family, declared: seq<Node>): (ranks: seq<nat>)
    ensures |ranks| == |declared| && forall i | 0 <= i < |ranks| :: ranks[i] == Rank(fam, declared[i].mask)
  {
    seq(|declared|, i requires 0 <= i < |declared| => Rank(fam, declared[i].mask))
  }

  /** `order` lists the declarations, each once, from the highest rank to the lowest
      and among equal ranks in the order they were declared. */
  ghost predicate Ordered(ranks: seq<nat>, order: seq<nat>) {
    && |order| == |ranks|
    && (forall i | 0 <= i < |order| :: order[i] < |ranks|)
    && (forall i, j | 0 <= i < j < |order| :: Before(ranks, order[i], order[j]))
  }

  ghost predicate Before(ranks: seq<nat>, a: nat, b: nat) {
    && a < |ranks| && b < |ranks|
    && (ranks[a] > ranks[b] || (ranks[a] == ranks[b] && a < b))
  }

  class NodeList {
    const fam: Family
    var list: seq<Node>
    ghost var declared: seq<Node>
    ghost var order: seq<nat>

    ghost predicate Valid()
      reads this
    {
      && Fits(fam, declared) && Ordered(Ranks(fam, declared), order) && |list| == |order|
      && forall i | 0 <= i < |list| :: list[i] == declared[order[i]]
    }

    constructor (fam: Family)
      ensures Valid() && list == [] && declared == [] && this.fam == fam
    {
      this.fam := fam;
      list, declared, order := [], [], [];
    }

    /** The comparison of the insertion loop. */
    method Above(a: Bits, b: Bits) returns (above: bool)
      requires |a| == |b| == Size(fam)
      ensures above <==> Rank(fam, a) > Rank(fam, b)
    {
      if fam.V4? {
        return Word(fam.order, a) > Word(fam.order, b);
      }
      above := MemCmpAbove(a, b, 16);
    }

    /** The end of `define_ipv4_node_context` and `define_ipv6_node_context`. */
    method Define(n: Node)
      requires Valid() && |n.addr| == |n.mask| == Size(fam)
      modifies this
      ensures Valid() && declared == old(declared) + [n]
    {
      hide Rank, Before;
      ghost var ranks := Ranks(fam, declared);
      var k := 0;
      while k < |list|
        invariant k <= |list| && unchanged(this)
        invariant forall i | 0 <= i < k :: ranks[order[i]] >= Rank(fam, n.mask)
      {
        assert list[k] == declared[order[k]];
        var above := Above(n.mask, list[k].mask);
        if above {
          break;
        }
        k := k + 1;
      }
      InsertKeepsOrder(ranks, order, Rank(fam, n.mask), k);
      assert Ranks(fam, declared + [n]) == ranks + [Rank(fam, n.mask)];
      list := list[..k] + [n] + list[k..];
      order := order[..k] + [|declared|] + order[k..];
      declared := declared + [n];
    }
  }

  /** Before the first declaration of lower rank is the place of the next one. */
  lemma InsertKeepsOrder(ranks: seq<nat>, order: seq<nat>, rank: nat, k: nat)
    requires Ordered(ranks, order)
    requires k <= |order| && forall i | 0 <= i < k :: ranks[order[i]] >= rank
    requires k < |order| ==> rank > ranks[order[k]]
    ensures Ordered(ranks + [rank], order[..k] + [|ranks|] + order[k..])
  {
    hide Before;
    var r, o := ranks + [rank], order[..k] + [|ranks|] + order[k..];
    assert forall i | 0 <= i < |o| :: o[i] == if i < k then order[i] else if i == k then |ranks| else order[i - 1];
    forall i, j | 0 <= i < j < |o|
      ensures Before(r, o[i], o[j])
    {
      var i', j' := (if i < k then i else i - 1), if j < k then j else j - 1;
      if i != k && j != k {
        assert Before(ranks, order[i'], order[j']);
        StillBefore(ranks, rank, order[i'], order[j']);
      } else if i == k {
        assert k < j' ==> Before(ranks, order[k], order[j']);
        NewBefore(ranks, rank, order[k], order[j']);
      } else {
        OldBefore(ranks, rank, order[i]);
      }
    }
  }

  lemma StillBefore(ranks: seq<nat>, rank: nat, a: nat, b: nat)
    requires Before(ranks, a, b)
    ensures Before(ranks + [rank], a, b)
  {
  }

  lemma NewBefore(ranks: seq<nat>, rank: nat, a: nat, b: nat)
    requires a == b < |ranks| || Before(ranks, a, b)
    requires rank > ranks[a]
    ensures Before(ranks + [rank], |ranks|, b)
  {
  }

  lemma OldBefore(ranks: seq<nat>, rank: nat, a: nat)
    requires a < |ranks| && ranks[a] >= rank
    ensures Before(ranks + [rank], a, |ranks|)
  {
  }

  // ------------------------------------------------------------------
  // Longest prefix first
  // ------------------------------------------------------------------

  /** The entry's masked bits are the address's. */
  ghost predicate Covers(n: Node, x: Bits) {
    |n.addr| == |n.mask| == |x| && forall i | 0 <= i < |x| :: n.addr[i] == (x[i] && n.mask[i])
  }

  /** The position a lookup takes: the first whose entry covers the address. */
  ghost predicate First(declared: seq<Node>, order: seq<nat>, x: Bits, i: nat) {
    CoversAt(declared, order, x, i) && forall j: nat | j < i :: !CoversAt(declared, order, x, j)
  }

  ghost predicate CoversAt(declared: seq<Node>, order: seq<nat>, x: Bits, i: nat) {
    i < |order| && order[i] < |declared| && Covers(declared[order[i]], x)
  }

  ghost predicate PrefixAt(declared: seq<Node>, order: seq<nat>, i: nat, n: nat) {
    i < |order| && order[i] < |declared| && Prefix(declared[order[i]].mask, n)
  }

  /** If the first covering entry has a contiguous mask, then no covering entry with a
      contiguous mask has a longer one, and one as long was declared later. */
  lemma FirstIsLongest(fam: Family, declared: seq<Node>, order: seq<nat>, x: Bits, i: nat, n: nat, j: nat, m: nat)
    requires Fits(fam, declared) && Ordered(Ranks(fam, declared), order)
    requires First(declared, order, x, i) && PrefixAt(declared, order, i, n)
    requires CoversAt(declared, order, x, j) && PrefixAt(declared, order, j, m)
    ensures m <= n && (m == n && i != j ==> order[i] < order[j])
  {
    hide Rank, Prefix, Covers;
    LongerRanksHigher(fam, declared[order[i]].mask, n, declared[order[j]].mask, m);
    if j != i {
      assert i < j;
      assert Before(Ranks(fam, declared), order[i], order[j]);
    }
  }

  // ------------------------------------------------------------------
  // Byte order
  // ------------------------------------------------------------------

  /** The first byte in which two addresses differ, 4 if there is none. */
  function FirstDiff(a: Bits, b: Bits): nat
    requires |a| == |b| == 32
  {
    if Byte(a, 0) != Byte(b, 0) then 0
    else if Byte(a, 1) != Byte(b, 1) then 1
    else if Byte(a, 2) != Byte(b, 2) then 2
    else if Byte(a, 3) != Byte(b, 3) then 3
    else 4
  }

  /** The last one. */
  function LastDiff(a: Bits, b: Bits): nat
    requires |a| == |b| == 32
  {
    if Byte(a, 3) != Byte(b, 3) then 3
    else if Byte(a, 2) != Byte(b, 2) then 2
    else if Byte(a, 1) != Byte(b, 1) then 1
    else if Byte(a, 0) != Byte(b, 0) then 0
    else 4
  }

  function Nibble(a: bool, b: bool, c: bool, d: bool): (n: nat)
    ensures n < 16
  {
    8 * Bit(a) + 4 * Bit(b) + 2 * Bit(c) + Bit(d)
  }

  lemma NibbleInjective(a: bool, b: bool, c: bool, d: bool, a': bool, b': bool, c': bool, d': bool)
    requires Nibble(a, b, c, d) == Nibble(a', b', c', d')
    ensures a == a' && b == b' && c == c' && d == d'
  {
  }

  lemma TwoNibbles(x: Bits)
    requires |x| == 8
    ensures Byte(x, 0) == 16 * Nibble(x[0], x[1], x[2], x[3]) + Nibble(x[4], x[5], x[6], x[7])
  {
  }

  lemma EightBits(x: Bits, y: Bits)
    requires |x| == |y| == 8 && Byte(x, 0) == Byte(y, 0)
    ensures x == y
  {
    hide Byte, Nibble;
    TwoNibbles(x);
    TwoNibbles(y);
    NibbleInjective(x[0], x[1], x[2], x[3], y[0], y[1], y[2], y[3]);
    NibbleInjective(x[4], x[5], x[6], x[7], y[4], y[5], y[6], y[7]);
  }

  /** A byte determines its bits. */
  lemma ByteInjective(a: Bits, b: Bits, k: nat)
    requires 8 * k + 8 <= |a| == |b| && Byte(a, k) == Byte(b, k)
    ensures forall i | 8 * k <= i < 8 * k + 8 :: a[i] == b[i]
  {
    hide Byte;
    ByteSlice(a, k);
    ByteSlice(b, k);
    var x, y := a[8 * k..8 * k + 8], b[8 * k..8 * k + 8];
    EightBits(x, y);
    forall i | 8 * k <= i < 8 * k + 8
      ensures a[i] == b[i]
    {
      assert a[i] == x[i - 8 * k] && b[i] == y[i - 8 * k];
    }
  }

  lemma ByteSlice(a: Bits, k: nat)
    requires 8 * k + 8 <= |a|
    ensures Byte(a[8 * k..8 * k + 8], 0) == Byte(a, k)
  {
  }

  lemma SomeByteDiffers(a: Bits, b: Bits)
    requires |a| == |b| == 32 && a != b
    ensures FirstDiff(a, b) < 4 && LastDiff(a, b) < 4
  {
    hide Byte;
    if forall k: nat | k < 4 :: Byte(a, k) == Byte(b, k) {
      forall i | 0 <= i < 32
        ensures a[i] == b[i]
      {
        ByteInjective(a, b, i / 8);
      }
      assert false;
    }
  }

  /** The host decides by the first differing byte if it is big-endian and by the
      last if it is little-endian. */
  lemma WordComparison(a: Bits, b: Bits)
    requires |a| == |b| == 32 && a != b
    ensures FirstDiff(a, b) < 4 && LastDiff(a, b) < 4
    ensures Word(Big, a) > Word(Big, b) <==> Byte(a, FirstDiff(a, b)) > Byte(b, FirstDiff(a, b))
    ensures Word(Little, a) > Word(Little, b) <==> Byte(a, LastDiff(a, b)) > Byte(b, LastDiff(a, b))
    ensures Word(Big, a) != Word(Big, b) && Word(Little, a) != Word(Little, b)
  {
    hide Byte;
    SomeByteDiffers(a, b);
    forall k: nat | k < 4
      ensures Byte(a, k) < 256 && Byte(b, k) < 256
    {
      ByteBound(a, k);
      ByteBound(b, k);
    }
    var a0, a1, a2, a3 := Byte(a, 0), Byte(a, 1), Byte(a, 2), Byte(a, 3);
    var b0, b1, b2, b3 := Byte(b, 0), Byte(b, 1), Byte(b, 2), Byte(b, 3);
    assert a0 < 256 && a1 < 256 && a2 < 256 && a3 < 256 && b0 < 256 && b1 < 256 && b2 < 256 && b3 < 256;
  }

  /** Exactly when two masks rank alike on every host: the first and the last byte in
      which they differ compare the same way. */
  lemma ByteOrdersAgree(a: Bits, b: Bits)
    requires |a| == |b| == 32 && a != b
    ensures FirstDiff(a, b) < 4 && LastDiff(a, b) < 4
    ensures (Word(Big, a) > Word(Big, b) <==> Word(Little, a) > Word(Little, b))
       <==> (Byte(a, FirstDiff(a, b)) > Byte(b, FirstDiff(a, b)) <==> Byte(a, LastDiff(a, b)) > Byte(b, LastDiff(a, b)))
  {
    hide Byte, Word, FirstDiff, LastDiff;
    WordComparison(a, b);
  }

  /** Masks that are not contiguous may rank one way in one byte order and the other
      way in the other. */
  lemma ByteOrderShows()
    ensures exists a: Bits, b: Bits :: |a| == |b| == 32 && Word(Big, a) > Word(Big, b) && Word(Little, a) < Word(Little, b)
  {
    var a := seq(32, i => i < 8);
    var b := seq(32, i => 24 <= i);
    hide Byte;
    forall k: nat | k < 4
      ensures Byte(a, k) == (if k == 0 then 255 else 0) && Byte(b, k) == if k == 3 then 255 else 0
    {
      ByteSame(a, k, k == 0);
      ByteSame(b, k, k == 3);
    }
    assert Word(Big, a) > Word(Big, b) && Word(Little, a) < Word(Little, b);
  }

  // ------------------------------------------------------------------
  // Genfs lists
  // ------------------------------------------------------------------

  /** Class 0 stands for every class. */
  datatype Genfs = Genfs(name: string, sclass: nat, context: nat)

  predicate Clash(a: Genfs, b: Genfs) {
    a.name == b.name && (a.sclass == 0 || b.sclass == 0 || a.sclass == b.sclass)
  }

  /** Longer names first, no two entries for the same name and a common class. */
  ghost predicate Tidy(list: seq<Genfs>) {
    forall i, j | 0 <= i < j < |list| :: |list[i].name| >= |list[j].name| && !Clash(list[i], list[j])
  }

  /** The list for one file system type. */
  class GenfsList {
    var list: seq<Genfs>

    constructor ()
      ensures list == []
    {
      list := [];
    }

    /** The end of `define_genfs_context_helper`: the entry is refused exactly when
        some entry of the list clashes with it, although the scan stops at the first
        shorter name; otherwise it goes behind those whose names are as long. */
    method Define(e: Genfs) returns (ok: bool, ghost k: nat)
      requires Tidy(list)
      modifies this
      ensures ok <==> forall i | 0 <= i < |old(list)| :: !Clash(old(list)[i], e)
      ensures !ok ==> list == old(list)
      ensures ok ==>
        && Tidy(list) && k <= |old(list)| && list == old(list)[..k] + [e] + old(list)[k..]
        && (forall i | 0 <= i < k :: |old(list)[i].name| >= |e.name|)
        && (forall i | k <= i < |old(list)| :: |old(list)[i].name| < |e.name|)
    {
      k := 0;
      var c := 0;
      while c < |list|
        invariant c <= |list| && list == old(list)
        invariant forall i | 0 <= i < c :: !Clash(list[i], e) && |list[i].name| >= |e.name|
      {
        if Clash(e, list[c]) {
          return false, 0;
        }
        if |e.name| > |list[c].name| {
          break;
        }
        c := c + 1;
      }
      KeepsTidy(list, e, c);
      list := list[..c] + [e] + list[c..];
      return true, c;
    }
  }

  lemma KeepsTidy(list: seq<Genfs>, e: Genfs, c: nat)
    requires Tidy(list) && c <= |list| && forall i | 0 <= i < c :: !Clash(list[i], e) && |list[i].name| >= |e.name|
    requires c < |list| ==> |e.name| > |list[c].name|
    ensures forall i | c <= i < |list| :: |list[i].name| < |e.name| && !Clash(list[i], e)
    ensures Tidy(list[..c] + [e] + list[c..])
  {
    var out := list[..c] + [e] + list[c..];
    assert forall i | 0 <= i < |out| :: out[i] == if i < c then list[i] else if i == c then e else list[i - 1];
  }

  /** A whole policy: refused exactly when two statements clash; otherwise the list
      has them all. */
  method DefineAllGenfs(es: seq<Genfs>) returns (ok: bool, list: seq<Genfs>)
    ensures ok <==> ClashFree(es)
    ensures ok ==> Tidy(list) && multiset(list) == multiset(es)
  {
    hide Tidy, Clash;
    var genfs := new GenfsList();
    TidyNothing();
    for n := 0 to |es|
      invariant fresh(genfs) && Tidy(genfs.list) && multiset(genfs.list) == multiset(es[..n])
      invariant ClashFree(es[..n])
    {
      ghost var k;
      ghost var before := genfs.list;
      ok, k := genfs.Define(es[n]);
      ClashFreeSnoc(before, es, n);
      if !ok {
        ClashFreePrefix(es, n + 1);
        return false, [];
      }
      OneMore(before, es[..n], es[n], k);
      assert es[..n + 1] == es[..n] + [es[n]];
    }
    assert es[..|es|] == es;
    return true, genfs.list;
  }

  ghost predicate ClashFree(es: seq<Genfs>) {
    forall i, j | 0 <= i < j < |es| :: !Clash(es[i], es[j])
  }

  lemma TidyNothing()
    ensures Tidy([]) && ClashFree([])
  {
  }

  /** A statement fits the list exactly when it fits the statements before it. */
  lemma ClashFreeSnoc(list: seq<Genfs>, es: seq<Genfs>, n: nat)
    requires n < |es| && multiset(list) == multiset(es[..n]) && ClashFree(es[..n])
    ensures ClashFree(es[..n + 1]) <==> forall i | 0 <= i < |list| :: !Clash(list[i], es[n])
  {
    hide Clash, ClashFree;
    SameElements(list, es[..n]);
    ClashFreeLast(es[..n], es[n]);
    assert es[..n] + [es[n]] == es[..n + 1];
    assert forall x | x in list :: x in es[..n];
    assert forall x | x in es[..n] :: x in list;
  }

  lemma ClashFreeLast(es: seq<Genfs>, e: Genfs)
    requires ClashFree(es)
    ensures ClashFree(es + [e]) <==> forall x | x in es :: !Clash(x, e)
  {
    hide Clash;
    var t := es + [e];
    assert forall i | 0 <= i < |es| :: t[i] == es[i];
    assert t[|es|] == e;
  }

  lemma ClashFreePrefix(es: seq<Genfs>, n: nat)
    requires n <= |es| && !ClashFree(es[..n])
    ensures !ClashFree(es)
  {
    hide Clash;
    var i, j :| 0 <= i < j < n && Clash(es[..n][i], es[..n][j]);
    assert es[i] == es[..n][i] && es[j] == es[..n][j];
  }

  lemma OneMore(list: seq<Genfs>, es: seq<Genfs>, e: Genfs, k: nat)
    requires multiset(list) == multiset(es) && k <= |list|
    ensures multiset(list[..k] + [e] + list[k..]) == multiset(es + [e])
  {
    assert list == list[..k] + list[k..];
  }

  lemma SameElements(a: seq<Genfs>, b: seq<Genfs>)
    requires multiset(a) == multiset(b)
    ensures forall x :: x in a <==> x in b
  {
    assert forall x :: x in a <==> x in multiset(a);
    assert forall x :: x in b <==> x in multiset(b);
  }

  /** The entry applies to a path of the class below its name. */
  predicate Applies(e: Genfs, path: string, sclass: nat) {
    e.name <= path && (e.sclass == 0 || e.sclass == sclass)
  }

  /** Two entries clash exactly when they have one name and some path of some class to
      which both apply. */
  lemma ClashMeans(a: Genfs, b: Genfs)
    ensures Clash(a, b) <==>
            a.name == b.name && exists path: string, sclass: nat :: Applies(a, path, sclass) && Applies(b, path, sclass)
  {
    if Clash(a, b) {
      var sclass := if a.sclass == 0 then b.sclass else a.sclass;
      assert Applies(a, a.name, sclass) && Applies(b, a.name, sclass);
    }
  }

  /** The first entry that applies is the only one with the longest name that does. */
  lemma FirstGenfsIsLongest(list: seq<Genfs>, path: string, sclass: nat, i: nat, j: nat)
    requires Tidy(list) && i < |list| && Applies(list[i], path, sclass)
    requires forall k | 0 <= k < i :: !Applies(list[k], path, sclass)
    requires j < |list| && j != i && Applies(list[j], path, sclass)
    ensures |list[j].name| < |list[i].name|
  {
    assert !Clash(list[i], list[j]);
    SamePrefix(list[i].name, list[j].name, path);
  }

  lemma SamePrefix(a: string, b: string, s: string)
    requires a <= s && b <= s
    ensures |a| == |b| ==> a == b
  {
    assert |a| == |b| ==> a == s[..|a|] && b == s[..|b|];
  }
}

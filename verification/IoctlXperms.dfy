/** The compiler for ioctl extended permissions (checkpolicy/policy_define.c).

    A list of 16-bit command ranges, possibly complemented with `~`, is sorted,
    merged, flipped and split into one bitmap of whole drivers and one bitmap of
    functions per partly covered driver. The theorem is that the emitted rules
    permit exactly the commands the source lists, or does not list; for `~` it
    holds under an exact condition on the source. */
module IoctlXperms {
  import opened Wrappers
  import opened XpermBits

  type Command = x: int | 0 <= x < 0x1_0000

  datatype Range = Range(low: Command, high: Command)

  /** An item as the grammar delivers it: a number or a span of two numbers. */
  datatype Item = Single(n: nat) | Span(first: nat, last: nat)

  /** A rule for whole drivers, or for some functions of one driver. */
  datatype Rule = DriverRule(perms: Bitmap) | FunctionRule(driver: nat, perms: Bitmap)

  // ------------------------------------------------------------------
  // Meaning
  // ------------------------------------------------------------------

  ghost predicate Contains(r: Range, c: int) {
    r.low <= c <= r.high
  }

  ghost predicate Listed(rs: seq<Range>, c: int) {
    exists i :: 0 <= i < |rs| && Contains(rs[i], c)
  }

  ghost predicate Ascending(rs: seq<Range>) {
    forall i | 0 <= i < |rs| :: rs[i].low <= rs[i].high
  }

  ghost predicate RulePermits(rule: Rule, driver: nat, func: nat) {
    && |rule.perms| == WORDS
    && (if rule.DriverRule? then Bit(rule.perms, driver) else rule.driver == driver && Bit(rule.perms, func))
  }

  ghost predicate Permits(rules: seq<Rule>, driver: nat, func: nat) {
    exists i :: 0 <= i < |rules| && RulePermits(rules[i], driver, func)
  }

  // ------------------------------------------------------------------
  // Reading, sorting and merging the ranges
  // ------------------------------------------------------------------

  /** `avrule_read_ioctls`: numbers are cut to 16 bits, and a span that then
      descends is an error. */
  method ReadRanges(items: seq<Item>) returns (ranges: Option<seq<Range>>)
    ensures ranges.None? <==> exists i :: 0 <= i < |items| && ItemRange(items[i]).high < ItemRange(items[i]).low
    ensures ranges.Some? ==> |ranges.value| == |items| && Ascending(ranges.value)
    ensures ranges.Some? ==> forall i | 0 <= i < |items| :: ranges.value[i] == ItemRange(items[i])
  {
    var rs: seq<Range> := [];
    for i := 0 to |items|
      invariant |rs| == i && Ascending(rs)
      invariant forall k | 0 <= k < i :: rs[k] == ItemRange(items[k])
    {
      var r := ItemRange(items[i]);
      if r.high < r.low {
        return None;
      }
      rs := rs + [r];
    }
    ranges := Some(rs);
  }

  function ItemRange(item: Item): Range {
    match item
    case Single(n) => Range(n % 0x1_0000, n % 0x1_0000)
    case Span(first, last) => Range(first % 0x1_0000, last % 0x1_0000)
  }

  ghost predicate SortedByLow(rs: seq<Range>) {
    forall i, j | 0 <= i <= j < |rs| :: rs[i].low <= rs[j].low
  }

  /** Insert one range where `avrule_sort_ioctls` puts it: after every range
      that does not start above it. */
  method InsertRange(sorted: seq<Range>, r: Range) returns (out: seq<Range>)
    requires SortedByLow(sorted)
    ensures SortedByLow(out)
    ensures multiset(out) == multiset(sorted) + multiset{r}
  {
    if sorted == [] {
      return [r];
    }
    var k := 0;
    while true
      invariant 0 <= k < |sorted|
      invariant 0 < k ==> sorted[k].low <= r.low
      decreases |sorted| - k
    {
      if r.low < sorted[k].low {
        out := [r] + sorted[k..];
        assert out == Inserted(sorted, 0, r);
        InsertedIsSorted(sorted, 0, r);
        return;
      } else if k + 1 < |sorted| && r.low < sorted[k + 1].low {
        out := Inserted(sorted, k + 1, r);
        InsertedIsSorted(sorted, k + 1, r);
        return;
      } else if k + 1 == |sorted| {
        out := sorted + [r];
        assert out == Inserted(sorted, |sorted|, r);
        InsertedIsSorted(sorted, |sorted|, r);
        return;
      }
      k := k + 1;
    }
  }

  function Inserted(s: seq<Range>, k: nat, r: Range): (out: seq<Range>)
    requires k <= |s|
    ensures |out| == |s| + 1 && out[k] == r
    ensures forall i | 0 <= i < k :: out[i] == s[i]
    ensures forall i | k < i < |out| :: out[i] == s[i - 1]
  {
    s[..k] + [r] + s[k..]
  }

  lemma InsertedIsSorted(s: seq<Range>, k: nat, r: Range)
    requires k <= |s| && SortedByLow(s)
    requires 0 < k ==> s[k - 1].low <= r.low
    requires k < |s| ==> r.low <= s[k].low
    ensures SortedByLow(Inserted(s, k, r))
    ensures multiset(Inserted(s, k, r)) == multiset(s) + multiset{r}
  {
    InsertedContents(s, k, r);
    hide Inserted;
  }

  lemma InsertedContents(s: seq<Range>, k: nat, r: Range)
    requires k <= |s|
    ensures multiset(Inserted(s, k, r)) == multiset(s) + multiset{r}
  {
    assert s == s[..k] + s[k..];
  }

  /** `avrule_sort_ioctls`: an insertion sort by lower bound. */
  method SortRanges(ranges: seq<Range>) returns (sorted: seq<Range>)
    ensures SortedByLow(sorted) && multiset(sorted) == multiset(ranges)
  {
    sorted := [];
    for n := 0 to |ranges|
      invariant SortedByLow(sorted) && multiset(sorted) == multiset(ranges[..n])
    {
      sorted := InsertRange(sorted, ranges[n]);
      assert ranges[..n + 1] == ranges[..n] + [ranges[n]];
    }
    assert ranges[..|ranges|] == ranges;
  }

  /** Sorted, and with a gap between any two neighbours. */
  ghost predicate Separated(rs: seq<Range>) {
    forall i, j | 0 <= i < j < |rs| :: rs[i].high + 1 < rs[j].low
  }

  ghost predicate SeparatedUpTo(rs: seq<Range>, r: nat) {
    forall i, j | 0 <= i < j < |rs| && i < r :: rs[i].high + 1 < rs[j].low
  }

  /** Range k swallows range k + 1: the higher upper end is kept. */
  function Fuse(s: seq<Range>, k: nat): (t: seq<Range>)
    requires k + 1 < |s|
    ensures |t| == |s| - 1 && t[k].low == s[k].low
    ensures t[k].high == if s[k].high < s[k + 1].high then s[k + 1].high else s[k].high
    ensures forall i | 0 <= i < k :: t[i] == s[i]
    ensures forall i | k < i < |t| :: t[i] == s[i + 1]
  {
    s[..k] + [Range(s[k].low, if s[k].high < s[k + 1].high then s[k + 1].high else s[k].high)] + s[k + 2..]
  }

  /** Fusing two neighbours that touch or overlap keeps what is listed. */
  lemma FuseKeepsListed(s: seq<Range>, k: nat)
    requires k + 1 < |s| && Ascending(s) && SortedByLow(s) && s[k].high + 1 >= s[k + 1].low
    ensures forall c :: Listed(Fuse(s, k), c) <==> Listed(s, c)
  {
    hide Fuse;
    var t := Fuse(s, k);
    forall c
      ensures Listed(t, c) <==> Listed(s, c)
    {
      if Listed(s, c) {
        var i :| 0 <= i < |s| && Contains(s[i], c);
        assert Contains(t[if i <= k then i else i - 1], c);
      }
      if Listed(t, c) {
        var i :| 0 <= i < |t| && Contains(t[i], c);
        assert i == k ==> Contains(s[k], c) || Contains(s[k + 1], c);
        assert k < i ==> Contains(s[i + 1], c);
      }
    }
  }

  lemma FuseKeepsOrder(s: seq<Range>, k: nat)
    requires k + 1 < |s| && Ascending(s) && SortedByLow(s) && SeparatedUpTo(s, k)
    ensures Ascending(Fuse(s, k)) && SortedByLow(Fuse(s, k)) && SeparatedUpTo(Fuse(s, k), k)
  {
    hide Fuse;
  }

  /** `avrule_merge_ioctls`: the same commands in separated ranges. */
  method MergeRanges(ranges: seq<Range>) returns (merged: seq<Range>)
    requires Ascending(ranges) && SortedByLow(ranges)
    ensures Ascending(merged) && Separated(merged)
    ensures merged == [] <==> ranges == []
    ensures forall c :: Listed(merged, c) <==> Listed(ranges, c)
  {
    hide Listed, Fuse;
    merged := ranges;
    var r := 0;
    while r + 1 < |merged|
      invariant 0 <= r && (r < |merged| || merged == [])
      invariant merged == [] <==> ranges == []
      invariant Ascending(merged) && SortedByLow(merged) && SeparatedUpTo(merged, r)
      invariant forall c :: Listed(merged, c) <==> Listed(ranges, c)
      decreases |merged| - r
    {
      if merged[r].high + 1 >= merged[r + 1].low {
        FuseKeepsListed(merged, r);
        FuseKeepsOrder(merged, r);
        merged := Fuse(merged, r);
      } else {
        r := r + 1;
      }
    }
  }

  // ------------------------------------------------------------------
  // Complement
  // ------------------------------------------------------------------

  /** The merged list is one range that starts at command 0. */
  predicate LoneInitial(rs: seq<Range>) {
    |rs| == 1 && rs[0].low == 0
  }

  /** 1 when there is a gap before the first range. */
  function Lead(rs: seq<Range>): nat
    requires rs != []
  {
    if rs[0].low == 0 then 0 else 1
  }

  /** The 16-bit increment and decrement of the source. */
  function Succ(c: Command): Command {
    (c + 1) % 0x1_0000
  }

  function Pred(c: Command): Command {
    (c - 1) % 0x1_0000
  }

  /** The g-th gap. */
  function Gap(rs: seq<Range>, g: nat): Range
    requires rs != [] && g < |rs| + Lead(rs)
  {
    var k := g - Lead(rs);
    Range(if k < 0 then 0 else Succ(rs[k].high), if k + 1 < |rs| then Pred(rs[k + 1].low) else 0xffff)
  }

  ghost predicate AreGaps(rs: seq<Range>, fs: seq<Range>)
    requires rs != []
  {
    |fs| == |rs| + Lead(rs) && forall g | 0 <= g < |fs| :: fs[g] == Gap(rs, g)
  }

  /** `avrule_omit_ioctls`. The last range built gets its upper end only when the
      loop runs, so a lone range from 0 leaves it at the zero it was allocated with. */
  method FlipRanges(rs: seq<Range>) returns (fs: seq<Range>)
    requires rs != []
    ensures LoneInitial(rs) ==> fs == [Range(Succ(rs[0].high), 0)]
    ensures !LoneInitial(rs) ==> AreGaps(rs, fs)
  {
    hide Succ, Pred;
    var k, low: Command := 0, 0;
    if rs[0].low == 0 {
      low := Succ(rs[0].high);
      k := 1;
    }
    fs := [Range(low, 0)];
    while k < |rs|
      invariant 1 - Lead(rs) <= k <= |rs| && |fs| == k + Lead(rs)
      invariant forall g | 0 <= g < |fs| - 1 :: fs[g] == Gap(rs, g)
      invariant fs[|fs| - 1].low == Gap(rs, |fs| - 1).low
      invariant fs[|fs| - 1].high == if k == |rs| && !LoneInitial(rs) then 0xffff else 0
    {
      var r2 := |fs| - 1;
      fs := fs[r2 := Range(fs[r2].low, Pred(rs[k].low))];
      fs := fs + [Range(Succ(rs[k].high), if k + 1 == |rs| then 0xffff else 0)];
      k := k + 1;
    }
  }

  /** Where an unlisted command falls: after the first i ranges, before the rest. */
  lemma FindGap(rs: seq<Range>, c: int) returns (i: nat)
    requires Ascending(rs) && Separated(rs) && !Listed(rs, c)
    ensures i <= |rs|
    ensures 0 < i ==> rs[i - 1].high < c
    ensures i < |rs| ==> c < rs[i].low
  {
    i := 0;
    while i < |rs| && rs[i].high < c
      invariant i <= |rs| && (0 < i ==> rs[i - 1].high < c)
    {
      i := i + 1;
    }
    if i < |rs| {
      assert !Contains(rs[i], c);
    }
  }

  /** The gaps of a list that stops short of the last command are its complement. */
  lemma GapsAreComplement(rs: seq<Range>, fs: seq<Range>)
    requires rs != [] && Ascending(rs) && Separated(rs) && AreGaps(rs, fs)
    requires rs[|rs| - 1].high < 0xffff
    ensures Ascending(fs) && Separated(fs)
    ensures forall c: Command :: Listed(fs, c) <==> !Listed(rs, c)
  {
    GapsAreOrdered(rs, fs);
    forall c: Command
      ensures Listed(fs, c) <==> !Listed(rs, c)
    {
      if !Listed(rs, c) {
        GapListsRest(rs, fs, c);
      }
      if Listed(fs, c) {
        var g :| 0 <= g < |fs| && Contains(fs[g], c);
        GapListsNothing(rs, g, c);
      }
    }
  }

  lemma GapsAreOrdered(rs: seq<Range>, fs: seq<Range>)
    requires rs != [] && Ascending(rs) && Separated(rs) && AreGaps(rs, fs)
    requires rs[|rs| - 1].high < 0xffff
    ensures Ascending(fs) && Separated(fs)
  {
    hide AreGaps, Ascending;
    forall g | 0 <= g < |fs|
      ensures fs[g].low <= fs[g].high
    {
      GapAscends(rs, fs, g);
    }
    forall g, h | 0 <= g < h < |fs|
      ensures fs[g].high + 1 < fs[h].low
    {
      GapsApart(rs, fs, g, h);
    }
    AllAscend(fs);
  }

  lemma AllAscend(fs: seq<Range>)
    requires forall g | 0 <= g < |fs| :: fs[g].low <= fs[g].high
    ensures Ascending(fs)
  {
  }

  lemma GapAscends(rs: seq<Range>, fs: seq<Range>, g: nat)
    requires rs != [] && Ascending(rs) && Separated(rs) && AreGaps(rs, fs)
    requires rs[|rs| - 1].high < 0xffff && g < |fs|
    ensures fs[g].low <= fs[g].high
  {
    assert fs[g] == Gap(rs, g);
  }

  lemma GapsApart(rs: seq<Range>, fs: seq<Range>, g: nat, h: nat)
    requires rs != [] && Ascending(rs) && Separated(rs) && AreGaps(rs, fs)
    requires rs[|rs| - 1].high < 0xffff && g < h < |fs|
    ensures fs[g].high + 1 < fs[h].low
  {
    var k, m := g - Lead(rs), h - Lead(rs);
    assert fs[g] == Gap(rs, g) && fs[h] == Gap(rs, h);
    assert rs[k + 1].low <= rs[m].high < 0xffff;
  }

  lemma GapListsRest(rs: seq<Range>, fs: seq<Range>, c: Command)
    requires rs != [] && Ascending(rs) && Separated(rs) && AreGaps(rs, fs)
    requires rs[|rs| - 1].high < 0xffff && !Listed(rs, c)
    ensures Listed(fs, c)
  {
    var i := FindGap(rs, c);
    var g := if i == 0 then 0 else i - 1 + Lead(rs);
    assert fs[g] == Gap(rs, g);
    assert Contains(fs[g], c);
  }

  lemma GapListsNothing(rs: seq<Range>, g: nat, c: int)
    requires rs != [] && Ascending(rs) && Separated(rs) && g < |rs| + Lead(rs)
    requires rs[|rs| - 1].high < 0xffff && Contains(Gap(rs, g), c)
    ensures !Listed(rs, c)
  {
    var k := g - Lead(rs);
    forall i | 0 <= i < |rs|
      ensures !Contains(rs[i], c)
    {
      if i < k {
        assert rs[i].high < rs[k].low;
      } else if k + 1 < i {
        assert rs[k + 1].low < rs[i].low;
      }
    }
  }

  /** A list that reaches the last command wraps: its last gap is everything. */
  lemma LastGapWraps(rs: seq<Range>, fs: seq<Range>)
    requires rs != [] && Ascending(rs) && Separated(rs) && AreGaps(rs, fs)
    requires rs[|rs| - 1].high == 0xffff && !LoneInitial(rs)
    ensures Ascending(fs) && Listed(fs, 0xffff)
  {
    var last := |fs| - 1;
    assert fs[last] == Range(0, 0xffff);
    assert Contains(fs[last], 0xffff);
  }

  /** The listed commands are 0 to h, for some h. */
  ghost predicate InitialSegment(rs: seq<Range>) {
    exists h: Command :: ListsUpTo(rs, h)
  }

  ghost predicate ListsUpTo(rs: seq<Range>, h: Command) {
    forall c: Command :: Listed(rs, c) <==> c <= h
  }

  /** When `~` works: the last command is not listed, and what is listed is not
      an initial segment of the commands. */
  ghost predicate Complementable(rs: seq<Range>) {
    !Listed(rs, 0xffff) && !InitialSegment(rs)
  }

  /** On a merged list the condition is the guard of the branches that fail. */
  lemma ComplementableMerged(rs: seq<Range>)
    requires rs != [] && Ascending(rs) && Separated(rs)
    ensures Complementable(rs) <==> rs[|rs| - 1].high < 0xffff && !LoneInitial(rs)
    ensures Listed(rs, 0xffff) <==> rs[|rs| - 1].high == 0xffff
  {
    var last := rs[|rs| - 1];
    if last.high == 0xffff {
      assert Contains(last, 0xffff);
    } else {
      forall i | 0 <= i < |rs|
        ensures !Contains(rs[i], 0xffff)
      {
        assert i < |rs| - 1 ==> rs[i].high + 1 < last.low;
      }
    }
    InitialMerged(rs);
  }

  lemma InitialMerged(rs: seq<Range>)
    requires rs != [] && Ascending(rs) && Separated(rs)
    ensures InitialSegment(rs) <==> LoneInitial(rs)
  {
    if LoneInitial(rs) {
      assert forall c: Command :: Listed(rs, c) <==> Contains(rs[0], c);
      assert ListsUpTo(rs, rs[0].high);
    } else if InitialSegment(rs) {
      var h: Command :| ListsUpTo(rs, h);
      InitialSegmentIsLone(rs, h);
    }
  }

  lemma InitialSegmentIsLone(rs: seq<Range>, h: Command)
    requires rs != [] && Ascending(rs) && Separated(rs) && ListsUpTo(rs, h)
    ensures LoneInitial(rs)
  {
    assert Listed(rs, 0);
    if rs[0].low != 0 {
      GapBeforeFirst(rs);
    }
    if 1 < |rs| {
      assert Contains(rs[1], rs[1].low);
      assert Listed(rs, rs[1].low);
      GapAfterFirst(rs);
    }
  }

  lemma GapBeforeFirst(rs: seq<Range>)
    requires rs != [] && Ascending(rs) && Separated(rs) && rs[0].low != 0
    ensures !Listed(rs, 0)
  {
    forall i | 0 <= i < |rs|
      ensures !Contains(rs[i], 0)
    {
      assert 0 < i ==> rs[0].high + 1 < rs[i].low;
    }
  }

  lemma GapAfterFirst(rs: seq<Range>)
    requires 1 < |rs| && Ascending(rs) && Separated(rs)
    ensures !Listed(rs, rs[0].high + 1) && rs[0].high + 1 < rs[1].low
  {
    forall i | 0 <= i < |rs|
      ensures !Contains(rs[i], rs[0].high + 1)
    {
      assert 0 < i ==> rs[0].high + 1 < rs[i].low;
    }
  }

  lemma ComplementableByMeaning(rs: seq<Range>, ms: seq<Range>)
    requires forall c :: Listed(ms, c) <==> Listed(rs, c)
    ensures Complementable(rs) <==> Complementable(ms)
    ensures InitialSegment(rs) <==> InitialSegment(ms)
  {
    hide Listed;
    assert forall h: Command :: ListsUpTo(rs, h) <==> ListsUpTo(ms, h);
  }

  // ------------------------------------------------------------------
  // Splitting into drivers and functions
  // ------------------------------------------------------------------

  ghost predicate WholeDriver(r: Range, d: nat) {
    r.low <= 256 * d && 256 * d + 255 <= r.high
  }

  ghost predicate SomeWhole(rs: seq<Range>, d: nat) {
    exists i :: 0 <= i < |rs| && WholeDriver(rs[i], d)
  }

  /** The range starts or ends in driver d. */
  ghost predicate Touches(r: Range, d: nat) {
    d == r.low / 256 || d == r.high / 256
  }

  ghost predicate SomeTouches(rs: seq<Range>, d: nat) {
    exists i :: 0 <= i < |rs| && Touches(rs[i], d)
  }

  /** The range starts or ends in driver d and contains its function f. */
  ghost predicate Covers(r: Range, d: nat, f: nat) {
    Touches(r, d) && Contains(r, 256 * d + f)
  }

  ghost predicate SomeCovers(rs: seq<Range>, d: nat, f: nat) {
    exists i :: 0 <= i < |rs| && Covers(rs[i], d, f)
  }

  /** Rounding the ends of a range to driver boundaries finds its whole drivers. */
  lemma RoundedEnds(r: Range, d: nat)
    ensures var high := (r.high + 1) / 256;
            var low := if r.low % 256 != 0 then r.low / 256 + 1 else r.low / 256;
            low <= d < high <==> WholeDriver(r, d)
  {
  }

  /** `avrule_ioctl_completedriver`. */
  method CompleteDrivers(rs: seq<Range>) returns (p: array<Word>)
    ensures fresh(p) && p.Length == WORDS
    ensures forall d: nat | d < BITS :: Bit(p[..], d) <==> SomeWhole(rs, d)
  {
    hide Bit, WholeDriver;
    p := NewBitmap();
    for n := 0 to |rs|
      invariant fresh(p) && p.Length == WORDS
      invariant forall d: nat | d < BITS :: Bit(p[..], d) <==> SomeWhole(rs[..n], d)
    {
      var high := (rs[n].high + 1) / 256;
      var low := rs[n].low / 256;
      if rs[n].low % 256 != 0 {
        low := low + 1;
      }
      ghost var before := p[..];
      if high > low {
        SetRangeBits(low, high - 1, p);
      }
      forall d: nat | d < BITS
        ensures Bit(p[..], d) <==> SomeWhole(rs[..n + 1], d)
      {
        RoundedEnds(rs[n], d);
        SomeWholeStep(rs, n, d);
      }
    }
    assert rs[..|rs|] == rs;
  }

  lemma SomeWholeStep(rs: seq<Range>, n: nat, d: nat)
    requires n < |rs|
    ensures SomeWhole(rs[..n + 1], d) <==> SomeWhole(rs[..n], d) || WholeDriver(rs[n], d)
  {
    assert rs[..n + 1][n] == rs[n];
  }

  /** `avrule_ioctl_partialdriver`: drivers a range starts or ends in that are not whole. */
  method PartialDrivers(rs: seq<Range>, complete: array<Word>, haveComplete: bool) returns (p: array<Word>)
    requires complete.Length == WORDS
    requires haveComplete <==> exists x: nat :: x < BITS && Bit(complete[..], x)
    ensures fresh(p) && p.Length == WORDS
    ensures forall d: nat | d < BITS :: Bit(p[..], d) <==> !Bit(complete[..], d) && SomeTouches(rs, d)
  {
    hide WordBit;
    p := NewBitmap();
    for n := 0 to |rs|
      invariant fresh(p) && p.Length == WORDS
      invariant forall d: nat | d < BITS :: Bit(p[..], d) <==> !Bit(complete[..], d) && SomeTouches(rs[..n], d)
    {
      var low, high := rs[n].low / 256, rs[n].high / 256;
      if haveComplete {
        if !Bit(complete[..], low) {
          SetBit(low, p);
        }
        if !Bit(complete[..], high) {
          SetBit(high, p);
        }
      } else {
        SetBit(low, p);
        SetBit(high, p);
      }
      forall d: nat | d < BITS
        ensures SomeTouches(rs[..n + 1], d) <==> SomeTouches(rs[..n], d) || d == low || d == high
      {
        assert rs[..n + 1][n] == rs[n];
        assert Touches(rs[n], d) <==> d == low || d == high;
      }
    }
    assert rs[..|rs|] == rs;
  }

  /** A range clipped to one driver, as function numbers. */
  function Clip(r: Range, driver: nat): (c: (nat, nat))
    requires driver < BITS
    ensures c.0 < BITS && c.1 < BITS
  {
    var low, high := r.low, r.high;
    if driver == low / 256 then (low % 256, (if high > 256 * driver + 255 then 256 * driver + 255 else high) % 256)
    else ((if low < 256 * driver then 256 * driver else low) % 256, high % 256)
  }

  lemma ClipIsIntersection(r: Range, driver: nat, f: nat)
    requires driver < BITS && f < BITS && r.low <= r.high && Touches(r, driver)
    ensures Clip(r, driver).0 <= Clip(r, driver).1
    ensures Clip(r, driver).0 <= f <= Clip(r, driver).1 <==> Contains(r, 256 * driver + f)
  {
  }

  /** What the bitmap of one driver means; the second part is all that is needed
      of the inverted range that a failing `~` leaves behind. */
  ghost predicate FunctionsOf(rs: seq<Range>, driver: nat, p: Bitmap) {
    && |p| == WORDS
    && (Ascending(rs) ==> forall f: nat | f < BITS :: Bit(p, f) <==> SomeCovers(rs, driver, f))
    && ((forall i | 0 <= i < |rs| :: rs[i].high == 0) ==> !Bit(p, 255))
  }

  /** `avrule_ioctl_func`. */
  method FunctionBits(rs: seq<Range>, driver: nat) returns (p: array<Word>)
    requires driver < BITS
    ensures fresh(p) && p.Length == WORDS && FunctionsOf(rs, driver, p[..])
  {
    hide WordBit, Clip;
    p := NewBitmap();
    for n := 0 to |rs|
      invariant fresh(p) && p.Length == WORDS
      invariant FunctionsOf(rs[..n], driver, p[..])
    {
      ghost var before := p[..];
      if driver == rs[n].low / 256 || driver == rs[n].high / 256 {
        var c := Clip(rs[n], driver);
        SetRangeBits(c.0, c.1, p);
        FunctionStep(rs, n, driver, before, p[..]);
      } else {
        FunctionSkip(rs, n, driver, before);
      }
    }
    assert rs[..|rs|] == rs;
  }

  lemma FunctionStep(rs: seq<Range>, n: nat, driver: nat, before: Bitmap, after: Bitmap)
    requires n < |rs| && driver < BITS && Touches(rs[n], driver) && |after| == WORDS
    requires FunctionsOf(rs[..n], driver, before)
    requires var c := Clip(rs[n], driver);
             && (c.0 <= c.1 ==> forall x: nat | x < BITS :: Bit(after, x) <==> Bit(before, x) || c.0 <= x <= c.1)
             && (c.1 < c.0 ==> forall k | 0 <= k < WORDS && k != c.1 / 32 :: after[k] == before[k])
    ensures FunctionsOf(rs[..n + 1], driver, after)
  {
    hide WordBit, Touches, Contains;
    var s, t := rs[..n], rs[..n + 1];
    assert t == s + [rs[n]];
    if Ascending(t) {
      assert forall i | 0 <= i < n :: s[i] == t[i];
      assert t[n] == rs[n];
      forall f: nat | f < BITS
        ensures Bit(after, f) <==> SomeCovers(t, driver, f)
      {
        ClipIsIntersection(rs[n], driver, f);
        SomeCoversStep(rs, n, driver, f);
      }
    }
    if forall i | 0 <= i < |t| :: t[i].high == 0 {
      assert t[n].high == 0;
      assert forall i | 0 <= i < n :: s[i].high == t[i].high;
      assert Clip(rs[n], driver).1 == 0;
    }
  }

  lemma FunctionSkip(rs: seq<Range>, n: nat, driver: nat, p: Bitmap)
    requires n < |rs| && !Touches(rs[n], driver)
    requires FunctionsOf(rs[..n], driver, p)
    ensures FunctionsOf(rs[..n + 1], driver, p)
  {
    hide WordBit, Contains;
    var s, t := rs[..n], rs[..n + 1];
    assert forall i | 0 <= i < n :: s[i] == t[i];
    forall f: nat | f < BITS
      ensures SomeCovers(t, driver, f) <==> SomeCovers(s, driver, f)
    {
      SomeCoversStep(rs, n, driver, f);
    }
  }

  lemma SomeCoversStep(rs: seq<Range>, n: nat, d: nat, f: nat)
    requires n < |rs|
    ensures SomeCovers(rs[..n + 1], d, f) <==> SomeCovers(rs[..n], d, f) || Covers(rs[n], d, f)
  {
    assert rs[..n + 1][n] == rs[n];
  }

  /** `xperms_for_each_bit`: take the lowest set bit at or above `from`. */
  method NextBit(from: nat, p: array<Word>) returns (found: bool, bit: nat)
    requires p.Length == WORDS
    modifies p
    ensures found ==> from <= bit < BITS && old(Bit(p[..], bit))
    ensures found ==> forall x: nat | from <= x < bit :: !old(Bit(p[..], x))
    ensures found ==> forall x: nat | x < BITS :: Bit(p[..], x) <==> old(Bit(p[..], x)) && x != bit
    ensures !found ==> forall x: nat | from <= x < BITS :: !old(Bit(p[..], x))
  {
    hide WordBit;
    bit := from;
    while bit < BITS
      invariant forall x: nat | from <= x < bit && x < BITS :: !Bit(p[..], x)
      invariant p[..] == old(p[..]) && from <= bit
    {
      if Bit(p[..], bit) {
        ClearBit(bit, p);
        return true, bit;
      }
      bit := bit + 1;
    }
    found := false;
  }

  /** The function rules built so far: one for each partial driver below `cursor`
      whose bitmap is not empty, in ascending order. */
  ghost predicate FunctionRules(rules: seq<Rule>, rs: seq<Range>, partial: Bitmap, cursor: nat) {
    && |partial| == WORDS
    && (forall i | 0 <= i < |rules| :: IsFunctionRule(rules[i], rs, partial) && rules[i].driver < cursor)
    && (forall i, j | 0 <= i < j < |rules| :: rules[i].driver < rules[j].driver)
    && (Ascending(rs) ==>
          forall d: nat, f: nat | d < cursor && f < BITS && Bit(partial, d) && SomeCovers(rs, d, f) :: HasRule(rules, d))
  }

  ghost predicate IsFunctionRule(rule: Rule, rs: seq<Range>, partial: Bitmap)
    requires |partial| == WORDS
  {
    rule.FunctionRule? && Bit(partial, rule.driver) && FunctionsOf(rs, rule.driver, rule.perms)
  }

  ghost predicate HasRule(rules: seq<Rule>, d: nat) {
    exists i :: 0 <= i < |rules| && rules[i].FunctionRule? && rules[i].driver == d
  }

  /** The second half of `define_te_avtab_ioctl`: one rule per partial driver. */
  method PartialRules(rs: seq<Range>, p: array<Word>) returns (rules: seq<Rule>)
    requires p.Length == WORDS
    modifies p
    ensures FunctionRules(rules, rs, old(p[..]), BITS)
  {
    hide Bit, FunctionsOf;
    ghost var partial, cursor := p[..], 0;
    rules := [];
    var i, found := 0, true;
    while found
      invariant 0 <= i <= cursor <= BITS && (cursor == 0 || cursor == i + 1)
      invariant found ==> forall x: nat | x < BITS :: Bit(p[..], x) <==> Bit(partial, x) && cursor <= x
      invariant FunctionRules(rules, rs, partial, if found then cursor else BITS)
      decreases found, BITS - cursor
    {
      var bit;
      found, bit := NextBit(i, p);
      if found {
        var x := FunctionBits(rs, bit);
        var used := Used(x);
        ghost var before := rules;
        if used {
          rules := rules + [FunctionRule(bit, x[..])];
        }
        ExtendRules(before, rules, rs, partial, cursor, bit, x[..], used);
        i, cursor := bit, bit + 1;
      }
    }
  }

  lemma ExtendRules(before: seq<Rule>, after: seq<Rule>, rs: seq<Range>, partial: Bitmap, cursor: nat, bit: nat, x: Bitmap, used: bool)
    requires FunctionRules(before, rs, partial, cursor) && cursor <= bit < BITS && Bit(partial, bit)
    requires forall y: nat | cursor <= y < bit :: !Bit(partial, y)
    requires FunctionsOf(rs, bit, x)
    requires used <==> exists y: nat :: y < BITS && Bit(x, y)
    requires after == if used then before + [FunctionRule(bit, x)] else before
    ensures FunctionRules(after, rs, partial, bit + 1)
  {
    hide Bit, SomeCovers;
    assert forall i | 0 <= i < |before| :: after[i] == before[i];
    forall d: nat, f: nat | Ascending(rs) && d < bit + 1 && f < BITS && Bit(partial, d) && SomeCovers(rs, d, f)
      ensures HasRule(after, d)
    {
      if d < cursor {
        assert HasRule(before, d);
        var i :| 0 <= i < |before| && before[i].FunctionRule? && before[i].driver == d;
        assert after[i] == before[i];
      } else {
        assert d == bit && Bit(x, f);
        assert after[|before|] == FunctionRule(bit, x);
      }
    }
  }

  // ------------------------------------------------------------------
  // The whole compiler
  // ------------------------------------------------------------------

  ghost predicate PermitsListed(rules: seq<Rule>, rs: seq<Range>) {
    forall d: nat, f: nat | d < BITS && f < BITS :: Permits(rules, d, f) <==> Listed(rs, 256 * d + f)
  }

  ghost predicate PermitsUnlisted(rules: seq<Rule>, rs: seq<Range>) {
    forall d: nat, f: nat | d < BITS && f < BITS :: Permits(rules, d, f) <==> !Listed(rs, 256 * d + f)
  }

  /** At most one rule for whole drivers, at most one for each other driver, and
      no driver in both. */
  ghost predicate Tidy(rules: seq<Rule>) {
    && (forall i | 0 <= i < |rules| :: |rules[i].perms| == WORDS && (rules[i].DriverRule? ==> i == 0))
    && (forall i, j | 0 <= i < j < |rules| && rules[i].FunctionRule? :: rules[i].driver < rules[j].driver)
    && (forall i, j | 0 <= i < j < |rules| && rules[i].DriverRule? :: !Bit(rules[i].perms, rules[j].driver))
  }

  /** What the two bitmaps and the rules made from them have to do with the ranges. */
  ghost predicate Split(rs: seq<Range>, complete: Bitmap, partial: Bitmap, driverRules: seq<Rule>, functionRules: seq<Rule>) {
    && |complete| == |partial| == WORDS
    && (forall d: nat | d < BITS :: Bit(complete, d) <==> SomeWhole(rs, d))
    && (forall d: nat | d < BITS :: Bit(partial, d) <==> !Bit(complete, d) && SomeTouches(rs, d))
    && (driverRules == [DriverRule(complete)] || (driverRules == [] && forall d: nat | d < BITS :: !Bit(complete, d)))
    && FunctionRules(functionRules, rs, partial, BITS)
  }

  /** A command in a range is in a whole driver or in one the range touches. */
  lemma WholeOrTouched(r: Range, d: nat, f: nat)
    requires f < BITS && Contains(r, 256 * d + f)
    ensures WholeDriver(r, d) || Touches(r, d)
  {
  }

  lemma SplitIsTidy(rs: seq<Range>, complete: Bitmap, partial: Bitmap, dr: seq<Rule>, fr: seq<Rule>)
    requires Split(rs, complete, partial, dr, fr)
    ensures Tidy(dr + fr)
  {
    hide SomeWhole, SomeTouches, WordBit;
  }

  /** Splitting ascending ranges into drivers and functions keeps their meaning. */
  lemma SplitMeaning(rs: seq<Range>, complete: Bitmap, partial: Bitmap, dr: seq<Rule>, fr: seq<Rule>)
    requires Split(rs, complete, partial, dr, fr) && Ascending(rs)
    ensures PermitsListed(dr + fr, rs)
    ensures forall d: nat | d < BITS && SomeTouches(rs, d) && !SomeWhole(rs, d) :: HasRule(dr + fr, d)
  {
    hide WordBit;
    forall d: nat, f: nat | d < BITS && f < BITS
      ensures Permits(dr + fr, d, f) <==> Listed(rs, 256 * d + f)
    {
      if Permits(dr + fr, d, f) {
        PermittedIsListed(rs, complete, partial, dr, fr, d, f);
      }
      if Listed(rs, 256 * d + f) {
        ListedIsPermitted(rs, complete, partial, dr, fr, d, f);
      }
    }
    forall d: nat | d < BITS && SomeTouches(rs, d) && !SomeWhole(rs, d)
      ensures HasRule(dr + fr, d)
    {
      TouchedHasRule(rs, complete, partial, dr, fr, d);
    }
  }

  lemma PermittedIsListed(rs: seq<Range>, complete: Bitmap, partial: Bitmap, dr: seq<Rule>, fr: seq<Rule>, d: nat, f: nat)
    requires Split(rs, complete, partial, dr, fr) && Ascending(rs)
    requires d < BITS && f < BITS && Permits(dr + fr, d, f)
    ensures Listed(rs, 256 * d + f)
  {
    hide WordBit;
    var i :| 0 <= i < |dr + fr| && RulePermits((dr + fr)[i], d, f);
    if i < |dr| {
      var k :| 0 <= k < |rs| && WholeDriver(rs[k], d);
      assert Contains(rs[k], 256 * d + f);
    } else {
      assert (dr + fr)[i] == fr[i - |dr|] && IsFunctionRule(fr[i - |dr|], rs, partial);
      assert SomeCovers(rs, d, f);
    }
  }

  lemma ListedIsPermitted(rs: seq<Range>, complete: Bitmap, partial: Bitmap, dr: seq<Rule>, fr: seq<Rule>, d: nat, f: nat)
    requires Split(rs, complete, partial, dr, fr) && Ascending(rs)
    requires d < BITS && f < BITS && Listed(rs, 256 * d + f)
    ensures Permits(dr + fr, d, f)
  {
    hide WordBit;
    var k :| 0 <= k < |rs| && Contains(rs[k], 256 * d + f);
    if Bit(complete, d) {
      assert RulePermits((dr + fr)[0], d, f);
    } else {
      WholeOrTouched(rs[k], d, f);
      assert !WholeDriver(rs[k], d);
      assert Covers(rs[k], d, f);
      assert SomeTouches(rs, d) && SomeCovers(rs, d, f);
      assert HasRule(fr, d);
      var i :| 0 <= i < |fr| && fr[i].FunctionRule? && fr[i].driver == d;
      assert IsFunctionRule(fr[i], rs, partial);
      assert (dr + fr)[|dr| + i] == fr[i] && RulePermits(fr[i], d, f);
    }
  }

  lemma TouchedHasRule(rs: seq<Range>, complete: Bitmap, partial: Bitmap, dr: seq<Rule>, fr: seq<Rule>, d: nat)
    requires Split(rs, complete, partial, dr, fr) && Ascending(rs)
    requires d < BITS && SomeTouches(rs, d) && !SomeWhole(rs, d)
    ensures HasRule(dr + fr, d)
  {
    hide WordBit;
    var k :| 0 <= k < |rs| && Touches(rs[k], d);
    var c := if d == rs[k].low / 256 then rs[k].low else rs[k].high;
    assert c == 256 * d + c % 256;
    assert Covers(rs[k], d, c % 256);
    assert SomeCovers(rs, d, c % 256);
    var i :| 0 <= i < |fr| && fr[i].FunctionRule? && fr[i].driver == d;
    assert (dr + fr)[|dr| + i] == fr[i];
  }

  /** An inverted or empty flip never permits the last command. */
  lemma ZeroHighsMissLast(rs: seq<Range>, complete: Bitmap, partial: Bitmap, dr: seq<Rule>, fr: seq<Rule>)
    requires Split(rs, complete, partial, dr, fr)
    requires forall i | 0 <= i < |rs| :: rs[i].high == 0
    ensures !Permits(dr + fr, 255, 255)
  {
    hide WordBit;
    assert !SomeWhole(rs, 255);
    forall i | 0 <= i < |dr + fr|
      ensures !RulePermits((dr + fr)[i], 255, 255)
    {
      if |dr| <= i {
        assert (dr + fr)[i] == fr[i - |dr|] && IsFunctionRule(fr[i - |dr|], rs, partial);
      }
    }
  }

  /** `define_te_avtab_ioctl` after the ranges are organised. */
  method EmitRules(rs: seq<Range>) returns (rules: seq<Rule>)
    ensures Tidy(rules)
    ensures Ascending(rs) ==> PermitsListed(rules, rs)
    ensures Ascending(rs) ==> forall d: nat | d < BITS && SomeTouches(rs, d) && !SomeWhole(rs, d) :: HasRule(rules, d)
    ensures (forall i | 0 <= i < |rs| :: rs[i].high == 0) ==> !Permits(rules, 255, 255)
  {
    hide Bit, SomeWhole, SomeTouches, FunctionRules, Permits, PermitsListed, Tidy;
    var complete := CompleteDrivers(rs);
    var haveComplete := Used(complete);
    rules := [];
    if haveComplete {
      rules := [DriverRule(complete[..])];
    }
    var partial := PartialDrivers(rs, complete, haveComplete);
    ghost var p := partial[..];
    var functionRules := PartialRules(rs, partial);
    ghost var driverRules := rules;
    rules := rules + functionRules;
    SplitIsTidy(rs, complete[..], p, driverRules, functionRules);
    if Ascending(rs) {
      SplitMeaning(rs, complete[..], p, driverRules, functionRules);
    }
    if forall i | 0 <= i < |rs| :: rs[i].high == 0 {
      ZeroHighsMissLast(rs, complete[..], p, driverRules, functionRules);
    }
  }

  /** The command on which the rules of a list that is not complementable go wrong:
      the last one is missing, or permitted although listed, or, if all are listed,
      the first one is permitted. */
  ghost predicate WrongAt(rules: seq<Rule>, rs: seq<Range>) {
    if !Listed(rs, 0xffff) then !Permits(rules, 255, 255)
    else if InitialSegment(rs) then Permits(rules, 0, 0)
    else Permits(rules, 255, 255)
  }

  /** A list of ranges compiled: without `~` the rules permit exactly the listed
      commands; with `~` they permit exactly the others if and only if the list
      is complementable. */
  method DefineIoctl(ranges: seq<Range>, omit: bool) returns (rules: Option<seq<Rule>>)
    requires Ascending(ranges)
    ensures rules.None? <==> ranges == []
    ensures rules.Some? ==> Tidy(rules.value)
    ensures rules.Some? && !omit ==> PermitsListed(rules.value, ranges)
    ensures rules.Some? && omit ==> (PermitsUnlisted(rules.value, ranges) <==> Complementable(ranges))
    ensures rules.Some? && omit && !Complementable(ranges) ==> WrongAt(rules.value, ranges)
  {
    hide Listed, Permits, Complementable, InitialSegment, Tidy, AreGaps, Ascending, SortedByLow, Separated;
    if ranges == [] {
      return None;
    }
    var sorted := SortRanges(ranges);
    SortedMeaning(ranges, sorted);
    var merged := MergeRanges(sorted);
    var organised := merged;
    if omit {
      organised := FlipRanges(merged);
    }
    var out := EmitRules(organised);
    if omit {
      ComplementableByMeaning(ranges, merged);
      FlippedMeaning(merged, organised, out);
    }
    rules := Some(out);
  }

  lemma SortedMeaning(rs: seq<Range>, sorted: seq<Range>)
    requires multiset(sorted) == multiset(rs) && Ascending(rs)
    ensures Ascending(sorted) && |sorted| == |rs|
    ensures forall c :: Listed(sorted, c) <==> Listed(rs, c)
  {
    assert forall r :: r in sorted <==> r in multiset(sorted);
    assert forall r :: r in rs <==> r in multiset(rs);
    assert |multiset(sorted)| == |sorted| && |multiset(rs)| == |rs|;
    forall i | 0 <= i < |sorted|
      ensures sorted[i].low <= sorted[i].high
    {
      assert sorted[i] in rs;
    }
    forall c
      ensures Listed(sorted, c) <==> Listed(rs, c)
    {
      assert Listed(sorted, c) <==> exists r :: r in sorted && Contains(r, c);
      assert Listed(rs, c) <==> exists r :: r in rs && Contains(r, c);
    }
  }

  /** What the rules emitted for a flipped list permit. */
  lemma FlippedMeaning(rs: seq<Range>, fs: seq<Range>, rules: seq<Rule>)
    requires rs != [] && Ascending(rs) && Separated(rs)
    requires LoneInitial(rs) ==> fs == [Range(Succ(rs[0].high), 0)]
    requires !LoneInitial(rs) ==> AreGaps(rs, fs)
    requires Ascending(fs) ==> PermitsListed(rules, fs)
    requires (forall i | 0 <= i < |fs| :: fs[i].high == 0) ==> !Permits(rules, 255, 255)
    ensures PermitsUnlisted(rules, rs) <==> Complementable(rs)
    ensures !Complementable(rs) ==> WrongAt(rules, rs)
  {
    hide AreGaps, Permits, Listed, Complementable, InitialSegment;
    ComplementableMerged(rs);
    InitialMerged(rs);
    if LoneInitial(rs) {
      LoneInitialFails(rs, fs, rules);
    } else if rs[|rs| - 1].high == 0xffff {
      LastGapWraps(rs, fs);
      assert Permits(rules, 255, 255) && Listed(rs, 256 * 255 + 255);
    } else {
      GapsAreComplement(rs, fs);
      forall d: nat, f: nat | d < BITS && f < BITS
        ensures Permits(rules, d, f) <==> !Listed(rs, 256 * d + f)
      {
        var c: Command := 256 * d + f;
        assert Listed(fs, c) <==> !Listed(rs, c);
      }
    }
  }

  lemma LoneInitialFails(rs: seq<Range>, fs: seq<Range>, rules: seq<Rule>)
    requires LoneInitial(rs) && Ascending(rs) && fs == [Range(Succ(rs[0].high), 0)]
    requires Ascending(fs) ==> PermitsListed(rules, fs)
    requires (forall i | 0 <= i < |fs| :: fs[i].high == 0) ==> !Permits(rules, 255, 255)
    ensures !PermitsUnlisted(rules, rs)
    ensures if rs[0].high == 0xffff then Permits(rules, 0, 0) else !Permits(rules, 255, 255)
  {
    hide Permits;
    if rs[0].high == 0xffff {
      assert fs == [Range(0, 0)] && Contains(fs[0], 0);
      assert Contains(rs[0], 0);
      assert Permits(rules, 0, 0) && Listed(rs, 256 * 0 + 0);
    } else {
      assert forall i | 0 <= i < |rs| :: !Contains(rs[i], 0xffff);
      assert !Permits(rules, 255, 255) && !Listed(rs, 256 * 255 + 255);
    }
  }

  /** Two statements on which `~` goes wrong: `~{ 0x0-0x5 }` does not permit 0xffff,
      and `~{ 0x10-0xffff }` permits it. */
  method TildeFailures() returns (missing: seq<Rule>, extra: seq<Rule>)
    ensures !Permits(missing, 255, 255) && !Listed([Range(0, 5)], 0xffff)
    ensures Permits(extra, 255, 255) && Listed([Range(0x10, 0xffff)], 0xffff)
  {
    hide Permits, InitialSegment;
    ComplementableMerged([Range(0, 5)]);
    ComplementableMerged([Range(0x10, 0xffff)]);
    InitialMerged([Range(0x10, 0xffff)]);
    var m := DefineIoctl([Range(0, 5)], true);
    var e := DefineIoctl([Range(0x10, 0xffff)], true);
    return m.value, e.value;
  }

  /** Every number of the items fits in 16 bits. */
  ghost predicate Sixteen(items: seq<Item>) {
    forall i | 0 <= i < |items| ::
      match items[i] case Single(n) => n < 0x1_0000 case Span(first, last) => first < 0x1_0000 && last < 0x1_0000
  }

  ghost predicate Descends(items: seq<Item>) {
    exists i | 0 <= i < |items| :: items[i].Span? && items[i].last < items[i].first
  }

  /** Some item is the command, or a span around it. */
  ghost predicate Names(items: seq<Item>, c: int) {
    exists i | 0 <= i < |items| :: ItemNames(items[i], c)
  }

  ghost predicate ItemNames(item: Item, c: int) {
    match item case Single(n) => c == n case Span(first, last) => first <= c <= last
  }

  /** The rules permit the commands that the items name, or with omit all others. */
  ghost predicate PermitsNamed(rules: seq<Rule>, items: seq<Item>, omit: bool) {
    forall d: nat, f: nat | d < BITS && f < BITS :: Permits(rules, d, f) <==> (Names(items, 256 * d + f) != omit)
  }

  /** The last command is named, or the named commands are a first few without gap. */
  ghost predicate Unflippable(items: seq<Item>) {
    Names(items, 0xffff) || exists h: Command :: NamesUpTo(items, h)
  }

  ghost predicate NamesUpTo(items: seq<Item>, h: Command) {
    forall c: Command :: Names(items, c) <==> c <= h
  }

  lemma NamesListed(items: seq<Item>, c: int)
    requires Sixteen(items)
    ensures Listed(ItemRanges(items), c) <==> Names(items, c)
  {
    var rs := ItemRanges(items);
    forall i | 0 <= i < |items|
      ensures Contains(rs[i], c) <==> ItemNames(items[i], c)
    {
      assert rs[i] == ItemRange(items[i]);
    }
  }

  lemma DescendsMeans(items: seq<Item>)
    requires Sixteen(items)
    ensures Ascending(ItemRanges(items)) <==> !Descends(items)
  {
    var rs := ItemRanges(items);
    forall i | 0 <= i < |items|
      ensures rs[i].low <= rs[i].high <==> !(items[i].Span? && items[i].last < items[i].first)
    {
      assert rs[i] == ItemRange(items[i]);
    }
  }

  /** The reader and the compiler together, on the items of one statement. */
  method CompileStatement(items: seq<Item>, omit: bool) returns (rules: Option<seq<Rule>>)
    ensures rules.Some? <==> items != [] && Ascending(ItemRanges(items))
    ensures rules.Some? && !omit ==> PermitsListed(rules.value, ItemRanges(items))
    ensures rules.Some? && omit ==> (PermitsUnlisted(rules.value, ItemRanges(items)) <==> Complementable(ItemRanges(items)))
    ensures Sixteen(items) ==> (rules.Some? <==> items != [] && !Descends(items))
    ensures Sixteen(items) && rules.Some? ==> (PermitsNamed(rules.value, items, omit) <==> !omit || !Unflippable(items))
  {
    hide Permits, Complementable;
    var ranges := ReadRanges(items);
    if ranges.None? {
      ghost var i :| 0 <= i < |items| && ItemRange(items[i]).high < ItemRange(items[i]).low;
      assert ItemRanges(items)[i] == ItemRange(items[i]);
      if Sixteen(items) {
        DescendsMeans(items);
      }
      return None;
    }
    assert ranges.value == ItemRanges(items);
    rules := DefineIoctl(ranges.value, omit);
    if Sixteen(items) {
      DescendsMeans(items);
      if rules.Some? {
        StatementMeans(rules.value, items, omit);
      }
    }
  }

  lemma StatementMeans(rules: seq<Rule>, items: seq<Item>, omit: bool)
    requires Sixteen(items)
    ensures PermitsNamed(rules, items, false) <==> PermitsListed(rules, ItemRanges(items))
    ensures PermitsNamed(rules, items, true) <==> PermitsUnlisted(rules, ItemRanges(items))
    ensures Complementable(ItemRanges(items)) <==> !Unflippable(items)
  {
    hide Permits, Listed, Names, Sixteen;
    forall c: int
      ensures Listed(ItemRanges(items), c) <==> Names(items, c)
    {
      NamesListed(items, c);
    }
    assert forall h: Command :: ListsUpTo(ItemRanges(items), h) <==> NamesUpTo(items, h);
  }

  function ItemRanges(items: seq<Item>): seq<Range> {
    seq(|items|, i requires 0 <= i < |items| => ItemRange(items[i]))
  }
}

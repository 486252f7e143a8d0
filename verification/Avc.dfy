/** The userspace access vector cache (libselinux/src/avc.c and avc_internal.c):
    hash chains and a free list threaded through one pool of nodes, second-chance
    reclaim, entry references that callers keep, and flushes on mode changes and
    policy loads.

    Nodes are numbered and NULL is -1; the fields of the node structure are
    sequences indexed by node number. Access vectors are sets of permission
    numbers; security identifiers are addresses, 0 being the NULL one. What the
    security server answers is an argument of each query. */
module Avc {

  type Sid = nat
  type Vector = set<nat>

  datatype Key = Key(ssid: Sid, tsid: Sid, tclass: nat)

  /** A cleared entry has the key of no query. */
  const NO_KEY: Key := Key(0, 0, 0)

  datatype Decision = Decision(allowed: Vector, decided: Vector, seqno: nat, permissive: bool)

  const NO_DECISION: Decision := Decision({}, {}, 0, false)

  /** A decision together with the key it was given for. */
  datatype Answer = Answer(key: Key, avd: Decision)

  const SLOTS: nat := 512
  const NULL: int := -1

  /** `avc_hash`: the low nine bits of ssid ^ (tsid << 2) ^ tclass. */
  function Hash(k: Key): (h: nat)
    ensures h < SLOTS
  {
    (((k.ssid % 512) as bv9) ^ ((k.tsid * 4 % 512) as bv9) ^ ((k.tclass % 512) as bv9)) as nat
  }

  // ------------------------------------------------------------------
  // Lists threaded through `next`
  // ------------------------------------------------------------------

  /** `c` is the list that starts at `head`; a list without repeats is acyclic. */
  ghost predicate Linked(next: seq<int>, head: int, c: seq<int>) {
    && head == (if c == [] then NULL else c[0])
    && (forall i | 0 <= i < |c| :: 0 <= c[i] < |next|)
    && (forall i {:trigger next[c[i]]} | 0 <= i < |c| :: next[c[i]] == if i + 1 < |c| then c[i + 1] else NULL)
  }

  ghost predicate Distinct(c: seq<int>) {
    forall i, j | 0 <= i < j < |c| :: c[i] != c[j]
  }

  lemma NotInPrefix(c: seq<int>, k: nat)
    requires Distinct(c) && k < |c|
    ensures c[k] !in c[..k]
  {
  }

  ghost function Elements(c: seq<int>): set<int> {
    set n | n in c
  }

  lemma LinkedFrame(next: seq<int>, next': seq<int>, head: int, c: seq<int>)
    requires Linked(next, head, c) && |next'| == |next|
    requires forall i | 0 <= i < |c| :: next'[c[i]] == next[c[i]]
    ensures Linked(next', head, c)
  {
  }

  ghost function TotalLength(chains: seq<seq<int>>): nat {
    if chains == [] then 0 else |chains[0]| + TotalLength(chains[1..])
  }

  lemma {:induction false} TotalLengthUpdate(chains: seq<seq<int>>, h: nat, c: seq<int>)
    requires h < |chains|
    ensures TotalLength(chains[h := c]) == TotalLength(chains) - |chains[h]| + |c|
  {
    if h == 0 {
      assert chains[0 := c][1..] == chains[1..];
    } else {
      assert chains[h := c][1..] == chains[1..][h - 1 := c];
      TotalLengthUpdate(chains[1..], h - 1, c);
    }
  }

  // ------------------------------------------------------------------
  // The shape of the cache
  // ------------------------------------------------------------------

  /** `c` is the chain of slot `h`: its nodes carry keys that hash there. */
  ghost predicate ChainAt(next: seq<int>, keys: seq<Key>, head: int, c: seq<int>, h: int, loose: int) {
    && |keys| == |next| && Linked(next, head, c) && Distinct(c)
    && forall k | 0 <= k < |c| :: keys[c[k]].ssid != 0 && Hash(keys[c[k]]) == h && c[k] != loose
  }

  /** `c` is the free list: its entries are cleared. */
  ghost predicate FreeAt(next: seq<int>, keys: seq<Key>, head: int, c: seq<int>, loose: int) {
    && |keys| == |next| && Linked(next, head, c) && Distinct(c)
    && forall k | 0 <= k < |c| :: keys[c[k]] == NO_KEY && c[k] != loose
  }

  /** Chain `i` starts at `x`, every other at its slot. */
  ghost predicate Chained(next: seq<int>, keys: seq<Key>, slots: seq<int>, chains: seq<seq<int>>,
                          i: int, x: int, loose: int) {
    && |slots| == |chains| == SLOTS
    && forall h | 0 <= h < SLOTS :: ChainAt(next, keys, if h == i then x else slots[h], chains[h], h, loose)
  }

  lemma ChainOf(next: seq<int>, keys: seq<Key>, slots: seq<int>, chains: seq<seq<int>>, i: int, x: int, loose: int, h: nat)
    requires Chained(next, keys, slots, chains, i, x, loose) && h < SLOTS
    ensures |slots| == |chains| == SLOTS
    ensures ChainAt(next, keys, if h == i then x else slots[h], chains[h], h, loose)
  {
  }

  lemma NotInChain(next: seq<int>, keys: seq<Key>, head: int, c: seq<int>, h: int, loose: int, n: int)
    requires ChainAt(next, keys, head, c, h, loose)
    requires n == loose || (0 <= n < |keys| && (keys[n].ssid == 0 || Hash(keys[n]) != h))
    ensures n !in c
  {
  }

  /** A list that node `n` is not on does not notice changes to `n`. */
  lemma ChainElsewhere(next: seq<int>, keys: seq<Key>, head: int, c: seq<int>, h: int, loose: int,
                       n: nat, v: int, key: Key, loose': int)
    requires ChainAt(next, keys, head, c, h, loose) && n < |next| && n !in c
    requires loose' == loose || loose' !in c
    ensures ChainAt(next[n := v], keys[n := key], head, c, h, loose')
  {
    hide Hash;
    LinkedFrame(next, next[n := v], head, c);
  }

  lemma FreeElsewhere(next: seq<int>, keys: seq<Key>, head: int, c: seq<int>, loose: int,
                      n: nat, v: int, key: Key, loose': int)
    requires FreeAt(next, keys, head, c, loose) && n < |next| && n !in c
    requires loose' == loose || loose' !in c
    ensures FreeAt(next[n := v], keys[n := key], head, c, loose')
  {
    LinkedFrame(next, next[n := v], head, c);
  }

  lemma UnlinkChain(next: seq<int>, keys: seq<Key>, head: int, c: seq<int>, h: int, j: nat)
    requires ChainAt(next, keys, head, c, h, NULL) && j < |c|
    ensures ChainAt(if j == 0 then next else next[c[j - 1] := next[c[j]]], keys,
                    if j == 0 then next[c[j]] else head, c[..j] + c[j + 1..], h, c[j])
  {
    hide Hash;
    var c' := c[..j] + c[j + 1..];
    assert forall k | 0 <= k < |c'| :: c'[k] == if k < j then c[k] else c[k + 1];
  }

  lemma PushChain(next: seq<int>, keys: seq<Key>, head: int, c: seq<int>, h: int, loose: int, n: nat, key: Key)
    requires ChainAt(next, keys, head, c, h, loose) && n < |next| && n !in c
    requires key.ssid != 0 && Hash(key) == h
    ensures ChainAt(next[n := head], keys[n := key], n, [n] + c, h, NULL)
  {
    hide Hash;
    LinkedFrame(next, next[n := head], head, c);
  }

  lemma PushFree(next: seq<int>, keys: seq<Key>, head: int, c: seq<int>, n: nat)
    requires FreeAt(next, keys, head, c, NULL) && n < |next| && n !in c
    ensures FreeAt(next[n := head], keys[n := NO_KEY], n, [n] + c, NULL)
  {
    LinkedFrame(next, next[n := head], head, c);
  }

  lemma PopChain(next: seq<int>, keys: seq<Key>, head: int, c: seq<int>, h: int)
    requires ChainAt(next, keys, head, c, h, NULL) && c != []
    ensures ChainAt(next, keys, next[head], c[1..], h, head)
    ensures head !in c[1..]
  {
    hide Hash;
  }

  lemma PopFree(next: seq<int>, keys: seq<Key>, head: int, c: seq<int>)
    requires FreeAt(next, keys, head, c, NULL) && c != []
    ensures FreeAt(next, keys, next[head], c[1..], head)
  {
  }

  /** Node j leaves chain h. */
  lemma Unlink(next: seq<int>, keys: seq<Key>, slots: seq<int>, chains: seq<seq<int>>,
               freelist: int, free: seq<int>, h: nat, j: nat)
    requires Chained(next, keys, slots, chains, -1, NULL, NULL) && FreeAt(next, keys, freelist, free, NULL)
    requires h < SLOTS && j < |chains[h]|
    ensures ChainAt(next, keys, slots[h], chains[h], h, NULL)
    ensures var c := chains[h];
            var next' := if j == 0 then next else next[c[j - 1] := next[c[j]]];
            && Chained(next', keys, if j == 0 then slots[h := next[c[j]]] else slots,
                       chains[h := c[..j] + c[j + 1..]], -1, NULL, c[j])
            && FreeAt(next', keys, freelist, free, c[j])
  {
    hide Hash, FreeAt;
    var c := chains[h];
    var cur, p := c[j], if j == 0 then c[0] else c[j - 1];
    ChainOf(next, keys, slots, chains, -1, NULL, NULL, h);
    var v := if j == 0 then next[p] else next[cur];
    var next' := if j == 0 then next else next[p := v];
    assert next' == next[p := v] && keys[p := keys[p]] == keys;
    NotFree(next, keys, freelist, free, NULL, p);
    NotFree(next, keys, freelist, free, NULL, cur);
    FreeElsewhere(next, keys, freelist, free, NULL, p, v, keys[p], cur);
    forall g | 0 <= g < SLOTS && g != h
      ensures ChainAt(next', keys, slots[g], chains[g], g, cur)
    {
      ChainOf(next, keys, slots, chains, -1, NULL, NULL, g);
      NotInChain(next, keys, slots[g], chains[g], g, NULL, p);
      NotInChain(next, keys, slots[g], chains[g], g, NULL, cur);
      ChainElsewhere(next, keys, slots[g], chains[g], g, NULL, p, v, keys[p], cur);
    }
    UnlinkChain(next, keys, slots[h], c, h, j);
  }

  lemma NotFree(next: seq<int>, keys: seq<Key>, head: int, c: seq<int>, loose: int, n: int)
    requires FreeAt(next, keys, head, c, loose)
    requires n == loose || (0 <= n < |keys| && keys[n].ssid != 0)
    ensures n !in c
  {
  }

  /** The loose node n goes to the front of the chain of its new key. */
  lemma Push(next: seq<int>, keys: seq<Key>, slots: seq<int>, chains: seq<seq<int>>,
             freelist: int, free: seq<int>, n: nat, key: Key)
    requires Chained(next, keys, slots, chains, -1, NULL, n) && FreeAt(next, keys, freelist, free, n)
    requires n < |next| && key.ssid != 0
    ensures var h := Hash(key);
            && Chained(next[n := slots[h]], keys[n := key], slots[h := n], chains[h := [n] + chains[h]], -1, NULL, NULL)
            && FreeAt(next[n := slots[h]], keys[n := key], freelist, free, NULL)
  {
    hide Hash, FreeAt;
    var h := Hash(key);
    NotFree(next, keys, freelist, free, n, n);
    OnFree(next, keys, freelist, free, n);
    FreeElsewhere(next, keys, freelist, free, n, n, slots[h], key, NULL);
    forall g | 0 <= g < SLOTS && g != h
      ensures ChainAt(next[n := slots[h]], keys[n := key], slots[g], chains[g], g, NULL)
    {
      ChainOf(next, keys, slots, chains, -1, NULL, n, g);
      NotInChain(next, keys, slots[g], chains[g], g, n, n);
      ChainElsewhere(next, keys, slots[g], chains[g], g, n, n, slots[h], key, NULL);
    }
    ChainOf(next, keys, slots, chains, -1, NULL, n, h);
    NotInChain(next, keys, slots[h], chains[h], h, n, n);
    PushChain(next, keys, slots[h], chains[h], h, n, n, key);
  }

  lemma OnFree(next: seq<int>, keys: seq<Key>, head: int, c: seq<int>, loose: int)
    requires FreeAt(next, keys, head, c, loose)
    ensures NULL !in c && head == (if c == [] then NULL else c[0])
    ensures forall n | n in c :: 0 <= n < |keys| && keys[n] == NO_KEY
  {
  }

  /** The first free node becomes loose. */
  lemma Pop(next: seq<int>, keys: seq<Key>, slots: seq<int>, chains: seq<seq<int>>, freelist: int, free: seq<int>)
    requires Chained(next, keys, slots, chains, -1, NULL, NULL) && FreeAt(next, keys, freelist, free, NULL)
    requires free != []
    ensures 0 <= freelist < |next|
    ensures Chained(next, keys, slots, chains, -1, NULL, freelist)
    ensures FreeAt(next, keys, next[freelist], free[1..], freelist)
  {
    hide Hash;
    PopFree(next, keys, freelist, free);
    assert next[freelist := next[freelist]] == next && keys[freelist := keys[freelist]] == keys;
    forall g | 0 <= g < SLOTS
      ensures ChainAt(next, keys, slots[g], chains[g], g, freelist)
    {
      ChainOf(next, keys, slots, chains, -1, NULL, NULL, g);
      NotInChain(next, keys, slots[g], chains[g], g, NULL, freelist);
      ChainElsewhere(next, keys, slots[g], chains[g], g, NULL, freelist, next[freelist], keys[freelist], freelist);
    }
  }

  /** The first node x of chain i is cleared and goes to the free list. */
  lemma Flush(next: seq<int>, keys: seq<Key>, slots: seq<int>, chains: seq<seq<int>>,
              freelist: int, free: seq<int>, i: nat, x: nat)
    requires Chained(next, keys, slots, chains, i, x, NULL) && FreeAt(next, keys, freelist, free, NULL)
    requires i < SLOTS && chains[i] != []
    ensures x < |next| && chains[i][0] == x
    ensures Chained(next[x := freelist], keys[x := NO_KEY], slots, chains[i := chains[i][1..]], i, next[x], NULL)
    ensures FreeAt(next[x := freelist], keys[x := NO_KEY], x, [x] + free, NULL)
  {
    hide Hash, FreeAt;
    ChainOf(next, keys, slots, chains, i, x, NULL, i);
    PopChain(next, keys, x, chains[i], i);
    NotFree(next, keys, freelist, free, NULL, x);
    PushFree(next, keys, freelist, free, x);
    ChainElsewhere(next, keys, next[x], chains[i][1..], i, x, x, freelist, NO_KEY, NULL);
    forall g | 0 <= g < SLOTS && g != i
      ensures ChainAt(next[x := freelist], keys[x := NO_KEY], slots[g], chains[g], g, NULL)
    {
      ChainOf(next, keys, slots, chains, i, x, NULL, g);
      NotInChain(next, keys, slots[g], chains[g], g, NULL, x);
      ChainElsewhere(next, keys, slots[g], chains[g], g, NULL, x, freelist, NO_KEY, NULL);
    }
  }

  lemma NothingChained(slots: seq<int>, chains: seq<seq<int>>)
    requires |slots| == |chains| == SLOTS
    requires forall h | 0 <= h < SLOTS :: slots[h] == NULL && chains[h] == []
    ensures Chained([], [], slots, chains, -1, NULL, NULL) && FreeAt([], [], NULL, [], NULL) && TotalLength(chains) == 0
    ensures Aged(chains, [], 1)
  {
    AllEmpty(chains);
  }

  /** One more node for the pool, cleared and free. */
  lemma Grow(next: seq<int>, keys: seq<Key>, slots: seq<int>, chains: seq<seq<int>>, freelist: int, free: seq<int>)
    requires Chained(next, keys, slots, chains, -1, NULL, NULL) && FreeAt(next, keys, freelist, free, NULL)
    ensures Chained(next + [freelist], keys + [NO_KEY], slots, chains, -1, NULL, NULL)
    ensures FreeAt(next + [freelist], keys + [NO_KEY], |next|, [|next|] + free, NULL)
  {
    hide Hash;
    forall g | 0 <= g < SLOTS
      ensures ChainAt(next + [freelist], keys + [NO_KEY], slots[g], chains[g], g, NULL)
    {
      ChainOf(next, keys, slots, chains, -1, NULL, NULL, g);
    }
  }

  lemma Headed(next: seq<int>, keys: seq<Key>, slots: seq<int>, chains: seq<seq<int>>, i: nat, x: nat)
    requires Chained(next, keys, slots, chains, i, x, NULL) && i < SLOTS
    ensures |slots| == |chains| == SLOTS && chains[i] != []
  {
    ChainOf(next, keys, slots, chains, i, x, NULL, i);
  }

  lemma FromSlot(next: seq<int>, keys: seq<Key>, slots: seq<int>, chains: seq<seq<int>>, i: nat)
    requires Chained(next, keys, slots, chains, -1, NULL, NULL) && i < SLOTS
    ensures Chained(next, keys, slots, chains, i, slots[i], NULL)
  {
    hide ChainAt;
  }

  lemma ToSlot(next: seq<int>, keys: seq<Key>, slots: seq<int>, chains: seq<seq<int>>, i: nat)
    requires Chained(next, keys, slots, chains, i, NULL, NULL) && i < SLOTS
    ensures Chained(next, keys, slots[i := NULL], chains, -1, NULL, NULL)
  {
    hide ChainAt;
  }

  lemma {:induction false} AllEmpty(chains: seq<seq<int>>)
    requires forall h | 0 <= h < |chains| :: chains[h] == []
    ensures TotalLength(chains) == 0
  {
    if chains != [] {
      AllEmpty(chains[1..]);
    }
  }

  /** Chains run from the newest entry to the oldest. */
  ghost predicate Aged(chains: seq<seq<int>>, stamps: seq<nat>, clock: nat) {
    && (forall h | 0 <= h < |chains| :: NewestFirst(chains[h], stamps, clock))
    && clock > 0 && forall n | 0 <= n < |stamps| :: stamps[n] < clock
  }

  ghost predicate NewestFirst(c: seq<int>, stamps: seq<nat>, clock: nat) {
    && (forall i | 0 <= i < |c| :: 0 <= c[i] < |stamps| && stamps[c[i]] < clock)
    && (forall i, j | 0 <= i < j < |c| :: stamps[c[i]] > stamps[c[j]])
  }

  lemma AgedWithout(chains: seq<seq<int>>, stamps: seq<nat>, clock: nat, h: nat, j: nat)
    requires Aged(chains, stamps, clock) && h < |chains| && j < |chains[h]|
    ensures Aged(chains[h := chains[h][..j] + chains[h][j + 1..]], stamps, clock)
  {
    assert NewestFirst(chains[h], stamps, clock);
    var c' := chains[h][..j] + chains[h][j + 1..];
    assert forall k | 0 <= k < |c'| :: c'[k] == if k < j then chains[h][k] else chains[h][k + 1];
  }

  lemma AgedTail(chains: seq<seq<int>>, stamps: seq<nat>, clock: nat, h: nat)
    requires Aged(chains, stamps, clock) && h < |chains| && chains[h] != []
    ensures Aged(chains[h := chains[h][1..]], stamps, clock)
  {
    AgedWithout(chains, stamps, clock, h, 0);
    assert chains[h][..0] + chains[h][1..] == chains[h][1..];
  }

  lemma AgedGrow(chains: seq<seq<int>>, stamps: seq<nat>, clock: nat)
    requires Aged(chains, stamps, clock)
    ensures Aged(chains, stamps + [0], clock)
  {
  }

  lemma AgedWith(chains: seq<seq<int>>, stamps: seq<nat>, clock: nat, h: nat, n: nat)
    requires Aged(chains, stamps, clock) && h < |chains| && n < |stamps|
    requires forall g | 0 <= g < |chains| :: n !in chains[g]
    ensures Aged(chains[h := [n] + chains[h]], stamps[n := clock], clock + 1)
    ensures forall m | 0 <= m < |stamps| :: stamps[m] < clock
  {
    var stamps', chains' := stamps[n := clock], chains[h := [n] + chains[h]];
    forall g | 0 <= g < |chains|
      ensures NewestFirst(chains'[g], stamps', clock + 1)
    {
      assert NewestFirst(chains[g], stamps, clock) && n !in chains[g];
      assert forall i | 0 <= i < |chains[g]| :: chains[g][i] != n;
    }
  }

  lemma Unchained(next: seq<int>, keys: seq<Key>, slots: seq<int>, chains: seq<seq<int>>, n: nat)
    requires Chained(next, keys, slots, chains, -1, NULL, n)
    ensures forall g | 0 <= g < |chains| :: n !in chains[g]
  {
    hide Hash;
    forall g | 0 <= g < |chains|
      ensures n !in chains[g]
    {
      ChainOf(next, keys, slots, chains, -1, NULL, n, g);
      NotInChain(next, keys, slots[g], chains[g], g, n, n);
    }
  }

  // ------------------------------------------------------------------
  // The order in which reclaim visits nodes
  // ------------------------------------------------------------------

  ghost function Flatten(cs: seq<seq<int>>): seq<int> {
    if cs == [] then [] else Flatten(cs[..|cs| - 1]) + cs[|cs| - 1]
  }

  /** Slots from `h` up, then from 0 round to `h`. */
  ghost function Rotated(chains: seq<seq<int>>, h: nat): seq<seq<int>>
    requires h <= |chains|
  {
    chains[h..] + chains[..h]
  }

  /** Every chained node, in the order of a sweep that starts at slot `h`. */
  ghost function SweepOrder(chains: seq<seq<int>>, h: nat): seq<int>
    requires h <= |chains|
  {
    Flatten(Rotated(chains, h))
  }

  lemma {:induction false} FlattenTake(cs: seq<seq<int>>, t: nat)
    requires t <= |cs|
    ensures Flatten(cs[..t]) <= Flatten(cs)
    ensures t < |cs| ==> Flatten(cs[..t]) + cs[t] <= Flatten(cs)
  {
    if t == |cs| {
      assert cs[..t] == cs;
    } else {
      assert cs[..t + 1][..t] == cs[..t];
      if t + 1 < |cs| {
        FlattenTake(cs[..|cs| - 1], t);
        assert cs[..|cs| - 1][..t] == cs[..t];
      } else {
        assert cs[..t + 1] == cs;
      }
    }
  }

  lemma {:induction false} InFlatten(cs: seq<seq<int>>, n: int)
    requires n in Flatten(cs)
    ensures exists t :: 0 <= t < |cs| && n in cs[t]
  {
    if n in cs[|cs| - 1] {
    } else {
      var front := cs[..|cs| - 1];
      InFlatten(front, n);
      var t :| 0 <= t < |front| && n in front[t];
      assert n in cs[t];
    }
  }

  ghost predicate Disjoint(cs: seq<seq<int>>) {
    forall s, t, n | 0 <= s < t < |cs| && n in cs[s] :: n !in cs[t]
  }

  lemma {:induction false} FlattenDistinct(cs: seq<seq<int>>)
    requires Disjoint(cs) && forall t | 0 <= t < |cs| :: Distinct(cs[t])
    ensures Distinct(Flatten(cs))
  {
    if cs != [] {
      var front, last := cs[..|cs| - 1], cs[|cs| - 1];
      FlattenDistinct(front);
      forall n | n in Flatten(front)
        ensures n !in last
      {
        InFlatten(front, n);
        var t :| 0 <= t < |front| && n in front[t];
        assert n in cs[t];
      }
      DistinctAppend(Flatten(front), last);
    }
  }

  lemma DistinctAppend(a: seq<int>, b: seq<int>)
    requires Distinct(a) && Distinct(b) && forall n | n in a :: n !in b
    ensures Distinct(a + b)
  {
    forall i, j | 0 <= i < j < |a + b|
      ensures (a + b)[i] != (a + b)[j]
    {
      if i < |a| {
        assert a[i] in a;
      }
    }
  }

  /** No node is visited twice in one sweep. */
  lemma SweepOrderDistinct(next: seq<int>, keys: seq<Key>, slots: seq<int>, chains: seq<seq<int>>, h: nat)
    requires Chained(next, keys, slots, chains, -1, NULL, NULL) && h < SLOTS
    ensures Distinct(SweepOrder(chains, h))
  {
    hide Hash;
    var cs := Rotated(chains, h);
    forall s, t, n | 0 <= s < t < |cs| && n in cs[s]
      ensures n !in cs[t]
    {
      var s', t' := (if s < SLOTS - h then s + h else s - (SLOTS - h)), (if t < SLOTS - h then t + h else t - (SLOTS - h));
      assert cs[s] == chains[s'] && cs[t] == chains[t'] && s' != t';
      assert ChainAt(next, keys, slots[s'], chains[s'], s', NULL);
      assert ChainAt(next, keys, slots[t'], chains[t'], t', NULL);
      NotInChain(next, keys, slots[t'], chains[t'], t', NULL, n);
    }
    forall t | 0 <= t < |cs|
      ensures Distinct(cs[t])
    {
      var t' := if t < SLOTS - h then t + h else t - (SLOTS - h);
      assert cs[t] == chains[t'];
      assert ChainAt(next, keys, slots[t'], chains[t'], t', NULL);
    }
    FlattenDistinct(cs);
  }

  // ------------------------------------------------------------------
  // Second-chance marks
  // ------------------------------------------------------------------

  ghost function Marked(used: seq<bool>): set<int> {
    set n | 0 <= n < |used| && used[n]
  }

  lemma Unmark(used: seq<bool>, n: nat)
    requires n < |used|
    ensures Marked(used[n := false]) == Marked(used) - {n}
  {
  }

  lemma Mark(used: seq<bool>, n: nat)
    requires n < |used|
    ensures Marked(used[n := true]) == Marked(used) + {n}
  {
  }

  /** A sweep over `order` has passed its first k nodes: all were marked, and
      exactly those marks are gone. */
  ghost predicate Passed(order: seq<int>, before: set<int>, after: set<int>, k: nat) {
    && k <= |order|
    && Elements(order[..k]) <= before
    && after == before - Elements(order[..k])
  }

  /** ... and the sweep has stopped: at the first unmarked node, or at the end. */
  ghost predicate Stopped(order: seq<int>, before: set<int>, after: set<int>, k: nat) {
    Passed(order, before, after, k) && (k < |order| ==> order[k] !in before)
  }

  lemma PassOne(order: seq<int>, before: set<int>, after: set<int>, k: nat)
    requires Passed(order, before, after, k) && k < |order| && order[k] in after
    ensures Passed(order, before, after - {order[k]}, k + 1)
  {
    assert order[..k + 1] == order[..k] + [order[k]];
    assert Elements(order[..k + 1]) == Elements(order[..k]) + {order[k]};
  }

  lemma PassMore(a: seq<int>, b: seq<int>, order: seq<int>, before: set<int>, mid: set<int>, after: set<int>, k: nat)
    requires a + b <= order && Distinct(order)
    requires Passed(order, before, mid, |a|) && Passed(b, mid, after, k)
    ensures Passed(order, before, after, |a| + k)
    ensures k < |b| && b[k] !in mid ==> b[k] == order[|a| + k] && b[k] !in before
  {
    assert order[..|a| + k] == a + b[..k] && order[..|a|] == a;
    assert Elements(order[..|a| + k]) == Elements(a) + Elements(b[..k]);
    if k < |b| {
      assert b[k] == order[|a| + k];
      NotInPrefix(order, |a| + k);
    }
  }

  /** The node that second-chance reclaim picks: the first unmarked one in sweep
      order, losing the marks before it; or, when all are marked, the very first,
      all marks being lost. */
  ghost predicate Victim(order: seq<int>, before: set<int>, after: set<int>, k: nat) {
    && k < |order|
    && if Elements(order) <= before
       then k == 0 && after == before - Elements(order)
       else Stopped(order, before, after, k)
  }

  lemma OneSweep(order: seq<int>, before: set<int>, after: set<int>, k: nat)
    requires Stopped(order, before, after, k) && k < |order|
    ensures Victim(order, before, after, k)
  {
    assert order[k] in Elements(order);
  }

  lemma ElementsNonempty(c: seq<int>)
    ensures c != [] ==> Elements(c) != {}
  {
    assert c != [] ==> c[0] in Elements(c);
  }

  lemma TwoSweeps(order: seq<int>, before: set<int>, mid: set<int>, after: set<int>, k: nat)
    requires Stopped(order, before, mid, |order|) && Stopped(order, mid, after, k)
    ensures if order == [] then k == 0 && after == before else Victim(order, before, after, k)
  {
    assert order[..|order|] == order;
    assert Elements(order[..k]) <= Elements(order);
    ElementsNonempty(order[..k]);
    assert order[..0] == [];
  }

  /** The sweep from slot `start` is about to enter its t-th slot, `h`. */
  ghost predicate AtSlot(chains: seq<seq<int>>, start: nat, t: nat, h: nat, before: set<int>, after: set<int>) {
    && |chains| == SLOTS && start < SLOTS && t < SLOTS
    && h == (if start + t < SLOTS then start + t else start + t - SLOTS)
    && Passed(SweepOrder(chains, start), before, after, |Flatten(Rotated(chains, start)[..t])|)
  }

  lemma SweepStart(chains: seq<seq<int>>, start: nat, marks: set<int>)
    requires |chains| == SLOTS && start < SLOTS
    ensures AtSlot(chains, start, 0, start, marks, marks)
  {
    assert Rotated(chains, start)[..0] == [];
  }

  lemma SweepStep(chains: seq<seq<int>>, start: nat, t: nat, h: nat, before: set<int>, mid: set<int>, after: set<int>, j: nat)
    returns (k: nat)
    requires AtSlot(chains, start, t, h, before, mid) && Distinct(SweepOrder(chains, start))
    requires Stopped(chains[h], mid, after, j)
    ensures j < |chains[h]| ==>
      && k < |SweepOrder(chains, start)| && chains[h][j] == SweepOrder(chains, start)[k]
      && Stopped(SweepOrder(chains, start), before, after, k)
    ensures j == |chains[h]| && (h + 1) % SLOTS == start ==>
      k == |SweepOrder(chains, start)| && Stopped(SweepOrder(chains, start), before, after, k)
    ensures j == |chains[h]| && (h + 1) % SLOTS != start ==>
      t + 1 < SLOTS && AtSlot(chains, start, t + 1, (h + 1) % SLOTS, before, after)
  {
    hide Passed, Distinct;
    var rot := Rotated(chains, start);
    var done := Flatten(rot[..t]);
    assert rot[t] == chains[h];
    FlattenTake(rot, t);
    PassMore(done, chains[h], SweepOrder(chains, start), before, mid, after, j);
    k := |done| + j;
    assert rot[..t + 1][..t] == rot[..t];
    assert rot[..|rot|] == rot;
  }

  // ------------------------------------------------------------------
  // Nothing is lost
  // ------------------------------------------------------------------

  ghost function Upto(n: nat): (s: set<int>)
    ensures |s| == n && forall m: int :: m in s <==> 0 <= m < n
  {
    if n == 0 then {} else Upto(n - 1) + {n - 1}
  }

  lemma DistinctFull(c: seq<int>, n: nat, m: nat)
    requires Distinct(c) && |c| == n && m < n && forall k | 0 <= k < |c| :: 0 <= c[k] < n
    ensures m in c
  {
    if m !in c {
      Pigeonhole(c, Upto(n) - {m});
      assert false;
    }
  }

  lemma {:induction false} Pigeonhole(c: seq<int>, s: set<int>)
    requires Distinct(c) && forall k | 0 <= k < |c| :: c[k] in s
    ensures |c| <= |s|
  {
    if c != [] {
      Pigeonhole(c[1..], s - {c[0]});
    }
  }

  lemma {:induction false} FlattenLength(cs: seq<seq<int>>)
    ensures |Flatten(cs)| == TotalLength(cs)
  {
    if cs != [] {
      FlattenLength(cs[..|cs| - 1]);
      TotalLengthSnoc(cs);
    }
  }

  lemma {:induction false} TotalLengthSnoc(cs: seq<seq<int>>)
    requires cs != []
    ensures TotalLength(cs) == TotalLength(cs[..|cs| - 1]) + |cs[|cs| - 1]|
  {
    if |cs| > 1 {
      TotalLengthSnoc(cs[1..]);
      assert cs[1..][..|cs| - 2] == cs[..|cs| - 1][1..];
    }
  }

  lemma {:induction false} TotalLengthAppend(a: seq<seq<int>>, b: seq<seq<int>>)
    ensures TotalLength(a + b) == TotalLength(a) + TotalLength(b)
  {
    if a == [] {
      assert a + b == b;
    } else {
      assert (a + b)[1..] == a[1..] + b;
      TotalLengthAppend(a[1..], b);
    }
  }

  lemma SweepOrderLength(chains: seq<seq<int>>, h: nat)
    requires h <= |chains|
    ensures |SweepOrder(chains, h)| == TotalLength(chains)
  {
    FlattenLength(Rotated(chains, h));
    TotalLengthAppend(chains[h..], chains[..h]);
    TotalLengthAppend(chains[..h], chains[h..]);
    assert chains[..h] + chains[h..] == chains;
  }

  /** Every node of the pool is on the chain its key hashes to, or is free. */
  lemma Everywhere(next: seq<int>, keys: seq<Key>, slots: seq<int>, chains: seq<seq<int>>, freelist: int, free: seq<int>, n: nat)
    requires Chained(next, keys, slots, chains, -1, NULL, NULL) && FreeAt(next, keys, freelist, free, NULL)
    requires TotalLength(chains) + |free| == |next| && n < |next|
    ensures if keys[n].ssid == 0 then n in free else n in chains[Hash(keys[n])]
  {
    hide Hash;
    var all := Flatten(chains);
    SweepOrderDistinct(next, keys, slots, chains, 0);
    assert Rotated(chains, 0) == chains;
    FlattenLength(chains);
    forall m | m in all
      ensures m !in free && 0 <= m < |next| && keys[m].ssid != 0 && m in chains[Hash(keys[m])]
    {
      InFlatten(chains, m);
      var t :| 0 <= t < |chains| && m in chains[t];
      assert ChainAt(next, keys, slots[t], chains[t], t, NULL);
    }
    DistinctAppend(all, free);
    assert forall k | 0 <= k < |all| :: all[k] in all;
    DistinctFull(all + free, |next|, n);
  }

  // ------------------------------------------------------------------
  // What an entry stands for
  // ------------------------------------------------------------------

  /** A live entry carries the decision `origin` the server gave for its key since
      the last flush, widened at most where the decision does not bind, and a
      creation identifier computed for its key since the last flush. */
  ghost predicate Backed(key: Key, avd: Decision, create: Sid, origin: Answer,
                         answers: set<Answer>, created: set<(Key, Sid)>, latest: nat, enforcing: bool)
  {
    key.ssid != 0 ==>
      && origin.key == key && origin in answers
      && avd == origin.avd.(allowed := avd.allowed) && latest <= avd.seqno
      && origin.avd.allowed <= avd.allowed
      && (enforcing && !avd.permissive ==> avd.allowed == origin.avd.allowed)
      && (create != 0 ==> (key, create) in created)
  }

  lemma BackedMonotone(key: Key, avd: Decision, create: Sid, origin: Answer,
                       answers: set<Answer>, created: set<(Key, Sid)>, latest: nat, enforcing: bool,
                       answers': set<Answer>, created': set<(Key, Sid)>)
    requires Backed(key, avd, create, origin, answers, created, latest, enforcing)
    requires answers <= answers' && created <= created'
    ensures Backed(key, avd, create, origin, answers', created', latest, enforcing)
  {
  }

  lemma BackedFresh(key: Key, avd: Decision, answers: set<Answer>, created: set<(Key, Sid)>, latest: nat, enforcing: bool)
    requires Answer(key, avd) in answers && latest <= avd.seqno
    ensures Backed(key, avd, 0, Answer(key, avd), answers, created, latest, enforcing)
  {
  }

  /** A cached entry may be widened where its decision does not bind. */
  lemma BackedWiden(key: Key, avd: Decision, create: Sid, origin: Answer,
                    answers: set<Answer>, created: set<(Key, Sid)>, latest: nat, enforcing: bool, more: Vector)
    requires Backed(key, avd, create, origin, answers, created, latest, enforcing)
    requires !enforcing || avd.permissive
    ensures Backed(key, avd.(allowed := avd.allowed + more), create, origin, answers, created, latest, enforcing)
  {
  }

  /** The entry for the key that was claimed last. */
  ghost predicate Newest(keys: seq<Key>, stamps: seq<nat>, n: int, key: Key) {
    && 0 <= n < |keys| == |stamps| && keys[n] == key
    && forall m | 0 <= m < |keys| && keys[m] == key && m != n :: stamps[m] < stamps[n]
  }

  /** The entry answers a query without asking the server. */
  ghost predicate Decided(keys: seq<Key>, avds: seq<Decision>, n: int, key: Key, requested: Vector) {
    0 <= n < |keys| == |avds| && keys[n] == key && requested <= avds[n].decided
  }

  /** What the server says to a query; `invalid` is the errno EINVAL. */
  datatype Reply = Answered(avd: Decision) | Failed(invalid: bool)

  /** A fresh answer for the key that allows the request, or does not bind; an
      empty request is never allowed. */
  predicate Covers(a: Answer, key: Key, requested: Vector, latest: nat) {
    && a.key == key && latest <= a.avd.seqno
    && (a.avd.permissive || (requested != {} && requested <= a.avd.allowed))
  }

  /** The answer binds and does not allow the request. */
  predicate Denies(a: Answer, key: Key, requested: Vector) {
    a.key == key && !a.avd.permissive && (requested == {} || !(requested <= a.avd.allowed))
  }

  /** The verdict on a decision: it allows the request, or it does not bind. */
  predicate Allows(avd: Decision, requested: Vector, enforcing: bool) {
    (requested != {} && requested <= avd.allowed) || !enforcing || avd.permissive
  }

  /** The verdict when the server is asked: its answer must be usable, and a query it
      finds invalid is let through outside enforcing mode. */
  predicate ServerAllows(reply: Reply, requested: Vector, latest: nat, enforcing: bool, size: nat) {
    match reply
    case Answered(avd) => latest <= avd.seqno && size > 0 && Allows(avd, requested, enforcing)
    case Failed(invalid) => invalid && !enforcing
  }

  /** Neither the caller's reference nor the newest entry for the key decides the
      request. */
  ghost predicate Missed(keys: seq<Key>, stamps: seq<nat>, avds: seq<Decision>, ref: int, key: Key, requested: Vector) {
    !Decided(keys, avds, ref, key, requested) && forall n | Newest(keys, stamps, n, key) :: !Decided(keys, avds, n, key, requested)
  }

  /** A refusal is the server's, or the server was asked and gave nothing to go by. */
  ghost predicate Excused(answers: set<Answer>, key: Key, requested: Vector, asked: bool, reply: Reply,
                          latest: nat, enforcing: bool, size: nat) {
    || (asked && reply.Failed? && (enforcing || !reply.invalid))
    || (asked && reply.Answered? && (reply.avd.seqno < latest || size == 0))
    || (enforcing && exists a | a in answers :: Denies(a, key, requested))
  }

  /** What a claim changes of the cache. */
  datatype Snapshot = Snapshot(keys: seq<Key>, stamps: seq<nat>, creates: seq<Sid>, active: int)

  /** What a query does to the entries: keys and identifiers change only by a claim for
      the queried key, and while a pool of this size has free nodes no entry in use is
      given up or loses its identifier. */
  ghost predicate KeepsSaved(a: Snapshot, b: Snapshot, size: nat, asked: bool, key: Key) {
    && |a.keys| == |b.keys| == |a.creates| == |b.creates| == |a.stamps| == |b.stamps|
    && (forall n | 0 <= n < |a.keys| && b.keys[n] != a.keys[n] :: asked && b.keys[n] == key)
    && (forall n | 0 <= n < |a.keys| && b.stamps[n] != a.stamps[n] :: asked && b.keys[n] == key)
    && a.active <= b.active <= a.active + (if asked then 1 else 0)
    && (!asked || a.active < size ==>
          forall n | 0 <= n < |a.keys| && a.keys[n].ssid != 0 ::
            b.keys[n] == a.keys[n] && b.stamps[n] == a.stamps[n] && (a.creates[n] != 0 ==> b.creates[n] == a.creates[n]))
  }

  /** Node n is the newest entry for the key and v is saved in it. */
  ghost predicate Saved(s: Snapshot, n: int, key: Key, v: Sid) {
    Newest(s.keys, s.stamps, n, key) && 0 <= n < |s.creates| && s.creates[n] == v
  }

  lemma NothingClaimed(a: Snapshot, size: nat, key: Key)
    requires |a.keys| == |a.creates| == |a.stamps|
    ensures KeepsSaved(a, a, size, false, key)
  {
  }

  lemma SaveKeeps(a: Snapshot, b: Snapshot, size: nat, asked: bool, key: Key, n: nat, v: Sid)
    requires KeepsSaved(a, b, size, asked, key) && n < |b.creates| && b.creates[n] == 0
    ensures KeepsSaved(a, b.(creates := b.creates[n := v]), size, asked, key)
  {
  }

  lemma SavedStays(a: Snapshot, b: Snapshot, size: nat, asked: bool, other: Key, n: int, key: Key, v: Sid)
    requires KeepsSaved(a, b, size, asked, other) && (!asked || (a.active < size && other != key))
    requires key.ssid != 0 && v != 0 && Saved(a, n, key, v)
    ensures Saved(b, n, key, v)
  {
  }

  class Cache {
    var slots: seq<int>
    var next: seq<int>
    var keys: seq<Key>
    var avds: seq<Decision>
    var creates: seq<Sid>
    var used: seq<bool>
    var freelist: int
    var lruHint: nat
    var activeNodes: int
    var latestNotif: nat
    var enforcing: bool
    /** The caller fixed the mode when the cache was opened. */
    const pinned: bool

    ghost var chains: seq<seq<int>>
    ghost var free: seq<int>
    ghost var origins: seq<Answer>
    /** When each node was last claimed. */
    ghost var stamps: seq<nat>
    ghost var clock: nat
    /** What the server has answered since the last flush. */
    ghost var answers: set<Answer>
    ghost var created: set<(Key, Sid)>

    /** Chains, free list and at most one loose node share out the pool; chain
        `i` starts at `x` instead of at its slot. */
    ghost predicate Sound(i: int, x: int, loose: int)
      reads this
    {
      && Chained(next, keys, slots, chains, i, x, loose)
      && FreeAt(next, keys, freelist, free, loose)
      && |keys| == |avds| == |creates| == |used| == |origins| == |stamps| == |next|
      && Aged(chains, stamps, clock)
      && lruHint < SLOTS
      && (loose == NULL || 0 <= loose < |next|)
      && activeNodes == TotalLength(chains) + (if loose == NULL then 0 else 1)
      && activeNodes + |free| == |next|
    }

    ghost predicate Entries(loose: int)
      requires |keys| == |avds| == |creates| == |origins|
      reads this
    {
      forall n | 0 <= n < |keys| && n != loose ::
        Backed(keys[n], avds[n], creates[n], origins[n], answers, created, latestNotif, enforcing)
    }

    ghost predicate Valid()
      reads this
    {
      Sound(-1, NULL, NULL) && Entries(NULL)
    }

    // ----------------------------------------------------------------
    // Lookup
    // ----------------------------------------------------------------

    /** `avc_search_node`: finds a node for the key exactly when the pool has one, and
        then the one claimed last. */
    method Search(key: Key) returns (node: int)
      requires Valid() && key.ssid != 0
      modifies `used
      ensures Valid()
      ensures node == NULL <==> forall n | 0 <= n < |keys| :: keys[n] != key
      ensures node != NULL ==> Newest(keys, stamps, node, key) && 0 <= node < |used| && used[node]
      ensures Marked(used) == old(Marked(used)) + (if node == NULL then {} else {node})
    {
      hide Hash, Backed, TotalLength;
      var h := Hash(key);
      ghost var c, k := chains[h], 0;
      assert ChainAt(next, keys, slots[h], c, h, NULL);
      node := slots[h];
      while node != NULL && keys[node] != key
        invariant 0 <= k <= |c| && node == (if k < |c| then c[k] else NULL)
        invariant node != NULL ==> 0 <= node < |keys|
        invariant forall i | 0 <= i < k :: keys[c[i]] != key
        decreases |c| - k
      {
        node, k := next[node], k + 1;
      }
      assert NewestFirst(c, stamps, clock);
      forall n | 0 <= n < |keys| && keys[n] == key
        ensures node != NULL && (n != node ==> stamps[n] < stamps[node])
      {
        Everywhere(next, keys, slots, chains, freelist, free, n);
      }
      if node != NULL {
        used := used[node := true];
      }
    }

    // ----------------------------------------------------------------
    // Reclaim
    // ----------------------------------------------------------------

    /** One chain: take marks off until an unmarked node. */
    method SweepChain(h: nat, ghost c: seq<int>) returns (prev: int, cur: int, ghost k: nat)
      requires h < |slots| && Linked(next, slots[h], c) && Distinct(c) && |used| == |next|
      modifies `used
      ensures |used| == |next| && Stopped(c, old(Marked(used)), Marked(used), k)
      ensures k <= |c| && cur == (if k < |c| then c[k] else NULL) && prev == (if k == 0 then NULL else c[k - 1])
    {
      prev, cur, k := NULL, slots[h], 0;
      while cur != NULL
        invariant k <= |c| && cur == (if k < |c| then c[k] else NULL) && prev == (if k == 0 then NULL else c[k - 1])
        invariant |used| == |next| && Passed(c, old(Marked(used)), Marked(used), k)
        decreases |c| - k
      {
        if !used[cur] {
          NotInPrefix(c, k);
          assert c[k] !in Marked(used);
          break;
        }
        PassOne(c, old(Marked(used)), Marked(used), k);
        Unmark(used, cur);
        used := used[cur := false];
        prev, cur, k := cur, next[cur], k + 1;
      }
    }

    /** All slots once, from `lruHint` round to it again. */
    method Sweep() returns (h: nat, prev: int, cur: int, ghost j: nat, ghost k: nat)
      requires Sound(-1, NULL, NULL)
      modifies `used
      ensures Sound(-1, NULL, NULL) && h < SLOTS
      ensures Stopped(SweepOrder(chains, lruHint), old(Marked(used)), Marked(used), k)
      ensures k <= |SweepOrder(chains, lruHint)| && (cur == NULL <==> k == |SweepOrder(chains, lruHint)|)
      ensures cur != NULL ==> j < |chains[h]| && 0 <= cur == chains[h][j] == SweepOrder(chains, lruHint)[k]
                              && prev == if j == 0 then NULL else chains[h][j - 1]
    {
      hide Hash, Aged, Chained, FreeAt, TotalLength, AtSlot, Stopped, SweepOrder, Marked, Distinct;
      ChainOf(next, keys, slots, chains, -1, NULL, NULL, lruHint);
      SweepOrderDistinct(next, keys, slots, chains, lruHint);
      SweepStart(chains, lruHint, Marked(used));
      ghost var t := 0;
      h, prev, cur := lruHint, NULL, NULL;
      while true
        invariant t < SLOTS && h < SLOTS && Sound(-1, NULL, NULL) && Distinct(SweepOrder(chains, lruHint))
        invariant AtSlot(chains, lruHint, t, h, old(Marked(used)), Marked(used))
        decreases SLOTS - t
      {
        ghost var mid := Marked(used);
        ChainOf(next, keys, slots, chains, -1, NULL, NULL, h);
        prev, cur, j := SweepChain(h, chains[h]);
        k := SweepStep(chains, lruHint, t, h, old(Marked(used)), mid, Marked(used), j);
        if cur != NULL {
          return;
        }
        h := (h + 1) % SLOTS;
        if h == lruHint {
          return;
        }
        t := t + 1;
      }
    }

    /** At most two sweeps, the second only over unmarked nodes. */
    method Choose() returns (h: nat, prev: int, cur: int, ghost j: nat, ghost k: nat)
      requires Sound(-1, NULL, NULL)
      modifies `used
      ensures Sound(-1, NULL, NULL) && h < SLOTS
      ensures cur == NULL <==> SweepOrder(chains, lruHint) == []
      ensures cur == NULL ==> Marked(used) == old(Marked(used))
      ensures cur != NULL ==>
        && j < |chains[h]| && cur == chains[h][j] && prev == (if j == 0 then NULL else chains[h][j - 1])
        && Victim(SweepOrder(chains, lruHint), old(Marked(used)), Marked(used), k)
        && 0 <= cur == SweepOrder(chains, lruHint)[k]
    {
      hide Hash, Aged, ChainAt, FreeAt, TotalLength, Stopped, Victim, SweepOrder, Marked, Distinct;
      ghost var order, before := SweepOrder(chains, lruHint), Marked(used);
      h, prev, cur, j, k := Sweep();
      ghost var mid := Marked(used);
      if cur == NULL {
        h, prev, cur, j, k := Sweep();
        TwoSweeps(order, before, mid, Marked(used), k);
      } else {
        OneSweep(order, before, mid, k);
      }
    }

    /** A chosen node leaves its chain, whose slot is where the next sweep starts. */
    method Detach(h: nat, prev: int, cur: nat, ghost j: nat)
      requires Sound(-1, NULL, NULL) && h < SLOTS && j < |chains[h]|
      requires cur == chains[h][j] && prev == if j == 0 then NULL else chains[h][j - 1]
      modifies `lruHint, `slots, `next, `chains
      ensures Sound(-1, NULL, cur) && |next| == old(|next|) && lruHint == h == Hash(keys[cur])
      ensures chains == old(chains)[h := old(chains[h][..j] + chains[h][j + 1..])]
    {
      hide Hash, Aged, Chained, FreeAt, TotalLength, Distinct;
      ChainOf(next, keys, slots, chains, -1, NULL, NULL, h);
      Unlink(next, keys, slots, chains, freelist, free, h, j);
      ghost var c := chains[h];
      TotalLengthUpdate(chains, h, c[..j] + c[j + 1..]);
      AgedWithout(chains, stamps, clock, h, j);
      lruHint := h;
      if prev == NULL {
        slots := slots[h := next[cur]];
      } else {
        next := next[prev := next[cur]];
      }
      chains := chains[h := c[..j] + c[j + 1..]];
    }

    /** `avc_reclaim_node`: fails only when there is nothing to reclaim. */
    method Reclaim() returns (node: int, ghost k: nat)
      requires Sound(-1, NULL, NULL)
      modifies `used, `lruHint, `slots, `next, `chains
      ensures |next| == old(|next|) && Sound(-1, NULL, node)
      ensures node == NULL <==> old(SweepOrder(chains, lruHint)) == []
      ensures node == NULL ==> Marked(used) == old(Marked(used)) && chains == old(chains) && lruHint == old(lruHint)
      ensures node != NULL ==>
        && Victim(old(SweepOrder(chains, lruHint)), old(Marked(used)), Marked(used), k)
        && node == old(SweepOrder(chains, lruHint))[k]
        && lruHint == Hash(keys[node])
    {
      hide Hash, Aged, ChainAt, FreeAt, TotalLength, Victim, SweepOrder, Marked;
      var h, prev;
      ghost var j;
      h, prev, node, j, k := Choose();
      if node != NULL {
        Detach(h, prev, node, j);
      }
    }

    // ----------------------------------------------------------------
    // Insertion
    // ----------------------------------------------------------------

    /** Only the entry of `node` may differ from before. */
    twostate predicate OthersKept(node: int)
      reads this
    {
      && |keys| == old(|keys|) && |avds| == old(|avds|) && |creates| == old(|creates|) && |origins| == old(|origins|)
      && |stamps| == old(|stamps|) && |keys| == |avds| == |creates| == |origins| == |stamps|
      && forall n | 0 <= n < |keys| && n != node ::
           && keys[n] == old(keys[n]) && avds[n] == old(avds[n]) && stamps[n] == old(stamps[n])
           && creates[n] == old(creates[n]) && origins[n] == old(origins[n])
    }

    /** While the pool has free nodes, none that is in use is claimed. */
    twostate predicate Room(node: int)
      reads this
    {
      && old(activeNodes) <= activeNodes <= old(activeNodes) + (if node == NULL then 0 else 1)
      && (node != NULL && old(activeNodes < |next|) ==> 0 <= node < old(|keys|) && old(keys)[node] == NO_KEY)
    }

    /** A free node if there is one, else the victim of a reclaim. */
    method TakeNode() returns (node: int, ghost k: nat)
      requires Sound(-1, NULL, NULL)
      modifies `used, `lruHint, `slots, `next, `chains, `activeNodes, `freelist, `free
      ensures Sound(-1, NULL, node) && |next| == old(|next|)
      ensures node == NULL <==> |next| == 0
      ensures old(free) != [] ==> node == old(free[0]) && used == old(used) && lruHint == old(lruHint) && keys[node] == NO_KEY
      ensures activeNodes == old(activeNodes) + if old(free) != [] then 1 else 0
      ensures node != NULL && old(free) == [] ==>
        && lruHint == Hash(keys[node])
        && Victim(old(SweepOrder(chains, lruHint)), old(Marked(used)), Marked(used), k)
        && node == old(SweepOrder(chains, lruHint))[k]
    {
      hide Hash, Aged, Chained, FreeAt, TotalLength, Victim, SweepOrder, Marked;
      OnFree(next, keys, freelist, free, NULL);
      ChainOf(next, keys, slots, chains, -1, NULL, NULL, lruHint);
      if freelist != NULL {
        Pop(next, keys, slots, chains, freelist, free);
        node, k := freelist, 0;
        freelist := next[freelist];
        free := free[1..];
        activeNodes := activeNodes + 1;
      } else {
        SweepOrderLength(chains, lruHint);
        node, k := Reclaim();
      }
    }

    /** The loose node goes to the front of the chain of its key, its entry cleared. */
    method Place(node: nat, key: Key)
      requires Sound(-1, NULL, node) && key.ssid != 0
      modifies `used, `slots, `next, `chains, `keys, `avds, `creates, `stamps, `clock
      ensures Sound(-1, NULL, NULL) && |next| == old(|next|)
      ensures OthersKept(node)
      ensures keys[node] == key && avds[node] == NO_DECISION && creates[node] == 0
      ensures slots[Hash(key)] == node && used[node] && Marked(used) == old(Marked(used)) + {node}
      ensures Newest(keys, stamps, node, key)
    {
      hide Hash, Aged, Chained, ChainAt, FreeAt, TotalLength, Marked;
      var h := Hash(key);
      Push(next, keys, slots, chains, freelist, free, node, key);
      ChainOf(next, keys, slots, chains, -1, NULL, node, h);
      TotalLengthUpdate(chains, h, [node] + chains[h]);
      Mark(used, node);
      Unchained(next, keys, slots, chains, node);
      AgedWith(chains, stamps, clock, h, node);
      avds, creates, used := avds[node := NO_DECISION], creates[node := 0], used[node := true];
      keys := keys[node := key];
      next := next[node := slots[h]];
      slots := slots[h := node];
      chains := chains[h := [node] + chains[h]];
      stamps, clock := stamps[node := clock], clock + 1;
    }

    /** `avc_claim_node`: it fails only when the pool is empty. */
    method Claim(key: Key) returns (node: int, ghost marks: set<int>, ghost k: nat)
      requires Sound(-1, NULL, NULL) && key.ssid != 0
      modifies `used, `lruHint, `slots, `next, `chains, `activeNodes, `keys, `avds, `creates, `freelist, `free, `stamps, `clock
      ensures Sound(-1, NULL, NULL) && |next| == old(|next|)
      ensures OthersKept(node)
      ensures node == NULL <==> |next| == 0
      ensures node != NULL ==>
        && 0 <= node < |next| && keys[node] == key && avds[node] == NO_DECISION && creates[node] == 0 && used[node]
        && Marked(used) == marks + {node} && slots[Hash(key)] == node
      ensures node != NULL ==> Newest(keys, stamps, node, key)
      ensures old(free) != [] ==> node == old(free[0]) && marks == old(Marked(used)) && old(keys)[node] == NO_KEY
      ensures activeNodes == old(activeNodes) + if old(free) != [] then 1 else 0
      ensures node != NULL && old(free) == [] ==>
        && Victim(old(SweepOrder(chains, lruHint)), old(Marked(used)), marks, k)
        && node == old(SweepOrder(chains, lruHint))[k]
    {
      hide Hash, Aged, ChainAt, FreeAt, TotalLength, Victim, SweepOrder, Marked;
      node, k := TakeNode();
      marks := Marked(used);
      if node != NULL {
        Place(node, key);
      }
    }

    /** `avc_insert`: refuses an answer older than the latest notification. */
    method Insert(key: Key, avd: Decision) returns (node: int)
      requires Valid() && key.ssid != 0 && Answer(key, avd) in answers
      modifies `used, `lruHint, `slots, `next, `chains, `activeNodes, `keys, `avds, `creates, `freelist, `free, `origins, `stamps, `clock
      ensures Valid() && |next| == old(|next|)
      ensures node == NULL <==> avd.seqno < latestNotif || |next| == 0
      ensures node != NULL ==> 0 <= node < |next| && keys[node] == key && avds[node] == avd
                               && origins[node] == Answer(key, avd) && creates[node] == 0 && used[node]
                               && Newest(keys, stamps, node, key)
      ensures OthersKept(node) && Room(node)
    {
      hide Hash, Aged, Chained, ChainAt, FreeAt, TotalLength, Victim, SweepOrder, Marked, Backed;
      node := NULL;
      if avd.seqno < latestNotif {
        return;
      }
      ghost var marks, k;
      node, marks, k := Claim(key);
      if node == NULL {
        return;
      }
      OthersStayBacked(node);
      Fill(node, key, avd);
    }

    twostate lemma OthersStayBacked(node: int)
      requires old(|keys| == |avds| == |creates| == |origins| && Entries(NULL)) && OthersKept(node)
      requires answers == old(answers) && created == old(created) && latestNotif == old(latestNotif) && enforcing == old(enforcing)
      ensures Entries(node)
    {
      hide Backed;
    }

    /** The answer goes into the claimed entry. */
    method Fill(node: nat, key: Key, avd: Decision)
      requires Sound(-1, NULL, NULL) && node < |next| && Entries(node)
      requires keys[node] == key && creates[node] == 0 && Answer(key, avd) in answers && latestNotif <= avd.seqno
      modifies `avds, `origins
      ensures Valid() && avds == old(avds)[node := avd] && origins == old(origins)[node := Answer(key, avd)]
    {
      hide Hash, Aged, Chained, ChainAt, FreeAt, TotalLength, Backed;
      BackedFresh(key, avd, answers, created, latestNotif, enforcing);
      avds := avds[node := avd];
      origins := origins[node := Answer(key, avd)];
    }

    /** `avc_lookup`: the newest entry for the key, if it has decided all that is
        asked. */
    method Lookup(key: Key, requested: Vector) returns (node: int)
      requires Valid() && key.ssid != 0
      modifies `used
      ensures Valid()
      ensures node != NULL ==> Newest(keys, stamps, node, key) && Decided(keys, avds, node, key, requested) && 0 <= node < |used| && used[node]
      ensures node == NULL ==> forall n | Newest(keys, stamps, n, key) :: !Decided(keys, avds, n, key, requested)
    {
      hide Backed, Aged, Chained, FreeAt, TotalLength, Marked;
      node := Search(key);
      if node != NULL && !(requested <= avds[node].decided) {
        node := NULL;
      }
    }

    // ----------------------------------------------------------------
    // Flush
    // ----------------------------------------------------------------

    /** The first node of chain i, already unhooked from its slot, is freed. */
    method FlushNode(i: nat, node: nat)
      requires Sound(i, node, NULL) && i < SLOTS
      modifies `used, `next, `chains, `activeNodes, `keys, `avds, `creates, `freelist, `free
      ensures old(node < |next| && chains[i] != []) && Sound(i, old(next[node]), NULL) && |next| == old(|next|)
      ensures chains == old(chains[i := chains[i][1..]])
    {
      hide Hash, Aged, Chained, ChainAt, FreeAt, TotalLength;
      Headed(next, keys, slots, chains, i, node);
      Flush(next, keys, slots, chains, freelist, free, i, node);
      TotalLengthUpdate(chains, i, chains[i][1..]);
      AgedTail(chains, stamps, clock, i);
      keys := keys[node := NO_KEY];
      avds, creates, used := avds[node := NO_DECISION], creates[node := 0], used[node := false];
      next := next[node := freelist];
      freelist := node;
      activeNodes := activeNodes - 1;
      chains, free := chains[i := chains[i][1..]], [node] + free;
    }

    method FlushSlot(i: nat)
      requires Sound(-1, NULL, NULL) && i < SLOTS
      modifies `used, `slots, `next, `chains, `activeNodes, `keys, `avds, `creates, `freelist, `free
      ensures Sound(-1, NULL, NULL) && |next| == old(|next|) && chains == old(chains)[i := []]
    {
      hide Hash, Aged, Chained, FreeAt, TotalLength, Distinct;
      ChainOf(next, keys, slots, chains, -1, NULL, NULL, i);
      var node := slots[i];
      FromSlot(next, keys, slots, chains, i);
      while node != NULL
        invariant Sound(i, node, NULL) && |next| == old(|next|) && |chains| == SLOTS
        invariant chains == old(chains)[i := chains[i]]
        decreases |chains[i]|
      {
        ChainOf(next, keys, slots, chains, i, node, NULL, i);
        var tmp := node;
        node := next[node];
        FlushNode(i, tmp);
      }
      ChainOf(next, keys, slots, chains, i, node, NULL, i);
      ToSlot(next, keys, slots, chains, i);
      slots := slots[i := NULL];
    }

    /** `avc_reset`: every entry is cleared and every node is free. */
    method Reset()
      requires Sound(-1, NULL, NULL)
      modifies `used, `lruHint, `slots, `next, `chains, `activeNodes, `keys, `avds, `creates, `freelist, `free, `answers, `created
      ensures Valid() && |next| == old(|next|)
      ensures activeNodes == 0 && lruHint == 0 && answers == {} && created == {}
      ensures forall n | 0 <= n < |keys| :: keys[n] == NO_KEY
    {
      hide Hash, Aged, Chained, FreeAt, TotalLength;
      ChainOf(next, keys, slots, chains, -1, NULL, NULL, 0);
      for i := 0 to SLOTS
        invariant Sound(-1, NULL, NULL) && |next| == old(|next|) && |chains| == SLOTS
        invariant forall h | 0 <= h < i :: chains[h] == []
      {
        FlushSlot(i);
      }
      lruHint := 0;
      answers, created := {}, {};
      AllEmpty(chains);
      forall n | 0 <= n < |keys|
        ensures keys[n] == NO_KEY
      {
        Everywhere(next, keys, slots, chains, freelist, free, n);
        OnFree(next, keys, freelist, free, NULL);
      }
    }

    /** `avc_ss_reset` */
    method SsReset(seqno: nat)
      requires Sound(-1, NULL, NULL)
      modifies this
      ensures Valid() && |next| == old(|next|) && enforcing == old(enforcing)
      ensures answers == {} && created == {} && activeNodes == 0
      ensures latestNotif == if seqno > old(latestNotif) then seqno else old(latestNotif)
    {
      hide Aged, Chained, FreeAt, TotalLength;
      Reset();
      if seqno > latestNotif {
        latestNotif := seqno;
      }
    }

    /** `avc_process_setenforce`: entering enforcing mode flushes what was widened
        outside it. */
    method ProcessSetenforce(mode: bool)
      requires Valid()
      modifies this
      ensures Valid() && |next| == old(|next|) && latestNotif == old(latestNotif)
      ensures enforcing == if pinned then old(enforcing) else mode
      ensures if !pinned && mode then answers == {} && created == {}
              else answers == old(answers) && created == old(created) && OthersKept(NULL) && Room(NULL)
    {
      hide Aged, Chained, FreeAt, TotalLength;
      if pinned {
        return;
      }
      enforcing := mode;
      if mode {
        SsReset(0);
      }
    }

    /** `avc_process_policyload` */
    method ProcessPolicyload(seqno: nat)
      requires Valid()
      modifies this
      ensures Valid() && |next| == old(|next|) && enforcing == old(enforcing)
      ensures answers == {} && created == {}
      ensures latestNotif == if seqno > old(latestNotif) then seqno else old(latestNotif)
    {
      SsReset(seqno);
    }

    // ----------------------------------------------------------------
    // Queries
    // ----------------------------------------------------------------

    /** The entry to decide from: the caller's own reference if it still fits, else a
        cached one, else a new one from the server's reply. */
    method Obtain(key: Key, requested: Vector, ref: int, reply: Reply) returns (node: int, asked: bool)
      requires Valid() && key.ssid != 0
      requires ref == NULL || 0 <= ref < |next|
      modifies this
      ensures Valid() && |next| == old(|next|) && enforcing == old(enforcing) && latestNotif == old(latestNotif)
      ensures created == old(created) && asked == old(Missed(keys, stamps, avds, ref, key, requested))
      ensures answers == old(answers) + (if asked && reply.Answered? then {Answer(key, reply.avd)} else {})
      ensures node != NULL ==> 0 <= node < |keys| && keys[node] == key && 0 <= node < |used| && used[node]
      ensures node == NULL <==> asked && (reply.Failed? || reply.avd.seqno < latestNotif || |next| == 0)
      ensures asked && node != NULL ==> origins[node] == Answer(key, reply.avd) && avds[node] == reply.avd && creates[node] == 0
                                        && Newest(keys, stamps, node, key)
      ensures OthersKept(if asked then node else NULL) && KeepsSaved(old(Snap()), Snap(), |next|, asked, key)
      ensures !asked ==>
        && keys == old(keys) && avds == old(avds) && origins == old(origins) && creates == old(creates)
        && Decided(keys, avds, node, key, requested)
        && if Decided(keys, avds, ref, key, requested) then node == ref else Newest(keys, stamps, node, key)
    {
      hide Aged, Chained, FreeAt, TotalLength, Backed, KeepsSaved;
      NothingClaimed(Snap(), |next|, key);
      asked := false;
      if ref != NULL && keys[ref] == key && requested <= avds[ref].decided {
        used := used[ref := true];
        return ref, false;
      }
      assert !Decided(keys, avds, ref, key, requested);
      node := Lookup(key, requested);
      if node == NULL {
        asked := true;
        node := Ask(key, reply);
      }
    }

    /** A miss: the server's answer, if it gives one, goes into a new entry. */
    method Ask(key: Key, reply: Reply) returns (node: int)
      requires Valid() && key.ssid != 0
      modifies this
      ensures Valid() && |next| == old(|next|) && enforcing == old(enforcing) && latestNotif == old(latestNotif)
      ensures created == old(created)
      ensures answers == old(answers) + (if reply.Answered? then {Answer(key, reply.avd)} else {})
      ensures node == NULL <==> reply.Failed? || reply.avd.seqno < latestNotif || |next| == 0
      ensures node != NULL ==> 0 <= node < |next| && keys[node] == key && avds[node] == reply.avd
                               && origins[node] == Answer(key, reply.avd) && creates[node] == 0 && used[node]
                               && Newest(keys, stamps, node, key)
      ensures OthersKept(node) && KeepsSaved(old(Snap()), Snap(), |next|, true, key)
    {
      hide Aged, Chained, FreeAt, TotalLength, Backed;
      node := NULL;
      if reply.Answered? {
        Learn(Answer(key, reply.avd));
        node := Insert(key, reply.avd);
      }
    }

    /** The server has answered. */
    ghost method Learn(a: Answer)
      requires Valid()
      modifies `answers
      ensures Valid() && answers == old(answers) + {a}
    {
      hide Aged, Chained, FreeAt, TotalLength;
      forall n | 0 <= n < |keys|
        ensures Backed(keys[n], avds[n], creates[n], origins[n], answers + {a}, created, latestNotif, enforcing)
      {
        BackedMonotone(keys[n], avds[n], creates[n], origins[n], answers, created, latestNotif, enforcing, answers + {a}, created);
      }
      answers := answers + {a};
    }

    /** The verdict on an entry: widened where it does not bind. */
    method Decide(node: nat, key: Key, requested: Vector) returns (granted: bool)
      requires Valid() && node < |keys| && keys[node] == key && key.ssid != 0
      modifies `avds
      ensures Valid() && |next| == old(|next|)
      ensures origins[node] in answers && origins[node].key == key
      ensures granted && enforcing ==> Covers(origins[node], key, requested, latestNotif)
      ensures !granted ==> enforcing && Denies(origins[node], key, requested)
      ensures var avd := old(avds[node]);
              && (granted <==> Allows(avd, requested, enforcing))
              && avds == old(avds)[node := avd.(allowed := if granted then avd.allowed + requested else avd.allowed)]
    {
      hide Aged, Chained, FreeAt, TotalLength;
      assert Backed(keys[node], avds[node], creates[node], origins[node], answers, created, latestNotif, enforcing);
      var avd := avds[node];
      granted := requested != {} && requested <= avd.allowed;
      assert avds[node := avd] == avds && (granted ==> avd.allowed + requested == avd.allowed);
      if !granted && (!enforcing || avd.permissive) {
        BackedWiden(keys[node], avd, creates[node], origins[node], answers, created, latestNotif, enforcing, requested);
        avds := avds[node := avd.(allowed := avd.allowed + requested)];
        granted := true;
      }
    }

    /** `avc_has_perm_noaudit`: in enforcing mode a grant rests on an answer that
        the server gave for that very key since the last flush; a refusal needs one too,
        or a server that gives no usable answer. */
    method HasPermNoaudit(key: Key, requested: Vector, ref: int, reply: Reply)
      returns (granted: bool, ref': int, asked: bool)
      requires Valid() && key.ssid != 0
      requires ref == NULL || 0 <= ref < |next|
      modifies this
      ensures Valid() && |next| == old(|next|) && enforcing == old(enforcing) && latestNotif == old(latestNotif)
      ensures created == old(created) && asked == old(Missed(keys, stamps, avds, ref, key, requested))
      ensures answers == old(answers) + (if asked && reply.Answered? then {Answer(key, reply.avd)} else {})
      ensures ref' == NULL || 0 <= ref' < |next|
      ensures !asked ==>
        && keys == old(keys) && old(Decided(keys, avds, ref', key, requested))
        && (if old(Decided(keys, avds, ref, key, requested)) then ref' == ref else old(Newest(keys, stamps, ref', key)))
        && (granted <==> Allows(old(avds)[ref'], requested, enforcing))
      ensures asked ==>
        && (granted <==> ServerAllows(reply, requested, latestNotif, enforcing, |next|))
        && (if reply.Failed? || reply.avd.seqno < latestNotif || |next| == 0 then ref' == ref else ref' != NULL && keys[ref'] == key)
      ensures granted && enforcing ==> exists a | a in answers :: Covers(a, key, requested, latestNotif)
      ensures !granted ==> Excused(answers, key, requested, asked, reply, latestNotif, enforcing, |next|)
      ensures !asked ==> exists a | a in old(answers) :: a.key == key && requested <= a.avd.decided
      ensures KeepsSaved(old(Snap()), Snap(), |next|, asked, key)
    {
      hide Aged, Chained, FreeAt, TotalLength, Backed, KeepsSaved;
      ref' := ref;
      var node;
      node, asked := Obtain(key, requested, ref, reply);
      if node == NULL {
        granted := reply.Failed? && reply.invalid && !enforcing;
        return;
      }
      ref' := node;
      DecisionBacked(node);
      granted := Decide(node, key, requested);
    }

    lemma DecisionBacked(node: nat)
      requires Valid() && node < |keys| && keys[node].ssid != 0
      ensures origins[node] in answers && origins[node].key == keys[node] && origins[node].avd.decided == avds[node].decided
    {
      assert Backed(keys[node], avds[node], creates[node], origins[node], answers, created, latestNotif, enforcing);
    }

    ghost function Snap(): Snapshot
      reads this
    {
      Snapshot(keys, stamps, creates, activeNodes)
    }

    /** `avc_compute_create`: the identifier was computed for that very key since the
        last flush, and it is saved in the newest entry for the key. `sid` is the
        server's reply, 0 for a failure. */
    method ComputeCreate(key: Key, reply: Reply, sid: Sid) returns (newsid: Sid, asked: bool, ghost node: int)
      requires Valid() && key.ssid != 0
      modifies this
      ensures Valid() && |next| == old(|next|) && enforcing == old(enforcing) && latestNotif == old(latestNotif)
      ensures old(created) <= created <= old(created) + (if sid != 0 then {(key, sid)} else {})
      ensures asked == old(Missed(keys, stamps, avds, NULL, key, {}))
      ensures answers == old(answers) + (if asked && reply.Answered? then {Answer(key, reply.avd)} else {})
      ensures newsid != 0 ==> (key, newsid) in created
      ensures newsid != 0 ==> Newest(keys, stamps, node, key) && 0 <= node < |creates| && creates[node] == newsid
      ensures |creates| == old(|creates|) && forall n | 0 <= n < |creates| && n != node :: creates[n] == old(creates)[n]
      ensures forall n | old(Newest(keys, stamps, n, key)) :: newsid == if old(creates)[n] != 0 then old(creates)[n] else sid
      ensures asked ==> newsid == if reply.Failed? || reply.avd.seqno < latestNotif || |next| == 0 then 0 else sid
      ensures KeepsSaved(old(Snap()), Snap(), |next|, asked, key)
    {
      hide Aged, Chained, FreeAt, TotalLength, Backed, KeepsSaved;
      var cur;
      cur, asked := Obtain(key, {}, NULL, reply);
      newsid, node := 0, cur;
      assert forall n | old(Newest(keys, stamps, n, key)) :: old(Decided(keys, avds, n, key, {}));
      if cur == NULL {
        return;
      }
      newsid := creates[cur];
      if newsid == 0 {
        newsid := sid;
        if sid != 0 {
          SaveKeeps(old(Snap()), Snap(), |next|, asked, key, cur, sid);
          SaveCreate(cur, sid);
        }
      } else {
        SavedCreate(cur);
      }
    }

    method SaveCreate(node: nat, sid: Sid)
      requires Valid() && node < |keys| && sid != 0
      modifies `creates, `created
      ensures Valid() && created == old(created) + {(keys[node], sid)} && creates == old(creates)[node := sid]
    {
      hide Aged, Chained, FreeAt, TotalLength;
      ghost var more := created + {(keys[node], sid)};
      forall n | 0 <= n < |keys|
        ensures Backed(keys[n], avds[n], creates[n], origins[n], answers, more, latestNotif, enforcing)
      {
        BackedMonotone(keys[n], avds[n], creates[n], origins[n], answers, created, latestNotif, enforcing, answers, more);
      }
      creates := creates[node := sid];
      created := more;
    }

    lemma Sizes()
      requires Valid()
      ensures |keys| == |creates| == |stamps|
    {
    }

    lemma SavedCreate(node: nat)
      requires Valid() && node < |keys| && keys[node].ssid != 0 && creates[node] != 0
      ensures (keys[node], creates[node]) in created
    {
      assert Backed(keys[node], avds[node], creates[node], origins[node], answers, created, latestNotif, enforcing);
    }

    /** The part of `avc_init_internal` that sets the cache up with the n nodes it
        got, in the given mode. */
    constructor (n: nat, mode: bool, pin: bool)
      ensures Valid() && |next| == n && activeNodes == 0 && latestNotif == 0
      ensures enforcing == mode && pinned == pin && answers == {} && created == {}
    {
      hide Aged, Chained, FreeAt, TotalLength, Backed;
      slots := seq(SLOTS, _ => NULL);
      next, keys, avds, creates, used := [], [], [], [], [];
      freelist, lruHint, activeNodes, latestNotif := NULL, 0, 0, 0;
      enforcing, pinned := mode, pin;
      chains := seq(SLOTS, _ => []);
      free, origins, answers, created, stamps, clock := [], [], {}, {}, [], 1;
      new;
      Allocate(n);
    }

    method Allocate(n: nat)
      requires next == [] && keys == [] && avds == [] && creates == [] && used == [] && origins == [] && stamps == []
      requires slots == seq(SLOTS, _ => NULL) && chains == seq(SLOTS, _ => []) && freelist == NULL && free == []
      requires lruHint == activeNodes == 0 && clock == 1
      modifies `next, `keys, `avds, `creates, `used, `freelist, `free, `origins, `stamps
      ensures Valid() && |next| == n
    {
      hide Aged, Chained, FreeAt, TotalLength, Backed;
      NothingChained(slots, chains);
      for i := 0 to n
        invariant Valid() && |next| == i
      {
        AddNode();
      }
    }

    method AddNode()
      requires Valid()
      modifies `next, `keys, `avds, `creates, `used, `freelist, `free, `origins, `stamps
      ensures Valid() && |next| == old(|next|) + 1
    {
      hide Aged, Chained, FreeAt, TotalLength;
      Grow(next, keys, slots, chains, freelist, free);
      AgedGrow(chains, stamps, clock);
      freelist, next := |next|, next + [freelist];
      keys, avds, creates, used := keys + [NO_KEY], avds + [NO_DECISION], creates + [0], used + [false];
      free, origins, stamps := [freelist] + free, origins + [Answer(NO_KEY, NO_DECISION)], stamps + [0];
    }
  }

  // ------------------------------------------------------------------
  // Whole runs
  // ------------------------------------------------------------------

  /** `who` numbers the entry references that callers keep between their queries. */
  datatype Event =
    | Query(key: Key, requested: Vector, who: nat, reply: Reply)
    | Create(key: Key, reply: Reply, sid: Sid)
    | Setenforce(mode: bool)
    | Policyload(seqno: nat)

  function ModeAfter(mode: bool, e: Event, pinned: bool): bool {
    if e.Setenforce? && !pinned then e.mode else mode
  }

  function LoadAfter(latest: nat, e: Event): nat {
    if e.Policyload? && e.seqno > latest then e.seqno else latest
  }

  function GivenAfter(given: set<Answer>, e: Event, asked: bool, pinned: bool): set<Answer> {
    if Flushes(e, pinned) then {}
    else if (e.Query? || e.Create?) && asked && e.reply.Answered? then given + {Answer(e.key, e.reply.avd)}
    else given
  }

  predicate Flushes(e: Event, pinned: bool) {
    e.Policyload? || (e.Setenforce? && e.mode && !pinned)
  }

  function KeyOf(e: Event): Key {
    if e.Query? || e.Create? then e.key else NO_KEY
  }

  /** The mode after the history. */
  ghost function Mode(events: seq<Event>, pinned: bool, start: bool): bool {
    if events == [] then start else ModeAfter(Mode(events[..|events| - 1], pinned, start), events[|events| - 1], pinned)
  }

  /** The newest policy load of the history. */
  ghost function LastLoad(events: seq<Event>): nat {
    if events == [] then 0 else LoadAfter(LastLoad(events[..|events| - 1]), events[|events| - 1])
  }

  /** What the server answered, where it was asked, since the last policy load or
      switch to enforcing mode. */
  ghost function Given(events: seq<Event>, asked: seq<bool>, pinned: bool): set<Answer>
    requires |asked| == |events|
  {
    if events == [] then {}
    else
      var n := |events| - 1;
      GivenAfter(Given(events[..n], asked[..n], pinned), events[n], asked[n], pinned)
  }

  /** The promise about the verdict on event k of a run: a grant that binds rests on
      an answer, and so does a refusal and a verdict given without asking. */
  ghost predicate Justified(events: seq<Event>, asked: seq<bool>, k: nat, granted: bool, pinned: bool, start: bool, size: nat)
    requires k < |events| == |asked|
  {
    events[k].Query? ==>
      var e, mode, latest := events[k], Mode(events[..k], pinned, start), LastLoad(events[..k]);
      Rests(Given(events[..k + 1], asked[..k + 1], pinned), e.key, e.requested, asked[k], e.reply, granted, latest, mode, size)
  }

  ghost predicate Rests(given: set<Answer>, key: Key, requested: Vector, asked: bool, reply: Reply,
                        granted: bool, latest: nat, mode: bool, size: nat) {
    && (granted && mode ==> exists a | a in given :: Covers(a, key, requested, latest))
    && (!granted ==> Excused(given, key, requested, asked, reply, latest, mode, size))
    && (!asked ==> exists a | a in given :: a.key == key && requested <= a.avd.decided)
    && (asked ==> (granted <==> ServerAllows(reply, requested, latest, mode, size)))
  }

  lemma JustifiedLater(events: seq<Event>, asked: seq<bool>, more: seq<bool>, k: nat, granted: bool, pinned: bool, start: bool, size: nat)
    requires k < |asked| <= |events| && |more| == |events| && asked <= more
    requires Justified(events[..|asked|], asked, k, granted, pinned, start, size)
    ensures Justified(events, more, k, granted, pinned, start, size)
  {
    hide Rests, Given, Mode, LastLoad;
    var n := |asked|;
    assert events[..n][..k] == events[..k] && events[..n][..k + 1] == events[..k + 1] && more[..k + 1] == asked[..k + 1];
  }

  /** One event; `ref` is the reference that the caller of a query keeps. */
  method Play(cache: Cache, e: Event, ref: int) returns (granted: bool, ref': int, asked: bool)
    requires cache.Valid() && (ref == NULL || 0 <= ref < |cache.next|)
    requires e.Query? || e.Create? ==> e.key.ssid != 0
    modifies cache
    ensures cache.Valid() && |cache.next| == old(|cache.next|) && (ref' == NULL || 0 <= ref' < |cache.next|)
    ensures cache.enforcing == ModeAfter(old(cache.enforcing), e, cache.pinned)
    ensures cache.latestNotif == LoadAfter(old(cache.latestNotif), e)
    ensures cache.answers == GivenAfter(old(cache.answers), e, asked, cache.pinned)
    ensures e.Query? ==>
      Rests(cache.answers, e.key, e.requested, asked, e.reply, granted, old(cache.latestNotif), old(cache.enforcing), |cache.next|)
    ensures !Flushes(e, cache.pinned) ==> KeepsSaved(old(cache.Snap()), cache.Snap(), |cache.next|, asked, KeyOf(e))
  {
    hide Cache.Sound, Cache.Entries, Covers, Excused, ServerAllows, Rests, Missed, Decided, Newest, Allows;
    granted, ref', asked := false, ref, false;
    match e
    case Query(key, requested, _, reply) =>
      granted, ref', asked := cache.HasPermNoaudit(key, requested, ref, reply);
      QueryRests(cache.answers, key, requested, asked, reply, granted, cache.latestNotif, cache.enforcing, |cache.next|);
    case Create(key, reply, sid) =>
      var newsid;
      ghost var node;
      newsid, asked, node := cache.ComputeCreate(key, reply, sid);
    case Setenforce(mode) =>
      cache.Sizes();
      cache.ProcessSetenforce(mode);
    case Policyload(seqno) => cache.ProcessPolicyload(seqno);
  }

  /** Any run of queries, creations, mode changes and policy loads, callers keeping
      their references across all of them. */
  method Replay(size: nat, start: bool, pinned: bool, events: seq<Event>) returns (verdicts: seq<bool>, asked: seq<bool>)
    requires forall k | 0 <= k < |events| && (events[k].Query? || events[k].Create?) :: events[k].key.ssid != 0
    ensures |verdicts| == |asked| == |events|
    ensures forall k | 0 <= k < |events| :: Justified(events, asked, k, verdicts[k], pinned, start, size)
  {
    hide Cache.Valid, Justified, Rests, ModeAfter, LoadAfter, GivenAfter, Mode, LastLoad, Given;
    HistoryStart(pinned, start);
    var cache := new Cache(size, start, pinned);
    var refs: map<nat, int> := map[];
    verdicts, asked := [], [];
    for i := 0 to |events|
      invariant cache.Valid() && fresh(cache) && cache.pinned == pinned && |cache.next| == size
      invariant forall w | w in refs :: refs[w] == NULL || 0 <= refs[w] < size
      invariant cache.enforcing == Mode(events[..i], pinned, start) && cache.latestNotif == LastLoad(events[..i])
      invariant |verdicts| == |asked| == i && cache.answers == Given(events[..i], asked, pinned)
      invariant forall k | 0 <= k < i :: Justified(events[..i], asked, k, verdicts[k], pinned, start, size)
    {
      var e := events[i];
      var granted, ref, miss;
      ghost var before := asked;
      granted, ref, miss := Play(cache, e, if e.Query? && e.who in refs then refs[e.who] else NULL);
      if e.Query? {
        refs := refs[e.who := ref];
      }
      asked := asked + [miss];
      HistoryStep(events, i, before, miss, pinned, start);
      StillJustified(events, i, before, asked, verdicts, pinned, start, size);
      JustifiedNow(events, i, asked, granted, pinned, start, size);
      verdicts := verdicts + [granted];
    }
    assert events[..|events|] == events;
  }

  lemma HistoryStart(pinned: bool, start: bool)
    ensures Mode([], pinned, start) == start && LastLoad([]) == 0 && Given([], [], pinned) == {}
  {
  }

  lemma HistoryStep(events: seq<Event>, i: nat, asked: seq<bool>, miss: bool, pinned: bool, start: bool)
    requires i < |events| && |asked| == i
    ensures Mode(events[..i + 1], pinned, start) == ModeAfter(Mode(events[..i], pinned, start), events[i], pinned)
    ensures LastLoad(events[..i + 1]) == LoadAfter(LastLoad(events[..i]), events[i])
    ensures Given(events[..i + 1], asked + [miss], pinned) == GivenAfter(Given(events[..i], asked, pinned), events[i], miss, pinned)
  {
    assert events[..i + 1][..i] == events[..i] && (asked + [miss])[..i] == asked;
  }

  lemma QueryRests(answers: set<Answer>, key: Key, requested: Vector, asked: bool, reply: Reply,
                   granted: bool, latest: nat, mode: bool, size: nat)
    requires granted && mode ==> exists a | a in answers :: Covers(a, key, requested, latest)
    requires !granted ==> Excused(answers, key, requested, asked, reply, latest, mode, size)
    requires !asked ==> exists a | a in answers :: a.key == key && requested <= a.avd.decided
    requires asked ==> (granted <==> ServerAllows(reply, requested, latest, mode, size))
    ensures Rests(answers, key, requested, asked, reply, granted, latest, mode, size)
  {
  }

  lemma JustifiedNow(events: seq<Event>, i: nat, asked: seq<bool>, granted: bool, pinned: bool, start: bool, size: nat)
    requires i < |events| && |asked| == i + 1
    requires events[i].Query? ==>
      Rests(Given(events[..i + 1], asked, pinned), events[i].key, events[i].requested, asked[i], events[i].reply, granted,
            LastLoad(events[..i]), Mode(events[..i], pinned, start), size)
    ensures Justified(events[..i + 1], asked, i, granted, pinned, start, size)
  {
    hide Rests, Given, Mode, LastLoad;
    assert events[..i + 1][..i] == events[..i] && events[..i + 1][..i + 1] == events[..i + 1] && asked[..i + 1] == asked;
  }

  lemma StillJustified(events: seq<Event>, i: nat, asked: seq<bool>, more: seq<bool>, verdicts: seq<bool>, pinned: bool, start: bool, size: nat)
    requires i < |events| && |asked| == |verdicts| == i && |more| == i + 1 && asked <= more
    requires forall k | 0 <= k < i :: Justified(events[..i], asked, k, verdicts[k], pinned, start, size)
    ensures forall k | 0 <= k < i :: Justified(events[..i + 1], more, k, verdicts[k], pinned, start, size)
  {
    hide Justified;
    assert events[..i + 1][..i] == events[..i];
    forall k | 0 <= k < i
      ensures Justified(events[..i + 1], more, k, verdicts[k], pinned, start, size)
    {
      JustifiedLater(events[..i + 1], asked, more, k, verdicts[k], pinned, start, size);
    }
  }

  // ------------------------------------------------------------------
  // Saved identifiers
  // ------------------------------------------------------------------

  function Misses(asked: seq<bool>): nat {
    if asked == [] then 0 else Misses(asked[..|asked| - 1]) + if asked[|asked| - 1] then 1 else 0
  }

  /** Nothing in the run gives the entry for the key up: no flush, no other entry for
      the key, and room in the pool for every miss. */
  ghost predicate Undisturbed(events: seq<Event>, asked: seq<bool>, key: Key, pinned: bool, active: int, size: nat)
    requires |asked| == |events|
  {
    && (forall i | 0 <= i < |events| :: !Flushes(events[i], pinned) && (asked[i] ==> KeyOf(events[i]) != key))
    && active + Misses(asked) <= size
  }

  lemma UndisturbedSnoc(events: seq<Event>, i: nat, asked: seq<bool>, miss: bool, key: Key, pinned: bool, active: int, size: nat)
    requires i < |events| && |asked| == i
    ensures Undisturbed(events[..i + 1], asked + [miss], key, pinned, active, size) ==>
      && Undisturbed(events[..i], asked, key, pinned, active, size)
      && !Flushes(events[i], pinned) && (miss ==> KeyOf(events[i]) != key && active + Misses(asked) < size)
    ensures Misses(asked + [miss]) == Misses(asked) + if miss then 1 else 0
  {
    var e, a := events[..i + 1], asked + [miss];
    assert a[..i] == asked && (forall k | 0 <= k < i :: e[k] == events[..i][k] && a[k] == asked[k]) && e[i] == events[i] && a[i] == miss;
  }

  /** Two creations for one key, with any events between that do not disturb its entry:
      the second returns what the first did, whatever the server would say by then. */
  method CreateAgain(cache: Cache, key: Key, reply: Reply, sid: Sid, events: seq<Event>, reply': Reply, sid': Sid)
    returns (first: Sid, second: Sid, asked: seq<bool>)
    requires cache.Valid() && key.ssid != 0
    requires forall k | 0 <= k < |events| && (events[k].Query? || events[k].Create?) :: events[k].key.ssid != 0
    modifies cache
    ensures cache.Valid() && |asked| == |events|
    ensures first != 0 && Undisturbed(events, asked, key, cache.pinned, old(cache.activeNodes) + 1, |cache.next|) ==> second == first
  {
    hide Cache.Valid, KeepsSaved, Saved, Undisturbed, Newest, Missed, Rests, Misses, Flushes, GivenAfter, ModeAfter, LoadAfter;
    ghost var active, size, was := cache.activeNodes + 1, |cache.next|, cache.Snap();
    var miss;
    ghost var node;
    first, miss, node := cache.ComputeCreate(key, reply, sid);
    FirstSaved(was, cache.Snap(), size, miss, key, node, first);
    asked := [];
    var refs: map<nat, int> := map[];
    NoMisses();
    for i := 0 to |events|
      invariant cache.Valid() && |cache.next| == size && |asked| == i
      invariant forall w | w in refs :: refs[w] == NULL || 0 <= refs[w] < size
      invariant first != 0 && Undisturbed(events[..i], asked, key, cache.pinned, active, size) ==>
        Saved(cache.Snap(), node, key, first) && cache.activeNodes <= active + Misses(asked)
    {
      var e := events[i];
      var granted, ref;
      was := cache.Snap();
      granted, ref, miss := Play(cache, e, if e.Query? && e.who in refs then refs[e.who] else NULL);
      if e.Query? {
        refs := refs[e.who := ref];
      }
      UndisturbedSnoc(events, i, asked, miss, key, cache.pinned, active, size);
      if first != 0 && Undisturbed(events[..i + 1], asked + [miss], key, cache.pinned, active, size) {
        SavedStays(was, cache.Snap(), size, miss, KeyOf(e), node, key, first);
        Grown(was, cache.Snap(), size, miss, KeyOf(e));
      }
      asked := asked + [miss];
    }
    assert events[..|events|] == events;
    was := cache.Snap();
    ghost var last;
    second, miss, last := cache.ComputeCreate(key, reply', sid');
    if first != 0 && Undisturbed(events, asked, key, cache.pinned, active, size) {
      SavedIsNewest(was, node, key, first);
    }
  }

  lemma Grown(a: Snapshot, b: Snapshot, size: nat, asked: bool, key: Key)
    requires KeepsSaved(a, b, size, asked, key)
    ensures b.active <= a.active + (if asked then 1 else 0)
  {
  }

  lemma FirstSaved(a: Snapshot, b: Snapshot, size: nat, asked: bool, key: Key, n: int, v: Sid)
    requires KeepsSaved(a, b, size, asked, key)
    requires v != 0 ==> Newest(b.keys, b.stamps, n, key) && 0 <= n < |b.creates| && b.creates[n] == v
    ensures b.active <= a.active + 1 && (v != 0 ==> Saved(b, n, key, v))
  {
  }

  lemma SavedIsNewest(s: Snapshot, n: int, key: Key, v: Sid)
    requires Saved(s, n, key, v)
    ensures Newest(s.keys, s.stamps, n, key) && 0 <= n < |s.creates| && s.creates[n] == v
  {
  }

  lemma NoMisses()
    ensures Misses([]) == 0
  {
  }
}

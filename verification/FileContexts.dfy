/** The file-context backend of libselinux (label_file.h and label_file.c): exact
    paths moved behind patterns, stems shared between specifications, keys cleaned,
    and a lookup that scans backwards.

    The regular-expression engine is a parameter: a function from expression, key and
    the partial flag to a verdict. A failure to compile and a failure to match are
    the same verdict. */
module FileContexts {
  import opened Arithmetic
  import opened Wrappers
  import PathKeys

  datatype Spec = Spec(regex: string, context: string, mode: nat, stemId: int, hasMeta: bool)

  datatype Verdict = Match | PartialMatch | NoMatch | Error

  type Engine = (string, string, bool) -> Verdict

  const NONE: string := "<<none>>"

  // ------------------------------------------------------------------
  // Meta characters
  // ------------------------------------------------------------------

  predicate IsMeta(c: char) {
    c in {'.', '^', '$', '?', '*', '+', '|', '[', '(', '{'}
  }

  /** How many backslashes stand directly before position i. */
  function Backslashes(s: string, i: nat): nat
    requires i <= |s|
  {
    if i > 0 && s[i - 1] == '\\' then Backslashes(s, i - 1) + 1 else 0
  }

  /** A meta character that no backslash takes the meaning from. */
  predicate LiveMeta(s: string, i: nat) {
    i < |s| && IsMeta(s[i]) && Backslashes(s, i) % 2 == 0
  }

  /** `spec_hasMetaChars` */
  method HasMetaChars(s: string) returns (hasMeta: bool, prefixLen: nat)
    ensures hasMeta <==> exists i :: LiveMeta(s, i)
    ensures prefixLen <= |s| && (forall i | 0 <= i < prefixLen :: !LiveMeta(s, i))
    ensures if hasMeta then LiveMeta(s, prefixLen) else prefixLen == |s|
  {
    var c := 0;
    while c < |s|
      invariant c <= |s| + 1 && (c <= |s| ==> Backslashes(s, c) % 2 == 0)
      invariant forall i | 0 <= i < c && i < |s| :: !LiveMeta(s, i)
    {
      if s[c] in ".^$?*+|[({" {
        assert LiveMeta(s, c);
        return true, c;
      }
      if s[c] == '\\' {
        assert c + 1 <= |s| ==> Backslashes(s, c + 1) == Backslashes(s, c) + 1;
        c := c + 1;
      }
      c := c + 1;
    }
    return false, |s|;
  }

  // ------------------------------------------------------------------
  // Exact paths last
  // ------------------------------------------------------------------

  function Filter(specs: seq<Spec>, meta: bool): seq<Spec> {
    if specs == [] then []
    else
      var n := |specs| - 1;
      if specs[n].hasMeta == meta then Filter(specs[..n], meta) + [specs[n]] else Filter(specs[..n], meta)
  }

  /** Patterns in load order, then exact paths in load order. */
  function Partitioned(specs: seq<Spec>): seq<Spec> {
    Filter(specs, true) + Filter(specs, false)
  }

  ghost function Reversed(s: seq<Spec>): seq<Spec> {
    if s == [] then [] else [s[|s| - 1]] + Reversed(s[..|s| - 1])
  }

  lemma {:induction false} ReversedAt(s: seq<Spec>, k: nat)
    requires k < |s|
    ensures |Reversed(s)| == |s| && Reversed(s)[k] == s[|s| - 1 - k]
  {
    if k > 0 {
      ReversedAt(s[..|s| - 1], k - 1);
    } else if |s| > 1 {
      ReversedAt(s[..|s| - 1], 0);
    }
  }

  lemma ReversedSnoc(s: seq<Spec>, x: Spec)
    ensures Reversed(s + [x]) == [x] + Reversed(s)
  {
    assert (s + [x])[..|s|] == s;
  }

  lemma FilterNone()
    ensures Filter([], true) == [] == Filter([], false) && Reversed([]) == []
  {
  }

  lemma FilterSnoc(specs: seq<Spec>, i: nat, meta: bool)
    requires i < |specs|
    ensures Filter(specs[..i + 1], meta)
         == if specs[i].hasMeta == meta then Filter(specs[..i], meta) + [specs[i]] else Filter(specs[..i], meta)
  {
    assert specs[..i + 1][..i] == specs[..i];
  }

  /** The first loop of `sort_specs`: patterns from the front, exact paths from the
      back. */
  method SplitEnds(specs: array<Spec>) returns (copy: array<Spec>, front: nat)
    ensures fresh(copy) && copy.Length == specs.Length
    ensures front <= copy.Length
    ensures copy[..front] == Filter(specs[..], true) && copy[front..] == Reversed(Filter(specs[..], false))
  {
    hide Filter, Reversed;
    var n := specs.Length;
    FilterNone();
    copy := new Spec[n](_ => Spec("", "", 0, -1, false));
    front := 0;
    var back := n;
    for i := 0 to n
      invariant front + (n - back) == i && front <= back <= n
      invariant copy[..front] == Filter(specs[..i], true)
      invariant copy[back..] == Reversed(Filter(specs[..i], false))
    {
      FilterSnoc(specs[..], i, true);
      FilterSnoc(specs[..], i, false);
      assert specs[..][..i] == specs[..i] && specs[..][..i + 1] == specs[..i + 1];
      ghost var exact, head, tail := Filter(specs[..i], false), copy[..front], copy[back..];
      if specs[i].hasMeta {
        copy[front] := specs[i];
        front := front + 1;
        assert copy[..front] == head + [specs[i]] && copy[back..] == tail;
      } else {
        back := back - 1;
        copy[back] := specs[i];
        assert copy[..front] == head && copy[back..] == [specs[i]] + tail;
        ReversedSnoc(exact, specs[i]);
      }
    }
    assert specs[..n] == specs[..];
  }

  /** The second loop: a stretch of the array is turned round. */
  method TurnRound(copy: array<Spec>, from: nat)
    requires from <= copy.Length
    modifies copy
    ensures copy[..from] == old(copy[..from])
    ensures copy[from..] == Reversed(old(copy[from..]))
  {
    hide Reversed;
    var n := copy.Length;
    ghost var was := copy[..];
    var front, back := from, n - 1;
    while front < back
      invariant from <= front && back < n && front - from == n - 1 - back && front <= back + 1
      invariant forall k {:trigger copy[k]} | 0 <= k < n && (k < from || front <= k <= back) :: copy[k] == was[k]
      invariant forall k {:trigger copy[k]} | from <= k < front || back < k < n :: copy[k] == was[n - 1 + from - k]
    {
      copy[front], copy[back] := copy[back], copy[front];
      front, back := front + 1, back - 1;
    }
    ReversedIs(was[from..], copy[from..]);
  }

  lemma ReversedIs(s: seq<Spec>, r: seq<Spec>)
    requires |r| == |s| && forall k | 0 <= k < |s| :: r[k] == s[|s| - 1 - k]
    ensures r == Reversed(s)
  {
    if s != [] {
      ReversedAt(s, 0);
    }
    forall k | 0 <= k < |s|
      ensures |Reversed(s)| == |s| && r[k] == Reversed(s)[k]
    {
      ReversedAt(s, k);
    }
  }

  lemma {:induction false} ReversedTwice(s: seq<Spec>)
    ensures Reversed(Reversed(s)) == s
  {
    if s != [] {
      ReversedAt(s, 0);
      forall k | 0 <= k < |s|
        ensures |Reversed(Reversed(s))| == |s| && Reversed(Reversed(s))[k] == s[k]
      {
        ReversedAt(Reversed(s), k);
        ReversedAt(s, |s| - 1 - k);
      }
    }
  }

  /** `sort_specs`: a stable partition. */
  method SortSpecs(specs: array<Spec>) returns (copy: array<Spec>)
    ensures fresh(copy) && copy[..] == Partitioned(specs[..])
  {
    var front;
    copy, front := SplitEnds(specs);
    ReversedTwice(Filter(specs[..], false));
    TurnRound(copy, front);
    assert copy[..] == copy[..front] + copy[front..];
  }

  // ------------------------------------------------------------------
  // The backward scan
  // ------------------------------------------------------------------

  datatype Query = Query(key: string, mode: nat, partial: bool, fileStem: int)

  datatype Effect = Ignored | Chosen | Ends

  /** What one specification does to a scan; `filtered` is the test of stems. */
  function EffectOf(rx: Engine, s: Spec, q: Query, filtered: bool): Effect {
    if filtered && !q.partial && s.stemId != -1 && s.stemId != q.fileStem then Ignored
    else if q.mode != 0 && s.mode != 0 && q.mode != s.mode then Ignored
    else
      var v := rx(s.regex, q.key, q.partial);
      if v == NoMatch then Ignored
      else if v == Match || (q.partial && v == PartialMatch) then
        if s.context == NONE then Ends else Chosen
      else Ends
  }

  /** The positions a scan reports, last specification first: all until one that
      ends the scan, or only the first. */
  function Scan(rx: Engine, specs: seq<Spec>, q: Query, filtered: bool, many: bool): seq<nat> {
    if specs == [] then []
    else
      var n := |specs| - 1;
      match EffectOf(rx, specs[n], q, filtered)
      case Ignored => Scan(rx, specs[..n], q, filtered, many)
      case Ends => []
      case Chosen => [n] + if many then Scan(rx, specs[..n], q, filtered, many) else []
  }

  lemma ScanNothing(rx: Engine, q: Query, many: bool)
    ensures Scan(rx, [], q, true, many) == []
  {
  }

  lemma ScanStep(rx: Engine, specs: seq<Spec>, i: nat, q: Query, many: bool)
    requires i < |specs|
    ensures Scan(rx, specs[..i + 1], q, true, many) ==
      match EffectOf(rx, specs[i], q, true)
      case Ignored => Scan(rx, specs[..i], q, true, many)
      case Ends => []
      case Chosen => [i] + if many then Scan(rx, specs[..i], q, true, many) else []
  {
    assert specs[..i + 1][..i] == specs[..i];
  }

  /** What was found from position i on, and what a scan of the rest would find. */
  ghost predicate Found(rx: Engine, specs: seq<Spec>, q: Query, many: bool, i: nat, result: seq<nat>) {
    i <= |specs| && (many || result == []) && result + Scan(rx, specs[..i], q, true, many) == Scan(rx, specs, q, true, many)
  }

  lemma FoundStep(rx: Engine, specs: seq<Spec>, q: Query, many: bool, i: nat, result: seq<nat>)
    requires Found(rx, specs, q, many, i + 1, result)
    ensures match EffectOf(rx, specs[i], q, true)
            case Ignored => Found(rx, specs, q, many, i, result)
            case Ends => result == Scan(rx, specs, q, true, many)
            case Chosen => if many then Found(rx, specs, q, many, i, result + [i]) else [i] == Scan(rx, specs, q, true, many)
  {
    hide EffectOf, Scan;
    ScanStep(rx, specs, i, q, many);
  }

  lemma FoundAll(rx: Engine, specs: seq<Spec>, q: Query, many: bool)
    ensures Found(rx, specs, q, many, |specs|, [])
    ensures forall result | Found(rx, specs, q, many, 0, result) :: result == Scan(rx, specs, q, true, many)
  {
    hide EffectOf, Scan;
    ScanNothing(rx, q, many);
    assert specs[..|specs|] == specs && specs[..0] == [];
  }

  /** The loop of `lookup_all`. */
  method ScanBack(rx: Engine, specs: seq<Spec>, q: Query, many: bool) returns (result: seq<nat>)
    ensures result == Scan(rx, specs, q, true, many)
  {
    hide Found, Scan;
    FoundAll(rx, specs, q, many);
    result := [];
    var i := |specs|;
    while i > 0
      invariant 0 <= i <= |specs| && Found(rx, specs, q, many, i, result) && (many || result == [])
    {
      i := i - 1;
      FoundStep(rx, specs, q, many, i, result);
      var s := specs[i];
      var stemMatches := s.stemId == -1 || s.stemId == q.fileStem;
      if (q.partial || stemMatches) && (q.mode == 0 || s.mode == 0 || q.mode == s.mode) {
        var rc := rx(s.regex, q.key, q.partial);
        if rc == Match || (q.partial && rc == PartialMatch) {
          if s.context == NONE {
            return;
          }
          result := result + [i];
          if many {
            continue;
          }
          return;
        }
        if rc == NoMatch {
          continue;
        }
        return;
      }
    }
  }

  /** All matches: every chosen specification behind which nothing ends the scan. */
  lemma {:induction false} ScanAllMeans(rx: Engine, specs: seq<Spec>, q: Query, filtered: bool, i: nat)
    ensures i in Scan(rx, specs, q, filtered, true) <==>
      && i < |specs| && EffectOf(rx, specs[i], q, filtered).Chosen?
      && forall j | i < j < |specs| :: !EffectOf(rx, specs[j], q, filtered).Ends?
    decreases |specs|
  {
    if specs != [] {
      ScanAllMeans(rx, specs[..|specs| - 1], q, filtered, i);
    }
  }

  /** Ordinary lookup reports the first of all matches. */
  lemma {:induction false} ScanOneIsFirst(rx: Engine, specs: seq<Spec>, q: Query, filtered: bool)
    ensures Scan(rx, specs, q, filtered, false) ==
      if Scan(rx, specs, q, filtered, true) == [] then [] else [Scan(rx, specs, q, filtered, true)[0]]
    ensures forall k | 0 <= k < |Scan(rx, specs, q, filtered, true)| :: Scan(rx, specs, q, filtered, true)[k] < |specs|
    decreases |specs|
  {
    if specs != [] {
      ScanOneIsFirst(rx, specs[..|specs| - 1], q, filtered);
    }
  }

  /** The specification that ordinary lookup answers with. */
  ghost function Lookup(rx: Engine, specs: seq<Spec>, q: Query, filtered: bool): Option<Spec> {
    var r := Scan(rx, specs, q, filtered, false);
    ScanOneIsFirst(rx, specs, q, filtered);
    if r == [] then None else Some(specs[r[0]])
  }

  /** The specification that decides: no later one of its kind has a say, and for a
      pattern no exact path has. */
  ghost predicate Wins(rx: Engine, loaded: seq<Spec>, q: Query, i: nat) {
    && i < |loaded| && !EffectOf(rx, loaded[i], q, true).Ignored?
    && (forall j | i < j < |loaded| && loaded[j].hasMeta == loaded[i].hasMeta :: EffectOf(rx, loaded[j], q, true).Ignored?)
    && (loaded[i].hasMeta ==> forall j | 0 <= j < |loaded| && !loaded[j].hasMeta :: EffectOf(rx, loaded[j], q, true).Ignored?)
  }

  /** The last specification in sequence order that has a say. */
  ghost function LastSay(rx: Engine, specs: seq<Spec>, q: Query): Option<Spec> {
    if specs == [] then None
    else
      var n := |specs| - 1;
      if EffectOf(rx, specs[n], q, true).Ignored? then LastSay(rx, specs[..n], q) else Some(specs[n])
  }

  lemma {:induction false} LookupIsLastSay(rx: Engine, specs: seq<Spec>, q: Query)
    ensures Lookup(rx, specs, q, true) ==
      var last := LastSay(rx, specs, q);
      if last.Some? && EffectOf(rx, last.value, q, true).Chosen? then last else None
    decreases |specs|
  {
    if specs != [] {
      LookupIsLastSay(rx, specs[..|specs| - 1], q);
      ScanOneIsFirst(rx, specs[..|specs| - 1], q, true);
    }
  }

  lemma {:induction false} LastSayAppend(rx: Engine, a: seq<Spec>, b: seq<Spec>, q: Query)
    ensures LastSay(rx, a + b, q) == if LastSay(rx, b, q).Some? then LastSay(rx, b, q) else LastSay(rx, a, q)
    decreases |b|
  {
    if b == [] {
      assert a + b == a;
    } else {
      assert (a + b)[..|a + b| - 1] == a + b[..|b| - 1];
      LastSayAppend(rx, a, b[..|b| - 1], q);
    }
  }

  lemma {:induction false} LastSayOfKind(rx: Engine, specs: seq<Spec>, meta: bool, q: Query, i: nat)
    requires i < |specs| && specs[i].hasMeta == meta && !EffectOf(rx, specs[i], q, true).Ignored?
    requires forall j | i < j < |specs| && specs[j].hasMeta == meta :: EffectOf(rx, specs[j], q, true).Ignored?
    ensures LastSay(rx, Filter(specs, meta), q) == Some(specs[i])
    decreases |specs|
  {
    var n := |specs| - 1;
    if specs[n].hasMeta == meta {
      assert (Filter(specs[..n], meta) + [specs[n]])[..|Filter(specs[..n], meta)|] == Filter(specs[..n], meta);
    }
    if i < n {
      LastSayOfKind(rx, specs[..n], meta, q, i);
    }
  }

  lemma {:induction false} NoSayOfKind(rx: Engine, specs: seq<Spec>, meta: bool, q: Query)
    requires forall j | 0 <= j < |specs| && specs[j].hasMeta == meta :: EffectOf(rx, specs[j], q, true).Ignored?
    ensures LastSay(rx, Filter(specs, meta), q) == None
    decreases |specs|
  {
    if specs != [] {
      var n := |specs| - 1;
      NoSayOfKind(rx, specs[..n], meta, q);
      if specs[n].hasMeta == meta {
        assert (Filter(specs[..n], meta) + [specs[n]])[..|Filter(specs[..n], meta)|] == Filter(specs[..n], meta);
      }
    }
  }

  /** In terms of load order: the winner's context, or none if its context is
      `<<none>>` or its expression fails. */
  lemma OrdinaryLookup(rx: Engine, loaded: seq<Spec>, q: Query, i: nat)
    requires Wins(rx, loaded, q, i)
    ensures Lookup(rx, Partitioned(loaded), q, true)
         == if EffectOf(rx, loaded[i], q, true).Chosen? then Some(loaded[i]) else None
  {
    hide Filter, EffectOf;
    LookupIsLastSay(rx, Partitioned(loaded), q);
    LastSayAppend(rx, Filter(loaded, true), Filter(loaded, false), q);
    LastSayOfKind(rx, loaded, loaded[i].hasMeta, q, i);
    if loaded[i].hasMeta {
      NoSayOfKind(rx, loaded, false, q);
    }
  }

  /** There is a winner unless no specification has a say, and then there is no
      label. */
  lemma WinnerOrNothing(rx: Engine, loaded: seq<Spec>, q: Query) returns (i: nat)
    ensures Wins(rx, loaded, q, i) ||
      ((forall j | 0 <= j < |loaded| :: EffectOf(rx, loaded[j], q, true).Ignored?) &&
       Lookup(rx, Partitioned(loaded), q, true) == None)
  {
    hide Filter, EffectOf;
    i := LastOfKind(rx, loaded, q, false);
    if i == |loaded| {
      i := LastOfKind(rx, loaded, q, true);
      if i == |loaded| {
        LookupIsLastSay(rx, Partitioned(loaded), q);
        LastSayAppend(rx, Filter(loaded, true), Filter(loaded, false), q);
        NoSayOfKind(rx, loaded, false, q);
        NoSayOfKind(rx, loaded, true, q);
      }
    }
  }

  lemma LastOfKind(rx: Engine, loaded: seq<Spec>, q: Query, meta: bool) returns (i: nat)
    ensures i <= |loaded|
    ensures i < |loaded| ==> loaded[i].hasMeta == meta && !EffectOf(rx, loaded[i], q, true).Ignored?
    ensures forall j | (i < j || i == |loaded|) && 0 <= j < |loaded| && loaded[j].hasMeta == meta ::
      EffectOf(rx, loaded[j], q, true).Ignored?
  {
    i := |loaded|;
    while i > 0
      invariant i <= |loaded|
      invariant forall j | i <= j < |loaded| && loaded[j].hasMeta == meta :: EffectOf(rx, loaded[j], q, true).Ignored?
    {
      if loaded[i - 1].hasMeta == meta && !EffectOf(rx, loaded[i - 1], q, true).Ignored? {
        i := i - 1;
        return;
      }
      i := i - 1;
    }
    i := |loaded|;
  }

  // ------------------------------------------------------------------
  // Stems
  // ------------------------------------------------------------------

  /** `strchr(s + from, '/')`, the length if there is none. */
  function SlashFrom(s: string, from: nat): (n: nat)
    requires from <= |s|
    ensures from <= n <= |s| && (n < |s| ==> s[n] == '/') && forall i | from <= i < n :: s[i] != '/'
    decreases |s| - from
  {
    if from == |s| || s[from] == '/' then from else SlashFrom(s, from + 1)
  }

  /** `get_stem_from_file_name` */
  function FileStem(key: string): nat
    requires key != ""
  {
    if SlashFrom(key, 1) < |key| then SlashFrom(key, 1) else 0
  }

  /** `get_stem_from_spec` */
  method StemOfSpec(buf: string) returns (n: nat)
    requires buf != ""
    ensures n == SpecStem(buf)
  {
    var tmp := SlashFrom(buf, 1);
    if tmp == |buf| {
      return 0;
    }
    for ind := 0 to tmp
      invariant forall i | 0 <= i < ind :: !IsMeta(buf[i])
    {
      if buf[ind] in ".^$?*+|[({" {
        return 0;
      }
    }
    return tmp;
  }

  ghost function SpecStem(buf: string): (n: nat)
    requires buf != ""
    ensures n <= |buf|
  {
    if SlashFrom(buf, 1) < |buf| && forall i | 0 <= i < SlashFrom(buf, 1) :: !IsMeta(buf[i])
    then SlashFrom(buf, 1) else 0
  }

  /** The keys that lie below the stem of a specification. */
  ghost predicate Below(regex: string, key: string)
    requires regex != ""
  {
    regex[..SpecStem(regex)] + "/" <= key
  }

  /** Both stem functions cut at the same slash. */
  lemma StemsMeet(regex: string, key: string)
    requires regex != "" && key != "" && SpecStem(regex) > 0
    ensures Below(regex, key) <==> FileStem(key) > 0 && key[..FileStem(key)] == regex[..SpecStem(regex)]
  {
    var n, m := SpecStem(regex), FileStem(key);
    if Below(regex, key) {
      assert key[n] == (regex[..n] + "/")[n] == '/';
      assert forall i | 1 <= i < n :: key[i] == (regex[..n] + "/")[i] == regex[i];
      assert key[..n] == regex[..n];
    }
    if m > 0 && key[..m] == regex[..n] {
      assert key[..m + 1] == regex[..n] + "/";
    }
  }

  /** `find_stem`, and the loop of `find_stem_from_file`. */
  method FindStem(stems: seq<string>, stem: string) returns (i: int)
    ensures i == -1 || (0 <= i < |stems| && stems[i] == stem)
    ensures i == -1 <==> stem !in stems
  {
    for k := 0 to |stems|
      invariant stem !in stems[..k]
    {
      if stems[k] == stem {
        return k;
      }
    }
    return -1;
  }

  ghost predicate Distinct(stems: seq<string>) {
    forall i, j | 0 <= i < j < |stems| :: stems[i] != stems[j]
  }

  /** The specification's stem number stands for the stem of its expression. */
  ghost predicate Stemmed(stems: seq<string>, s: Spec) {
    s.regex != "" &&
    if SpecStem(s.regex) == 0 then s.stemId == -1
    else 0 <= s.stemId < |stems| && stems[s.stemId] == s.regex[..SpecStem(s.regex)]
  }

  /** The number under which a key's stem is known, if it is. */
  ghost predicate StemNumber(stems: seq<string>, key: string, i: int)
    requires key != ""
  {
    if FileStem(key) > 0 && key[..FileStem(key)] in stems
    then 0 <= i < |stems| && stems[i] == key[..FileStem(key)]
    else i == -1
  }

  /** A specification passes the test of stems exactly for the keys below its stem. */
  lemma FilterMeansBelow(stems: seq<string>, s: Spec, key: string, i: int)
    requires Distinct(stems) && Stemmed(stems, s) && key != "" && StemNumber(stems, key, i)
    ensures s.stemId == -1 || s.stemId == i <==> SpecStem(s.regex) == 0 || Below(s.regex, key)
  {
    hide SpecStem, FileStem;
    if SpecStem(s.regex) > 0 {
      StemsMeet(s.regex, key);
    }
  }

  /** The expression matches nothing outside its stem. */
  ghost predicate Literal(rx: Engine, s: Spec)
    requires s.regex != ""
  {
    SpecStem(s.regex) > 0 ==> forall key | key != "" && !Below(s.regex, key) :: rx(s.regex, key, false) == NoMatch
  }

  /** If all expressions keep to their stems, the test of stems changes no lookup. */
  lemma {:induction false} StemFilterHarmless(rx: Engine, stems: seq<string>, specs: seq<Spec>, q: Query, many: bool)
    requires Distinct(stems) && q.key != "" && StemNumber(stems, q.key, q.fileStem)
    requires forall k | 0 <= k < |specs| :: Stemmed(stems, specs[k]) && Literal(rx, specs[k])
    ensures Scan(rx, specs, q, true, many) == Scan(rx, specs, q, false, many)
    decreases |specs|
  {
    hide SpecStem, StemNumber, Below;
    if specs != [] {
      var n := |specs| - 1;
      StemFilterHarmless(rx, stems, specs[..n], q, many);
      assert Stemmed(stems, specs[n]) && Literal(rx, specs[n]);
      FilterMeansBelow(stems, specs[n], q.key, q.fileStem);
    }
  }

  /** The test of stems lets the specification through. */
  predicate PassesStem(s: Spec, q: Query) {
    q.partial || s.stemId == -1 || s.stemId == q.fileStem
  }

  /** The position of the last specification that has a say, -1 if none has. */
  function LastSayAt(rx: Engine, specs: seq<Spec>, q: Query, filtered: bool): (j: int)
    ensures -1 <= j < |specs|
    ensures j != -1 ==> !EffectOf(rx, specs[j], q, filtered).Ignored?
    ensures forall i | j < i < |specs| :: EffectOf(rx, specs[i], q, filtered).Ignored?
  {
    if specs == [] then -1
    else
      var n := |specs| - 1;
      if EffectOf(rx, specs[n], q, filtered).Ignored? then LastSayAt(rx, specs[..n], q, filtered) else n
  }

  /** The condition under which the test of stems is harmless: the specification that
      decides without it passes it, or gives no label and no earlier one that passes
      would. */
  predicate FilterHarmless(rx: Engine, specs: seq<Spec>, q: Query) {
    var j := LastSayAt(rx, specs, q, false);
    || j == -1
    || PassesStem(specs[j], q)
    || (EffectOf(rx, specs[j], q, false).Ends? && Scan(rx, specs[..j], q, true, false) == [])
  }

  /** For every list, key, mode and partial flag the test of stems leaves the result
      of a lookup as it is if and only if that condition holds. */
  lemma {:induction false} StemFilterExactly(rx: Engine, specs: seq<Spec>, q: Query)
    ensures Scan(rx, specs, q, true, false) == Scan(rx, specs, q, false, false) <==> FilterHarmless(rx, specs, q)
    decreases |specs|
  {
    if specs != [] {
      var n := |specs| - 1;
      var s, front := specs[n], specs[..n];
      FilterEffect(rx, s, q);
      if EffectOf(rx, s, q, false).Ignored? {
        StemFilterExactly(rx, front, q);
        var j := LastSayAt(rx, front, q, false);
        assert j != -1 ==> specs[..j] == front[..j];
      } else {
        ScanBelow(rx, front, q, true);
        assert LastSayAt(rx, specs, q, false) == n;
        var r := Scan(rx, front, q, true, false);
        assert |r| > 0 ==> r[0] < n;
        assert !PassesStem(s, q) ==> Scan(rx, specs, q, true, false) == r != [n];
      }
    }
  }

  /** The position of the last specification that ends the scan without the test of
      stems, -1 if none does. */
  function LastEndAt(rx: Engine, specs: seq<Spec>, q: Query): (e: int)
    ensures -1 <= e < |specs|
    ensures e != -1 ==> EffectOf(rx, specs[e], q, false).Ends?
    ensures forall i | e < i < |specs| :: !EffectOf(rx, specs[i], q, false).Ends?
  {
    if specs == [] then -1
    else
      var n := |specs| - 1;
      if EffectOf(rx, specs[n], q, false).Ends? then n else LastEndAt(rx, specs[..n], q)
  }

  /** The same for all matches: every match passes, and so does what ends the scan
      unless nothing before it would be reported. */
  ghost predicate FilterHarmlessForAll(rx: Engine, specs: seq<Spec>, q: Query) {
    var e := LastEndAt(rx, specs, q);
    && (forall i | e < i < |specs| && EffectOf(rx, specs[i], q, false).Chosen? :: PassesStem(specs[i], q))
    && (e == -1 || PassesStem(specs[e], q) || Scan(rx, specs[..e], q, true, true) == [])
  }

  lemma {:induction false} StemFilterExactlyAll(rx: Engine, specs: seq<Spec>, q: Query)
    ensures Scan(rx, specs, q, true, true) == Scan(rx, specs, q, false, true) <==> FilterHarmlessForAll(rx, specs, q)
    decreases |specs|
  {
    if specs != [] {
      var n := |specs| - 1;
      var s, front := specs[n], specs[..n];
      var r, u := Scan(rx, front, q, true, true), Scan(rx, front, q, false, true);
      FilterEffect(rx, s, q);
      ScanOneIsFirst(rx, front, q, true);
      assert |r| > 0 ==> r[0] < n;
      assert r != [n] + u;
      assert [n] + r == [n] + u <==> r == u by {
        assert ([n] + r)[1..] == r && ([n] + u)[1..] == u;
      }
      if !EffectOf(rx, s, q, false).Ends? {
        StemFilterExactlyAll(rx, front, q);
        FrontHarmless(rx, specs, q);
      }
    }
  }

  lemma FrontHarmless(rx: Engine, specs: seq<Spec>, q: Query)
    requires specs != [] && !EffectOf(rx, specs[|specs| - 1], q, false).Ends?
    ensures FilterHarmlessForAll(rx, specs, q) <==>
      && FilterHarmlessForAll(rx, specs[..|specs| - 1], q)
      && (EffectOf(rx, specs[|specs| - 1], q, false).Chosen? ==> PassesStem(specs[|specs| - 1], q))
  {
    hide EffectOf, Scan, PassesStem;
    var n := |specs| - 1;
    var front := specs[..n];
    var e := LastEndAt(rx, specs, q);
    assert e == LastEndAt(rx, front, q);
    assert e != -1 ==> specs[..e] == front[..e];
    assert forall i | 0 <= i < n :: front[i] == specs[i];
  }

  lemma ScanBelow(rx: Engine, specs: seq<Spec>, q: Query, filtered: bool)
    ensures forall k | 0 <= k < |Scan(rx, specs, q, filtered, false)| :: Scan(rx, specs, q, filtered, false)[k] < |specs|
  {
    ScanOneIsFirst(rx, specs, q, filtered);
  }

  lemma FilterEffect(rx: Engine, s: Spec, q: Query)
    ensures EffectOf(rx, s, q, true) == if PassesStem(s, q) then EffectOf(rx, s, q, false) else Ignored
  {
  }

  lemma LookupOne(rx: Engine, s: Spec, q: Query, filtered: bool)
    ensures Lookup(rx, [s], q, filtered) == if EffectOf(rx, s, q, filtered).Chosen? then Some(s) else None
  {
    var none := [s][..0];
    assert none == [] && Scan(rx, none, q, filtered, false) == [];
    assert Scan(rx, [s], q, filtered, false) == if EffectOf(rx, s, q, filtered).Chosen? then [0] else [];
  }

  /** For one specification the condition is exact: the test of stems is harmless
      for every key if and only if no key outside the stem would be labelled. */
  lemma StemFilterExact(rx: Engine, stems: seq<string>, s: Spec, number: string -> int)
    requires Distinct(stems) && Stemmed(stems, s)
    requires forall key | key != "" :: StemNumber(stems, key, number(key))
    ensures (forall key | key != "" ::
               Lookup(rx, [s], Query(key, 0, false, number(key)), true) == Lookup(rx, [s], Query(key, 0, false, number(key)), false))
        <==> (forall key | key != "" && SpecStem(s.regex) > 0 && !Below(s.regex, key) ::
               !(rx(s.regex, key, false) == Match && s.context != NONE))
  {
    hide SpecStem, StemNumber, Below;
    forall key | key != ""
      ensures Lookup(rx, [s], Query(key, 0, false, number(key)), true) == Lookup(rx, [s], Query(key, 0, false, number(key)), false)
        <==> !(SpecStem(s.regex) > 0 && !Below(s.regex, key) && rx(s.regex, key, false) == Match && s.context != NONE)
    {
      FilterMeansBelow(stems, s, key, number(key));
      var q := Query(key, 0, false, number(key));
      LookupOne(rx, s, q, true);
      LookupOne(rx, s, q, false);
      assert EffectOf(rx, s, q, false).Chosen? <==> rx(s.regex, key, false) == Match && s.context != NONE;
    }
  }

  /** A backslash is no meta character to `get_stem_from_spec`: this expression's
      stem keeps it, so the filter drops the expression for a key that it spells. */
  lemma EscapedStem(stems: seq<string>, s: Spec, i: int)
    requires s.regex == "/a\\-b/c" && Distinct(stems) && Stemmed(stems, s) && StemNumber(stems, "/a-b/c", i)
    ensures s.stemId != -1 && s.stemId != i
  {
    var r, k := s.regex, "/a-b/c";
    assert r[1] != '/' && r[2] != '/' && r[3] != '/' && r[4] != '/' && r[5] == '/';
    assert SlashFrom(r, 1) == 5;
    assert k[1] != '/' && k[2] != '/' && k[3] != '/' && k[4] == '/';
    assert SlashFrom(k, 1) == 4;
    FilterMeansBelow(stems, s, "/a-b/c", i);
    assert (s.regex[..5] + "/")[2] != "/a-b/c"[2];
  }

  class SavedData {
    var specs: seq<Spec>
    var stems: seq<string>

    ghost predicate Valid()
      reads this
    {
      Distinct(stems) && forall k | 0 <= k < |specs| :: Sound(stems, specs[k])
    }

    constructor ()
      ensures Valid() && specs == [] && stems == []
    {
      specs, stems := [], [];
    }

    /** `find_stem_from_spec`, with `store_stem`. */
    method FindStemFromSpec(buf: string) returns (id: int)
      requires Valid() && buf != ""
      modifies `stems
      ensures Valid() && old(stems) <= stems
      ensures if SpecStem(buf) == 0 then id == -1 && stems == old(stems)
              else 0 <= id < |stems| && stems[id] == buf[..SpecStem(buf)]
                   && stems == old(stems) + (if buf[..SpecStem(buf)] in old(stems) then [] else [buf[..SpecStem(buf)]])
    {
      hide SpecStem;
      var n := StemOfSpec(buf);
      if n == 0 {
        return -1;
      }
      id := FindStem(stems, buf[..n]);
      if id >= 0 {
        return;
      }
      id := |stems|;
      stems := stems + [buf[..n]];
    }

    /** One line of the configuration. */
    method Load(regex: string, context: string, mode: nat)
      requires Valid() && regex != ""
      modifies this
      ensures Valid() && |specs| == old(|specs|) + 1 && specs[..old(|specs|)] == old(specs)
      ensures var s := specs[old(|specs|)];
              s.regex == regex && s.context == context && s.mode == mode && (s.hasMeta <==> exists i :: LiveMeta(regex, i))
    {
      hide SpecStem, LiveMeta;
      var id := FindStemFromSpec(regex);
      var hasMeta, prefixLen := HasMetaChars(regex);
      specs := specs + [Spec(regex, context, mode, id, hasMeta)];
    }

    method Sort()
      requires Valid()
      modifies `specs
      ensures Valid() && specs == Partitioned(old(specs))
    {
      var arr := new Spec[|specs|](i requires 0 <= i < |specs| reads this => specs[i]);
      assert arr[..] == specs;
      var copy := SortSpecs(arr);
      FilterKeeps(specs, true);
      FilterKeeps(specs, false);
      specs := copy[..];
    }

    /** `lookup_all`: the positions of the matches, none for no result. */
    method LookupAll(rx: Engine, key: string, fileType: nat, partial: bool, many: bool) returns (result: seq<nat>, ghost q: Query)
      requires Valid()
      ensures specs == [] || key == "" ==> result == []
      ensures specs != [] && key != "" ==>
        && PathKeys.Canonical(key) != "" && StemNumber(stems, PathKeys.Canonical(key), q.fileStem)
        && q == Query(PathKeys.Canonical(key), Format(fileType), partial, q.fileStem)
        && result == Scan(rx, specs, q, true, many)
    {
      hide Scan;
      q := Query("", 0, partial, -1);
      if |specs| == 0 {
        return [], q;
      }
      var ok, clean := PathKeys.Clean(key);
      if !ok {
        return [], q;
      }
      CanonicalNonempty(key);
      var fileStem := -1;
      if FileStem(clean) > 0 {
        fileStem := FindStem(stems, clean[..FileStem(clean)]);
      }
      q := Query(clean, Format(fileType), partial, fileStem);
      result := ScanBack(rx, specs, Query(clean, Format(fileType), partial, fileStem), many);
    }
  }

  /** One line of a file-contexts file. */
  datatype Line = Line(regex: string, context: string, mode: nat)

  /** What loading makes of the lines, in their order. */
  ghost predicate Loaded(lines: seq<Line>, loaded: seq<Spec>, stems: seq<string>) {
    && |loaded| == |lines| && Distinct(stems)
    && forall i | 0 <= i < |lines| ::
         && loaded[i].regex == lines[i].regex && loaded[i].context == lines[i].context && loaded[i].mode == lines[i].mode
         && Sound(stems, loaded[i])
  }

  /** The file type that the format bits 0xf000 of a mode name. */
  function Kind(fileType: nat): nat {
    fileType % 0x1_0000 - fileType % 0x1000
  }

  lemma FormatIsKind(fileType: nat)
    ensures Format(fileType) == Kind(fileType)
  {
    var h, r := fileType / 0x1000, fileType % 0x1000;
    DivMod(fileType, 0x1_0000, h / 0x10, h % 0x10 * 0x1000 + r);
  }

  /** The line has a say on a file: the path lies below its stem, unless partial matches
      are asked for, it is for this type of file or the type is open on either side, and
      its expression does not just miss. */
  ghost predicate HasSay(rx: Engine, line: Line, key: string, kind: nat, partial: bool)
    requires line.regex != ""
  {
    && (partial || SpecStem(line.regex) == 0 || Below(line.regex, key))
    && (line.mode == 0 || kind == 0 || line.mode == kind)
    && rx(line.regex, key, partial) != NoMatch
  }

  /** No character of the expression is a live meta character. */
  ghost predicate Exact(line: Line) {
    forall i: nat :: !LiveMeta(line.regex, i)
  }

  /** Of the lines that have a say, an exact path comes before every pattern, and else
      the last line. */
  ghost predicate Decides(rx: Engine, lines: seq<Line>, key: string, kind: nat, partial: bool, i: nat)
    requires forall j | 0 <= j < |lines| :: lines[j].regex != ""
  {
    && i < |lines| && HasSay(rx, lines[i], key, kind, partial)
    && forall j | 0 <= j < |lines| && j != i && HasSay(rx, lines[j], key, kind, partial) ::
         (Exact(lines[i]) && !Exact(lines[j])) || (Exact(lines[i]) == Exact(lines[j]) && j < i)
  }

  /** The label that the deciding line gives: its context, if its expression matches, or
      matches a part where that is asked for, and it names one. */
  ghost function LabelBy(rx: Engine, line: Line, key: string, partial: bool): Option<string> {
    var matches := {Match} + if partial then {PartialMatch} else {};
    if rx(line.regex, key, partial) in matches && line.context != NONE then Some(line.context) else None
  }

  lemma SayMeans(rx: Engine, stems: seq<string>, s: Spec, line: Line, q: Query)
    requires Distinct(stems) && Sound(stems, s) && q.key != "" && StemNumber(stems, q.key, q.fileStem)
    requires s.regex == line.regex && s.context == line.context && s.mode == line.mode
    ensures EffectOf(rx, s, q, true).Ignored? <==> !HasSay(rx, line, q.key, q.mode, q.partial)
    ensures HasSay(rx, line, q.key, q.mode, q.partial) ==>
              LabelBy(rx, line, q.key, q.partial) == if EffectOf(rx, s, q, true).Chosen? then Some(s.context) else None
    ensures s.hasMeta <==> !Exact(line)
  {
    hide SpecStem, StemNumber, Below;
    FilterMeansBelow(stems, s, q.key, q.fileStem);
  }

  lemma DecidesMeansWins(rx: Engine, stems: seq<string>, lines: seq<Line>, loaded: seq<Spec>, q: Query, i: nat)
    requires (forall j | 0 <= j < |lines| :: lines[j].regex != "") && Loaded(lines, loaded, stems)
    requires q.key != "" && StemNumber(stems, q.key, q.fileStem)
    ensures Decides(rx, lines, q.key, q.mode, q.partial, i) <==> Wins(rx, loaded, q, i)
  {
    hide EffectOf, HasSay, Exact, Sound, StemNumber;
    forall j | 0 <= j < |lines|
      ensures EffectOf(rx, loaded[j], q, true).Ignored? <==> !HasSay(rx, lines[j], q.key, q.mode, q.partial)
      ensures loaded[j].hasMeta <==> !Exact(lines[j])
    {
      SayMeans(rx, stems, loaded[j], lines[j], q);
    }
  }

  /** What a lookup finds, from the lines alone. */
  ghost predicate Labelled(rx: Engine, lines: seq<Line>, key: string, kind: nat, partial: bool, found: Option<string>)
    requires forall j | 0 <= j < |lines| :: lines[j].regex != ""
  {
    || ((forall j | 0 <= j < |lines| :: !HasSay(rx, lines[j], key, kind, partial)) && found == None)
    || exists i: nat | Decides(rx, lines, key, kind, partial, i) :: found == LabelBy(rx, lines[i], key, partial)
  }

  lemma LabelledBy(rx: Engine, stems: seq<string>, lines: seq<Line>, loaded: seq<Spec>, q: Query, found: Option<string>)
    requires (forall j | 0 <= j < |lines| :: lines[j].regex != "") && Loaded(lines, loaded, stems)
    requires q.key != "" && StemNumber(stems, q.key, q.fileStem)
    requires forall i: nat | Wins(rx, loaded, q, i) ::
               found == if EffectOf(rx, loaded[i], q, true).Chosen? then Some(loaded[i].context) else None
    requires (forall i | 0 <= i < |loaded| :: EffectOf(rx, loaded[i], q, true).Ignored?) ==> found == None
    ensures Labelled(rx, lines, q.key, q.mode, q.partial, found)
  {
    hide EffectOf, HasSay, Exact, Sound, StemNumber, Partitioned, LabelBy;
    var i := WinnerOrNothing(rx, loaded, q);
    if Wins(rx, loaded, q, i) {
      DecidesMeansWins(rx, stems, lines, loaded, q, i);
      SayMeans(rx, stems, loaded[i], lines[i], q);
    } else {
      forall j | 0 <= j < |lines|
        ensures !HasSay(rx, lines[j], q.key, q.mode, q.partial)
      {
        SayMeans(rx, stems, loaded[j], lines[j], q);
      }
    }
  }

  /** A whole lookup, ordinary or partial, from the lines to the label: the label is that of the winner in
      load order, none if the winner gives none or if no line has a say. */
  method LabelOf(rx: Engine, lines: seq<Line>, key: string, fileType: nat, partial: bool)
    returns (found: Option<string>, ghost loaded: seq<Spec>, ghost stems: seq<string>, ghost q: Query)
    requires forall i | 0 <= i < |lines| :: lines[i].regex != ""
    ensures Loaded(lines, loaded, stems)
    ensures lines == [] || key == "" ==> found == None
    ensures lines != [] && key != "" ==>
      && PathKeys.Canonical(key) != "" && StemNumber(stems, PathKeys.Canonical(key), q.fileStem)
      && q == Query(PathKeys.Canonical(key), Format(fileType), partial, q.fileStem)
      && (forall i: nat | Wins(rx, loaded, q, i) ::
            found == if EffectOf(rx, loaded[i], q, true).Chosen? then Some(loaded[i].context) else None)
      && ((forall i | 0 <= i < |loaded| :: EffectOf(rx, loaded[i], q, true).Ignored?) ==> found == None)
    ensures lines != [] && key != "" ==> Labelled(rx, lines, PathKeys.Canonical(key), Kind(fileType), partial, found)
  {
    hide Scan, EffectOf, Sound, StemNumber, Partitioned, Labelled, Kind;
    var data := new SavedData();
    for n := 0 to |lines|
      invariant fresh(data) && data.Valid() && Loaded(lines[..n], data.specs, data.stems)
    {
      LoadedMore(lines, n, data.specs, data.stems);
      data.Load(lines[n].regex, lines[n].context, lines[n].mode);
    }
    assert lines[..|lines|] == lines;
    loaded, stems := data.specs, data.stems;
    data.Sort();
    var result;
    result, q := data.LookupAll(rx, key, fileType, partial, false);
    PartitionedSize(loaded);
    ScanBelow(rx, data.specs, q, true);
    found := if result == [] then None else Some(data.specs[result[0]].context);
    if lines != [] && key != "" {
      forall i: nat | Wins(rx, loaded, q, i)
        ensures found == if EffectOf(rx, loaded[i], q, true).Chosen? then Some(loaded[i].context) else None
      {
        OrdinaryLookup(rx, loaded, q, i);
      }
      ghost var w := WinnerOrNothing(rx, loaded, q);
      FormatIsKind(fileType);
      LabelledBy(rx, stems, lines, loaded, q, found);
    }
  }

  lemma LoadedMore(lines: seq<Line>, n: nat, specs: seq<Spec>, stems: seq<string>)
    requires n < |lines| && Loaded(lines[..n], specs, stems)
    ensures forall i | 0 <= i < n :: lines[..n + 1][i] == lines[..n][i] == lines[i]
  {
  }

  lemma PartitionedSize(specs: seq<Spec>)
    ensures |Partitioned(specs)| == |specs|
  {
    FilterSizes(specs);
  }

  lemma {:induction false} FilterSizes(specs: seq<Spec>)
    ensures |Filter(specs, true)| + |Filter(specs, false)| == |specs|
  {
    if specs != [] {
      FilterSizes(specs[..|specs| - 1]);
    }
  }

  ghost predicate Sound(stems: seq<string>, s: Spec) {
    Stemmed(stems, s) && (s.hasMeta <==> exists i :: LiveMeta(s.regex, i))
  }

  lemma {:induction false} FilterKeeps(specs: seq<Spec>, meta: bool)
    ensures forall k | 0 <= k < |Filter(specs, meta)| :: Filter(specs, meta)[k] in specs
  {
    if specs != [] {
      FilterKeeps(specs[..|specs| - 1], meta);
    }
  }

  /** The format bits of a file mode: `type & S_IFMT`. */
  function Format(fileType: nat): nat {
    fileType / 0x1000 % 0x10 * 0x1000
  }

  lemma CanonicalNonempty(key: string)
    requires key != ""
    ensures PathKeys.Canonical(key) != ""
  {
    if key[0] != '/' {
      PathKeys.JoinNonempty(key);
    }
  }
}

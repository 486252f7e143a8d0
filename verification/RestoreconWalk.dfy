/** The relabel walk of libselinux/src/selinux_restorecon.c with any number of
    worker threads.

    The directory stream is a finite sequence of entries in the order fts returns
    them, each with the position just after its descendants, where the stream
    continues when the entry is skipped. What the lookups of the label backend say
    about an entry is part of the entry; what `restorecon_sb` returns is part of
    each step. All shared state is read and written under the mutex, so a step is
    one locked section: from taking the lock up to starting on an entry or ending. */
module RestoreconWalk {

  datatype Info = DC | DP | DNR | NS | ERR | D | Other

  datatype Entry = Entry(
    info: Info,
    otherDevice: bool,
    partialMatch: bool,
    excluded: bool,
    digestMatch: bool,
    digestKnown: bool,
    tooLong: bool,
    end: nat)

  /** `endErrno` is the errno with which the stream ends, 0 if it is complete. */
  datatype Config = Config(
    setXdev: bool,
    sysfs: bool,
    setDigest: bool,
    ignoreDigest: bool,
    abortOnError: bool,
    countErrors: bool,
    nochange: bool,
    endErrno: nat)

  const ELOOP: nat := 40
  const ENAMETOOLONG: nat := 36

  ghost predicate Stream(entries: seq<Entry>) {
    forall i | 0 <= i < |entries| :: i < entries[i].end <= |entries|
  }

  /** Descendants lie within their ancestors. */
  ghost predicate Nested(entries: seq<Entry>) {
    Stream(entries) &&
    forall i, j | 0 <= i < j < |entries| && j < entries[i].end :: entries[j].end <= entries[i].end
  }

  datatype Verdict = Pass | Skip | Relabel | Fatal

  /** The rules of the walk, in the order they are tried. */
  function Judge(cfg: Config, e: Entry): Verdict {
    if cfg.setXdev && e.otherDevice then Pass
    else if e.info.DC? then Fatal
    else if e.info.DP? then Pass
    else if e.info.DNR? || e.info.NS? || e.info.ERR? then Skip
    else if e.info.D? && cfg.sysfs && !e.partialMatch then Skip
    else if e.info.D? && e.excluded then Skip
    else if e.info.D? && cfg.setDigest && e.digestMatch && !cfg.ignoreDigest then Skip
    else if e.tooLong then Fatal
    else Relabel
  }

  /** A directory whose new digest is kept for the end of the walk. */
  predicate Recorded(cfg: Config, e: Entry) {
    (Judge(cfg, e).Relabel? || Judge(cfg, e).Fatal?) &&
    e.info.D? && cfg.setDigest && !e.digestMatch && e.digestKnown
  }

  // ------------------------------------------------------------------
  // The sequential walk
  // ------------------------------------------------------------------

  /** What is left to relabel from position i on. */
  ghost function Walk(cfg: Config, entries: seq<Entry>, i: nat): seq<nat>
    requires Stream(entries)
    decreases |entries| - i
  {
    if i >= |entries| then []
    else
      match Judge(cfg, entries[i])
      case Skip => Walk(cfg, entries, entries[i].end)
      case Relabel => [i] + Walk(cfg, entries, i + 1)
      case _ => Walk(cfg, entries, i + 1)
  }

  /** No rule excludes the entry: neither its own nor one of an entry above it. */
  ghost predicate Due(cfg: Config, entries: seq<Entry>, p: nat, j: nat) {
    && p <= j < |entries| && Judge(cfg, entries[j]).Relabel?
    && forall i | p <= i < j && j < entries[i].end :: !Judge(cfg, entries[i]).Skip?
  }

  lemma {:induction false} WalkIsDue(cfg: Config, entries: seq<Entry>, p: nat, j: nat)
    requires Nested(entries)
    ensures j in Walk(cfg, entries, p) <==> Due(cfg, entries, p, j)
    decreases |entries| - p
  {
    hide Judge;
    if p < |entries| {
      if Judge(cfg, entries[p]).Skip? {
        WalkIsDue(cfg, entries, entries[p].end, j);
        DueBehindSkip(cfg, entries, p, j);
      } else {
        WalkIsDue(cfg, entries, p + 1, j);
        DueBehind(cfg, entries, p, j);
      }
    }
  }

  lemma DueBehindSkip(cfg: Config, entries: seq<Entry>, p: nat, j: nat)
    requires Nested(entries) && p < |entries| && Judge(cfg, entries[p]).Skip?
    ensures Due(cfg, entries, p, j) <==> Due(cfg, entries, entries[p].end, j)
  {
    hide Judge;
  }

  lemma DueBehind(cfg: Config, entries: seq<Entry>, p: nat, j: nat)
    requires Nested(entries) && p < |entries| && !Judge(cfg, entries[p]).Skip?
    ensures Due(cfg, entries, p, j) <==> (p == j && Judge(cfg, entries[p]).Relabel?) || Due(cfg, entries, p + 1, j)
  {
    hide Judge;
  }

  ghost predicate Ascending(s: seq<nat>) {
    forall i, j | 0 <= i < j < |s| :: s[i] < s[j]
  }

  lemma {:induction false} WalkAscends(cfg: Config, entries: seq<Entry>, p: nat)
    requires Stream(entries)
    ensures Ascending(Walk(cfg, entries, p))
    ensures forall j | j in Walk(cfg, entries, p) :: p <= j < |entries|
    decreases |entries| - p
  {
    hide Judge;
    if p < |entries| {
      match Judge(cfg, entries[p])
      case Skip =>
        WalkAscends(cfg, entries, entries[p].end);
      case _ =>
        WalkAscends(cfg, entries, p + 1);
        var rest := Walk(cfg, entries, p + 1);
        assert forall k | 0 <= k < |rest| :: rest[k] in rest;
    }
  }

  ghost function Nodes(cfg: Config, entries: seq<Entry>, s: seq<nat>): seq<nat>
  {
    if s == [] then []
    else
      var last := s[|s| - 1];
      Nodes(cfg, entries, s[..|s| - 1]) + if last < |entries| && Recorded(cfg, entries[last]) then [last] else []
  }

  // ------------------------------------------------------------------
  // The threads
  // ------------------------------------------------------------------

  datatype Shared = Shared(
    pos: nat,
    digests: seq<nat>,
    abort: bool,
    error: int,
    skipped: nat,
    savedErrno: nat,
    ended: bool)

  datatype Thread = Start | Working(entry: nat) | Done

  /** The `finish` label. */
  function Finish(sh: Shared, errno: nat): Shared {
    if sh.savedErrno == 0 then sh.(savedErrno := errno) else sh
  }

  function Record(cfg: Config, sh: Shared, e: Entry): Shared {
    if Recorded(cfg, e) && sh.error == 0 then sh.(digests := sh.digests + [sh.pos]) else sh
  }

  /** The loop of `selinux_restorecon_thread`, under the lock. */
  ghost function ReadOn(cfg: Config, entries: seq<Entry>, sh: Shared): (Shared, Thread)
    requires Stream(entries)
    decreases |entries| - sh.pos
  {
    if sh.pos >= |entries| then
      (Finish(sh, if sh.ended then 0 else cfg.endErrno).(ended := true), Done)
    else
      var e := entries[sh.pos];
      match Judge(cfg, e)
      case Pass => ReadOn(cfg, entries, sh.(pos := sh.pos + 1))
      case Skip => ReadOn(cfg, entries, sh.(pos := e.end))
      case Relabel => (Record(cfg, sh, e).(pos := sh.pos + 1), Working(sh.pos))
      case Fatal =>
        (Finish(Record(cfg, sh, e).(pos := sh.pos + 1, error := -1, abort := true),
                if e.info.DC? then ELOOP else ENAMETOOLONG), Done)
  }

  /** The same loop as the source runs it. */
  method ReadLoop(cfg: Config, entries: seq<Entry>, start: Shared) returns (sh: Shared, thread: Thread)
    requires Stream(entries)
    ensures (sh, thread) == ReadOn(cfg, entries, start)
  {
    sh := start;
    while sh.pos < |entries|
      invariant ReadOn(cfg, entries, sh) == ReadOn(cfg, entries, start)
      decreases |entries| - sh.pos
    {
      var i, e := sh.pos, entries[sh.pos];
      sh := sh.(pos := i + 1);
      if cfg.setXdev && e.otherDevice {
        continue;
      }
      match e.info {
        case DC =>
          sh := sh.(error := -1, abort := true);
          return Finish(sh, ELOOP), Done;
        case DP =>
          continue;
        case DNR =>
          sh := sh.(pos := e.end);
          continue;
        case NS =>
          sh := sh.(pos := e.end);
          continue;
        case ERR =>
          sh := sh.(pos := e.end);
          continue;
        case D =>
          if cfg.sysfs && !e.partialMatch {
            sh := sh.(pos := e.end);
            continue;
          }
          if e.excluded {
            sh := sh.(pos := e.end);
            continue;
          }
          if cfg.setDigest {
            if e.digestMatch && !cfg.ignoreDigest {
              sh := sh.(pos := e.end);
              continue;
            }
            if !e.digestMatch && e.digestKnown && sh.error == 0 {
              sh := sh.(digests := sh.digests + [i]);
            }
          }
        case Other =>
      }
      if e.tooLong {
        sh := sh.(error := -1, abort := true);
        return Finish(sh, ENAMETOOLONG), Done;
      }
      return sh, Working(i);
    }
    return Finish(sh, if sh.ended then 0 else cfg.endErrno).(ended := true), Done;
  }

  /** `started`, `results` and `late` are history: the entries handed to
      `restorecon_sb` in order, what it returned, and for each thread how many
      entries it started after the walk was aborted. */
  datatype State = State(
    shared: Shared,
    threads: seq<Thread>,
    started: seq<nat>,
    results: map<nat, int>,
    late: seq<nat>)

  /** A thread enters, or its `restorecon_sb` returned `result` leaving `errno`. */
  datatype Step = Enter(t: nat) | Return(t: nat, result: int, errno: nat)

  predicate Enabled(s: State, step: Step) {
    && step.t < |s.threads| == |s.late|
    && if step.Enter? then s.threads[step.t].Start? else s.threads[step.t].Working?
  }

  /** The section after `restorecon_sb`. */
  ghost function AfterResult(cfg: Config, entries: seq<Entry>, sh: Shared, result: int, errno: nat): (Shared, Thread)
    requires Stream(entries)
  {
    if sh.abort then (sh, Done)
    else if result == 0 then ReadOn(cfg, entries, sh)
    else if cfg.abortOnError then (Finish(sh.(error := result, abort := true), errno), Done)
    else if cfg.countErrors then ReadOn(cfg, entries, sh.(skipped := sh.skipped + 1))
    else ReadOn(cfg, entries, sh.(error := result))
  }

  ghost function Apply(cfg: Config, entries: seq<Entry>, s: State, step: Step): State
    requires Stream(entries) && Enabled(s, step)
  {
    var t := step.t;
    var (sh, th) := if step.Enter? then ReadOn(cfg, entries, s.shared)
                    else AfterResult(cfg, entries, s.shared, step.result, step.errno);
    State(sh, s.threads[t := th],
          if th.Working? then s.started + [th.entry] else s.started,
          if step.Enter? then s.results else s.results[s.threads[t].entry := step.result],
          if th.Working? && s.shared.abort then s.late[t := s.late[t] + 1] else s.late)
  }

  ghost predicate Init(s: State) {
    && s.shared == Shared(0, [], false, 0, 0, 0, false)
    && |s.threads| == |s.late| && s.started == [] && s.results == map[]
    && forall t | 0 <= t < |s.threads| :: s.threads[t] == Start && s.late[t] == 0
  }

  ghost predicate Possible(cfg: Config, entries: seq<Entry>, s: State, steps: seq<Step>)
    requires Stream(entries)
    decreases |steps|, 0
  {
    steps == [] ||
    (Possible(cfg, entries, s, steps[..|steps| - 1]) &&
     Enabled(Run(cfg, entries, s, steps[..|steps| - 1]), steps[|steps| - 1]))
  }

  ghost function Run(cfg: Config, entries: seq<Entry>, s: State, steps: seq<Step>): State
    requires Stream(entries) && Possible(cfg, entries, s, steps)
    decreases |steps|, 1
  {
    if steps == [] then s else Apply(cfg, entries, Run(cfg, entries, s, steps[..|steps| - 1]), steps[|steps| - 1])
  }

  // ------------------------------------------------------------------
  // One locked section
  // ------------------------------------------------------------------

  /** The part of the shared state that only sections touch, against the walk. */
  ghost predicate Progress(cfg: Config, entries: seq<Entry>, sh: Shared, started: seq<nat>)
    requires Stream(entries)
  {
    && sh.pos <= |entries|
    && started + Walk(cfg, entries, sh.pos) == Walk(cfg, entries, 0)
    && (forall k | 0 <= k < |started| :: started[k] < sh.pos)
    && (sh.error == 0 ==> sh.digests == Nodes(cfg, entries, started))
    && (sh.abort ==> sh.error != 0)
    && (sh.ended ==> sh.pos == |entries|)
    && (!sh.abort ==> sh.savedErrno == if sh.ended then cfg.endErrno else 0)
  }

  lemma {:induction false} SectionKeepsProgress(cfg: Config, entries: seq<Entry>, sh: Shared, started: seq<nat>)
    requires Stream(entries) && Progress(cfg, entries, sh, started)
    ensures var (sh', th) := ReadOn(cfg, entries, sh);
            && Progress(cfg, entries, sh', if th.Working? then started + [th.entry] else started)
            && !th.Start?
            && (th.Working? ==> sh.pos <= th.entry < |entries|)
            && (th.Done? ==> sh'.abort || sh'.ended)
            && sh'.skipped == sh.skipped
            && (sh'.error == sh.error || (sh'.abort && th.Done?))
            && (sh'.abort == sh.abort || (sh'.abort && th.Done?))
    decreases |entries| - sh.pos
  {
    hide Judge, Recorded;
    if sh.pos < |entries| {
      var e := entries[sh.pos];
      match Judge(cfg, e)
      case Pass => SectionKeepsProgress(cfg, entries, sh.(pos := sh.pos + 1), started);
      case Skip => SectionKeepsProgress(cfg, entries, sh.(pos := e.end), started);
      case Relabel =>
        assert (started + [sh.pos]) + Walk(cfg, entries, sh.pos + 1) == started + ([sh.pos] + Walk(cfg, entries, sh.pos + 1));
        assert (started + [sh.pos])[..|started|] == started;
      case Fatal =>
    }
  }

  // ------------------------------------------------------------------
  // The invariant of every run
  // ------------------------------------------------------------------

  ghost predicate Worked(threads: seq<Thread>, i: nat) {
    exists t | 0 <= t < |threads| :: threads[t] == Working(i)
  }

  /** Every started entry has one result or is in the hands of one thread. */
  ghost predicate Accounted(threads: seq<Thread>, started: seq<nat>, results: map<nat, int>) {
    && (forall i | i in results :: i in started)
    && (forall i | i in started :: i in results || Worked(threads, i))
    && (forall t | 0 <= t < |threads| && threads[t].Working? ::
          threads[t].entry in started && threads[t].entry !in results)
    && (forall t, u | 0 <= t < u < |threads| && threads[t].Working? :: threads[t] != threads[u])
  }

  lemma AccountEnter(threads: seq<Thread>, started: seq<nat>, results: map<nat, int>, t: nat, th: Thread)
    requires Accounted(threads, started, results) && t < |threads| && !threads[t].Working? && !th.Start?
    requires th.Working? ==> th.entry !in started
    ensures Accounted(threads[t := th], if th.Working? then started + [th.entry] else started, results)
  {
    var threads' := threads[t := th];
    forall i | i in (if th.Working? then started + [th.entry] else started)
      ensures i in results || Worked(threads', i)
    {
      if i in started && i !in results {
        var u :| 0 <= u < |threads| && threads[u] == Working(i);
        assert threads'[u] == Working(i);
      } else if i !in started {
        assert threads'[t] == Working(i);
      }
    }
  }

  lemma AccountReturn(threads: seq<Thread>, started: seq<nat>, results: map<nat, int>, t: nat, result: int)
    requires Accounted(threads, started, results) && t < |threads| && threads[t].Working?
    ensures threads[t].entry !in results
    ensures Accounted(threads[t := Done], started, results[threads[t].entry := result])
  {
    var threads', results' := threads[t := Done], results[threads[t].entry := result];
    forall i | i in started
      ensures i in results' || Worked(threads', i)
    {
      if i !in results' {
        var u :| 0 <= u < |threads| && threads[u] == Working(i);
        assert threads'[u] == Working(i);
      }
    }
  }

  /** No result is forgotten, and no failure is made up. */
  ghost predicate Faithful(sh: Shared, results: map<nat, int>) {
    && (forall i | i in results && results[i] != 0 :: sh.error != 0 || sh.skipped > 0)
    && ((forall i | i in results :: results[i] == 0) && !sh.abort ==> sh.error == 0 && sh.skipped == 0)
  }

  /** After an abort a thread starts at most one more entry. */
  ghost predicate Late(sh: Shared, threads: seq<Thread>, late: seq<nat>) {
    && |late| == |threads|
    && (forall t | 0 <= t < |late| :: late[t] <= 1 && (threads[t].Start? || !sh.abort ==> late[t] == 0))
    && (forall t | 0 <= t < |threads| && threads[t].Done? :: sh.abort || sh.ended)
  }

  ghost predicate Inv(cfg: Config, entries: seq<Entry>, s: State)
    requires Stream(entries)
  {
    && Progress(cfg, entries, s.shared, s.started)
    && Accounted(s.threads, s.started, s.results)
    && Faithful(s.shared, s.results)
    && Late(s.shared, s.threads, s.late)
  }

  lemma EnterKeepsInv(cfg: Config, entries: seq<Entry>, s: State, t: nat)
    requires Stream(entries) && Inv(cfg, entries, s) && Enabled(s, Enter(t))
    ensures Inv(cfg, entries, Apply(cfg, entries, s, Enter(t)))
  {
    hide ReadOn, Accounted;
    SectionKeepsProgress(cfg, entries, s.shared, s.started);
    var (_, th) := ReadOn(cfg, entries, s.shared);
    AccountEnter(s.threads, s.started, s.results, t, th);
  }

  /** What a result does to the shared state before the thread reads on. */
  function Noted(cfg: Config, sh: Shared, result: int): Shared {
    if result == 0 then sh
    else if cfg.countErrors then sh.(skipped := sh.skipped + 1)
    else sh.(error := result)
  }

  lemma ReturnKeepsInv(cfg: Config, entries: seq<Entry>, s: State, t: nat, result: int, errno: nat)
    requires Stream(entries) && Inv(cfg, entries, s) && Enabled(s, Return(t, result, errno))
    ensures Inv(cfg, entries, Apply(cfg, entries, s, Return(t, result, errno)))
  {
    hide ReadOn, Accounted;
    AccountReturn(s.threads, s.started, s.results, t, result);
    if !s.shared.abort && (result == 0 || !cfg.abortOnError) {
      var sh := Noted(cfg, s.shared, result);
      SectionKeepsProgress(cfg, entries, sh, s.started);
      var (_, th) := ReadOn(cfg, entries, sh);
      AccountEnter(s.threads[t := Done], s.started, s.results[s.threads[t].entry := result], t, th);
      assert s.threads[t := Done][t := th] == s.threads[t := th];
      FaithfulNoted(cfg, s.shared, s.results, s.threads[t].entry, result, Apply(cfg, entries, s, Return(t, result, errno)).shared);
    }
  }

  lemma FaithfulNoted(cfg: Config, sh: Shared, results: map<nat, int>, i: nat, result: int, sh': Shared)
    requires Faithful(sh, results) && i !in results && !sh.abort
    requires sh'.skipped == Noted(cfg, sh, result).skipped && (sh'.error == Noted(cfg, sh, result).error || sh'.abort)
    requires sh'.abort ==> sh'.error != 0
    ensures Faithful(sh', results[i := result])
  {
    var results' := results[i := result];
    if (forall j | j in results' :: results'[j] == 0) && !sh'.abort {
      assert results'[i] == 0;
      assert forall j | j in results :: results[j] == results'[j];
    }
  }

  lemma {:induction false} RunKeepsInv(cfg: Config, entries: seq<Entry>, s: State, steps: seq<Step>)
    requires Stream(entries) && Init(s) && Possible(cfg, entries, s, steps)
    ensures Inv(cfg, entries, Run(cfg, entries, s, steps))
    decreases |steps|
  {
    hide Walk, ReadOn, Enabled;
    if steps != [] {
      var front, last := steps[..|steps| - 1], steps[|steps| - 1];
      RunKeepsInv(cfg, entries, s, front);
      match last
      case Enter(t) => EnterKeepsInv(cfg, entries, Run(cfg, entries, s, front), t);
      case Return(t, result, errno) => ReturnKeepsInv(cfg, entries, Run(cfg, entries, s, front), t, result, errno);
    }
  }

  // ------------------------------------------------------------------
  // What every run promises
  // ------------------------------------------------------------------

  /** Entries are handed out in the order of the sequential walk, each once, and no
      two threads ever hold the same one. */
  lemma NothingTwice(cfg: Config, entries: seq<Entry>, s: State, steps: seq<Step>)
    requires Stream(entries) && Init(s) && Possible(cfg, entries, s, steps)
    ensures var t := Run(cfg, entries, s, steps);
            && t.started <= Walk(cfg, entries, 0) && Ascending(t.started)
            && forall a, b | 0 <= a < b < |t.threads| && t.threads[a].Working? :: t.threads[a] != t.threads[b]
  {
    RunKeepsInv(cfg, entries, s, steps);
    WalkAscends(cfg, entries, 0);
    var t := Run(cfg, entries, s, steps);
    assert forall k | 0 <= k < |t.started| :: t.started[k] == Walk(cfg, entries, 0)[k];
  }

  ghost predicate Final(s: State) {
    s.threads != [] && forall t | 0 <= t < |s.threads| :: s.threads[t].Done?
  }

  /** A run that ends without an abort has relabelled exactly the entries that no
      rule excludes. */
  lemma CompleteRun(cfg: Config, entries: seq<Entry>, s: State, steps: seq<Step>, i: nat)
    requires Nested(entries) && Init(s) && Possible(cfg, entries, s, steps)
    requires Final(Run(cfg, entries, s, steps)) && !Run(cfg, entries, s, steps).shared.abort
    ensures Run(cfg, entries, s, steps).started == Walk(cfg, entries, 0)
    ensures i in Run(cfg, entries, s, steps).results <==> Due(cfg, entries, 0, i)
  {
    RunKeepsInv(cfg, entries, s, steps);
    WalkIsDue(cfg, entries, 0, i);
    var t := Run(cfg, entries, s, steps);
    assert t.threads[0].Done?;
    assert t.started + Walk(cfg, entries, t.shared.pos) == t.started;
  }

  /** Whatever the interleaving, a thread starts at most one entry after the walk
      was aborted, and only if it had not entered before. */
  lemma AtMostOneLateStart(cfg: Config, entries: seq<Entry>, s: State, steps: seq<Step>, t: nat)
    requires Stream(entries) && Init(s) && Possible(cfg, entries, s, steps)
    requires t < |Run(cfg, entries, s, steps).threads|
    ensures var r := Run(cfg, entries, s, steps);
            && |r.late| == |r.threads| && r.late[t] <= 1
            && (r.shared.abort && !r.threads[t].Start? ==>
                  forall result, errno | Enabled(r, Return(t, result, errno)) ::
                    Apply(cfg, entries, r, Return(t, result, errno)).threads[t].Done?)
  {
    RunKeepsInv(cfg, entries, s, steps);
  }

  /** The test before the digests are written. */
  predicate WritesDigests(cfg: Config, sh: Shared) {
    sh.savedErrno == 0 && cfg.setDigest && !cfg.nochange && sh.error == 0 && sh.skipped == 0
  }

  /** Digests are written exactly after a complete walk in which every
      `restorecon_sb` returned 0, for exactly the directories walked, in order. */
  lemma DigestsMeanSuccess(cfg: Config, entries: seq<Entry>, s: State, steps: seq<Step>)
    requires Stream(entries) && Init(s) && Possible(cfg, entries, s, steps)
    requires Final(Run(cfg, entries, s, steps))
    ensures var t := Run(cfg, entries, s, steps);
            && (WritesDigests(cfg, t.shared) <==>
                  && cfg.setDigest && !cfg.nochange && cfg.endErrno == 0 && !t.shared.abort
                  && forall i | i in t.results :: t.results[i] == 0)
            && (WritesDigests(cfg, t.shared) ==>
                  && t.started == Walk(cfg, entries, 0)
                  && (forall i | i in t.started :: i in t.results)
                  && t.shared.digests == Nodes(cfg, entries, t.started))
  {
    RunKeepsInv(cfg, entries, s, steps);
    var t := Run(cfg, entries, s, steps);
    assert t.threads[0].Done?;
    assert t.shared.pos == |entries| ==> t.started + Walk(cfg, entries, t.shared.pos) == t.started;
  }

  // ------------------------------------------------------------------
  // The same, from the flags alone
  // ------------------------------------------------------------------

  /** On another device in a walk that stays on one. */
  predicate Foreign(cfg: Config, e: Entry) {
    cfg.setXdev && e.otherDevice
  }

  /** The entry is left out with everything below it: it cannot be read, or it is a
      directory that is excluded, that no rule of the backend can match on sysfs, or
      whose digest matches and is not ignored. */
  predicate LeftOut(cfg: Config, e: Entry) {
    && !Foreign(cfg, e)
    && (|| e.info in {DNR, NS, ERR}
        || (e.info.D? && (e.excluded || (cfg.sysfs && !e.partialMatch) || (cfg.setDigest && e.digestMatch && !cfg.ignoreDigest))))
  }

  /** The entry is on a device that is walked, it is no second visit of a directory,
      and neither it nor any entry above it is left out. */
  ghost predicate Clear(cfg: Config, entries: seq<Entry>, j: nat) {
    && j < |entries| && !Foreign(cfg, entries[j]) && !entries[j].info.DP?
    && forall i | 0 <= i <= j && j < entries[i].end :: !LeftOut(cfg, entries[i])
  }

  /** The entry ends the walk: a directory cycle, or a path too long for the buffer. */
  predicate Broken(e: Entry) {
    e.info.DC? || e.tooLong
  }

  lemma JudgeMeans(cfg: Config, e: Entry)
    ensures Judge(cfg, e).Skip? <==> LeftOut(cfg, e)
    ensures Judge(cfg, e).Pass? <==> Foreign(cfg, e) || e.info.DP?
    ensures Judge(cfg, e).Fatal? <==> !Foreign(cfg, e) && !e.info.DP? && !LeftOut(cfg, e) && Broken(e)
  {
  }

  lemma DueMeans(cfg: Config, entries: seq<Entry>, j: nat)
    requires Stream(entries)
    ensures Due(cfg, entries, 0, j) <==> Clear(cfg, entries, j) && !Broken(entries[j])
  {
    hide Judge, LeftOut, Foreign, Broken;
    if j < |entries| {
      forall i | 0 <= i <= j
        ensures Judge(cfg, entries[i]).Skip? <==> LeftOut(cfg, entries[i])
      {
        JudgeMeans(cfg, entries[i]);
      }
      JudgeMeans(cfg, entries[j]);
    }
  }

  /** No run hands out an entry that is left out, below one that is left out, or on
      another device. */
  lemma StartedAreClear(cfg: Config, entries: seq<Entry>, s: State, steps: seq<Step>, i: nat)
    requires Nested(entries) && Init(s) && Possible(cfg, entries, s, steps) && i in Run(cfg, entries, s, steps).started
    ensures Clear(cfg, entries, i) && !Broken(entries[i])
  {
    hide Judge, Due, Clear, Broken;
    NothingTwice(cfg, entries, s, steps);
    WalkIsDue(cfg, entries, 0, i);
    DueMeans(cfg, entries, i);
  }

  /** The walk has come past an entry that ends it. */
  ghost predicate Struck(cfg: Config, entries: seq<Entry>, p: nat) {
    exists j | 0 <= j < p && j < |entries| :: Clear(cfg, entries, j) && Broken(entries[j])
  }

  ghost function Failures(results: map<nat, int>): set<nat> {
    set i | i in results && results[i] != 0
  }

  /** What the shared state says about the walk and the results so far: it is aborted
      exactly by an entry that ends the walk, or by a failure when failures are to
      end it; otherwise failures are counted, or the last one is the error. */
  ghost predicate Told(cfg: Config, entries: seq<Entry>, sh: Shared, results: map<nat, int>) {
    && (sh.abort <==> Struck(cfg, entries, sh.pos) || (cfg.abortOnError && Failures(results) != {}))
    && (!sh.abort && cfg.countErrors ==> sh.error == 0 && sh.skipped == |Failures(results)|)
    && (!sh.abort && !cfg.countErrors ==> sh.skipped == 0 && (sh.error != 0 <==> Failures(results) != {}))
  }

  lemma StruckNext(cfg: Config, entries: seq<Entry>, p: nat)
    requires Stream(entries) && p < |entries|
    ensures Judge(cfg, entries[p]).Skip? ==> (Struck(cfg, entries, entries[p].end) <==> Struck(cfg, entries, p))
    ensures Judge(cfg, entries[p]).Pass? || Judge(cfg, entries[p]).Relabel? ==>
              (Struck(cfg, entries, p + 1) <==> Struck(cfg, entries, p))
  {
    hide Judge, LeftOut, Foreign, Broken;
    JudgeMeans(cfg, entries[p]);
    if Judge(cfg, entries[p]).Skip? {
      assert forall j | p <= j < entries[p].end :: !Clear(cfg, entries, j);
    } else {
      assert !Judge(cfg, entries[p]).Fatal? ==> !Clear(cfg, entries, p) || !Broken(entries[p]);
    }
  }

  /** Entries from p on that are not below one left out before. */
  ghost predicate Reachable(cfg: Config, entries: seq<Entry>, p: nat) {
    forall i | 0 <= i < p && i < |entries| :: p < entries[i].end ==> !LeftOut(cfg, entries[i])
  }

  lemma ReachableNext(cfg: Config, entries: seq<Entry>, p: nat)
    requires Nested(entries) && p < |entries| && Reachable(cfg, entries, p)
    ensures Judge(cfg, entries[p]).Skip? ==> Reachable(cfg, entries, entries[p].end)
    ensures !Judge(cfg, entries[p]).Skip? ==> Reachable(cfg, entries, p + 1)
  {
    hide Judge, LeftOut;
    JudgeMeans(cfg, entries[p]);
  }

  lemma FatalStrikes(cfg: Config, entries: seq<Entry>, p: nat)
    requires Stream(entries) && p < |entries| && Reachable(cfg, entries, p) && Judge(cfg, entries[p]).Fatal?
    ensures Struck(cfg, entries, p + 1)
  {
    hide Judge, LeftOut, Foreign, Broken;
    JudgeMeans(cfg, entries[p]);
    assert Clear(cfg, entries, p);
  }

  /** What reading on does to the flags: it aborts exactly at an entry that ends the
      walk. */
  ghost predicate ReadsOn(cfg: Config, entries: seq<Entry>, sh: Shared, sh': Shared) {
    && Reachable(cfg, entries, sh'.pos)
    && (sh'.abort <==> sh.abort || Struck(cfg, entries, sh'.pos))
    && (Struck(cfg, entries, sh.pos) ==> Struck(cfg, entries, sh'.pos))
    && (!sh'.abort ==> sh'.error == sh.error) && sh'.skipped == sh.skipped
  }

  lemma {:induction false} SectionReads(cfg: Config, entries: seq<Entry>, sh: Shared)
    requires Nested(entries) && Reachable(cfg, entries, sh.pos) && (Struck(cfg, entries, sh.pos) ==> sh.abort)
    ensures ReadsOn(cfg, entries, sh, ReadOn(cfg, entries, sh).0)
    decreases |entries| - sh.pos
  {
    hide Judge, Recorded, Reachable, Struck;
    if sh.pos < |entries| {
      StruckNext(cfg, entries, sh.pos);
      ReachableNext(cfg, entries, sh.pos);
      match Judge(cfg, entries[sh.pos])
      case Pass => SectionReads(cfg, entries, sh.(pos := sh.pos + 1));
      case Skip => SectionReads(cfg, entries, sh.(pos := entries[sh.pos].end));
      case Relabel =>
      case Fatal => FatalStrikes(cfg, entries, sh.pos);
    }
  }

  lemma MoreFailures(results: map<nat, int>, i: nat, result: int)
    requires i !in results
    ensures Failures(results[i := result]) == if result == 0 then Failures(results) else Failures(results) + {i}
    ensures |Failures(results[i := result])| == |Failures(results)| + if result == 0 then 0 else 1
  {
    assert i !in Failures(results);
    assert Failures(results[i := result]) == if result == 0 then Failures(results) else Failures(results) + {i};
  }

  lemma ReturnTells(cfg: Config, entries: seq<Entry>, sh: Shared, results: map<nat, int>, i: nat, result: int, errno: nat)
    requires Nested(entries) && Reachable(cfg, entries, sh.pos) && Told(cfg, entries, sh, results) && i !in results
    ensures var sh' := AfterResult(cfg, entries, sh, result, errno).0;
            Reachable(cfg, entries, sh'.pos) && Told(cfg, entries, sh', results[i := result])
  {
    hide ReadOn, Reachable, Struck, Failures;
    MoreFailures(results, i, result);
    if !sh.abort && (result == 0 || !cfg.abortOnError) {
      SectionReads(cfg, entries, Noted(cfg, sh, result));
    }
  }

  lemma {:induction false} RunTells(cfg: Config, entries: seq<Entry>, s: State, steps: seq<Step>)
    requires Nested(entries) && Init(s) && Possible(cfg, entries, s, steps)
    ensures var t := Run(cfg, entries, s, steps);
            Reachable(cfg, entries, t.shared.pos) && Told(cfg, entries, t.shared, t.results)
    decreases |steps|
  {
    hide Walk, ReadOn, AfterResult, Told, Reachable, Accounted;
    if steps == [] {
      StartTells(cfg, entries, s);
    } else {
      var front, last := steps[..|steps| - 1], steps[|steps| - 1];
      var t := Run(cfg, entries, s, front);
      RunTells(cfg, entries, s, front);
      RunKeepsInv(cfg, entries, s, front);
      match last
      case Enter(k) => EnterTells(cfg, entries, t.shared, t.results);
      case Return(k, result, errno) =>
        AccountReturn(t.threads, t.started, t.results, k, result);
        ReturnTells(cfg, entries, t.shared, t.results, t.threads[k].entry, result, errno);
    }
  }

  lemma StartTells(cfg: Config, entries: seq<Entry>, s: State)
    requires Stream(entries) && Init(s)
    ensures Reachable(cfg, entries, s.shared.pos) && Told(cfg, entries, s.shared, s.results)
  {
    assert Failures(s.results) == {};
  }

  lemma EnterTells(cfg: Config, entries: seq<Entry>, sh: Shared, results: map<nat, int>)
    requires Nested(entries) && Reachable(cfg, entries, sh.pos) && Told(cfg, entries, sh, results)
    ensures var sh' := ReadOn(cfg, entries, sh).0; Reachable(cfg, entries, sh'.pos) && Told(cfg, entries, sh', results)
  {
    hide ReadOn, Reachable, Struck, Failures;
    SectionReads(cfg, entries, sh);
  }

  /** A run that ends without an abort has a result for exactly the entries that are
      clear, none of which ends the walk. */
  lemma ClearAreRelabelled(cfg: Config, entries: seq<Entry>, s: State, steps: seq<Step>, i: nat)
    requires Nested(entries) && Init(s) && Possible(cfg, entries, s, steps)
    requires Final(Run(cfg, entries, s, steps)) && !Run(cfg, entries, s, steps).shared.abort
    ensures i in Run(cfg, entries, s, steps).results <==> Clear(cfg, entries, i)
    ensures Clear(cfg, entries, i) ==> !Broken(entries[i])
  {
    hide Due, Broken, LeftOut, Foreign;
    CompleteRun(cfg, entries, s, steps, i);
    DueMeans(cfg, entries, i);
    RunTells(cfg, entries, s, steps);
    AllRead(cfg, entries, s, steps);
  }

  lemma AllRead(cfg: Config, entries: seq<Entry>, s: State, steps: seq<Step>)
    requires Stream(entries) && Init(s) && Possible(cfg, entries, s, steps)
    requires Final(Run(cfg, entries, s, steps)) && !Run(cfg, entries, s, steps).shared.abort
    ensures Run(cfg, entries, s, steps).shared.pos == |entries|
  {
    RunKeepsInv(cfg, entries, s, steps);
    assert Run(cfg, entries, s, steps).threads[0].Done?;
  }

  /** When digests are written, they are those of the clear directories whose digest is
      known and differs, each once and in order. */
  lemma DigestsOfClearDirectories(cfg: Config, entries: seq<Entry>, s: State, steps: seq<Step>, i: nat)
    requires Nested(entries) && Init(s) && Possible(cfg, entries, s, steps) && Final(Run(cfg, entries, s, steps))
    requires WritesDigests(cfg, Run(cfg, entries, s, steps).shared)
    ensures i in Run(cfg, entries, s, steps).shared.digests <==>
            Clear(cfg, entries, i) && entries[i].info.D? && !entries[i].digestMatch && entries[i].digestKnown
    ensures Ascending(Run(cfg, entries, s, steps).shared.digests)
  {
    hide Judge, Due, Clear, Broken, Nodes, Walk;
    DigestsMeanSuccess(cfg, entries, s, steps);
    CompleteRun(cfg, entries, s, steps, i);
    ClearAreRelabelled(cfg, entries, s, steps, i);
    WalkIsDue(cfg, entries, 0, i);
    WalkAscends(cfg, entries, 0);
    NodesMean(cfg, entries, Walk(cfg, entries, 0), i);
    NodesAscend(cfg, entries, Walk(cfg, entries, 0));
    DueRelabels(cfg, entries, i);
  }

  lemma DueRelabels(cfg: Config, entries: seq<Entry>, i: nat)
    ensures Due(cfg, entries, 0, i) ==> Judge(cfg, entries[i]).Relabel?
  {
  }

  lemma {:induction false} NodesMean(cfg: Config, entries: seq<Entry>, s: seq<nat>, i: nat)
    requires forall j | j in s :: j < |entries|
    ensures i in Nodes(cfg, entries, s) <==> i in s && Recorded(cfg, entries[i])
    decreases |s|
  {
    hide Recorded;
    if s != [] {
      var front := s[..|s| - 1];
      assert s == front + [s[|s| - 1]] && forall j | j in front :: j in s;
      NodesMean(cfg, entries, front, i);
    }
  }

  lemma {:induction false} NodesAscend(cfg: Config, entries: seq<Entry>, s: seq<nat>)
    requires Ascending(s)
    ensures Ascending(Nodes(cfg, entries, s)) && forall j | j in Nodes(cfg, entries, s) :: j in s
    decreases |s|
  {
    hide Recorded;
    if s != [] {
      var front, last := s[..|s| - 1], s[|s| - 1];
      NodesAscend(cfg, entries, front);
      assert s == front + [last];
      var nodes := Nodes(cfg, entries, front);
      forall k | 0 <= k < |nodes|
        ensures nodes[k] < last && nodes[k] in s
      {
        assert nodes[k] in nodes;
      }
    }
  }

  // ------------------------------------------------------------------
  // Every run ends
  // ------------------------------------------------------------------

  /** How many threads have entered. */
  ghost function Entered(threads: seq<Thread>): nat {
    if threads == [] then 0
    else Entered(threads[..|threads| - 1]) + if threads[|threads| - 1].Start? then 0 else 1
  }

  lemma {:induction false} EnteredUpdate(threads: seq<Thread>, t: nat, th: Thread)
    requires t < |threads| && !th.Start?
    ensures Entered(threads[t := th]) == Entered(threads) + if threads[t].Start? then 1 else 0
    decreases |threads|
  {
    var n := |threads| - 1;
    if t == n {
      assert threads[t := th][..n] == threads[..n];
    } else {
      assert threads[t := th][..n] == threads[..n][t := th];
      EnteredUpdate(threads[..n], t, th);
    }
  }

  lemma {:induction false} EnteredBound(threads: seq<Thread>)
    ensures Entered(threads) <= |threads|
  {
    if threads != [] {
      EnteredBound(threads[..|threads| - 1]);
    }
  }

  lemma {:induction false} NoneEntered(threads: seq<Thread>)
    requires forall t | 0 <= t < |threads| :: threads[t].Start?
    ensures Entered(threads) == 0
  {
    if threads != [] {
      NoneEntered(threads[..|threads| - 1]);
    }
  }

  lemma {:induction false} KeysBound(keys: set<nat>, s: seq<nat>)
    requires forall i | i in keys :: i in s
    ensures |keys| <= |s|
    decreases |s|
  {
    if s == [] {
      assert keys == {};
    } else {
      var n := |s| - 1;
      var rest := keys - {s[n]};
      forall i | i in rest
        ensures i in s[..n]
      {
        assert i in s && i != s[n];
      }
      KeysBound(rest, s[..n]);
    }
  }

  /** What a section leaves a thread at. */
  lemma SectionEnters(cfg: Config, entries: seq<Entry>, s: State, step: Step)
    requires Stream(entries) && Inv(cfg, entries, s) && Enabled(s, step)
    ensures var s' := Apply(cfg, entries, s, step);
            && |s'.threads| == |s.threads| && !s'.threads[step.t].Start?
            && s'.threads == s.threads[step.t := s'.threads[step.t]]
  {
    hide ReadOn, Walk, Accounted, Faithful;
    if step.Enter? {
      SectionKeepsProgress(cfg, entries, s.shared, s.started);
    } else if !s.shared.abort && (step.result == 0 || !cfg.abortOnError) {
      SectionKeepsProgress(cfg, entries, Noted(cfg, s.shared, step.result), s.started);
    }
  }

  /** Each step is the entry of a thread or the result of an entry. */
  lemma {:induction false} StepsCounted(cfg: Config, entries: seq<Entry>, s: State, steps: seq<Step>)
    requires Stream(entries) && Init(s) && Possible(cfg, entries, s, steps)
    ensures var t := Run(cfg, entries, s, steps);
            |t.threads| == |s.threads| && |steps| == Entered(t.threads) + |t.results.Keys|
    decreases |steps|
  {
    hide ReadOn, Walk, AfterResult, Entered;
    if steps == [] {
      NoneEntered(s.threads);
    } else {
      var n := |steps| - 1;
      var before, step := Run(cfg, entries, s, steps[..n]), steps[n];
      StepsCounted(cfg, entries, s, steps[..n]);
      RunKeepsInv(cfg, entries, s, steps[..n]);
      SectionEnters(cfg, entries, before, step);
      var after := Apply(cfg, entries, before, step);
      EnteredUpdate(before.threads, step.t, after.threads[step.t]);
      if step.Return? {
        var i := before.threads[step.t].entry;
        assert i !in before.results;
        assert after.results.Keys == before.results.Keys + {i};
      } else {
        assert after.results == before.results;
      }
    }
  }

  /** No run is longer than one step for each thread and one for each entry of the
      walk. */
  lemma RunsAreBounded(cfg: Config, entries: seq<Entry>, s: State, steps: seq<Step>)
    requires Stream(entries) && Init(s) && Possible(cfg, entries, s, steps)
    ensures |steps| <= |s.threads| + |Walk(cfg, entries, 0)|
  {
    hide Entered;
    StepsCounted(cfg, entries, s, steps);
    RunKeepsInv(cfg, entries, s, steps);
    var t := Run(cfg, entries, s, steps);
    EnteredBound(t.threads);
    KeysBound(t.results.Keys, t.started);
    assert t.started + Walk(cfg, entries, t.shared.pos) == Walk(cfg, entries, 0);
  }

  /** A run with threads that cannot go on has ended: no thread waits for ever. */
  lemma StuckMeansFinal(cfg: Config, entries: seq<Entry>, s: State, steps: seq<Step>)
    requires Stream(entries) && Init(s) && Possible(cfg, entries, s, steps) && s.threads != []
    requires forall step :: !Enabled(Run(cfg, entries, s, steps), step)
    ensures Final(Run(cfg, entries, s, steps))
  {
    hide Entered;
    RunKeepsInv(cfg, entries, s, steps);
    StepsCounted(cfg, entries, s, steps);
    var r := Run(cfg, entries, s, steps);
    forall t | 0 <= t < |r.threads|
      ensures r.threads[t].Done?
    {
      assert !Enabled(r, Enter(t)) && !Enabled(r, Return(t, 0, 0));
    }
  }
}

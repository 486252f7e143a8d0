/** The reader of the kernel status page (libselinux/src/sestatus.c), interleaved
    with the kernel that writes it.

    The writer makes the sequence number odd, changes fields in any order and any
    number of times, and makes the number even again. Every load of one field and
    every change of one field is one step; steps of the two sides alternate freely,
    in one total order. Sequence numbers do not wrap. */
module StatusPage {

  datatype Pair = Pair(enforcing: nat, policyload: nat)

  datatype Page = Page(sequence: nat, now: Pair)

  /** What the reader is about to do. `Snapshot` is the loop that
      `selinux_status_getenforce`, `selinux_status_policyload` and
      `selinux_status_open` share. */
  datatype Pc =
    | Idle
    | ReadSequence
    | LoadEnforcing
    | LoadPolicyload
    | RereadSequence
    | Process
    | SnapshotRead(call: Call)
    | SnapshotLoad(call: Call)
    | SnapshotReread(call: Call)

  datatype Call = GetEnforce | GetPolicyload | Open

  /** `lastSeqno` is odd until the first call of `selinux_status_updated`. */
  datatype Reader = Reader(
    pc: Pc,
    curr: nat,
    seen: Pair,
    lastSeqno: nat,
    lastPolicyload: nat,
    avcEnforcing: nat,
    result: int)

  /** `published` maps each even sequence number to the pair that was complete under
      it. `synced`: the last call that had to act ended with 1. */
  datatype State = State(page: Page, published: map<nat, Pair>, reader: Reader, pinned: bool, synced: bool)

  const NEVER: nat := 0xffff_ffff

  datatype Step =
    | WriteBegin
    | WriteEnforcing(v: nat)
    | WritePolicyload(v: nat)
    | WriteEnd
    | CallUpdated
    | CallSnapshot(call: Call)
    | Read
    | Handle(setenforceOk: bool, policyloadOk: bool)

  predicate IsWrite(step: Step) {
    step.WriteBegin? || step.WriteEnforcing? || step.WritePolicyload? || step.WriteEnd?
  }

  predicate Odd(n: nat) {
    n % 2 == 1
  }

  predicate Enabled(s: State, step: Step) {
    match step
    case WriteBegin => !Odd(s.page.sequence)
    case WriteEnforcing(_) => Odd(s.page.sequence)
    case WritePolicyload(_) => Odd(s.page.sequence)
    case WriteEnd => Odd(s.page.sequence)
    case CallUpdated => s.reader.pc.Idle?
    case CallSnapshot(_) => s.reader.pc.Idle?
    case Read => !s.reader.pc.Idle? && !s.reader.pc.Process?
    case Handle(_, _) => s.reader.pc.Process?
  }

  /** What `Read` does at each program counter. A sequence number that is odd is
      read again. */
  function ReadStep(r: Reader, page: Page): Reader
    requires !r.pc.Idle? && !r.pc.Process?
  {
    match r.pc
    case ReadSequence =>
      if Odd(page.sequence) then r
      else
        var last := if Odd(r.lastSeqno) then page.sequence else r.lastSeqno;
        if last == page.sequence then r.(pc := Idle, curr := page.sequence, lastSeqno := last, result := 0)
        else r.(pc := LoadEnforcing, curr := page.sequence, lastSeqno := last)
    case LoadEnforcing => r.(pc := LoadPolicyload, seen := r.seen.(enforcing := page.now.enforcing))
    case LoadPolicyload => r.(pc := RereadSequence, seen := r.seen.(policyload := page.now.policyload))
    case RereadSequence =>
      if Odd(page.sequence) then r
      else if r.curr == page.sequence then r.(pc := Process)
      else r.(pc := LoadEnforcing, curr := page.sequence)
    case SnapshotRead(call) =>
      if Odd(page.sequence) then r else r.(pc := SnapshotLoad(call), curr := page.sequence)
    case SnapshotLoad(call) =>
      r.(pc := SnapshotReread(call),
         seen := if call.GetEnforce? then r.seen.(enforcing := page.now.enforcing)
                 else r.seen.(policyload := page.now.policyload))
    case SnapshotReread(call) =>
      if Odd(page.sequence) then r
      else if r.curr != page.sequence then r.(pc := SnapshotRead(call))
      else
        match call
        case GetEnforce => r.(pc := Idle, result := if r.seen.enforcing != 0 then 1 else 0)
        case GetPolicyload => r.(pc := Idle, result := r.seen.policyload)
        case Open => r.(pc := Idle, result := 0, lastSeqno := NEVER, lastPolicyload := r.seen.policyload)
  }

  /** The end of `selinux_status_updated`: hand a changed mode and a changed policy
      to the cache; either handler may fail. */
  function HandleStep(r: Reader, pinned: bool, setenforceOk: bool, policyloadOk: bool): Reader {
    var r1 := if r.avcEnforcing != r.seen.enforcing && !pinned then r.(avcEnforcing := r.seen.enforcing) else r;
    if r.avcEnforcing != r.seen.enforcing && !setenforceOk then r1.(pc := Idle, result := -1)
    else if r.lastPolicyload != r.seen.policyload && !policyloadOk then r1.(pc := Idle, result := -1)
    else r1.(pc := Idle, result := 1, lastPolicyload := r.seen.policyload, lastSeqno := r.curr)
  }

  function Apply(s: State, step: Step): State
    requires Enabled(s, step)
  {
    match step
    case WriteBegin => s.(page := s.page.(sequence := s.page.sequence + 1))
    case WriteEnforcing(v) => s.(page := s.page.(now := s.page.now.(enforcing := v)))
    case WritePolicyload(v) => s.(page := s.page.(now := s.page.now.(policyload := v)))
    case WriteEnd =>
      var n := s.page.sequence + 1;
      s.(page := s.page.(sequence := n), published := s.published[n := s.page.now])
    case CallUpdated => s.(reader := s.reader.(pc := ReadSequence))
    case CallSnapshot(call) => s.(reader := s.reader.(pc := SnapshotRead(call)))
    case Read =>
      var r := ReadStep(s.reader, s.page);
      s.(reader := r, synced := s.synced && !Odd(r.lastSeqno))
    case Handle(ok1, ok2) =>
      var r := HandleStep(s.reader, s.pinned, ok1, ok2);
      s.(reader := r, synced := r.result == 1)
  }

  /** The page is mapped between two updates, before any call. */
  predicate Init(s: State) {
    && !Odd(s.page.sequence) && s.published == map[s.page.sequence := s.page.now]
    && s.reader.pc.Idle? && s.reader.lastSeqno == NEVER && !s.synced
  }

  ghost predicate Possible(s: State, steps: seq<Step>)
    decreases |steps|, 0
  {
    steps == [] ||
    (Possible(s, steps[..|steps| - 1]) && Enabled(Run(s, steps[..|steps| - 1]), steps[|steps| - 1]))
  }

  ghost function Run(s: State, steps: seq<Step>): State
    requires Possible(s, steps)
    decreases |steps|, 1
  {
    if steps == [] then s else Apply(Run(s, steps[..|steps| - 1]), steps[|steps| - 1])
  }

  // ------------------------------------------------------------------
  // The invariant
  // ------------------------------------------------------------------

  /** `n` was even when the reader saw it, so it is published and not ahead of the
      page. */
  ghost predicate Seen(s: State, n: nat) {
    !Odd(n) && n <= s.page.sequence && n in s.published
  }

  ghost predicate Inv(s: State) {
    var r := s.reader;
    // between updates the page holds what was published last
    && (!Odd(s.page.sequence) ==> s.page.sequence in s.published && s.published[s.page.sequence] == s.page.now)
    && (Odd(s.page.sequence) ==> s.page.sequence - 1 in s.published)
    && (forall n | n in s.published :: !Odd(n) && n <= s.page.sequence)
    && (Odd(r.lastSeqno) || Seen(s, r.lastSeqno))
    && (s.synced ==>
          && Seen(s, r.lastSeqno) && r.lastPolicyload == s.published[r.lastSeqno].policyload
          && (!s.pinned ==> r.avcEnforcing == s.published[r.lastSeqno].enforcing))
    // what has been loaded is right unless the page has moved on
    && match r.pc
       case Idle => true
       case ReadSequence => true
       case LoadEnforcing => Acting(s)
       case LoadPolicyload => Acting(s) && (s.page.sequence == r.curr ==> r.seen.enforcing == s.page.now.enforcing)
       case RereadSequence => Acting(s) && (s.page.sequence == r.curr ==> r.seen == s.page.now)
       case Process => Acting(s) && r.seen == s.published[r.curr]
       case SnapshotRead(_) => true
       case SnapshotLoad(_) => Seen(s, r.curr)
       case SnapshotReread(call) =>
         Seen(s, r.curr) && (s.page.sequence == r.curr ==> Field(call, r.seen) == Field(call, s.page.now))
  }

  /** The reader has seen a newer sequence number than the one it acted on last. */
  ghost predicate Acting(s: State) {
    Seen(s, s.reader.curr) && !Odd(s.reader.lastSeqno) && s.reader.lastSeqno < s.reader.curr
  }

  function Field(call: Call, p: Pair): nat {
    if call.GetEnforce? then p.enforcing else p.policyload
  }

  lemma WriteKeepsInv(s: State, step: Step)
    requires Inv(s) && Enabled(s, step) && IsWrite(step)
    ensures Inv(Apply(s, step))
  {
    match step
    case WriteBegin =>
    case WriteEnforcing(_) =>
    case WritePolicyload(_) =>
    case WriteEnd =>
  }

  lemma CallKeepsInv(s: State, step: Step)
    requires Inv(s) && Enabled(s, step) && (step.CallUpdated? || step.CallSnapshot?)
    ensures Inv(Apply(s, step))
  {
  }

  lemma ReadKeepsInv(s: State)
    requires Inv(s) && Enabled(s, Read) && !Snapping(s.reader.pc)
    ensures Inv(Apply(s, Read))
  {
    match s.reader.pc
    case ReadSequence =>
    case LoadEnforcing =>
    case LoadPolicyload =>
    case RereadSequence =>
  }

  predicate Snapping(pc: Pc) {
    pc.SnapshotRead? || pc.SnapshotLoad? || pc.SnapshotReread?
  }

  lemma SnapshotKeepsInv(s: State)
    requires Inv(s) && Snapping(s.reader.pc)
    ensures Inv(Apply(s, Read))
  {
    match s.reader.pc
    case SnapshotRead(_) =>
    case SnapshotLoad(_) =>
    case SnapshotReread(_) =>
  }

  lemma HandleKeepsInv(s: State, setenforceOk: bool, policyloadOk: bool)
    requires Inv(s) && s.reader.pc.Process?
    ensures Inv(Apply(s, Handle(setenforceOk, policyloadOk)))
  {
  }

  lemma StepKeepsInv(s: State, step: Step)
    requires Inv(s) && Enabled(s, step)
    ensures Inv(Apply(s, step))
  {
    hide Inv, Apply;
    match step
    case WriteBegin => WriteKeepsInv(s, step);
    case WriteEnforcing(_) => WriteKeepsInv(s, step);
    case WritePolicyload(_) => WriteKeepsInv(s, step);
    case WriteEnd => WriteKeepsInv(s, step);
    case CallUpdated => CallKeepsInv(s, step);
    case CallSnapshot(_) => CallKeepsInv(s, step);
    case Handle(ok1, ok2) => HandleKeepsInv(s, ok1, ok2);
    case Read =>
      if Snapping(s.reader.pc) {
        SnapshotKeepsInv(s);
      } else {
        ReadKeepsInv(s);
      }
  }

  lemma {:induction false} RunKeepsInv(s: State, steps: seq<Step>)
    requires Init(s) && Possible(s, steps)
    ensures Inv(Run(s, steps))
    decreases |steps|
  {
    if steps != [] {
      RunKeepsInv(s, steps[..|steps| - 1]);
      StepKeepsInv(Run(s, steps[..|steps| - 1]), steps[|steps| - 1]);
    }
  }

  // ------------------------------------------------------------------
  // What the calls promise
  // ------------------------------------------------------------------

  /** At some instant of the run the page, between two updates, held p under n. */
  ghost predicate HeldDuring(s: State, steps: seq<Step>, n: nat, p: Pair)
    requires Possible(s, steps)
  {
    exists k | 0 <= k <= |steps| && Possible(s, steps[..k]) :: HeldAt(Run(s, steps[..k]), n, p)
  }

  ghost predicate HeldAt(s: State, n: nat, p: Pair) {
    !Odd(n) && s.page == Page(n, p)
  }

  lemma HeldLater(s: State, steps: seq<Step>, n: nat, p: Pair)
    requires steps != [] && Possible(s, steps) && HeldDuring(s, steps[..|steps| - 1], n, p)
    ensures HeldDuring(s, steps, n, p)
  {
    var front := steps[..|steps| - 1];
    var k :| 0 <= k <= |front| && Possible(s, front[..k]) && HeldAt(Run(s, front[..k]), n, p);
    assert front[..k] == steps[..k];
  }

  lemma HeldNow(s: State, steps: seq<Step>, n: nat, p: Pair)
    requires Possible(s, steps) && HeldAt(Run(s, steps), n, p)
    ensures HeldDuring(s, steps, n, p)
  {
    assert steps[..|steps|] == steps;
  }

  /** `published` holds nothing but pairs that were complete on the page. */
  lemma {:induction false} PublishedWereHeld(s: State, steps: seq<Step>, n: nat)
    requires Init(s) && Possible(s, steps) && n in Run(s, steps).published
    ensures HeldDuring(s, steps, n, Run(s, steps).published[n])
    decreases |steps|
  {
    var p := Run(s, steps).published[n];
    if steps == [] {
      HeldNow(s, steps, n, p);
    } else {
      var front, last := steps[..|steps| - 1], steps[|steps| - 1];
      RunKeepsInv(s, steps);
      if last.WriteEnd? && n == Run(s, steps).page.sequence {
        HeldNow(s, steps, n, p);
      } else {
        PublishedWereHeld(s, front, n);
        HeldLater(s, steps, n, p);
      }
    }
  }

  /** A call of `selinux_status_updated` that finds a change takes effect at its last
      read of the sequence number: what it goes on to handle is the whole pair that
      is complete on the page at that instant, and newer than the last one handled. */
  lemma AcceptIsAtomic(s: State, steps: seq<Step>)
    requires Init(s) && Possible(s, steps) && Enabled(Run(s, steps), Read)
    requires Apply(Run(s, steps), Read).reader.pc.Process?
    ensures var before, after := Run(s, steps), Apply(Run(s, steps), Read).reader;
            && HeldAt(before, after.curr, after.seen)
            && !Odd(after.lastSeqno) && after.lastSeqno < after.curr
  {
    RunKeepsInv(s, steps);
  }

  /** The same for the three one-field calls. */
  lemma SnapshotIsAtomic(s: State, steps: seq<Step>)
    requires Init(s) && Possible(s, steps) && Run(s, steps).reader.pc.SnapshotReread?
    requires Apply(Run(s, steps), Read).reader.pc.Idle?
    ensures var before, after := Run(s, steps), Apply(Run(s, steps), Read).reader;
            && HeldAt(before, before.reader.curr, before.page.now)
            && match before.reader.pc.call
               case GetEnforce => after.result == if before.page.now.enforcing != 0 then 1 else 0
               case GetPolicyload => after.result == before.page.now.policyload
               case Open => after.result == 0 && after.lastPolicyload == before.page.now.policyload && Odd(after.lastSeqno)
  {
    RunKeepsInv(s, steps);
  }

  /** A call that returns 1 leaves the mode and the policy number as some pair that
      was published as a whole. */
  lemma OneMeansPublished(s: State, steps: seq<Step>)
    requires Init(s) && Possible(s, steps) && steps != [] && steps[|steps| - 1].Handle?
    requires Run(s, steps).reader.result == 1
    ensures var t := Run(s, steps);
            && t.reader.lastSeqno in t.published
            && HeldDuring(s, steps, t.reader.lastSeqno, t.published[t.reader.lastSeqno])
            && t.reader.lastPolicyload == t.published[t.reader.lastSeqno].policyload
            && (!t.pinned ==> t.reader.avcEnforcing == t.published[t.reader.lastSeqno].enforcing)
            && (t.pinned ==> t.reader.avcEnforcing == Run(s, steps[..|steps| - 1]).reader.avcEnforcing)
            && Run(s, steps[..|steps| - 1]).reader.lastSeqno < t.reader.lastSeqno
  {
    RunKeepsInv(s, steps[..|steps| - 1]);
    RunKeepsInv(s, steps);
    PublishedWereHeld(s, steps, Run(s, steps).reader.lastSeqno);
  }

  /** A later call that returns 0 does so with no update begun since the one handled
      last; if that one was handled with success, mode and policy number are the
      page's at that instant. */
  lemma ZeroMeansUnchanged(s: State, steps: seq<Step>)
    requires Init(s) && Possible(s, steps) && Run(s, steps).reader.pc.ReadSequence?
    requires Apply(Run(s, steps), Read).reader.pc.Idle? && !Odd(Run(s, steps).reader.lastSeqno)
    ensures var t := Run(s, steps);
            && Apply(t, Read).reader.result == 0
            && HeldAt(t, t.reader.lastSeqno, t.page.now)
            && (t.synced ==> t.reader.lastPolicyload == t.page.now.policyload)
            && (t.synced && !t.pinned ==> t.reader.avcEnforcing == t.page.now.enforcing)
  {
    RunKeepsInv(s, steps);
  }

  /** Step k of the run completes an opening of the page. */
  ghost predicate OpensAt(s: State, steps: seq<Step>, k: nat)
    requires Possible(s, steps)
  {
    && k < |steps| && steps[k].Read? && Possible(s, steps[..k])
    && Run(s, steps[..k]).reader.pc == SnapshotReread(Open) && Enabled(Run(s, steps[..k]), Read)
    && Apply(Run(s, steps[..k]), Read).reader.pc.Idle?
  }

  /** After step k no change is handled and the page is not opened again. */
  ghost predicate NothingHandled(steps: seq<Step>, k: nat) {
    forall i | k < i < |steps| :: !steps[i].Handle? && steps[i] != CallSnapshot(Open)
  }

  predicate Opening(pc: Pc) {
    (pc.SnapshotRead? || pc.SnapshotLoad? || pc.SnapshotReread?) && pc.call.Open?
  }

  /** Until a change is handled the reader's policy number is the one it was opened
      with. */
  lemma {:induction false} NumberSinceOpen(s: State, steps: seq<Step>, k: nat)
    requires Init(s) && Possible(s, steps) && OpensAt(s, steps, k) && NothingHandled(steps, k)
    ensures Run(s, steps).reader.lastPolicyload == Run(s, steps[..k]).page.now.policyload
    ensures !Opening(Run(s, steps).reader.pc)
    decreases |steps|
  {
    var n := |steps| - 1;
    if k == n {
      SnapshotIsAtomic(s, steps[..k]);
    } else {
      var front := steps[..n];
      assert front[..k] == steps[..k];
      assert forall i | 0 <= i < n :: front[i] == steps[i];
      NumberSinceOpen(s, front, k);
    }
  }

  /** A call that returns 0 before any change was handled, the first call always being
      one, leaves the reader with the page's policy number if and only if that is
      what it was when the page was opened: a load before the first call is never
      reported. */
  lemma FirstCallIsSilent(s: State, steps: seq<Step>, k: nat)
    requires Init(s) && Possible(s, steps) && OpensAt(s, steps, k) && NothingHandled(steps, k)
    requires Run(s, steps).reader.pc.ReadSequence? && !Odd(Run(s, steps).page.sequence)
    requires Odd(Run(s, steps).reader.lastSeqno) || Run(s, steps).reader.lastSeqno == Run(s, steps).page.sequence
    ensures var t, r := Run(s, steps), Apply(Run(s, steps), Read).reader;
            && r.pc.Idle? && r.result == 0 && HeldAt(t, r.lastSeqno, t.page.now)
            && (r.lastPolicyload == t.page.now.policyload <==>
                  t.page.now.policyload == Run(s, steps[..k]).page.now.policyload)
  {
    hide Run, Possible, Init, OpensAt;
    NumberSinceOpen(s, steps, k);
  }

  /** How many reads a resting writer leaves the reader to do. */
  function Remaining(s: State): nat {
    var current := s.reader.curr == s.page.sequence;
    match s.reader.pc
    case Idle => 0
    case Process => 0
    case ReadSequence => 4
    case LoadEnforcing => if current then 3 else 6
    case LoadPolicyload => if current then 2 else 5
    case RereadSequence => if current then 1 else 4
    case SnapshotRead(_) => 3
    case SnapshotLoad(_) => if current then 2 else 5
    case SnapshotReread(_) => if current then 1 else 4
  }

  /** The reader alone, until it leaves its loop. */
  ghost function Settle(s: State): State
    requires !Odd(s.page.sequence)
    decreases Remaining(s)
  {
    if s.reader.pc.Idle? || s.reader.pc.Process? then s else Settle(Apply(s, Read))
  }

  /** While the writer rests every retry loop ends, after at most six reads from
      wherever the reader is, and a call that goes on to handle a change has the
      page's own pair. */
  lemma {:induction false} QuietCallEnds(s: State)
    requires Inv(s) && !Odd(s.page.sequence) && Enabled(s, Read)
    ensures Remaining(s) <= 6
    ensures var t := Settle(s);
            && t.page == s.page && (t.reader.pc.Idle? || t.reader.pc.Process?)
            && (t.reader.pc.Process? ==> HeldAt(s, t.reader.curr, t.reader.seen))
    decreases Remaining(s)
  {
    var s' := Apply(s, Read);
    StepKeepsInv(s, Read);
    assert Remaining(s') < Remaining(s);
    if Enabled(s', Read) {
      QuietCallEnds(s');
    }
  }

  /** How a change is handled: the call returns 1 exactly when the mode is unchanged or
      its handler succeeds, and the same holds of the policy number; otherwise it
      returns -1 and keeps both numbers. */
  ghost predicate Reported(before: Reader, n: nat, p: Pair, pinned: bool, setenforceOk: bool, policyloadOk: bool, after: Reader) {
    && after.pc.Idle?
    && (after.result == 1 <==>
          (before.avcEnforcing == p.enforcing || setenforceOk) && (before.lastPolicyload == p.policyload || policyloadOk))
    && (after.result == 1 ==> after.lastSeqno == n && after.lastPolicyload == p.policyload)
    && (after.result != 1 ==>
          after.result == -1 && after.lastSeqno == before.lastSeqno && after.lastPolicyload == before.lastPolicyload)
    && after.avcEnforcing == if pinned then before.avcEnforcing else p.enforcing
  }

  lemma HandleReports(s: State, setenforceOk: bool, policyloadOk: bool)
    requires s.reader.pc.Process?
    ensures var t := Apply(s, Handle(setenforceOk, policyloadOk));
            Reported(s.reader, s.reader.curr, s.reader.seen, s.pinned, setenforceOk, policyloadOk, t.reader)
  {
  }

  /** A reader about to handle a change accepted it at some read; only the kernel has
      moved since. */
  lemma {:induction false} Accepted(s: State, steps: seq<Step>) returns (k: nat)
    requires Init(s) && Possible(s, steps) && Run(s, steps).reader.pc.Process?
    ensures k < |steps| && steps[k].Read? && (forall i | k < i < |steps| :: IsWrite(steps[i]))
    ensures Possible(s, steps[..k]) && Enabled(Run(s, steps[..k]), Read)
    ensures Run(s, steps).reader == Apply(Run(s, steps[..k]), Read).reader && Run(s, steps).pinned == Run(s, steps[..k]).pinned
    decreases |steps|
  {
    hide Apply, Enabled;
    NotHandling(s);
    var n := |steps| - 1;
    var front := steps[..n];
    if steps[n].Read? {
      k := n;
      OnlyReader(Run(s, front), steps[n]);
    } else {
      OnlyWrites(Run(s, front), steps[n]);
      k := Accepted(s, front);
      assert front[..k] == steps[..k] && forall i | 0 <= i < n :: front[i] == steps[i];
    }
  }

  lemma NotHandling(s: State)
    requires Init(s)
    ensures !s.reader.pc.Process?
  {
  }

  lemma OnlyReader(s: State, step: Step)
    requires Enabled(s, step)
    ensures Apply(s, step).pinned == s.pinned
  {
  }

  lemma OnlyWrites(s: State, step: Step)
    requires Enabled(s, step) && Apply(s, step).reader.pc.Process? && !step.Read?
    ensures IsWrite(step) && Apply(s, step).reader == s.reader && Apply(s, step).pinned == s.pinned
  {
  }

  /** Every change that is handled, in any run, is the pair that was complete on the
      page when the call last read the sequence number, and is reported as such,
      however the kernel moves on meanwhile. */
  lemma ChangeIsReported(s: State, steps: seq<Step>) returns (k: nat)
    requires Init(s) && Possible(s, steps) && steps != [] && steps[|steps| - 1].Handle?
    ensures k < |steps| - 1 && Possible(s, steps[..k])
    ensures forall i | k < i < |steps| - 1 :: IsWrite(steps[i])
    ensures var t, u, last := Run(s, steps[..k]), Run(s, steps), steps[|steps| - 1];
            && HeldAt(t, t.page.sequence, t.page.now) && t.reader.lastSeqno < t.page.sequence
            && Reported(t.reader, t.page.sequence, t.page.now, t.pinned, last.setenforceOk, last.policyloadOk, u.reader)
  {
    hide Inv, Init;
    var front := steps[..|steps| - 1];
    k := Accepted(s, front);
    assert front[..k] == steps[..k] && forall i | 0 <= i < |front| :: front[i] == steps[i];
    AcceptIsAtomic(s, steps[..k]);
    AcceptKeeps(Run(s, steps[..k]));
    var last := steps[|steps| - 1];
    HandleReports(Run(s, front), last.setenforceOk, last.policyloadOk);
  }

  lemma AcceptKeeps(s: State)
    requires Enabled(s, Read) && Apply(s, Read).reader.pc.Process?
    ensures var r, t := s.reader, Apply(s, Read).reader;
            t.lastSeqno == r.lastSeqno && t.lastPolicyload == r.lastPolicyload && t.avcEnforcing == r.avcEnforcing
  {
  }

  /** A call of `selinux_status_updated` that the kernel leaves alone. It goes on to
      handle a change exactly when an earlier call saw another sequence number, and
      then reports the page's pair; otherwise it returns 0. A change whose handler
      failed is therefore found again. */
  lemma QuietCallReports(s: State, steps: seq<Step>, setenforceOk: bool, policyloadOk: bool)
    requires Init(s) && Possible(s, steps)
    requires Run(s, steps).reader.pc.ReadSequence? && !Odd(Run(s, steps).page.sequence)
    ensures var t := Run(s, steps);
            var u := Settle(t);
            && (u.reader.pc.Process? <==> !Odd(t.reader.lastSeqno) && t.reader.lastSeqno != t.page.sequence)
            && (u.reader.pc.Process? ==>
                  Reported(t.reader, t.page.sequence, t.page.now, t.pinned, setenforceOk, policyloadOk,
                           Apply(u, Handle(setenforceOk, policyloadOk)).reader))
            && (!u.reader.pc.Process? ==>
                  u.reader == t.reader.(pc := Idle, curr := t.page.sequence, lastSeqno := t.page.sequence, result := 0))
  {
    hide Inv, Init, Run, Possible, HandleStep, Reported;
    var t := Run(s, steps);
    var t1 := Apply(t, Read);
    if t1.reader.pc.LoadEnforcing? {
      var t2 := Apply(t1, Read);
      var t3 := Apply(t2, Read);
      var t4 := Apply(t3, Read);
      assert t4.reader == t1.reader.(pc := Process, seen := t.page.now);
      assert Settle(t3) == Settle(t4) == t4;
      assert Settle(t1) == Settle(t2) == Settle(t3);
      HandleReports(t4, setenforceOk, policyloadOk);
      ReportedBefore(t4.reader, t.reader, t.page.sequence, t.page.now, t.pinned, setenforceOk, policyloadOk,
                     Apply(t4, Handle(setenforceOk, policyloadOk)).reader);
    }
  }

  lemma ReportedBefore(a: Reader, b: Reader, n: nat, p: Pair, pinned: bool, ok1: bool, ok2: bool, after: Reader)
    requires a.avcEnforcing == b.avcEnforcing && a.lastPolicyload == b.lastPolicyload && a.lastSeqno == b.lastSeqno
    requires Reported(a, n, p, pinned, ok1, ok2, after)
    ensures Reported(b, n, p, pinned, ok1, ok2, after)
  {
  }

  // ------------------------------------------------------------------
  // Why the sequence number is read again
  // ------------------------------------------------------------------

  /** A run with its steps so far and its current state. */
  datatype Trace = Trace(steps: seq<Step>, state: State)

  ghost predicate Reached(s: State, r: Trace) {
    Possible(s, r.steps) && Run(s, r.steps) == r.state
  }

  lemma Extend(s: State, r: Trace, step: Step) returns (r': Trace)
    requires Reached(s, r) && Enabled(r.state, step)
    ensures r' == Trace(r.steps + [step], Apply(r.state, step)) && Reached(s, r')
  {
    r' := Trace(r.steps + [step], Apply(r.state, step));
    assert r'.steps[..|r'.steps| - 1] == r.steps;
  }

  ghost predicate Torn(s: State) {
    s.reader.pc.RereadSequence? && forall n | n in s.published :: s.published[n] != s.reader.seen
  }

  /** The pair in the reader's hands before it reads the number again need never
      have been published: one update between its two loads is enough. */
  lemma TornPairExists() returns (s: State, steps: seq<Step>)
    ensures Init(s) && Possible(s, steps) && Torn(Run(s, steps))
  {
    hide Possible, Run;
    s := State(Page(0, Pair(0, 0)), map[0 := Pair(0, 0)], Reader(Idle, 0, Pair(0, 0), NEVER, 0, 0, 0), false, false);
    var r0 := Start(s);
    var r1 := Extend(s, r0, CallUpdated);
    var r2 := Extend(s, r1, Read);
    var r3 := Extend(s, r2, WriteBegin);
    var r4 := Extend(s, r3, WritePolicyload(1));
    var r5 := Extend(s, r4, WriteEnd);
    var r6 := Extend(s, r5, CallUpdated);
    var r7 := Extend(s, r6, Read);
    var r8 := Extend(s, r7, Read);
    var r9 := Extend(s, r8, WriteBegin);
    var r10 := Extend(s, r9, WriteEnforcing(1));
    var r11 := Extend(s, r10, WritePolicyload(2));
    var r12 := Extend(s, r11, WriteEnd);
    var r13 := Extend(s, r12, Read);
    steps := r13.steps;
  }

  lemma Start(s: State) returns (r: Trace)
    ensures r == Trace([], s) && Reached(s, r)
  {
    r := Trace([], s);
  }

  /** The page is between updates and its policy number is not the reader's, although
      the last call said that nothing had changed. */
  ghost predicate Stale(s: State) {
    && s.reader.pc.Idle? && s.reader.result == 0 && s.reader.lastSeqno == s.page.sequence
    && s.reader.lastPolicyload != s.page.now.policyload
  }

  /** A policy loaded between opening and the first call goes unreported. */
  lemma UnreportedLoadExists() returns (s: State, steps: seq<Step>)
    ensures Init(s) && Possible(s, steps) && Stale(Run(s, steps))
  {
    hide Possible, Run;
    s := State(Page(0, Pair(0, 0)), map[0 := Pair(0, 0)], Reader(Idle, 0, Pair(0, 0), NEVER, 0, 0, 0), false, false);
    var r0 := Start(s);
    var r1 := Extend(s, r0, CallSnapshot(Open));
    var r2 := Extend(s, r1, Read);
    var r3 := Extend(s, r2, Read);
    var r4 := Extend(s, r3, Read);
    var r5 := Extend(s, r4, WriteBegin);
    var r6 := Extend(s, r5, WritePolicyload(1));
    var r7 := Extend(s, r6, WriteEnd);
    var r8 := Extend(s, r7, CallUpdated);
    var r9 := Extend(s, r8, Read);
    steps := r9.steps;
  }
}

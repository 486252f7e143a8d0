/** The two-pass scope machine of checkpolicy/module_compiler.c: the stack of
    optional blocks, the chain of blocks and their declarations that the first pass
    builds, and the second pass that finds them again.

    Blocks are numbered along their chain, the global one first, and a block is the
    list of its declarations: the main branch, then the else branch. A requirement
    is a number; the symbol tables behind it are not modelled. */
module Scopes {
  import opened Wrappers

  datatype Decl = Decl(id: nat, required: set<nat>)

  datatype Frame = Frame(block: nat, branch: nat, inElse: bool, requireGiven: bool)

  datatype State = State(blocks: seq<seq<Decl>>, stack: seq<Frame>, lastBlock: nat, nextId: nat)

  /** Close is the end of a branch, End the end of the whole optional. */
  datatype Event = Begin | Require(x: nat) | Close | Else | End

  datatype Pass = First | Second

  function Top(s: State): Frame
    requires s.stack != []
  {
    s.stack[|s.stack| - 1]
  }

  // ------------------------------------------------------------------
  // The operations
  // ------------------------------------------------------------------

  /** The asserts of the source, and what it dereferences. */
  predicate Asserts(pass: Pass, s: State, e: Event) {
    && s.stack != [] && Top(s).block < |s.blocks| && Top(s).branch < |s.blocks[Top(s).block]|
    && match e
       case Begin =>
         && s.lastBlock < |s.blocks|
         && (pass.Second? ==>
               && s.lastBlock + 1 < |s.blocks| && s.blocks[s.lastBlock + 1] != []
               && s.blocks[s.lastBlock + 1][0].id == s.nextId)
       case Else =>
         && !Top(s).inElse
         && (pass.Second? ==>
               && |s.blocks[Top(s).block]| == Top(s).branch + 2
               && s.blocks[Top(s).block][Top(s).branch + 1].id == s.nextId)
       case _ => true
  }

  function Restacked(s: State, f: Frame): State
    requires s.stack != []
  {
    s.(stack := s.stack[|s.stack| - 1 := f])
  }

  /** Everything that the declarations of these frames require. */
  function Inherited(blocks: seq<seq<Decl>>, stack: seq<Frame>): set<nat> {
    if stack == [] then {}
    else
      var f := stack[|stack| - 1];
      (if f.block < |blocks| && f.branch < |blocks[f.block]| then blocks[f.block][f.branch].required else {})
      + Inherited(blocks, stack[..|stack| - 1])
  }

  function WithRequired(blocks: seq<seq<Decl>>, f: Frame, more: set<nat>): seq<seq<Decl>>
    requires f.block < |blocks| && f.branch < |blocks[f.block]|
  {
    var d := blocks[f.block][f.branch];
    blocks[f.block := blocks[f.block][f.branch := d.(required := d.required + more)]]
  }

  /** One event of a pass; the flag says whether it succeeds. `base` is a base
      policy. */
  function Step(pass: Pass, base: bool, s: State, e: Event): (State, bool)
    requires Asserts(pass, s, e)
  {
    var f := Top(s);
    match e
    case Begin =>
      var b := s.lastBlock + 1;
      (State(if pass.First? then s.blocks[..b] + [[Decl(s.nextId, {})]] else s.blocks,
             s.stack + [Frame(b, 0, false, false)], b, s.nextId + 1), true)
    case Require(x) =>
      if pass.Second? then (s, true)
      else if f.inElse then (s, false)
      else (Restacked(s.(blocks := WithRequired(s.blocks, f, {x})), f.(requireGiven := true)), true)
    case Close =>
      if pass.Second? then
        (s.(blocks := WithRequired(s.blocks, f, Inherited(s.blocks, s.stack[..|s.stack| - 1]))), true)
      else (s, f.inElse || f.requireGiven || (base && |s.stack| > 1))
    case Else =>
      var d := s.blocks[f.block];
      (Restacked(s.(blocks := if pass.First? then s.blocks[f.block := d[..f.branch + 1] + [Decl(s.nextId, {})]] else s.blocks,
                    nextId := s.nextId + 1),
                 Frame(f.block, f.branch + 1, true, false)), true)
    case End => (s.(stack := s.stack[..|s.stack| - 1]), true)
  }

  /** `define_policy` at the start of each pass. */
  function Start(blocks: seq<seq<Decl>>): State {
    State(blocks, [Frame(0, 0, false, false)], 0, 2)
  }

  const EMPTY: seq<seq<Decl>> := [[Decl(1, {})]]

  // ------------------------------------------------------------------
  // Well-nested events
  // ------------------------------------------------------------------

  datatype Nest = Body | Closed | ElseBody | ElseClosed

  /** Where the grammar stands after the events: the open optionals, inside the
      global block. */
  function Nesting(events: seq<Event>): Option<seq<Nest>> {
    if events == [] then Some([Body])
    else
      var n := |events| - 1;
      var before := Nesting(events[..n]);
      if before.None? then None else Advance(before.value, events[n])
  }

  function Advance(nest: seq<Nest>, e: Event): Option<seq<Nest>> {
    if nest == [] then None
    else
      var n := |nest| - 1;
      var top := nest[n];
      match e
      case Begin => if top.Body? || top.ElseBody? then Some(nest + [Body]) else None
      case Require(_) => if top.Body? || top.ElseBody? then Some(nest) else None
      case Close =>
        if top.Body? then Some(nest[n := Closed]) else if top.ElseBody? then Some(nest[n := ElseClosed]) else None
      case Else => if n > 0 && top.Closed? then Some(nest[n := ElseBody]) else None
      case End => if n > 0 && (top.Closed? || top.ElseClosed?) then Some(nest[..n]) else None
  }

  /** A statement of the grammar, as far as scopes see it. */
  datatype Statement =
    | Need(x: nat)
    | Optional(body: seq<Statement>)
    | OptionalElse(body: seq<Statement>, other: seq<Statement>)

  /** The events of a statement, and of a list of them. */
  function EventsOf(s: Statement): seq<Event>
    decreases s
  {
    match s
    case Need(x) => [Require(x)]
    case Optional(body) => [Begin] + AllEvents(body) + [Close] + [End]
    case OptionalElse(body, other) => [Begin] + AllEvents(body) + [Close] + [Else] + AllEvents(other) + [Close] + [End]
  }

  function AllEvents(ss: seq<Statement>): seq<Event>
    decreases ss
  {
    if ss == [] then [] else EventsOf(ss[0]) + AllEvents(ss[1..])
  }

  lemma {:induction false} NestingSnoc(before: seq<Event>, e: Event)
    requires Nesting(before).Some?
    ensures Nesting(before + [e]) == Advance(Nesting(before).value, e)
  {
    assert (before + [e])[..|before|] == before;
  }

  ghost predicate Open(events: seq<Event>) {
    Nesting(events).Some? &&
    var nest := Nesting(events).value;
    nest != [] && (nest[|nest| - 1].Body? || nest[|nest| - 1].ElseBody?)
  }

  /** A list of statements may stand wherever a branch is open, and leaves the nesting
      as it was. */
  lemma {:induction false} StatementsNest(before: seq<Event>, ss: seq<Statement>)
    requires Open(before)
    ensures Nesting(before + AllEvents(ss)) == Nesting(before) && Open(before + AllEvents(ss))
    decreases ss, 0
  {
    hide Nesting, EventsOf;
    if ss == [] {
      assert before + AllEvents(ss) == before;
    } else {
      StatementNests(before, ss[0]);
      StatementsNest(before + EventsOf(ss[0]), ss[1..]);
      assert before + EventsOf(ss[0]) + AllEvents(ss[1..]) == before + AllEvents(ss);
    }
  }

  lemma {:induction false} StatementNests(before: seq<Event>, s: Statement)
    requires Open(before)
    ensures Nesting(before + EventsOf(s)) == Nesting(before)
    decreases s
  {
    hide Nesting, Advance, AllEvents;
    match s
    case Need(x) =>
      NestingSnoc(before, Require(x));
      AdvanceWithin(Nesting(before).value, x);
    case Optional(body) =>
      var a := MainNests(before, body);
      Regroup(before, [Begin], AllEvents(body), [Close], [End]);
      EndNests(before, a, Closed);
    case OptionalElse(body, other) =>
      var a := MainNests(before, body);
      var b := ElseNests(before, a, other);
      Regroup(before, [Begin], AllEvents(body), [Close], [Else]);
      Regroup(before, [Begin] + AllEvents(body) + [Close] + [Else], AllEvents(other), [Close], [End]);
      EndNests(before, b, ElseClosed);
  }

  lemma Regroup(p: seq<Event>, a: seq<Event>, b: seq<Event>, c: seq<Event>, d: seq<Event>)
    ensures p + (a + b + c + d) == p + a + b + c + d
  {
  }

  lemma AdvanceWithin(nest: seq<Nest>, x: nat)
    requires nest != [] && (nest[|nest| - 1].Body? || nest[|nest| - 1].ElseBody?)
    ensures Advance(nest, Require(x)) == Some(nest) && Advance(nest, Begin) == Some(nest + [Body])
  {
  }

  lemma {:induction false} MainNests(before: seq<Event>, ss: seq<Statement>) returns (after: seq<Event>)
    requires Open(before)
    ensures after == before + [Begin] + AllEvents(ss) + [Close] && Nesting(after) == Some(Nesting(before).value + [Closed])
    decreases ss, 1
  {
    hide Nesting, AllEvents;
    var nest := Nesting(before).value;
    NestingSnoc(before, Begin);
    StatementsNest(before + [Begin], ss);
    NestingSnoc(before + [Begin] + AllEvents(ss), Close);
    after := before + [Begin] + AllEvents(ss) + [Close];
    assert (nest + [Body])[|nest| := Closed] == nest + [Closed];
  }

  lemma {:induction false} ElseNests(before: seq<Event>, main: seq<Event>, ss: seq<Statement>) returns (after: seq<Event>)
    requires Open(before) && Nesting(main) == Some(Nesting(before).value + [Closed])
    ensures after == main + [Else] + AllEvents(ss) + [Close] && Nesting(after) == Some(Nesting(before).value + [ElseClosed])
    decreases ss, 1
  {
    hide Nesting, AllEvents;
    var nest := Nesting(before).value;
    NestingSnoc(main, Else);
    assert (nest + [Closed])[|nest| := ElseBody] == nest + [ElseBody];
    StatementsNest(main + [Else], ss);
    NestingSnoc(main + [Else] + AllEvents(ss), Close);
    after := main + [Else] + AllEvents(ss) + [Close];
    assert (nest + [ElseBody])[|nest| := ElseClosed] == nest + [ElseClosed];
  }

  lemma EndNests(before: seq<Event>, inner: seq<Event>, n: Nest)
    requires Open(before) && (n.Closed? || n.ElseClosed?) && Nesting(inner) == Some(Nesting(before).value + [n])
    ensures Nesting(inner + [End]) == Nesting(before)
  {
    hide Nesting;
    var nest := Nesting(before).value;
    NestingSnoc(inner, End);
    assert (nest + [n])[..|nest|] == nest;
  }

  /** Whatever the grammar produces is well nested. */
  lemma PoliciesNest(ss: seq<Statement>)
    ensures Nesting(AllEvents(ss) + [Close]) == Some([Closed])
  {
    StatementsNest([], ss);
    assert [] + AllEvents(ss) == AllEvents(ss);
    assert Nesting([]) == Some([Body]) && [Body][0 := Closed] == [Closed];
    NestingSnoc(AllEvents(ss), Close);
  }

  lemma {:induction false} NestingPrefix(events: seq<Event>, k: nat)
    requires Nesting(events).Some? && k <= |events|
    ensures Nesting(events[..k]).Some?
    decreases |events|
  {
    if k == |events| {
      assert events[..k] == events;
    } else {
      NestingPrefix(events[..|events| - 1], k);
      assert events[..|events| - 1][..k] == events[..k];
    }
  }

  // ------------------------------------------------------------------
  // The first pass
  // ------------------------------------------------------------------

  /** What the first pass keeps: the chain ends at the last block, a frame is on the
      newest declaration of its block, and outer frames have earlier blocks. */
  ghost predicate Inv1(s: State, nest: seq<Nest>) {
    && |s.stack| == |nest| > 0
    && s.lastBlock + 1 == |s.blocks|
    && (forall b | 0 <= b < |s.blocks| :: 1 <= |s.blocks[b]| <= 2)
    && (forall b, j | 0 <= b < |s.blocks| && 0 <= j < |s.blocks[b]| :: s.blocks[b][j].id < s.nextId)
    && (forall i | 0 <= i < |s.stack| :: FrameFits(s.blocks, s.stack[i], nest[i]))
    && (forall i, j | 0 <= i < j < |s.stack| :: s.stack[i].block < s.stack[j].block)
  }

  ghost predicate FrameFits(blocks: seq<seq<Decl>>, f: Frame, n: Nest) {
    && f.block < |blocks| && |blocks[f.block]| == f.branch + 1
    && (f.inElse <==> n.ElseBody? || n.ElseClosed?) && f.branch == if f.inElse then 1 else 0
  }

  /** The second list of blocks has all the declarations of the first, in the same
      places under the same numbers. */
  ghost predicate Extends(a: seq<seq<Decl>>, b: seq<seq<Decl>>) {
    && |a| <= |b|
    && (forall i | 0 <= i < |a| :: |a[i]| <= |b[i]|)
    && (forall i, j | 0 <= i < |a| && 0 <= j < |a[i]| :: a[i][j].id == b[i][j].id)
  }

  lemma Asserts1(s: State, nest: seq<Nest>, e: Event)
    requires Inv1(s, nest) && Advance(nest, e).Some?
    ensures Asserts(First, s, e)
  {
    assert FrameFits(s.blocks, s.stack[|nest| - 1], nest[|nest| - 1]);
  }

  lemma Begin1(base: bool, s: State, nest: seq<Nest>)
    requires Inv1(s, nest) && Advance(nest, Begin).Some? && Asserts(First, s, Begin)
    ensures var s' := Step(First, base, s, Begin).0; Inv1(s', Advance(nest, Begin).value) && Extends(s.blocks, s'.blocks)
  {
    var s', nest' := Step(First, base, s, Begin).0, Advance(nest, Begin).value;
    assert s'.blocks == s.blocks + [[Decl(s.nextId, {})]];
    forall i | 0 <= i < |s'.stack|
      ensures FrameFits(s'.blocks, s'.stack[i], nest'[i])
    {
      if i < |s.stack| {
        assert FrameFits(s.blocks, s.stack[i], nest[i]);
      }
    }
    forall i, j | 0 <= i < j < |s'.stack|
      ensures s'.stack[i].block < s'.stack[j].block
    {
      assert FrameFits(s.blocks, s.stack[i], nest[i]);
    }
  }

  /** Frames and declarations stay where they are when only what a declaration
      requires changes. */
  lemma SameIds(s: State, nest: seq<Nest>, blocks: seq<seq<Decl>>, stack: seq<Frame>, nest': seq<Nest>)
    requires Inv1(s, nest) && Extends(s.blocks, blocks) && Extends(blocks, s.blocks)
    requires |stack| == |s.stack| == |nest'|
    requires forall i | 0 <= i < |stack| ::
      && stack[i].block == s.stack[i].block && stack[i].branch == s.stack[i].branch && stack[i].inElse == s.stack[i].inElse
      && (nest'[i].ElseBody? || nest'[i].ElseClosed? <==> nest[i].ElseBody? || nest[i].ElseClosed?)
    ensures Inv1(s.(blocks := blocks, stack := stack), nest')
  {
    forall i | 0 <= i < |stack|
      ensures FrameFits(blocks, stack[i], nest'[i])
    {
      assert FrameFits(s.blocks, s.stack[i], nest[i]);
    }
  }

  lemma SetRequired(blocks: seq<seq<Decl>>, f: Frame, more: set<nat>)
    requires f.block < |blocks| && f.branch < |blocks[f.block]|
    ensures var blocks' := WithRequired(blocks, f, more); Extends(blocks, blocks') && Extends(blocks', blocks)
  {
  }

  lemma Require1(base: bool, s: State, nest: seq<Nest>, x: nat)
    requires Inv1(s, nest) && Advance(nest, Require(x)).Some? && Asserts(First, s, Require(x))
    ensures var s' := Step(First, base, s, Require(x)).0;
            Inv1(s', Advance(nest, Require(x)).value) && Extends(s.blocks, s'.blocks)
  {
    hide Inv1, Extends;
    SetRequired(s.blocks, Top(s), {x});
    Same(s.blocks);
    var s' := Step(First, base, s, Require(x)).0;
    SameStack(s, nest);
    SameIds(s, nest, s'.blocks, s'.stack, nest);
  }

  lemma SameStack(s: State, nest: seq<Nest>)
    requires Inv1(s, nest)
    ensures |s.stack| == |nest|
  {
  }

  lemma Same(blocks: seq<seq<Decl>>)
    ensures Extends(blocks, blocks)
  {
  }

  lemma Close1(base: bool, s: State, nest: seq<Nest>)
    requires Inv1(s, nest) && Advance(nest, Close).Some? && Asserts(First, s, Close)
    ensures var s' := Step(First, base, s, Close).0; Inv1(s', Advance(nest, Close).value) && Extends(s.blocks, s'.blocks)
  {
    hide Inv1, Extends;
    Same(s.blocks);
    SameStack(s, nest);
    SameIds(s, nest, s.blocks, s.stack, Advance(nest, Close).value);
  }

  lemma Else1(base: bool, s: State, nest: seq<Nest>)
    requires Inv1(s, nest) && Advance(nest, Else).Some? && Asserts(First, s, Else)
    ensures var s' := Step(First, base, s, Else).0; Inv1(s', Advance(nest, Else).value) && Extends(s.blocks, s'.blocks)
  {
    var s', nest' := Step(First, base, s, Else).0, Advance(nest, Else).value;
    var n, f := |nest| - 1, Top(s);
    assert FrameFits(s.blocks, s.stack[n], nest[n]);
    assert s.blocks[f.block][..f.branch + 1] == s.blocks[f.block];
    forall i | 0 <= i < |s'.stack|
      ensures FrameFits(s'.blocks, s'.stack[i], nest'[i])
    {
      if i < n {
        assert FrameFits(s.blocks, s.stack[i], nest[i]) && s.stack[i].block < s.stack[n].block;
      }
    }
  }

  lemma End1(base: bool, s: State, nest: seq<Nest>)
    requires Inv1(s, nest) && Advance(nest, End).Some? && Asserts(First, s, End)
    ensures var s' := Step(First, base, s, End).0; Inv1(s', Advance(nest, End).value) && Extends(s.blocks, s'.blocks)
  {
    var s', nest' := Step(First, base, s, End).0, Advance(nest, End).value;
    forall i | 0 <= i < |s'.stack|
      ensures FrameFits(s'.blocks, s'.stack[i], nest'[i])
    {
      assert FrameFits(s.blocks, s.stack[i], nest[i]);
    }
  }

  lemma Step1KeepsInv(base: bool, s: State, nest: seq<Nest>, e: Event)
    requires Inv1(s, nest) && Advance(nest, e).Some?
    ensures Asserts(First, s, e)
    ensures Inv1(Step(First, base, s, e).0, Advance(nest, e).value)
    ensures Extends(s.blocks, Step(First, base, s, e).0.blocks)
  {
    hide Inv1, Extends, Asserts, Advance, Step;
    Asserts1(s, nest, e);
    match e
    case Begin => Begin1(base, s, nest);
    case Require(x) => Require1(base, s, nest, x);
    case Close => Close1(base, s, nest);
    case Else => Else1(base, s, nest);
    case End => End1(base, s, nest);
  }

  // ------------------------------------------------------------------
  // Runs
  // ------------------------------------------------------------------

  /** Every assert holds on the way and every event succeeds. */
  ghost predicate Runs(pass: Pass, base: bool, start: State, events: seq<Event>)
    decreases |events|, 0
  {
    events == [] ||
    (var n := |events| - 1;
     && Runs(pass, base, start, events[..n])
     && Asserts(pass, After(pass, base, start, events[..n]), events[n])
     && Step(pass, base, After(pass, base, start, events[..n]), events[n]).1)
  }

  ghost function After(pass: Pass, base: bool, start: State, events: seq<Event>): State
    requires Runs(pass, base, start, events)
    decreases |events|, 1
  {
    if events == [] then start
    else
      var n := |events| - 1;
      Step(pass, base, After(pass, base, start, events[..n]), events[n]).0
  }

  ghost predicate FirstPass(base: bool, events: seq<Event>) {
    Nesting(events).Some? && Runs(First, base, Start(EMPTY), events)
  }

  ghost function After1(base: bool, events: seq<Event>): State
    requires FirstPass(base, events)
  {
    After(First, base, Start(EMPTY), events)
  }

  lemma {:induction false} FirstPassInv(base: bool, events: seq<Event>)
    requires FirstPass(base, events)
    ensures Inv1(After1(base, events), Nesting(events).value)
    decreases |events|
  {
    hide Inv1, Extends, Asserts, Advance, Step;
    if events == [] {
      StartInv();
    } else {
      var n := |events| - 1;
      NestingPrefix(events, n);
      FirstPassInv(base, events[..n]);
      Step1KeepsInv(base, After1(base, events[..n]), Nesting(events[..n]).value, events[n]);
    }
  }

  lemma StartInv()
    ensures Inv1(Start(EMPTY), [Body])
  {
  }

  /** In the first pass no assert can fail, whatever well-nested input comes. */
  lemma FirstPassAsserts(base: bool, events: seq<Event>, e: Event)
    requires FirstPass(base, events) && Nesting(events + [e]).Some?
    ensures Asserts(First, After1(base, events), e)
  {
    FirstPassInv(base, events);
    assert (events + [e])[..|events|] == events;
    Asserts1(After1(base, events), Nesting(events).value, e);
  }

  lemma {:induction false} FirstPassPrefix(base: bool, events: seq<Event>, k: nat)
    requires FirstPass(base, events) && k <= |events|
    ensures FirstPass(base, events[..k]) && Extends(After1(base, events[..k]).blocks, After1(base, events).blocks)
    decreases |events|
  {
    hide Inv1, Extends, Asserts, Advance, Step;
    if k == |events| {
      assert events[..k] == events;
      Same(After1(base, events).blocks);
    } else {
      var n := |events| - 1;
      NestingPrefix(events, n);
      FirstPassPrefix(base, events[..n], k);
      assert events[..n][..k] == events[..k];
      FirstPassInv(base, events[..n]);
      Step1KeepsInv(base, After1(base, events[..n]), Nesting(events[..n]).value, events[n]);
      ExtendsTrans(After1(base, events[..k]).blocks, After1(base, events[..n]).blocks, After1(base, events).blocks);
    }
  }

  lemma ExtendsTrans(a: seq<seq<Decl>>, b: seq<seq<Decl>>, c: seq<seq<Decl>>)
    requires Extends(a, b) && Extends(b, c)
    ensures Extends(a, c)
  {
  }

  // ------------------------------------------------------------------
  // What the events alone say
  // ------------------------------------------------------------------

  /** A declaration: the block it is in, and its branch. */
  datatype Place = Place(block: nat, branch: nat)

  function Begun(events: seq<Event>): nat {
    if events == [] then 0
    else
      var n := |events| - 1;
      Begun(events[..n]) + if events[n].Begin? then 1 else 0
  }

  /** The declarations open after the events, outermost first. Each optional has the
      block that its Begin counts to, and Else turns to the second branch. */
  function Where(events: seq<Event>): seq<Place> {
    if events == [] then [Place(0, 0)]
    else
      var n := |events| - 1;
      var open := Where(events[..n]);
      var m := |open| - 1;
      match events[n]
      case Begin => open + [Place(Begun(events[..n]) + 1, 0)]
      case Else => if open == [] then open else open[m := Place(open[m].block, 1)]
      case End => if open == [] then open else open[..m]
      case _ => open
  }

  /** The next event would stand in this declaration. */
  ghost predicate Inside(events: seq<Event>, p: Place) {
    var open := Where(events);
    open != [] && open[|open| - 1] == p
  }

  /** Some event requires x inside the declaration. */
  ghost predicate RequiredIn(events: seq<Event>, p: Place, x: nat) {
    exists k | 0 <= k < |events| :: events[k] == Require(x) && Inside(events[..k], p)
  }

  /** The event is a requirement in an else branch, or it ends a main branch without
      any requirement, which only an optional of a base policy may do. */
  ghost predicate Refused(base: bool, events: seq<Event>, k: nat)
    requires k < |events|
  {
    exists p | Inside(events[..k], p) ::
      || (events[k].Require? && p.branch == 1)
      || (events[k].Close? && p.branch == 0 && (forall x: nat :: !RequiredIn(events[..k], p, x))
          && !(base && |Where(events[..k])| > 1))
  }

  ghost predicate Requires(blocks: seq<seq<Decl>>, p: Place, x: nat) {
    p.block < |blocks| && p.branch < |blocks[p.block]| && x in blocks[p.block][p.branch].required
  }

  ghost predicate StandsAt(stack: seq<Frame>, open: seq<Place>) {
    |stack| == |open| && forall i | 0 <= i < |stack| :: Place(stack[i].block, stack[i].branch) == open[i]
  }

  /** The frame remembers whether its declaration has a requirement. */
  ghost predicate Remembers(blocks: seq<seq<Decl>>, f: Frame) {
    f.requireGiven <==> exists x: nat :: Requires(blocks, Place(f.block, f.branch), x)
  }

  /** The state of the first pass, as the events determine it. */
  ghost predicate Reflects(s: State, events: seq<Event>) {
    && StandsAt(s.stack, Where(events)) && s.lastBlock == Begun(events)
    && (forall p: Place, x: nat :: Requires(s.blocks, p, x) <==> RequiredIn(events, p, x))
    && forall i | 0 <= i < |s.stack| :: Remembers(s.blocks, s.stack[i])
  }

  lemma RequiredSnoc(events: seq<Event>, e: Event, p: Place, x: nat)
    ensures RequiredIn(events + [e], p, x) <==> RequiredIn(events, p, x) || (e == Require(x) && Inside(events, p))
  {
    var all := events + [e];
    assert all[..|events|] == events;
    if RequiredIn(events, p, x) {
      var k :| 0 <= k < |events| && events[k] == Require(x) && Inside(events[..k], p);
      assert all[k] == Require(x) && all[..k] == events[..k];
    }
    if e == Require(x) && Inside(events, p) {
      assert all[|events|] == Require(x);
    }
    if RequiredIn(all, p, x) {
      var k :| 0 <= k < |all| && all[k] == Require(x) && Inside(all[..k], p);
      if k < |events| {
        assert events[k] == Require(x) && all[..k] == events[..k];
      }
    }
  }

  lemma WhereSnoc(events: seq<Event>, e: Event)
    ensures var open := Where(events);
            Where(events + [e]) ==
            match e
            case Begin => open + [Place(Begun(events) + 1, 0)]
            case Else => if open == [] then open else open[|open| - 1 := Place(open[|open| - 1].block, 1)]
            case End => if open == [] then open else open[..|open| - 1]
            case _ => open
    ensures Begun(events + [e]) == Begun(events) + if e.Begin? then 1 else 0
  {
    assert (events + [e])[..|events|] == events;
  }

  /** An event that records nothing leaves all requirements as they are. */
  lemma QuietReflects(s: State, events: seq<Event>, e: Event, t: State)
    requires Reflects(s, events) && !e.Require?
    requires StandsAt(t.stack, Where(events + [e])) && t.lastBlock == Begun(events + [e])
    requires forall p: Place, x: nat :: Requires(t.blocks, p, x) <==> Requires(s.blocks, p, x)
    requires forall i | 0 <= i < |t.stack| :: t.stack[i] in s.stack || Remembers(t.blocks, t.stack[i])
    ensures Reflects(t, events + [e])
  {
    hide Where;
    forall p: Place, x: nat
      ensures Requires(t.blocks, p, x) <==> RequiredIn(events + [e], p, x)
    {
      RequiredSnoc(events, e, p, x);
      assert Requires(s.blocks, p, x) <==> RequiredIn(events, p, x);
    }
    forall i | 0 <= i < |t.stack|
      ensures Remembers(t.blocks, t.stack[i])
    {
      if t.stack[i] in s.stack {
        var j :| 0 <= j < |s.stack| && s.stack[j] == t.stack[i];
        assert Remembers(s.blocks, s.stack[j]);
        RemembersSame(s.blocks, t.blocks, t.stack[i]);
      }
    }
  }

  lemma RemembersSame(a: seq<seq<Decl>>, b: seq<seq<Decl>>, f: Frame)
    requires Remembers(a, f)
    requires forall p: Place, x: nat :: Requires(b, p, x) <==> Requires(a, p, x)
    ensures Remembers(b, f)
  {
  }

  /** A new declaration requires nothing. */
  lemma NewBlock(blocks: seq<seq<Decl>>, id: nat, f: Frame)
    requires f.block == |blocks| && f.branch == 0 && !f.requireGiven
    ensures forall p: Place, x: nat :: Requires(blocks + [[Decl(id, {})]], p, x) <==> Requires(blocks, p, x)
    ensures Remembers(blocks + [[Decl(id, {})]], f)
  {
  }

  lemma NewBranch(blocks: seq<seq<Decl>>, id: nat, f: Frame)
    requires f.block < |blocks| && f.branch == |blocks[f.block]| && !f.requireGiven
    ensures forall p: Place, x: nat ::
              Requires(blocks[f.block := blocks[f.block] + [Decl(id, {})]], p, x) <==> Requires(blocks, p, x)
    ensures Remembers(blocks[f.block := blocks[f.block] + [Decl(id, {})]], f)
  {
  }

  lemma BeginReflects(base: bool, s: State, nest: seq<Nest>, events: seq<Event>)
    requires Inv1(s, nest) && Reflects(s, events) && Asserts(First, s, Begin)
    ensures Reflects(Step(First, base, s, Begin).0, events + [Begin])
  {
    hide Where, RequiredIn, Requires, Remembers;
    var t := Step(First, base, s, Begin).0;
    WhereSnoc(events, Begin);
    assert t.blocks == s.blocks + [[Decl(s.nextId, {})]];
    NewBlock(s.blocks, s.nextId, Top(t));
    QuietReflects(s, events, Begin, t);
  }

  lemma ElseReflects(base: bool, s: State, nest: seq<Nest>, events: seq<Event>)
    requires Inv1(s, nest) && Reflects(s, events) && Asserts(First, s, Else)
    ensures Reflects(Step(First, base, s, Else).0, events + [Else])
  {
    hide Where, RequiredIn, Requires, Remembers;
    var t := Step(First, base, s, Else).0;
    WhereSnoc(events, Else);
    TopFits(s, nest);
    assert s.blocks[Top(s).block][..Top(s).branch + 1] == s.blocks[Top(s).block];
    NewBranch(s.blocks, s.nextId, Top(t));
    QuietReflects(s, events, Else, t);
  }

  lemma EndReflects(base: bool, s: State, nest: seq<Nest>, events: seq<Event>)
    requires Inv1(s, nest) && Reflects(s, events) && Asserts(First, s, End)
    ensures Reflects(Step(First, base, s, End).0, events + [End])
  {
    hide Where, RequiredIn;
    WhereSnoc(events, End);
    QuietReflects(s, events, End, Step(First, base, s, End).0);
  }

  lemma CloseReflects(base: bool, s: State, nest: seq<Nest>, events: seq<Event>)
    requires Inv1(s, nest) && Reflects(s, events) && Asserts(First, s, Close)
    ensures Reflects(Step(First, base, s, Close).0, events + [Close])
  {
    hide Where, RequiredIn;
    WhereSnoc(events, Close);
    QuietReflects(s, events, Close, Step(First, base, s, Close).0);
  }

  lemma OneMoreRequired(blocks: seq<seq<Decl>>, f: Frame, x: nat)
    requires f.block < |blocks| && f.branch < |blocks[f.block]|
    ensures forall p: Place, y: nat ::
              Requires(WithRequired(blocks, f, {x}), p, y) <==> Requires(blocks, p, y) || (p == Place(f.block, f.branch) && y == x)
  {
  }

  lemma RequireReflects(base: bool, s: State, nest: seq<Nest>, events: seq<Event>, x: nat)
    requires Inv1(s, nest) && Reflects(s, events) && Asserts(First, s, Require(x))
    requires Step(First, base, s, Require(x)).1
    ensures Reflects(Step(First, base, s, Require(x)).0, events + [Require(x)])
  {
    hide Where, RequiredIn, Requires, WithRequired, Inv1, FrameFits;
    var t, f, n := Step(First, base, s, Require(x)).0, Top(s), |s.stack| - 1;
    var here := Place(f.block, f.branch);
    WhereSnoc(events, Require(x));
    OneMoreRequired(s.blocks, f, x);
    forall p: Place, y: nat
      ensures Requires(t.blocks, p, y) <==> RequiredIn(events + [Require(x)], p, y)
    {
      RequiredSnoc(events, Require(x), p, y);
      assert Requires(s.blocks, p, y) <==> RequiredIn(events, p, y);
    }
    BlocksAscend(s, nest);
    hide Remembers;
    forall i | 0 <= i < |t.stack|
      ensures Remembers(t.blocks, t.stack[i])
    {
      if i < n {
        assert Remembers(s.blocks, s.stack[i]) && t.stack[i] == s.stack[i];
        RemembersElsewhere(s.blocks, t.blocks, s.stack[i], here);
      } else {
        RemembersHere(t.blocks, t.stack[n], x);
      }
    }
  }

  lemma BlocksAscend(s: State, nest: seq<Nest>)
    requires Inv1(s, nest)
    ensures forall i | 0 <= i < |s.stack| - 1 :: s.stack[i].block < s.stack[|s.stack| - 1].block
  {
  }

  lemma RemembersHere(blocks: seq<seq<Decl>>, f: Frame, x: nat)
    requires f.requireGiven && Requires(blocks, Place(f.block, f.branch), x)
    ensures Remembers(blocks, f)
  {
  }

  lemma RemembersElsewhere(a: seq<seq<Decl>>, b: seq<seq<Decl>>, f: Frame, here: Place)
    requires Remembers(a, f) && Place(f.block, f.branch) != here
    requires forall p: Place, x: nat :: p != here ==> (Requires(b, p, x) <==> Requires(a, p, x))
    ensures Remembers(b, f)
  {
  }

  lemma StepReflects(base: bool, s: State, nest: seq<Nest>, events: seq<Event>, e: Event)
    requires Inv1(s, nest) && Reflects(s, events) && Asserts(First, s, e) && Step(First, base, s, e).1
    ensures Reflects(Step(First, base, s, e).0, events + [e])
  {
    hide Inv1, Reflects, Asserts, Step;
    match e
    case Begin => BeginReflects(base, s, nest, events);
    case Require(x) => RequireReflects(base, s, nest, events, x);
    case Close => CloseReflects(base, s, nest, events);
    case Else => ElseReflects(base, s, nest, events);
    case End => EndReflects(base, s, nest, events);
  }

  lemma StartReflects()
    ensures Reflects(Start(EMPTY), [])
  {
  }

  /** After the first pass a declaration requires exactly what the events require
      inside it, and the open declarations are where the events say. */
  lemma {:induction false} RequirementsRecorded(base: bool, events: seq<Event>)
    requires FirstPass(base, events)
    ensures Reflects(After1(base, events), events)
    decreases |events|
  {
    hide Inv1, Reflects, Asserts, Advance, Step;
    if events == [] {
      StartReflects();
    } else {
      var n := |events| - 1;
      NestingPrefix(events, n);
      RequirementsRecorded(base, events[..n]);
      FirstPassInv(base, events[..n]);
      assert events[..n] + [events[n]] == events;
      StepReflects(base, After1(base, events[..n]), Nesting(events[..n]).value, events[..n], events[n]);
    }
  }

  /** The first pass refuses an event exactly when the events before it say so. */
  lemma RefusedMeans(base: bool, events: seq<Event>, k: nat)
    requires k < |events| && FirstPass(base, events[..k]) && Nesting(events[..k + 1]).Some?
    ensures Asserts(First, After1(base, events[..k]), events[k])
    ensures Refused(base, events, k) <==> !Step(First, base, After1(base, events[..k]), events[k]).1
  {
    hide Inv1, Where, RequiredIn;
    var before, s := events[..k], After1(base, events[..k]);
    assert events[..k + 1] == before + [events[k]];
    FirstPassAsserts(base, before, events[k]);
    RequirementsRecorded(base, before);
    FirstPassInv(base, before);
    TopFits(s, Nesting(before).value);
    var f := Top(s);
    var here := Place(f.block, f.branch);
    assert Inside(before, here);
    assert Remembers(s.blocks, s.stack[|s.stack| - 1]);
    assert forall x: nat :: Requires(s.blocks, here, x) <==> RequiredIn(before, here, x);
  }

  /** A well-nested input passes exactly when none of its events is refused. */
  lemma {:induction false} PassesUnlessRefused(base: bool, events: seq<Event>)
    requires Nesting(events).Some?
    ensures FirstPass(base, events) <==> forall k | 0 <= k < |events| :: !Refused(base, events, k)
    decreases |events|
  {
    hide Asserts, Step, Advance, Refused;
    if events != [] {
      var n := |events| - 1;
      var before := events[..n];
      NestingPrefix(events, n);
      PassesUnlessRefused(base, before);
      forall k | 0 <= k < n
        ensures Refused(base, events, k) <==> Refused(base, before, k)
      {
        RefusedPrefix(base, events, n, k);
      }
      if FirstPass(base, before) {
        assert events[..n + 1] == events;
        RefusedMeans(base, events, n);
      }
    }
  }

  lemma RefusedPrefix(base: bool, events: seq<Event>, n: nat, k: nat)
    requires k < n <= |events|
    ensures Refused(base, events, k) <==> Refused(base, events[..n], k)
  {
    assert events[..n][..k] == events[..k];
  }

  /** How many declarations the events open. */
  function Opened(events: seq<Event>): nat {
    if events == [] then 0
    else
      var n := |events| - 1;
      Opened(events[..n]) + if events[n].Begin? || events[n].Else? then 1 else 0
  }

  /** Declarations are numbered 2, 3, ... in the order of the events that open them. */
  lemma {:induction false} NumbersInOrder(base: bool, events: seq<Event>)
    requires FirstPass(base, events)
    ensures After1(base, events).nextId == 2 + Opened(events)
    decreases |events|
  {
    if events != [] {
      NestingPrefix(events, |events| - 1);
      NumbersInOrder(base, events[..|events| - 1]);
    }
  }

  // ------------------------------------------------------------------
  // The second pass
  // ------------------------------------------------------------------

  /** The two passes stand at the same declaration. */
  ghost predicate SameScope(s1: State, s2: State) {
    && s2.lastBlock == s1.lastBlock && s2.nextId == s1.nextId && |s2.stack| == |s1.stack|
    && forall i | 0 <= i < |s1.stack| :: SameFrame(s1.stack[i], s2.stack[i])
  }

  predicate SameFrame(f: Frame, g: Frame) {
    f.block == g.block && f.branch == g.branch && f.inElse == g.inElse
  }

  /** The second pass has the declarations that the first one left. */
  ghost predicate SameDecls(blocks: seq<seq<Decl>>, final: seq<seq<Decl>>) {
    Extends(blocks, final) && Extends(final, blocks)
  }

  /** After the event the passes stand at the same declaration again. */
  ghost predicate Follows(base: bool, s1: State, s2: State, e: Event, final: seq<seq<Decl>>)
    requires Asserts(First, s1, e) && Asserts(Second, s2, e)
  {
    && Step(Second, base, s2, e).1
    && SameScope(Step(First, base, s1, e).0, Step(Second, base, s2, e).0)
    && SameDecls(Step(Second, base, s2, e).0.blocks, final)
  }

  lemma BeginFollows(base: bool, s1: State, s2: State, nest: seq<Nest>, final: seq<seq<Decl>>)
    requires Inv1(s1, nest) && Asserts(First, s1, Begin)
    requires SameScope(s1, s2) && SameDecls(s2.blocks, final)
    requires Step(First, base, s1, Begin).1 && Extends(Step(First, base, s1, Begin).0.blocks, final)
    requires forall b | 0 <= b < |final| :: 1 <= |final[b]| <= 2
    ensures Asserts(Second, s2, Begin) && Follows(base, s1, s2, Begin, final)
  {
    hide Inherited;
    TopFits(s1, nest);
    assert SameFrame(Top(s1), Top(s2));
    var t1 := Step(First, base, s1, Begin).0;
    assert t1.blocks[s1.lastBlock + 1] == [Decl(s1.nextId, {})];
    assert final[s1.lastBlock + 1][0].id == s1.nextId;
  }

  lemma ElseFollows(base: bool, s1: State, s2: State, nest: seq<Nest>, final: seq<seq<Decl>>)
    requires Inv1(s1, nest) && Asserts(First, s1, Else)
    requires SameScope(s1, s2) && SameDecls(s2.blocks, final)
    requires Step(First, base, s1, Else).1 && Extends(Step(First, base, s1, Else).0.blocks, final)
    requires forall b | 0 <= b < |final| :: 1 <= |final[b]| <= 2
    ensures Asserts(Second, s2, Else) && Follows(base, s1, s2, Else, final)
  {
    hide Inherited;
    TopFits(s1, nest);
    assert SameFrame(Top(s1), Top(s2));
    var t1, b := Step(First, base, s1, Else).0, Top(s1).block;
    assert t1.blocks[b][Top(s1).branch + 1].id == s1.nextId;
    assert final[b][Top(s1).branch + 1].id == s1.nextId;
  }

  lemma CloseFollows(base: bool, s1: State, s2: State, nest: seq<Nest>, final: seq<seq<Decl>>)
    requires Inv1(s1, nest) && Asserts(First, s1, Close)
    requires SameScope(s1, s2) && SameDecls(s2.blocks, final)
    requires Step(First, base, s1, Close).1 && Extends(Step(First, base, s1, Close).0.blocks, final)
    requires forall b | 0 <= b < |final| :: 1 <= |final[b]| <= 2
    ensures Asserts(Second, s2, Close) && Follows(base, s1, s2, Close, final)
  {
    hide Inherited;
    TopFits(s1, nest);
    assert SameFrame(Top(s1), Top(s2));
    assert Asserts(Second, s2, Close);
    SetRequired(s2.blocks, Top(s2), Inherited(s2.blocks, s2.stack[..|s2.stack| - 1]));
  }

  lemma RequireFollows(base: bool, s1: State, s2: State, nest: seq<Nest>, final: seq<seq<Decl>>, x: nat)
    requires Inv1(s1, nest) && Asserts(First, s1, Require(x))
    requires SameScope(s1, s2) && SameDecls(s2.blocks, final)
    requires Step(First, base, s1, Require(x)).1 && Extends(Step(First, base, s1, Require(x)).0.blocks, final)
    requires forall b | 0 <= b < |final| :: 1 <= |final[b]| <= 2
    ensures Asserts(Second, s2, Require(x)) && Follows(base, s1, s2, Require(x), final)
  {
    hide Inherited;
    TopFits(s1, nest);
    assert SameFrame(Top(s1), Top(s2));
  }

  lemma EndFollows(base: bool, s1: State, s2: State, nest: seq<Nest>, final: seq<seq<Decl>>)
    requires Inv1(s1, nest) && Asserts(First, s1, End)
    requires SameScope(s1, s2) && SameDecls(s2.blocks, final)
    requires Step(First, base, s1, End).1 && Extends(Step(First, base, s1, End).0.blocks, final)
    requires forall b | 0 <= b < |final| :: 1 <= |final[b]| <= 2
    ensures Asserts(Second, s2, End) && Follows(base, s1, s2, End, final)
  {
    hide Inherited;
    TopFits(s1, nest);
    assert SameFrame(Top(s1), Top(s2));
  }

  lemma SecondFollows(base: bool, s1: State, s2: State, nest: seq<Nest>, final: seq<seq<Decl>>, e: Event)
    requires Inv1(s1, nest) && Asserts(First, s1, e)
    requires SameScope(s1, s2) && SameDecls(s2.blocks, final)
    requires Step(First, base, s1, e).1 && Extends(Step(First, base, s1, e).0.blocks, final)
    requires forall b | 0 <= b < |final| :: 1 <= |final[b]| <= 2
    ensures Asserts(Second, s2, e) && Follows(base, s1, s2, e, final)
  {
    hide Inv1, Asserts, Step, SameScope, SameDecls, Extends, Follows;
    match e
    case Begin => BeginFollows(base, s1, s2, nest, final);
    case Else => ElseFollows(base, s1, s2, nest, final);
    case Require(x) => RequireFollows(base, s1, s2, nest, final, x);
    case Close => CloseFollows(base, s1, s2, nest, final);
    case End => EndFollows(base, s1, s2, nest, final);
  }

  lemma TopFits(s: State, nest: seq<Nest>)
    requires Inv1(s, nest)
    ensures FrameFits(s.blocks, Top(s), nest[|nest| - 1])
  {
  }

  /** The second pass over the same events: no assert fails, nothing is refused, and
      after every prefix it stands at the declaration, with the number, at which the
      first pass stood. */
  lemma {:induction false} SecondPass(base: bool, events: seq<Event>, k: nat)
    requires FirstPass(base, events) && k <= |events|
    ensures FirstPass(base, events[..k]) && Runs(Second, base, Start(After1(base, events).blocks), events[..k])
    ensures var s2 := After(Second, base, Start(After1(base, events).blocks), events[..k]);
            SameScope(After1(base, events[..k]), s2) && SameDecls(s2.blocks, After1(base, events).blocks)
    decreases k
  {
    hide Inv1, Asserts, Step, SameDecls, Extends, Inherited;
    var final := After1(base, events).blocks;
    FirstPassPrefix(base, events, k);
    if k == 0 {
      assert events[..0] == [];
      DeclsSame(final);
    } else {
      SecondPass(base, events, k - 1);
      var e := events[k - 1];
      assert events[..k][..k - 1] == events[..k - 1];
      var s1 := After1(base, events[..k - 1]);
      var s2 := After(Second, base, Start(final), events[..k - 1]);
      FirstPassInv(base, events[..k - 1]);
      FirstPassInv(base, events);
      AtMostTwo(After1(base, events), Nesting(events).value);
      SecondFollows(base, s1, s2, Nesting(events[..k - 1]).value, final, e);
    }
  }

  lemma DeclsSame(blocks: seq<seq<Decl>>)
    ensures SameDecls(blocks, blocks)
  {
  }

  lemma AtMostTwo(s: State, nest: seq<Nest>)
    requires Inv1(s, nest)
    ensures forall b | 0 <= b < |s.blocks| :: 1 <= |s.blocks[b]| <= 2
  {
  }

  /** At an event that opens a declaration both passes are on one and the same, whose
      number counts the declarations opened before. */
  lemma SameDeclaration(base: bool, events: seq<Event>, k: nat)
    requires FirstPass(base, events) && k < |events| && (events[k].Begin? || events[k].Else?)
    ensures FirstPass(base, events[..k + 1]) && Runs(Second, base, Start(After1(base, events).blocks), events[..k + 1])
    ensures var s1, s2, final := After1(base, events[..k + 1]), After(Second, base, Start(After1(base, events).blocks), events[..k + 1]), After1(base, events).blocks;
            && s1.stack != [] && s2.stack != [] && SameFrame(Top(s1), Top(s2))
            && Top(s2).block < |s2.blocks| && Top(s2).branch < |s2.blocks[Top(s2).block]|
            && s2.blocks[Top(s2).block][Top(s2).branch].id == 2 + Opened(events[..k])
  {
    hide Asserts, Step, SameDecls, Inherited;
    SecondPass(base, events, k);
    SecondPass(base, events, k + 1);
    NumbersInOrder(base, events[..k]);
    assert events[..k + 1][..k] == events[..k];
    var start := Start(After1(base, events).blocks);
    Opens(base, After(Second, base, start, events[..k]), events[k]);
  }

  lemma Opens(base: bool, s: State, e: Event)
    requires Asserts(Second, s, e) && (e.Begin? || e.Else?)
    ensures var s' := Step(Second, base, s, e).0;
            && s'.stack != [] && Top(s').block < |s'.blocks| && Top(s').branch < |s'.blocks[Top(s').block]|
            && s'.blocks[Top(s').block][Top(s').branch].id == s.nextId
  {
  }

  // ------------------------------------------------------------------
  // Inherited requirements
  // ------------------------------------------------------------------

  ghost predicate Within(blocks: seq<seq<Decl>>, f: Frame) {
    f.block < |blocks| && f.branch < |blocks[f.block]|
  }

  /** In the second pass declarations not yet opened, and those of branches not yet
      closed, still require what the first pass recorded for them alone. */
  ghost predicate Untouched(s: State, nest: seq<Nest>, own: seq<seq<Decl>>) {
    && |s.stack| == |nest| && SameDecls(s.blocks, own)
    && (forall b, j | 0 <= b < |own| && 0 <= j < |own[b]| && own[b][j].id >= s.nextId :: s.blocks[b][j] == own[b][j])
    && (forall i | 0 <= i < |s.stack| :: Within(own, s.stack[i]) && own[s.stack[i].block][s.stack[i].branch].id < s.nextId)
    && (forall i | 0 <= i < |s.stack| && (nest[i].Body? || nest[i].ElseBody?) ::
          s.blocks[s.stack[i].block][s.stack[i].branch] == own[s.stack[i].block][s.stack[i].branch])
    && (forall i, j | 0 <= i < j < |s.stack| :: s.stack[i].block < s.stack[j].block)
  }

  lemma UntouchedKept(base: bool, s: State, nest: seq<Nest>, own: seq<seq<Decl>>, e: Event)
    requires Untouched(s, nest, own) && Advance(nest, e).Some? && Asserts(Second, s, e)
    requires SameDecls(Step(Second, base, s, e).0.blocks, own)
    requires e.Begin? ==> forall i | 0 <= i < |s.stack| :: s.stack[i].block <= s.lastBlock
    ensures Untouched(Step(Second, base, s, e).0, Advance(nest, e).value, own)
  {
    hide Inherited;
  }

  ghost function After2(base: bool, events: seq<Event>, k: nat): State
    requires FirstPass(base, events) && k <= |events|
  {
    SecondPass(base, events, k);
    After(Second, base, Start(After1(base, events).blocks), events[..k])
  }

  /** One event of the second pass, in terms of the whole run. */
  lemma SecondPassStep(base: bool, events: seq<Event>, k: nat)
    requires FirstPass(base, events) && k < |events|
    ensures var s := After2(base, events, k);
            && Asserts(Second, s, events[k]) && After2(base, events, k + 1) == Step(Second, base, s, events[k]).0
            && SameDecls(s.blocks, After1(base, events).blocks)
            && SameDecls(After2(base, events, k + 1).blocks, After1(base, events).blocks)
            && (forall i | 0 <= i < |s.stack| :: s.stack[i].block <= s.lastBlock)
    ensures Nesting(events[..k]).Some? && Nesting(events[..k + 1]) == Advance(Nesting(events[..k]).value, events[k])
  {
    hide Asserts, Step, Advance, SameDecls, Inherited, Extends;
    SecondPass(base, events, k);
    SecondPass(base, events, k + 1);
    assert events[..k + 1][..k] == events[..k];
    var s1, s2 := After1(base, events[..k]), After2(base, events, k);
    FirstPassInv(base, events[..k]);
    BlocksBehind(s1, Nesting(events[..k]).value);
    forall i | 0 <= i < |s2.stack|
      ensures s2.stack[i].block <= s2.lastBlock
    {
      assert SameFrame(s1.stack[i], s2.stack[i]);
    }
  }

  lemma BlocksBehind(s: State, nest: seq<Nest>)
    requires Inv1(s, nest)
    ensures forall i | 0 <= i < |s.stack| :: s.stack[i].block <= s.lastBlock
  {
    forall i | 0 <= i < |s.stack|
      ensures s.stack[i].block <= s.lastBlock
    {
      assert FrameFits(s.blocks, s.stack[i], nest[i]);
    }
  }

  lemma {:induction false} SecondPassUntouched(base: bool, events: seq<Event>, k: nat)
    requires FirstPass(base, events) && k <= |events|
    ensures Nesting(events[..k]).Some?
    ensures Untouched(After2(base, events, k), Nesting(events[..k]).value, After1(base, events).blocks)
    decreases k
  {
    hide Asserts, Step, Advance, SameDecls, Inherited, Extends, Inv1;
    var own := After1(base, events).blocks;
    if k == 0 {
      assert events[..0] == [];
      SecondPass(base, events, 0);
      FirstPassPrefix(base, events, 0);
      GlobalFirst(own);
      StartUntouched(own);
    } else {
      SecondPassUntouched(base, events, k - 1);
      SecondPassStep(base, events, k - 1);
      NestingPrefix(events, k);
      UntouchedKept(base, After2(base, events, k - 1), Nesting(events[..k - 1]).value, own, events[k - 1]);
    }
  }

  lemma GlobalFirst(blocks: seq<seq<Decl>>)
    requires Extends(EMPTY, blocks)
    ensures |blocks| > 0 && |blocks[0]| > 0 && blocks[0][0].id == 1
  {
    assert EMPTY[0][0].id == 1;
  }

  lemma StartUntouched(own: seq<seq<Decl>>)
    requires |own| > 0 && |own[0]| > 0 && own[0][0].id == 1
    ensures Untouched(Start(own), [Body], own)
  {
  }

  /** Only the innermost branch can be closed. */
  lemma {:induction false} OpenBelow(events: seq<Event>)
    requires Nesting(events).Some?
    ensures var nest := Nesting(events).value;
            nest != [] && forall i | 0 <= i < |nest| - 1 :: nest[i].Body? || nest[i].ElseBody?
    decreases |events|
  {
    if events != [] {
      OpenBelow(events[..|events| - 1]);
    }
  }

  lemma {:induction false} InheritedOwn(blocks: seq<seq<Decl>>, own: seq<seq<Decl>>, stack: seq<Frame>)
    requires forall i | 0 <= i < |stack| ::
      && Within(own, stack[i]) && Within(blocks, stack[i])
      && blocks[stack[i].block][stack[i].branch] == own[stack[i].block][stack[i].branch]
    ensures Inherited(blocks, stack) == Inherited(own, stack)
    decreases |stack|
  {
    if stack != [] {
      InheritedOwn(blocks, own, stack[..|stack| - 1]);
    }
  }

  /** The branch is closed or abandoned: no open frame is on the declaration, and it
      is not one still to come. */
  ghost predicate Settled(s: State, nest: seq<Nest>, own: seq<seq<Decl>>, b: nat, j: nat) {
    && |s.stack| == |nest| && b < |own| && j < |own[b]| && own[b][j].id < s.nextId
    && forall i | 0 <= i < |s.stack| && s.stack[i].block == b && s.stack[i].branch == j :: nest[i].Closed? || nest[i].ElseClosed?
  }

  lemma SettledKept(base: bool, s: State, nest: seq<Nest>, own: seq<seq<Decl>>, e: Event, b: nat, j: nat)
    requires Untouched(s, nest, own) && Advance(nest, e).Some? && Asserts(Second, s, e)
    requires Settled(s, nest, own, b, j)
    ensures var s' := Step(Second, base, s, e).0;
            && Settled(s', Advance(nest, e).value, own, b, j)
            && b < |s.blocks| && j < |s.blocks[b]| && b < |s'.blocks| && j < |s'.blocks[b]|
            && s'.blocks[b][j] == s.blocks[b][j]
  {
    hide Inherited;
  }

  lemma {:induction false} SettledToEnd(base: bool, events: seq<Event>, k: nat, m: nat, b: nat, j: nat)
    requires FirstPass(base, events) && k <= m <= |events| && Nesting(events[..k]).Some?
    requires Settled(After2(base, events, k), Nesting(events[..k]).value, After1(base, events).blocks, b, j)
    ensures Nesting(events[..m]).Some?
    ensures Settled(After2(base, events, m), Nesting(events[..m]).value, After1(base, events).blocks, b, j)
    ensures var s, t := After2(base, events, k), After2(base, events, m);
            && b < |s.blocks| && j < |s.blocks[b]| && b < |t.blocks| && j < |t.blocks[b]|
            && t.blocks[b][j] == s.blocks[b][j]
    decreases m
  {
    hide Asserts, Step, Advance, Inherited, Inv1, Settled;
    SecondPassUntouched(base, events, m);
    if m == k {
      InBlocks(After2(base, events, k), Nesting(events[..k]).value, After1(base, events).blocks, b, j);
    } else {
      SettledToEnd(base, events, k, m - 1, b, j);
      SecondPassStep(base, events, m - 1);
      SecondPassUntouched(base, events, m - 1);
      SettledKept(base, After2(base, events, m - 1), Nesting(events[..m - 1]).value, After1(base, events).blocks, events[m - 1], b, j);
    }
  }

  lemma InBlocks(s: State, nest: seq<Nest>, own: seq<seq<Decl>>, b: nat, j: nat)
    requires Untouched(s, nest, own) && Settled(s, nest, own, b, j)
    ensures b < |s.blocks| && j < |s.blocks[b]|
  {
  }

  /** A closed branch ends up requiring what the first pass recorded for it and for
      every branch around it, and nothing else. */
  lemma RequirementsInherited(base: bool, events: seq<Event>, k: nat)
    requires FirstPass(base, events) && k < |events| && events[k].Close?
    ensures var s, t, own := After2(base, events, k), After2(base, events, |events|), After1(base, events).blocks;
            && s.stack != []
            && var f := Top(s);
               && Within(own, f) && Within(t.blocks, f)
               && t.blocks[f.block][f.branch].required
               == own[f.block][f.branch].required + Inherited(own, s.stack[..|s.stack| - 1])
  {
    hide Asserts, Step, Advance, Inherited, Inv1, Settled;
    SecondPassStep(base, events, k);
    SecondPassUntouched(base, events, k);
    var s, own, nest := After2(base, events, k), After1(base, events).blocks, Nesting(events[..k]).value;
    OpenBelow(events[..k]);
    NestingPrefix(events, k + 1);
    CloseSettles(base, s, nest, own);
    SettledToEnd(base, events, k + 1, |events|, Top(s).block, Top(s).branch);
  }

  lemma CloseSettles(base: bool, s: State, nest: seq<Nest>, own: seq<seq<Decl>>)
    requires Untouched(s, nest, own) && Advance(nest, Close).Some? && Asserts(Second, s, Close)
    requires nest != [] && forall i | 0 <= i < |nest| - 1 :: nest[i].Body? || nest[i].ElseBody?
    ensures var s', f := Step(Second, base, s, Close).0, Top(s);
            && Settled(s', Advance(nest, Close).value, own, f.block, f.branch)
            && Within(own, f) && Within(s'.blocks, f)
            && s'.blocks[f.block][f.branch].required
            == own[f.block][f.branch].required + Inherited(own, s.stack[..|s.stack| - 1])
  {
    InheritedOwn(s.blocks, own, s.stack[..|s.stack| - 1]);
  }

  lemma {:induction false} InheritedMeans(blocks: seq<seq<Decl>>, stack: seq<Frame>, open: seq<Place>, x: nat)
    requires StandsAt(stack, open)
    ensures x in Inherited(blocks, stack) <==> exists i | 0 <= i < |open| :: Requires(blocks, open[i], x)
    decreases |stack|
  {
    if stack != [] {
      var n := |stack| - 1;
      InheritedMeans(blocks, stack[..n], open[..n], x);
      assert Place(stack[n].block, stack[n].branch) == open[n];
      if exists i | 0 <= i < |open| :: Requires(blocks, open[i], x) {
        var i :| 0 <= i < |open| && Requires(blocks, open[i], x);
        assert i < n ==> open[..n][i] == open[i];
      }
    }
  }

  /** Some event requires x inside one of these declarations. */
  ghost predicate RequiredAround(events: seq<Event>, open: seq<Place>, x: nat) {
    exists i | 0 <= i < |open| :: RequiredIn(events, open[i], x)
  }

  /** The branch that event k closes requires, in these blocks, exactly what some event
      of the whole input requires inside it or inside a declaration around it. */
  ghost predicate InheritsExactly(events: seq<Event>, k: nat, blocks: seq<seq<Decl>>)
    requires k <= |events|
  {
    var open := Where(events[..k]);
    && open != []
    && forall x: nat :: Requires(blocks, open[|open| - 1], x) <==> RequiredAround(events, open, x)
  }

  lemma EventsInherited(base: bool, events: seq<Event>, k: nat)
    requires FirstPass(base, events) && k < |events| && events[k].Close?
    ensures InheritsExactly(events, k, After2(base, events, |events|).blocks)
  {
    hide Asserts, Step, Advance, Inherited, Where, RequiredIn;
    var s, t, own := After2(base, events, k), After2(base, events, |events|), After1(base, events).blocks;
    var open := Where(events[..k]);
    RequirementsInherited(base, events, k);
    RequirementsRecorded(base, events);
    SecondStandsAt(base, events, k);
    var n := |open| - 1;
    assert StandsAt(s.stack[..n], open[..n]) && Place(Top(s).block, Top(s).branch) == open[n];
    forall x: nat
      ensures Requires(t.blocks, open[n], x) <==> RequiredAround(events, open, x)
    {
      InheritedMeans(own, s.stack[..n], open[..n], x);
      Widened(own, events, open, x);
    }
  }

  lemma Widened(own: seq<seq<Decl>>, events: seq<Event>, open: seq<Place>, x: nat)
    requires open != [] && forall p: Place :: Requires(own, p, x) <==> RequiredIn(events, p, x)
    ensures var n := |open| - 1;
            Requires(own, open[n], x) || (exists i | 0 <= i < |open[..n]| :: Requires(own, open[..n][i], x))
            <==> exists i | 0 <= i < |open| :: RequiredIn(events, open[i], x)
  {
    hide Requires, RequiredIn;
    var n := |open| - 1;
    if exists i | 0 <= i < |open| :: RequiredIn(events, open[i], x) {
      var i :| 0 <= i < |open| && RequiredIn(events, open[i], x);
      if i < n {
        assert Requires(own, open[..n][i], x);
      }
    }
    if exists i | 0 <= i < |open[..n]| :: Requires(own, open[..n][i], x) {
      var i :| 0 <= i < |open[..n]| && Requires(own, open[..n][i], x);
      assert RequiredIn(events, open[i], x);
    }
  }

  lemma SecondStandsAt(base: bool, events: seq<Event>, k: nat)
    requires FirstPass(base, events) && k <= |events|
    ensures StandsAt(After2(base, events, k).stack, Where(events[..k]))
  {
    hide Asserts, Step, Advance, Inherited, SameDecls, Where;
    SecondPass(base, events, k);
    RequirementsRecorded(base, events[..k]);
    var s1, s2 := After1(base, events[..k]), After2(base, events, k);
    assert forall i | 0 <= i < |s1.stack| :: SameFrame(s1.stack[i], s2.stack[i]);
  }

  /** The declaration that event k opens has, in these blocks, the number that counts
      the declarations opened before. */
  ghost predicate Numbered(events: seq<Event>, k: nat, blocks: seq<seq<Decl>>)
    requires k < |events|
  {
    var open := Where(events[..k + 1]);
    && open != []
    && var p := open[|open| - 1];
       p.block < |blocks| && p.branch < |blocks[p.block]| && blocks[p.block][p.branch].id == 2 + Opened(events[..k])
  }

  lemma EventsNumber(base: bool, events: seq<Event>, k: nat)
    requires FirstPass(base, events) && k < |events| && (events[k].Begin? || events[k].Else?)
    ensures Numbered(events, k, After2(base, events, |events|).blocks)
  {
    hide Asserts, Step, Advance, Inherited, Where, Opened;
    var s, t, own := After2(base, events, k + 1), After2(base, events, |events|), After1(base, events).blocks;
    SameDeclaration(base, events, k);
    SecondStandsAt(base, events, k + 1);
    SecondPass(base, events, k + 1);
    SecondPass(base, events, |events|);
    assert Place(Top(s).block, Top(s).branch) == Where(events[..k + 1])[|s.stack| - 1];
    ExtendsTrans(s.blocks, own, t.blocks);
  }

  // ------------------------------------------------------------------
  // The compiler
  // ------------------------------------------------------------------

  /** Adding to one declaration before looking at the others changes nothing in the
      end. */
  lemma {:induction false} InheritedBounds(blocks: seq<seq<Decl>>, f: Frame, more: set<nat>, stack: seq<Frame>)
    requires Within(blocks, f)
    ensures var after := WithRequired(blocks, f, more);
            Inherited(blocks, stack) <= Inherited(after, stack) <= Inherited(blocks, stack) + blocks[f.block][f.branch].required + more
    decreases |stack|
  {
    if stack != [] {
      InheritedBounds(blocks, f, more, stack[..|stack| - 1]);
    }
  }

  lemma WithRequiredTwice(blocks: seq<seq<Decl>>, f: Frame, a: set<nat>, b: set<nat>, c: set<nat>)
    requires Within(blocks, f) && blocks[f.block][f.branch].required + a + b == blocks[f.block][f.branch].required + c
    ensures WithRequired(WithRequired(blocks, f, a), f, b) == WithRequired(blocks, f, c)
  {
    var once, d := WithRequired(blocks, f, a), blocks[f.block];
    assert once[f.block] == d[f.branch := d[f.branch].(required := d[f.branch].required + a)];
    assert WithRequired(once, f, b)[f.block] == WithRequired(blocks, f, c)[f.block];
  }

  lemma WithNothing(blocks: seq<seq<Decl>>, f: Frame)
    requires Within(blocks, f)
    ensures WithRequired(blocks, f, {}) == blocks
  {
    var d := blocks[f.block];
    assert d[f.branch].(required := d[f.branch].required + {}) == d[f.branch];
    assert d[f.branch := d[f.branch]] == d;
    assert blocks[f.block := d] == blocks;
  }

  class Compiler {
    var blocks: seq<seq<Decl>>
    var stack: seq<Frame>
    var lastBlock: nat
    var nextId: nat
    const base: bool

    function View(): State
      reads this
    {
      State(blocks, stack, lastBlock, nextId)
    }

    constructor (base: bool)
      ensures blocks == EMPTY && stack == [] && this.base == base
    {
      blocks, stack, lastBlock, nextId := EMPTY, [], 0, 1;
      this.base := base;
    }

    method Push(f: Frame)
      modifies `stack
      ensures stack == old(stack) + [f]
    {
      stack := stack + [f];
    }

    method Pop()
      requires stack != []
      modifies `stack
      ensures stack == old(stack[..|stack| - 1])
    {
      stack := stack[..|stack| - 1];
    }

    /** `define_policy` */
    method DefinePolicy()
      modifies this
      ensures View() == Start(old(blocks))
    {
      nextId := 2;
      while stack != []
        invariant blocks == old(blocks) && nextId == 2
        decreases |stack|
      {
        Pop();
      }
      Push(Frame(0, 0, false, false));
      lastBlock := 0;
    }

    /** `begin_optional` */
    method BeginOptional(pass: Pass)
      requires Asserts(pass, View(), Begin)
      modifies this
      ensures (View(), true) == Step(pass, base, old(View()), Begin)
    {
      if pass == First {
        blocks := blocks[..lastBlock + 1] + [[Decl(nextId, {})]];
      } else {
        assert lastBlock + 1 < |blocks| && blocks[lastBlock + 1] != [] && blocks[lastBlock + 1][0].id == nextId;
      }
      Push(Frame(lastBlock + 1, 0, false, false));
      lastBlock := lastBlock + 1;
      nextId := nextId + 1;
    }

    /** `begin_optional_else` */
    method BeginElse(pass: Pass)
      requires Asserts(pass, View(), Else)
      modifies this
      ensures (View(), true) == Step(pass, base, old(View()), Else)
    {
      var f := stack[|stack| - 1];
      assert !f.inElse;
      if pass == First {
        blocks := blocks[f.block := blocks[f.block][..f.branch + 1] + [Decl(nextId, {})]];
      } else {
        assert |blocks[f.block]| == f.branch + 2 && blocks[f.block][f.branch + 1].id == nextId;
      }
      stack := stack[|stack| - 1 := Frame(f.block, f.branch + 1, true, false)];
      nextId := nextId + 1;
    }

    /** `require_symbol` on a symbol that may be required here. */
    method RequireSymbol(pass: Pass, x: nat) returns (ok: bool)
      requires Asserts(pass, View(), Require(x))
      modifies this
      ensures (View(), ok) == Step(pass, base, old(View()), Require(x))
      ensures ok <==> pass.Second? || !old(Top(View())).inElse
      ensures pass.Second? || !ok ==> View() == old(View())
      ensures pass.First? && ok ==>
                var f := old(Top(View()));
                forall p: Place, y: nat ::
                  Requires(blocks, p, y) <==> Requires(old(blocks), p, y) || (p == Place(f.block, f.branch) && y == x)
    {
      if pass == Second {
        return true;
      }
      var f := stack[|stack| - 1];
      if f.inElse {
        return false;
      }
      blocks := WithRequired(blocks, f, {x});
      stack := stack[|stack| - 1 := f.(requireGiven := true)];
      return true;
    }

    /** `copy_requirements`: the frames below position n are merged into one
        declaration, from the innermost outwards. */
    method CopyRequirements(dest: Frame, n: nat)
      requires n <= |stack| && Within(blocks, dest)
      modifies `blocks
      ensures blocks == WithRequired(old(blocks), dest, Inherited(old(blocks), stack[..n]))
      decreases n
    {
      if n == 0 {
        WithNothing(blocks, dest);
        return;
      }
      ghost var before := blocks;
      var g := stack[n - 1];
      var more := if g.block < |blocks| && g.branch < |blocks[g.block]| then blocks[g.block][g.branch].required else {};
      blocks := WithRequired(blocks, dest, more);
      ghost var mid := blocks;
      assert stack[..n][..n - 1] == stack[..n - 1];
      InheritedBounds(before, dest, more, stack[..n - 1]);
      CopyRequirements(dest, n - 1);
      WithRequiredTwice(before, dest, more, Inherited(mid, stack[..n - 1]), Inherited(before, stack[..n]));
    }

    /** `end_avrule_block` */
    method EndBlock(pass: Pass) returns (ok: bool)
      requires Asserts(pass, View(), Close)
      modifies this
      ensures (View(), ok) == Step(pass, base, old(View()), Close)
    {
      var f := stack[|stack| - 1];
      if pass == Second {
        CopyRequirements(f, |stack| - 1);
        return true;
      }
      if !f.inElse && !f.requireGiven {
        return base && |stack| > 1;
      }
      return true;
    }

    /** `end_optional` */
    method EndOptional(pass: Pass)
      requires Asserts(pass, View(), End)
      modifies this
      ensures (View(), true) == Step(pass, base, old(View()), End)
    {
      Pop();
    }

    method Do(pass: Pass, e: Event) returns (ok: bool)
      requires Asserts(pass, View(), e)
      modifies this
      ensures (View(), ok) == Step(pass, base, old(View()), e)
    {
      ok := true;
      match e
      case Begin => BeginOptional(pass);
      case Require(x) => ok := RequireSymbol(pass, x);
      case Close => ok := EndBlock(pass);
      case Else => BeginElse(pass);
      case End => EndOptional(pass);
    }
  }

  /** Both passes over any well-nested input. The first may refuse it; the second
      then never does, and no assert of either fails. */
  method Compile(base: bool, events: seq<Event>) returns (ok: bool, blocks: seq<seq<Decl>>)
    requires Nesting(events).Some?
    ensures ok <==> FirstPass(base, events)
    ensures ok <==> forall k | 0 <= k < |events| :: !Refused(base, events, k)
    ensures ok ==> blocks == After2(base, events, |events|).blocks
    ensures ok ==> forall k | 0 <= k < |events| && events[k].Close? :: InheritsExactly(events, k, blocks)
    ensures ok ==> forall k | 0 <= k < |events| && (events[k].Begin? || events[k].Else?) :: Numbered(events, k, blocks)
  {
    hide Asserts, Step, Advance, Refused, InheritsExactly, Numbered, FirstPass, After1, After2, Nesting;
    PassesUnlessRefused(base, events);
    NothingReadYet(base);
    var c := new Compiler(base);
    c.DefinePolicy();
    assert events[..0] == [];
    for i := 0 to |events|
      invariant fresh(c) && c.base == base && FirstPass(base, events[..i]) && c.View() == After1(base, events[..i])
    {
      FirstPassStep(base, events, i);
      var done := c.Do(First, events[i]);
      if !done {
        NotFirstPass(base, events, i + 1);
        return false, [];
      }
    }
    assert events[..|events|] == events;
    NothingRead(base, events);
    c.DefinePolicy();
    for i := 0 to |events|
      invariant fresh(c) && c.base == base && c.View() == After2(base, events, i)
    {
      SecondPassStep(base, events, i);
      var done := c.Do(Second, events[i]);
    }
    CompiledMeans(base, events);
    return true, c.blocks;
  }

  /** One event of the first pass, in terms of the whole input. */
  lemma FirstPassStep(base: bool, events: seq<Event>, i: nat)
    requires Nesting(events).Some? && i < |events| && FirstPass(base, events[..i])
    ensures Asserts(First, After1(base, events[..i]), events[i])
    ensures FirstPass(base, events[..i + 1]) <==> Step(First, base, After1(base, events[..i]), events[i]).1
    ensures FirstPass(base, events[..i + 1]) ==>
              After1(base, events[..i + 1]) == Step(First, base, After1(base, events[..i]), events[i]).0
  {
    hide Asserts, Step, Nesting;
    NestingPrefix(events, i + 1);
    assert events[..i] + [events[i]] == events[..i + 1];
    FirstPassAsserts(base, events[..i], events[i]);
    FirstPassSnoc(base, events[..i], events[i], events[..i + 1]);
  }

  lemma FirstPassSnoc(base: bool, before: seq<Event>, e: Event, all: seq<Event>)
    requires FirstPass(base, before) && all == before + [e] && Nesting(all).Some?
    requires Asserts(First, After1(base, before), e)
    ensures FirstPass(base, all) <==> Step(First, base, After1(base, before), e).1
    ensures FirstPass(base, all) ==> After1(base, all) == Step(First, base, After1(base, before), e).0
  {
    hide Asserts, Step, Nesting;
    var n := |all| - 1;
    assert all[..n] == before && all[n] == e;
  }

  lemma NothingRead(base: bool, events: seq<Event>)
    requires FirstPass(base, events)
    ensures After2(base, events, 0) == Start(After1(base, events).blocks)
  {
    assert events[..0] == [];
  }

  lemma NothingReadYet(base: bool)
    ensures FirstPass(base, []) && After1(base, []) == Start(EMPTY)
  {
  }

  lemma CompiledMeans(base: bool, events: seq<Event>)
    requires FirstPass(base, events)
    ensures var blocks := After2(base, events, |events|).blocks;
            && (forall k | 0 <= k < |events| && events[k].Close? :: InheritsExactly(events, k, blocks))
            && (forall k | 0 <= k < |events| && (events[k].Begin? || events[k].Else?) :: Numbered(events, k, blocks))
  {
    hide InheritsExactly, Numbered, After2;
    var blocks := After2(base, events, |events|).blocks;
    forall k | 0 <= k < |events| && events[k].Close?
      ensures InheritsExactly(events, k, blocks)
    {
      EventsInherited(base, events, k);
    }
    forall k | 0 <= k < |events| && (events[k].Begin? || events[k].Else?)
      ensures Numbered(events, k, blocks)
    {
      EventsNumber(base, events, k);
    }
  }

  lemma NotFirstPass(base: bool, events: seq<Event>, k: nat)
    requires k <= |events| && !FirstPass(base, events[..k])
    ensures !FirstPass(base, events)
  {
    if FirstPass(base, events) {
      FirstPassPrefix(base, events, k);
    }
  }
}

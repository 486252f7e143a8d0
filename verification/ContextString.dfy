/** Security contexts as strings (libselinux/src/context.c): parsing into user, role,
    type and range, printing, and the checks of the setters. A component may be
    missing, which is not the same as empty. */
module ContextString {
  import opened Wrappers

  type Component = Option<string>

  const COMP_RANGE: nat := 3

  // ------------------------------------------------------------------
  // What is accepted
  // ------------------------------------------------------------------

  function Colons(s: string): nat {
    if s == "" then 0 else Colons(s[..|s| - 1]) + if s[|s| - 1] == ':' then 1 else 0
  }

  predicate Control(c: char) {
    c == '\n' || c == '\t' || c == '\r'
  }

  /** No control characters, blanks only behind the third colon. */
  ghost predicate Sane(s: string) {
    forall i | 0 <= i < |s| :: !Control(s[i]) && (s[i] == ' ' ==> Colons(s[..i]) >= 3)
  }

  ghost predicate Accepted(s: string) {
    Sane(s) && 2 <= Colons(s) <= 5
  }

  /** The first loop of `context_new`. */
  method Check(s: string) returns (ok: bool)
    ensures ok <==> Accepted(s)
  {
    var count := 0;
    for p := 0 to |s|
      invariant count == Colons(s[..p])
      invariant forall i | 0 <= i < p :: !Control(s[i]) && (s[i] == ' ' ==> Colons(s[..i]) >= 3)
    {
      assert s[..p + 1][..p] == s[..p];
      if s[p] == ':' {
        count := count + 1;
      } else if s[p] == '\n' || s[p] == '\t' || s[p] == '\r' {
        return false;
      } else if s[p] == ' ' {
        if count < 3 {
          return false;
        }
      }
    }
    assert s[..|s|] == s;
    return 2 <= count <= 5;
  }

  lemma {:induction false} ColonsAppend(a: string, b: string)
    ensures Colons(a + b) == Colons(a) + Colons(b)
    decreases |b|
  {
    if b == "" {
      assert a + b == a;
    } else {
      assert (a + b)[..|a + b| - 1] == a + b[..|b| - 1];
      ColonsAppend(a, b[..|b| - 1]);
    }
  }

  lemma {:induction false} NoColons(s: string)
    ensures Colons(s) == 0 <==> NoneIn(s)
  {
    if s != "" {
      NoColons(s[..|s| - 1]);
      assert NoneIn(s) <==> NoneIn(s[..|s| - 1]) && s[|s| - 1] != ':';
    }
  }

  ghost predicate NoneIn(s: string) {
    forall i | 0 <= i < |s| :: s[i] != ':'
  }

  // ------------------------------------------------------------------
  // Splitting and joining
  // ------------------------------------------------------------------

  /** The components read from position i on: the first three end at a colon, the
      last is the rest. */
  function Split(s: string, i: nat): (ts: seq<string>)
    requires i <= 3
    ensures |ts| <= 4 - i && (s != "" ==> ts != [])
    decreases |s|
  {
    if s == "" then []
    else if i == 3 then [s]
    else
      var n := Until(s, ':');
      if n == |s| then [s] else [s[..n]] + Split(s[n + 1..], i + 1)
  }

  function Join(ts: seq<string>): string {
    if ts == [] then "" else if |ts| == 1 then ts[0] else ts[0] + ":" + Join(ts[1..])
  }

  /** The last colon separates nothing. */
  predicate Dangling(s: string, i: nat) {
    s != "" && s[|s| - 1] == ':' && i + Colons(s) <= 3
  }

  lemma ColonsBehind(s: string, n: nat)
    requires n < |s| && s[n] == ':' && forall i | 0 <= i < n :: s[i] != ':'
    ensures Colons(s) == 1 + Colons(s[n + 1..])
  {
    assert s == s[..n] + ":" + s[n + 1..];
    ColonsAppend(s[..n] + ":", s[n + 1..]);
    ColonsAppend(s[..n], ":");
    NoColons(s[..n]);
    assert ":"[..0] == "" && Colons(":") == 1;
  }

  lemma JoinCons(t: string, ts: seq<string>)
    requires ts != []
    ensures Join([t] + ts) == t + (":" + Join(ts))
  {
    assert ([t] + ts)[1..] == ts;
  }

  /** What a split leaves out of the string: at most the dangling colon. */
  function Undangled(s: string, i: nat): string {
    if Dangling(s, i) then s[..|s| - 1] else s
  }

  lemma UndangledBehind(a: string, rest: string, i: nat)
    requires rest != "" && NoneIn(a)
    ensures Undangled(a + (":" + rest), i) == a + (":" + Undangled(rest, i + 1))
  {
    hide Colons;
    var s := a + (":" + rest);
    ColonsBehind(s, |a|);
    assert s[|a| + 1..] == rest;
    assert s[..|s| - 1] == a + (":" + rest[..|rest| - 1]);
  }

  lemma JoinSplitBehind(a: string, rest: string, i: nat)
    requires rest != "" && NoneIn(a) && i < 3 && Join(Split(rest, i + 1)) == Undangled(rest, i + 1)
    ensures Join([a] + Split(rest, i + 1)) == Undangled(a + (":" + rest), i)
  {
    hide Colons, Join, Split, Undangled;
    JoinCons(a, Split(rest, i + 1));
    UndangledBehind(a, rest, i);
  }

  lemma UndangledEnd(a: string, i: nat)
    requires NoneIn(a) && i < 3
    ensures Undangled(a + (":" + ""), i) == a
  {
    hide Colons;
    var s := a + (":" + "");
    ColonsBehind(s, |a|);
    NoColons(s[|a| + 1..]);
    assert s[..|s| - 1] == a;
  }

  lemma SplitBase(s: string, i: nat)
    requires i <= 3
    ensures Split("", i) == []
    ensures s != "" && (i == 3 || Until(s, ':') == |s|) ==> Split(s, i) == [s]
  {
  }

  /** The first component, and what follows its colon. */
  lemma Cut(s: string, i: nat) returns (a: string, rest: string)
    requires i < 3 && Until(s, ':') < |s|
    ensures s == a + (":" + rest) && NoneIn(a) && Split(s, i) == [a] + Split(rest, i + 1)
  {
    a, rest := s[..Until(s, ':')], s[Until(s, ':') + 1..];
    Glue(s, Until(s, ':'));
  }

  lemma Glue(s: string, n: nat)
    requires n < |s| && s[n] == ':'
    ensures s == s[..n] + (":" + s[n + 1..])
  {
  }

  lemma {:induction false} JoinSplit(s: string, i: nat)
    requires i <= 3
    ensures Join(Split(s, i)) == Undangled(s, i)
    decreases |s|
  {
    hide Colons, Join, Split, Until;
    JoinFew(s);
    SplitBase(s, i);
    if s != "" && i < 3 && Until(s, ':') < |s| {
      var a, rest := Cut(s, i);
      if rest == "" {
        JoinFew(a);
        SplitBase(rest, i + 1);
        assert [a] + [] == [a];
        UndangledEnd(a, i);
      } else {
        JoinSplit(rest, i + 1);
        JoinSplitBehind(a, rest, i);
      }
    } else if s != "" {
      LastColon(s);
      NoColons(s);
    }
  }

  lemma JoinFew(s: string)
    ensures Join([]) == "" && Join([s]) == s
  {
  }

  lemma LastColon(s: string)
    requires s != ""
    ensures s[|s| - 1] == ':' ==> Colons(s) >= 1
  {
  }

  ghost predicate Plain(ts: seq<string>, i: nat) {
    forall k | 0 <= k < |ts| && i + k < 3 :: NoneIn(ts[k])
  }

  lemma {:induction false} SplitJoin(ts: seq<string>, i: nat)
    requires ts != [] && i + |ts| <= 4 && Plain(ts, i) && ts[|ts| - 1] != ""
    ensures Split(Join(ts), i) == ts
    decreases |ts|
  {
    hide Join, Split, Until;
    JoinFew(ts[0]);
    if |ts| == 1 {
      assert ts == [ts[0]];
      SplitOne(ts[0], i);
    } else {
      assert ts == [ts[0]] + ts[1..];
      assert forall k | 0 <= k < |ts[1..]| :: ts[1..][k] == ts[k + 1];
      SplitJoin(ts[1..], i + 1);
      JoinCons(ts[0], ts[1..]);
      SplitCons(ts[0], Join(ts[1..]), i);
    }
  }

  lemma SplitOne(t: string, i: nat)
    requires t != "" && i <= 3 && (i < 3 ==> NoneIn(t))
    ensures Split(t, i) == [t]
  {
  }

  lemma SplitCons(a: string, rest: string, i: nat)
    requires NoneIn(a) && i < 3
    ensures Split(a + (":" + rest), i) == [a] + Split(rest, i + 1)
  {
    hide Until, NoneIn;
    var s := a + (":" + rest);
    FirstColon(a, ":" + rest);
    assert s[..|a|] == a && s[|a| + 1..] == rest;
  }

  lemma FirstColon(a: string, b: string)
    requires NoneIn(a) && b != "" && b[0] == ':'
    ensures Until(a + b, ':') == |a|
  {
    assert forall i | 0 <= i < |a| :: (a + b)[i] == a[i];
    assert (a + b)[|a|] == ':';
  }

  // ------------------------------------------------------------------
  // Parsing and printing
  // ------------------------------------------------------------------

  /** Component k, missing behind the last. */
  function Nth(ts: seq<string>, k: nat): Component {
    if k < |ts| then Some(ts[k]) else None
  }

  function Components(ts: seq<string>): seq<Component> {
    [Nth(ts, 0), Nth(ts, 1), Nth(ts, 2), Nth(ts, 3)]
  }

  ghost function Parse(s: string): Option<seq<Component>> {
    if Accepted(s) then Some(Components(Split(s, 0))) else None
  }

  /** The components that are there. */
  function Present(cs: seq<Component>): seq<string> {
    if cs == [] then []
    else if cs[0].Some? then [cs[0].value] + Present(cs[1..])
    else Present(cs[1..])
  }

  /** The first component must be there: the source copies it unseen. */
  function Print(cs: seq<Component>): string
    requires |cs| == 4 && cs[0].Some?
  {
    Join(Present(cs))
  }

  lemma PresentComponents(ts: seq<string>)
    requires |ts| <= 4
    ensures Present(Components(ts)) == ts
  {
    hide Present;
    var n0, n1, n2, n3 := Nth(ts, 0), Nth(ts, 1), Nth(ts, 2), Nth(ts, 3);
    PresentCons(n3, []);
    PresentCons(n2, [n3]);
    PresentCons(n1, [n2, n3]);
    PresentCons(n0, [n1, n2, n3]);
    assert Components(ts) == [n0] + [n1, n2, n3];
    assert [n1, n2, n3] == [n1] + [n2, n3] && [n2, n3] == [n2] + [n3] && [n3] == [n3] + [];
  }

  lemma PresentCons(c: Component, cs: seq<Component>)
    ensures Present([c] + cs) == (if c.Some? then [c.value] else []) + Present(cs)
    ensures Present([]) == []
  {
    assert ([c] + cs)[1..] == cs;
  }

  /** Parsing then printing is the identity except where the string ends in a colon
      that separates nothing; there that colon is lost. */
  lemma PrintParse(s: string)
    requires Accepted(s)
    ensures Components(Split(s, 0))[0].Some?
    ensures Print(Parse(s).value) == if Dangling(s, 0) then s[..|s| - 1] else s
    ensures Print(Parse(s).value) == s <==> !(s[|s| - 1] == ':' && Colons(s) <= 3)
  {
    hide Join;
    assert s != "";
    PresentComponents(Split(s, 0));
    JoinSplit(s, 0);
  }

  // ------------------------------------------------------------------
  // What the setters accept
  // ------------------------------------------------------------------

  predicate SettableChar(k: nat, c: char) {
    !Control(c) && (k != COMP_RANGE ==> c != ':' && c != ' ')
  }

  ghost predicate Settable(k: nat, s: string) {
    forall p | 0 <= p < |s| :: SettableChar(k, s[p])
  }

  ghost predicate Wellformed(cs: seq<Component>) {
    |cs| == 4 && forall k | 0 <= k < 4 && cs[k].Some? :: Settable(k, cs[k].value)
  }

  /** As `Sane`, for what follows i colons. */
  ghost predicate SaneFrom(s: string, i: nat) {
    forall p | 0 <= p < |s| :: !Control(s[p]) && (s[p] == ' ' ==> i + Colons(s[..p]) >= 3)
  }

  ghost predicate AllSettable(ts: seq<string>, i: nat) {
    forall k | 0 <= k < |ts| :: Settable(i + k, ts[k])
  }

  lemma SaneBehind(a: string, rest: string, i: nat)
    requires NoneIn(a)
    ensures SaneFrom(a + (":" + rest), i) <==>
      (forall p | 0 <= p < |a| :: !Control(a[p]) && (a[p] == ' ' ==> i >= 3)) && SaneFrom(rest, i + 1)
  {
    hide Colons;
    var s := a + (":" + rest);
    forall p | 0 <= p <= |a|
      ensures Colons(s[..p]) == 0
    {
      NoColons(s[..p]);
    }
    forall p | 0 <= p < |rest|
      ensures s[|a| + 1 + p] == rest[p] && Colons(s[..|a| + 1 + p]) == 1 + Colons(rest[..p])
    {
      var t := s[..|a| + 1 + p];
      ColonsBehind(t, |a|);
      assert t[|a| + 1..] == rest[..p];
    }
    assert forall p | 0 <= p < |a| :: s[p] == a[p];
    assert s[|a|] == ':';
    assert forall p | |a| < p < |s| :: s[p] == rest[p - |a| - 1];
  }

  lemma SaneAlone(a: string, i: nat)
    requires NoneIn(a)
    ensures SaneFrom(a, i) <==> forall p | 0 <= p < |a| :: !Control(a[p]) && (a[p] == ' ' ==> i >= 3)
  {
    hide Colons;
    forall p | 0 <= p <= |a|
      ensures Colons(a[..p]) == 0
    {
      NoColons(a[..p]);
    }
  }

  /** The components of a sane string are what the setters accept. */
  lemma {:induction false} SplitSettable(s: string, i: nat)
    requires i <= 3 && SaneFrom(s, i)
    ensures AllSettable(Split(s, i), i)
    decreases |s|
  {
    hide Colons, Split, Until, SaneFrom;
    SplitBase(s, i);
    if s != "" && i < 3 && Until(s, ':') < |s| {
      var a, rest := Cut(s, i);
      SaneBehind(a, rest, i);
      SplitSettable(rest, i + 1);
      ConsSettable(a, Split(rest, i + 1), i);
    } else {
      OneSettable(s, i);
    }
  }

  lemma ConsSettable(a: string, ts: seq<string>, i: nat)
    requires i < 3 && NoneIn(a) && (forall p | 0 <= p < |a| :: !Control(a[p]) && (a[p] == ' ' ==> i >= 3))
    requires AllSettable(ts, i + 1)
    ensures AllSettable([a] + ts, i)
  {
    assert forall k | 0 <= k < |ts| :: Settable(i + 1 + k, ts[k]);
  }

  lemma OneSettable(s: string, i: nat)
    requires i <= 3 && SaneFrom(s, i) && (i == 3 || s == "" || Until(s, ':') == |s|)
    ensures Settable(i, s)
  {
    hide Colons;
    if i < 3 {
      SaneAlone(s, i);
    }
  }

  lemma {:induction false} JoinSane(ts: seq<string>, i: nat)
    requires i + |ts| <= 4 && AllSettable(ts, i)
    ensures SaneFrom(Join(ts), i) && Plain(ts, i)
    decreases |ts|
  {
    hide Colons, Join;
    if ts != [] {
      JoinFew(ts[0]);
      assert Settable(i, ts[0]);
      if |ts| == 1 {
        assert ts == [ts[0]];
        if i < 3 {
          SaneAlone(ts[0], i);
        }
      } else {
        assert forall k | 0 <= k < |ts[1..]| :: ts[1..][k] == ts[k + 1];
        JoinSane(ts[1..], i + 1);
        JoinCons(ts[0], ts[1..]);
        assert ts == [ts[0]] + ts[1..];
        SaneBehind(ts[0], Join(ts[1..]), i);
        assert forall k | 1 <= k < |ts| :: ts[k] == ts[1..][k - 1];
      }
    } else {
      JoinFew("");
    }
  }

  lemma {:induction false} JoinColons(ts: seq<string>, i: nat)
    requires ts != [] && i + |ts| <= 4 && Plain(ts, i)
    ensures Colons(Join(ts)) == |ts| - 1 + if i + |ts| == 4 then Colons(ts[|ts| - 1]) else 0
    decreases |ts|
  {
    hide Colons, Join;
    JoinFew(ts[0]);
    if |ts| == 1 {
      assert ts == [ts[0]];
      if i < 3 {
        NoColons(ts[0]);
      }
    } else {
      assert forall k | 0 <= k < |ts[1..]| :: ts[1..][k] == ts[k + 1];
      JoinColons(ts[1..], i + 1);
      JoinCons(ts[0], ts[1..]);
      assert ts == [ts[0]] + ts[1..];
      assert NoneIn(ts[0]);
      var s := ts[0] + (":" + Join(ts[1..]));
      ColonsBehind(s, |ts[0]|);
      assert s[|ts[0]| + 1..] == Join(ts[1..]);
    }
  }

  lemma SaneIsSaneFrom(s: string)
    ensures Sane(s) <==> SaneFrom(s, 0)
  {
  }

  /** Whatever is parsed could have been set component by component. */
  lemma ParsedIsWellformed(s: string)
    requires Accepted(s)
    ensures Wellformed(Parse(s).value)
  {
    hide Colons, Split;
    SaneIsSaneFrom(s);
    SplitSettable(s, 0);
    assert forall k | 0 <= k < |Split(s, 0)| :: Settable(0 + k, Split(s, 0)[k]);
  }

  /** All of user, role and type are there, the last component is not empty, and the
      range has at most two colons. */
  predicate Restorable(cs: seq<Component>)
    requires |cs| == 4
  {
    && cs[1].Some? && cs[2].Some?
    && (cs[3].None? ==> cs[2].value != "")
    && (cs[3].Some? ==> cs[3].value != "" && Colons(cs[3].value) <= 2)
  }

  lemma PresentFull(cs: seq<Component>)
    requires |cs| == 4 && cs[0].Some? && cs[1].Some? && cs[2].Some?
    ensures Present(cs) == [cs[0].value, cs[1].value, cs[2].value] + (if cs[3].Some? then [cs[3].value] else [])
    ensures Components(Present(cs)) == cs
  {
    hide Present;
    PresentCons(cs[3], []);
    PresentCons(cs[2], [cs[3]]);
    PresentCons(cs[1], [cs[2], cs[3]]);
    PresentCons(cs[0], [cs[1], cs[2], cs[3]]);
    assert cs == [cs[0]] + [cs[1], cs[2], cs[3]];
    assert [cs[1], cs[2], cs[3]] == [cs[1]] + [cs[2], cs[3]] && [cs[2], cs[3]] == [cs[2]] + [cs[3]] && [cs[3]] == [cs[3]] + [];
  }

  lemma RestorableIsRestored(cs: seq<Component>)
    requires Wellformed(cs) && cs[0].Some? && Restorable(cs)
    ensures Parse(Print(cs)) == Some(cs)
  {
    hide Colons, Split, Join, Present;
    PresentFull(cs);
    var ts := Present(cs);
    assert forall k | 0 <= k < |ts| :: cs[k] == Some(ts[k]);
    assert AllSettable(ts, 0);
    JoinSane(ts, 0);
    SaneIsSaneFrom(Join(ts));
    JoinColons(ts, 0);
    SplitJoin(ts, 0);
  }

  /** An accepted string that does not end in a dangling colon has its first three
      components, a last one that is not empty, and a range within the limit. */
  lemma FullSplit(s: string)
    requires Accepted(s) && !Dangling(s, 0)
    ensures Restorable(Components(Split(s, 0)))
  {
    hide Colons, Split, Join;
    var ts := Split(s, 0);
    JoinSplit(s, 0);
    NoColons("");
    SaneIsSaneFrom(s);
    SplitSettable(s, 0);
    JoinSane(ts, 0);
    SplitNonempty(s);
    JoinColons(ts, 0);
    if |ts| == 3 && ts[2] == "" {
      EndsInColon(ts);
    }
    LastNonempty(s, 0);
  }

  lemma SplitNonempty(s: string)
    ensures Split(s, 0) == [] ==> Colons(s) == 0
  {
  }

  lemma EndsInColon(ts: seq<string>)
    requires |ts| == 3 && ts[2] == ""
    ensures Join(ts) != "" && Join(ts)[|Join(ts)| - 1] == ':'
  {
    JoinCons(ts[1], [""]);
    JoinCons(ts[0], [ts[1]] + [""]);
    assert ts == [ts[0]] + ([ts[1]] + [""]);
  }

  lemma {:induction false} LastNonempty(s: string, i: nat)
    requires i <= 3
    ensures |Split(s, i)| == 4 - i ==> Split(s, i)[3 - i] != ""
    decreases |s|
  {
    if s != "" && i < 3 && Until(s, ':') < |s| {
      LastNonempty(s[Until(s, ':') + 1..], i + 1);
    }
  }

  /** Printing then parsing gives back exactly the restorable contexts. */
  lemma ParsePrint(cs: seq<Component>)
    requires Wellformed(cs) && cs[0].Some?
    ensures Parse(Print(cs)) == Some(cs) <==> Restorable(cs)
  {
    hide Colons, Split, Join, Present, Restorable;
    if Restorable(cs) {
      RestorableIsRestored(cs);
    } else if Parse(Print(cs)) == Some(cs) {
      PrintParse(Print(cs));
      FullSplit(Print(cs));
    }
  }

  /** Every context written with an empty range loses its last colon. */
  lemma EmptyRangeLost(u: string, r: string, t: string)
    requires Settable(0, u) && Settable(1, r) && Settable(2, t)
    ensures var s := Join([u, r, t, ""]);
            Accepted(s) && Dangling(s, 0) && Print(Parse(s).value) == s[..|s| - 1] != s
  {
    hide Colons, Join, Settable, Sane, SaneFrom, Split;
    var ts := [u, r, t, ""];
    NothingSettable();
    assert AllSettable(ts, 0);
    JoinSane(ts, 0);
    SaneIsSaneFrom(Join(ts));
    JoinColons(ts, 0);
    NoColons("");
    EndsBehindColon([u, r, t]);
    assert [u, r, t] + [""] == ts;
    PrintParse(Join(ts));
  }

  lemma NothingSettable()
    ensures Settable(3, "")
  {
  }

  lemma EndsBehindColon(ts: seq<string>)
    requires ts != []
    ensures var s := Join(ts + [""]); s != "" && s[|s| - 1] == ':' && s[..|s| - 1] == Join(ts)
  {
    JoinSnoc(ts, "");
  }

  /** A string that does not survive parsing and printing. */
  lemma DanglingLost()
    ensures Accepted("u:r:t:") && Print(Parse("u:r:t:").value) == "u:r:t"
  {
    hide Accepted, Parse, Print, Join;
    EmptyRangeLost("u", "r", "t");
    JoinFew("");
    JoinCons("t", [""]);
    JoinCons("r", ["t", ""]);
    JoinCons("u", ["r", "t", ""]);
    assert ["t"] + [""] == ["t", ""] && ["r"] + ["t", ""] == ["r", "t", ""] && ["u"] + ["r", "t", ""] == ["u", "r", "t", ""];
    assert Join(["u", "r", "t", ""]) == "u:r:t:";
    assert "u:r:t:"[..5] == "u:r:t";
  }

  /** A context that the setters accept and that is not recovered: its type is empty
      and it has no range. */
  lemma EmptyTypeLost()
    ensures var cs: seq<Component> := [Some("u"), Some("r"), Some(""), None];
            Wellformed(cs) && Print(cs) == "u:r:" && Parse(Print(cs)) != Some(cs)
  {
    var cs: seq<Component> := [Some("u"), Some("r"), Some(""), None];
    PresentFull(cs);
    JoinCons("r", [""]);
    JoinCons("u", ["r"] + [""]);
    assert Present(cs) == ["u"] + (["r"] + [""]);
    ParsePrint(cs);
  }

  // ------------------------------------------------------------------
  // The context object
  // ------------------------------------------------------------------

  class Context {
    var currentStr: Component
    var component: seq<Component>

    ghost predicate Valid()
      reads this
    {
      Wellformed(component)
    }

    constructor Empty()
      ensures component == [None, None, None, None] && currentStr == None
    {
      component, currentStr := [None, None, None, None], None;
    }

    /** `context_new` */
    static method New(str: string) returns (c: Context?)
      ensures c == null <==> !Accepted(str)
      ensures c != null ==> fresh(c) && c.Valid() && Parse(str) == Some(c.component)
    {
      hide Colons, Accepted, Wellformed, Split, Components, Until, Cutting;
      CutNone(str);
      var ok := Check(str);
      if !ok {
        return null;
      }
      c := new Context.Empty();
      ComponentsNone();
      var i, tok := 0, str;
      ghost var parts: seq<string> := [];
      while tok != ""
        invariant |parts| == i <= 4 && Cutting(str, parts, tok)
        invariant c.component == Components(parts) && fresh(c)
        decreases |tok|
      {
        var p := if i < COMP_RANGE then Until(tok, ':') else |tok|;
        CutOne(str, parts, tok, p);
        ComponentsStep(parts, tok[..p]);
        c.component := c.component[i := Some(tok[..p])];
        parts := parts + [tok[..p]];
        i, tok := i + 1, if p < |tok| then tok[p + 1..] else "";
      }
      CutAll(str, parts);
      ParsedIsWellformed(str);
    }

    /** `context_str` */
    method Str() returns (s: string)
      requires |component| == 4 && component[0].Some?
      modifies `currentStr
      ensures s == Print(component) && currentStr == Some(s)
    {
      s := component[0].value;
      ghost var done := [component[0].value];
      PresentRest(component, 1);
      for i := 1 to 4
        invariant done != [] && s == Join(done) && done + Present(component[i..]) == Present(component)
      {
        PresentRest(component, i);
        if component[i].Some? {
          JoinSnoc(done, component[i].value);
          s := s + ":" + component[i].value;
          done := done + [component[i].value];
        }
      }
      assert component[4..] == [] && Present(component[4..]) == [];
      assert done + [] == done;
      currentStr := Some(s);
    }

    /** `set_comp`; a missing string removes the component. */
    method SetComp(idx: nat, str: Component) returns (failed: bool)
      requires Valid() && idx < 4
      modifies `component
      ensures Valid()
      ensures failed <==> str.Some? && !Settable(idx, str.value)
      ensures component == if failed then old(component) else old(component)[idx := str]
    {
      if str.Some? {
        for p := 0 to |str.value|
          invariant forall q | 0 <= q < p :: SettableChar(idx, str.value[q])
        {
          var c := str.value[p];
          if c == '\t' || c == '\n' || c == '\r' || ((c == ':' || c == ' ') && idx != COMP_RANGE) {
            return true;
          }
        }
      }
      component := component[idx := str];
      return false;
    }
  }

  /** The components cut off so far, and what is left to cut. */
  ghost predicate Cutting(str: string, parts: seq<string>, tok: string) {
    && |parts| <= 4 && (|parts| == 4 ==> tok == "")
    && parts + (if |parts| < 4 then Split(tok, |parts|) else []) == Split(str, 0)
  }

  lemma CutNone(str: string)
    ensures Cutting(str, [], str)
  {
  }

  lemma CutAll(str: string, parts: seq<string>)
    requires Cutting(str, parts, "")
    ensures parts == Split(str, 0)
  {
    assert parts + [] == parts;
  }

  lemma CutOne(str: string, parts: seq<string>, tok: string, p: nat)
    requires Cutting(str, parts, tok) && tok != ""
    requires p == (if |parts| < COMP_RANGE then Until(tok, ':') else |tok|)
    ensures |parts| < 4 && p <= |tok| && Cutting(str, parts + [tok[..p]], if p < |tok| then tok[p + 1..] else "")
  {
    hide Until, Split, Cutting;
    Bounded(str, parts, tok);
    SplitStep(tok, |parts|, p);
    if p < |tok| {
      CutMiddle(str, parts, tok, tok[..p], tok[p + 1..]);
    } else {
      CutLast(str, parts, tok);
    }
  }

  lemma Bounded(str: string, parts: seq<string>, tok: string)
    requires Cutting(str, parts, tok) && tok != ""
    ensures |parts| < 4
  {
  }

  lemma CutMiddle(str: string, parts: seq<string>, tok: string, t: string, rest: string)
    requires Cutting(str, parts, tok) && |parts| < 3 && Split(tok, |parts|) == [t] + Split(rest, |parts| + 1)
    ensures Cutting(str, parts + [t], rest)
  {
    hide Split;
    Move(parts, t, Split(rest, |parts| + 1), Split(str, 0));
  }

  lemma CutLast(str: string, parts: seq<string>, tok: string)
    requires Cutting(str, parts, tok) && |parts| < 4 && Split(tok, |parts|) == [tok]
    ensures Cutting(str, parts + [tok], "")
  {
    hide Split;
    Alone(tok);
    Move(parts, tok, [], Split(str, 0));
    if |parts| < 3 {
      SplitBase("", |parts| + 1);
    }
  }

  lemma Alone(t: string)
    ensures [t] + [] == [t]
  {
  }

  lemma Move(parts: seq<string>, t: string, rest: seq<string>, all: seq<string>)
    requires parts + ([t] + rest) == all
    ensures (parts + [t]) + rest == all
  {
  }

  lemma SplitStep(s: string, i: nat, p: nat)
    requires s != "" && i <= 3 && p == (if i < COMP_RANGE then Until(s, ':') else |s|)
    ensures p == |s| ==> Split(s, i) == [s] && s[..p] == s
    ensures p < |s| ==> i < 3 && Split(s, i) == [s[..p]] + Split(s[p + 1..], i + 1)
  {
    hide Until;
  }

  lemma ComponentsNone()
    ensures Components([]) == [None, None, None, None]
  {
  }

  lemma ComponentsStep(ts: seq<string>, t: string)
    requires |ts| < 4
    ensures |Components(ts)| == 4 && Components(ts + [t]) == Components(ts)[|ts| := Some(t)]
  {
  }

  lemma PresentRest(cs: seq<Component>, i: nat)
    requires i < |cs|
    ensures Present(cs[i..]) == (if cs[i].Some? then [cs[i].value] else []) + Present(cs[i + 1..])
    ensures i == 1 && cs[0].Some? ==> Present(cs) == [cs[0].value] + Present(cs[1..])
  {
    assert cs[i..][1..] == cs[i + 1..];
  }

  lemma {:induction false} JoinSnoc(ts: seq<string>, t: string)
    requires ts != []
    ensures Join(ts + [t]) == Join(ts) + ":" + t
    decreases |ts|
  {
    if |ts| == 1 {
      assert (ts + [t])[1..] == [t];
    } else {
      assert (ts + [t])[1..] == ts[1..] + [t];
      JoinSnoc(ts[1..], t);
    }
  }
}

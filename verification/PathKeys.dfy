/** How `lookup_all` (libselinux/src/label_file.c) cleans the path it is asked for:
    repeated slashes become one, and a trailing slash goes. */
module PathKeys {
  import opened Wrappers

  /** The non-empty components of a path. */
  function Components(s: string): seq<string>
    decreases |s|
  {
    if s == "" then []
    else if s[0] == '/' then Components(s[1..])
    else [s[..Until(s, '/')]] + Components(s[Until(s, '/')..])
  }

  function Join(cs: seq<string>): string {
    if cs == [] then "" else if |cs| == 1 then cs[0] else cs[0] + "/" + Join(cs[1..])
  }

  /** The one spelling of a path: its components with single slashes between them,
      after a slash if the path is absolute. */
  function Canonical(s: string): string
    requires s != ""
  {
    (if s[0] == '/' then "/" else "") + Join(Components(s))
  }

  /** Every slash that is followed by a slash goes. */
  function Collapse(s: string): string {
    if |s| < 2 then s
    else if s[0] == '/' && s[1] == '/' then Collapse(s[1..])
    else [s[0]] + Collapse(s[1..])
  }

  function DropTrailing(s: string): string {
    if |s| > 1 && s[|s| - 1] == '/' then s[..|s| - 1] else s
  }

  lemma {:induction false} CollapseFirst(s: string)
    ensures s != "" ==> Collapse(s) != "" && Collapse(s)[0] == s[0]
    ensures s == "" ==> Collapse(s) == ""
  {
    if |s| >= 2 && s[0] == '/' && s[1] == '/' {
      CollapseFirst(s[1..]);
    }
  }

  lemma {:induction false} AllSlashes(s: string)
    requires s != "" && s[0] == '/' && Components(s) == []
    ensures Collapse(s) == "/"
  {
    if |s| >= 2 {
      var t := s[1..];
      assert t[0] == '/';
      AllSlashes(t);
    }
  }

  /** What the two loops leave is the one spelling of the path. */
  lemma {:induction false} CleanIsCanonical(s: string)
    requires s != ""
    ensures DropTrailing(Collapse(s)) == Canonical(s)
    decreases |s|
  {
    hide Canonical, Collapse, DropTrailing, Until;
    if |s| == 1 {
      OneCharacter(s);
    } else if s[0] == '/' {
      CleanIsCanonical(s[1..]);
      SlashFirst(s);
    } else if Until(s, '/') == |s| {
      NoSlash(s);
    } else {
      CollapseUntil(s, 0, Until(s, '/'));
      assert s[0..] == s && s[0..Until(s, '/')] == s[..Until(s, '/')];
      RunThenSlash(s, Until(s, '/'));
    }
  }

  lemma OneCharacter(s: string)
    requires |s| == 1
    ensures DropTrailing(Collapse(s)) == Canonical(s)
  {
    if s[0] == '/' {
      assert s == "/" && s[1..] == "";
      assert Components(s) == Components(s[1..]) == [];
      assert "/" + Join([]) == "/";
    } else {
      assert s[1..] == "" && Until(s, '/') == 1;
      NoSlash(s);
    }
  }

  lemma NoSlash(s: string)
    requires s != "" && Until(s, '/') == |s|
    ensures DropTrailing(Collapse(s)) == Canonical(s)
  {
    hide Collapse, Components, Until, Join;
    assert s[0..] == s;
    CopyRest(s, 0);
    OneComponent(s);
    Spelled(s);
  }

  lemma Spelled(s: string)
    ensures Join([s]) == s && "" + s == s
  {
  }

  lemma OneComponent(s: string)
    requires s != "" && Until(s, '/') == |s|
    ensures Components(s) == [s]
  {
    assert s[..|s|] == s && s[|s|..] == "";
    assert [s] + [] == [s];
  }

  lemma SlashFirst(s: string)
    requires |s| > 1 && s[0] == '/'
    requires DropTrailing(Collapse(s[1..])) == Canonical(s[1..])
    ensures DropTrailing(Collapse(s)) == Canonical(s)
  {
    hide Collapse, Canonical, DropTrailing;
    assert s[0..] == s;
    CollapseStep(s, 0);
    CollapseFirst(s[1..]);
    CanonicalSlash(s);
    if s[1] != '/' {
      DropBehindSlash(Collapse(s[1..]));
    }
  }

  lemma CanonicalSlash(s: string)
    requires |s| > 1 && s[0] == '/'
    ensures Canonical(s) == if s[1] == '/' then Canonical(s[1..]) else "/" + Canonical(s[1..])
  {
    hide Join;
    var j := Join(Components(s[1..]));
    assert Components(s) == Components(s[1..]);
    assert "" + j == j;
  }

  lemma DropBehindSlash(t: string)
    requires t != "" && t[0] != '/'
    ensures DropTrailing("/" + t) == "/" + DropTrailing(t)
  {
    if t[|t| - 1] == '/' {
      assert ("/" + t)[..|t|] == "/" + t[..|t| - 1];
    }
  }

  lemma RunThenSlash(s: string, n: nat)
    requires s != "" && s[0] != '/' && n == Until(s, '/') < |s|
    requires Collapse(s) == s[..n] + Collapse(s[n..])
    ensures DropTrailing(Collapse(s)) == Canonical(s)
    decreases |s|, 0
  {
    hide Collapse, Until;
    var u, t := s[n..], Collapse(s[n..]);
    if Components(u) == [] {
      AllSlashes(u);
      assert DropTrailing(s[..n] + "/") == s[..n];
    } else {
      CleanIsCanonical(u);
      JoinNonempty(u);
      JoinCons(s[..n], Components(u));
      assert DropTrailing(t) == "/" + Join(Components(u));
      DropAppend(s[..n], t);
    }
  }

  lemma JoinCons(c: string, cs: seq<string>)
    requires cs != []
    ensures Join([c] + cs) == c + ("/" + Join(cs))
  {
    assert ([c] + cs)[1..] == cs;
  }

  lemma DropAppend(a: string, t: string)
    requires |DropTrailing(t)| > 1
    ensures DropTrailing(a + t) == a + DropTrailing(t)
  {
  }

  lemma {:induction false} JoinNonempty(s: string)
    requires Components(s) != []
    ensures Join(Components(s)) != ""
    decreases |s|
  {
    if s[0] == '/' {
      JoinNonempty(s[1..]);
    }
  }

  // ------------------------------------------------------------------
  // The loops
  // ------------------------------------------------------------------

  ghost predicate DoubleAt(s: string, i: int) {
    0 <= i && i + 1 < |s| && s[i] == '/' && s[i + 1] == '/'
  }

  /** `strstr(key + from, "//")` */
  method FindDouble(s: string, from: nat) returns (i: int)
    requires from <= |s|
    ensures i == -1 || (from <= i && DoubleAt(s, i))
    ensures forall j | from <= j < (if i == -1 then |s| else i) :: !DoubleAt(s, j)
  {
    i := from;
    while i + 1 < |s|
      invariant from <= i <= |s|
      invariant forall j | from <= j < i :: !DoubleAt(s, j)
    {
      if s[i] == '/' && s[i + 1] == '/' {
        return;
      }
      i := i + 1;
    }
    return -1;
  }

  /** One character of the copy. */
  lemma CollapseStep(s: string, i: nat)
    requires i < |s|
    ensures Collapse(s[i..]) == if DoubleAt(s, i) then Collapse(s[i + 1..]) else [s[i]] + Collapse(s[i + 1..])
  {
    assert s[i..][1..] == s[i + 1..];
  }

  /** A stretch without double slashes is kept. */
  lemma {:induction false} CollapseUntil(s: string, from: nat, end: nat)
    requires from <= end <= |s| && forall j | from <= j < end :: !DoubleAt(s, j)
    ensures Collapse(s[from..]) == s[from..end] + Collapse(s[end..])
    decreases end - from
  {
    hide Collapse;
    if from < end {
      CollapseStep(s, from);
      CollapseUntil(s, from + 1, end);
      Glue(s[from], s[from + 1..end], Collapse(s[end..]));
      assert [s[from]] + s[from + 1..end] == s[from..end];
    } else {
      assert s[from..end] == "";
    }
  }

  lemma Glue(c: char, a: string, b: string)
    ensures [c] + (a + b) == ([c] + a) + b
  {
  }

  /** The segment up to the next double slash is copied, and one slash skipped. */
  lemma CopySegment(s: string, from: nat, i: nat)
    requires from <= i && DoubleAt(s, i) && forall j | from <= j < i :: !DoubleAt(s, j)
    ensures Collapse(s[from..]) == s[from..i] + Collapse(s[i + 1..])
  {
    hide Collapse;
    CollapseUntil(s, from, i);
    CollapseStep(s, i);
  }

  lemma CopyRest(s: string, from: nat)
    requires from <= |s| && forall j | from <= j < |s| :: !DoubleAt(s, j)
    ensures Collapse(s[from..]) == s[from..]
  {
    CollapseUntil(s, from, |s|);
    assert s[|s|..] == "" && s[from..|s|] == s[from..];
  }

  /** The cleaning part of `lookup_all`; the empty key is refused. */
  method Clean(key: string) returns (ok: bool, clean: string)
    ensures ok <==> key != ""
    ensures ok ==> clean == Canonical(key)
  {
    clean := "";
    var prev := 0;
    var next := FindDouble(key, 0);
    assert key[0..] == key;
    while next != -1
      invariant prev <= |key| && clean + Collapse(key[prev..]) == Collapse(key)
      invariant next == -1 || (prev <= next && DoubleAt(key, next))
      invariant forall j | prev <= j < (if next == -1 then |key| else next) :: !DoubleAt(key, j)
      decreases |key| - prev
    {
      CopySegment(key, prev, next);
      clean := clean + key[prev..next];
      prev := next + 1;
      next := FindDouble(key, prev);
    }
    CopyRest(key, prev);
    clean := clean + key[prev..];
    if |clean| == 0 {
      CollapseFirst(key);
      return false, "";
    }
    if |clean| > 1 && clean[|clean| - 1] == '/' {
      clean := clean[..|clean| - 1];
    }
    ok := true;
    CleanIsCanonical(key);
  }
}

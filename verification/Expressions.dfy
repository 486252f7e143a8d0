/** Conditional and constraint expressions of checkpolicy (policy_define.c): token
    lists in postfix order, put together by `define_cond_expr` and `define_cexpr`,
    checked by a depth counter, and evaluated by `cond_evaluate_expr`
    (libsepol/src/conditional.c) on a stack of fixed size.

    A is what stands at a leaf: a boolean, or an attribute or name set. */
module Expressions {
  import opened Wrappers

  datatype Op = And | Or | Xor | Eq | Neq

  datatype Token<A> = Leaf(a: A) | Not | Binary(op: Op) | Unknown

  datatype Tree<A> = Atom(a: A) | Negation(t: Tree<A>) | Pair(op: Op, l: Tree<A>, r: Tree<A>)

  const COND_EXPR_MAXDEPTH: nat := 10
  const CEXPR_MAXDEPTH: nat := 5

  function Postfix<A>(t: Tree<A>): (s: seq<Token<A>>)
    ensures s != []
  {
    match t
    case Atom(a) => [Leaf(a)]
    case Negation(u) => Postfix(u) + [Not]
    case Pair(op, l, r) => Postfix(l) + Postfix(r) + [Binary(op)]
  }

  function Max(a: nat, b: nat): nat {
    if a >= b then a else b
  }

  /** The stack slots that evaluating the postfix form takes. */
  function Slots<A>(t: Tree<A>): (n: nat)
    ensures n > 0
  {
    match t
    case Atom(_) => 1
    case Negation(u) => Slots(u)
    case Pair(_, l, r) => Max(Slots(l), Slots(r) + 1)
  }

  predicate LeavesPass<A(!new)>(t: Tree<A>, legal: A -> bool) {
    match t
    case Atom(a) => legal(a)
    case Negation(u) => LeavesPass(u, legal)
    case Pair(_, l, r) => LeavesPass(l, legal) && LeavesPass(r, legal)
  }

  /** Conditionals put no condition on their leaves. */
  predicate Any<A>(a: A) {
    true
  }

  /** The list is the postfix form of a legal tree that fits in `max` slots. */
  ghost predicate Encodes<A(!new)>(tokens: seq<Token<A>>, t: Tree<A>, max: nat, legal: A -> bool) {
    tokens == Postfix(t) && Slots(t) <= max && LeavesPass(t, legal)
  }

  // ------------------------------------------------------------------
  // Shift and reduce
  // ------------------------------------------------------------------

  /** One token on a stack of trees. */
  function Shift<A(!new)>(tok: Token<A>, st: seq<Tree<A>>, max: nat, legal: A -> bool): Option<seq<Tree<A>>> {
    var n := |st|;
    match tok
    case Leaf(a) => if n < max && legal(a) then Some(st + [Atom(a)]) else None
    case Not => if n >= 1 then Some(st[..n - 1] + [Negation(st[n - 1])]) else None
    case Binary(op) => if n >= 2 then Some(st[..n - 2] + [Pair(op, st[n - 2], st[n - 1])]) else None
    case Unknown => None
  }

  function Parse<A(!new)>(tokens: seq<Token<A>>, st: seq<Tree<A>>, max: nat, legal: A -> bool): Option<seq<Tree<A>>>
    decreases |tokens|
  {
    if tokens == [] then Some(st)
    else
      var next := Shift(tokens[0], st, max, legal);
      if next.None? then None else Parse(tokens[1..], next.value, max, legal)
  }

  lemma {:induction false} ParseAppend<A(!new)>(a: seq<Token<A>>, b: seq<Token<A>>, st: seq<Tree<A>>, max: nat, legal: A -> bool)
    ensures Parse(a + b, st, max, legal) ==
      var mid := Parse(a, st, max, legal);
      if mid.None? then None else Parse(b, mid.value, max, legal)
    decreases |a|
  {
    if a == [] {
      assert a + b == b;
    } else {
      assert (a + b)[1..] == a[1..] + b;
      var next := Shift(a[0], st, max, legal);
      if next.Some? {
        ParseAppend(a[1..], b, next.value, max, legal);
      }
    }
  }

  lemma ParseOne<A(!new)>(tok: Token<A>, st: seq<Tree<A>>, max: nat, legal: A -> bool)
    ensures Parse([tok], st, max, legal) == Shift(tok, st, max, legal)
  {
    assert [tok][1..] == [];
  }

  /** Reading the postfix form of a tree pushes the tree, if there is room for the
      whole of it. */
  lemma {:induction false} ParsePostfix<A(!new)>(t: Tree<A>, st: seq<Tree<A>>, max: nat, legal: A -> bool)
    ensures Parse(Postfix(t), st, max, legal)
         == if |st| + Slots(t) <= max && LeavesPass(t, legal) then Some(st + [t]) else None
    decreases t
  {
    match t
    case Atom(a) =>
      ParseOne(Leaf(a), st, max, legal);
    case Negation(u) =>
      ParsePostfix(u, st, max, legal);
      ParseAppend(Postfix(u), [Not], st, max, legal);
      ParseOne<A>(Not, st + [u], max, legal);
      assert (st + [u])[..|st|] == st;
    case Pair(op, l, r) =>
      ParsePostfix(l, st, max, legal);
      ParsePostfix(r, st + [l], max, legal);
      ParseAppend(Postfix(l), Postfix(r), st, max, legal);
      ParseAppend(Postfix(l) + Postfix(r), [Binary(op)], st, max, legal);
      ParseOne<A>(Binary(op), st + [l] + [r], max, legal);
      assert (st + [l] + [r])[..|st|] == st;
  }

  ghost function Flat<A>(st: seq<Tree<A>>): seq<Token<A>> {
    if st == [] then [] else Flat(st[..|st| - 1]) + Postfix(st[|st| - 1])
  }

  lemma FlatSnoc<A>(st: seq<Tree<A>>, t: Tree<A>)
    ensures Flat(st + [t]) == Flat(st) + Postfix(t)
  {
    assert (st + [t])[..|st|] == st;
  }

  lemma FlatOne<A>(t: Tree<A>)
    ensures Flat<A>([]) == [] && Flat([t]) == Postfix(t)
  {
    assert [t][..0] == [];
  }

  ghost predicate AllPass<A(!new)>(st: seq<Tree<A>>, legal: A -> bool) {
    forall k | 0 <= k < |st| :: LeavesPass(st[k], legal)
  }

  lemma ShiftSound<A(!new)>(tok: Token<A>, st: seq<Tree<A>>, max: nat, legal: A -> bool)
    requires Shift(tok, st, max, legal).Some? && AllPass(st, legal)
    ensures var st' := Shift(tok, st, max, legal).value; Flat(st') == Flat(st) + [tok] && AllPass(st', legal)
  {
    hide Flat;
    var n := |st|;
    match tok
    case Leaf(a) =>
      FlatSnoc(st, Atom(a));
    case Not =>
      assert st == st[..n - 1] + [st[n - 1]];
      FlatSnoc(st[..n - 1], st[n - 1]);
      FlatSnoc(st[..n - 1], Negation(st[n - 1]));
    case Binary(op) =>
      assert st == st[..n - 2] + [st[n - 2]] + [st[n - 1]];
      FlatSnoc(st[..n - 2], st[n - 2]);
      FlatSnoc(st[..n - 2] + [st[n - 2]], st[n - 1]);
      FlatSnoc(st[..n - 2], Pair(op, st[n - 2], st[n - 1]));
  }

  lemma {:induction false} ParseSound<A(!new)>(tokens: seq<Token<A>>, st: seq<Tree<A>>, max: nat, legal: A -> bool)
    requires Parse(tokens, st, max, legal).Some? && AllPass(st, legal)
    ensures var st' := Parse(tokens, st, max, legal).value; Flat(st') == Flat(st) + tokens && AllPass(st', legal)
    decreases |tokens|
  {
    hide Flat, Shift;
    if tokens != [] {
      ShiftSound(tokens[0], st, max, legal);
      var next := Shift(tokens[0], st, max, legal).value;
      ParseSound(tokens[1..], next, max, legal);
      assert tokens == [tokens[0]] + tokens[1..];
    }
  }

  /** A list has at most one tree. */
  lemma PostfixIsInjective<A(!new)>(t: Tree<A>, u: Tree<A>)
    requires Postfix(t) == Postfix(u)
    ensures t == u
  {
    var max, legal := Slots(t) + Slots(u), (a: A) => true;
    AllLegal(t, legal);
    AllLegal(u, legal);
    ParsePostfix(t, [], max, legal);
    ParsePostfix(u, [], max, legal);
    assert ([] + [t])[0] == ([] + [u])[0];
  }

  lemma {:induction false} AllLegal<A(!new)>(t: Tree<A>, legal: A -> bool)
    requires forall a :: legal(a)
    ensures LeavesPass(t, legal)
  {
    match t
    case Atom(_) =>
    case Negation(u) => AllLegal(u, legal);
    case Pair(_, l, r) =>
      AllLegal(l, legal);
      AllLegal(r, legal);
  }

  // ------------------------------------------------------------------
  // The depth checker
  // ------------------------------------------------------------------

  /** What the checker accepts: reading leaves exactly one tree. */
  ghost predicate Accepted<A(!new)>(tokens: seq<Token<A>>, max: nat, legal: A -> bool) {
    var r := Parse(tokens, [], max, legal);
    r.Some? && |r.value| == 1
  }

  /** ... which is to say that the list is the postfix form of a tree that fits, and
      of no other tree. */
  lemma AcceptedMeansTree<A(!new)>(tokens: seq<Token<A>>, max: nat, legal: A -> bool)
    ensures Accepted(tokens, max, legal) <==> exists t :: Encodes(tokens, t, max, legal)
    ensures forall t, u | Encodes(tokens, t, max, legal) && Encodes(tokens, u, max, legal) :: t == u
  {
    if Accepted(tokens, max, legal) {
      var t := TreeOf(tokens, max, legal);
      assert Encodes(tokens, t, max, legal);
    }
    forall t | Encodes(tokens, t, max, legal)
      ensures Accepted(tokens, max, legal)
    {
      ParsePostfix(t, [], max, legal);
    }
    forall t, u | Encodes(tokens, t, max, legal) && Encodes(tokens, u, max, legal)
      ensures t == u
    {
      PostfixIsInjective(t, u);
    }
  }

  lemma TreeOf<A(!new)>(tokens: seq<Token<A>>, max: nat, legal: A -> bool) returns (t: Tree<A>)
    requires Accepted(tokens, max, legal)
    ensures Encodes(tokens, t, max, legal) && Parse(tokens, [], max, legal) == Some([t])
  {
    hide Parse, Flat, Postfix, Slots, LeavesPass;
    t := Parse(tokens, [], max, legal).value[0];
    ParseSound(tokens, [], max, legal);
    FlatOne(t);
    ParsePostfix(t, [], max, legal);
    assert Parse(tokens, [], max, legal).value == [t];
    assert [] + tokens == tokens;
  }

  /** The loop in `define_conditional`, `define_constraint` and
      `define_validatetrans`. */
  method CheckDepth<A(!new)>(tokens: seq<Token<A>>, max: nat, legal: A -> bool) returns (ok: bool)
    requires max > 0
    ensures ok <==> exists t :: Encodes(tokens, t, max, legal)
  {
    AcceptedMeansTree(tokens, max, legal);
    var depth := -1;
    ghost var st: seq<Tree<A>> := [];
    assert tokens[0..] == tokens;
    for i := 0 to |tokens|
      invariant Parse(tokens[i..], st, max, legal) == Parse(tokens, [], max, legal)
      invariant depth == |st| - 1 < max
    {
      ghost var next := Shift(tokens[i], st, max, legal);
      assert tokens[i..][1..] == tokens[i + 1..];
      match tokens[i] {
        case Not =>
          if depth < 0 {
            return false;
          }
        case Binary(_) =>
          if depth < 1 {
            return false;
          }
          depth := depth - 1;
        case Leaf(a) =>
          if !legal(a) {
            return false;
          }
          if depth == max - 1 {
            return false;
          }
          depth := depth + 1;
        case Unknown =>
          return false;
      }
      st := next.value;
    }
    ok := depth == 0;
  }

  /** The leaves of a tree are those of its postfix form. */
  lemma {:induction false} LeavesPassMeans<A(!new)>(t: Tree<A>, legal: A -> bool)
    ensures LeavesPass(t, legal) <==> forall a: A | Leaf(a) in Postfix(t) :: legal(a)
    decreases t
  {
    match t
    case Atom(a) =>
      assert Leaf(a) in Postfix(t);
    case Negation(u) =>
      LeavesPassMeans(u, legal);
      assert forall a: A :: Leaf(a) in Postfix(t) <==> Leaf(a) in Postfix(u);
    case Pair(_, l, r) =>
      LeavesPassMeans(l, legal);
      LeavesPassMeans(r, legal);
      assert forall a: A :: Leaf(a) in Postfix(t) <==> Leaf(a) in Postfix(l) || Leaf(a) in Postfix(r);
  }

  /** The checks of `define_constraint` and `define_validatetrans`: a leaf about the
      old or new object is legal only in the latter. */
  method CheckConstraint<A(!new)>(tokens: seq<Token<A>>, xtarget: A -> bool, validatetrans: bool) returns (ok: bool)
    ensures ok <==> exists t :: Encodes(tokens, t, CEXPR_MAXDEPTH, LegalLeaf(xtarget, validatetrans))
    ensures ok <==>
            && (exists t :: Encodes(tokens, t, 5, Any))
            && (validatetrans || forall a: A | Leaf(a) in tokens :: !xtarget(a))
  {
    ok := CheckDepth(tokens, CEXPR_MAXDEPTH, LegalLeaf(xtarget, validatetrans));
    if ok {
      ghost var t :| Encodes(tokens, t, CEXPR_MAXDEPTH, LegalLeaf(xtarget, validatetrans));
      LeavesPassMeans(t, LegalLeaf(xtarget, validatetrans));
      LeavesPassMeans(t, Any);
      assert Encodes(tokens, t, 5, Any);
    } else if exists t :: Encodes(tokens, t, 5, Any) {
      ghost var t :| Encodes(tokens, t, 5, Any);
      LeavesPassMeans(t, LegalLeaf(xtarget, validatetrans));
      assert !Encodes(tokens, t, CEXPR_MAXDEPTH, LegalLeaf(xtarget, validatetrans));
    }
  }

  function LegalLeaf<A(!new)>(xtarget: A -> bool, validatetrans: bool): A -> bool {
    a => validatetrans || !xtarget(a)
  }

  // ------------------------------------------------------------------
  // Building
  // ------------------------------------------------------------------

  /** `define_cond_expr` and `define_cexpr` for a unary operator. */
  function BuildNot<A>(arg: seq<Token<A>>): Option<seq<Token<A>>> {
    if arg == [] then None else Some(arg + [Not])
  }

  /** ... and for a binary one. */
  function BuildBinary<A>(op: Op, arg1: seq<Token<A>>, arg2: seq<Token<A>>): Option<seq<Token<A>>> {
    if arg1 == [] || arg2 == [] then None else Some(arg1 + arg2 + [Binary(op)])
  }

  /** The linked list that holds an expression. */
  class Cell<A> {
    var tok: Token<A>
    var next: Cell?<A>

    constructor (tok: Token<A>)
      ensures this.tok == tok && next == null
    {
      this.tok, next := tok, null;
    }
  }

  /** The cells from `head` on, the last of which points to `tail`. */
  ghost predicate Segment<A>(head: Cell?<A>, cells: seq<Cell<A>>, tail: Cell?<A>)
    reads cells`next
  {
    && head == (if cells == [] then tail else cells[0])
    && (forall i {:trigger cells[i].next} | 0 <= i < |cells| :: cells[i].next == if i + 1 < |cells| then cells[i + 1] else tail)
    && (forall i, j | 0 <= i < j < |cells| :: cells[i] != cells[j])
  }

  ghost predicate Chain<A>(head: Cell?<A>, cells: seq<Cell<A>>)
    reads cells`next
  {
    Segment(head, cells, null)
  }

  lemma SegmentsJoin<A>(head: Cell?<A>, a: seq<Cell<A>>, mid: Cell?<A>, b: seq<Cell<A>>)
    requires Segment(head, a, mid) && Chain(mid, b)
    requires forall i, j | 0 <= i < |a| && 0 <= j < |b| :: a[i] != b[j]
    ensures Chain(head, a + b)
  {
  }

  ghost function Tokens<A>(cells: seq<Cell<A>>): seq<Token<A>>
    reads cells`tok
  {
    if cells == [] then [] else Tokens(cells[..|cells| - 1]) + [cells[|cells| - 1].tok]
  }

  twostate lemma {:induction false} TokensKept<A>(cells: seq<Cell<A>>)
    requires forall i | 0 <= i < |cells| :: cells[i].tok == old(cells[i].tok)
    ensures Tokens(cells) == old(Tokens(cells))
    decreases |cells|
  {
    if cells != [] {
      TokensKept(cells[..|cells| - 1]);
    }
  }

  lemma {:induction false} TokensAppend<A>(a: seq<Cell<A>>, b: seq<Cell<A>>)
    ensures Tokens(a + b) == Tokens(a) + Tokens(b)
    decreases |b|
  {
    if b == [] {
      assert a + b == a;
    } else {
      assert (a + b)[..|a + b| - 1] == a + b[..|b| - 1];
      TokensAppend(a, b[..|b| - 1]);
    }
  }

  lemma NoTokens<A>()
    ensures Tokens<A>([]) == []
  {
  }

  lemma HasTokens<A>(cells: seq<Cell<A>>)
    ensures Tokens(cells) == [] <==> cells == []
  {
  }

  /** The walk to the last cell. */
  method Last<A>(head: Cell?<A>, ghost cells: seq<Cell<A>>) returns (e1: Cell?<A>)
    requires Chain(head, cells)
    ensures e1 == if cells == [] then null else cells[|cells| - 1]
  {
    e1 := null;
    var e2 := head;
    ghost var k := 0;
    while e2 != null
      invariant 0 <= k <= |cells| && e2 == (if k < |cells| then cells[k] else null)
      invariant e1 == if k == 0 then null else cells[k - 1]
      decreases |cells| - k
    {
      e1 := e2;
      e2, k := e2.next, k + 1;
    }
  }

  /** A token is linked behind a list in place. */
  method Link<A>(arg: Cell<A>, tok: Token<A>, ghost cells: seq<Cell<A>>) returns (ghost out: seq<Cell<A>>)
    requires Chain(arg, cells)
    modifies cells`next
    ensures |out| == |cells| + 1 && out[..|cells|] == cells && fresh(out[|cells|])
    ensures Chain(arg, out) && Tokens(out) == old(Tokens(cells)) + [tok]
  {
    var expr := new Cell<A>(tok);
    var e1 := Last(arg, cells);
    e1.next := expr;
    out := cells + [expr];
    TokensKept(cells);
    TokensAppend(cells, [expr]);
  }

  /** The unary case on cells. */
  method LinkNot<A>(arg: Cell?<A>, ghost cells: seq<Cell<A>>) returns (r: Cell?<A>, ghost out: seq<Cell<A>>)
    requires Chain(arg, cells)
    modifies cells`next
    ensures Chain(r, out) && (r == null <==> BuildNot(old(Tokens(cells))).None?)
    ensures r != null ==> Tokens(out) == BuildNot(old(Tokens(cells))).value
    ensures forall i | 0 <= i < |out| :: out[i] in cells || fresh(out[i])
  {
    if arg == null {
      return null, [];
    }
    out := Link(arg, Not, cells);
    r := arg;
  }

  /** The binary case: second operand behind the first, operator behind both. */
  method LinkBinary<A>(op: Op, arg1: Cell?<A>, arg2: Cell?<A>, ghost c1: seq<Cell<A>>, ghost c2: seq<Cell<A>>)
    returns (r: Cell?<A>, ghost out: seq<Cell<A>>)
    requires Chain(arg1, c1) && Chain(arg2, c2) && forall i, j | 0 <= i < |c1| && 0 <= j < |c2| :: c1[i] != c2[j]
    modifies c1`next, c2`next
    ensures Chain(r, out) && (r == null <==> BuildBinary(op, old(Tokens(c1)), old(Tokens(c2))).None?)
    ensures r != null ==> Tokens(out) == BuildBinary(op, old(Tokens(c1)), old(Tokens(c2))).value
    ensures forall i | 0 <= i < |out| :: out[i] in c1 || out[i] in c2 || fresh(out[i])
  {
    hide Tokens;
    NoTokens<A>();
    HasTokens(c1);
    HasTokens(c2);
    var e1 := Last(arg1, c1);
    if e1 == null {
      return null, [];
    }
    e1.next := arg2;
    assert Segment(arg1, c1, arg2) && Chain(arg2, c2);
    if arg2 == null {
      return null, [];
    }
    TokensKept(c2);
    ghost var rest := Link(arg2, Binary(op), c2);
    assert Segment(arg1, c1, arg2);
    SegmentsJoin(arg1, c1, arg2, rest);
    r, out := arg1, c1 + rest;
    FromThree(c1, c2, rest);
    TokensKept(c1);
    TokensAppend(c1, rest);
  }

  lemma FromThree<A>(c1: seq<Cell<A>>, c2: seq<Cell<A>>, rest: seq<Cell<A>>)
    requires |rest| == |c2| + 1 && rest[..|c2|] == c2
    ensures forall i | 0 <= i < |c1 + rest| :: (c1 + rest)[i] in c1 || (c1 + rest)[i] in c2 || (c1 + rest)[i] == rest[|c2|]
  {
    forall i | 0 <= i < |c1 + rest|
      ensures (c1 + rest)[i] in c1 || (c1 + rest)[i] in c2 || (c1 + rest)[i] == rest[|c2|]
    {
      if |c1| <= i < |c1| + |c2| {
        assert rest[i - |c1|] == rest[..|c2|][i - |c1|];
      }
    }
  }

  /** A whole expression in cells, from the leaves up: the cells spell the postfix form
      of the tree. */
  method BuildCells<A>(t: Tree<A>) returns (head: Cell<A>, ghost cells: seq<Cell<A>>)
    ensures Chain(head, cells) && Tokens(cells) == Postfix(t)
    ensures forall i | 0 <= i < |cells| :: fresh(cells[i])
    decreases t
  {
    hide Tokens;
    match t
    case Atom(a) =>
      head := new Cell<A>(Leaf(a));
      cells := [head];
      OneToken(head);
    case Negation(u) =>
      var h, r;
      ghost var cs;
      h, cs := BuildCells(u);
      r, cells := LinkNot(h, cs);
      head := r;
    case Pair(op, left, right) =>
      var h1, h2, r;
      ghost var c1, c2;
      h1, c1 := BuildCells(left);
      h2, c2 := BuildCells(right);
      r, cells := LinkBinary(op, h1, h2, c1, c2);
      head := r;
  }

  lemma OneToken<A>(c: Cell<A>)
    ensures Tokens([c]) == [c.tok]
  {
    assert [c][..0] == [];
  }

  /** How the grammar builds an expression from the leaves up. */
  function Build<A>(t: Tree<A>): Option<seq<Token<A>>> {
    match t
    case Atom(a) => Some([Leaf(a)])
    case Negation(u) =>
      var b := Build(u);
      if b.None? then None else BuildNot(b.value)
    case Pair(op, l, r) =>
      var b, c := Build(l), Build(r);
      if b.None? || c.None? then None else BuildBinary(op, b.value, c.value)
  }

  lemma {:induction false} BuildIsPostfix<A>(t: Tree<A>)
    ensures Build(t) == Some(Postfix(t))
  {
    match t
    case Atom(_) =>
    case Negation(u) => BuildIsPostfix(u);
    case Pair(_, l, r) =>
      BuildIsPostfix(l);
      BuildIsPostfix(r);
  }

  /** Negating a list keeps it acceptable or not, in as many slots. */
  lemma NotKeepsAcceptance<A(!new)>(tokens: seq<Token<A>>, max: nat, legal: A -> bool)
    ensures Accepted(tokens + [Not], max, legal) <==> Accepted(tokens, max, legal)
  {
    ParseAppend(tokens, [Not], [], max, legal);
    var r := Parse(tokens, [], max, legal);
    if r.Some? {
      ParseOne(Not, r.value, max, legal);
    }
  }

  // ------------------------------------------------------------------
  // Evaluation
  // ------------------------------------------------------------------

  function Combine(op: Op, a: bool, b: bool): bool {
    match op
    case And => a && b
    case Or => a || b
    case Xor => a != b
    case Eq => a == b
    case Neq => a != b
  }

  function Value<A>(t: Tree<A>, env: A -> bool): bool {
    match t
    case Atom(a) => env(a)
    case Negation(u) => !Value(u, env)
    case Pair(op, l, r) => Combine(op, Value(l, env), Value(r, env))
  }

  /** The bit operators of the evaluator on 0 and 1. */
  function Bits(op: Op, a: int, b: int): int {
    match op
    case And => if a == 1 && b == 1 then 1 else 0
    case Or => if a == 1 || b == 1 then 1 else 0
    case Xor => if a == b then 0 else 1
    case Eq => if a == b then 1 else 0
    case Neq => if a == b then 0 else 1
  }

  function Bit(b: bool): int {
    if b then 1 else 0
  }

  /** The evaluator's stack holds the values of the trees read so far. */
  ghost predicate Mirrors<A(!new)>(s: seq<int>, st: seq<Tree<A>>, env: A -> bool) {
    |st| <= |s| && forall k | 0 <= k < |st| :: s[k] == Bit(Value(st[k], env))
  }

  /** `cond_evaluate_expr`: on every list the checker accepts, the value of its tree;
      -1 on a list that runs out of operands or of stack, and on the empty list. */
  method Evaluate<A(!new)>(tokens: seq<Token<A>>, env: A -> bool, max: nat) returns (r: int)
    requires max > 0
    ensures forall t | Encodes(tokens, t, max, Any) :: r == Bit(Value(t, env))
    ensures r == -1 <==> tokens == [] || Parse(tokens, [], max, Any).None?
  {
    var s := new int[max](_ => -1);
    var sp := -1;
    ghost var st: seq<Tree<A>> := [];
    assert tokens[0..] == tokens;
    for i := 0 to |tokens|
      invariant Parse(tokens[i..], st, max, Any) == Parse(tokens, [], max, Any)
      invariant sp == |st| - 1 < max && (i > 0 ==> st != [])
      invariant Mirrors(s[..], st, env) && (i == 0 ==> s[0] == -1)
    {
      ghost var next := Shift(tokens[i], st, max, Any);
      assert tokens[i..][1..] == tokens[i + 1..];
      match tokens[i] {
        case Leaf(a) =>
          if sp == max - 1 {
            Refused(tokens, max, Any);
            return -1;
          }
          sp := sp + 1;
          s[sp] := Bit(env(a));
        case Not =>
          if sp < 0 {
            Refused(tokens, max, Any);
            return -1;
          }
          s[sp] := if s[sp] == 0 then 1 else 0;
        case Binary(op) =>
          if sp < 1 {
            Refused(tokens, max, Any);
            return -1;
          }
          sp := sp - 1;
          s[sp] := Bits(op, s[sp], s[sp + 1]);
        case Unknown =>
          Refused(tokens, max, Any);
          return -1;
      }
      st := next.value;
    }
    r := s[0];
    forall t | Encodes(tokens, t, max, Any)
      ensures r == Bit(Value(t, env))
    {
      ParsePostfix(t, [], max, Any);
      assert st == [t];
    }
  }

  lemma Refused<A(!new)>(tokens: seq<Token<A>>, max: nat, legal: A -> bool)
    requires Parse(tokens, [], max, legal).None?
    ensures forall t :: !Encodes(tokens, t, max, legal)
  {
    forall t
      ensures !Encodes(tokens, t, max, legal)
    {
      ParsePostfix(t, [], max, legal);
    }
  }

  // ------------------------------------------------------------------
  // Conditionals
  // ------------------------------------------------------------------

  /** A conditional node; R is a rule. */
  datatype Node<A, R> = Node(expr: seq<Token<A>>, onTrue: seq<R>, onFalse: seq<R>)

  datatype Outcome<A, R> = Illegal | Empty | Defined(node: Node<A, R>)

  /** `define_conditional`: a conditional with only false rules is turned round. The
      rules in force are those of the source under every assignment of the booleans,
      and it is refused exactly when it has rules and its expression has no tree that
      fits. */
  method DefineConditional<A(!new), R>(expr: seq<Token<A>>, t: seq<R>, f: seq<R>) returns (r: Outcome<A, R>)
    ensures r.Illegal? <==> expr == [] || ((t != [] || f != []) && !exists e :: Encodes(expr, e, COND_EXPR_MAXDEPTH, Any))
    ensures r.Empty? <==> expr != [] && t == [] && f == []
    ensures r.Defined? ==> exists e, e' ::
      && Encodes(expr, e, COND_EXPR_MAXDEPTH, Any) && Encodes(r.node.expr, e', COND_EXPR_MAXDEPTH, Any)
      && r.node.onTrue != []
      && forall env :: (if Value(e', env) then r.node.onTrue else r.node.onFalse) == if Value(e, env) then t else f
  {
    if expr == [] {
      return Illegal;
    }
    if t != [] {
      var ok := CheckDepth(expr, COND_EXPR_MAXDEPTH, Any);
      r := if ok then Defined(Node(expr, t, f)) else Illegal;
      return;
    }
    if f == [] {
      return Empty;
    }
    var inverted := BuildNot(expr).value;
    var ok := CheckDepth(inverted, COND_EXPR_MAXDEPTH, Any);
    NotKeepsAcceptance(expr, COND_EXPR_MAXDEPTH, Any);
    AcceptedMeansTree(expr, COND_EXPR_MAXDEPTH, Any);
    AcceptedMeansTree(inverted, COND_EXPR_MAXDEPTH, Any);
    if !ok {
      return Illegal;
    }
    r := Defined(Node(inverted, f, []));
    ghost var e := TreeOf(expr, COND_EXPR_MAXDEPTH, Any);
    assert Encodes(inverted, Negation(e), COND_EXPR_MAXDEPTH, Any);
    assert forall env :: (if Value(Negation(e), env) then f else []) == if Value(e, env) then t else f;
  }
}

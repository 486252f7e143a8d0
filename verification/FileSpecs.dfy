/** The table of inode and context associations that restorecon keeps
    (`filespec_add` in libselinux/src/selinux_restorecon.c): hash chains ordered by
    inode number. The file system is an argument of each call: the inode that each
    path names, if any. */
module FileSpecs {

  datatype Assoc = Assoc(ino: nat, con: string, file: string)

  type FileSystem = map<string, nat>

  const BUCKETS: nat := 0x1_0000

  /** The bucket of an inode. The sum wraps at a multiple of the bucket count, which
      the mask makes invisible. */
  function Bucket(ino: nat): (h: nat)
    ensures h < BUCKETS
  {
    (ino + ino / BUCKETS) % BUCKETS
  }

  /** The path stored for the inode no longer names it. */
  predicate Stale(a: Assoc, fs: FileSystem) {
    a.file !in fs || fs[a.file] != a.ino
  }

  // ------------------------------------------------------------------
  // The map that the table stands for
  // ------------------------------------------------------------------

  /** One `filespec_add` on the map, and its result. */
  function AddTo(table: map<nat, Assoc>, ino: nat, con: string, file: string, conflictError: bool, fs: FileSystem)
    : (map<nat, Assoc>, int)
  {
    if ino !in table then (table[ino := Assoc(ino, con, file)], 0)
    else if Stale(table[ino], fs) then (table[ino := Assoc(ino, con, file)], 1)
    else if table[ino].con == con then (table, 1)
    else (table[ino := table[ino].(file := file)], if conflictError then -1 else 1)
  }

  datatype Op = Op(ino: nat, con: string, file: string, conflictError: bool, fs: FileSystem)

  function AddAll(table: map<nat, Assoc>, ops: seq<Op>): map<nat, Assoc>
    decreases |ops|
  {
    if ops == [] then table
    else
      var op := ops[0];
      AddAll(AddTo(table, op.ino, op.con, op.file, op.conflictError, op.fs).0, ops[1..])
  }

  ghost predicate Keyed(table: map<nat, Assoc>) {
    forall ino | ino in table :: table[ino].ino == ino
  }

  /** Along the way no add finds the path stored for `ino` stale. */
  ghost predicate Steady(table: map<nat, Assoc>, ops: seq<Op>, ino: nat)
    decreases |ops|
  {
    ops == [] ||
    (var op := ops[0];
     && (op.ino == ino && ino in table ==> !Stale(table[ino], op.fs))
     && Steady(AddTo(table, op.ino, op.con, op.file, op.conflictError, op.fs).0, ops[1..], ino))
  }

  /** An association is never lost, and the first context stays for as long as the
      stored path names the inode, whatever else is added. */
  lemma {:induction false} FirstContextWins(table: map<nat, Assoc>, ops: seq<Op>, ino: nat)
    requires Keyed(table) && ino in table
    ensures Keyed(AddAll(table, ops)) && ino in AddAll(table, ops)
    ensures Steady(table, ops, ino) ==> AddAll(table, ops)[ino].con == table[ino].con
    decreases |ops|
  {
    if ops != [] {
      var op := ops[0];
      FirstContextWins(AddTo(table, op.ino, op.con, op.file, op.conflictError, op.fs).0, ops[1..], ino);
    }
  }

  /** The first add of an inode in a history fixes its context in the same way. */
  lemma {:induction false} FirstAddWins(table: map<nat, Assoc>, ops: seq<Op>, k: nat)
    requires Keyed(table) && k < |ops| && ops[k].ino !in table
    requires forall i | 0 <= i < k :: ops[i].ino != ops[k].ino
    ensures ops[k].ino in AddAll(table, ops)
    ensures Steady(table, ops, ops[k].ino) ==> AddAll(table, ops)[ops[k].ino].con == ops[k].con
    decreases k
  {
    var op := ops[0];
    var table' := AddTo(table, op.ino, op.con, op.file, op.conflictError, op.fs).0;
    if k == 0 {
      FirstContextWins(table', ops[1..], op.ino);
    } else {
      FirstAddWins(table', ops[1..], k - 1);
    }
  }

  /** A context changes only in an add that finds the stored path stale. */
  lemma ChangeMeansStale(table: map<nat, Assoc>, op: Op, ino: nat)
    requires Keyed(table) && ino in table
    ensures var table' := AddTo(table, op.ino, op.con, op.file, op.conflictError, op.fs).0;
            ino in table' && (table'[ino].con != table[ino].con <==>
              op.ino == ino && op.con != table[ino].con && Stale(table[ino], op.fs))
  {
  }

  /** What an add finds and leaves: 0 for an inode without association, -1 for another
      context while the stored path still names the inode, if conflicts are errors,
      and 1 in every other case. The context stays in a conflict and is otherwise the
      one added; the path stays when nothing differs and is otherwise the one added. */
  lemma ResultMeans(table: map<nat, Assoc>, op: Op, ino: nat)
    requires Keyed(table)
    ensures var (table', result) := AddTo(table, op.ino, op.con, op.file, op.conflictError, op.fs);
            var held := op.ino in table && table[op.ino].file in op.fs && op.fs[table[op.ino].file] == op.ino;
            && (result == 0 <==> op.ino !in table)
            && (result == -1 <==> op.conflictError && held && table[op.ino].con != op.con)
            && result in {-1, 0, 1}
            && op.ino in table' && table'[op.ino].ino == op.ino
            && table'[op.ino].con == (if held then table[op.ino].con else op.con)
            && table'[op.ino].file == (if held && table[op.ino].con == op.con then table[op.ino].file else op.file)
            && (ino != op.ino ==> (ino in table' <==> ino in table) && (ino in table ==> table'[ino] == table[ino]))
  {
  }

  /** Inodes with an association are those of the adds so far. */
  lemma {:induction false} AddedInodes(table: map<nat, Assoc>, ops: seq<Op>, ino: nat)
    ensures ino in AddAll(table, ops) <==> ino in table || exists i | 0 <= i < |ops| :: ops[i].ino == ino
    decreases |ops|
  {
    if ops != [] {
      var op := ops[0];
      var table' := AddTo(table, op.ino, op.con, op.file, op.conflictError, op.fs).0;
      AddedInodes(table', ops[1..], ino);
      if exists i | 0 <= i < |ops| :: ops[i].ino == ino {
        var i :| 0 <= i < |ops| && ops[i].ino == ino;
        assert i > 0 ==> ops[1..][i - 1].ino == ino;
      }
    }
  }

  /** In a history the result is 0 exactly for the first add of each inode. */
  lemma ZeroMeansFirst(ops: seq<Op>, k: nat)
    requires k < |ops|
    ensures var op := ops[k];
            AddTo(AddAll(map[], ops[..k]), op.ino, op.con, op.file, op.conflictError, op.fs).1 == 0
            <==> forall i | 0 <= i < k :: ops[i].ino != op.ino
  {
    AddedInodes(map[], ops[..k], ops[k].ino);
    assert forall i | 0 <= i < k :: ops[..k][i] == ops[i];
  }

  // ------------------------------------------------------------------
  // The hash table
  // ------------------------------------------------------------------

  /** Strictly descending inode numbers, all of this bucket. */
  ghost predicate Chain(c: seq<Assoc>, h: nat) {
    && (forall k | 0 <= k < |c| :: Bucket(c[k].ino) == h)
    && (forall i, j | 0 <= i < j < |c| :: c[i].ino > c[j].ino)
  }

  /** The chain of a bucket and the map agree on the inodes of the bucket. */
  ghost predicate Agrees(c: seq<Assoc>, h: nat, table: map<nat, Assoc>) {
    && (forall k | 0 <= k < |c| :: c[k].ino in table && table[c[k].ino] == c[k])
    && (forall ino | ino in table && Bucket(ino) == h :: table[ino].ino == ino && table[ino] in c)
  }

  lemma Replace(c: seq<Assoc>, h: nat, table: map<nat, Assoc>, k: nat, a: Assoc)
    requires Chain(c, h) && Agrees(c, h, table) && k < |c| && a.ino == c[k].ino
    ensures Chain(c[k := a], h) && Agrees(c[k := a], h, table[a.ino := a])
  {
    hide Bucket;
    var c', table' := c[k := a], table[a.ino := a];
    forall ino | ino in table' && Bucket(ino) == h
      ensures table'[ino].ino == ino && table'[ino] in c'
    {
      if ino == a.ino {
        assert c'[k] == a;
      } else {
        var i :| 0 <= i < |c| && c[i] == table[ino];
        assert c'[i] == c[i];
      }
    }
  }

  /** k is where the ordered chain takes an inode it does not hold. */
  ghost predicate Gap(c: seq<Assoc>, k: nat, ino: nat) {
    k <= |c| && (forall i | 0 <= i < k :: c[i].ino > ino) && (forall i | k <= i < |c| :: c[i].ino < ino)
  }

  lemma Inserted(c: seq<Assoc>, k: nat, a: Assoc)
    requires k <= |c|
    ensures var c' := c[..k] + [a] + c[k..];
            && |c'| == |c| + 1 && c'[k] == a
            && (forall i | 0 <= i < k :: c'[i] == c[i]) && (forall i | k < i < |c'| :: c'[i] == c[i - 1])
            && (forall x | x in c :: x in c')
  {
    var c' := c[..k] + [a] + c[k..];
    forall x | x in c
      ensures x in c'
    {
      var i :| 0 <= i < |c| && c[i] == x;
      assert c'[if i < k then i else i + 1] == x;
    }
  }

  lemma InsertChain(c: seq<Assoc>, h: nat, k: nat, a: Assoc)
    requires Chain(c, h) && Gap(c, k, a.ino) && Bucket(a.ino) == h
    ensures Chain(c[..k] + [a] + c[k..], h)
  {
    hide Bucket;
    Inserted(c, k, a);
  }

  lemma InsertNew(c: seq<Assoc>, h: nat, table: map<nat, Assoc>, k: nat, ino: nat)
    requires Agrees(c, h, table) && Gap(c, k, ino) && Bucket(ino) == h
    ensures ino !in table
  {
    hide Bucket;
  }

  lemma InsertAgrees(c: seq<Assoc>, h: nat, table: map<nat, Assoc>, k: nat, a: Assoc)
    requires Agrees(c, h, table) && Gap(c, k, a.ino) && Bucket(a.ino) == h
    ensures Agrees(c[..k] + [a] + c[k..], h, table[a.ino := a])
  {
    hide Bucket;
    var c', table' := c[..k] + [a] + c[k..], table[a.ino := a];
    Inserted(c, k, a);
    forall i | 0 <= i < |c'|
      ensures c'[i].ino in table' && table'[c'[i].ino] == c'[i]
    {
      var j := if i < k then i else i - 1;
      assert i != k ==> c'[i] == c[j] && c[j].ino != a.ino;
    }
    forall ino | ino in table' && Bucket(ino) == h
      ensures table'[ino].ino == ino && table'[ino] in c'
    {
      if ino != a.ino {
        assert table[ino] in c;
      }
    }
  }

  class Table {
    var buckets: seq<seq<Assoc>>
    ghost var table: map<nat, Assoc>

    ghost predicate Valid()
      reads this
    {
      && |buckets| == BUCKETS && Keyed(table)
      && forall h | 0 <= h < BUCKETS :: Chain(buckets[h], h) && Agrees(buckets[h], h, table)
    }

    constructor ()
      ensures Valid() && table == map[]
    {
      buckets := seq(BUCKETS, _ => []);
      table := map[];
    }


    /** `filespec_add` */
    method Add(ino: nat, con: string, file: string, conflictError: bool, fs: FileSystem) returns (ret: int)
      requires Valid()
      modifies this
      ensures Valid()
      ensures (table, ret) == AddTo(old(table), ino, con, file, conflictError, fs)
    {
      hide Bucket, Chain, Agrees;
      var h := Bucket(ino);
      var c := buckets[h];
      var k;
      k := Locate(c, h, ino);
      if k < |c| && c[k].ino == ino {
        Holds(c, h, table, k);
        var fl := c[k];
        if Stale(fl, fs) {
          Store(h, k, Assoc(ino, con, file));
          return 1;
        }
        if fl.con == con {
          return 1;
        }
        Store(h, k, fl.(file := file));
        return if conflictError then -1 else 1;
      }
      var fl := Assoc(ino, con, file);
      InsertChain(c, h, k, fl);
      InsertNew(c, h, table, k, ino);
      InsertAgrees(c, h, table, k, fl);
      Others(h, ino, fl);
      buckets := buckets[h := c[..k] + [fl] + c[k..]];
      table := table[ino := fl];
      return 0;
    }

    lemma Others(h: nat, ino: nat, a: Assoc)
      requires Valid() && h == Bucket(ino)
      ensures forall g | 0 <= g < BUCKETS && g != h :: Agrees(buckets[g], g, table[ino := a])
    {
      hide Bucket;
      forall g | 0 <= g < BUCKETS && g != h
        ensures Agrees(buckets[g], g, table[ino := a])
      {
        assert Chain(buckets[g], g) && Agrees(buckets[g], g, table);
      }
    }

    method Store(h: nat, k: nat, a: Assoc)
      requires Valid() && h < BUCKETS && k < |buckets[h]| && a.ino == buckets[h][k].ino && Bucket(a.ino) == h
      modifies this
      ensures Valid() && table == old(table)[a.ino := a]
    {
      hide Bucket, Chain, Agrees;
      Replace(buckets[h], h, table, k, a);
      Others(h, a.ino, a);
      buckets := buckets[h := buckets[h][k := a]];
      table := table[a.ino := a];
    }
  }

  lemma Holds(c: seq<Assoc>, h: nat, table: map<nat, Assoc>, k: nat)
    requires Agrees(c, h, table) && k < |c|
    ensures c[k].ino in table && table[c[k].ino] == c[k]
  {
  }

  /** The scan of a chain: it may stop at the first smaller inode number, because
      nothing after it can match. */
  method Locate(c: seq<Assoc>, h: nat, ino: nat) returns (k: nat)
    requires Chain(c, h)
    ensures if exists i | 0 <= i < |c| :: c[i].ino == ino then k < |c| && c[k].ino == ino else Gap(c, k, ino)
  {
    k := 0;
    while k < |c|
      invariant k <= |c| && forall i | 0 <= i < k :: c[i].ino > ino
    {
      if ino == c[k].ino {
        return;
      }
      if ino > c[k].ino {
        break;
      }
      k := k + 1;
    }
  }
}

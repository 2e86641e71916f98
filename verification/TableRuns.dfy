/** Whole runs of a hash table: it answers as a finite map would, keys being equal when
  * their hash codes are and EqProc says so.
  */
module TableRuns {
  import opened Wrappers
  import opened ProbeTable
  import opened HashTable
  import opened PersistentArray

  datatype Op<D(!new)> = Insert(e: D) | Erase(e: D) | Find(e: D) | Contains(e: D)

  // What the map holds for x after the given operations: the most recent operation on that
  // key decides
  function Expected<D(!new)>(k: Keys<D>, ops: seq<Op<D>>, x: D): Option<D> {
    if ops == [] then None else
      var n := |ops| - 1;
      match ops[n]
      case Insert(e) => if Same(k, e, x) then Some(e) else Expected(k, ops[..n], x)
      case Erase(e) => if Same(k, e, x) then None else Expected(k, ops[..n], x)
      case _ => Expected(k, ops[..n], x)
  }

  // x is what the set holds for the key of e
  ghost predicate Looked<D(!new)>(k: Keys<D>, s: set<D>, e: D, x: Option<D>) {
    match x
    case Some(d) => d in s && Same(k, d, e)
    case None => forall d :: d in s ==> !Same(k, d, e)
  }

  ghost predicate OneEach<D(!new)>(k: Keys<D>, s: set<D>) {
    forall x, y :: x in s && y in s && Same(k, x, y) ==> x == y
  }

  // A set with one datum for each key behaves as a map
  lemma LookedPut<D(!new)>(k: Keys<D>, s: set<D>, e: D, x: D, r: Option<D>)
    requires GoodKeys(k) && OneEach(k, s) && Looked(k, s, x, r)
    ensures OneEach(k, Put(k, s, e))
    ensures Looked(k, Put(k, s, e), x, if Same(k, e, x) then Some(e) else r)
  {
    if !Same(k, e, x) && r.Some? {
      OtherKey(k, e, x, r.value);
    }
  }

  lemma LookedWithout<D(!new)>(k: Keys<D>, s: set<D>, e: D, x: D, r: Option<D>)
    requires GoodKeys(k) && OneEach(k, s) && Looked(k, s, x, r)
    ensures OneEach(k, Without(k, s, e))
    ensures Looked(k, Without(k, s, e), x, if Same(k, e, x) then None else r)
  {
  }

  lemma LookedOnce<D(!new)>(k: Keys<D>, s: set<D>, e: D, x: Option<D>, y: Option<D>)
    requires GoodKeys(k) && OneEach(k, s) && Looked(k, s, e, x) && Looked(k, s, e, y)
    ensures x == y
  {
  }

  // Every key is looked up as the history says
  ghost predicate Tracks<D(!new)>(k: Keys<D>, s: set<D>, ops: seq<Op<D>>) {
    OneEach(k, s) && forall x :: Looked(k, s, x, Expected(k, ops, x))
  }

  lemma TracksNone<D(!new)>(k: Keys<D>)
    ensures Tracks(k, {}, [])
  {
  }

  ghost function Effect<D(!new)>(k: Keys<D>, s: set<D>, op: Op<D>): set<D> {
    match op
    case Insert(e) => Put(k, s, e)
    case Erase(e) => Without(k, s, e)
    case _ => s
  }

  lemma TracksNext<D(!new)>(k: Keys<D>, s: set<D>, ops: seq<Op<D>>, op: Op<D>)
    requires GoodKeys(k) && Tracks(k, s, ops)
    ensures Tracks(k, Effect(k, s, op), ops + [op])
  {
    var ops' := ops + [op];
    assert ops'[..|ops'| - 1] == ops && ops'[|ops'| - 1] == op;
    LookedPut(k, s, op.e, op.e, Expected(k, ops, op.e));
    LookedWithout(k, s, op.e, op.e, Expected(k, ops, op.e));
    forall x ensures Looked(k, Effect(k, s, op), x, Expected(k, ops', x)) {
      match op
      case Insert(e) => LookedPut(k, s, e, x, Expected(k, ops, x));
      case Erase(e) => LookedWithout(k, s, e, x, Expected(k, ops, x));
      case _ => assert Expected(k, ops', x) == Expected(k, ops, x);
    }
  }

  // The answer to the operation that follows ops
  ghost predicate Answers<D(!new)>(k: Keys<D>, ops: seq<Op<D>>, op: Op<D>, out: Option<D>) {
    && (op.Find? ==> out == Expected(k, ops, op.e))
    && (op.Contains? ==> (out.Some? <==> Expected(k, ops, op.e).Some?))
  }

  method Perform<D(!new)>(t: HashTable<D>, op: Op<D>, ghost ops: seq<Op<D>>) returns (out: Option<D>)
    requires t.Valid() && Tracks(t.k, t.Stored(), ops)
    modifies t, t.mem
    ensures t.Valid() && t.Stored() == Effect(t.k, old(t.Stored()), op)
    ensures Answers(t.k, ops, op, out) && Tracks(t.k, t.Stored(), ops + [op])
    ensures SameOthers(old(t.mem.Contents()), old(t.table), t.mem.Contents(), t.table)
  {
    hide Expected, OneEach, Memory.Contents, Memory.Valid, GoodKeys, Proper;
    out := None;
    assert Looked(t.k, t.Stored(), op.e, Expected(t.k, ops, op.e));
    TracksNext(t.k, t.Stored(), ops, op);
    match op {
      case Insert(e) => t.Insert(e);
      case Erase(e) => t.Erase(e);
      case Find(e) =>
        out := t.Find(e);
        LookedOnce(t.k, t.Stored(), e, out, Expected(t.k, ops, e));
      case Contains(e) =>
        var found := t.Contains(e);
        out := if found then Some(e) else None;
    }
  }

  // For every history, each look-up finds the datum last inserted under its key, if it was
  // not erased since
  method Run<D(!new)>(t: HashTable<D>, ops: seq<Op<D>>) returns (outs: seq<Option<D>>)
    requires t.Valid() && t.Stored() == {}
    modifies t, t.mem
    ensures t.Valid() && |outs| == |ops|
    ensures forall i :: 0 <= i < |ops| ==> Answers(t.k, ops[..i], ops[i], outs[i])
    ensures forall x :: Looked(t.k, t.Stored(), x, Expected(t.k, ops, x))
  {
    hide Expected, Looked, OneEach, Answers, HashTable.Valid, HashTable.Stored, Memory.Contents, SameOthers;
    outs := [];
    TracksNone(t.k);
    assert ops[..0] == [];
    var i := 0;
    while i < |ops|
      invariant 0 <= i <= |ops| && |outs| == i
      invariant t.Valid() && Tracks(t.k, t.Stored(), ops[..i])
      invariant forall j :: 0 <= j < i ==> Answers(t.k, ops[..j], ops[j], outs[j])
    {
      assert ops[..i + 1] == ops[..i] + [ops[i]];
      var out := Perform(t, ops[i], ops[..i]);
      outs := outs + [out];
      i := i + 1;
    }
    assert ops[..i] == ops;
  }

  // Two tables that share their array, one of them a copy: what happens to one is not seen
  // through the other
  method Apart<D(!new)>(t: HashTable<D>, u: HashTable<D>, op: Op<D>, ghost ops: seq<Op<D>>) returns (out: Option<D>)
    requires t.mem == u.mem && t != u && t.table != u.table && t.Valid() && u.Valid()
    requires Tracks(t.k, t.Stored(), ops)
    modifies t, t.mem
    ensures u.Valid() && u.Stored() == old(u.Stored()) && t.table != u.table
    ensures t.Valid() && t.Stored() == Effect(t.k, old(t.Stored()), op)
  {
    ghost var c0, h0 := t.mem.Contents(), t.table;
    out := Perform(t, op, ops);
    KeptOther(c0, h0, t.mem.Contents(), t.table, u.table);
  }

  lemma KeptOther<D(!new)>(c0: Arrays<D>, h0: nat, c: Arrays<D>, h: nat, x: nat)
    requires SameOthers(c0, h0, c, h) && x in c0 && x != h0
    ensures x != h && x in c && c[x] == c0[x]
  {
    assert x in c0 - {h0};
    assert x in c - {h};
  }
}

/** Open addressing tables as sequences of entries (src/library/phashtable.h): what a
  * table means, and what writing one entry does to it.
  */
module ProbeTable {

  datatype Entry<D(!new)> = Free | Deleted | Used(hash: nat, data: D)

  type Table<D(!new)> = seq<Entry<D>>

  // The hash code of a datum, and the equality test
  datatype Keys<!D(!new)> = Keys(hash: D -> nat, eq: (D, D) -> bool)

  // What the probing loops test: equal hash codes, then EqProc
  predicate Same<D(!new)>(k: Keys<D>, x: D, y: D) {
    k.hash(x) == k.hash(y) && k.eq(x, y)
  }

  // EqProc is an equivalence; it need not agree with the hash code
  ghost predicate GoodKeys<D(!new)>(k: Keys<D>) {
    && (forall x :: k.eq(x, x))
    && (forall x, y :: k.eq(x, y) ==> k.eq(y, x))
    && (forall x, y, z :: k.eq(x, y) && k.eq(y, z) ==> k.eq(x, z))
  }

  // Bitwise conjunction
  function And(a: nat, b: nat): (r: nat)
    ensures r <= b
  {
    if a == 0 || b == 0 then 0 else 2 * And(a / 2, b / 2) + (if a % 2 == 1 && b % 2 == 1 then 1 else 0)
  }

  // hash & mask: where the probing for a hash code begins
  function Begin(h: nat, cap: nat): (b: nat)
    requires cap > 0
    ensures b < cap
  {
    And(h, cap - 1)
  }

  // How many steps after b the probing reaches p
  function Dist(b: nat, p: nat, cap: nat): nat
    requires b < cap && p < cap
  {
    if p >= b then p - b else p + cap - b
  }

  // No Free slot lies on the probe path of the used slot p
  ghost predicate PathClear<D(!new)>(t: Table<D>, p: nat)
    requires p < |t| && t[p].Used?
  {
    var b := Begin(t[p].hash, |t|);
    forall q: nat {:trigger t[q]} :: q < |t| && Dist(b, q, |t|) < Dist(b, p, |t|) ==> !t[q].Free?
  }

  ghost predicate SlotOk<D(!new)>(k: Keys<D>, t: Table<D>, p: nat)
    requires p < |t|
  {
    t[p].Used? ==> t[p].hash == k.hash(t[p].data) && PathClear(t, p)
  }

  ghost predicate Distinct<D(!new)>(k: Keys<D>, t: Table<D>) {
    forall p, q :: 0 <= p < q < |t| && t[p].Used? && t[q].Used? ==> !Same(k, t[p].data, t[q].data)
  }

  ghost predicate Proper<D(!new)>(k: Keys<D>, t: Table<D>) {
    && |t| > 0
    && (forall p: nat {:trigger SlotOk(k, t, p)} :: p < |t| ==> SlotOk(k, t, p))
    && Distinct(k, t)
  }

  // The data in the table
  ghost function Elements<D(!new)>(t: Table<D>): set<D> {
    set p | 0 <= p < |t| && t[p].Used? :: t[p].data
  }

  function NumUsed<D(!new)>(t: Table<D>): nat {
    if t == [] then 0 else NumUsed(t[..|t| - 1]) + if t[|t| - 1].Used? then 1 else 0
  }

  function NumDeleted<D(!new)>(t: Table<D>): nat {
    if t == [] then 0 else NumDeleted(t[..|t| - 1]) + if t[|t| - 1].Deleted? then 1 else 0
  }

  // ----- counting -----

  lemma {:induction false} CountUpdate<D(!new)>(t: Table<D>, p: nat, e: Entry<D>)
    requires p < |t|
    ensures NumUsed(t[p := e]) == NumUsed(t) - (if t[p].Used? then 1 else 0) + (if e.Used? then 1 else 0)
    ensures NumDeleted(t[p := e]) == NumDeleted(t) - (if t[p].Deleted? then 1 else 0) + (if e.Deleted? then 1 else 0)
  {
    var n := |t| - 1;
    var t' := t[p := e];
    if p == n {
      assert t'[..n] == t[..n];
    } else {
      CountUpdate(t[..n], p, e);
      assert t'[..n] == t[..n][p := e];
    }
  }

  lemma {:induction false} CountFull<D(!new)>(t: Table<D>)
    ensures NumUsed(t) + NumDeleted(t) <= |t|
    ensures (forall p :: 0 <= p < |t| ==> !t[p].Free?) ==> NumUsed(t) + NumDeleted(t) == |t|
  {
    if t != [] {
      CountFull(t[..|t| - 1]);
      assert forall p :: 0 <= p < |t| - 1 ==> t[..|t| - 1][p] == t[p];
    }
  }

  lemma {:induction false} CountFree<D(!new)>(n: nat)
    ensures NumUsed(seq(n, _ => Entry<D>.Free)) == 0 && NumDeleted(seq(n, _ => Entry<D>.Free)) == 0
  {
    if n > 0 {
      CountFree<D>(n - 1);
      assert seq(n, _ => Entry<D>.Free)[..n - 1] == seq(n - 1, _ => Entry<D>.Free);
    }
  }

  // ----- looking something up -----

  // The probing for e has passed the first d slots of its path without success
  ghost predicate Passed<D(!new)>(k: Keys<D>, t: Table<D>, e: D, d: nat)
    requires |t| > 0
  {
    var b := Begin(k.hash(e), |t|);
    forall q: nat {:trigger t[q]} :: q < |t| && Dist(b, q, |t|) < d ==>
      !t[q].Free? && (t[q].Used? ==> !(t[q].hash == k.hash(e) && k.eq(t[q].data, e)))
  }

  ghost predicate Absent<D(!new)>(k: Keys<D>, t: Table<D>, e: D) {
    forall x :: x in Elements(t) ==> !Same(k, x, e)
  }

  // Reaching a Free slot, or the end, means that no used slot has the key
  lemma PassedToFree<D(!new)>(k: Keys<D>, t: Table<D>, e: D, i: nat)
    requires Proper(k, t) && i < |t| && t[i].Free? && Passed(k, t, e, Dist(Begin(k.hash(e), |t|), i, |t|))
    ensures Absent(k, t, e)
  {
    var b := Begin(k.hash(e), |t|);
    forall p: nat | p < |t| && t[p].Used? ensures !Same(k, t[p].data, e) {
      assert SlotOk(k, t, p);
      assert t[i].Free?;
    }
  }

  lemma PassedAll<D(!new)>(k: Keys<D>, t: Table<D>, e: D)
    requires Proper(k, t) && Passed(k, t, e, |t|)
    ensures Absent(k, t, e)
    ensures forall p :: 0 <= p < |t| ==> !t[p].Free?
  {
    forall p: nat | p < |t| ensures !t[p].Free? && (t[p].Used? ==> !Same(k, t[p].data, e)) {
      assert SlotOk(k, t, p);
    }
  }

  // ----- writing one entry -----

  ghost function Put<D(!new)>(k: Keys<D>, s: set<D>, e: D): set<D> {
    (set x | x in s && !Same(k, x, e)) + {e}
  }

  ghost function Without<D(!new)>(k: Keys<D>, s: set<D>, e: D): set<D> {
    set x | x in s && !Same(k, x, e)
  }

  // Insertion into the first Free slot of the probe path
  lemma {:induction false} InsertFree<D(!new)>(k: Keys<D>, t: Table<D>, e: D, i: nat)
    requires GoodKeys(k) && Proper(k, t) && i < |t| && t[i].Free?
    requires Passed(k, t, e, Dist(Begin(k.hash(e), |t|), i, |t|))
    ensures var t' := t[i := Used(k.hash(e), e)];
      Proper(k, t') && Elements(t') == Put(k, Elements(t), e) && Elements(t') == Elements(t) + {e}
  {
    PassedToFree(k, t, e, i);
    var t' := t[i := Used(k.hash(e), e)];
    forall p: nat | p < |t'| ensures SlotOk(k, t', p) {
      assert SlotOk(k, t, p);
    }
    ElementsUpdate(t, i, Used(k.hash(e), e));
    forall p, q | 0 <= p < q < |t'| && t'[p].Used? && t'[q].Used? ensures !Same(k, t'[p].data, t'[q].data) {
      if p == i {
        assert t[q].data in Elements(t);
      } else if q == i {
        assert t[p].data in Elements(t);
      }
    }
  }

  // x is stored in some slot other than i
  ghost predicate Elsewhere<D(!new)>(t: Table<D>, i: nat, x: D) {
    exists p :: 0 <= p < |t| && p != i && t[p].Used? && t[p].data == x
  }

  lemma ElementsUpdate<D(!new)>(t: Table<D>, i: nat, e: Entry<D>)
    requires i < |t|
    ensures forall x :: x in Elements(t[i := e]) <==> (e.Used? && x == e.data) || Elsewhere(t, i, x)
    ensures forall x :: x in Elements(t) <==> (t[i].Used? && x == t[i].data) || Elsewhere(t, i, x)
  {
    var t' := t[i := e];
    forall x | x in Elements(t') ensures (e.Used? && x == e.data) || Elsewhere(t, i, x) {
      var p :| 0 <= p < |t'| && t'[p].Used? && t'[p].data == x;
      if p != i {
        assert t[p] == t'[p];
      }
    }
    forall x | Elsewhere(t, i, x) ensures x in Elements(t') {
      var p :| 0 <= p < |t| && p != i && t[p].Used? && t[p].data == x;
      assert t'[p] == t[p];
    }
    if e.Used? {
      assert t'[i].Used?;
    }
  }

  lemma OtherKey<D(!new)>(k: Keys<D>, x: D, y: D, e: D)
    requires GoodKeys(k) && Same(k, y, e) && (!Same(k, x, y) || !Same(k, y, x))
    ensures !Same(k, x, e) && !Same(k, e, x)
  {
  }

  // All entries other than the found one have another key
  lemma FoundAlone<D(!new)>(k: Keys<D>, t: Table<D>, e: D, i: nat)
    requires GoodKeys(k) && Proper(k, t) && i < |t| && t[i].Used? && Same(k, t[i].data, e)
    ensures forall x :: Elsewhere(t, i, x) ==> !Same(k, x, e)
    ensures forall x :: x in Elements(t) && !Same(k, x, e) ==> Elsewhere(t, i, x)
  {
    ElementsUpdate(t, i, Free);
    forall x | Elsewhere(t, i, x) ensures !Same(k, x, e) {
      var p :| 0 <= p < |t| && p != i && t[p].Used? && t[p].data == x;
      assert !Same(k, x, t[i].data) || !Same(k, t[i].data, x);
      OtherKey(k, x, t[i].data, e);
    }
  }

  // Insertion of a datum whose key is in the table: the old datum is replaced
  lemma InsertFound<D(!new)>(k: Keys<D>, t: Table<D>, e: D, i: nat)
    requires GoodKeys(k) && Proper(k, t) && i < |t| && t[i].Used? && Same(k, t[i].data, e)
    ensures var t' := t[i := Used(k.hash(e), e)];
      Proper(k, t') && Elements(t') == Put(k, Elements(t), e)
  {
    var t' := t[i := Used(k.hash(e), e)];
    FoundAlone(k, t, e, i);
    ElementsUpdate(t, i, Used(k.hash(e), e));
    assert SlotOk(k, t, i);
    forall p: nat | p < |t'| ensures SlotOk(k, t', p) {
      assert SlotOk(k, t, p);
    }
    forall p, q | 0 <= p < q < |t'| && t'[p].Used? && t'[q].Used? ensures !Same(k, t'[p].data, t'[q].data) {
      if p == i {
        assert Elsewhere(t, i, t[q].data);
        OtherKey(k, t[q].data, e, e);
      } else if q == i {
        assert Elsewhere(t, i, t[p].data);
      }
    }
  }

  // A found entry is replaced by a tombstone
  lemma EraseTomb<D(!new)>(k: Keys<D>, t: Table<D>, e: D, i: nat)
    requires GoodKeys(k) && Proper(k, t) && i < |t| && t[i].Used? && Same(k, t[i].data, e)
    ensures Proper(k, t[i := Deleted]) && Elements(t[i := Deleted]) == Without(k, Elements(t), e)
  {
    var t' := t[i := Deleted];
    FoundAlone(k, t, e, i);
    ElementsUpdate(t, i, Deleted);
    forall p: nat | p < |t'| ensures SlotOk(k, t', p) {
      assert SlotOk(k, t, p);
    }
  }

  // The slot after i, around the end of the table
  function NextSlot(i: nat, cap: nat): (n: nat)
    requires i < cap
    ensures n < cap
  {
    if i + 1 == cap then 0 else i + 1
  }

  // A found entry is freed at once: safe because the next slot is Free, so that no probe
  // path goes on beyond i
  lemma EraseFree<D(!new)>(k: Keys<D>, t: Table<D>, e: D, i: nat)
    requires GoodKeys(k) && Proper(k, t) && i < |t| && t[i].Used? && Same(k, t[i].data, e)
    requires t[NextSlot(i, |t|)].Free?
    ensures Proper(k, t[i := Free]) && Elements(t[i := Free]) == Without(k, Elements(t), e)
  {
    var t' := t[i := Free];
    FoundAlone(k, t, e, i);
    ElementsUpdate(t, i, Free);
    forall p: nat | p < |t'| ensures SlotOk(k, t', p) {
      assert SlotOk(k, t, p);
      if t'[p].Used? {
        PathAvoids(t, p, i);
      }
    }
  }

  lemma PathAvoids<D(!new)>(t: Table<D>, p: nat, i: nat)
    requires p < |t| && i < |t| && p != i && t[p].Used? && PathClear(t, p)
    requires t[NextSlot(i, |t|)].Free?
    ensures var b := Begin(t[p].hash, |t|); Dist(b, i, |t|) >= Dist(b, p, |t|)
  {
    var b := Begin(t[p].hash, |t|);
    var n := NextSlot(i, |t|);
    assert Dist(b, n, |t|) == if n == b then 0 else Dist(b, i, |t|) + 1;
    assert t[n].Free? && n != p;
  }

  // ----- probing, one slot at a time -----

  // The slots from b to the end, then the slots before b
  function SlotAt(b: nat, d: nat, cap: nat): (q: nat)
    requires b < cap && d < cap
    ensures q < cap && Dist(b, q, cap) == d
  {
    if b + d < cap then b + d else b + d - cap
  }

  lemma PassedOne<D(!new)>(k: Keys<D>, t: Table<D>, e: D, d: nat)
    requires d < |t| && Passed(k, t, e, d)
    requires var x := t[SlotAt(Begin(k.hash(e), |t|), d, |t|)];
      !x.Free? && (x.Used? ==> !(x.hash == k.hash(e) && k.eq(x.data, e)))
    ensures Passed(k, t, e, d + 1)
  {
    var b := Begin(k.hash(e), |t|);
    forall q: nat | q < |t| && Dist(b, q, |t|) < d + 1
      ensures !t[q].Free? && (t[q].Used? ==> !(t[q].hash == k.hash(e) && k.eq(t[q].data, e)))
    {
      assert Dist(b, q, |t|) == d ==> q == SlotAt(b, d, |t|);
    }
  }

  // No slot among the first d of the probe path of h is Free
  ghost predicate Filled<D(!new)>(t: Table<D>, h: nat, d: nat)
    requires |t| > 0
  {
    var b := Begin(h, |t|);
    forall q: nat {:trigger t[q]} :: q < |t| && Dist(b, q, |t|) < d ==> !t[q].Free?
  }

  lemma FilledOne<D(!new)>(t: Table<D>, h: nat, d: nat)
    requires d < |t| && Filled(t, h, d) && !t[SlotAt(Begin(h, |t|), d, |t|)].Free?
    ensures Filled(t, h, d + 1)
  {
    var b := Begin(h, |t|);
    forall q: nat | q < |t| && Dist(b, q, |t|) < d + 1 ensures !t[q].Free? {
      assert Dist(b, q, |t|) == d ==> q == SlotAt(b, d, |t|);
    }
  }

  lemma FilledAll<D(!new)>(t: Table<D>, h: nat)
    requires |t| > 0 && Filled(t, h, |t|)
    ensures NumUsed(t) + NumDeleted(t) == |t|
  {
    forall p | 0 <= p < |t| ensures !t[p].Free? {
      assert t[p].Free? || !t[p].Free?;
    }
    CountFull(t);
  }

  // Copying an entry whose key is absent needs no comparison of keys
  lemma FilledPassed<D(!new)>(k: Keys<D>, t: Table<D>, e: D, d: nat)
    requires Proper(k, t) && Absent(k, t, e) && Filled(t, k.hash(e), d)
    ensures Passed(k, t, e, d)
  {
    var b := Begin(k.hash(e), |t|);
    forall q: nat | q < |t| && Dist(b, q, |t|) < d
      ensures !t[q].Free? && (t[q].Used? ==> !(t[q].hash == k.hash(e) && k.eq(t[q].data, e)))
    {
      assert SlotOk(k, t, q);
      if t[q].Used? {
        assert t[q].data in Elements(t);
      }
    }
  }

  // The entries of a rebuilt table: the used ones among the first i of the old table
  lemma CopiedOne<D(!new)>(k: Keys<D>, s: Table<D>, i: nat)
    requires GoodKeys(k) && Proper(k, s) && i < |s|
    ensures Elements(s[..i + 1]) == Elements(s[..i]) + if s[i].Used? then {s[i].data} else {}
    ensures s[i].Used? ==> (forall x :: x in Elements(s[..i]) ==> !Same(k, x, s[i].data))
    ensures NumUsed(s[..i + 1]) == NumUsed(s[..i]) + if s[i].Used? then 1 else 0
    ensures NumUsed(s[..i + 1]) <= i + 1
  {
    var z := s[..i + 1];
    assert z[..i] == s[..i] && z[i] == s[i];
    CountFull(z);
    ElementsSnoc(z);
    forall x | x in Elements(s[..i]) && s[i].Used? ensures !Same(k, x, s[i].data) {
      var p :| 0 <= p < i && s[..i][p].Used? && s[..i][p].data == x;
      assert s[p] == s[..i][p];
    }
  }

  // No two data have the same key, so there are as many as used slots
  lemma {:induction false} CountElements<D(!new)>(k: Keys<D>, t: Table<D>)
    requires GoodKeys(k) && Distinct(k, t)
    ensures |Elements(t)| == NumUsed(t)
  {
    if t == [] {
      assert Elements(t) == {};
    } else {
      var n := |t| - 1;
      var a := t[..n];
      assert Distinct(k, a) by {
        forall p, q | 0 <= p < q < |a| && a[p].Used? && a[q].Used? ensures !Same(k, a[p].data, a[q].data) {
          assert a[p] == t[p] && a[q] == t[q];
        }
      }
      CountElements(k, a);
      ElementsSnoc(t);
      if t[n].Used? {
        forall x | x in Elements(a) ensures x != t[n].data {
          var p :| 0 <= p < |a| && a[p].Used? && a[p].data == x;
          assert t[p] == a[p];
          assert !Same(k, t[p].data, t[n].data) && Same(k, x, x);
        }
      }
    }
  }

  lemma ElementsSnoc<D(!new)>(t: Table<D>)
    requires t != []
    ensures var n := |t| - 1; Elements(t) == Elements(t[..n]) + if t[n].Used? then {t[n].data} else {}
  {
    var n := |t| - 1;
    var a := t[..n];
    forall x | x in Elements(a) ensures x in Elements(t) {
      var p :| 0 <= p < |a| && a[p].Used? && a[p].data == x;
      assert t[p] == a[p];
    }
    forall x | x in Elements(t) ensures x in Elements(a) || (t[n].Used? && x == t[n].data) {
      var p :| 0 <= p < |t| && t[p].Used? && t[p].data == x;
      if p < n {
        assert a[p] == t[p];
      }
    }
    if t[n].Used? {
      assert t[n].data in Elements(t);
    }
  }

  lemma EmptyTable<D(!new)>(k: Keys<D>, n: nat)
    requires n > 0
    ensures var t := seq(n, _ => Entry<D>.Free);
      Proper(k, t) && Elements(t) == {} && NumUsed(t) == 0 && NumDeleted(t) == 0
  {
    var t := seq(n, _ => Entry<D>.Free);
    CountFree<D>(n);
    forall p: nat | p < |t| ensures SlotOk(k, t, p) {
    }
  }
}

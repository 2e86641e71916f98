/** phashtable_core: an open addressing hash table with tombstones, over a persistent array
  * (src/library/phashtable.h).
  */
module HashTable {
  import opened Wrappers
  import opened VersionGraph
  import opened PersistentArray
  import opened ProbeTable

  const SMALL_CAPACITY: nat := 64

  // Where the probing for a key stopped
  datatype Stop = Hit(i: nat) | Hole(i: nat) | Exhausted

  // What a probing that stops at s says about the contents
  ghost predicate Stopped<D(!new)>(k: Keys<D>, t: Table<D>, e: D, s: Stop)
    requires |t| > 0
  {
    match s
    case Hit(i) => i < |t| && t[i].Used? && Same(k, t[i].data, e)
    case Hole(i) => i < |t| && t[i].Free? && Passed(k, t, e, Dist(Begin(k.hash(e), |t|), i, |t|))
    case Exhausted => Passed(k, t, e, |t|)
  }

  // The array h of m is being accessed, and its elements are t
  ghost predicate Reads<D(!new)>(m: Memory<Entry<D>>, h: Var, t: Table<D>)
    reads m
  {
    m.Valid() && m.Accessing(h) && h in m.Contents() && m.Contents()[h] == t
  }

  // The probing loops of insert, contains, find and erase: up to the end of the table,
  // then from its beginning
  method Probe<D(!new)>(m: Memory<Entry<D>>, h: Var, k: Keys<D>, e: D, ghost t: Table<D>) returns (s: Stop)
    requires Reads(m, h, t) && GoodKeys(k) && Proper(k, t)
    ensures Stopped(k, t, e, s)
    ensures s.Hit? <==> exists x :: x in Elements(t) && Same(k, x, e)
    ensures s.Hit? ==> t[s.i].data in Elements(t)
    ensures !s.Hit? ==> Without(k, Elements(t), e) == Elements(t)
  {
    hide Memory.Valid, Memory.Contents, Memory.Accessing;
    var hash := k.hash(e);
    var cap := m.AccessSize(h);
    var begin := Begin(hash, cap);
    var idx := begin;
    while idx < cap
      invariant begin <= idx <= cap
      invariant Passed(k, t, e, idx - begin)
    {
      var curr := m.AccessAt(h, idx);
      assert SlotOk(k, t, idx);
      if curr.Used? && curr.hash == hash && k.eq(curr.data, e) {
        return Hit(idx);
      } else if curr.Free? {
        PassedToFree(k, t, e, idx);
        return Hole(idx);
      }
      PassedOne(k, t, e, idx - begin);
      idx := idx + 1;
    }
    idx := 0;
    while idx < begin
      invariant 0 <= idx <= begin
      invariant Passed(k, t, e, cap - begin + idx)
    {
      var curr := m.AccessAt(h, idx);
      assert SlotOk(k, t, idx);
      if curr.Used? && curr.hash == hash && k.eq(curr.data, e) {
        return Hit(idx);
      } else if curr.Free? {
        PassedToFree(k, t, e, idx);
        return Hole(idx);
      }
      PassedOne(k, t, e, cap - begin + idx);
      idx := idx + 1;
    }
    PassedAll(k, t, e);
    return Exhausted;
  }

  // Writing e where its probing stopped
  lemma {:induction false} InsertAt<D(!new)>(k: Keys<D>, t: Table<D>, e: D, s: Stop)
    requires GoodKeys(k) && Proper(k, t) && Stopped(k, t, e, s)
    requires NumUsed(t) + NumDeleted(t) < |t|
    ensures !s.Exhausted?
    ensures var t' := t[s.i := Used(k.hash(e), e)];
      && Proper(k, t') && Elements(t') == Put(k, Elements(t), e)
      && NumUsed(t') == NumUsed(t) + (if s.Hole? then 1 else 0) && NumDeleted(t') == NumDeleted(t)
  {
    match s
    case Hit(i) =>
      InsertFound(k, t, e, i);
      CountUpdate(t, i, Used(k.hash(e), e));
    case Hole(i) =>
      InsertFree(k, t, e, i);
      CountUpdate(t, i, Used(k.hash(e), e));
    case Exhausted =>
      PassedAll(k, t, e);
      CountFull(t);
      assert false;
  }

  // Removing the found entry i: freed only when the next slot is Free
  lemma EraseAt<D(!new)>(k: Keys<D>, t: Table<D>, e: D, i: nat, x: Entry<D>)
    requires GoodKeys(k) && Proper(k, t) && i < |t| && t[i].Used? && Same(k, t[i].data, e)
    requires x == if t[NextSlot(i, |t|)].Free? then Free else Deleted
    ensures Proper(k, t[i := x]) && Elements(t[i := x]) == Without(k, Elements(t), e)
    ensures NumUsed(t[i := x]) == NumUsed(t) - 1
    ensures NumDeleted(t[i := x]) == NumDeleted(t) + if x.Deleted? then 1 else 0
  {
    CountUpdate(t, i, x);
    if x.Free? {
      EraseFree(k, t, e, i);
    } else {
      EraseTomb(k, t, e, i);
    }
  }

  // Nothing, or one slot, has changed: freed if the next one is Free, else a tombstone
  ghost predicate Erased<D(!new)>(k: Keys<D>, t: Table<D>, t': Table<D>, e: D) {
    t' == t || exists i: nat :: ErasedAt(k, t, t', e, i)
  }

  ghost predicate ErasedAt<D(!new)>(k: Keys<D>, t: Table<D>, t': Table<D>, e: D, i: nat) {
    && i < |t| && t[i].Used? && Same(k, t[i].data, e)
    && t' == t[i := if t[NextSlot(i, |t|)].Free? then Free else Deleted]
  }

  // The probing loops of copy_table: the first Free slot for an entry whose key is new
  method FreeSlot<D(!new)>(m: Memory<Entry<D>>, h: Var, k: Keys<D>, entry: Entry<D>, ghost t: Table<D>)
      returns (i: nat)
    requires Reads(m, h, t) && GoodKeys(k) && Proper(k, t) && entry.Used? && entry.hash == k.hash(entry.data)
    requires Absent(k, t, entry.data) && NumUsed(t) + NumDeleted(t) < |t|
    ensures i < |t| && Proper(k, t[i := entry]) && Elements(t[i := entry]) == Elements(t) + {entry.data}
    ensures NumUsed(t[i := entry]) == NumUsed(t) + 1 && NumDeleted(t[i := entry]) == NumDeleted(t)
  {
    hide Memory.Valid, Memory.Contents, Memory.Accessing;
    var hash := entry.hash;
    var cap := m.AccessSize(h);
    var begin := Begin(hash, cap);
    var idx := begin;
    while idx < cap
      invariant begin <= idx <= cap
      invariant Filled(t, hash, idx - begin)
    {
      var curr := m.AccessAt(h, idx);
      if curr.Free? {
        FilledPassed(k, t, entry.data, idx - begin);
        InsertFree(k, t, entry.data, idx);
        CountUpdate(t, idx, entry);
        return idx;
      }
      FilledOne(t, hash, idx - begin);
      idx := idx + 1;
    }
    idx := 0;
    while idx < begin
      invariant 0 <= idx <= begin
      invariant Filled(t, hash, cap - begin + idx)
    {
      var curr := m.AccessAt(h, idx);
      if curr.Free? {
        FilledPassed(k, t, entry.data, cap - begin + idx);
        InsertFree(k, t, entry.data, idx);
        CountUpdate(t, idx, entry);
        return idx;
      }
      FilledOne(t, hash, cap - begin + idx);
      idx := idx + 1;
    }
    FilledAll(t, hash);
    assert false;
  }

  // The counting loop of check_invariant
  method CountSlots<D(!new)>(m: Memory<Entry<D>>, h: Var, ghost t: Table<D>) returns (used: nat, deleted: nat)
    requires Reads(m, h, t)
    ensures used == NumUsed(t) && deleted == NumDeleted(t)
  {
    hide Memory.Valid, Memory.Contents, Memory.Accessing;
    used, deleted := 0, 0;
    var cap := m.AccessSize(h);
    var idx := 0;
    while idx < cap
      invariant 0 <= idx <= cap
      invariant used == NumUsed(t[..idx]) && deleted == NumDeleted(t[..idx])
    {
      assert t[..idx + 1][..idx] == t[..idx];
      var curr := m.AccessAt(h, idx);
      if curr.Deleted? {
        deleted := deleted + 1;
      }
      if curr.Used? {
        used := used + 1;
      }
      idx := idx + 1;
    }
    assert t[..idx] == t;
  }

  // What the fields say about the array
  ghost predicate Holds<D(!new)>(k: Keys<D>, t: Table<D>, size: nat, numDeleted: nat) {
    GoodKeys(k) && Proper(k, t) && size == NumUsed(t) && numDeleted == NumDeleted(t)
  }

  // t holds copies of the used ones among the first i entries of s, and no tombstones
  ghost predicate CopyOf<D(!new)>(k: Keys<D>, s: Table<D>, i: nat, t: Table<D>) {
    && GoodKeys(k) && Proper(k, s) && Proper(k, t) && i <= |s| <= |t|
    && Elements(t) == Elements(s[..i]) && NumUsed(t) == NumUsed(s[..i]) && NumDeleted(t) == 0
  }

  lemma CopyUsed<D(!new)>(k: Keys<D>, s: Table<D>, i: nat, t: Table<D>)
    requires CopyOf(k, s, i, t) && i < |s|
    ensures s[i].Used? ==> s[i].hash == k.hash(s[i].data) && Absent(k, t, s[i].data)
    ensures NumUsed(t) + NumDeleted(t) < |t|
    ensures !s[i].Used? ==> CopyOf(k, s, i + 1, t)
  {
    assert SlotOk(k, s, i);
    CopiedOne(k, s, i);
    CountFull(s[..i]);
  }

  // FreeSlot has a place for the used entry i, and then one more entry is copied
  lemma CopyReady<D(!new)>(k: Keys<D>, s: Table<D>, i: nat, t: Table<D>)
    requires CopyOf(k, s, i, t) && i < |s| && s[i].Used?
    ensures GoodKeys(k) && Proper(k, t) && s[i].hash == k.hash(s[i].data) && Absent(k, t, s[i].data)
    ensures NumUsed(t) + NumDeleted(t) < |t|
  {
    CopyUsed(k, s, i, t);
  }

  lemma CopyMore<D(!new)>(k: Keys<D>, s: Table<D>, i: nat, t: Table<D>, t': Table<D>)
    requires CopyOf(k, s, i, t) && i < |s| && s[i].Used? && Proper(k, t') && |t'| == |t|
    requires Elements(t') == Elements(t) + {s[i].data}
    requires NumUsed(t') == NumUsed(t) + 1 && NumDeleted(t') == NumDeleted(t)
    ensures CopyOf(k, s, i + 1, t')
  {
    CopiedOne(k, s, i);
  }

  lemma CopyStart<D(!new)>(k: Keys<D>, s: Table<D>, cap: nat)
    requires GoodKeys(k) && Proper(k, s) && |s| <= cap
    ensures CopyOf(k, s, 0, seq(cap, _ => Free))
  {
    EmptyTable(k, cap);
  }

  lemma CopyDone<D(!new)>(k: Keys<D>, s: Table<D>, t: Table<D>, size: nat, numDeleted: nat)
    requires Holds(k, s, size, numDeleted) && CopyOf(k, s, |s|, t)
    ensures Holds(k, t, size, 0) && Elements(t) == Elements(s)
  {
    assert s[..|s|] == s;
  }

  type Arrays<D(!new)> = map<Var, Table<D>>

  // All arrays but h are as they were; h is the old h0 or new
  ghost predicate SameOthers<D(!new)>(c0: Arrays<D>, h0: Var, c: Arrays<D>, h: Var) {
    c - {h} == c0 - {h0} && (h == h0 || h !in c0)
  }

  lemma OthersRenamed<D(!new)>(c0: Arrays<D>, h0: Var, c: Arrays<D>, h: Var, t: Table<D>)
    requires h0 in c0 && h !in c0 && c == c0[h := t] - {h0}
    ensures SameOthers(c0, h0, c, h) && h in c && c[h] == t
  {
  }

  lemma UpdatedTwice<D(!new)>(c0: Arrays<D>, c: Arrays<D>, h: Var, t1: Table<D>, t: Table<D>)
    requires c == c0[h := t1]
    ensures c[h := t] == c0[h := t]
  {
  }

  lemma OthersUpdated<D(!new)>(c0: Arrays<D>, h0: Var, c: Arrays<D>, h: Var, t: Table<D>)
    requires SameOthers(c0, h0, c, h)
    ensures SameOthers(c0, h0, c[h := t], h)
  {
    assert c[h := t] - {h} == c - {h};
  }

  lemma OthersSame<D(!new)>(c0: Arrays<D>, h: Var, t: Table<D>)
    ensures SameOthers(c0, h, c0[h := t], h)
  {
    OthersUpdated(c0, h, c0, h, t);
  }

  lemma OthersAgain<D(!new)>(c0: Arrays<D>, h0: Var, t: Table<D>, c: Arrays<D>, h: Var)
    requires h0 in c0 && SameOthers(c0[h0 := t], h0, c, h)
    ensures SameOthers(c0, h0, c, h)
  {
    assert c0[h0 := t] - {h0} == c0 - {h0};
  }

  lemma ErasedLength<D(!new)>(k: Keys<D>, t: Table<D>, t': Table<D>, e: D)
    requires Erased(k, t, t', e)
    ensures |t'| == |t|
  {
  }

  class HashTable<D(!new)> {
    const mem: Memory<Entry<D>>
    const k: Keys<D>
    var table: Var
    var size: nat
    var numDeleted: nat

    ghost predicate Valid()
      reads this, mem
    {
      mem.Valid() && table in mem.Contents() && Holds(k, mem.Contents()[table], size, numDeleted)
    }

    // The data stored: no two have the same key
    ghost function Stored(): set<D>
      reads this, mem
      requires Valid()
    {
      Elements(mem.Contents()[table])
    }

    constructor (m: Memory<Entry<D>>, keys: Keys<D>, capacity: nat)
      requires m.Valid() && GoodKeys(keys)
      requires capacity > 0 && And(capacity, capacity - 1) == 0
      modifies m
      ensures mem == m && k == keys && Valid() && Stored() == {}
      ensures table !in old(m.Contents()) && mem.Contents() - {table} == old(m.Contents())
    {
      hide Memory.Valid, Memory.Contents, GoodKeys, Proper, Elements, NumUsed, NumDeleted;
      mem, k, size, numDeleted := m, keys, 0, 0;
      new;
      var h := mem.Fresh();
      mem.CreateFilled(h, capacity, Free);
      table := h;
      EmptyTable(k, capacity);
    }

    // phashtable_core(phashtable_core const & source): the array is shared
    constructor Copy(source: HashTable<D>)
      requires source.Valid()
      modifies source.mem
      ensures mem == source.mem && k == source.k && Valid() && source.Valid()
      ensures Stored() == old(source.Stored()) && source.Stored() == Stored()
      ensures table !in old(source.mem.Contents())
      ensures mem.Contents() == old(source.mem.Contents())[table := old(source.mem.Contents()[source.table])]
    {
      hide Memory.Valid, Memory.Contents, GoodKeys, Proper, Elements, NumUsed, NumDeleted;
      mem, k, size, numDeleted := source.mem, source.k, source.size, source.numDeleted;
      new;
      var h := mem.Fresh();
      mem.CopyFrom(h, source.table);
      table := h;
    }

    // The destructor gives the array up
    method Destroy()
      requires Valid()
      modifies mem
      ensures mem.Valid() && mem.Contents() == old(mem.Contents()) - {table}
    {
      mem.Destroy(table);
    }

    method Contains(e: D) returns (found: bool)
      requires Valid()
      modifies mem
      ensures Valid() && mem.Contents() == old(mem.Contents())
      ensures found <==> exists x :: x in Stored() && Same(k, x, e)
    {
      mem.OpenAccess(table);
      ghost var a := mem.Contents()[table];
      var s := Probe(mem, table, k, e, a);
      return s.Hit?;
    }

    method Find(e: D) returns (r: Option<D>)
      requires Valid()
      modifies mem
      ensures Valid() && mem.Contents() == old(mem.Contents())
      ensures r.Some? ==> r.value in Stored() && Same(k, r.value, e)
      ensures r.None? ==> forall x :: x in Stored() ==> !Same(k, x, e)
    {
      mem.OpenAccess(table);
      ghost var a := mem.Contents()[table];
      var s := Probe(mem, table, k, e, a);
      if !s.Hit? {
        return None;
      }
      var curr := mem.AccessAt(table, s.i);
      return Some(curr.data);
    }

    // Whatever was stored under the key of e is replaced by e; the end of the probing is
    // never reached
    method Insert(e: D)
      requires Valid()
      modifies this, mem
      ensures Valid() && Stored() == Put(k, old(Stored()), e)
      ensures SameOthers(old(mem.Contents()), old(table), mem.Contents(), table)
    {
      ExpandTableIfNeeded();
      ghost var c := mem.Contents();
      InsertProbing(e);
      OthersUpdated(old(mem.Contents()), old(table), c, table, mem.Contents()[table]);
    }

    method InsertProbing(e: D)
      requires Valid() && size + numDeleted < |mem.Contents()[table]|
      modifies this, mem
      ensures Valid() && Stored() == Put(k, old(Stored()), e)
      ensures table == old(table) && mem.Contents() == old(mem.Contents())[table := mem.Contents()[table]]
    {
      hide Memory.Valid, GoodKeys, Proper, Elements, NumUsed, NumDeleted, Passed, Memory.Contents, Put, Without;
      mem.OpenAccess(table);
      ghost var a := mem.Contents()[table];
      var s := Probe(mem, table, k, e, a);
      InsertAt(k, a, e, s);
      if s.Exhausted? {
        assert false;
      } else {
        WriteEntry(s.i, Used(k.hash(e), e), if s.Hole? then size + 1 else size, numDeleted);
      }
    }

    // A.set(i, x) and the counters
    method WriteEntry(i: nat, x: Entry<D>, newSize: nat, newDeleted: nat)
      requires mem.Valid() && mem.Accessing(table) && table in mem.Contents() && i < |mem.Contents()[table]|
      requires Holds(k, mem.Contents()[table][i := x], newSize, newDeleted)
      modifies this, mem
      ensures Valid() && size == newSize && numDeleted == newDeleted && table == old(table)
      ensures mem.Contents() == old(mem.Contents())[table := old(mem.Contents()[table])[i := x]]
    {
      mem.AccessSet(table, i, x);
      size, numDeleted := newSize, newDeleted;
    }

    // expand_table_if_needed: at least a quarter of the slots is free afterwards
    method ExpandTableIfNeeded()
      requires Valid()
      modifies this, mem
      ensures Valid() && Stored() == old(Stored())
      ensures size + numDeleted < |mem.Contents()[table]|
      ensures SameOthers(old(mem.Contents()), old(table), mem.Contents(), table)
      ensures var full := old((size + numDeleted) * 4 > |mem.Contents()[table]| * 3);
        if full then numDeleted == 0 && |mem.Contents()[table]| == 2 * old(|mem.Contents()[table]|)
        else table == old(table) && mem.Contents() == old(mem.Contents())
    {
      var cap := mem.Size(table);
      CountFull(mem.Contents()[table]);
      if (size + numDeleted) * 4 > cap * 3 {
        Rebuild(2 * cap);
      }
    }

    // expand_table and remove_deleted_entries: a new array without tombstones; swapping the
    // two array objects is exchanging their names
    method Rebuild(cap: nat)
      requires Valid() && cap >= |mem.Contents()[table]|
      modifies this, mem
      ensures Valid() && Stored() == old(Stored())
      ensures numDeleted == 0 && size == old(size) && |mem.Contents()[table]| == cap
      ensures table !in old(mem.Contents())
      ensures SameOthers(old(mem.Contents()), old(table), mem.Contents(), table)
    {
      hide CopyOf, Holds, SameOthers, Memory.Valid, Memory.Contents;
      ghost var c0, s := mem.Contents(), mem.Contents()[table];
      var h, t := CopyToNew(cap);
      CopyDone(k, s, t, size, numDeleted);
      mem.Destroy(table);
      OthersRenamed(c0, table, mem.Contents(), h, t);
      table, numDeleted := h, 0;
    }

    // table new_table(cap, entry()); copy_table(m_table, new_table)
    method CopyToNew(cap: nat) returns (h: Var, ghost t: Table<D>)
      requires Valid() && cap >= |mem.Contents()[table]|
      modifies mem
      ensures mem.Valid() && h !in old(mem.Contents())
      ensures mem.Contents() == old(mem.Contents())[h := t]
      ensures CopyOf(k, old(mem.Contents()[table]), old(|mem.Contents()[table]|), t) && |t| == cap
    {
      hide CopyOf, GoodKeys, Proper, Memory.Valid, Memory.Contents;
      ghost var s := mem.Contents()[table];
      h := mem.Fresh();
      mem.CreateFilled(h, cap, Free);
      CopyStart(k, s, cap);
      t := CopyTable(table, h, s, seq(cap, _ => Free));
    }

    // copy_table: every used entry goes to the first Free slot of its probe path
    method CopyTable(source: Var, target: Var, ghost s: Table<D>, ghost t0: Table<D>) returns (ghost t: Table<D>)
      requires mem.Valid() && source != target && CopyOf(k, s, 0, t0)
      requires source in mem.Contents() && mem.Contents()[source] == s
      requires target in mem.Contents() && mem.Contents()[target] == t0
      modifies mem
      ensures mem.Valid() && mem.Contents() == old(mem.Contents())[target := t]
      ensures CopyOf(k, s, |s|, t) && |t| == |t0|
    {
      ghost var c0 := mem.Contents();
      var sz := mem.Size(source);
      var i := 0;
      t := t0;
      UpdatedTwice(c0, c0, target, t0, t0);
      while i < sz
        invariant 0 <= i <= sz == |s| && CopyOf(k, s, i, t) && |t| == |t0|
        invariant mem.Valid() && mem.Contents() == c0[target := t]
      {
        ghost var c, t1 := mem.Contents(), t;
        t := CopyEntry(source, target, i, s, t);
        UpdatedTwice(c0, c, target, t1, t);
        i := i + 1;
      }
    }

    // The body of the loop of copy_table; some slot is Free, so no entry is lost
    method CopyEntry(source: Var, target: Var, i: nat, ghost s: Table<D>, ghost t: Table<D>)
        returns (ghost t': Table<D>)
      requires mem.Valid() && source != target && CopyOf(k, s, i, t) && i < |s|
      requires source in mem.Contents() && mem.Contents()[source] == s
      requires target in mem.Contents() && mem.Contents()[target] == t
      modifies mem
      ensures mem.Valid() && mem.Contents() == old(mem.Contents())[target := t']
      ensures CopyOf(k, s, i + 1, t') && |t'| == |t|
    {
      hide CopyOf, GoodKeys, Proper, Absent, Elements, NumUsed, NumDeleted, Memory.Valid, Memory.Contents;
      var entry := mem.Read(source, i);
      CopyUsed(k, s, i, t);
      t' := t;
      if entry.Used? {
        CopyReady(k, s, i, t);
        mem.OpenAccess(target);
        var j := FreeSlot(mem, target, k, entry, t);
        t' := t[j := entry];
        CopyMore(k, s, i, t, t');
        mem.AccessSet(target, j, entry);
      }
    }

    // erase_aux: the answer says whether to rebuild
    method EraseAux(e: D) returns (rebuild: bool)
      requires Valid()
      modifies this, mem
      ensures Valid() && Stored() == Without(k, old(Stored()), e)
      ensures table == old(table) && mem.Contents() == old(mem.Contents())[table := mem.Contents()[table]]
      ensures Erased(k, old(mem.Contents()[table]), mem.Contents()[table], e)
      ensures rebuild <==> numDeleted > old(numDeleted) && numDeleted > size && numDeleted > SMALL_CAPACITY
      ensures numDeleted != old(numDeleted) ==> numDeleted == old(numDeleted) + 1 && size == old(size) - 1
    {
      hide Memory.Valid, GoodKeys, Proper, Elements, NumUsed, NumDeleted, Passed, Memory.Contents, Without;
      mem.OpenAccess(table);
      ghost var a := mem.Contents()[table];
      var s := Probe(mem, table, k, e, a);
      if !s.Hit? {
        return false;
      }
      var cap := mem.AccessSize(table);
      var nextIdx := s.i + 1;
      if nextIdx == cap {
        nextIdx := 0;
      }
      var next := mem.AccessAt(table, nextIdx);
      EraseAt(k, a, e, s.i, if next.Free? then Free else Deleted);
      if next.Free? {
        WriteEntry(s.i, Free, size - 1, numDeleted);
        assert ErasedAt(k, a, mem.Contents()[table], e, s.i);
        return false;
      } else {
        WriteEntry(s.i, Deleted, size - 1, numDeleted + 1);
        assert ErasedAt(k, a, mem.Contents()[table], e, s.i);
        return numDeleted > size && numDeleted > SMALL_CAPACITY;
      }
    }

    // erase: the array is replaced exactly when the new tombstone makes tombstones prevail
    method Erase(e: D)
      requires Valid()
      modifies this, mem
      ensures Valid() && Stored() == Without(k, old(Stored()), e)
      ensures SameOthers(old(mem.Contents()), old(table), mem.Contents(), table)
      ensures |mem.Contents()[table]| == old(|mem.Contents()[table]|)
      ensures table == old(table) ==> Erased(k, old(mem.Contents()[table]), mem.Contents()[table], e)
      ensures table == old(table) ==>
        numDeleted <= old(numDeleted) || numDeleted <= size || numDeleted <= SMALL_CAPACITY
      ensures table != old(table) ==> numDeleted == 0 && size == old(size) - 1
      ensures table != old(table) ==> old(numDeleted) + 1 > size && old(numDeleted) + 1 > SMALL_CAPACITY
    {
      hide Without, Erased, SameOthers, Memory.Valid, Memory.Contents;
      ghost var c0 := mem.Contents();
      var rebuild := EraseAux(e);
      ghost var t := mem.Contents()[table];
      ErasedLength(k, c0[table], t, e);
      OthersSame(c0, table, t);
      if rebuild {
        var cap := mem.Size(table);
        Rebuild(cap);
        OthersAgain(c0, old(table), t, mem.Contents(), table);
      }
    }

    // check_invariant: its two assertions always hold
    method CheckInvariant() returns (ok: bool)
      requires Valid()
      modifies mem
      ensures Valid() && mem.Contents() == old(mem.Contents()) && ok
    {
      mem.OpenAccess(table);
      var used, deleted := CountSlots(mem, table, mem.Contents()[table]);
      return deleted == numDeleted && used == size;
    }

    // m_size: how many keys are stored
    lemma {:induction false} SizeCounts()
      requires Valid()
      ensures size == |Stored()|
    {
      CountElements(k, mem.Contents()[table]);
    }
  }
}

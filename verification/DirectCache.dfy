/** The lossy direct-mapped caches of the kernel: one entry per slot, overwritten on a
  * collision, cleared through the list of used slots (src/kernel/replace_fn.cpp,
  * src/kernel/for_each_fn.cpp, src/kernel/expr_eq_fn.cpp).
  */
module DirectCache {
  import opened Wrappers

  class DirectCache<K(==), V(==)> {
    const capacity: nat
    var slots: seq<Option<(K, V)>>
    var used: seq<nat>

    ghost predicate Valid()
      reads this
    {
      && capacity > 0 && |slots| == capacity
      && (forall i :: i in used ==> i < capacity)
      && (forall i :: 0 <= i < capacity && slots[i].Some? ==> i in used)
    }

    // What the cache holds
    ghost function Entries(): set<(K, V)>
      reads this
    {
      set i | 0 <= i < |slots| && slots[i].Some? :: slots[i].value
    }

    // What its slot holds for a key with this hash code
    ghost predicate Holds(k: K, v: V, hash: nat)
      requires Valid()
      reads this
    {
      slots[hash % capacity] == Some((k, v))
    }

    constructor (c: nat)
      requires c > 0
      ensures Valid() && Entries() == {}
    {
      capacity := c;
      slots := seq(c, _ => None);
      used := [];
    }

    method Find(k: K, hash: nat) returns (r: Option<V>)
      requires Valid()
      ensures r.Some? ==> (k, r.value) in Entries()
      ensures forall v :: Holds(k, v, hash) <==> r == Some(v)
    {
      var i := hash % capacity;
      if slots[i].Some? && slots[i].value.0 == k {
        assert slots[i].value in Entries();
        return Some(slots[i].value.1);
      }
      return None;
    }

    method Insert(k: K, v: V, hash: nat)
      requires Valid()
      modifies this
      ensures Valid() && (k, v) in Entries() && Entries() <= old(Entries()) + {(k, v)} && Holds(k, v, hash)
      ensures slots == old(slots)[hash % capacity := Some((k, v))]
    {
      var i := hash % capacity;
      if slots[i].None? {
        used := used + [i];
      }
      slots := slots[i := Some((k, v))];
      assert slots[i].value in Entries();
      forall p | p in Entries() ensures p in old(Entries()) || p == (k, v) {
        var j :| 0 <= j < |slots| && slots[j].Some? && slots[j].value == p;
        if j != i {
          assert old(slots)[j] == slots[j];
        }
      }
    }

    // Only the used slots are reset; no entry is left
    method Clear()
      requires Valid()
      modifies this
      ensures Valid() && Entries() == {}
    {
      var n := 0;
      while n < |used|
        invariant 0 <= n <= |used| && used == old(used) && |slots| == capacity && forall i :: i in used ==> i < capacity
        invariant forall i :: 0 <= i < capacity && slots[i].Some? ==> i in used[n..]
      {
        assert used[n] in used;
        slots := slots[used[n] := None];
        n := n + 1;
      }
      used := [];
    }
  }
}

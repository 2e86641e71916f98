/** MK_CACHE_STACK (src/kernel/cache_stack.h): caches are taken from a stack, and given back
  * cleared, so that nested traversals each get a cache of their own.
  */
module CacheStack {
  import opened DirectCache

  class CacheStack<K(==), V(==)> {
    const arg: nat
    var top: nat
    var caches: seq<DirectCache<K, V>>

    ghost predicate Valid()
      reads this, caches
    {
      && arg > 0 && top <= |caches|
      && (forall i :: 0 <= i < |caches| ==> caches[i].Valid())
      && (forall i, j :: 0 <= i < j < |caches| ==> caches[i] != caches[j])
      && (forall i :: top <= i < |caches| ==> caches[i].Entries() == {})
    }

    constructor (a: nat)
      requires a > 0
      ensures Valid() && top == 0 && fresh(caches)
    {
      arg, top, caches := a, 0, [];
    }

    // Cache_ref(): the cache is empty, and not among those in use
    method Acquire() returns (c: DirectCache<K, V>)
      requires Valid()
      modifies this
      ensures Valid() && top == old(top) + 1 && c == caches[old(top)] && c.Entries() == {}
      ensures old(caches) <= caches && (forall i :: 0 <= i < old(top) ==> caches[i] != c)
      ensures forall i :: 0 <= i < |caches| ==> caches[i] in old(caches) || fresh(caches[i])
    {
      if top == |caches| {
        var n := new DirectCache(arg);
        caches := caches + [n];
      }
      c := caches[top];
      top := top + 1;
    }

    // ~Cache_ref(): caches are given back in the reverse order
    method Release()
      requires Valid() && top > 0
      modifies this, caches[top - 1]
      ensures Valid() && top == old(top) - 1 && caches == old(caches)
    {
      top := top - 1;
      caches[top].Clear();
    }
  }

  // A traversal, as seen by its cache: it inserts, and its callback may start others
  datatype Use<K, V> = Use(steps: seq<Step<K, V>>)

  datatype Step<K, V> = Put(k: K, v: V, hash: nat) | Nested(use: Use<K, V>)

  // However traversals are nested, each starts with an empty cache, keeps it to itself, and
  // leaves the caches of the others as they were
  method Traverse<K(==), V(==)>(st: CacheStack<K, V>, use: Use<K, V>)
    requires st.Valid()
    modifies st, st.caches
    ensures st.Valid() && st.top == old(st.top) && old(st.caches) <= st.caches
    ensures forall i :: 0 <= i < old(st.top) ==> st.caches[i].Entries() == old(st.caches[i].Entries())
    ensures forall i :: 0 <= i < |st.caches| ==> st.caches[i] in old(st.caches) || fresh(st.caches[i])
    decreases use
  {
    var c := st.Acquire();
    var n := 0;
    while n < |use.steps|
      invariant 0 <= n <= |use.steps| && st.Valid() && st.top == old(st.top) + 1 && old(st.caches) <= st.caches
      invariant st.caches[old(st.top)] == c && c.Entries() <= Inserted(use.steps[..n])
      invariant forall i :: 0 <= i < old(st.top) ==> st.caches[i].Entries() == old(st.caches[i].Entries())
      invariant forall i :: 0 <= i < |st.caches| ==> st.caches[i] in old(st.caches) || fresh(st.caches[i])
    {
      InsertedNext(use.steps, n);
      Perform(st, c, use.steps[n]);
      n := n + 1;
    }
    assert st.caches[st.top - 1] in st.caches;
    st.Release();
  }

  // One step of the traversal that has the cache c
  method Perform<K(==), V(==)>(st: CacheStack<K, V>, c: DirectCache<K, V>, step: Step<K, V>)
    requires st.Valid() && st.top > 0 && st.caches[st.top - 1] == c
    modifies st, st.caches
    ensures st.Valid() && st.top == old(st.top) && old(st.caches) <= st.caches
    ensures c.Entries() <= old(c.Entries()) + if step.Put? then {(step.k, step.v)} else {}
    ensures forall i :: 0 <= i < st.top - 1 ==> st.caches[i].Entries() == old(st.caches[i].Entries())
    ensures forall i :: 0 <= i < |st.caches| ==> st.caches[i] in old(st.caches) || fresh(st.caches[i])
    decreases step
  {
    assert c in st.caches;
    match step {
      case Put(k, v, h) =>
        c.Insert(k, v, h);
      case Nested(inner) =>
        Traverse(st, inner);
    }
  }

  // What the steps themselves insert
  ghost function Inserted<K, V>(steps: seq<Step<K, V>>): set<(K, V)> {
    set j | 0 <= j < |steps| && steps[j].Put? :: (steps[j].k, steps[j].v)
  }

  lemma InsertedNext<K, V>(steps: seq<Step<K, V>>, n: nat)
    requires n < |steps|
    ensures Inserted(steps[..n + 1]) == Inserted(steps[..n]) + if steps[n].Put? then {(steps[n].k, steps[n].v)} else {}
  {
    var s, t := steps[..n], steps[..n + 1];
    assert t == s + [steps[n]];
    forall p | p in Inserted(t) ensures p in Inserted(s) || (steps[n].Put? && p == (steps[n].k, steps[n].v)) {
      var j :| 0 <= j < |t| && t[j].Put? && (t[j].k, t[j].v) == p;
      assert j < n ==> s[j] == t[j];
    }
    forall p | p in Inserted(s) ensures p in Inserted(t) {
      var j :| 0 <= j < |s| && s[j].Put? && (s[j].k, s[j].v) == p;
      assert t[j] == s[j];
    }
    if steps[n].Put? {
      assert t[n] == steps[n];
    }
  }
}

/** replace and for_each as they are called: each takes a cache from its stack and gives it
  * back (src/kernel/replace_fn.cpp, src/kernel/for_each_fn.cpp, src/kernel/cache_stack.h); and
  * two callers of for_each.
  */
module Traversals {
  import opened Wrappers
  import opened Exprs
  import Instantiate
  import opened Dag
  import opened CacheStack
  import opened Preorder
  import CachedReplace
  import CachedForEach
  import Finding

  // replace(e, f): what the recursion without a cache computes
  method Replace(st: CacheStack<(Ref, nat), Expr>, s: Store, f: Instantiate.Callback, useCache: bool,
                 hash: (Ref, nat) -> nat, e: Ref) returns (r: Expr)
    requires st.Valid() && StoreOk(s) && e < |s|
    modifies st, st.caches
    ensures st.Valid() && st.top == old(st.top) && r == Instantiate.Replace(f, Term(s, e), 0)
    ensures forall i :: 0 <= i < st.top ==>
      st.caches[i] == old(st.caches)[i] && st.caches[i].Entries() == old(st.caches[i].Entries())
  {
    var c := st.Acquire();
    var fn := new CachedReplace.ReplaceFn(c, f, useCache, s, hash);
    assert c in st.caches;
    r := fn.Apply(e, 0);
    st.Release();
  }

  // for_each(e, f): the callback sees first what the recursion without a cache shows it, in the
  // same order
  method ForEach(st: CacheStack<Visit, ()>, s: Store, f: Callback, hash: (Ref, nat) -> nat, e: Ref)
      returns (calls: seq<Visit>, hit: Option<Visit>)
    requires st.Valid() && StoreOk(s) && e < |s|
    modifies st, st.caches
    ensures st.Valid() && st.top == old(st.top) && CachedForEach.Traversed(s, f, Visits(s, f, e, 0), calls, hit)
    ensures hit.None? ==> forall v :: v in calls <==> v in Visits(s, f, e, 0)
    ensures forall i :: 0 <= i < st.top ==>
      st.caches[i] == old(st.caches)[i] && st.caches[i].Entries() == old(st.caches[i].Entries())
  {
    var c := st.Acquire();
    assert c in st.caches;
    calls, hit := CachedForEach.Apply(c, s, f, hash, e);
    st.Release();
  }

  // find: the first subterm with the property, from left to right, or none
  method Find(st: CacheStack<Visit, ()>, s: Store, p: Finding.Property, hash: (Ref, nat) -> nat, e: Ref)
      returns (r: Option<Ref>)
    requires st.Valid() && StoreOk(s) && e < |s|
    modifies st, st.caches
    ensures st.Valid() && st.top == old(st.top)
    ensures match r
      case None => forall path :: !Finding.HoldsAt(p, Term(s, e), 0, path)
      case Some(x) => x < |s| && exists path :: Finding.IsFirst(p, Term(s, e), path, Term(s, x))
    ensures forall i :: 0 <= i < st.top ==>
      st.caches[i] == old(st.caches)[i] && st.caches[i].Entries() == old(st.caches[i].Entries())
  {
    hide Visits, Finding.FindStep, Finding.HoldsAt, Finding.IsFirst;
    var _, hit := ForEach(st, s, Finding.FindStep(p), hash, e);
    Finding.FindResult(s, p, e);
    CachedForEach.FoundFirsts(s, Finding.FindStep(p), Visits(s, Finding.FindStep(p), e, 0));
    r := if hit.Some? then Some(hit.value.0) else None;
  }

  // has_loose_bvar
  method HasLooseBVar(st: CacheStack<Visit, ()>, s: Store, hash: (Ref, nat) -> nat, e: Ref, i: nat)
      returns (found: bool)
    requires st.Valid() && StoreOk(s) && e < |s|
    modifies st, st.caches
    ensures st.Valid() && st.top == old(st.top) && (found <==> HasLoose(Term(s, e), i))
    ensures forall i :: 0 <= i < st.top ==>
      st.caches[i] == old(st.caches)[i] && st.caches[i].Entries() == old(st.caches[i].Entries())
  {
    hide Visits, HasLoose, Finding.LooseStep;
    var _, hit := ForEach(st, s, Finding.LooseStep(i), hash, e);
    Finding.LooseFound(s, i, e, 0);
    CachedForEach.FoundFirsts(s, Finding.LooseStep(i), Visits(s, Finding.LooseStep(i), e, 0));
    found := hit.Some?;
  }
}

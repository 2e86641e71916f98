/** max_sharing_fn (src/library/max_sharing.cpp): one node for every subterm. */
module MaxSharing {
  import opened Exprs
  import opened Dag

  // A set of nodes, keyed by the terms they hold (is_bi_equal)
  type ExprCache = map<Expr, Ref>

  // The node of each term in the cache holds that term, and its children are nodes of the
  // cache themselves
  ghost predicate CacheOk(s: Store, cache: ExprCache) {
    StoreOk(s) && forall e {:trigger EntryOk(s, cache, e)} :: e in cache ==> EntryOk(s, cache, e)
  }

  ghost predicate EntryOk(s: Store, cache: ExprCache, e: Expr)
    requires StoreOk(s) && e in cache
  {
    && cache[e] < |s| && Term(s, cache[e]) == e && CellOk(s[cache[e]], cache[e])
    && forall k :: k in Kids(s[cache[e]]) ==> Chosen(s, cache, k)
  }

  // Node i represents its term
  ghost predicate Chosen(s: Store, cache: ExprCache, i: Ref)
    requires StoreOk(s)
  {
    i < |s| && Term(s, i) in cache && cache[Term(s, i)] == i
  }

  ghost predicate KidsChosen(s: Store, cache: ExprCache, c: Cell)
    requires StoreOk(s)
  {
    forall k :: k in Kids(c) ==> Chosen(s, cache, k)
  }

  // Reachable from i
  ghost predicate Below(s: Store, i: Ref, j: Ref)
    requires StoreOk(s) && i < |s|
    decreases i
  {
    assert CellOk(s[i], i);
    i == j || exists k :: k in Kids(s[i]) && k < i && Below(s, k, j)
  }

  // All nodes below a representative are representatives
  lemma {:induction false} BelowChosen(s: Store, cache: ExprCache, i: Ref, j: Ref)
    requires CacheOk(s, cache) && Chosen(s, cache, i) && Below(s, i, j)
    ensures Chosen(s, cache, j)
    decreases i
  {
    assert EntryOk(s, cache, Term(s, i));
    if i != j {
      var k :| k in Kids(s[i]) && k < i && Below(s, k, j);
      BelowChosen(s, cache, k, j);
    }
  }

  // Equal subterms of r1 and r2 are the same node
  ghost predicate Shared(s: Store, r1: Ref, r2: Ref)
    requires StoreOk(s)
  {
    && r1 < |s| && r2 < |s|
    && forall i: Ref, j: Ref :: Below(s, r1, i) && Below(s, r2, j) ==>
      i < |s| && j < |s| && (Term(s, i) == Term(s, j) <==> i == j)
  }

  // So it is of any results
  lemma MaximallyShared(s: Store, cache: ExprCache, r1: Ref, r2: Ref)
    requires CacheOk(s, cache) && Chosen(s, cache, r1) && Chosen(s, cache, r2)
    ensures Shared(s, r1, r2)
  {
    forall i: Ref, j: Ref | Below(s, r1, i) && Below(s, r2, j)
      ensures i < |s| && j < |s| && (Term(s, i) == Term(s, j) <==> i == j)
    {
      BelowChosen(s, cache, r1, i);
      BelowChosen(s, cache, r2, j);
    }
  }

  // Later calls keep the earlier results
  lemma ChosenKept(s: Store, cache: ExprCache, s': Store, cache': ExprCache, i: Ref)
    requires CacheOk(s, cache) && Chosen(s, cache, i) && Grown(s, cache, s', cache')
    ensures Chosen(s', cache', i)
  {
    TermAppend(s, s', i);
  }

  ghost predicate Grown(s: Store, cache: ExprCache, s': Store, cache': ExprCache) {
    StoreOk(s) && StoreOk(s') && s <= s' && forall e :: e in cache ==> e in cache' && cache'[e] == cache[e]
  }

  lemma GrownTwice(s: Store, c: ExprCache, s1: Store, c1: ExprCache, s2: Store, c2: ExprCache)
    requires Grown(s, c, s1, c1) && Grown(s1, c1, s2, c2)
    ensures Grown(s, c, s2, c2)
  {
  }

  // A new node with chosen children
  lemma NodeAdded(s: Store, cache: ExprCache, c: Cell)
    requires CacheOk(s, cache) && CellOk(c, |s|)
    ensures CacheOk(s + [c], cache) && Grown(s, cache, s + [c], cache)
    ensures forall i :: 0 <= i < |s| ==> Term(s + [c], i) == Term(s, i)
  {
    var s' := s + [c];
    forall i: nat | i < |s'| ensures CellOk(s'[i], i) {
      assert i < |s| ==> CellOk(s[i], i);
    }
    forall i | 0 <= i < |s| ensures Term(s', i) == Term(s, i) {
      TermAppend(s, s', i);
    }
    forall e | e in cache ensures EntryOk(s', cache, e) {
      assert EntryOk(s, cache, e);
    }
  }

  lemma NodeChosen(s: Store, cache: ExprCache, r: Ref)
    requires CacheOk(s, cache) && r < |s| && Term(s, r) !in cache && CellOk(s[r], r)
    requires forall k :: k in Kids(s[r]) ==> Chosen(s, cache, k)
    ensures var cache' := cache[Term(s, r) := r];
      CacheOk(s, cache') && Chosen(s, cache', r) && Grown(s, cache, s, cache')
  {
    var cache' := cache[Term(s, r) := r];
    forall e | e in cache' ensures EntryOk(s, cache', e) {
      if e != Term(s, r) {
        assert EntryOk(s, cache, e);
      }
    }
  }

  // The same cell with the representatives of its children
  ghost predicate SameLabel(c: Cell, d: Cell) {
    match (c, d)
    case (Leaf(x), Leaf(y)) => x == y
    case (MVarCell(n, _), MVarCell(n', _)) => n == n'
    case (AppCell(_, _), AppCell(_, _)) => true
    case (BindingCell(k, n, _, _, i), BindingCell(k', n', _, _, i')) => k == k' && n == n' && i == i'
    case (LetCell(n, _, _, _), LetCell(n', _, _, _)) => n == n'
    case (MDataCell(m, _), MDataCell(m', _)) => m == m'
    case (ProjCell(n, i, _), ProjCell(n', i', _)) => n == n' && i == i'
    case _ => false
  }

  // The children of d hold the terms of the children of c, in their order
  ghost predicate SameKids(s: Store, c: Cell, d: Cell)
    requires StoreOk(s)
  {
    SameLabel(c, d) &&
    match c
    case Leaf(_) => true
    case MVarCell(_, t) => SameTerm(s, t, d.mtype)
    case AppCell(f, a) => SameTerm(s, f, d.fn) && SameTerm(s, a, d.arg)
    case BindingCell(_, _, t, b, _) => SameTerm(s, t, d.dom) && SameTerm(s, b, d.body)
    case LetCell(_, t, v, b) => SameTerm(s, t, d.ltype) && SameTerm(s, v, d.val) && SameTerm(s, b, d.body)
    case MDataCell(_, x) => SameTerm(s, x, d.x)
    case ProjCell(_, _, x) => SameTerm(s, x, d.x)
  }

  ghost predicate SameTerm(s: Store, i: Ref, j: Ref)
    requires StoreOk(s)
  {
    i < |s| && j < |s| && Term(s, i) == Term(s, j)
  }

  class MaxSharingFn {
    var s: Store            // the memory: nodes are only added
    var cache: ExprCache    // m_expr_cache

    ghost predicate Valid()
      reads this
    {
      CacheOk(s, cache)
    }

    constructor (store: Store)
      requires StoreOk(store)
      ensures s == store && cache == map[] && Valid()
    {
      s, cache := store, map[];
    }

    method Clear()
      requires Valid()
      modifies this
      ensures Valid() && cache == map[] && s == old(s)
    {
      cache := map[];
    }

    // already_processed
    method AlreadyProcessed(a: Ref) returns (r: bool)
      requires Valid() && a < |s|
      ensures r <==> Chosen(s, cache, a)
    {
      var e := Term(s, a);
      return e in cache && cache[e] == a;
    }

    // The same term, from nodes of the cache only; the node itself when it represents its term, or
    // when its children do and its term is new
    method Apply(a: Ref) returns (r: Ref)
      requires Valid() && a < |s|
      modifies this
      ensures Valid() && Grown(old(s), old(cache), s, cache)
      ensures Chosen(s, cache, r) && Term(s, r) == old(Term(s, a))
      ensures forall e :: e in cache && e !in old(cache) ==> e == old(Term(s, a)) || e < old(Term(s, a))
      ensures old(Chosen(s, cache, a)) ==> r == a && s == old(s) && cache == old(cache)
      ensures old(Term(s, a) !in cache && !s[a].Leaf? && KidsChosen(s, cache, s[a])) ==> r == a && s == old(s)
      decreases a, 4
    {
      var e := Term(s, a);
      if e in cache {
        assert EntryOk(s, cache, e);
        return cache[e];
      }
      var d := Rebuild(a);
      assert e !in cache;
      TermAppend(old(s), s, a);
      ghost var s1, c1 := s, cache;
      r := Update(a, d);
      GrownTwice(old(s), old(cache), s1, c1, s, cache);
      NodeChosen(s, cache, r);
      cache := cache[e := r];
    }

    // update_app and the like: the old node if its children are representatives already,
    // otherwise a new one; levels are atoms, so a constant or sort may be copied or not
    method Update(a: Ref, d: Cell) returns (r: Ref)
      requires Valid() && a < |s| && SameKids(s, s[a], d) && forall k :: k in Kids(d) ==> Chosen(s, cache, k)
      modifies `s
      ensures Valid() && Grown(old(s), cache, s, cache)
      ensures r < |s| && Term(s, r) == old(Term(s, a)) && CellOk(s[r], r)
      ensures forall k :: k in Kids(s[r]) ==> Chosen(s, cache, k)
      ensures if r == a then s == old(s) && s[a] == d else s == old(s) + [d] && r == |old(s)|
      ensures old(s[a]) == d && (!d.Leaf? || d.e.BVar? || d.e.Lit?) ==> r == a
    {
      hide EntryOk, Chosen, Term, SameKids;
      KidsBefore(a, d);
      var copied: bool := *;
      if s[a] == d && (!d.Leaf? || d.e.BVar? || d.e.Lit? || !copied) {
        return a;
      }
      NodeAdded(s, cache, d);
      r := |s|;
      s := s + [d];
      UpdatedNode(old(s), a, d);
    }

    lemma KidsBefore(a: Ref, d: Cell)
      requires Valid() && a < |s| && SameKids(s, s[a], d) && forall k :: k in Kids(d) ==> Chosen(s, cache, k)
      ensures CellOk(s[a], a) && CellOk(d, |s|)
    {
    }

    // The new node holds the term of a
    lemma UpdatedNode(s0: Store, a: Ref, d: Cell)
      requires CacheOk(s0, cache) && a < |s0| && SameKids(s0, s0[a], d) && s == s0 + [d]
      requires Grown(s0, cache, s, cache) && CacheOk(s, cache) && CellOk(d, |s0|)
      requires forall i :: 0 <= i < |s0| ==> Term(s, i) == Term(s0, i)
      requires forall k :: k in Kids(d) ==> Chosen(s0, cache, k)
      ensures Term(s, |s0|) == Term(s0, a) && forall k :: k in Kids(d) ==> Chosen(s, cache, k)
    {
      hide EntryOk;
      TermSame(s, a, |s0|);
    }

    // The children, replaced by their representatives
    method Rebuild(a: Ref) returns (d: Cell)
      requires Valid() && a < |s|
      modifies this
      ensures Valid() && Grown(old(s), old(cache), s, cache)
      ensures SameKids(s, s[a], d) && forall k :: k in Kids(d) ==> Chosen(s, cache, k)
      ensures forall e :: e in cache && e !in old(cache) ==> e < old(Term(s, a))
      ensures old(KidsChosen(s, cache, s[a])) ==> d == s[a] && s == old(s) && cache == old(cache)
      decreases a, 3
    {
      hide Chosen, EntryOk, SameTerm;
      assert CellOk(s[a], a);
      match s[a] {
        case Leaf(_) =>
          d := s[a];
        case MVarCell(n, t) =>
          var t' := Child(t, a);
          d := MVarCell(n, t');
        case AppCell(f, x) =>
          var f', x' := Two(f, x, a);
          d := AppCell(f', x');
        case BindingCell(k, n, t, b, i) =>
          var t', b' := Two(t, b, a);
          d := BindingCell(k, n, t', b', i);
        case LetCell(n, t, v, b) =>
          var t', v', b' := Three(t, v, b, a);
          d := LetCell(n, t', v', b');
        case MDataCell(m, x) =>
          var x' := Child(x, a);
          d := MDataCell(m, x');
        case ProjCell(n, i, x) =>
          var x' := Child(x, a);
          d := ProjCell(n, i, x');
      }
    }

    // One child of a
    method Child(x: Ref, ghost a: Ref) returns (x': Ref)
      requires Valid() && x < a < |s| && Term(s, x) < Term(s, a)
      modifies this
      ensures Valid() && Grown(old(s), old(cache), s, cache)
      ensures Chosen(s, cache, x') && SameTerm(s, x, x')
      ensures forall e :: e in cache && e !in old(cache) ==> e < old(Term(s, a))
      ensures old(Chosen(s, cache, x)) ==> x' == x && s == old(s) && cache == old(cache)
      decreases a, 0
    {
      x' := Apply(x);
      TermAppend(old(s), s, x);
    }

    method Two(x: Ref, y: Ref, ghost a: Ref) returns (x': Ref, y': Ref)
      requires Valid() && x < a < |s| && y < a && Term(s, x) < Term(s, a) && Term(s, y) < Term(s, a)
      modifies this
      ensures Valid() && Grown(old(s), old(cache), s, cache)
      ensures Chosen(s, cache, x') && SameTerm(s, x, x') && Chosen(s, cache, y') && SameTerm(s, y, y')
      ensures forall e :: e in cache && e !in old(cache) ==> e < old(Term(s, a))
      ensures old(Chosen(s, cache, x) && Chosen(s, cache, y)) ==>
        x' == x && y' == y && s == old(s) && cache == old(cache)
      decreases a, 1
    {
      x' := Child(x, a);
      ghost var s1, c1 := s, cache;
      TermAppend(old(s), s, y);
      TermAppend(old(s), s, a);
      y' := Child(y, a);
      ChosenKept(s1, c1, s, cache, x');
      TermAppend(s1, s, x);
      TermAppend(s1, s, x');
    }

    method Three(x: Ref, y: Ref, z: Ref, ghost a: Ref) returns (x': Ref, y': Ref, z': Ref)
      requires Valid() && x < a < |s| && y < a && z < a
      requires Term(s, x) < Term(s, a) && Term(s, y) < Term(s, a) && Term(s, z) < Term(s, a)
      modifies this
      ensures Valid() && Grown(old(s), old(cache), s, cache)
      ensures Chosen(s, cache, x') && SameTerm(s, x, x') && Chosen(s, cache, y') && SameTerm(s, y, y')
      ensures Chosen(s, cache, z') && SameTerm(s, z, z')
      ensures forall e :: e in cache && e !in old(cache) ==> e < old(Term(s, a))
      ensures old(Chosen(s, cache, x) && Chosen(s, cache, y) && Chosen(s, cache, z)) ==>
        x' == x && y' == y && z' == z && s == old(s) && cache == old(cache)
      decreases a, 2
    {
      x', y' := Two(x, y, a);
      ghost var s1, c1 := s, cache;
      TermAppend(old(s), s, z);
      TermAppend(old(s), s, a);
      z' := Child(z, a);
      ChosenKept(s1, c1, s, cache, x');
      ChosenKept(s1, c1, s, cache, y');
      TermAppend(s1, s, x);
      TermAppend(s1, s, x');
      TermAppend(s1, s, y);
      TermAppend(s1, s, y');
    }
  }

  lemma TermSame(s: Store, i: Ref, j: Ref)
    requires StoreOk(s) && i < |s| && j < |s| && SameKids(s, s[i], s[j])
    ensures Term(s, i) == Term(s, j)
  {
    assert CellOk(s[i], i) && CellOk(s[j], j);
  }

  // Any number of calls on one object: each result holds its term, and equal subterms of
  // all the results are the same node
  method ShareAll(m: MaxSharingFn, roots: seq<Ref>) returns (rs: seq<Ref>)
    requires m.Valid() && forall i :: 0 <= i < |roots| ==> roots[i] < |m.s|
    modifies m
    ensures m.Valid() && old(m.s) <= m.s && |rs| == |roots|
    ensures forall i :: 0 <= i < |rs| ==> Chosen(m.s, m.cache, rs[i]) && Term(m.s, rs[i]) == old(Term(m.s, roots[i]))
    ensures forall i, j :: 0 <= i < |rs| && 0 <= j < |rs| ==> Shared(m.s, rs[i], rs[j])
  {
    rs := [];
    for n := 0 to |roots|
      invariant m.Valid() && old(m.s) <= m.s && |rs| == n
      invariant forall i :: 0 <= i < n ==> Chosen(m.s, m.cache, rs[i]) && Term(m.s, rs[i]) == old(Term(m.s, roots[i]))
    {
      ghost var s, c := m.s, m.cache;
      TermAppend(old(m.s), s, roots[n]);
      var r := m.Apply(roots[n]);
      forall i | 0 <= i < n ensures Chosen(m.s, m.cache, rs[i]) && Term(m.s, rs[i]) == Term(s, rs[i]) {
        ChosenKept(s, c, m.s, m.cache, rs[i]);
        TermAppend(s, m.s, rs[i]);
      }
      rs := rs + [r];
    }
    forall i, j | 0 <= i < |rs| && 0 <= j < |rs| ensures Shared(m.s, rs[i], rs[j]) {
      MaximallyShared(m.s, m.cache, rs[i], rs[j]);
    }
  }
}

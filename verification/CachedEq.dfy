/** expr_eq_fn: structural comparison with a lossy cache, into which a pair is entered before
  * it has been compared (src/kernel/expr_eq_fn.cpp).
  */
module CachedEq {
  import opened Exprs
  import opened Renaming
  import opened Dag
  import opened DirectCache

  type Pair = (Ref, Ref)

  type EqCache = DirectCache<Pair, ()>

  // is_bi_equal compares binder names and infos too
  predicate Same(bi: bool, x: Expr, y: Expr) {
    if bi then x == y else Erase(x) == Erase(y)
  }

  // expr_kind
  function Kind(e: Expr): nat {
    match e
    case BVar(_) => 0
    case FVar(_) => 1
    case MVar(_, _) => 2
    case Sort(_) => 3
    case Const(_, _) => 4
    case App(_, _) => 5
    case Binding(k, _, _, _, _) => if k == Lambda then 6 else 7
    case Let(_, _, _, _) => 8
    case Lit(_) => 9
    case MData(_, _) => 10
    case Proj(_, _, _) => 11
  }

  function CellKind(c: Cell): nat {
    match c
    case Leaf(e) => Kind(e)
    case MVarCell(_, _) => 2
    case AppCell(_, _) => 5
    case BindingCell(k, _, _, _, _) => if k == Lambda then 6 else 7
    case LetCell(_, _, _, _) => 8
    case MDataCell(_, _) => 10
    case ProjCell(_, _, _) => 11
  }

  predicate SameKind(c: Cell, d: Cell) {
    CellKind(c) == CellKind(d)
  }

  // Equal, if the pairs in seen are: the same node, a pair in seen, or equal parts
  ghost predicate Eq(s: Store, bi: bool, seen: set<Pair>, a: Ref, b: Ref)
    requires StoreOk(s)
    decreases a, 1
  {
    a < |s| && b < |s| && (a == b || (a, b) in seen || Parts(s, bi, seen, a, b))
  }

  ghost predicate Parts(s: Store, bi: bool, seen: set<Pair>, a: Ref, b: Ref)
    requires StoreOk(s)
    decreases a, 0
  {
    a < |s| && b < |s| && CellOk(s[a], a) &&
    match (s[a], s[b])
    case (Leaf(x), Leaf(y)) => x == y
    case (MVarCell(n, t), MVarCell(n', t')) => n == n' && Eq(s, bi, seen, t, t')
    case (AppCell(f, x), AppCell(f', x')) => Eq(s, bi, seen, f, f') && Eq(s, bi, seen, x, x')
    case (BindingCell(k, n, d, x, i), BindingCell(k', n', d', x', i')) =>
      k == k' && Eq(s, bi, seen, d, d') && Eq(s, bi, seen, x, x') && (bi ==> n == n' && i == i')
    case (LetCell(n, t, v, x), LetCell(n', t', v', x')) =>
      Eq(s, bi, seen, t, t') && Eq(s, bi, seen, v, v') && Eq(s, bi, seen, x, x') && (bi ==> n == n')
    case (MDataCell(m, x), MDataCell(m', x')) => Eq(s, bi, seen, x, x') && m == m'
    case (ProjCell(n, i, x), ProjCell(n', i', x')) => Eq(s, bi, seen, x, x') && n == n' && i == i'
    case _ => false
  }

  lemma {:induction false} EqMore(s: Store, bi: bool, seen: set<Pair>, more: set<Pair>, a: Ref, b: Ref)
    requires StoreOk(s) && Eq(s, bi, seen, a, b) && seen <= more
    ensures Eq(s, bi, more, a, b)
    decreases a, 1
  {
    if a != b && (a, b) !in seen {
      PartsMore(s, bi, seen, more, a, b);
    }
  }

  lemma {:induction false} PartsMore(s: Store, bi: bool, seen: set<Pair>, more: set<Pair>, a: Ref, b: Ref)
    requires StoreOk(s) && Parts(s, bi, seen, a, b) && seen <= more
    ensures Parts(s, bi, more, a, b)
    decreases a, 0
  {
    match (s[a], s[b])
    case (MVarCell(_, t), MVarCell(_, t')) => EqMore(s, bi, seen, more, t, t');
    case (AppCell(f, x), AppCell(f', x')) =>
      EqMore(s, bi, seen, more, f, f');
      EqMore(s, bi, seen, more, x, x');
    case (BindingCell(_, _, d, x, _), BindingCell(_, _, d', x', _)) =>
      EqMore(s, bi, seen, more, d, d');
      EqMore(s, bi, seen, more, x, x');
    case (LetCell(_, t, v, x), LetCell(_, t', v', x')) =>
      EqMore(s, bi, seen, more, t, t');
      EqMore(s, bi, seen, more, v, v');
      EqMore(s, bi, seen, more, x, x');
    case (MDataCell(_, x), MDataCell(_, x')) => EqMore(s, bi, seen, more, x, x');
    case (ProjCell(_, _, x), ProjCell(_, _, x')) => EqMore(s, bi, seen, more, x, x');
    case _ =>
  }

  // The pairs whose comparison has ended well
  ghost predicate Closed(s: Store, bi: bool, seen: set<Pair>, open: set<Pair>)
    requires StoreOk(s)
  {
    forall p {:trigger Parts(s, bi, seen, p.0, p.1)} :: p in seen && p !in open ==> Parts(s, bi, seen, p.0, p.1)
  }

  // When all comparisons have ended well, equality is no longer conditional, for terms are
  // acyclic
  lemma {:induction false} ClosedEqual(s: Store, bi: bool, seen: set<Pair>, a: Ref, b: Ref)
    requires StoreOk(s) && Closed(s, bi, seen, {}) && Eq(s, bi, seen, a, b)
    ensures Same(bi, Term(s, a), Term(s, b))
    decreases a, 1
  {
    if a != b {
      if (a, b) in seen {
        var p := (a, b);
        assert Parts(s, bi, seen, p.0, p.1);
      }
      PartsEqual(s, bi, seen, a, b);
    }
  }

  lemma {:induction false} PartsEqual(s: Store, bi: bool, seen: set<Pair>, a: Ref, b: Ref)
    requires StoreOk(s) && Closed(s, bi, seen, {}) && Parts(s, bi, seen, a, b)
    ensures Same(bi, Term(s, a), Term(s, b))
    decreases a, 0
  {
    hide Closed, Eq;
    match (s[a], s[b])
    case (MVarCell(_, t), MVarCell(_, t')) => ClosedEqual(s, bi, seen, t, t');
    case (AppCell(f, x), AppCell(f', x')) =>
      ClosedEqual(s, bi, seen, f, f');
      ClosedEqual(s, bi, seen, x, x');
    case (BindingCell(_, _, d, x, _), BindingCell(_, _, d', x', _)) =>
      ClosedEqual(s, bi, seen, d, d');
      ClosedEqual(s, bi, seen, x, x');
    case (LetCell(_, t, v, x), LetCell(_, t', v', x')) =>
      ClosedEqual(s, bi, seen, t, t');
      ClosedEqual(s, bi, seen, v, v');
      ClosedEqual(s, bi, seen, x, x');
    case (MDataCell(_, x), MDataCell(_, x')) => ClosedEqual(s, bi, seen, x, x');
    case (ProjCell(_, _, x), ProjCell(_, _, x')) => ClosedEqual(s, bi, seen, x, x');
    case _ =>
  }

  lemma {:induction false} OtherKind(s: Store, bi: bool, a: Ref, b: Ref)
    requires StoreOk(s) && a < |s| && b < |s| && !SameKind(s[a], s[b])
    ensures !Same(bi, Term(s, a), Term(s, b))
  {
    KindOfTerm(s, a);
    KindOfTerm(s, b);
  }

  lemma KindOfTerm(s: Store, a: Ref)
    requires StoreOk(s) && a < |s|
    ensures Kind(Term(s, a)) == CellKind(s[a]) == Kind(Erase(Term(s, a)))
  {
    assert CellOk(s[a], a);
  }

  // The hash code of a node depends on the term without binder names
  ghost predicate HashOk(s: Store, hash: Ref -> nat)
    requires StoreOk(s)
  {
    forall a, b :: 0 <= a < |s| && 0 <= b < |s| && Erase(Term(s, a)) == Erase(Term(s, b)) ==> hash(a) == hash(b)
  }

  class ExprEq {
    const cache: EqCache
    const s: Store
    const bi: bool                         // CompareBinderInfo
    const hash: Ref -> nat
    const mix: (nat, nat) -> nat
    ghost var seen: set<Pair>              // every pair that was ever entered

    constructor (c: EqCache, store: Store, compareBinderInfo: bool, h: Ref -> nat, m: (nat, nat) -> nat)
      ensures cache == c && s == store && bi == compareBinderInfo && hash == h && seen == {}
    {
      cache, s, bi, hash, mix, seen := c, store, compareBinderInfo, h, m, {};
    }

    // All pairs but those being compared have ended well; the cache holds some of the pairs
    ghost predicate Running(open: set<Pair>)
      reads this, cache
    {
      && StoreOk(s) && HashOk(s, hash) && cache.Valid() && Closed(s, bi, seen, open)
      && forall p :: p in cache.Entries() ==> p.0 in seen
    }

    // eq_cache::check, for nodes that are shared
    method Check(a: Ref, b: Ref) returns (r: bool)
      requires cache.Valid() && forall p :: p in cache.Entries() ==> p.0 in seen
      modifies this, cache
      ensures cache.Valid() && forall p :: p in cache.Entries() ==> p.0 in seen
      ensures r ==> seen == old(seen) && (a, b) in seen
      ensures !r ==> seen == old(seen) || seen == old(seen) + {(a, b)}
    {
      var bothShared: bool := *;
      if !bothShared {
        return false;
      }
      var i := mix(hash(a), hash(b));
      var found := cache.Find((a, b), i);
      if found.Some? {
        return true;
      }
      cache.Insert((a, b), (), i);
      seen := seen + {(a, b)};
      return false;
    }

    // A true answer holds if the pairs being compared turn out equal; a false one holds
    method Apply(a: Ref, b: Ref, ghost open: set<Pair>) returns (r: bool)
      requires Running(open) && a < |s| && b < |s|
      modifies this, cache
      ensures r ==> Running(open) && old(seen) <= seen && Eq(s, bi, seen, a, b)
      ensures !r ==> !Same(bi, Term(s, a), Term(s, b))
      ensures cache.Valid()
      decreases a, 2
    {
      if a == b {
        return true;
      }
      if hash(a) != hash(b) {
        return false;
      }
      if !SameKind(s[a], s[b]) {
        OtherKind(s, bi, a, b);
        return false;
      }
      if s[a].Leaf? && s[a].e.BVar? {
        return s[a].e.idx == s[b].e.idx;
      }
      var hit := Check(a, b);
      if hit {
        return true;
      }
      ClosedEntered(s, bi, old(seen), seen, open, (a, b));
      r := CompareParts(a, b, open + {(a, b)});
      if r {
        ClosedLeft(s, bi, seen, open, (a, b));
      }
    }

    // The switch
    method CompareParts(a: Ref, b: Ref, ghost open: set<Pair>) returns (r: bool)
      requires Running(open) && a < |s| && b < |s| && SameKind(s[a], s[b])
      modifies this, cache
      ensures r ==> Running(open) && old(seen) <= seen && Parts(s, bi, seen, a, b)
      ensures !r ==> !Same(bi, Term(s, a), Term(s, b))
      ensures cache.Valid()
      decreases a, 1
    {
      hide Eq, HashOk, Closed, DirectCache.Valid, DirectCache.Entries;
      assert CellOk(s[a], a) && CellOk(s[b], b);
      var d := s[b];
      match s[a] {
        case Leaf(x) =>
          r := x == d.e;
        case MVarCell(n, t) =>
          r := n == d.id;
          if r {
            r := Apply(t, d.mtype, open);
          }
        case AppCell(f, x) =>
          r := CompareTwo(f, d.fn, x, d.arg, open, a);
        case BindingCell(_, _, _, _, _) =>
          r := CompareBinding(a, b, open);
        case LetCell(_, _, _, _) =>
          r := CompareLet(a, b, open);
        case MDataCell(m, x) =>
          r := Apply(x, d.x, open);
          r := r && m == d.data;
        case ProjCell(n, i, x) =>
          r := Apply(x, d.x, open);
          r := r && n == d.sname && i == d.field;
      }
    }

    method CompareBinding(a: Ref, b: Ref, ghost open: set<Pair>) returns (r: bool)
      requires Running(open) && a < |s| && b < |s| && SameKind(s[a], s[b]) && s[a].BindingCell? && s[b].BindingCell?
      modifies this, cache
      ensures r ==> Running(open) && old(seen) <= seen && Parts(s, bi, seen, a, b)
      ensures !r ==> !Same(bi, Term(s, a), Term(s, b))
      ensures cache.Valid()
      decreases a, 0, 2
    {
      hide Eq, HashOk, Closed, DirectCache.Valid, DirectCache.Entries;
      assert CellOk(s[a], a) && CellOk(s[b], b);
      var c, d := s[a], s[b];
      r := CompareTwo(c.dom, d.dom, c.body, d.body, open, a);
      r := r && (bi ==> c.name == d.name && c.info == d.info);
    }

    method CompareLet(a: Ref, b: Ref, ghost open: set<Pair>) returns (r: bool)
      requires Running(open) && a < |s| && b < |s| && s[a].LetCell? && s[b].LetCell?
      modifies this, cache
      ensures r ==> Running(open) && old(seen) <= seen && Parts(s, bi, seen, a, b)
      ensures !r ==> !Same(bi, Term(s, a), Term(s, b))
      ensures cache.Valid()
      decreases a, 0, 2
    {
      hide Eq, HashOk, Closed, DirectCache.Valid, DirectCache.Entries;
      assert CellOk(s[a], a) && CellOk(s[b], b);
      var c, d := s[a], s[b];
      r := CompareThree(c.ltype, d.ltype, c.val, d.val, c.body, d.body, open, a);
      r := r && (bi ==> c.name == d.name);
    }

    method CompareTwo(x: Ref, x': Ref, y: Ref, y': Ref, ghost open: set<Pair>, ghost a: Ref) returns (r: bool)
      requires Running(open) && x < a && y < a && x < |s| && x' < |s| && y < |s| && y' < |s|
      modifies this, cache
      ensures r ==> Running(open) && old(seen) <= seen && Eq(s, bi, seen, x, x') && Eq(s, bi, seen, y, y')
      ensures !r ==> !Same(bi, Term(s, x), Term(s, x')) || !Same(bi, Term(s, y), Term(s, y'))
      ensures cache.Valid()
      decreases a, 0, 0
    {
      r := Apply(x, x', open);
      if r {
        ghost var mid := seen;
        r := Apply(y, y', open);
        if r {
          EqMore(s, bi, mid, seen, x, x');
        }
      }
    }

    method CompareThree(x: Ref, x': Ref, y: Ref, y': Ref, z: Ref, z': Ref, ghost open: set<Pair>, ghost a: Ref)
        returns (r: bool)
      requires Running(open) && x < a && y < a && z < a && x < |s| && x' < |s| && y < |s| && y' < |s| && z < |s|
      requires z' < |s|
      modifies this, cache
      ensures r ==> Running(open) && old(seen) <= seen
      ensures r ==> Eq(s, bi, seen, x, x') && Eq(s, bi, seen, y, y') && Eq(s, bi, seen, z, z')
      ensures Same(bi, Term(s, x), Term(s, x')) && Same(bi, Term(s, y), Term(s, y')) ==>
        r || !Same(bi, Term(s, z), Term(s, z'))
      ensures cache.Valid()
      decreases a, 0, 1
    {
      r := CompareTwo(x, x', y, y', open, a);
      if r {
        ghost var mid := seen;
        r := Apply(z, z', open);
        if r {
          EqMore(s, bi, mid, seen, x, x');
          EqMore(s, bi, mid, seen, y, y');
        }
      }
    }

    // The whole comparison: exact, and the cache is left empty for the next one
    method Compare(a: Ref, b: Ref) returns (r: bool)
      requires StoreOk(s) && HashOk(s, hash) && cache.Valid() && cache.Entries() == {} && seen == {} && a < |s|
      requires b < |s|
      modifies this, cache
      ensures r <==> Same(bi, Term(s, a), Term(s, b))
      ensures cache.Valid() && cache.Entries() == {}
    {
      r := Apply(a, b, {});
      if r {
        ClosedEqual(s, bi, seen, a, b);
      }
      cache.Clear();
    }
  }

  lemma ClosedEntered(s: Store, bi: bool, seen: set<Pair>, seen': set<Pair>, open: set<Pair>, p: Pair)
    requires StoreOk(s) && Closed(s, bi, seen, open) && (seen' == seen || seen' == seen + {p})
    ensures Closed(s, bi, seen', open + {p})
  {
    forall q: Pair | q in seen' && q !in open + {p} ensures Parts(s, bi, seen', q.0, q.1) {
      PartsMore(s, bi, seen, seen', q.0, q.1);
    }
  }

  lemma ClosedLeft(s: Store, bi: bool, seen: set<Pair>, open: set<Pair>, p: Pair)
    requires StoreOk(s) && Closed(s, bi, seen, open + {p}) && Parts(s, bi, seen, p.0, p.1)
    ensures Closed(s, bi, seen, open)
  {
  }
}

/** replace_rec_fn with its cache (src/kernel/replace_fn.cpp). */
module CachedReplace {
  import opened Exprs
  import opened Instantiate
  import opened Dag
  import opened DirectCache

  type ReplaceCache = DirectCache<(Ref, nat), Expr>

  // Every entry is a result of the traversal that is running
  ghost predicate Faithful(c: ReplaceCache, s: Store, f: Callback)
    reads c
  {
    && StoreOk(s) && c.Valid()
    && forall p :: p in c.Entries() ==> p.0.0 < |s| && p.1 == Replace(f, Term(s, p.0.0), p.0.1)
  }

  class ReplaceFn {
    const cache: ReplaceCache
    const f: Callback
    const useCache: bool
    const s: Store
    const hash: (Ref, nat) -> nat

    constructor (c: ReplaceCache, callback: Callback, use: bool, store: Store, h: (Ref, nat) -> nat)
      ensures cache == c && f == callback && useCache == use && s == store
    {
      cache, f, useCache, s, hash := c, callback, use, store, h;
    }

    method SaveResult(e: Ref, o: nat, r: Expr, isShared: bool) returns (res: Expr)
      requires Faithful(cache, s, f) && e < |s| && r == Replace(f, Term(s, e), o)
      modifies cache
      ensures Faithful(cache, s, f) && res == r
    {
      if isShared {
        cache.Insert((e, o), r, hash(e, o));
      }
      return r;
    }

    // Whatever is overwritten in the cache, the result is that of the plain recursion
    method Apply(e: Ref, o: nat) returns (r: Expr)
      requires Faithful(cache, s, f) && e < |s|
      modifies cache
      ensures Faithful(cache, s, f) && r == Replace(f, Term(s, e), o)
      decreases e
    {
      assert CellOk(s[e], e);
      var isShared := false;
      var rcAboveOne: bool := *;    // is_shared
      if useCache && rcAboveOne {
        var found := cache.Find((e, o), hash(e, o));
        if found.Some? {
          return found.value;
        }
        isShared := true;
      }
      var hit := f(Term(s, e), o);
      if hit.Some? {
        r := SaveResult(e, o, hit.value, isShared);
        return;
      }
      r := Below(e, o);
      r := SaveResult(e, o, r, isShared);
    }

    lemma InStore()
      requires Faithful(cache, s, f)
      ensures StoreOk(s)
    {
    }

    method Below(e: Ref, o: nat) returns (r: Expr)
      requires Faithful(cache, s, f) && e < |s| && f(Term(s, e), o).None?
      modifies cache
      ensures Faithful(cache, s, f) && r == Replace(f, Term(s, e), o)
      decreases e, 0
    {
      hide Faithful;
      InStore();
      assert CellOk(s[e], e);
      match s[e] {
        case Leaf(x) =>
          r := x;
        case MDataCell(m, x) =>
          var x' := Apply(x, o);
          r := MData(m, x');
        case ProjCell(n, i, x) =>
          var x' := Apply(x, o);
          r := Proj(n, i, x');
        case MVarCell(n, t) =>
          var t' := Apply(t, o);
          r := MVar(n, t');
        case AppCell(g, a) =>
          var g' := Apply(g, o);
          var a' := Apply(a, o);
          r := App(g', a');
        case BindingCell(k, n, d, b, i) =>
          var d' := Apply(d, o);
          var b' := Apply(b, o + 1);
          r := Binding(k, n, d', b', i);
        case LetCell(n, t, v, b) =>
          var t' := Apply(t, o);
          var v' := Apply(v, o);
          var b' := Apply(b, o + 1);
          r := Let(n, t', v', b');
      }
    }
  }
}

/** elim_nested_inductive_fn (src/kernel/inductive.cpp): auxiliary types are created as
  * nested applications are met; restore_nested brings the original types back.
  */
module NestedElim {
  import opened Wrappers
  import opened Names
  import opened Exprs
  import opened Instantiate
  import opened InferApp
  import opened LocalContexts
  import opened Renaming

  // ----- binders in front of a term -----

  function Depth(kind: BinderKind, e: Expr): nat {
    if e.Binding? && e.kind == kind then Depth(kind, e.body) + 1 else 0
  }

  function Inner(kind: BinderKind, e: Expr, n: nat): Expr
    requires n <= Depth(kind, e)
  {
    if n == 0 then e else Inner(kind, e.body, n - 1)
  }

  // The same n binders around x
  function WithInner(kind: BinderKind, e: Expr, n: nat, x: Expr): Expr
    requires n <= Depth(kind, e)
  {
    if n == 0 then x else Binding(kind, e.name, e.dom, WithInner(kind, e.body, n - 1, x), e.info)
  }

  lemma {:induction false} InnerNext(kind: BinderKind, e: Expr, n: nat, x: Expr)
    requires n < Depth(kind, e)
    ensures var b := Inner(kind, e, n);
      && b.Binding? && b.kind == kind && Inner(kind, e, n + 1) == b.body
      && WithInner(kind, e, n, Binding(kind, b.name, b.dom, x, b.info)) == WithInner(kind, e, n + 1, x)
  {
    if n > 0 {
      InnerNext(kind, e.body, n - 1, x);
    }
  }

  lemma {:induction false} InnerDepth(kind: BinderKind, e: Expr, n: nat)
    requires n <= Depth(kind, e)
    ensures Depth(kind, Inner(kind, e, n)) == Depth(kind, e) - n
    ensures Range(Inner(kind, e, n)) <= Range(e) + n
    ensures forall x :: Occurs(x, Inner(kind, e, n)) ==> Occurs(x, e)
  {
    if n > 0 {
      InnerDepth(kind, e.body, n - 1);
    }
  }

  lemma {:induction false} InnerWithInner(kind: BinderKind, e: Expr, n: nat, x: Expr)
    requires n <= Depth(kind, e)
    ensures n <= Depth(kind, WithInner(kind, e, n, x))
    ensures Inner(kind, WithInner(kind, e, n, x), n) == x
    ensures forall y :: WithInner(kind, WithInner(kind, e, n, x), n, y) == WithInner(kind, e, n, y)
    ensures WithInner(kind, e, n, Inner(kind, e, n)) == e
  {
    if n > 0 {
      InnerWithInner(kind, e.body, n - 1, x);
    }
  }

  lemma {:induction false} WithInnerErase(kind: BinderKind, e: Expr, n: nat, x: Expr, y: Expr)
    requires n <= Depth(kind, e) && Erase(x) == Erase(y)
    ensures Erase(WithInner(kind, e, n, x)) == Erase(WithInner(kind, e, n, y))
  {
    hide Erase;
    if n > 0 {
      WithInnerErase(kind, e.body, n - 1, x, y);
      EraseBinder(e, WithInner(kind, e.body, n - 1, x), WithInner(kind, e.body, n - 1, y));
    }
  }

  lemma EraseBinder(e: Expr, x: Expr, y: Expr)
    requires e.Binding? && Erase(x) == Erase(y)
    ensures Erase(Binding(e.kind, e.name, e.dom, x, e.info)) == Erase(Binding(e.kind, e.name, e.dom, y, e.info))
  {
  }

  // xs has been declared for the first n binders of e, without values
  ghost predicate Declared(kind: BinderKind, ds: Decls, xs: seq<Name>, e: Expr, n: nat) {
    && |xs| == n <= Depth(kind, e)
    && (forall i :: 0 <= i < n ==> xs[i] in ds && ds[xs[i]].value.None?)
    && Bind(ds, xs, n, kind == Lambda, Inner(kind, e, n)) == e
  }

  lemma DeclaredNext(kind: BinderKind, ds: Decls, ds': Decls, xs: seq<Name>, n: Name, e: Expr, t: Expr)
    requires Declared(kind, ds, xs, e, |xs|) && |xs| < Depth(kind, e) && n !in ds && n in ds'
    requires ds' == ds[n := ds'[n]]
    requires var b := Inner(kind, e, |xs|);
      && b.Binding? && Abstract(t, xs) == b.dom
      && ds'[n] == Decl(ds'[n].idx, n, b.name, t, None, b.info)
    ensures Declared(kind, ds', xs + [n], e, |xs| + 1)
  {
    var xs', k := xs + [n], |xs|;
    assert xs'[..k] == xs;
    var b := Inner(kind, e, k);
    InnerNext(kind, e, k, b.body);
    BindExtend(ds, xs, k, kind == Lambda, b, ds', xs');
  }

  // Binding the declared variables around any x
  lemma DeclaredBind(kind: BinderKind, ds: Decls, xs: seq<Name>, e: Expr, n: nat, x: Expr)
    requires Declared(kind, ds, xs, e, n)
    ensures |xs| == n <= Depth(kind, e) && forall i :: 0 <= i < n ==> xs[i] in ds
    ensures Bind(ds, xs, n, kind == Lambda, x) == WithInner(kind, e, n, x)
  {
    BindShape(kind, ds, xs, n, Inner(kind, e, n), x);
  }

  lemma {:induction false} BindShape(kind: BinderKind, ds: Decls, xs: seq<Name>, n: nat, y: Expr, x: Expr)
    requires n <= |xs| && forall i :: 0 <= i < n ==> xs[i] in ds && ds[xs[i]].value.None?
    ensures var e := Bind(ds, xs, n, kind == Lambda, y);
      && n <= Depth(kind, e) && Inner(kind, e, n) == y
      && Bind(ds, xs, n, kind == Lambda, x) == WithInner(kind, e, n, x)
  {
    if n > 0 {
      var d := ds[xs[n - 1]];
      var y' := Wrap(d, xs[..n - 1], kind == Lambda, y);
      var e := Bind(ds, xs, n - 1, kind == Lambda, y');
      BindShape(kind, ds, xs, n - 1, y', Wrap(d, xs[..n - 1], kind == Lambda, x));
      InnerDepth(kind, e, n - 1);
      InnerNext(kind, e, n - 1, x);
    }
  }

  // get_params, and the first loop of restore_nested: n binders are opened one by one
  method GetParams(kind: BinderKind, e: Expr, n: nat, lctx: LocalContext, g: NameGenerator)
      returns (r: Result<(seq<Name>, Expr)>)
    requires lctx.decls == map[] && Range(e) == 0
    requires forall i: nat {:trigger g.NameAt(i)} :: i >= g.nextIdx ==> !Occurs(g.NameAt(i), e)
    modifies lctx, g
    ensures r.Ok? <==> n <= Depth(kind, e)
    ensures r.Ok? ==> |r.result.0| == n && Declared(kind, lctx.decls, r.result.0, e, n)
    ensures r.Ok? ==> Unique(r.result.0) && r.result.1 == InstRev(Inner(kind, e, n), FVars(r.result.0))
    ensures r.Ok? ==> g.nextIdx == old(g.nextIdx) + n
    ensures r.Ok? ==> forall i :: 0 <= i < n ==> r.result.0[i] == g.NameAt(old(g.nextIdx) + i)
  {
    hide InstRev, Inst, Abstract;
    var ps, t := [], e;
    ghost var start := g.nextIdx;
    NothingPending(e);
    assert FVars([]) == [];
    for i := 0 to n
      invariant |ps| == i && g.nextIdx == start + i
      invariant Opening(kind, lctx.decls, ps, e, t, g, start)
    {
      if !(t.Binding? && t.kind == kind) {
        NotBinder(kind, Inner(kind, e, i), ps);
        InnerDepth(kind, e, i);
        return Err(WrongNumberOfParameters);
      }
      var x := DeclareParam(kind, e, t, ps, lctx, g, start);
      t := Inst(t.body, 0, [FVar(x)]);
      ps := ps + [x];
    }
    Distinct(g, start, ps);
    return Ok((ps, t));
  }

  // One step of that loop
  method DeclareParam(kind: BinderKind, ghost e: Expr, t: Expr, ps: seq<Name>, lctx: LocalContext, g: NameGenerator,
                      ghost start: nat) returns (x: Name)
    requires Opening(kind, lctx.decls, ps, e, t, g, start) && g.nextIdx == start + |ps|
    requires t.Binding? && t.kind == kind
    modifies lctx, g
    ensures g.nextIdx == old(g.nextIdx) + 1
    ensures Opening(kind, lctx.decls, ps + [x], e, Inst(t.body, 0, [FVar(x)]), g, start)
  {
    hide InstRev, Inst, Abstract, Bind, Occurs;
    IsBinder(kind, Inner(kind, e, |ps|), ps, g, start);
    InnerDepth(kind, e, |ps|);
    ghost var ds := lctx.decls;
    x := g.Next();
    var d := lctx.MkLocalDecl(x, t.name, t.dom, None, t.info);
    NextParam(kind, ds, lctx.decls, ps, x, e, t, g, start);
  }

  // ps stands for the first binders of e, and t is what is left
  ghost predicate Opening(kind: BinderKind, ds: Decls, ps: seq<Name>, e: Expr, t: Expr, g: NameGenerator, start: nat) {
    && Declared(kind, ds, ps, e, |ps|)
    && Opened(ds, ps, Inner(kind, e, |ps|), g, start)
    && t == InstRev(Inner(kind, e, |ps|), FVars(ps))
  }

  lemma NotBinder(kind: BinderKind, raw: Expr, ps: seq<Name>)
    requires var t := InstRev(raw, FVars(ps)); !(t.Binding? && t.kind == kind)
    ensures Depth(kind, raw) == 0
  {
    InstRevIsReplaced(raw, FVars(ps));
  }

  // Variables put for the loose indices do not become binders
  lemma {:induction false} IsBinder(kind: BinderKind, raw: Expr, ps: seq<Name>, g: NameGenerator, start: nat)
    requires var t := InstRev(raw, FVars(ps)); t.Binding? && t.kind == kind
    requires Range(raw) <= |ps| && forall i :: 0 <= i < |ps| ==> ps[i] == g.NameAt(start + i)
    requires forall i: nat {:trigger g.NameAt(i)} :: i >= start ==> !Occurs(g.NameAt(i), raw)
    ensures raw.Binding? && raw.kind == kind && Depth(kind, raw) > 0
    ensures var t := InstRev(raw, FVars(ps)); t.name == raw.name && t.info == raw.info && Abstract(t.dom, ps) == raw.dom
  {
    InstRevIsReplaced(raw, FVars(ps));
    InstRevIsReplaced(raw.dom, FVars(ps));
    Distinct(g, start, ps);
    CloseOpen(raw.dom, ps);
  }

  lemma {:induction false} NextParam(kind: BinderKind, ds: Decls, ds': Decls, ps: seq<Name>, x: Name, e: Expr, t: Expr,
                                     g: NameGenerator, start: nat)
    requires Opening(kind, ds, ps, e, t, g, start) && |ps| < Depth(kind, e)
    requires x == g.NameAt(start + |ps|) && x in ds' && ds' == ds[x := ds'[x]]
    requires var raw := Inner(kind, e, |ps|);
      && raw.Binding? && t.Binding? && t.name == raw.name && t.info == raw.info && Abstract(t.dom, ps) == raw.dom
      && ds'[x] == Decl(ds'[x].idx, x, t.name, t.dom, None, t.info)
    ensures Opening(kind, ds', ps + [x], e, Inst(t.body, 0, [FVar(x)]), g, start)
  {
    hide InstRev, Abstract, Occurs, Bind;
    var raw := Inner(kind, e, |ps|);
    InnerNext(kind, e, |ps|, raw.body);
    assert x !in ds;
    DeclaredNext(kind, ds, ds', ps, x, e, t.dom);
    InstRevIsReplaced(raw, FVars(ps));
    assert Wrap(ds'[x], ps, kind == Lambda, raw.body) == raw;
    OpenedNext(ds, ds', ps, x, raw, g, start, kind == Lambda);
    assert FVars(ps + [x]) == FVars(ps) + [FVar(x)];
    PendingBinder(raw, FVars(ps), FVar(x));
  }

  // ----- fresh auxiliary names -----

  function Digits(n: nat): (s: string)
    ensures '_' !in s
  {
    var d := ['0' + (n % 10) as char];
    if n < 10 then d else Digits(n / 10) + d
  }

  // What a numeral means
  function Number(s: string): int {
    if s == [] then 0 else 10 * Number(s[..|s| - 1]) + (s[|s| - 1] as int - '0' as int)
  }

  // The digits of n are its decimal numeral, without zeros in front
  lemma {:induction false} DigitsMean(n: nat)
    ensures Number(Digits(n)) == n && Digits(n) != [] && forall c :: c in Digits(n) ==> '0' <= c <= '9'
    ensures n > 0 ==> Digits(n)[0] != '0'
  {
    var s := Digits(n);
    assert s[|s| - 1] as int - '0' as int == n % 10;
    if n >= 10 {
      DigitsMean(n / 10);
      assert s[..|s| - 1] == Digits(n / 10);
    }
  }

  lemma DigitsDiffer(m: nat, n: nat)
    requires Digits(m) == Digits(n)
    ensures m == n
  {
    DigitsMean(m);
    DigitsMean(n);
  }

  // name::append_after(unsigned)
  function AppendAfter(n: Name, i: nat): Name {
    var b := if n != [] && n[|n| - 1].Str? then n else n + [Str("")];
    b[..|b| - 1] + [Str(b[|b| - 1].s + "_" + Digits(i))]
  }

  // Whatever the names, different numbers make them different
  lemma AppendDiffer(m: Name, i: nat, n: Name, j: nat)
    requires AppendAfter(m, i) == AppendAfter(n, j)
    ensures i == j
  {
    var a, b := AppendAfter(m, i), AppendAfter(n, j);
    var s :| a[|a| - 1] == Str(s + "_" + Digits(i));
    var t :| b[|b| - 1] == Str(t + "_" + Digits(j));
    LastUnderscore(s, Digits(i), t, Digits(j));
    DigitsDiffer(i, j);
  }

  lemma LastUnderscore(s: string, d: string, t: string, e: string)
    requires s + "_" + d == t + "_" + e && '_' !in d && '_' !in e
    ensures d == e
  {
    var w := s + "_" + d;
    assert w[|s|] == '_' && w[|t|] == '_';
    assert forall k :: |s| < k < |w| ==> w[k] == d[k - |s| - 1];
    assert forall k :: |t| < k < |w| ==> w[k] == e[k - |t| - 1];
    assert |s| == |t|;
    assert d == w[|s| + 1..] && e == w[|t| + 1..];
  }
}

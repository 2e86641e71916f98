/** Loose indices and free variables of the terms that elim_nested_inductive_fn makes: opened
  * bodies, abstracted ones, terms without nested applications (src/kernel/inductive.cpp).
  */
module NestedClosed {
  import opened Names
  import opened Exprs
  import opened Instantiate
  import opened Beta
  import opened NestedRestore
  import opened NestedElim

  // ----- what occurs in the term without nested applications -----

  lemma {:induction false} OccursApply(x: Name, f: Expr, args: seq<Expr>)
    requires !Occurs(x, f) && forall i :: 0 <= i < |args| ==> !Occurs(x, args[i])
    ensures !Occurs(x, Apply(f, args))
    decreases |args|
  {
    if args != [] {
      OccursApply(x, App(f, args[0]), args[1..]);
    }
  }

  lemma {:induction false} OccursArgs(x: Name, e: Expr)
    requires !Occurs(x, e)
    ensures forall i :: 0 <= i < |Args(e)| ==> !Occurs(x, Args(e)[i])
  {
    if e.App? {
      OccursArgs(x, e.fn);
    }
  }

  lemma {:induction false} EncodesFresh(aux: Aux, c: Context, e: Expr, r: Expr, x: Name)
    requires Encodes(aux, c, e, r) && x !in c.As && !Occurs(x, e)
    ensures !Occurs(x, r)
    decreases e, 1
  {
    if i: nat, k: nat :| Hit(aux, c, e, r, i, k) {
      OccursArgs(x, e);
      OccursApply(x, Const(aux[i].1, c.lvls), FVars(c.As));
      OccursApply(x, Apply(Const(aux[i].1, c.lvls), FVars(c.As)), Args(e)[k..]);
    } else {
      InsideFresh(aux, c, e, r, x);
    }
  }

  lemma {:induction false} InsideFresh(aux: Aux, c: Context, e: Expr, r: Expr, x: Name)
    requires Inside(aux, c, e, r) && x !in c.As && !Occurs(x, e)
    ensures !Occurs(x, r)
    decreases e, 0
  {
    match e
    case MVar(_, t) => EncodesFresh(aux, c, t, r.mtype, x);
    case App(f, a) =>
      InsideFresh(aux, c, f, r.fn, x);
      EncodesFresh(aux, c, a, r.arg, x);
    case Binding(_, _, t, b, _) =>
      EncodesFresh(aux, c, t, r.dom, x);
      EncodesFresh(aux, c, b, r.body, x);
    case Let(_, t, v, b) =>
      EncodesFresh(aux, c, t, r.ltype, x);
      EncodesFresh(aux, c, v, r.val, x);
      EncodesFresh(aux, c, b, r.body, x);
    case MData(_, y) => EncodesFresh(aux, c, y, r.e, x);
    case Proj(_, _, y) => EncodesFresh(aux, c, y, r.e, x);
    case _ =>
  }

  // Abstracted variables do not occur any more, others no more than before
  lemma {:induction false} BoundFresh(e: Expr, o: nat, xs: seq<Name>, x: Name)
    requires x in xs || !Occurs(x, e)
    ensures !Occurs(x, Bound(e, o, xs))
  {
    match e
    case FVar(y) => LastIndexMeans(y, xs);
    case MVar(_, t) => BoundFresh(t, o, xs, x);
    case App(f, a) =>
      BoundFresh(f, o, xs, x);
      BoundFresh(a, o, xs, x);
    case Binding(_, _, t, b, _) =>
      BoundFresh(t, o, xs, x);
      BoundFresh(b, o + 1, xs, x);
    case Let(_, t, v, b) =>
      BoundFresh(t, o, xs, x);
      BoundFresh(v, o, xs, x);
      BoundFresh(b, o + 1, xs, x);
    case MData(_, y) => BoundFresh(y, o, xs, x);
    case Proj(_, _, y) => BoundFresh(y, o, xs, x);
    case _ =>
  }

  lemma {:induction false} BoundRange(e: Expr, o: nat, xs: seq<Name>)
    requires Range(e) <= o
    ensures Range(Bound(e, o, xs)) <= o + |xs|
    decreases e, 1
  {
    match e
    case FVar(y) => LastIndexMeans(y, xs);
    case MVar(_, t) => BoundRange(t, o, xs);
    case App(f, a) =>
      BoundRange(f, o, xs);
      BoundRange(a, o, xs);
    case Binding(_, _, _, _, _) => BoundRangeBinding(e, o, xs);
    case Let(_, _, _, _) => BoundRangeLet(e, o, xs);
    case MData(_, y) => BoundRange(y, o, xs);
    case Proj(_, _, y) => BoundRange(y, o, xs);
    case _ =>
  }

  lemma {:induction false} BoundRangeBinding(e: Expr, o: nat, xs: seq<Name>)
    requires Range(e) <= o && e.Binding?
    ensures Range(Bound(e, o, xs)) <= o + |xs|
    decreases e, 0
  {
    BoundRange(e.dom, o, xs);
    BoundRange(e.body, o + 1, xs);
  }

  lemma {:induction false} BoundRangeLet(e: Expr, o: nat, xs: seq<Name>)
    requires Range(e) <= o && e.Let?
    ensures Range(Bound(e, o, xs)) <= o + |xs|
    decreases e, 0
  {
    BoundRange(e.ltype, o, xs);
    BoundRange(e.val, o, xs);
    BoundRange(e.body, o + 1, xs);
  }

  lemma {:induction false} WithInnerParts(t: Expr, n: nat, y: Expr, k: nat)
    requires n <= Depth(Pi, t) && Range(t) <= k && Range(y) <= k + n
    ensures Range(WithInner(Pi, t, n, y)) <= k
    ensures forall x :: !Occurs(x, t) && !Occurs(x, y) ==> !Occurs(x, WithInner(Pi, t, n, y))
  {
    if n > 0 {
      WithInnerParts(t.body, n - 1, y, k + 1);
    }
  }

  // ----- opening with closed terms -----

  ghost predicate ClosedTerms(ts: Subst) {
    forall i :: 0 <= i < |ts| ==> Range(ts[i]) == 0
  }

  lemma {:induction false} RangeOpened(e: Expr, k: nat, ts: Subst)
    requires ClosedTerms(ts) && Range(e) <= k + |ts|
    ensures Range(Replaced(e, k, k, ts)) <= k
    decreases e, 1
  {
    match e
    case BVar(v) =>
      if k <= v < k + |ts| {
        ShiftClosed(ts[v - k], 0, k);
      }
    case MVar(_, t) => RangeOpened(t, k, ts);
    case App(f, a) =>
      RangeOpened(f, k, ts);
      RangeOpened(a, k, ts);
    case Binding(_, _, t, b, _) => RangeOpenedBinding(e, k, ts);
    case Let(_, t, v, b) => RangeOpenedLet(e, k, ts);
    case MData(_, x) => RangeOpened(x, k, ts);
    case Proj(_, _, x) => RangeOpened(x, k, ts);
    case _ =>
  }

  lemma {:induction false} RangeOpenedBinding(e: Expr, k: nat, ts: Subst)
    requires ClosedTerms(ts) && Range(e) <= k + |ts| && e.Binding?
    ensures Range(Replaced(e, k, k, ts)) <= k
    decreases e, 0
  {
    RangeOpened(e.dom, k, ts);
    RangeOpened(e.body, k + 1, ts);
  }

  lemma {:induction false} RangeOpenedLet(e: Expr, k: nat, ts: Subst)
    requires ClosedTerms(ts) && Range(e) <= k + |ts| && e.Let?
    ensures Range(Replaced(e, k, k, ts)) <= k
    decreases e, 0
  {
    RangeOpened(e.ltype, k, ts);
    RangeOpened(e.val, k, ts);
    RangeOpened(e.body, k + 1, ts);
  }

  ghost predicate Absent(y: Name, ts: Subst) {
    forall i :: 0 <= i < |ts| ==> !Occurs(y, ts[i])
  }

  lemma {:induction false} OccursOpened(e: Expr, k: nat, ts: Subst, y: Name)
    requires ClosedTerms(ts) && Absent(y, ts) && !Occurs(y, e)
    ensures !Occurs(y, Replaced(e, k, k, ts))
  {
    match e
    case BVar(v) =>
      if k <= v < k + |ts| {
        ShiftClosed(ts[v - k], 0, k);
      }
    case MVar(_, t) => OccursOpened(t, k, ts, y);
    case App(f, a) =>
      OccursOpened(f, k, ts, y);
      OccursOpened(a, k, ts, y);
    case Binding(_, _, t, b, _) =>
      OccursOpened(t, k, ts, y);
      OccursOpened(b, k + 1, ts, y);
    case Let(_, t, v, b) =>
      OccursOpened(t, k, ts, y);
      OccursOpened(v, k, ts, y);
      OccursOpened(b, k + 1, ts, y);
    case MData(_, x) => OccursOpened(x, k, ts, y);
    case Proj(_, _, x) => OccursOpened(x, k, ts, y);
    case _ =>
  }

  // Opening with variables, or with any closed terms
  lemma OpenedParts(raw: Expr, ts: Subst, y: Name)
    requires ClosedTerms(ts) && Range(raw) <= |ts|
    ensures Range(InstRev(raw, ts)) == 0
    ensures Absent(y, ts) && !Occurs(y, raw) ==> !Occurs(y, InstRev(raw, ts))
  {
    InstRevIsReplaced(raw, ts);
    assert forall i :: 0 <= i < |ts| ==> Reverse(ts)[i] == ts[|ts| - 1 - i];
    RangeOpened(raw, 0, Reverse(ts));
    if Absent(y, ts) && !Occurs(y, raw) {
      OccursOpened(raw, 0, Reverse(ts), y);
    }
  }

  // The opened body
  lemma {:induction false} OpenedBody(t: Expr, params: seq<Name>, As: seq<Name>)
    requires Range(t) == 0 && |As| == |params| <= Depth(Pi, t) && Unique(As) && Fresh(params, t) && Fresh(As, t)
    requires forall x :: x in params ==> x !in As
    ensures var b := InstRev(Inner(Pi, t, |As|), FVars(As));
      && Abstract(b, As) == Inner(Pi, t, |As|) && Range(b) == 0 && Fresh(params, b)
      && forall x :: Occurs(x, b) ==> x in As || Occurs(x, t)
  {
    var raw := Inner(Pi, t, |As|);
    var b := InstRev(raw, FVars(As));
    InnerDepth(Pi, t, |As|);
    CloseOpen(raw, As);
    OpenedParts(raw, FVars(As), []);
    forall x | x !in As && !Occurs(x, t) ensures !Occurs(x, b) {
      OpenedParts(raw, FVars(As), x);
    }
    assert forall x :: x in params ==> !Occurs(x, t);
  }

  // ----- the names that restore_nested looks for -----

  lemma {:induction false} PlainOpened(e: Expr, k: nat, xs: seq<Name>, ts: Subst, m: Maps)
    requires ArePut(ts, xs)
    requires Plain(m, e)
    ensures Plain(m, Replaced(e, k, k, ts))
  {
    match e
    case MVar(_, t) => PlainOpened(t, k, xs, ts, m);
    case App(f, a) =>
      PlainOpened(f, k, xs, ts, m);
      PlainOpened(a, k, xs, ts, m);
    case Binding(_, _, t, b, _) =>
      PlainOpened(t, k, xs, ts, m);
      PlainOpened(b, k + 1, xs, ts, m);
    case Let(_, t, v, b) =>
      PlainOpened(t, k, xs, ts, m);
      PlainOpened(v, k, xs, ts, m);
      PlainOpened(b, k + 1, xs, ts, m);
    case MData(_, x) => PlainOpened(x, k, xs, ts, m);
    case Proj(_, _, x) => PlainOpened(x, k, xs, ts, m);
    case _ =>
  }

  lemma {:induction false} PlainInner(m: Maps, t: Expr, n: nat)
    requires n <= Depth(Pi, t) && Plain(m, t)
    ensures Plain(m, Inner(Pi, t, n))
  {
    if n > 0 {
      PlainInner(m, t.body, n - 1);
    }
  }
}

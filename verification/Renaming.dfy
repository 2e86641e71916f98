/** Equality up to binder names and infos, and replacing free variables by others: what is
  * needed to speak about terms opened with different variables.
  */
module Renaming {
  import opened Wrappers
  import opened Names
  import opened Exprs
  import opened Instantiate
  import opened Beta

  // Binder names and infos are forgotten: operator== compares exactly the rest
  // (src/kernel/expr_eq_fn.cpp)
  function Erase(e: Expr): Expr {
    match e
    case MVar(n, t) => MVar(n, Erase(t))
    case App(f, a) => App(Erase(f), Erase(a))
    case Binding(k, _, t, b, _) => Binding(k, [], Erase(t), Erase(b), Default)
    case Let(_, t, v, b) => Let([], Erase(t), Erase(v), Erase(b))
    case MData(m, x) => MData(m, Erase(x))
    case Proj(s, i, x) => Proj(s, i, Erase(x))
    case _ => e
  }

  // xs[i] becomes ys[i]
  function Rename(e: Expr, xs: seq<Name>, ys: seq<Name>): Expr
    requires |xs| == |ys|
  {
    match e
    case FVar(x) =>
      LastIndexMeans(x, xs);
      if LastIndex(x, xs).Some? then FVar(ys[LastIndex(x, xs).value]) else e
    case MVar(n, t) => MVar(n, Rename(t, xs, ys))
    case App(f, a) => App(Rename(f, xs, ys), Rename(a, xs, ys))
    case Binding(k, n, t, b, i) => Binding(k, n, Rename(t, xs, ys), Rename(b, xs, ys), i)
    case Let(n, t, v, b) => Let(n, Rename(t, xs, ys), Rename(v, xs, ys), Rename(b, xs, ys))
    case MData(m, x) => MData(m, Rename(x, xs, ys))
    case Proj(s, i, x) => Proj(s, i, Rename(x, xs, ys))
    case _ => e
  }

  // Closing over xs and opening with ys is renaming
  lemma {:induction false} ReopenedAt(e: Expr, o: nat, xs: seq<Name>, ys: seq<Name>, ts: Subst)
    requires |xs| == |ys| && ArePut(ts, ys) && Range(e) <= o
    ensures Replaced(Bound(e, o, xs), o, o, ts) == Rename(e, xs, ys)
    decreases e, 1
  {
    match e
    case FVar(x) => LastIndexMeans(x, xs);
    case MVar(_, t) => ReopenedAt(t, o, xs, ys, ts);
    case App(f, a) =>
      ReopenedAt(f, o, xs, ys, ts);
      ReopenedAt(a, o, xs, ys, ts);
    case Binding(_, _, _, _, _) => ReopenedAtBinding(e, o, xs, ys, ts);
    case Let(_, _, _, _) => ReopenedAtLet(e, o, xs, ys, ts);
    case MData(_, x) => ReopenedAt(x, o, xs, ys, ts);
    case Proj(_, _, x) => ReopenedAt(x, o, xs, ys, ts);
    case _ =>
  }

  lemma {:induction false} ReopenedAtBinding(e: Expr, o: nat, xs: seq<Name>, ys: seq<Name>, ts: Subst)
    requires |xs| == |ys| && ArePut(ts, ys) && Range(e) <= o && e.Binding?
    ensures Replaced(Bound(e, o, xs), o, o, ts) == Rename(e, xs, ys)
    decreases e, 0
  {
    hide ArePut, Shift, LastIndex;
    ReopenedAt(e.dom, o, xs, ys, ts);
    ReopenedAt(e.body, o + 1, xs, ys, ts);
  }

  lemma {:induction false} ReopenedAtLet(e: Expr, o: nat, xs: seq<Name>, ys: seq<Name>, ts: Subst)
    requires |xs| == |ys| && ArePut(ts, ys) && Range(e) <= o && e.Let?
    ensures Replaced(Bound(e, o, xs), o, o, ts) == Rename(e, xs, ys)
    decreases e, 0
  {
    hide ArePut, Shift, LastIndex;
    ReopenedAt(e.ltype, o, xs, ys, ts);
    ReopenedAt(e.val, o, xs, ys, ts);
    ReopenedAt(e.body, o + 1, xs, ys, ts);
  }

  lemma {:induction false} Reopened(e: Expr, xs: seq<Name>, ys: seq<Name>)
    requires |xs| == |ys| && Range(e) == 0
    ensures InstRev(Abstract(e, xs), FVars(ys)) == Rename(e, xs, ys)
  {
    AbstractIsBound(e, xs);
    InstRevIsReplaced(Bound(e, 0, xs), FVars(ys));
    ReopenedAt(e, 0, xs, ys, Reverse(FVars(ys)));
  }

  lemma {:induction false} RenameTwice(e: Expr, xs: seq<Name>, ys: seq<Name>, zs: seq<Name>)
    requires |xs| == |ys| == |zs| && Unique(ys) && Fresh(ys, e)
    ensures Rename(Rename(e, xs, ys), ys, zs) == Rename(e, xs, zs)
  {
    match e
    case FVar(x) =>
      LastIndexMeans(x, xs);
      LastIndexMeans(x, ys);
      assert x in ys ==> !Occurs(x, e);
      if LastIndex(x, xs).Some? {
        LastIndexMeans(ys[LastIndex(x, xs).value], ys);
      }
    case MVar(_, t) => RenameTwice(t, xs, ys, zs);
    case App(f, a) =>
      RenameTwice(f, xs, ys, zs);
      RenameTwice(a, xs, ys, zs);
    case Binding(_, _, t, b, _) =>
      RenameTwice(t, xs, ys, zs);
      RenameTwice(b, xs, ys, zs);
    case Let(_, t, v, b) =>
      RenameTwice(t, xs, ys, zs);
      RenameTwice(v, xs, ys, zs);
      RenameTwice(b, xs, ys, zs);
    case MData(_, x) => RenameTwice(x, xs, ys, zs);
    case Proj(_, _, x) => RenameTwice(x, xs, ys, zs);
    case _ =>
  }

  // Forgetting names commutes with renaming and closing, and keeps the loose range
  lemma {:induction false} RenameErased(e: Expr, xs: seq<Name>, ys: seq<Name>)
    requires |xs| == |ys|
    ensures Erase(Rename(e, xs, ys)) == Rename(Erase(e), xs, ys)
  {
    match e
    case MVar(_, t) => RenameErased(t, xs, ys);
    case App(f, a) =>
      RenameErased(f, xs, ys);
      RenameErased(a, xs, ys);
    case Binding(_, _, t, b, _) =>
      RenameErased(t, xs, ys);
      RenameErased(b, xs, ys);
    case Let(_, t, v, b) =>
      RenameErased(t, xs, ys);
      RenameErased(v, xs, ys);
      RenameErased(b, xs, ys);
    case MData(_, x) => RenameErased(x, xs, ys);
    case Proj(_, _, x) => RenameErased(x, xs, ys);
    case _ =>
  }

  lemma {:induction false} RenameRange(e: Expr, xs: seq<Name>, ys: seq<Name>)
    requires |xs| == |ys|
    ensures Range(Rename(e, xs, ys)) == Range(e) == Range(Erase(e))
  {
    match e
    case MVar(_, t) => RenameRange(t, xs, ys);
    case App(f, a) =>
      RenameRange(f, xs, ys);
      RenameRange(a, xs, ys);
    case Binding(_, _, t, b, _) =>
      RenameRange(t, xs, ys);
      RenameRange(b, xs, ys);
    case Let(_, t, v, b) =>
      RenameRange(t, xs, ys);
      RenameRange(v, xs, ys);
      RenameRange(b, xs, ys);
    case MData(_, x) => RenameRange(x, xs, ys);
    case Proj(_, _, x) => RenameRange(x, xs, ys);
    case _ =>
  }

  lemma {:induction false} EraseRename(e: Expr, xs: seq<Name>, ys: seq<Name>)
    requires |xs| == |ys|
    ensures Erase(Rename(e, xs, ys)) == Rename(Erase(e), xs, ys)
    ensures Range(Rename(e, xs, ys)) == Range(e) == Range(Erase(e))
  {
    RenameErased(e, xs, ys);
    RenameRange(e, xs, ys);
  }

  lemma {:induction false} EraseBound(e: Expr, o: nat, xs: seq<Name>)
    ensures Erase(Bound(e, o, xs)) == Bound(Erase(e), o, xs)
    decreases e, 1
  {
    match e
    case MVar(_, t) => EraseBound(t, o, xs);
    case App(f, a) =>
      EraseBound(f, o, xs);
      EraseBound(a, o, xs);
    case Binding(_, _, _, _, _) => EraseBoundBinding(e, o, xs);
    case Let(_, _, _, _) => EraseBoundLet(e, o, xs);
    case MData(_, x) => EraseBound(x, o, xs);
    case Proj(_, _, x) => EraseBound(x, o, xs);
    case _ =>
  }

  lemma {:induction false} EraseBoundBinding(e: Expr, o: nat, xs: seq<Name>)
    requires e.Binding?
    ensures Erase(Bound(e, o, xs)) == Bound(Erase(e), o, xs)
    decreases e, 0
  {
    EraseBound(e.dom, o, xs);
    EraseBound(e.body, o + 1, xs);
  }

  lemma {:induction false} EraseBoundLet(e: Expr, o: nat, xs: seq<Name>)
    requires e.Let?
    ensures Erase(Bound(e, o, xs)) == Bound(Erase(e), o, xs)
    decreases e, 0
  {
    EraseBound(e.ltype, o, xs);
    EraseBound(e.val, o, xs);
    EraseBound(e.body, o + 1, xs);
  }

  // ----- applications -----

  function RenameAll(es: seq<Expr>, xs: seq<Name>, ys: seq<Name>): (rs: seq<Expr>)
    requires |xs| == |ys|
    ensures |rs| == |es| && forall i :: 0 <= i < |es| ==> rs[i] == Rename(es[i], xs, ys)
  {
    if es == [] then [] else [Rename(es[0], xs, ys)] + RenameAll(es[1..], xs, ys)
  }

  lemma {:induction false} RenameApply(f: Expr, args: seq<Expr>, xs: seq<Name>, ys: seq<Name>)
    requires |xs| == |ys|
    ensures Rename(Apply(f, args), xs, ys) == Apply(Rename(f, xs, ys), RenameAll(args, xs, ys))
    decreases |args|
  {
    if args != [] {
      RenameApply(App(f, args[0]), args[1..], xs, ys);
      assert RenameAll(args, xs, ys)[1..] == RenameAll(args[1..], xs, ys);
    }
  }

  lemma {:induction false} EraseApply(f: Expr, f': Expr, args: seq<Expr>)
    requires Erase(f) == Erase(f')
    ensures Erase(Apply(f, args)) == Erase(Apply(f', args))
    decreases |args|
  {
    if args != [] {
      EraseApply(App(f, args[0]), App(f', args[0]), args[1..]);
    }
  }

  lemma {:induction false} RenameFVars(xs: seq<Name>, ys: seq<Name>)
    requires |xs| == |ys| && Unique(xs)
    ensures RenameAll(FVars(xs), xs, ys) == FVars(ys)
  {
    forall i | 0 <= i < |xs| ensures RenameAll(FVars(xs), xs, ys)[i] == FVars(ys)[i] {
      LastIndexMeans(xs[i], xs);
      assert LastIndex(xs[i], xs) == Some(i);
    }
  }
}

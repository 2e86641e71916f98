/** The state of elim_nested_inductive_fn, and the round trip through restore_nested
  * (src/kernel/inductive.cpp).
  */
module NestedTypes {
  import opened Names
  import opened Exprs
  import opened Beta
  import opened Renaming
  import opened NestedApps
  import opened NestedRestore
  import opened NestedElim

  // ----- the table of nested applications -----

  // The constant at the head of an application becomes J
  function SwapHead(e: Expr, J: Name): Expr {
    match e
    case App(f, a) => App(SwapHead(f, J), a)
    case Const(_, ls) => Const(J, ls)
    case _ => e
  }

  lemma {:induction false} SwapHeadParts(e: Expr, J: Name, K: Name)
    requires Head(e).Const?
    ensures Head(SwapHead(e, J)) == Const(J, Head(e).levels)
    ensures SwapHead(SwapHead(e, J), K) == SwapHead(e, K)
    ensures J == Head(e).id ==> SwapHead(e, J) == e
    ensures Head(Erase(e)) == Head(e) && Erase(SwapHead(e, J)) == SwapHead(Erase(e), J)
  {
    if e.App? {
      SwapHeadParts(e.fn, J, K);
    }
  }

  lemma {:induction false} SwapHeadApply(I: Name, J: Name, ls: seq<Levels.Level>, args: seq<Expr>)
    ensures SwapHead(Apply(Const(I, ls), args), J) == Apply(Const(J, ls), args)
    decreases |args|
  {
    if args != [] {
      var n := |args| - 1;
      assert args == args[..n] + [args[n]];
      ApplySnoc(Const(I, ls), args[..n], args[n]);
      ApplySnoc(Const(J, ls), args[..n], args[n]);
      SwapHeadApply(I, J, ls, args[..n]);
    }
  }

  // The names given out so far: numbered below next, all different, none in the environment
  ghost predicate GoodNames(env: Env, aux: Aux, next: nat) {
    && (forall i :: 0 <= i < |aux| ==> Numbered(aux[i].1, next) && aux[i].1 !in env)
    && (forall i, j :: 0 <= i < j < |aux| ==> aux[i].1 != aux[j].1)
  }

  ghost predicate Numbered(n: Name, next: nat) {
    exists b: Name, k: nat :: k < next && n == AppendAfter(b, k)
  }

  lemma {:induction false} NamesPush(env: Env, aux: Aux, next: nat, e: Expr, b: Name, k: nat)
    requires GoodNames(env, aux, next) && next <= k && AppendAfter(b, k) !in env
    ensures GoodNames(env, aux + [(e, AppendAfter(b, k))], k + 1)
  {
    var n := AppendAfter(b, k);
    forall i | 0 <= i < |aux| ensures aux[i].1 != n && Numbered(aux[i].1, k + 1) {
      var c: Name, j: nat :| j < next && aux[i].1 == AppendAfter(c, j);
      if aux[i].1 == n {
        AppendDiffer(c, j, b, k);
      }
    }
    assert Numbered(n, k + 1);
  }

  // Entry i applies an inductive type, and for each type of its family there is an entry
  // with the same arguments
  ghost predicate InFamily(env: Env, aux: Aux, i: nat)
    requires i < |aux|
  {
    && Head(aux[i].0).Const? && Head(aux[i].0).id in env && env[Head(aux[i].0).id].Inductive?
    && forall J :: J in env[Head(aux[i].0).id].all ==> Recorded(aux, SwapHead(Erase(aux[i].0), J))
  }

  ghost predicate Recorded(aux: Aux, x: Expr) {
    exists j :: 0 <= j < |aux| && Erase(aux[j].0) == x
  }

  ghost predicate Table(env: Env, aux: Aux, next: nat) {
    && GoodNames(env, aux, next)
    && (forall i :: 0 <= i < |aux| ==> InFamily(env, aux, i))
    && (forall i, j :: 0 <= i < j < |aux| ==> Erase(aux[i].0) != Erase(aux[j].0))
  }

  // The entries for the family of I, added when I was not there
  ghost predicate Family(env: Env, I: Name, x: Expr, more: Aux, n: nat)
    requires I in env && env[I].Inductive? && n <= |env[I].all|
  {
    |more| == n && forall t :: 0 <= t < n ==> Head(more[t].0).Const? && Erase(more[t].0) == SwapHead(x, env[I].all[t])
  }

  lemma FamilyNew(env: Env, aux: Aux, next: nat, I: Name, x: Expr, J: Name)
    requires GoodEnv(env) && Table(env, aux, next) && I in env && env[I].Inductive? && J in env[I].all
    requires Head(x).Const? && Head(x).id == I && !Recorded(aux, x)
    ensures !Recorded(aux, SwapHead(x, J))
  {
    assert GoodFamily(env, I);
    SwapHeadParts(x, J, I);
    forall i | 0 <= i < |aux| ensures Erase(aux[i].0) != SwapHead(x, J) {
      assert InFamily(env, aux, i);
      SwapHeadParts(aux[i].0, I, I);
      SwapHeadParts(x, I, I);
      var y := Erase(aux[i].0);
      assert Head(y).id == J ==> I in env[J].all && Recorded(aux, SwapHead(y, I));
      assert SwapHead(y, I) == x ==> !Recorded(aux, SwapHead(y, I));
    }
  }

  lemma {:induction false} FamilyAdded(env: Env, aux: Aux, more: Aux, next: nat, next': nat, I: Name, x: Expr)
    requires GoodEnv(env) && Table(env, aux, next) && I in env && env[I].Inductive?
    requires Head(x).Const? && Head(x).id == I && !Recorded(aux, x)
    requires Family(env, I, x, more, |env[I].all|) && GoodNames(env, aux + more, next')
    ensures Table(env, aux + more, next')
  {
    hide Erase, Recorded, GoodFamily;
    var aux' := aux + more;
    FamilyTogether(env, aux, more, next, I, x);
    forall i, j | 0 <= i < j < |aux'| ensures Erase(aux'[i].0) != Erase(aux'[j].0) {
      if j >= |aux| {
        FamilyApart(env, aux, more, next, I, x, i, j - |aux|);
      }
    }
  }

  lemma FamilyTogether(env: Env, aux: Aux, more: Aux, next: nat, I: Name, x: Expr)
    requires GoodEnv(env) && Table(env, aux, next) && I in env && env[I].Inductive?
    requires Head(x).Const? && Head(x).id == I && Family(env, I, x, more, |env[I].all|)
    ensures forall i :: 0 <= i < |aux + more| ==> InFamily(env, aux + more, i)
  {
    hide Erase, Recorded;
    assert GoodFamily(env, I);
    forall i | 0 <= i < |aux + more| ensures InFamily(env, aux + more, i) {
      if i < |aux| {
        assert InFamily(env, aux, i);
        RecordedMore(aux, more);
      } else {
        FamilyMember(env, aux, more, I, x, i - |aux|);
      }
    }
  }

  // A new entry differs from those before it
  lemma FamilyApart(env: Env, aux: Aux, more: Aux, next: nat, I: Name, x: Expr, i: nat, u: nat)
    requires GoodEnv(env) && Table(env, aux, next) && I in env && env[I].Inductive?
    requires Head(x).Const? && Head(x).id == I && !Recorded(aux, x)
    requires Family(env, I, x, more, |env[I].all|) && u < |more| && i < |aux| + u
    ensures Erase((aux + more)[i].0) != Erase(more[u].0)
  {
    hide Erase, SwapHead, Head;
    var all := env[I].all;
    assert GoodFamily(env, I);
    assert all[u] in all;
    FamilyNew(env, aux, next, I, x, all[u]);
    SwapHeadParts(x, all[u], I);
    if i >= |aux| {
      SwapHeadParts(x, all[i - |aux|], I);
    } else {
      assert Erase(aux[i].0) != SwapHead(x, all[u]);
    }
  }

  lemma RecordedMore(aux: Aux, more: Aux)
    ensures forall y :: Recorded(aux, y) ==> Recorded(aux + more, y)
  {
    forall y | Recorded(aux, y) ensures Recorded(aux + more, y) {
      var j :| 0 <= j < |aux| && Erase(aux[j].0) == y;
      assert (aux + more)[j] == aux[j];
    }
  }

  lemma {:induction false} FamilyMember(env: Env, aux: Aux, more: Aux, I: Name, x: Expr, t: nat)
    requires KnownFamily(env, I) && Head(x).Const? && t < |more| && Family(env, I, x, more, |env[I].all|)
    ensures InFamily(env, aux + more, |aux| + t)
  {
    var all := env[I].all;
    var aux' := aux + more;
    assert aux'[|aux| + t] == more[t] && all[t] in all;
    SwapHeadParts(x, all[t], I);
    SwapHeadParts(more[t].0, I, I);
    forall J | J in all ensures Recorded(aux', SwapHead(Erase(more[t].0), J)) {
      var u :| 0 <= u < |all| && all[u] == J;
      SwapHeadParts(x, all[t], J);
      assert aux'[|aux| + u] == more[u];
    }
  }

  ghost predicate KnownFamily(env: Env, I: Name) {
    I in env && env[I].Inductive? && GoodFamily(env, I)
  }

  lemma {:induction false} RenamedApply(I: Name, ls: seq<Levels.Level>, args: seq<Expr>, As: seq<Name>, ps: seq<Name>)
    requires |As| == |ps| && RangeAll(args) == 0
    ensures Range(Apply(Const(I, ls), args)) == 0
    ensures Reparam(Apply(Const(I, ls), args), As, ps) == Apply(Const(I, ls), RenameAll(args, As, ps))
    ensures Reparam(Apply(Const(I, ls), args), As, ps) == Rename(Apply(Const(I, ls), args), As, ps)
  {
    ApplyRangeAll(Const(I, ls), args);
    Reopened(Apply(Const(I, ls), args), As, ps);
    RenameApply(Const(I, ls), args, As, ps);
  }

  // The entry for J is that for I with another head
  lemma {:induction false} MemberEntry(I: Name, J: Name, ls: seq<Levels.Level>, args: seq<Expr>, As: seq<Name>,
                                       ps: seq<Name>)
    requires |As| == |ps| && RangeAll(args) == 0
    ensures var x, y := Reparam(Apply(Const(I, ls), args), As, ps), Reparam(Apply(Const(J, ls), args), As, ps);
      Head(y).Const? && Head(Erase(x)) == Const(I, ls) && Erase(y) == SwapHead(Erase(x), J)
  {
    var args' := RenameAll(args, As, ps);
    RenamedApply(I, ls, args, As, ps);
    RenamedApply(J, ls, args, As, ps);
    ArgsApply(Const(I, ls), args');
    ArgsApply(Const(J, ls), args');
    SwapHeadApply(I, J, ls, args');
    SwapHeadParts(Apply(Const(I, ls), args'), J, J);
  }

  // ----- entries are nested applications -----

  lemma {:induction false} MentionsErase(ids: set<Name>, e: Expr)
    ensures Mentions(ids, Erase(e)) == Mentions(ids, e)
  {
    match e
    case MVar(_, t) => MentionsErase(ids, t);
    case App(f, a) =>
      MentionsErase(ids, f);
      MentionsErase(ids, a);
    case Binding(_, _, t, b, _) =>
      MentionsErase(ids, t);
      MentionsErase(ids, b);
    case Let(_, t, v, b) =>
      MentionsErase(ids, t);
      MentionsErase(ids, v);
      MentionsErase(ids, b);
    case MData(_, x) => MentionsErase(ids, x);
    case Proj(_, _, x) => MentionsErase(ids, x);
    case _ =>
  }

  lemma {:induction false} MentionsRename(ids: set<Name>, e: Expr, xs: seq<Name>, ys: seq<Name>)
    requires |xs| == |ys|
    ensures Mentions(ids, Rename(e, xs, ys)) == Mentions(ids, e)
  {
    match e
    case MVar(_, t) => MentionsRename(ids, t, xs, ys);
    case App(f, a) =>
      MentionsRename(ids, f, xs, ys);
      MentionsRename(ids, a, xs, ys);
    case Binding(_, _, t, b, _) =>
      MentionsRename(ids, t, xs, ys);
      MentionsRename(ids, b, xs, ys);
    case Let(_, t, v, b) =>
      MentionsRename(ids, t, xs, ys);
      MentionsRename(ids, v, xs, ys);
      MentionsRename(ids, b, xs, ys);
    case MData(_, x) => MentionsRename(ids, x, xs, ys);
    case Proj(_, _, x) => MentionsRename(ids, x, xs, ys);
    case _ =>
  }

  lemma {:induction false} ArgsErase(e: Expr)
    ensures |Args(Erase(e))| == |Args(e)| && forall i :: 0 <= i < |Args(e)| ==> Args(Erase(e))[i] == Erase(Args(e)[i])
  {
    if e.App? {
      ArgsErase(e.fn);
    }
  }

  // Being nested does not depend on binder names
  lemma {:induction false} NestedErase(env: Env, ids: set<Name>, x: Expr, y: Expr)
    requires IsNested(env, ids, x) && Erase(x) == Erase(y) && Head(y).Const?
    ensures IsNested(env, ids, y)
  {
    SwapHeadParts(x, [], []);
    SwapHeadParts(y, [], []);
    ArgsErase(x);
    ArgsErase(y);
    var i :| 0 <= i < env[Head(x).id].nparams && Mentions(ids, Args(x)[i]);
    MentionsErase(ids, Args(x)[i]);
    MentionsErase(ids, Args(y)[i]);
  }

  // The entry for a member of the family is nested as the application for I is
  lemma {:induction false} MemberNested(env: Env, ids: set<Name>, I: Name, J: Name, ls: seq<Levels.Level>,
                                        args: seq<Expr>, As: seq<Name>, ps: seq<Name>)
    requires |As| == |ps| && RangeAll(args) == 0 && KnownFamily(env, I) && J in env[I].all
    requires |args| == env[I].nparams && IsNested(env, ids, Apply(Const(I, ls), args))
    ensures IsNested(env, ids, Reparam(Apply(Const(J, ls), args), As, ps))
    ensures Range(Reparam(Apply(Const(J, ls), args), As, ps)) == 0
  {
    var args' := RenameAll(args, As, ps);
    RenamedApply(J, ls, args, As, ps);
    RenameRange(Apply(Const(J, ls), args), As, ps);
    ApplyNested(env, ids, I, ls, args);
    var i :| 0 <= i < env[I].nparams && Mentions(ids, args[i]);
    MentionsRename(ids, args[i], As, ps);
    ApplyNested(env, ids, J, ls, args');
    assert Mentions(ids, args'[i]);
  }

  lemma ApplyNested(env: Env, ids: set<Name>, I: Name, ls: seq<Levels.Level>, args: seq<Expr>)
    requires I in env && env[I].Inductive? && |args| == env[I].nparams
    ensures IsNested(env, ids, Apply(Const(I, ls), args)) <==> exists i :: 0 <= i < |args| && Mentions(ids, args[i])
  {
    ArgsApply(Const(I, ls), args);
    assert Args(Apply(Const(I, ls), args)) == args;
  }

  // What is replaced by an entry for a nested application is nested
  lemma HitNested(aux: Aux, c: Context, e: Expr, r: Expr, i: nat, k: nat, ids: set<Name>)
    requires Hit(aux, c, e, r, i, k) && IsNested(c.env, ids, aux[i].0)
    ensures IsNested(c.env, ids, e)
  {
    hide IsNested, Erase, RenameAll;
    var d := Nested(e, k);
    ArgsApply(Head(e), Args(e)[..k]);
    RenameHead(d, c.As, c.params);
    NestedErase(c.env, ids, aux[i].0, Rename(d, c.As, c.params));
    NestedRename(c.env, ids, d, c.As, c.params);
    NestedWhole(c.env, ids, e, k);
  }

  lemma {:induction false} NestedRename(env: Env, ids: set<Name>, e: Expr, xs: seq<Name>, ys: seq<Name>)
    requires |xs| == |ys| && Head(e).Const? && IsNested(env, ids, Rename(e, xs, ys))
    ensures IsNested(env, ids, e)
  {
    hide Mentions;
    RenameHead(e, xs, ys);
    RenameArgs(e, xs, ys);
    var j :| 0 <= j < env[Head(e).id].nparams && Mentions(ids, Args(Rename(e, xs, ys))[j]);
    MentionsRename(ids, Args(e)[j], xs, ys);
  }

  lemma NestedWhole(env: Env, ids: set<Name>, e: Expr, k: nat)
    requires Candidate(env, e) && k == env[Head(e).id].nparams && IsNested(env, ids, Nested(e, k))
    ensures IsNested(env, ids, e)
  {
    ArgsApply(Head(e), Args(e)[..k]);
    assert Args(Nested(e, k)) == Args(e)[..k];
  }
}

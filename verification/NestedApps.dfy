/** The environment, and the applications in a term that are nested with respect to the types
  * in the queue (is_nested_inductive_app in src/kernel/inductive.cpp).
  */
module NestedApps {
  import opened Names
  import opened Exprs
  import opened Subterms
  import opened Instantiate
  import opened Beta

  // ----- the environment -----

  datatype Info =
    | Inductive(nparams: nat, all: seq<Name>, ctors: seq<Name>, itype: Expr, lparams: seq<Name>)
    | Constructor(ctype: Expr, lparams: seq<Name>)
    | Other

  type Env = map<Name, Info>

  datatype InductiveType = InductiveType(id: Name, itype: Expr, ctors: seq<(Name, Expr)>)

  // What the kernel keeps true of its environment: the types of a mutual family know each
  // other, have the same parameters and different names; their constructors are there
  ghost predicate GoodEnv(env: Env) {
    forall I :: I in env && env[I].Inductive? ==> GoodFamily(env, I)
  }

  ghost predicate GoodFamily(env: Env, I: Name)
    requires I in env && env[I].Inductive?
  {
    && I in env[I].all && Unique(env[I].all)
    && (forall J :: J in env[I].all ==>
          J in env && env[J].Inductive? && env[J].all == env[I].all && env[J].nparams == env[I].nparams)
    && (forall C :: C in env[I].ctors ==> C in env && env[C].Constructor?)
  }

  // The names of the types in the queue
  function TypeIds(types: seq<InductiveType>): set<Name> {
    set t | t in types :: t.id
  }

  lemma IdsMore(types: seq<InductiveType>, types': seq<InductiveType>)
    requires types <= types'
    ensures TypeIds(types) <= TypeIds(types')
  {
    forall t | t in types ensures t in types' {
      var i :| 0 <= i < |types| && types[i] == t;
      assert types'[i] == t;
    }
  }

  // Processing a type keeps its name
  lemma IdsUpdate(types: seq<InductiveType>, q: nat, t: InductiveType)
    requires q < |types| && t.id == types[q].id
    ensures TypeIds(types[q := t]) == TypeIds(types)
  {
    var types' := types[q := t];
    forall n | n in TypeIds(types) ensures n in TypeIds(types') {
      var i :| 0 <= i < |types| && types[i].id == n;
      assert types'[i] in types' && types'[i].id == n;
    }
    forall n | n in TypeIds(types') ensures n in TypeIds(types) {
      var i :| 0 <= i < |types'| && types'[i].id == n;
      assert types[i] in types && types[i].id == n;
    }
  }

  // ----- is_nested_inductive_app -----

  // find: some constant of e is one of the types
  predicate Mentions(ids: set<Name>, e: Expr) {
    match e
    case Const(n, _) => n in ids
    case MVar(_, t) => Mentions(ids, t)
    case App(f, a) => Mentions(ids, f) || Mentions(ids, a)
    case Binding(_, _, t, b, _) => Mentions(ids, t) || Mentions(ids, b)
    case Let(_, t, v, b) => Mentions(ids, t) || Mentions(ids, v) || Mentions(ids, b)
    case MData(_, x) => Mentions(ids, x)
    case Proj(_, _, x) => Mentions(ids, x)
    case _ => false
  }

  // A constant with one of the names stands at the position
  predicate NamedAt(ids: set<Name>, e: Expr, path: Path) {
    match At(e, path)
    case None => false
    case Some(q) => q.0.Const? && q.0.id in ids
  }

  lemma {:induction false} NamedPath(ids: set<Name>, e: Expr) returns (path: Path)
    requires Mentions(ids, e)
    ensures NamedAt(ids, e, path)
    decreases e, 0
  {
    match e
    case Const(_, _) => path := [];
    case MVar(_, t) => path := NamedUnder(ids, e, 0);
    case App(f, a) => path := NamedUnder(ids, e, if Mentions(ids, f) then 0 else 1);
    case Binding(_, _, t, _, _) => path := NamedUnder(ids, e, if Mentions(ids, t) then 0 else 1);
    case Let(_, t, v, _) =>
      path := NamedUnder(ids, e, if Mentions(ids, t) then 0 else if Mentions(ids, v) then 1 else 2);
    case MData(_, x) => path := NamedUnder(ids, e, 0);
    case Proj(_, _, x) => path := NamedUnder(ids, e, 0);
  }

  lemma {:induction false} NamedUnder(ids: set<Name>, e: Expr, k: nat) returns (path: Path)
    requires Part(e, k).Some? && Mentions(ids, Part(e, k).value.0)
    ensures NamedAt(ids, e, path)
    decreases Part(e, k).value.0, 1
  {
    path := NamedPath(ids, Part(e, k).value.0);
    AtUnder(e, k, path);
    path := [k] + path;
  }

  lemma {:induction false} NamedMentions(ids: set<Name>, e: Expr, path: Path)
    requires NamedAt(ids, e, path)
    ensures Mentions(ids, e)
    decreases |path|
  {
    if path != [] {
      NamedMentions(ids, Part(e, path[0]).value.0, path[1..]);
    }
  }

  // The search succeeds if and only if at some position there is a constant with such a name
  lemma MentionsMeans(ids: set<Name>, e: Expr)
    ensures Mentions(ids, e) <==> exists path :: NamedAt(ids, e, path)
  {
    if Mentions(ids, e) {
      var path := NamedPath(ids, e);
    }
    forall path | NamedAt(ids, e, path) ensures Mentions(ids, e) {
      NamedMentions(ids, e, path);
    }
  }

  // e applies a known inductive type to at least its parameters
  predicate Candidate(env: Env, e: Expr) {
    e.App? && Head(e).Const? && Head(e).id in env && env[Head(e).id].Inductive? && env[Head(e).id].nparams <= |Args(e)|
  }

  predicate IsNested(env: Env, ids: set<Name>, e: Expr) {
    Candidate(env, e) && exists i :: 0 <= i < env[Head(e).id].nparams && Mentions(ids, Args(e)[i])
  }

  // e is I Ds is, for an inductive type I, and some parameter in Ds has a constant that names a
  // type of the queue
  ghost predicate NestedAs(env: Env, ids: set<Name>, e: Expr, I: Name, ls: seq<Levels.Level>, Ds: seq<Expr>,
                           rest: seq<Expr>)
  {
    && I in env && env[I].Inductive? && |Ds| == env[I].nparams && e == Apply(Apply(Const(I, ls), Ds), rest)
    && exists i, path :: 0 <= i < |Ds| && NamedAt(ids, Ds[i], path)
  }

  lemma NestedMeans(env: Env, ids: set<Name>, e: Expr)
    ensures IsNested(env, ids, e) <==> exists I, ls, Ds, rest :: NestedAs(env, ids, e, I, ls, Ds, rest)
  {
    if IsNested(env, ids, e) {
      NestedParts(env, ids, e);
    }
    forall I, ls, Ds, rest | NestedAs(env, ids, e, I, ls, Ds, rest) ensures IsNested(env, ids, e) {
      PartsNested(env, ids, e, I, ls, Ds, rest);
    }
  }

  lemma NestedParts(env: Env, ids: set<Name>, e: Expr)
    requires IsNested(env, ids, e)
    ensures var k := env[Head(e).id].nparams;
      NestedAs(env, ids, e, Head(e).id, Head(e).levels, Args(e)[..k], Args(e)[k..])
  {
    var k := env[Head(e).id].nparams;
    ApplyArgs(e);
    ApplyConcat(Head(e), Args(e)[..k], Args(e)[k..]);
    assert Args(e) == Args(e)[..k] + Args(e)[k..];
    var i :| 0 <= i < k && Mentions(ids, Args(e)[i]);
    var path := NamedPath(ids, Args(e)[i]);
    assert NamedAt(ids, Args(e)[..k][i], path);
  }

  lemma {:induction false} PartsNested(env: Env, ids: set<Name>, e: Expr, I: Name, ls: seq<Levels.Level>, Ds: seq<Expr>,
                                       rest: seq<Expr>)
    requires NestedAs(env, ids, e, I, ls, Ds, rest)
    ensures IsNested(env, ids, e)
  {
    ArgsApply(Const(I, ls), Ds);
    ArgsApply(Apply(Const(I, ls), Ds), rest);
    var i, path :| 0 <= i < |Ds| && NamedAt(ids, Ds[i], path);
    NamedMentions(ids, Ds[i], path);
    assert Args(e)[i] == Ds[i];
  }

  // What is not nested is not the head of something nested
  lemma NotNestedFn(env: Env, ids: set<Name>, e: Expr)
    requires e.App? && !IsNested(env, ids, e)
    ensures !IsNested(env, ids, e.fn)
  {
    if Candidate(env, e.fn) {
      assert Candidate(env, e);
      assert forall i :: 0 <= i < |Args(e.fn)| ==> Args(e.fn)[i] == Args(e)[i];
    }
  }

  // More types in the queue make more applications nested
  lemma {:induction false} MentionsMore(ids: set<Name>, ids': set<Name>, e: Expr)
    requires Mentions(ids, e) && ids <= ids'
    ensures Mentions(ids', e)
  {
    match e
    case MVar(_, t) => MentionsMore(ids, ids', t);
    case App(f, a) => MentionsMore(ids, ids', if Mentions(ids, f) then f else a);
    case Binding(_, _, t, b, _) => MentionsMore(ids, ids', if Mentions(ids, t) then t else b);
    case Let(_, t, v, b) => MentionsMore(ids, ids', if Mentions(ids, t) then t else if Mentions(ids, v) then v else b);
    case MData(_, x) => MentionsMore(ids, ids', x);
    case Proj(_, _, x) => MentionsMore(ids, ids', x);
    case _ =>
  }

  lemma NestedMore(env: Env, ids: set<Name>, ids': set<Name>, e: Expr)
    requires IsNested(env, ids, e) && ids <= ids'
    ensures IsNested(env, ids', e)
  {
    var i :| 0 <= i < env[Head(e).id].nparams && Mentions(ids, Args(e)[i]);
    MentionsMore(ids, ids', Args(e)[i]);
  }
}

/** elim_nested_inductive_fn as an object: auxiliary types are created as nested applications
  * are met, until the whole queue of types is free of them (src/kernel/inductive.cpp).
  */
module NestedInductive {
  import opened Wrappers
  import opened Names
  import opened Exprs
  import opened Instantiate
  import opened Beta
  import opened InferApp
  import opened LocalContexts
  import opened Renaming
  import opened NestedApps
  import opened NestedRestore
  import opened NestedRecursors
  import opened NestedElim
  import opened NestedTypes
  import opened NestedClosed

  // ----- what becomes of a type in the queue -----

  // t' is t with the nested applications in its body replaced
  ghost predicate EliminatedBy(aux: Aux, c: Context, t: Expr, t': Expr, b: Expr, elim: Expr) {
    var n := |c.params|;
    && n <= Depth(Pi, t) && |c.As| == n && Unique(c.As) && Unique(c.params)
    && Abstract(b, c.As) == Inner(Pi, t, n) && b == InstRev(Inner(Pi, t, n), FVars(c.As))
    && Range(b) == 0 && Range(elim) == 0 && Fresh(c.params, b)
    && Encodes(aux, c, b, elim)
    && t' == WithInner(Pi, t, n, Abstract(elim, c.As))
  }

  // For some parameters As
  ghost predicate Eliminated(aux: Aux, c: Context, t: Expr, t': Expr) {
    exists As, b, elim :: EliminatedBy(aux, c.(As := As), t, t', b, elim)
  }

  ghost predicate AllEliminated(aux: Aux, c: Context, cs: seq<(Name, Expr)>, cs': seq<(Name, Expr)>) {
    |cs'| == |cs| && forall i :: 0 <= i < |cs| ==> cs'[i].0 == cs[i].0 && Eliminated(aux, c, cs[i].1, cs'[i].1)
  }

  ghost predicate Processed(aux: Aux, c: Context, a: InductiveType, a': InductiveType) {
    a'.id == a.id && a'.itype == a.itype && AllEliminated(aux, c, a.ctors, a'.ctors)
  }

  lemma {:induction false} EliminatedMore(aux: Aux, aux': Aux, c: Context, c': Context, t: Expr, t': Expr)
    requires Eliminated(aux, c, t, t') && Later(aux, aux', c, c')
    ensures Eliminated(aux', c', t, t')
  {
    var As, b, elim :| EliminatedBy(aux, c.(As := As), t, t', b, elim);
    EncodesMore(aux, aux', c.(As := As), c'.(As := As), b, elim);
    assert EliminatedBy(aux', c'.(As := As), t, t', b, elim);
  }

  lemma {:induction false} ProcessedMore(aux: Aux, aux': Aux, c: Context, c': Context, a: InductiveType,
                                         a': InductiveType)
    requires Processed(aux, c, a, a') && Later(aux, aux', c, c')
    ensures Processed(aux', c', a, a')
  {
    forall i | 0 <= i < |a.ctors| ensures Eliminated(aux', c', a.ctors[i].1, a'.ctors[i].1) {
      EliminatedMore(aux, aux', c, c', a.ctors[i].1, a'.ctors[i].1);
    }
  }

  lemma {:induction false} AllEliminatedNext(aux: Aux, aux': Aux, c: Context, c': Context, cs: seq<(Name, Expr)>,
                                             i: nat, cs': seq<(Name, Expr)>, t: Expr)
    requires i < |cs| && AllEliminated(aux, c', cs[..i], cs') && aux <= aux'
    requires c'.ids <= c.ids && c' == c.(ids := c'.ids) && Eliminated(aux', c, cs[i].1, t)
    ensures AllEliminated(aux', c', cs[..i + 1], cs' + [(cs[i].0, t)])
  {
    hide EliminatedBy, Later;
    EliminatedMore(aux', aux', c, c', cs[i].1, t);
    forall j | 0 <= j < i ensures Eliminated(aux', c', cs[j].1, cs'[j].1) {
      assert cs[..i][j] == cs[j];
      EliminatedMore(aux, aux', c', c', cs[j].1, cs'[j].1);
    }
  }

  // ----- the state -----

  // What has the type T, applied to ps, has the type ty: argument by argument, and without
  // reducing anything
  ghost predicate AppliedType(T: Expr, ps: seq<Expr>, ty: Expr) {
    forall whnf: Whnf :: TypeOfApp(whnf, T, ps) == Ok(ty)
  }

  // r is that type under the parameters As of the constructor type t
  ghost predicate Special(t: Expr, As: seq<Name>, T: Expr, ps: seq<Expr>, r: Expr) {
    && |ps| <= Depth(Pi, T) && |As| <= Depth(Pi, t)
    && exists ty :: AppliedType(T, ps, ty) && r == WithInner(Pi, t, |As|, Abstract(ty, As))
  }

  // instantiate_pi_params leaves the type of the application
  lemma {:induction false} AppliedFrom(whnf: Whnf, T: Expr, before: seq<Expr>, ps: seq<Expr>)
    requires |ps| <= Depth(Pi, T)
    ensures TypeOfApp(whnf, InstRev(T, before), ps) == Ok(InstRev(Inner(Pi, T, |ps|), before + ps))
    decreases |ps|
  {
    hide InstRev, Inst;
    if ps == [] {
      assert before + ps == before;
    } else {
      PendingBinder(T, before, ps[0]);
      AppliedFrom(whnf, T.body, before + [ps[0]], ps[1..]);
      assert before + [ps[0]] + ps[1..] == before + ps;
    }
  }

  lemma {:induction false} AppliedParams(T: Expr, ps: seq<Expr>)
    requires |ps| <= Depth(Pi, T)
    ensures AppliedType(T, ps, InstRev(Inner(Pi, T, |ps|), ps))
    ensures forall ty :: AppliedType(T, ps, ty) ==> ty == InstRev(Inner(Pi, T, |ps|), ps)
  {
    hide InstRev;
    var ty0 := InstRev(Inner(Pi, T, |ps|), ps);
    NothingPending(T);
    assert [] + ps == ps;
    forall whnf: Whnf ensures TypeOfApp(whnf, T, ps) == Ok(ty0) {
      AppliedFrom(whnf, T, [], ps);
    }
    var stuck: Whnf := _ => Err(FunctionExpected);
    assert TypeOfApp(stuck, T, ps) == Ok(ty0);
    assert forall ty :: AppliedType(T, ps, ty) ==> TypeOfApp(stuck, T, ps) == Ok(ty);
  }

  lemma {:induction false} SpecialMeans(t: Expr, As: seq<Name>, T: Expr, ps: seq<Expr>, r: Expr)
    requires |ps| <= Depth(Pi, T) && |As| <= Depth(Pi, t)
    ensures Special(t, As, T, ps, r) <==>
      r == WithInner(Pi, t, |As|, Abstract(InstRev(Inner(Pi, T, |ps|), ps), As))
  {
    hide InstRev, Abstract, AppliedType;
    AppliedParams(T, ps);
  }

  type InstLParams = (Expr, seq<Name>, seq<Levels.Level>) -> Expr

  // Types of the environment are closed, whatever levels they are instantiated with
  ghost predicate ClosedEnv(env: Env, inst: InstLParams) {
    && (forall C, ls :: C in env && env[C].Constructor? ==> ClosedType(inst(env[C].ctype, env[C].lparams, ls)))
    && (forall J, ls :: J in env && env[J].Inductive? ==> ClosedType(inst(env[J].itype, env[J].lparams, ls)))
  }

  ghost predicate ClosedType(e: Expr) {
    Range(e) == 0 && forall x :: !Occurs(x, e)
  }

  // Opened with the parameters, the copy has the type of the application
  lemma {:induction false} SpecialOpened(t: Expr, As: seq<Name>, T: Expr, ps: seq<Expr>, r: Expr)
    requires Special(t, As, T, ps, r) && ClosedType(T) && RangeAll(ps) == 0
    ensures |As| <= Depth(Pi, r) && AppliedType(T, ps, InstRev(Inner(Pi, r, |As|), FVars(As)))
  {
    hide InstRev, Abstract, AppliedType, Occurs;
    var raw := Inner(Pi, T, |ps|);
    var body := InstRev(raw, ps);
    SpecialMeans(t, As, T, ps, r);
    AppliedParams(T, ps);
    InnerDepth(Pi, T, |ps|);
    AllClosed(ps);
    OpenedParts(raw, ps, []);
    InnerWithInner(Pi, t, |As|, Abstract(body, As));
    OpenClose(body, As);
  }

  // It is closed, and has no free variables that t has not
  lemma {:induction false} SpecialClosed(t: Expr, As: seq<Name>, T: Expr, ps: seq<Expr>, r: Expr)
    requires Special(t, As, T, ps, r) && Range(t) == 0 && ClosedType(T)
    requires RangeAll(ps) == 0 && AllInScope(ps, As, t)
    ensures Range(r) == 0 && forall x :: Occurs(x, r) ==> Occurs(x, t)
  {
    hide InstRev, Abstract, AppliedType, Inner, WithInner, Bound, Range, Occurs, AllInScope, ClosedTerms;
    SpecialMeans(t, As, T, ps, r);
    var raw := Inner(Pi, T, |ps|);
    var body := InstRev(raw, ps);
    InnerDepth(Pi, T, |ps|);
    AllClosed(ps);
    OpenedParts(raw, ps, []);
    AbstractIsBound(body, As);
    BoundRange(body, 0, As);
    WithInnerParts(t, |As|, Abstract(body, As), 0);
    forall x | !Occurs(x, t) ensures !Occurs(x, r) {
      SpecialFresh(t, As, T, ps, x);
    }
  }

  lemma SpecialFresh(t: Expr, As: seq<Name>, T: Expr, ps: seq<Expr>, x: Name)
    requires |ps| <= Depth(Pi, T) && ClosedType(T) && RangeAll(ps) == 0 && AllInScope(ps, As, t) && !Occurs(x, t)
    ensures !Occurs(x, Abstract(InstRev(Inner(Pi, T, |ps|), ps), As))
  {
    var raw := Inner(Pi, T, |ps|);
    var body := InstRev(raw, ps);
    InnerDepth(Pi, T, |ps|);
    AllClosed(ps);
    AbstractIsBound(body, As);
    if x !in As {
      assert forall i :: 0 <= i < |ps| ==> InScope(ps[i], As, t);
      OpenedParts(raw, ps, x);
    }
    BoundFresh(body, 0, As, x);
  }

  lemma {:induction false} AllClosed(ps: seq<Expr>)
    requires RangeAll(ps) == 0
    ensures ClosedTerms(ps)
  {
    if ps != [] {
      AllClosed(ps[1..]);
      assert forall i :: 1 <= i < |ps| ==> ps[i] == ps[1..][i - 1];
    }
  }

  // lctx holds the parameters As of the constructor type t
  ghost predicate Under(ds: Decls, As: seq<Name>, t: Expr, n: nat) {
    |As| == n <= Depth(Pi, t) && Declared(Pi, ds, As, t, n) && Unique(As)
  }

  // The free variables of e are parameters, or occur in t
  ghost predicate InScope(e: Expr, As: seq<Name>, t: Expr) {
    forall x :: Occurs(x, e) ==> x in As || Occurs(x, t)
  }

  ghost predicate AllInScope(es: seq<Expr>, As: seq<Name>, t: Expr) {
    forall i :: 0 <= i < |es| ==> InScope(es[i], As, t)
  }

  lemma ScopeParts(e: Expr, As: seq<Name>, t: Expr)
    requires InScope(e, As, t)
    ensures match e
      case MVar(_, x) => InScope(x, As, t)
      case App(f, a) => InScope(f, As, t) && InScope(a, As, t)
      case Binding(_, _, d, b, _) => InScope(d, As, t) && InScope(b, As, t)
      case Let(_, d, v, b) => InScope(d, As, t) && InScope(v, As, t) && InScope(b, As, t)
      case MData(_, x) => InScope(x, As, t)
      case Proj(_, _, x) => InScope(x, As, t)
      case _ => true
  {
  }

  lemma ScopeArgs(e: Expr, As: seq<Name>, t: Expr, k: nat)
    requires InScope(e, As, t) && k <= |Args(e)|
    ensures AllInScope(Args(e)[..k], As, t)
  {
    forall i, x | 0 <= i < k && !Occurs(x, e) ensures !Occurs(x, Args(e)[i]) {
      OccursArgs(x, e);
    }
  }

  // After the first `declared` types come those of the entries
  ghost predicate TypesFor(types: seq<InductiveType>, declared: nat, aux: Aux) {
    |types| == declared + |aux| && forall i :: 0 <= i < |aux| ==> types[declared + i].id == aux[i].1
  }

  // Each entry is a closed nested application
  ghost predicate AllNested(env: Env, ids: set<Name>, aux: Aux) {
    forall i :: 0 <= i < |aux| ==> IsNested(env, ids, aux[i].0) && Range(aux[i].0) == 0
  }

  lemma AllNestedPush(env: Env, types: seq<InductiveType>, types': seq<InductiveType>, aux: Aux, entry: (Expr, Name))
    requires AllNested(env, TypeIds(types), aux) && types <= types'
    requires IsNested(env, TypeIds(types), entry.0) && Range(entry.0) == 0
    ensures AllNested(env, TypeIds(types'), aux + [entry])
  {
    IdsMore(types, types');
    NestedMore(env, TypeIds(types), TypeIds(types'), entry.0);
    forall i | 0 <= i < |aux| ensures IsNested(env, TypeIds(types'), aux[i].0) && Range(aux[i].0) == 0 {
      NestedMore(env, TypeIds(types), TypeIds(types'), aux[i].0);
    }
  }

  // aux0 is followed by the entries for the first t members; `result` is that for I
  ghost predicate Adding(env: Env, aux0: Aux, aux: Aux, I: Name, x: Expr, t: nat, result: nat)
    requires I in env && env[I].Inductive? && t <= |env[I].all|
  {
    && aux0 <= aux && Family(env, I, x, aux[|aux0|..], t)
    && (I in env[I].all[..t] ==> result < |aux| && Erase(aux[result].0) == x)
  }

  lemma {:induction false} AddingNext(env: Env, aux0: Aux, aux: Aux, I: Name, x: Expr, t: nat, result: nat,
                                      entry: (Expr, Name))
    requires I in env && env[I].Inductive? && t < |env[I].all| && Adding(env, aux0, aux, I, x, t, result)
    requires Head(x).Const? && Head(x).id == I
    requires Head(entry.0).Const? && Erase(entry.0) == SwapHead(x, env[I].all[t])
    ensures Adding(env, aux0, aux + [entry], I, x, t + 1, if env[I].all[t] == I then |aux| else result)
  {
    var all := env[I].all;
    assert (aux + [entry])[|aux0|..] == aux[|aux0|..] + [entry];
    FamilyPush(env, I, x, aux[|aux0|..], t, entry);
    TakeNext(all, t, I);
    if all[t] == I {
      SwapHeadParts(x, I, I);
    }
  }

  lemma TakeNext<T>(s: seq<T>, t: nat, x: T)
    requires t < |s|
    ensures x in s[..t + 1] <==> x in s[..t] || s[t] == x
  {
    assert s[..t + 1] == s[..t] + [s[t]];
  }

  lemma FamilyPush(env: Env, I: Name, x: Expr, more: Aux, t: nat, entry: (Expr, Name))
    requires I in env && env[I].Inductive? && t < |env[I].all| && Family(env, I, x, more, t)
    requires Head(entry.0).Const? && Erase(entry.0) == SwapHead(x, env[I].all[t])
    ensures Family(env, I, x, more + [entry], t + 1)
  {
  }

  lemma {:induction false} HitAt(aux: Aux, c: Context, e: Expr, r: Expr, i: nat, k: nat)
    requires |c.params| == |c.As| && i < |aux| && Candidate(c.env, e) && k == c.env[Head(e).id].nparams
    requires RangeAll(Args(e)[..k]) == 0
    requires Erase(aux[i].0) == Erase(Reparam(Nested(e, k), c.As, c.params))
    requires r == AuxApp(aux[i].1, c, Args(e)[k..])
    ensures Hit(aux, c, e, r, i, k)
  {
    ApplyRangeAll(Head(e), Args(e)[..k]);
    Reopened(Nested(e, k), c.As, c.params);
  }

  lemma {:induction false} RangeAllSnoc(es: seq<Expr>, e: Expr)
    ensures RangeAll(es + [e]) == Larger(RangeAll(es), Range(e))
  {
    if es != [] {
      assert (es + [e])[1..] == es[1..] + [e];
      RangeAllSnoc(es[1..], e);
    }
  }

  class ElimNested {
    const env: Env
    const lvls: seq<Levels.Level>
    const gen: NameGenerator
    const instLParams: InstLParams   // instantiate_lparams
    const params: seq<Name>
    var nestedAux: Aux
    var newTypes: seq<InductiveType>
    var nextIdx: nat
    ghost const declared: nat   // how many types the declaration has

    constructor (e: Env, ls: seq<Levels.Level>, g: NameGenerator, inst: InstLParams, ps: seq<Name>,
                 types: seq<InductiveType>)
      requires GoodEnv(e)
      ensures env == e && lvls == ls && gen == g && instLParams == inst && params == ps
      ensures newTypes == types && nestedAux == [] && declared == |types| && Valid()
    {
      env, lvls, gen, instLParams, params := e, ls, g, inst, ps;
      nestedAux, newTypes, nextIdx, declared := [], types, 1, |types|;
    }

    // The table is injective, each entry is a nested application and has its type
    ghost predicate Valid()
      reads this
    {
      && GoodEnv(env) && Table(env, nestedAux, nextIdx)
      && TypesFor(newTypes, declared, nestedAux)
      && AllNested(env, Ids(), nestedAux)
    }

    function Ids(): set<Name>
      reads this
    {
      TypeIds(newTypes)
    }

    function Ctx(As: seq<Name>, ids: set<Name>): Context {
      Context(params, As, lvls, env, ids)
    }

    // ----- copies of types of the environment -----

    ghost predicate SpecialCtors(t: Expr, As: seq<Name>, J: Name, auxJ: Name, ls: seq<Levels.Level>, ps: seq<Expr>,
                                 cs: seq<(Name, Expr)>, n: nat)
      requires J in env && env[J].Inductive? && GoodFamily(env, J) && n <= |env[J].ctors|
    {
      |cs| == n && forall i :: 0 <= i < n ==> SpecialCtor(t, As, env[J].ctors[i], J, auxJ, ls, ps, cs[i])
    }

    ghost predicate SpecialCtor(t: Expr, As: seq<Name>, C: Name, J: Name, auxJ: Name, ls: seq<Levels.Level>,
                                ps: seq<Expr>, c: (Name, Expr))
    {
      && C in env && env[C].Constructor? && c.0 == ReplacePrefix(C, J, auxJ)
      && Special(t, As, instLParams(env[C].ctype, env[C].lparams, ls), ps, c.1)
    }

    // a is the copy of J for the given levels and parameters, under the name auxJ
    ghost predicate AuxType(t: Expr, As: seq<Name>, J: Name, ls: seq<Levels.Level>, ps: seq<Expr>, auxJ: Name,
                            a: InductiveType)
    {
      && J in env && env[J].Inductive? && GoodFamily(env, J) && a.id == auxJ
      && Special(t, As, instLParams(env[J].itype, env[J].lparams, ls), ps, a.itype)
      && SpecialCtors(t, As, J, auxJ, ls, ps, a.ctors, |env[J].ctors|)
    }

    // The entry stands for J applied to ps, and a is the copy of J for it
    ghost predicate CopyWith(t: Expr, As: seq<Name>, J: Name, ls: seq<Levels.Level>, ps: seq<Expr>,
                             entry: (Expr, Name), a: InductiveType)
    {
      && |As| == |params| <= Depth(Pi, t) && RangeAll(ps) == 0 && AllInScope(ps, As, t)
      && entry.0 == Reparam(Apply(Const(J, ls), ps), As, params)
      && AuxType(t, As, J, ls, ps, entry.1, a)
    }

    // Made for a nested application in one of the constructor types ts
    ghost predicate IsCopy(ts: set<Expr>, entry: (Expr, Name), a: InductiveType) {
      exists t, As, J, ls, ps :: t in ts && CopyWith(t, As, J, ls, ps, entry, a)
    }

    // Entries were added, each with its copy
    ghost predicate Grown(ts: set<Expr>, aux: Aux, types: seq<InductiveType>, aux': Aux, types': seq<InductiveType>) {
      && aux <= aux' && types <= types' && |types'| == declared + |aux'|
      && forall i :: |aux| <= i < |aux'| ==> IsCopy(ts, aux'[i], types'[declared + i])
    }

    lemma GrownTwice(ts: set<Expr>, ts': set<Expr>, aux: Aux, types: seq<InductiveType>, aux1: Aux,
                     types1: seq<InductiveType>, aux2: Aux, types2: seq<InductiveType>)
      requires Grown(ts, aux, types, aux1, types1) && Grown(ts', aux1, types1, aux2, types2) && ts' <= ts
      ensures Grown(ts, aux, types, aux2, types2)
    {
      forall i | |aux| <= i < |aux2| ensures IsCopy(ts, aux2[i], types2[declared + i]) {
        if i < |aux1| {
          assert IsCopy(ts, aux1[i], types1[declared + i]);
        } else {
          CopyAmong(ts', ts, aux2[i], types2[declared + i]);
        }
      }
    }

    lemma CopyAmong(ts: set<Expr>, ts': set<Expr>, entry: (Expr, Name), a: InductiveType)
      requires IsCopy(ts, entry, a) && ts <= ts'
      ensures IsCopy(ts', entry, a)
    {
      var t, As, J, ls, ps :| t in ts && CopyWith(t, As, J, ls, ps, entry, a);
      assert t in ts' && CopyWith(t, As, J, ls, ps, entry, a);
    }

    // mk_unique_name: numbers are tried until the name is new; the environment is finite
    method MkUniqueName(n: Name) returns (r: Name, ghost k: nat)
      modifies `nextIdx
      ensures r == AppendAfter(n, k) && r !in env && old(nextIdx) <= k && nextIdx == k + 1
      ensures forall j: nat {:trigger AppendAfter(n, j)} :: old(nextIdx) <= j < k ==> AppendAfter(n, j) in env
    {
      ghost var left := env.Keys;
      r, k := AppendAfter(n, nextIdx), nextIdx;
      nextIdx := nextIdx + 1;
      while r in env
        invariant r == AppendAfter(n, k) && old(nextIdx) <= k && nextIdx == k + 1
        invariant left <= env.Keys
        invariant forall j: nat {:trigger AppendAfter(n, j)} :: old(nextIdx) <= j < k ==> AppendAfter(n, j) in env
        invariant forall j: nat {:trigger AppendAfter(n, j)} ::
          j >= k && AppendAfter(n, j) in env ==> AppendAfter(n, j) in left
        decreases left
      {
        left := left - {r};
        forall j: nat | j > k && AppendAfter(n, j) in env ensures AppendAfter(n, j) in left {
          if AppendAfter(n, j) == r {
            AppendDiffer(n, j, n, k);
          }
        }
        r, k := AppendAfter(n, nextIdx), nextIdx;
        nextIdx := nextIdx + 1;
      }
    }

    // is_nested_inductive_app
    method IsNestedInductiveApp(e: Expr) returns (r: Result<Option<nat>>)
      ensures r.Ok? ==> (r.result.Some? <==> IsNested(env, Ids(), e))
      ensures r.Ok? && r.result.Some? ==>
        r.result.value == env[Head(e).id].nparams && RangeAll(Args(e)[..r.result.value]) == 0
      ensures r.Err? <==> IsNested(env, Ids(), e) && RangeAll(Args(e)[..env[Head(e).id].nparams]) > 0
    {
      hide Mentions, RangeAll, TypeIds;
      if !e.App? {
        return Ok(None);
      }
      var fn, args := GetAppArgs(e);
      if !fn.Const? || fn.id !in env || !env[fn.id].Inductive? {
        return Ok(None);
      }
      var nparams := env[fn.id].nparams;
      if nparams > |args| {
        return Ok(None);
      }
      var isNested, looseBVars := ScanParams(args, nparams);
      if !isNested {
        return Ok(None);
      }
      if looseBVars {
        return Err(LooseParameters);
      }
      return Ok(Some(nparams));
    }

    // Its loop over the parametric arguments
    method ScanParams(args: seq<Expr>, n: nat) returns (isNested: bool, looseBVars: bool)
      requires n <= |args|
      ensures isNested <==> exists i :: 0 <= i < n && Mentions(Ids(), args[i])
      ensures looseBVars <==> RangeAll(args[..n]) > 0
    {
      isNested, looseBVars := false, false;
      for i := 0 to n
        invariant isNested <==> exists j :: 0 <= j < i && Mentions(Ids(), args[j])
        invariant looseBVars <==> RangeAll(args[..i]) > 0
      {
        RangeAllSnoc(args[..i], args[i]);
        assert args[..i + 1] == args[..i] + [args[i]];
        if Range(args[i]) > 0 {
          looseBVars := true;
        }
        if Mentions(Ids(), args[i]) {
          isNested := true;
        }
      }
    }

    // instantiate_pi_params
    method InstantiatePiParams(t: Expr, ps: seq<Expr>) returns (r: Result<Expr>)
      ensures r.Ok? <==> |ps| <= Depth(Pi, t)
      ensures r.Ok? ==> r.result == InstRev(Inner(Pi, t, |ps|), ps)
    {
      var e := t;
      for i := 0 to |ps|
        invariant i <= Depth(Pi, t) && e == Inner(Pi, t, i)
      {
        InnerDepth(Pi, t, i);
        if !IsPi(e) {
          return Err(IllFormedDeclaration);
        }
        InnerNext(Pi, t, i, e.body);
        e := e.body;
      }
      return Ok(InstRev(e, ps));
    }

    // A type or constructor of the environment, for the given levels and parameters, under
    // the parameters of the constructor type c
    method Specialize(lctx: LocalContext, As: seq<Name>, t: Expr, lps: seq<Name>, ls: seq<Levels.Level>, ps: seq<Expr>,
                      ghost c: Expr) returns (r: Result<Expr>)
      requires Under(lctx.decls, As, c, |params|)
      ensures r.Ok? ==> Special(c, As, instLParams(t, lps, ls), ps, r.result)
    {
      hide AppliedType, Special, InstRev, Abstract;
      var T := instLParams(t, lps, ls);
      var t1 :- InstantiatePiParams(T, ps);
      r := lctx.MkBinding(false, As, t1);
      DeclaredBind(Pi, lctx.decls, As, c, |params|, Abstract(t1, As));
      SpecialMeans(c, As, T, ps, WithInner(Pi, c, |params|, Abstract(t1, As)));
    }

    // The loop over the constructors of J: the auxiliary type gets one for each of them
    method SpecializeAll(lctx: LocalContext, As: seq<Name>, J: Name, auxJ: Name, ls: seq<Levels.Level>, ps: seq<Expr>,
                         ghost c: Expr) returns (r: Result<seq<(Name, Expr)>>)
      requires J in env && env[J].Inductive? && GoodFamily(env, J) && Under(lctx.decls, As, c, |params|)
      ensures r.Ok? ==> SpecialCtors(c, As, J, auxJ, ls, ps, r.result, |env[J].ctors|)
    {
      var cs: seq<(Name, Expr)> := [];
      for i := 0 to |env[J].ctors|
        invariant SpecialCtors(c, As, J, auxJ, ls, ps, cs, i)
      {
        var C := env[J].ctors[i];
        assert C in env && env[C].Constructor?;
        var info := env[C];
        var t :- Specialize(lctx, As, info.ctype, info.lparams, ls, ps, c);
        cs := cs + [(ReplacePrefix(C, J, auxJ), t)];
      }
      return Ok(cs);
    }

    // One member of a family: its name, its type, its entry and its constructors
    method AddMember(lctx: LocalContext, As: seq<Name>, J: Name, ls: seq<Levels.Level>, ps: seq<Expr>, ghost c: Expr)
        returns (r: Result<(Expr, Name)>)
      requires J in env && env[J].Inductive? && GoodFamily(env, J) && GoodNames(env, nestedAux, nextIdx)
      requires Under(lctx.decls, As, c, |params|)
      modifies this
      ensures r.Ok? ==> nestedAux == old(nestedAux) + [r.result] && GoodNames(env, nestedAux, nextIdx)
      ensures r.Ok? ==> r.result.0 == Reparam(Apply(Const(J, ls), ps), As, params)
      ensures r.Ok? ==> |newTypes| > 0 && newTypes == old(newTypes) + [newTypes[|newTypes| - 1]]
      ensures r.Ok? ==> AuxType(c, As, J, ls, ps, r.result.1, newTypes[|newTypes| - 1])
    {
      var info := env[J];
      var JAs := MkApp(Const(J, ls), ps);
      var name, k := MkUniqueName([Str("_nested")] + J);
      var t :- Specialize(lctx, As, info.itype, info.lparams, ls, ps, c);
      var entry := (Reparam(JAs, As, params), name);
      NamesPush(env, nestedAux, old(nextIdx), entry.0, [Str("_nested")] + J, k);
      nestedAux := nestedAux + [entry];
      var cs :- SpecializeAll(lctx, As, J, name, ls, ps, c);
      newTypes := newTypes + [InductiveType(name, t, cs)];
      return Ok(entry);
    }

    // What the loop over a family keeps
    ghost predicate Partial()
      reads this
    {
      && GoodNames(env, nestedAux, nextIdx) && TypesFor(newTypes, declared, nestedAux)
      && AllNested(env, Ids(), nestedAux)
    }

    // The same for the member J of the family of I, keeping the table and the queue in step
    method AddCopy(lctx: LocalContext, As: seq<Name>, I: Name, J: Name, ls: seq<Levels.Level>, ps: seq<Expr>,
                   ghost c: Expr) returns (r: Result<(Expr, Name)>)
      requires KnownFamily(env, I) && J in env[I].all && GoodEnv(env) && Partial()
      requires Under(lctx.decls, As, c, |params|) && RangeAll(ps) == 0 && AllInScope(ps, As, c)
      requires |ps| == env[I].nparams && IsNested(env, Ids(), Apply(Const(I, ls), ps))
      modifies this
      ensures r.Ok? ==> Partial() && nestedAux == old(nestedAux) + [r.result]
      ensures r.Ok? ==> r.result.0 == Reparam(Apply(Const(J, ls), ps), As, params)
      ensures r.Ok? ==> Grown({c}, old(nestedAux), old(newTypes), nestedAux, newTypes)
    {
      hide Declared, Unique, IsNested, AuxType, GoodNames, AllInScope, TypeIds;
      ghost var types := newTypes;
      MemberNested(env, Ids(), I, J, ls, ps, As, params);
      r := AddMember(lctx, As, J, ls, ps, c);
      if r.Ok? {
        AllNestedPush(env, types, newTypes, old(nestedAux), r.result);
        assert CopyWith(c, As, J, ls, ps, r.result, newTypes[|newTypes| - 1]);
      }
    }

    // The loop over the mutual family of I; the result is the entry for I itself
    method AddFamily(lctx: LocalContext, As: seq<Name>, I: Name, ls: seq<Levels.Level>, ps: seq<Expr>, ghost c: Expr)
        returns (r: Result<nat>)
      requires Valid() && KnownFamily(env, I) && Under(lctx.decls, As, c, |params|)
      requires RangeAll(ps) == 0 && AllInScope(ps, As, c)
      requires |ps| == env[I].nparams && IsNested(env, Ids(), Apply(Const(I, ls), ps))
      requires !Recorded(nestedAux, Erase(Reparam(Apply(Const(I, ls), ps), As, params)))
      modifies this
      ensures r.Ok? ==> Valid() && Grown({c}, old(nestedAux), old(newTypes), nestedAux, newTypes)
      ensures r.Ok? ==> r.result < |nestedAux|
      ensures r.Ok? ==> Erase(nestedAux[r.result].0) == Erase(Reparam(Apply(Const(I, ls), ps), As, params))
    {
      hide Valid, Partial, Grown, Declared, Unique, AllInScope, IsNested, Recorded, Adding, GoodFamily;
      ghost var aux0, types0, next0 := nestedAux, newTypes, nextIdx;
      ghost var x := Erase(Reparam(Apply(Const(I, ls), ps), As, params));
      var all := env[I].all;
      var result: nat := 0;
      var t := 0;
      MemberEntry(I, I, ls, ps, As, params);
      StartFamily({c}, I, x);
      while t < |all|
        invariant 0 <= t <= |all| && Partial() && Grown({c}, aux0, types0, nestedAux, newTypes)
        invariant Adding(env, aux0, nestedAux, I, x, t, result)
      {
        ghost var aux, types := nestedAux, newTypes;
        NestedLater({c}, aux0, types0, Apply(Const(I, ls), ps));
        var entry :- AddCopy(lctx, As, I, all[t], ls, ps, c);
        MemberEntry(I, all[t], ls, ps, As, params);
        AddingNext(env, aux0, aux, I, x, t, result, entry);
        GrownTwice({c}, {c}, aux0, types0, aux, types, nestedAux, newTypes);
        if all[t] == I {
          result := |nestedAux| - 1;
        }
        t := t + 1;
      }
      FamilyDone(aux0, next0, I, x, result);
      return Ok(result);
    }

    lemma {:induction false} StartFamily(ts: set<Expr>, I: Name, x: Expr)
      requires Valid() && I in env && env[I].Inductive?
      ensures Partial() && GoodEnv(env) && Table(env, nestedAux, nextIdx)
      ensures Grown(ts, nestedAux, newTypes, nestedAux, newTypes) && Adding(env, nestedAux, nestedAux, I, x, 0, 0)
    {
    }

    lemma NestedLater(ts: set<Expr>, aux: Aux, types: seq<InductiveType>, e: Expr)
      requires IsNested(env, TypeIds(types), e) && Grown(ts, aux, types, nestedAux, newTypes)
      ensures IsNested(env, Ids(), e)
    {
      IdsMore(types, newTypes);
      NestedMore(env, TypeIds(types), Ids(), e);
    }

    lemma {:induction false} FamilyDone(aux0: Aux, next0: nat, I: Name, x: Expr, result: nat)
      requires GoodEnv(env) && Table(env, aux0, next0) && KnownFamily(env, I) && Partial()
      requires Head(x).Const? && Head(x).id == I && !Recorded(aux0, x)
      requires Adding(env, aux0, nestedAux, I, x, |env[I].all|, result)
      ensures Valid() && result < |nestedAux| && Erase(nestedAux[result].0) == x
    {
      assert aux0 + nestedAux[|aux0|..] == nestedAux;
      FamilyAdded(env, aux0, nestedAux[|aux0|..], next0, nextIdx, I, x);
      assert env[I].all[..|env[I].all|] == env[I].all;
    }

    // replace_if_nested: `I Ds is` becomes `Iaux As is`; the first time, the whole family of
    // I gets auxiliary types
    method ReplaceIfNested(lctx: LocalContext, As: seq<Name>, e: Expr, ghost c: Expr) returns (r: Result<Option<Expr>>)
      requires Valid() && Under(lctx.decls, As, c, |params|) && InScope(e, As, c)
      modifies this
      ensures r.Ok? ==> Valid() && Grown({c}, old(nestedAux), old(newTypes), nestedAux, newTypes)
      ensures r.Ok? ==> (r.result.Some? <==> old(IsNested(env, Ids(), e)))
      ensures r.Ok? && r.result.None? ==> newTypes == old(newTypes) && nestedAux == old(nestedAux)
      ensures r.Ok? && r.result.Some? ==>
        exists i: nat, k: nat :: Hit(nestedAux, Ctx(As, old(Ids())), e, r.result.value, i, k)
    {
      var found :- IsNestedInductiveApp(e);
      if found.None? {
        return Ok(None);
      }
      var k := found.value;
      var fn, args := GetAppArgs(e);
      var i :- FindOrAdd(lctx, As, e, k, c);
      var x := MkAuxApp(nestedAux[i].1, As, args[k..]);
      HitAt(nestedAux, Ctx(As, old(Ids())), e, x, i, k);
      return Ok(Some(x));
    }

    // The entry for the nested application e, an old or a new one
    method FindOrAdd(lctx: LocalContext, As: seq<Name>, e: Expr, k: nat, ghost c: Expr) returns (r: Result<nat>)
      requires Valid() && Under(lctx.decls, As, c, |params|) && InScope(e, As, c)
      requires IsNested(env, Ids(), e) && k == env[Head(e).id].nparams && RangeAll(Args(e)[..k]) == 0
      modifies this
      ensures r.Ok? ==> Valid() && Grown({c}, old(nestedAux), old(newTypes), nestedAux, newTypes)
      ensures r.Ok? ==> r.result < |nestedAux|
      ensures r.Ok? ==> Erase(nestedAux[r.result].0) == Erase(Reparam(Nested(e, k), As, params))
    {
      var fn, args := GetAppArgs(e);
      var IAs := MkApp(fn, args[..k]);
      var Iparams := Reparam(IAs, As, params);
      var i := FindEntry(Iparams);
      if i < |nestedAux| {
        return Ok(i);
      }
      ScopeArgs(e, As, c, k);
      NestedPrefix(e, k);
      assert GoodFamily(env, fn.id);
      r := AddFamily(lctx, As, fn.id, fn.levels, args[..k], c);
    }

    lemma {:induction false} NestedPrefix(e: Expr, k: nat)
      requires IsNested(env, Ids(), e) && k == env[Head(e).id].nparams
      ensures IsNested(env, Ids(), Nested(e, k))
    {
      ApplyNested(env, Ids(), Head(e).id, Head(e).levels, Args(e)[..k]);
      var i :| 0 <= i < k && Mentions(Ids(), Args(e)[i]);
      assert Mentions(Ids(), Args(e)[..k][i]);
    }

    // The search in m_nested_aux, with operator==
    method FindEntry(x: Expr) returns (i: nat)
      ensures i <= |nestedAux| && forall j :: 0 <= j < i ==> Erase(nestedAux[j].0) != Erase(x)
      ensures i < |nestedAux| ==> Erase(nestedAux[i].0) == Erase(x)
    {
      i := 0;
      while i < |nestedAux| && Erase(nestedAux[i].0) != Erase(x)
        invariant i <= |nestedAux| && forall j :: 0 <= j < i ==> Erase(nestedAux[j].0) != Erase(x)
      {
        i := i + 1;
      }
    }

    method MkAuxApp(n: Name, As: seq<Name>, rest: seq<Expr>) returns (x: Expr)
      ensures forall ids :: x == AuxApp(n, Ctx(As, ids), rest)
    {
      x := MkApp(Const(n, lvls), FVars(As));
      x := MkApp(x, rest);
    }

    // Conversely, only applications that are nested are replaced
    lemma {:induction false} OnlyNested(As: seq<Name>, ids: set<Name>, e: Expr, r: Expr, i: nat, k: nat)
      requires Valid() && Hit(nestedAux, Ctx(As, ids), e, r, i, k)
      ensures IsNested(env, Ids(), e)
    {
      HitNested(nestedAux, Ctx(As, ids), e, r, i, k, Ids());
    }

    // replace_all_nested: replace, with the above as the callback
    method ReplaceAllNested(lctx: LocalContext, As: seq<Name>, e: Expr, ghost c: Expr) returns (r: Result<Expr>)
      requires Valid() && Under(lctx.decls, As, c, |params|) && InScope(e, As, c)
      modifies this
      ensures r.Ok? ==> Valid() && Grown({c}, old(nestedAux), old(newTypes), nestedAux, newTypes)
      ensures r.Ok? ==> Encodes(nestedAux, Ctx(As, old(Ids())), e, r.result)
      ensures r.Ok? && !old(IsNested(env, Ids(), e)) ==> Inside(nestedAux, Ctx(As, old(Ids())), e, r.result)
      decreases e, 3
    {
      hide Valid, Declared, Unique, IsNested, Inside, Hit, TypeIds;
      var hit :- ReplaceIfNested(lctx, As, e, c);
      if hit.Some? {
        return Ok(hit.value);
      }
      r := ReplaceParts(lctx, As, e, c);
    }

    // The recursion of replace
    method ReplaceParts(lctx: LocalContext, As: seq<Name>, e: Expr, ghost c: Expr) returns (r: Result<Expr>)
      requires Valid() && Under(lctx.decls, As, c, |params|) && InScope(e, As, c) && !IsNested(env, Ids(), e)
      modifies this
      ensures r.Ok? ==> Valid() && Grown({c}, old(nestedAux), old(newTypes), nestedAux, newTypes)
      ensures r.Ok? ==> Inside(nestedAux, Ctx(As, old(Ids())), e, r.result)
      decreases e, 2
    {
      hide Valid, Grown, Declared, Unique, IsNested, Encodes, TypeIds, InScope, Occurs;
      ScopeParts(e, As, c);
      match e {
        case MVar(n, t) =>
          var t' :- ReplaceAllNested(lctx, As, t, c);
          return Ok(MVar(n, t'));
        case App(f, a) =>
          var fa :- ReplaceApp(lctx, As, f, a, e, c);
          return Ok(App(fa.0, fa.1));
        case Binding(k, n, t, b, i) =>
          var tb :- ReplaceTwo(lctx, As, t, b, e, c);
          return Ok(Binding(k, n, tb.0, tb.1, i));
        case Let(n, t, v, b) =>
          var tvb :- ReplaceThree(lctx, As, t, v, b, e, c);
          return Ok(Let(n, tvb.0, tvb.1, tvb.2));
        case MData(m, x) =>
          var x' :- ReplaceAllNested(lctx, As, x, c);
          return Ok(MData(m, x'));
        case Proj(s, i, x) =>
          var x' :- ReplaceAllNested(lctx, As, x, c);
          return Ok(Proj(s, i, x'));
        case _ =>
          NothingGrown({c});
          return Ok(e);
      }
    }

    lemma NothingGrown(ts: set<Expr>)
      requires Valid()
      ensures Grown(ts, nestedAux, newTypes, nestedAux, newTypes)
    {
    }

    method ReplaceTwo(lctx: LocalContext, As: seq<Name>, t: Expr, b: Expr, ghost e: Expr, ghost c: Expr)
        returns (r: Result<(Expr, Expr)>)
      requires Valid() && Under(lctx.decls, As, c, |params|) && InScope(t, As, c) && InScope(b, As, c)
      requires t < e && b < e
      modifies this
      ensures r.Ok? ==> Valid() && Grown({c}, old(nestedAux), old(newTypes), nestedAux, newTypes)
      ensures r.Ok? ==> Encodes(nestedAux, Ctx(As, old(Ids())), t, r.result.0)
      ensures r.Ok? ==> Encodes(nestedAux, Ctx(As, old(Ids())), b, r.result.1)
      decreases e, 0
    {
      hide Valid, Grown, Declared, Unique, InScope, IsNested, Encodes, Inside, TypeIds;
      var t' :- ReplaceAllNested(lctx, As, t, c);
      ghost var aux, types := nestedAux, newTypes;
      var b' :- ReplaceAllNested(lctx, As, b, c);
      EncodesBoth(As, {c}, old(nestedAux), old(newTypes), aux, types, t, t', b, b');
      return Ok((t', b'));
    }

    // What was replaced first stays right, and what came second was right for less
    lemma {:induction false} EncodesBoth(As: seq<Name>, ts: set<Expr>, aux0: Aux, types0: seq<InductiveType>, aux: Aux,
                                         types: seq<InductiveType>, t: Expr, t': Expr, b: Expr, b': Expr)
      requires Grown(ts, aux0, types0, aux, types) && Grown(ts, aux, types, nestedAux, newTypes)
      requires Encodes(aux, Ctx(As, TypeIds(types0)), t, t')
      requires Encodes(nestedAux, Ctx(As, TypeIds(types)), b, b')
      ensures Grown(ts, aux0, types0, nestedAux, newTypes) && aux <= nestedAux
      ensures Encodes(nestedAux, Ctx(As, TypeIds(types0)), t, t')
      ensures Encodes(nestedAux, Ctx(As, TypeIds(types0)), b, b')
    {
      IdsMore(types0, types);
      GrownTwice(ts, ts, aux0, types0, aux, types, nestedAux, newTypes);
      EncodesMore(aux, nestedAux, Ctx(As, TypeIds(types0)), Ctx(As, TypeIds(types0)), t, t');
      EncodesMore(nestedAux, nestedAux, Ctx(As, TypeIds(types)), Ctx(As, TypeIds(types0)), b, b');
    }

    method ReplaceThree(lctx: LocalContext, As: seq<Name>, t: Expr, v: Expr, b: Expr, ghost e: Expr, ghost c: Expr)
        returns (r: Result<(Expr, Expr, Expr)>)
      requires Valid() && Under(lctx.decls, As, c, |params|) && InScope(e, As, c)
      requires e.Let? && t == e.ltype && v == e.val && b == e.body
      modifies this
      ensures r.Ok? ==> Valid() && Grown({c}, old(nestedAux), old(newTypes), nestedAux, newTypes)
      ensures r.Ok? ==> Encodes(nestedAux, Ctx(As, old(Ids())), t, r.result.0)
      ensures r.Ok? ==> Encodes(nestedAux, Ctx(As, old(Ids())), v, r.result.1)
      ensures r.Ok? ==> Encodes(nestedAux, Ctx(As, old(Ids())), b, r.result.2)
      decreases e, 1
    {
      hide Valid, Grown, Declared, Unique, InScope, IsNested, Encodes, Inside, TypeIds, Occurs;
      ScopeParts(e, As, c);
      var tv :- ReplaceTwo(lctx, As, t, v, e, c);
      ghost var aux, types := nestedAux, newTypes;
      var b' :- ReplaceAllNested(lctx, As, b, c);
      EncodesBoth(As, {c}, old(nestedAux), old(newTypes), aux, types, t, tv.0, b, b');
      EncodesBoth(As, {c}, old(nestedAux), old(newTypes), aux, types, v, tv.1, b, b');
      return Ok((tv.0, tv.1, b'));
    }

    // The head is looked at before anything changes
    method ReplaceApp(lctx: LocalContext, As: seq<Name>, f: Expr, a: Expr, ghost e: Expr, ghost c: Expr)
        returns (r: Result<(Expr, Expr)>)
      requires Valid() && Under(lctx.decls, As, c, |params|) && InScope(e, As, c)
      requires e == App(f, a) && !IsNested(env, Ids(), e)
      modifies this
      ensures r.Ok? ==> Valid() && Grown({c}, old(nestedAux), old(newTypes), nestedAux, newTypes)
      ensures r.Ok? ==> Inside(nestedAux, Ctx(As, old(Ids())), f, r.result.0)
      ensures r.Ok? ==> Encodes(nestedAux, Ctx(As, old(Ids())), a, r.result.1)
      decreases e, 0
    {
      hide Valid, Grown, Declared, Unique, InScope, IsNested, Encodes, Inside, TypeIds;
      NotNestedFn(env, Ids(), e);
      ScopeParts(e, As, c);
      var f' :- ReplaceAllNested(lctx, As, f, c);
      ghost var aux, types := nestedAux, newTypes;
      var a' :- ReplaceAllNested(lctx, As, a, c);
      EncodesBoth(As, {c}, old(nestedAux), old(newTypes), aux, types, f, f', a, a');
      InsideMore(aux, nestedAux, Ctx(As, old(Ids())), Ctx(As, old(Ids())), f, f');
      return Ok((f', a'));
    }

    // One round of the main loop over the constructors: parameters are opened, nested
    // applications replaced, parameters bound again
    method ElimConstructor(t: Expr) returns (r: Result<Expr>)
      requires Valid() && GoodInput(t)
      modifies this, gen
      ensures r.Ok? ==> Valid() && Grown({t}, old(nestedAux), old(newTypes), nestedAux, newTypes)
      ensures r.Ok? ==> gen.nextIdx >= old(gen.nextIdx)
      ensures r.Ok? ==> Eliminated(nestedAux, Ctx([], old(Ids())), t, r.result)
    {
      hide Valid, Grown, Encodes, IsNested, TypeIds;
      var lctx := new LocalContext();
      var pair :- GetParams(Pi, t, |params|, lctx, gen);
      var As, body := pair.0, pair.1;
      OpenedBody(t, params, As);
      var elim :- ReplaceAllNested(lctx, As, body, t);
      EncodesRange(nestedAux, Ctx(As, old(Ids())), body, elim);
      r := lctx.MkBinding(false, As, elim);
      DeclaredBind(Pi, lctx.decls, As, t, |params|, Abstract(elim, As));
      assert EliminatedBy(nestedAux, Ctx([], old(Ids())).(As := As), t, r.result, body, elim);
    }

    // A closed type in which neither the parameters nor later names of the generator occur
    ghost predicate GoodInput(t: Expr)
      reads gen
    {
      && Range(t) == 0 && Unique(params) && Fresh(params, t)
      && (forall i: nat {:trigger gen.NameAt(i)} ::
            i >= gen.nextIdx ==> gen.NameAt(i) !in params && !Occurs(gen.NameAt(i), t))
    }

    ghost predicate GoodType(a: InductiveType)
      reads gen
    {
      forall i :: 0 <= i < |a.ctors| ==> GoodInput(a.ctors[i].1)
    }

    // The body of the main loop: all constructors of the type at the head of the queue
    method ElimType(q: nat) returns (r: Result<()>)
      requires Valid() && q < |newTypes| && GoodType(newTypes[q])
      modifies this, gen
      ensures r.Ok? ==> Valid() && q < |newTypes| && gen.nextIdx >= old(gen.nextIdx)
      ensures r.Ok? ==> Grown(CtorTypes(old(newTypes[q])), old(nestedAux), old(newTypes), nestedAux,
                              newTypes[q := old(newTypes[q])])
      ensures r.Ok? ==> Processed(nestedAux, Ctx([], old(Ids())), old(newTypes[q]), newTypes[q])
    {
      ghost var aux0, types0, ids := nestedAux, newTypes, Ids();
      var ind := newTypes[q];
      var cs: seq<(Name, Expr)> := [];
      var i := 0;
      while i < |ind.ctors|
        invariant 0 <= i <= |ind.ctors| && Valid() && gen.nextIdx >= old(gen.nextIdx)
        invariant Grown(CtorTypes(ind), aux0, types0, nestedAux, newTypes)
        invariant AllEliminated(nestedAux, Ctx([], ids), ind.ctors[..i], cs)
      {
        ghost var aux, types := nestedAux, newTypes;
        assert old(GoodInput(ind.ctors[i].1));
        var t :- ElimConstructor(ind.ctors[i].1);
        ElimNext(ind, i, aux0, types0, aux, types, cs, t);
        cs := cs + [(ind.ctors[i].0, t)];
        i := i + 1;
      }
      assert ind.ctors[..i] == ind.ctors;
      ghost var types := newTypes;
      newTypes := newTypes[q := InductiveType(ind.id, ind.itype, cs)];
      IdsUpdate(types, q, newTypes[q]);
      assert newTypes[q := ind] == types;
      return Ok(());
    }

    lemma {:induction false} ElimNext(ind: InductiveType, i: nat, aux0: Aux, types0: seq<InductiveType>, aux: Aux,
                                      types: seq<InductiveType>, cs: seq<(Name, Expr)>, t: Expr)
      requires i < |ind.ctors| && Grown(CtorTypes(ind), aux0, types0, aux, types)
      requires Grown({ind.ctors[i].1}, aux, types, nestedAux, newTypes)
      requires AllEliminated(aux, Ctx([], TypeIds(types0)), ind.ctors[..i], cs)
      requires Eliminated(nestedAux, Ctx([], TypeIds(types)), ind.ctors[i].1, t)
      ensures Grown(CtorTypes(ind), aux0, types0, nestedAux, newTypes)
      ensures AllEliminated(nestedAux, Ctx([], TypeIds(types0)), ind.ctors[..i + 1], cs + [(ind.ctors[i].0, t)])
    {
      assert ind.ctors[i] in ind.ctors;
      GrownTwice(CtorTypes(ind), {ind.ctors[i].1}, aux0, types0, aux, types, nestedAux, newTypes);
      IdsMore(types0, types);
      AllEliminatedNext(aux, nestedAux, Ctx([], TypeIds(types)), Ctx([], TypeIds(types0)), ind.ctors, i, cs, t);
    }

    // ----- the queue -----

    // Every auxiliary type is the copy made for a nested application in an earlier type
    ghost predicate AllCopies(aux: Aux, queued: seq<InductiveType>) {
      && |queued| == declared + |aux|
      && forall i :: 0 <= i < |aux| ==> CopyOfEarlier(queued[..declared + i], aux[i], queued[declared + i])
    }

    ghost predicate CopyOfEarlier(queued: seq<InductiveType>, entry: (Expr, Name), a: InductiveType) {
      exists k :: 0 <= k < |queued| && IsCopy(CtorTypes(queued[k]), entry, a)
    }

    // The first q types of the queue have been processed; queued holds what they were before
    ghost predicate InQueue(c: Context, aux: Aux, types: seq<InductiveType>, queued: seq<InductiveType>, q: nat) {
      && |queued| == |types| && q <= |types| && AllCopies(aux, queued)
      && (forall k :: 0 <= k < q ==> Processed(aux, c, queued[k], types[k]))
      && (forall k :: q <= k < |types| ==> types[k] == queued[k])
    }

    ghost predicate AllGood(queued: seq<InductiveType>)
      reads gen
    {
      forall k :: 0 <= k < |queued| ==> GoodType(queued[k])
    }

    // The main loop, for at most so many rounds: it need not end
    method ElimQueue(rounds: nat) returns (r: Result<bool>, ghost queued: seq<InductiveType>)
      requires Valid() && ClosedEnv(env, instLParams) && nestedAux == [] && AllGood(newTypes)
      modifies this, gen
      ensures r.Ok? ==> Valid() && gen.nextIdx >= old(gen.nextIdx)
      ensures r.Ok? ==> old(newTypes) <= queued && AllGood(queued)
      ensures r == Ok(true) ==> InQueue(Ctx([], old(Ids())), nestedAux, newTypes, queued, |newTypes|)
    {
      queued := newTypes;
      var q := 0;
      while q < |newTypes|
        invariant 0 <= q <= |newTypes| && Valid() && gen.nextIdx >= old(gen.nextIdx)
        invariant old(newTypes) <= queued && old(Ids()) <= Ids() && AllGood(queued)
        invariant InQueue(Ctx([], old(Ids())), nestedAux, newTypes, queued, q)
        decreases rounds - q
      {
        if q >= rounds {
          return Ok(false), queued;
        }
        ghost var aux, types := nestedAux, newTypes;
        assert GoodType(queued[q]);
        var _ :- ElimType(q);
        queued := NextInQueue(old(Ids()), aux, types, queued, q);
        q := q + 1;
      }
      return Ok(true), queued;
    }

    // What a round does to the queue
    lemma {:induction false} NextInQueue(ids: set<Name>, aux: Aux, types: seq<InductiveType>,
                                         queued: seq<InductiveType>, q: nat)
        returns (queued': seq<InductiveType>)
      requires Valid() && ClosedEnv(env, instLParams) && q < |types| && AllGood(queued) && ids <= TypeIds(types)
      requires InQueue(Ctx([], ids), aux, types, queued, q) && q < |newTypes|
      requires Grown(CtorTypes(types[q]), aux, types, nestedAux, newTypes[q := types[q]])
      requires Processed(nestedAux, Ctx([], TypeIds(types)), types[q], newTypes[q])
      ensures InQueue(Ctx([], ids), nestedAux, newTypes, queued', q + 1)
      ensures queued <= queued' && AllGood(queued') && ids <= Ids()
    {
      var grown := newTypes[q := types[q]];
      var more := grown[|types|..];
      queued' := queued + more;
      assert forall k :: |types| <= k < |newTypes| ==> queued'[k] == newTypes[k];
      CopiesNext(aux, queued, queued', q);
      forall k | 0 <= k < q + 1 ensures Processed(nestedAux, Ctx([], ids), queued'[k], newTypes[k]) {
        if k < q {
          assert newTypes[k] == types[k];
          ProcessedMore(aux, nestedAux, Ctx([], ids), Ctx([], ids), queued[k], types[k]);
        } else {
          ProcessedMore(nestedAux, nestedAux, Ctx([], TypeIds(types)), Ctx([], ids), types[q], newTypes[q]);
        }
      }
      IdsMore(types, grown);
      IdsUpdate(grown, q, newTypes[q]);
      assert grown[q := newTypes[q]] == newTypes;
    }

    lemma {:induction false} CopiesNext(aux: Aux, queued: seq<InductiveType>, queued': seq<InductiveType>, q: nat)
      requires ClosedEnv(env, instLParams) && AllCopies(aux, queued) && AllGood(queued) && q < |queued|
      requires Grown(CtorTypes(queued[q]), aux, queued, nestedAux, queued')
      ensures AllCopies(nestedAux, queued') && AllGood(queued')
    {
      forall i | 0 <= i < |nestedAux|
        ensures CopyOfEarlier(queued'[..declared + i], nestedAux[i], queued'[declared + i])
      {
        if i < |aux| {
          assert queued'[..declared + i] == queued[..declared + i];
          assert CopyOfEarlier(queued[..declared + i], aux[i], queued[declared + i]);
        } else {
          assert queued'[..declared + i][q] == queued[q];
        }
      }
      forall k | 0 <= k < |queued'| ensures GoodType(queued'[k]) {
        if k < |queued| {
          assert queued'[k] == queued[k];
        } else {
          CopyGood(queued[q], nestedAux[k - declared], queued'[k]);
        }
      }
    }

    // The copy of a type of the environment can be processed in its turn
    lemma {:induction false} CopyGood(a: InductiveType, entry: (Expr, Name), b: InductiveType)
      requires ClosedEnv(env, instLParams) && GoodType(a) && IsCopy(CtorTypes(a), entry, b)
      ensures GoodType(b)
    {
      var t, As, J, ls, ps :| t in CtorTypes(a) && CopyWith(t, As, J, ls, ps, entry, b);
      var c :| 0 <= c < |a.ctors| && a.ctors[c].1 == t;
      assert GoodInput(t);
      forall i | 0 <= i < |b.ctors| ensures GoodInput(b.ctors[i].1) {
        var C := env[J].ctors[i];
        assert SpecialCtor(t, As, C, J, entry.1, ls, ps, b.ctors[i]);
        SpecialClosed(t, As, instLParams(env[C].ctype, env[C].lparams, ls), ps, b.ctors[i].1);
      }
    }

    // ----- the result -----

    // Different auxiliary types stand for different nested applications, also up to binder
    // names, and conversely
    lemma TableInjective(i: nat, j: nat)
      requires Valid() && i < |nestedAux| && j < |nestedAux|
      ensures nestedAux[i].1 == nestedAux[j].1 <==> i == j
      ensures Erase(nestedAux[i].0) == Erase(nestedAux[j].0) <==> i == j
    {
    }

    lemma EntriesClosed()
      requires Valid()
      ensures forall i :: 0 <= i < |nestedAux| ==> Range(nestedAux[i].0) == 0 && Head(nestedAux[i].0).Const?
    {
    }

    lemma NamesApart()
      requires Valid()
      ensures forall i, j :: 0 <= i < j < |nestedAux| ==> nestedAux[i].1 != nestedAux[j].1
    {
    }

    lemma InjectiveMap(nested: map<Name, Expr>)
      requires Valid() && nested.Keys == set i | 0 <= i < |nestedAux| :: nestedAux[i].1
      requires forall i :: 0 <= i < |nestedAux| ==> nestedAux[i].1 in nested && nested[nestedAux[i].1] == nestedAux[i].0
      ensures forall a, b :: a in nested && b in nested && a != b ==> Erase(nested[a]) != Erase(nested[b])
    {
      hide Valid, Erase;
      forall a, b | a in nested && b in nested && a != b ensures Erase(nested[a]) != Erase(nested[b]) {
        var i :| 0 <= i < |nestedAux| && nestedAux[i].1 == a;
        var j :| 0 <= j < |nestedAux| && nestedAux[j].1 == b;
        TableInjective(i, j);
      }
    }

    // elim_nested_inductive_result: the map from auxiliary types to nested applications
    method AuxToNested(ctors: map<Name, Name>, recs: map<Name, Name>) returns (m: Maps)
      requires Valid() && forall i :: 0 <= i < |nestedAux| ==> nestedAux[i].1 !in recs
      ensures Reflects(m, nestedAux) && m.ctors == ctors && m.recs == recs
      ensures m.nested.Keys == set i | 0 <= i < |nestedAux| :: nestedAux[i].1
      ensures m.nested.Keys !! ctors.Keys && m.nested.Keys !! recs.Keys && ctors.Keys !! recs.Keys ==> GoodMaps(m)
      ensures forall a, b :: a in m.nested && b in m.nested && a != b ==> Erase(m.nested[a]) != Erase(m.nested[b])
    {
      hide Valid, Erase;
      NamesApart();
      var nested: map<Name, Expr> := map[];
      for i := 0 to |nestedAux|
        invariant nested.Keys == set j | 0 <= j < i :: nestedAux[j].1
        invariant forall j :: 0 <= j < i ==> nestedAux[j].1 in nested && nested[nestedAux[j].1] == nestedAux[j].0
      {
        nested := nested[nestedAux[i].1 := nestedAux[i].0];
      }
      m := Maps(nested, ctors, recs);
      InjectiveMap(nested);
      EntriesClosed();
    }
  }

  function CtorTypes(a: InductiveType): set<Expr> {
    set c | c in a.ctors :: c.1
  }
}

/** There and back: a declaration is freed of nested applications, and its constructors are
  * restored (elim_nested_inductive_fn::operator(), elim_nested_inductive_result and
  * add_inductive in src/kernel/inductive.cpp).
  */
module NestedRoundTrip {
  import opened Wrappers
  import opened Names
  import opened Exprs
  import opened Instantiate
  import opened Beta
  import opened LocalContexts
  import opened Renaming
  import opened NestedApps
  import opened NestedRestore
  import opened NestedRecursors
  import opened NestedElim
  import opened NestedTypes
  import opened NestedClosed
  import opened NestedInductive

  // ----- restore_nested -----

  // is_pi(e)
  function FrontKind(t: Expr): BinderKind {
    if IsPi(t) then Pi else Lambda
  }

  // What t stands for below the binders for the parameters, when those are called Bs, is x
  ghost predicate BodyReads(m: Maps, params: seq<Name>, Bs: seq<Name>, t: Expr, kind: BinderKind, x: Expr)
    requires |Bs| == |params| <= Depth(kind, t)
  {
    GoodMaps(m) && Reads(m, params, Bs, InstRev(Inner(kind, t, |params|), FVars(Bs)), x)
  }

  // restore_nested, for types and for lambda terms: the binders for the parameters are
  // opened, each constant is replaced by what it stands for, the binders are put back
  method RestoreNested(m: Maps, params: seq<Name>, t: Expr, g: NameGenerator)
      returns (r: Result<Expr>, ghost Bs: seq<Name>)
    requires Range(t) == 0 && |params| <= Depth(FrontKind(t), t)
    requires forall i: nat {:trigger g.NameAt(i)} :: i >= g.nextIdx ==> !Occurs(g.NameAt(i), t)
    modifies g
    ensures var n := |params|;
      && |Bs| == n && Unique(Bs) && (forall i :: 0 <= i < n ==> Bs[i] == g.NameAt(old(g.nextIdx) + i))
      && g.nextIdx == old(g.nextIdx) + n
      && r == Ok(Restored(m, params, Bs, t, FrontKind(t)))
    ensures forall x :: BodyReads(m, params, Bs, t, FrontKind(t), x) ==>
      r == Ok(WithInner(FrontKind(t), t, |params|, Abstract(x, Bs)))
  {
    r, Bs := RestoreUnder(m, params, t, FrontKind(t), g);
    forall x | BodyReads(m, params, Bs, t, FrontKind(t), x)
      ensures r == Ok(WithInner(FrontKind(t), t, |params|, Abstract(x, Bs)))
    {
      RestoreReads(m, params, Bs, InstRev(Inner(FrontKind(t), t, |params|), FVars(Bs)), x, 0);
    }
  }

  // An auxiliary type or a constructor of it, with the names and entries that the elimination
  // makes, is restored to the nested application or to the constructor for it
  lemma {:induction false} CopyRestored(el: ElimNested, m: Maps, t: Expr, As: seq<Name>, J: Name, ls: seq<Levels.Level>,
                                        Ds: seq<Expr>, entry: (Expr, Name), a: InductiveType, Bs: seq<Name>,
                                        lvls: seq<Levels.Level>, rest: seq<Expr>)
    requires el.CopyWith(t, As, J, ls, Ds, entry, a) && entry in el.nestedAux && Reflects(m, el.nestedAux)
    requires GoodMaps(m) && Unique(el.params) && |Bs| == |el.params|
    requires forall D :: D in Ds ==> Fresh(el.params, D)
    ensures RestoresTo(m, el.params, Bs, entry.1, lvls, rest, Const(J, ls), RenameAll(Ds, As, Bs))
    ensures forall i :: 0 <= i < |a.ctors| && NamedFor(m, J, el.env[J].ctors[i], a.ctors[i].0, entry.1) ==>
      RestoresTo(m, el.params, Bs, a.ctors[i].0, lvls, rest, Const(el.env[J].ctors[i], ls), RenameAll(Ds, As, Bs))
  {
    hide Reads, Rename;
    EntryMeans(As, J, ls, Ds, el.params, Bs);
    var Ds' := RenameAll(Ds, As, el.params);
    assert m.nested[entry.1] == entry.0;
    RestoredType(m, el.params, Bs, entry.1, lvls, rest);
    RenameApply(Const(J, ls), Ds', el.params, Bs);
    forall i | 0 <= i < |a.ctors| && NamedFor(m, J, el.env[J].ctors[i], a.ctors[i].0, entry.1)
      ensures RestoresTo(m, el.params, Bs, a.ctors[i].0, lvls, rest, Const(el.env[J].ctors[i], ls),
                         RenameAll(Ds, As, Bs))
    {
      assert el.SpecialCtor(t, As, el.env[J].ctors[i], J, entry.1, ls, Ds, a.ctors[i]);
      RestoredCtor(m, el.params, Bs, a.ctors[i].0, lvls, rest, el.env[J].ctors[i]);
    }
  }

  // auxC is known as a constructor of auxJ, and the name of C begins with that of its type J
  ghost predicate NamedFor(m: Maps, J: Name, C: Name, auxC: Name, auxJ: Name) {
    J <= C && auxC in m.ctors && m.ctors[auxC] == auxJ
  }

  // n with the parameters and rest becomes fn with Ds and rest
  ghost predicate RestoresTo(m: Maps, ps: seq<Name>, Bs: seq<Name>, n: Name, lvls: seq<Levels.Level>, rest: seq<Expr>,
                             fn: Expr, Ds: seq<Expr>)
  {
    forall o: nat :: Replace(RestoreStep(m, ps, Bs), Apply(Apply(Const(n, lvls), FVars(Bs)), rest), o) ==
      Apply(Apply(fn, Ds), rest)
  }

  lemma {:induction false} RestoredType(m: Maps, ps: seq<Name>, Bs: seq<Name>, n: Name, lvls: seq<Levels.Level>,
                                        rest: seq<Expr>)
    requires GoodMaps(m) && |Bs| == |ps| && n in m.nested
    ensures Rename(m.nested[n], ps, Bs) ==
      Apply(Head(m.nested[n]), RenameAll(Args(m.nested[n]), ps, Bs))
    ensures RestoresTo(m, ps, Bs, n, lvls, rest, Head(m.nested[n]), RenameAll(Args(m.nested[n]), ps, Bs))
  {
    hide RestoreAt, Rename;
    var nested := m.nested[n];
    var r := Apply(Apply(Const(n, lvls), FVars(Bs)), rest);
    var e := Apply(Rename(nested, ps, Bs), rest);
    SpineParts(Const(n, lvls), FVars(Bs), rest);
    RenameSpine(nested, ps, Bs);
    ApplyArgs(Rename(nested, ps, Bs));
    assert TypeFor(m, ps, Bs, r, e, lvls, FVars(Bs), rest);
    RestoreType(m, ps, Bs, r, e, lvls, FVars(Bs), rest);
  }

  lemma {:induction false} RestoredCtor(m: Maps, ps: seq<Name>, Bs: seq<Name>, n: Name, lvls: seq<Levels.Level>,
                                        rest: seq<Expr>, C: Name)
    requires GoodMaps(m) && |Bs| == |ps| && n in m.ctors && m.ctors[n] in m.nested
    requires var J := Head(m.nested[m.ctors[n]]).id; J <= C && n == ReplacePrefix(C, J, m.ctors[n])
    ensures var nested := m.nested[m.ctors[n]];
      RestoresTo(m, ps, Bs, n, lvls, rest, Const(C, Head(nested).levels), RenameAll(Args(nested), ps, Bs))
  {
    hide RestoreAt, Rename;
    var nested := m.nested[m.ctors[n]];
    var r := Apply(Apply(Const(n, lvls), FVars(Bs)), rest);
    var e := Apply(Apply(Const(C, Head(nested).levels), RenameAll(Args(nested), ps, Bs)), rest);
    SpineParts(Const(n, lvls), FVars(Bs), rest);
    assert CtorFor(m, ps, Bs, r, e, lvls, FVars(Bs), rest, C);
    RestoreCtor(m, ps, Bs, r, e, lvls, FVars(Bs), rest, C);
  }

  // An entry is J applied to Ds over the parameters; over Bs it is J applied to Ds over Bs
  lemma {:induction false} EntryMeans(As: seq<Name>, J: Name, ls: seq<Levels.Level>, Ds: seq<Expr>, ps: seq<Name>,
                                      Bs: seq<Name>)
    requires |As| == |ps| == |Bs| && Unique(ps) && RangeAll(Ds) == 0 && forall D :: D in Ds ==> Fresh(ps, D)
    ensures var entry := Reparam(Apply(Const(J, ls), Ds), As, ps);
      && Head(entry) == Const(J, ls) && Args(entry) == RenameAll(Ds, As, ps)
      && RenameAll(RenameAll(Ds, As, ps), ps, Bs) == RenameAll(Ds, As, Bs)
  {
    hide Rename, Fresh;
    RenamedApply(J, ls, Ds, As, ps);
    ArgsApply(Const(J, ls), RenameAll(Ds, As, ps));
    forall i | 0 <= i < |Ds| ensures Rename(Rename(Ds[i], As, ps), ps, Bs) == Rename(Ds[i], As, Bs) {
      assert Ds[i] in Ds;
      RenameTwice(Ds[i], As, ps, Bs);
    }
  }

  method RestoreUnder(m: Maps, params: seq<Name>, t: Expr, kind: BinderKind, g: NameGenerator)
      returns (r: Result<Expr>, ghost Bs: seq<Name>)
    requires Range(t) == 0 && |params| <= Depth(kind, t)
    requires forall i: nat {:trigger g.NameAt(i)} :: i >= g.nextIdx ==> !Occurs(g.NameAt(i), t)
    modifies g
    ensures var n := |params|;
      && |Bs| == n && Unique(Bs) && (forall i :: 0 <= i < n ==> Bs[i] == g.NameAt(old(g.nextIdx) + i))
      && g.nextIdx == old(g.nextIdx) + n
      && r == Ok(Restored(m, params, Bs, t, kind))
  {
    hide Declared, Bind, Replace, InstRev, Abstract, Occurs;
    var lctx := new LocalContext();
    var res := GetParams(kind, t, |params|, lctx, g);
    var xs, inner := res.result.0, res.result.1;
    Bs := xs;
    var body := Replace(RestoreStep(m, params, xs), inner, 0);
    r := lctx.MkBinding(kind == Lambda, xs, body);
    DeclaredBind(kind, lctx.decls, xs, t, |params|, Abstract(body, xs));
  }

  function Restored(m: Maps, params: seq<Name>, Bs: seq<Name>, t: Expr, kind: BinderKind): Expr
    requires |Bs| == |params| <= Depth(kind, t)
  {
    var n := |params|;
    WithInner(kind, t, n, Abstract(Replace(RestoreStep(m, params, Bs), InstRev(Inner(kind, t, n), FVars(Bs)), 0), Bs))
  }

  // Whichever fresh parameters are used, restoring gives back the original constructor type
  // up to binder names, provided it mentions none of the names that are replaced
  lemma {:induction false} RoundTrip(m: Maps, aux: Aux, c: Context, t: Expr, t': Expr, Bs: seq<Name>)
    requires Range(t) == 0 && Eliminated(aux, c, t, t') && Reflects(m, aux) && Plain(m, t)
    requires |Bs| == |c.params| && Unique(Bs) && Fresh(Bs, t)
    ensures |c.params| <= Depth(Pi, t') && Erase(Restored(m, c.params, Bs, t', Pi)) == Erase(t)
  {
    var n := |c.params|;
    var As, b, elim :| EliminatedBy(aux, c.(As := As), t, t', b, elim);
    var raw := Inner(Pi, t, n);
    InnerWithInner(Pi, t, n, Abstract(elim, As));
    InnerWithInner(Pi, t, n, raw);
    BodyRestored(m, aux, c.(As := As), t, t', b, elim, Bs);
    Reopened(elim, As, Bs);
    var x := Replace(RestoreStep(m, c.params, Bs), Rename(elim, As, Bs), 0);
    WithInnerErase(Pi, t, n, Abstract(x, Bs), raw);
  }

  lemma {:induction false} BodyRestored(m: Maps, aux: Aux, c: Context, t: Expr, t': Expr, b: Expr, elim: Expr,
                                        Bs: seq<Name>)
    requires Range(t) == 0 && EliminatedBy(aux, c, t, t', b, elim) && Reflects(m, aux) && Plain(m, t)
    requires |Bs| == |c.params| && Unique(Bs) && Fresh(Bs, t)
    ensures var x := Replace(RestoreStep(m, c.params, Bs), Rename(elim, c.As, Bs), 0);
      Erase(Abstract(x, Bs)) == Erase(Inner(Pi, t, |c.params|))
  {
    hide Replace, InstRev, Abstract, Bound, Encodes, Plain, Occurs;
    var n := |c.params|;
    var raw := Inner(Pi, t, n);
    InnerDepth(Pi, t, n);
    InstRevIsReplaced(raw, FVars(c.As));
    PlainInner(m, t, n);
    PlainOpened(raw, 0, c.As, Reverse(FVars(c.As)), m);
    Reopened(b, c.As, Bs);
    RestoreEncoded(m, aux, c, Bs, b, elim, 0);
    ReclosedErase(Replace(RestoreStep(m, c.params, Bs), Rename(elim, c.As, Bs), 0), raw, Bs);
  }

  lemma {:induction false} ReclosedErase(x: Expr, raw: Expr, Bs: seq<Name>)
    requires Unique(Bs) && Fresh(Bs, raw) && Range(raw) <= |Bs| && Erase(x) == Erase(InstRev(raw, FVars(Bs)))
    ensures Erase(Abstract(x, Bs)) == Erase(raw)
  {
    var y := InstRev(raw, FVars(Bs));
    AbstractIsBound(x, Bs);
    AbstractIsBound(y, Bs);
    EraseBound(x, 0, Bs);
    EraseBound(y, 0, Bs);
    CloseOpen(raw, Bs);
  }

  // ----- the eliminated type can be restored -----

  // t' is closed, and has no free variables that t has not
  lemma {:induction false} EliminatedFresh(aux: Aux, c: Context, t: Expr, t': Expr, b: Expr, elim: Expr, x: Name)
    requires Range(t) == 0 && EliminatedBy(aux, c, t, t', b, elim) && !Occurs(x, t)
    ensures Range(t') == 0 && !Occurs(x, t')
  {
    hide InstRev, Abstract, Encodes, Inner, WithInner, Bound;
    var n := |c.params|;
    var raw := Inner(Pi, t, n);
    InnerDepth(Pi, t, n);
    AbstractIsBound(elim, c.As);
    BoundRange(elim, 0, c.As);
    WithInnerParts(t, n, Abstract(elim, c.As), 0);
    if x !in c.As {
      OpenedParts(raw, FVars(c.As), x);
      EncodesFresh(aux, c, b, elim, x);
    }
    BoundFresh(elim, 0, c.As, x);
  }

  ghost predicate UnusedFrom(t: Expr, g: NameGenerator, from: nat) {
    Range(t) == 0 && forall i: nat {:trigger g.NameAt(i)} :: i >= from ==> !Occurs(g.NameAt(i), t)
  }

  lemma {:induction false} EliminatedUnused(aux: Aux, c: Context, t: Expr, t': Expr, g: NameGenerator, from: nat)
    requires UnusedFrom(t, g, from) && Eliminated(aux, c, t, t')
    ensures UnusedFrom(t', g, from) && |c.params| <= Depth(Pi, t') && |c.params| <= Depth(FrontKind(t'), t')
  {
    var As, b, elim :| EliminatedBy(aux, c.(As := As), t, t', b, elim);
    InnerWithInner(Pi, t, |c.params|, Abstract(elim, As));
    EliminatedFresh(aux, c.(As := As), t, t', b, elim, g.NameAt(from));
    forall i: nat | i >= from ensures !Occurs(g.NameAt(i), t') {
      EliminatedFresh(aux, c.(As := As), t, t', b, elim, g.NameAt(i));
    }
  }

  // ----- the declaration as a whole -----

  // A declaration of closed types, in which later names of the generator do not occur
  ghost predicate GoodDeclaration(types: seq<InductiveType>, g: NameGenerator, from: nat) {
    && (|types| > 0 ==> UnusedFrom(types[0].itype, g, from))
    && forall k :: 0 <= k < |types| ==> CtorsUnused(types[k].ctors, g, from)
  }

  ghost predicate CtorsUnused(cs: seq<(Name, Expr)>, g: NameGenerator, from: nat) {
    forall i :: 0 <= i < |cs| ==> UnusedFrom(cs[i].1, g, from)
  }

  // operator(): the parameters are those of the first type; then the queue is processed. None
  // means that the rounds did not suffice
  method EliminateNested(env: Env, lvls: seq<Levels.Level>, g: NameGenerator, inst: InstLParams,
                         types: seq<InductiveType>, nparams: nat, rounds: nat)
      returns (r: Result<Option<ElimNested>>, ghost queued: seq<InductiveType>)
    requires GoodEnv(env) && ClosedEnv(env, inst) && GoodDeclaration(types, g, g.nextIdx)
    modifies g
    ensures types == [] || Depth(Pi, types[0].itype) < nparams ==> r.Err?
    ensures g.nextIdx >= old(g.nextIdx) || r.Err?
    ensures r.Ok? && r.result.Some? ==>
      var el := r.result.value;
      && fresh(el) && el.Valid() && el.gen == g && el.env == env && |el.params| == nparams
      && types <= queued && el.AllGood(queued)
      && el.InQueue(el.Ctx([], TypeIds(types)), el.nestedAux, el.newTypes, queued, |el.newTypes|)
  {
    hide Declared, GoodEnv, ClosedEnv, Occurs;
    queued := [];
    if |types| == 0 {
      return Err(EmptyDeclaration), queued;
    }
    var lctx := new LocalContext();
    var pair := GetParams(Pi, types[0].itype, nparams, lctx, g);
    if pair.Err? {
      return Err(pair.error), queued;
    }
    var params := pair.result.0;
    var el := new ElimNested(env, lvls, g, inst, params, types);
    GoodStart(el, types, old(g.nextIdx));
    var done;
    done, queued := el.ElimQueue(rounds);
    if done.Err? {
      return Err(done.error), queued;
    }
    r := Ok(if done.result then Some(el) else None);
  }

  // The parameters are new names
  lemma GoodStart(el: ElimNested, types: seq<InductiveType>, start: nat)
    requires el.gen.nextIdx == start + |el.params|
    requires forall i :: 0 <= i < |el.params| ==> el.params[i] == el.gen.NameAt(start + i)
    requires GoodDeclaration(types, el.gen, start)
    ensures el.AllGood(types)
  {
    var g := el.gen;
    Distinct(g, start, el.params);
    forall i: nat | i >= g.nextIdx ensures g.NameAt(i) !in el.params {
      forall j | 0 <= j < |el.params| ensures g.NameAt(i) != el.params[j] {
        g.NamesDiffer(i, start + j);
      }
    }
    forall k, i | 0 <= k < |types| && 0 <= i < |types[k].ctors| ensures el.GoodInput(types[k].ctors[i].1) {
      assert CtorsUnused(types[k].ctors, g, start) && UnusedFrom(types[k].ctors[i].1, g, start);
    }
  }

  // Constructors are what they were, up to binder names in their types; only of a type that
  // mentions an auxiliary type or constructor nothing is said
  ghost predicate SameCtors(m: Maps, cs: seq<(Name, Expr)>, cs': seq<(Name, Expr)>) {
    |cs'| == |cs| && forall i :: 0 <= i < |cs| ==> SameCtor(m, cs[i], cs'[i])
  }

  ghost predicate SameCtor(m: Maps, c: (Name, Expr), c': (Name, Expr)) {
    c'.0 == c.0 && (Plain(m, c.1) ==> Erase(c'.1) == Erase(c.1))
  }

  method RestoreConstructor(m: Maps, c: Context, t': Expr, g: NameGenerator, ghost aux: Aux, ghost t: Expr,
                            ghost from: nat)
      returns (r: Result<Expr>)
    requires Reflects(m, aux) && Eliminated(aux, c, t, t') && UnusedFrom(t, g, from) && from <= g.nextIdx
    modifies g
    ensures r.Ok? && g.nextIdx >= old(g.nextIdx)
    ensures Plain(m, t) ==> Erase(r.result) == Erase(t)
  {
    EliminatedUnused(aux, c, t, t', g, from);
    ghost var Bs;
    r, Bs := RestoreNested(m, c.params, t', g);
    if Plain(m, t) {
      RoundTrip(m, aux, c, t, t', Bs);
    }
  }

  lemma {:induction false} AllParts(aux: Aux, c: Context, cs: seq<(Name, Expr)>, cs': seq<(Name, Expr)>,
                                    g: NameGenerator, from: nat)
    requires AllEliminated(aux, c, cs, cs') && CtorsUnused(cs, g, from)
    ensures |cs'| == |cs|
    ensures forall i :: 0 <= i < |cs| ==>
      cs'[i].0 == cs[i].0 && Eliminated(aux, c, cs[i].1, cs'[i].1) && UnusedFrom(cs[i].1, g, from)
  {
  }

  // The loop of add_inductive over the constructors of a type
  method RestoreCtors(m: Maps, c: Context, cs': seq<(Name, Expr)>, g: NameGenerator, ghost aux: Aux,
                      ghost cs: seq<(Name, Expr)>, ghost from: nat)
      returns (r: Result<seq<(Name, Expr)>>)
    requires Reflects(m, aux) && AllEliminated(aux, c, cs, cs') && CtorsUnused(cs, g, from) && from <= g.nextIdx
    modifies g
    ensures r.Ok? && g.nextIdx >= old(g.nextIdx) && SameCtors(m, cs, r.result)
  {
    hide AllEliminated, Eliminated, UnusedFrom, Reflects, Plain, Erase;
    AllParts(aux, c, cs, cs', g, from);
    var res: seq<(Name, Expr)> := [];
    for i := 0 to |cs'|
      invariant g.nextIdx >= old(g.nextIdx)
      invariant |res| == i && forall j :: 0 <= j < i ==> SameCtor(m, cs[j], res[j])
    {
      var t := RestoreConstructor(m, c, cs'[i].1, g, aux, cs[i].1, from);
      res := res + [(cs'[i].0, t.result)];
    }
    return Ok(res);
  }

  ghost predicate SameType(m: Maps, a: InductiveType, b: InductiveType) {
    b.id == a.id && b.itype == a.itype && SameCtors(m, a.ctors, b.ctors)
  }

  // Its loop over the types of the declaration, which come first in the queue
  method RestoreTypes(m: Maps, c: Context, types': seq<InductiveType>, n: nat, g: NameGenerator, ghost aux: Aux,
                      ghost types: seq<InductiveType>, ghost from: nat)
      returns (restored: seq<InductiveType>)
    requires Reflects(m, aux) && n == |types| <= |types'| && GoodDeclaration(types, g, from) && from <= g.nextIdx
    requires forall k :: 0 <= k < n ==> Processed(aux, c, types[k], types'[k])
    modifies g
    ensures |restored| == n && forall k :: 0 <= k < n ==> SameType(m, types[k], restored[k])
  {
    restored := [];
    for k := 0 to n
      invariant g.nextIdx >= old(g.nextIdx)
      invariant |restored| == k && forall j :: 0 <= j < k ==> SameType(m, types[j], restored[j])
    {
      var a := types'[k];
      assert Processed(aux, c, types[k], a);
      var cs := RestoreCtors(m, c, a.ctors, g, aux, types[k].ctors, from);
      restored := restored + [InductiveType(a.id, a.itype, cs.result)];
    }
  }

  // Elimination of the whole queue followed by restoration with the final map: the types of
  // the declaration come back
  method ElimAndRestore(env: Env, lvls: seq<Levels.Level>, g: NameGenerator, inst: InstLParams,
                        types: seq<InductiveType>, nparams: nat, rounds: nat, ctors: map<Name, Name>)
      returns (r: Result<Option<seq<InductiveType>>>, m: Maps)
    requires GoodEnv(env) && ClosedEnv(env, inst) && GoodDeclaration(types, g, g.nextIdx)
    modifies g
    ensures r.Ok? && r.result.Some? ==>
      && |r.result.value| == |types|
      && forall k :: 0 <= k < |types| ==> SameType(m, types[k], r.result.value[k])
    ensures m.ctors == ctors && m.recs == map[] && m.nested.Keys !! env.Keys
  {
    hide GoodEnv, ClosedEnv, GoodDeclaration, Reflects, GoodMaps, SameType, Processed, Erase, IsNested;
    hide ElimNested.InQueue, ElimNested.AllGood, ElimNested.Valid;
    m := Maps(map[], ctors, map[]);
    ghost var from, queued := g.nextIdx, [];
    var elim;
    elim, queued := EliminateNested(env, lvls, g, inst, types, nparams, rounds);
    if elim.Err? {
      return Err(elim.error), m;
    }
    if elim.result.None? {
      return Ok(None), m;
    }
    var el := elim.result.value;
    m := el.AuxToNested(ctors, map[]);
    NewNames(el, m);
    DeclaredProcessed(el, types, queued);
    var restored := RestoreTypes(m, el.Ctx([], TypeIds(types)), el.newTypes, |types|, g, el.nestedAux, types, from);
    r := Ok(Some(restored));
  }

  // The names of auxiliary types are new
  lemma NewNames(el: ElimNested, m: Maps)
    requires el.Valid() && m.nested.Keys == set i | 0 <= i < |el.nestedAux| :: el.nestedAux[i].1
    ensures m.nested.Keys !! el.env.Keys
  {
    hide IsNested, Erase, InFamily, TypesFor;
  }

  // The declared types come first in the queue
  lemma DeclaredProcessed(el: ElimNested, types: seq<InductiveType>, queued: seq<InductiveType>)
    requires types <= queued
    requires el.InQueue(el.Ctx([], TypeIds(types)), el.nestedAux, el.newTypes, queued, |el.newTypes|)
    ensures |types| <= |el.newTypes|
    ensures forall k :: 0 <= k < |types| ==>
      Processed(el.nestedAux, el.Ctx([], TypeIds(types)), types[k], el.newTypes[k])
  {
    hide Processed, ElimNested.AllCopies;
    assert forall k :: 0 <= k < |types| ==> queued[k] == types[k];
  }
}

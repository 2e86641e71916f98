/** Nested inductive types (src/kernel/inductive.cpp): what replacing nested applications by
  * auxiliary types makes of a term, and restore_nested, which undoes it.
  */
module NestedRestore {
  import opened Wrappers
  import opened Names
  import opened Exprs
  import opened Instantiate
  import opened Beta
  import opened Renaming
  import opened NestedApps

  // m_nested_aux: nested applications over the parameters, and the auxiliary types for them
  type Aux = seq<(Expr, Name)>

  // m_params, the parameters of the constructor at hand, m_lvls, the environment, and the types
  // that are in the queue
  datatype Context = Context(params: seq<Name>, As: seq<Name>, lvls: seq<Levels.Level>, env: Env, ids: set<Name>)

  // Iaux As is
  function AuxApp(n: Name, c: Context, rest: seq<Expr>): Expr {
    Apply(Apply(Const(n, c.lvls), FVars(c.As)), rest)
  }

  // I Ds, the first k arguments of e
  function Nested(e: Expr, k: nat): Expr
    requires k <= |Args(e)|
  {
    Apply(Head(e), Args(e)[..k])
  }

  // e = I Ds is is replaced by Iaux As is; the entry i holds I Ds over the parameters
  ghost predicate Hit(aux: Aux, c: Context, e: Expr, r: Expr, i: nat, k: nat) {
    && |c.params| == |c.As| && i < |aux| && Candidate(c.env, e) && k == c.env[Head(e).id].nparams
    && Range(Nested(e, k)) == 0
    && Erase(aux[i].0) == Erase(Rename(Nested(e, k), c.As, c.params))
    && r == AuxApp(aux[i].1, c, Args(e)[k..])
  }

  // r is e with nested applications replaced: what stays is not nested
  ghost predicate Encodes(aux: Aux, c: Context, e: Expr, r: Expr)
    decreases e, 1
  {
    (exists i: nat, k: nat :: Hit(aux, c, e, r, i, k)) || Inside(aux, c, e, r)
  }

  // Replaced below only: the head of an application that is not nested stays what it was
  ghost predicate Inside(aux: Aux, c: Context, e: Expr, r: Expr)
    decreases e, 0
  {
    !IsNested(c.env, c.ids, e) &&
    match e
    case MVar(n, t) => r.MVar? && r.id == n && Encodes(aux, c, t, r.mtype)
    case App(f, a) => r.App? && Inside(aux, c, f, r.fn) && Encodes(aux, c, a, r.arg)
    case Binding(k, n, t, b, i) =>
      && r.Binding? && r.kind == k && r.name == n && r.info == i
      && Encodes(aux, c, t, r.dom) && Encodes(aux, c, b, r.body)
    case Let(n, t, v, b) =>
      && r.Let? && r.name == n
      && Encodes(aux, c, t, r.ltype) && Encodes(aux, c, v, r.val) && Encodes(aux, c, b, r.body)
    case MData(m, x) => r.MData? && r.data == m && Encodes(aux, c, x, r.e)
    case Proj(s, i, x) => r.Proj? && r.sname == s && r.field == i && Encodes(aux, c, x, r.e)
    case _ => r == e
  }

  lemma {:induction false} InsideHead(aux: Aux, c: Context, e: Expr, r: Expr)
    requires Inside(aux, c, e, r)
    ensures if Head(e).Const? then Head(r) == Head(e) else !Head(r).Const?
  {
    if e.App? {
      InsideHead(aux, c, e.fn, r.fn);
    }
  }

  // aux' has the entries of aux, and c' at most the types of c
  ghost predicate Later(aux: Aux, aux': Aux, c: Context, c': Context) {
    aux <= aux' && c'.ids <= c.ids && c' == c.(ids := c'.ids)
  }

  // New entries do not invalidate what was encoded before, nor does it matter that more types
  // were known when it was done
  lemma {:induction false} EncodesMore(aux: Aux, aux': Aux, c: Context, c': Context, e: Expr, r: Expr)
    requires Encodes(aux, c, e, r) && Later(aux, aux', c, c')
    ensures Encodes(aux', c', e, r)
    decreases e, 1
  {
    if i: nat, k: nat :| Hit(aux, c, e, r, i, k) {
      assert Hit(aux', c', e, r, i, k);
    } else {
      InsideMore(aux, aux', c, c', e, r);
    }
  }

  lemma {:induction false} InsideMore(aux: Aux, aux': Aux, c: Context, c': Context, e: Expr, r: Expr)
    requires Inside(aux, c, e, r) && Later(aux, aux', c, c')
    ensures Inside(aux', c', e, r)
    decreases e, 0
  {
    if IsNested(c'.env, c'.ids, e) {
      NestedMore(c.env, c'.ids, c.ids, e);
    }
    match e
    case MVar(_, t) => EncodesMore(aux, aux', c, c', t, r.mtype);
    case App(f, a) =>
      InsideMore(aux, aux', c, c', f, r.fn);
      EncodesMore(aux, aux', c, c', a, r.arg);
    case Binding(_, _, t, b, _) =>
      EncodesMore(aux, aux', c, c', t, r.dom);
      EncodesMore(aux, aux', c, c', b, r.body);
    case Let(_, t, v, b) =>
      EncodesMore(aux, aux', c, c', t, r.ltype);
      EncodesMore(aux, aux', c, c', v, r.val);
      EncodesMore(aux, aux', c, c', b, r.body);
    case MData(_, x) => EncodesMore(aux, aux', c, c', x, r.e);
    case Proj(_, _, x) => EncodesMore(aux, aux', c, c', x, r.e);
    case _ =>
  }

  function RangeAll(es: seq<Expr>): nat {
    if es == [] then 0 else Larger(Range(es[0]), RangeAll(es[1..]))
  }

  lemma {:induction false} ApplyRangeAll(f: Expr, args: seq<Expr>)
    ensures Range(Apply(f, args)) == Larger(Range(f), RangeAll(args))
    decreases |args|
  {
    if args != [] {
      ApplyRangeAll(App(f, args[0]), args[1..]);
    }
  }

  lemma {:induction false} RangeAllTail(es: seq<Expr>, k: nat)
    requires k <= |es|
    ensures RangeAll(es[k..]) <= RangeAll(es)
  {
    if k > 0 {
      RangeAllTail(es[1..], k - 1);
      assert es[1..][k - 1..] == es[k..];
    }
  }

  lemma {:induction false} FVarsRange(xs: seq<Name>)
    ensures RangeAll(FVars(xs)) == 0
  {
    if xs != [] {
      FVarsRange(xs[1..]);
      assert FVars(xs)[1..] == FVars(xs[1..]);
    }
  }

  lemma HitRange(aux: Aux, c: Context, e: Expr, r: Expr, i: nat, k: nat)
    requires Hit(aux, c, e, r, i, k)
    ensures Range(r) <= Range(e)
  {
    ApplyArgs(e);
    ApplyRangeAll(Head(e), Args(e));
    RangeAllTail(Args(e), k);
    FVarsRange(c.As);
    ApplyRangeAll(Const(aux[i].1, c.lvls), FVars(c.As));
    ApplyRangeAll(Apply(Const(aux[i].1, c.lvls), FVars(c.As)), Args(e)[k..]);
  }

  lemma {:induction false} EncodesRange(aux: Aux, c: Context, e: Expr, r: Expr)
    requires Encodes(aux, c, e, r)
    ensures Range(r) <= Range(e)
    decreases e, 1
  {
    if i: nat, k: nat :| Hit(aux, c, e, r, i, k) {
      HitRange(aux, c, e, r, i, k);
    } else {
      InsideRange(aux, c, e, r);
    }
  }

  lemma {:induction false} InsideRange(aux: Aux, c: Context, e: Expr, r: Expr)
    requires Inside(aux, c, e, r)
    ensures Range(r) <= Range(e)
    decreases e, 0, 1
  {
    hide Hit, IsNested;
    match e
    case MVar(_, t) => EncodesRange(aux, c, t, r.mtype);
    case App(f, a) =>
      InsideRange(aux, c, f, r.fn);
      EncodesRange(aux, c, a, r.arg);
    case Binding(_, _, _, _, _) => InsideRangeUnder(aux, c, e, r);
    case Let(_, _, _, _) => InsideRangeUnder(aux, c, e, r);
    case MData(_, x) => EncodesRange(aux, c, x, r.e);
    case Proj(_, _, x) => EncodesRange(aux, c, x, r.e);
    case _ =>
  }

  // The cases with a binder
  lemma {:induction false} InsideRangeUnder(aux: Aux, c: Context, e: Expr, r: Expr)
    requires Inside(aux, c, e, r) && (e.Binding? || e.Let?)
    ensures Range(r) <= Range(e)
    decreases e, 0, 0
  {
    hide Hit, IsNested;
    match e
    case Binding(_, _, t, b, _) =>
      EncodesRange(aux, c, t, r.dom);
      EncodesRange(aux, c, b, r.body);
    case Let(_, t, v, b) =>
      EncodesRange(aux, c, t, r.ltype);
      EncodesRange(aux, c, v, r.val);
      EncodesRange(aux, c, b, r.body);
  }

  // ----- restore_nested -----

  // m_aux2nested, which auxiliary type a constructor of the auxiliary environment belongs
  // to, and the new names of the auxiliary recursors
  datatype Maps = Maps(nested: map<Name, Expr>, ctors: map<Name, Name>, recs: map<Name, Name>)

  // name::replace_prefix
  function ReplacePrefix(n: Name, p: Name, q: Name): Name {
    if n == p then q
    else if n == [] then n
    else ReplacePrefix(n[..|n| - 1], p, q) + [n[|n| - 1]]
  }

  lemma {:induction false} ReplacePrefixMeans(n: Name, p: Name, q: Name)
    ensures ReplacePrefix(n, p, q) == if p <= n then q + n[|p|..] else n
  {
    if n == p {
      assert q + n[|p|..] == q;
    } else if n != [] {
      var m := n[..|n| - 1];
      ReplacePrefixMeans(m, p, q);
      assert p <= n <==> p <= m;
      if p <= m {
        assert q + n[|p|..] == q + m[|p|..] + [n[|n| - 1]];
      }
    }
  }

  // The parameters are brought back: instantiate_rev(abstract(nested, m_params), Bs)
  function Reparam(nested: Expr, ps: seq<Name>, Bs: seq<Name>): Expr {
    InstRev(Abstract(nested, ps), FVars(Bs))
  }

  function Drop(es: seq<Expr>, n: nat): seq<Expr> {
    if n <= |es| then es[n..] else []
  }

  // The callback of restore_nested
  function RestoreStep(m: Maps, ps: seq<Name>, Bs: seq<Name>): Callback {
    (t: Expr, o: nat) => RestoreAt(m, ps, Bs, t)
  }

  function RestoreAt(m: Maps, ps: seq<Name>, Bs: seq<Name>, t: Expr): Option<Expr> {
    if t.Const? && t.id in m.recs then Some(Const(m.recs[t.id], t.levels))
    else
      var fn := Head(t);
      if !fn.Const? then None
      else if fn.id in m.nested then
        Some(Apply(Reparam(m.nested[fn.id], ps, Bs), Drop(Args(t), |ps|)))
      else if fn.id in m.ctors && m.ctors[fn.id] in m.nested then
        var auxI := m.ctors[fn.id];
        var nested := Reparam(m.nested[auxI], ps, Bs);
        var I := Head(nested);
        if I.Const? then
          var newFn := Const(ReplacePrefix(fn.id, auxI, I.id), I.levels);
          Some(Apply(Apply(newFn, Args(nested)), Drop(Args(t), |ps|)))
        else None
      else None
  }

  // No constant of e has a name that restore_nested changes
  predicate Plain(m: Maps, e: Expr) {
    match e
    case Const(n, _) => n !in m.nested && (n in m.ctors ==> m.ctors[n] !in m.nested) && n !in m.recs
    case MVar(_, t) => Plain(m, t)
    case App(f, a) => Plain(m, f) && Plain(m, a)
    case Binding(_, _, t, b, _) => Plain(m, t) && Plain(m, b)
    case Let(_, t, v, b) => Plain(m, t) && Plain(m, v) && Plain(m, b)
    case MData(_, x) => Plain(m, x)
    case Proj(_, _, x) => Plain(m, x)
    case _ => true
  }

  lemma {:induction false} PlainHead(m: Maps, e: Expr)
    requires Plain(m, e)
    ensures Plain(m, Head(e))
  {
    if e.App? {
      PlainHead(m, e.fn);
    }
  }

  lemma {:induction false} RenameHead(e: Expr, xs: seq<Name>, ys: seq<Name>)
    requires |xs| == |ys|
    ensures Head(Rename(e, xs, ys)) == Rename(Head(e), xs, ys)
  {
    if e.App? {
      RenameHead(e.fn, xs, ys);
    }
  }

  lemma {:induction false} RenameArgs(e: Expr, xs: seq<Name>, ys: seq<Name>)
    requires |xs| == |ys|
    ensures Args(Rename(e, xs, ys)) == RenameAll(Args(e), xs, ys)
  {
    if e.App? {
      RenameArgs(e.fn, xs, ys);
    }
  }

  // m holds exactly what aux says, and recursors have other names
  ghost predicate Reflects(m: Maps, aux: Aux) {
    forall i :: 0 <= i < |aux| ==> aux[i].1 in m.nested && m.nested[aux[i].1] == aux[i].0 && aux[i].1 !in m.recs
  }

  // The entries are closed, and their variables are the parameters, which do not occur in e
  ghost predicate Apart(c: Context, Bs: seq<Name>, e: Expr) {
    && |c.params| == |c.As| == |Bs| && Unique(c.params) && Unique(c.As) && Fresh(c.params, e)
  }

  // Restoring one replaced application
  lemma {:induction false} RestoreHit(m: Maps, aux: Aux, c: Context, Bs: seq<Name>, e: Expr, r: Expr, i: nat, k: nat)
    requires Reflects(m, aux) && Apart(c, Bs, e) && Hit(aux, c, e, r, i, k)
    ensures var x := RestoreAt(m, c.params, Bs, Rename(r, c.As, Bs));
      x.Some? && Erase(x.value) == Erase(Rename(e, c.As, Bs))
  {
    var rest := Args(e)[k..];
    var rest' := RenameAll(rest, c.As, Bs);
    RenamedAuxApp(aux[i].1, c, Bs, rest);
    assert Drop(FVars(Bs) + rest', |Bs|) == rest';
    RestoredNested(aux[i].0, c, Bs, e, k);
    NestedRest(e, k, c.As, Bs);
    EraseApply(Reparam(aux[i].0, c.params, Bs), Rename(Nested(e, k), c.As, Bs), rest');
  }

  lemma {:induction false} NestedRest(e: Expr, k: nat, xs: seq<Name>, ys: seq<Name>)
    requires k <= |Args(e)| && |xs| == |ys|
    ensures Rename(e, xs, ys) == Apply(Rename(Nested(e, k), xs, ys), RenameAll(Args(e)[k..], xs, ys))
  {
    ApplyArgs(e);
    assert Args(e) == Args(e)[..k] + Args(e)[k..];
    ApplyConcat(Head(e), Args(e)[..k], Args(e)[k..]);
    RenameApply(Nested(e, k), Args(e)[k..], xs, ys);
  }

  lemma RenamedAuxApp(n: Name, c: Context, Bs: seq<Name>, rest: seq<Expr>)
    requires |c.As| == |Bs| && Unique(c.As)
    ensures var t := Rename(AuxApp(n, c, rest), c.As, Bs);
      && Head(t) == Const(n, c.lvls) && Args(t) == FVars(Bs) + RenameAll(rest, c.As, Bs)
      && (t.Const? ==> t == Const(n, c.lvls))
  {
    var fn := Const(n, c.lvls);
    RenameApply(Apply(fn, FVars(c.As)), rest, c.As, Bs);
    RenameApply(fn, FVars(c.As), c.As, Bs);
    RenameFVars(c.As, Bs);
    SpineParts(fn, FVars(Bs), RenameAll(rest, c.As, Bs));
  }

  lemma SpineParts(fn: Expr, s: seq<Expr>, t: seq<Expr>)
    requires fn.Const?
    ensures var e := Apply(Apply(fn, s), t); Head(e) == fn && Args(e) == s + t && (e.Const? ==> e == fn)
  {
    ArgsApply(fn, s);
    ArgsApply(Apply(fn, s), t);
  }

  lemma RestoredNested(nested: Expr, c: Context, Bs: seq<Name>, e: Expr, k: nat)
    requires Apart(c, Bs, e) && k <= |Args(e)| && Range(Nested(e, k)) == 0
    requires Erase(nested) == Erase(Rename(Nested(e, k), c.As, c.params))
    ensures Erase(Reparam(nested, c.params, Bs)) == Erase(Rename(Nested(e, k), c.As, Bs))
  {
    var d := Nested(e, k);
    var d' := Rename(d, c.As, c.params);
    EraseRename(d, c.As, c.params);
    EraseRename(nested, c.params, Bs);
    EraseRename(d', c.params, Bs);
    Reopened(nested, c.params, Bs);
    forall x | x in c.params ensures !Occurs(x, d) {
      assert !Occurs(x, e);
      OccursPrefix(x, e, k);
    }
    RenameTwice(d, c.As, c.params, Bs);
  }

  lemma {:induction false} OccursPrefix(x: Name, e: Expr, k: nat)
    requires k <= |Args(e)| && !Occurs(x, e)
    ensures !Occurs(x, Nested(e, k))
  {
    if k == |Args(e)| {
      ApplyArgs(e);
      assert Args(e)[..k] == Args(e);
    } else {
      OccursPrefix(x, e.fn, k);
      assert Args(e)[..k] == Args(e.fn)[..k];
    }
  }

  // restore_nested undoes the replacement in a body, up to binder names
  lemma {:induction false} RestoreEncoded(m: Maps, aux: Aux, c: Context, Bs: seq<Name>, e: Expr, r: Expr, o: nat)
    requires Reflects(m, aux) && Apart(c, Bs, e) && Plain(m, e) && Encodes(aux, c, e, r)
    ensures Erase(Replace(RestoreStep(m, c.params, Bs), Rename(r, c.As, Bs), o)) == Erase(Rename(e, c.As, Bs))
    decreases e, 1
  {
    if i: nat, k: nat :| Hit(aux, c, e, r, i, k) {
      RestoreHit(m, aux, c, Bs, e, r, i, k);
    } else {
      RestoreInside(m, aux, c, Bs, e, r, o);
    }
  }

  lemma NotRestored(m: Maps, aux: Aux, c: Context, Bs: seq<Name>, e: Expr, r: Expr)
    requires |c.As| == |Bs| && Plain(m, e) && Inside(aux, c, e, r)
    ensures RestoreAt(m, c.params, Bs, Rename(r, c.As, Bs)).None?
  {
    InsideHead(aux, c, e, r);
    RenameHead(r, c.As, Bs);
    PlainHead(m, e);
  }

  lemma {:induction false} RestoreInside(m: Maps, aux: Aux, c: Context, Bs: seq<Name>, e: Expr, r: Expr, o: nat)
    requires Reflects(m, aux) && Apart(c, Bs, e) && Plain(m, e) && Inside(aux, c, e, r)
    ensures Erase(Replace(RestoreStep(m, c.params, Bs), Rename(r, c.As, Bs), o)) == Erase(Rename(e, c.As, Bs))
    decreases e, 0, 1
  {
    hide Apart, Hit, IsNested, Encodes, RestoreAt, Reflects, LastIndex;
    ApartParts(c, Bs, e);
    NotRestored(m, aux, c, Bs, e, r);
    match e
    case MVar(_, t) =>
      RestoreEncoded(m, aux, c, Bs, t, r.mtype, o);
    case App(f, a) =>
      RestoreInside(m, aux, c, Bs, f, r.fn, o);
      RestoreEncoded(m, aux, c, Bs, a, r.arg, o);
    case Binding(_, _, _, _, _) => RestoreBinding(m, aux, c, Bs, e, r, o);
    case Let(_, _, _, _) => RestoreLet(m, aux, c, Bs, e, r, o);
    case MData(_, x) =>
      RestoreEncoded(m, aux, c, Bs, x, r.e, o);
    case Proj(_, _, x) =>
      RestoreEncoded(m, aux, c, Bs, x, r.e, o);
    case _ =>
  }

  lemma {:induction false} RestoreBinding(m: Maps, aux: Aux, c: Context, Bs: seq<Name>, e: Expr, r: Expr, o: nat)
    requires Reflects(m, aux) && Apart(c, Bs, e) && Plain(m, e) && Inside(aux, c, e, r) && e.Binding?
    requires RestoreAt(m, c.params, Bs, Rename(r, c.As, Bs)).None?
    ensures Erase(Replace(RestoreStep(m, c.params, Bs), Rename(r, c.As, Bs), o)) == Erase(Rename(e, c.As, Bs))
    decreases e, 0, 0
  {
    hide Apart, Hit, IsNested, Encodes, RestoreAt, Reflects, LastIndex;
    ApartParts(c, Bs, e);
    RestoreEncoded(m, aux, c, Bs, e.dom, r.dom, o);
    RestoreEncoded(m, aux, c, Bs, e.body, r.body, o + 1);
  }

  lemma {:induction false} RestoreLet(m: Maps, aux: Aux, c: Context, Bs: seq<Name>, e: Expr, r: Expr, o: nat)
    requires Reflects(m, aux) && Apart(c, Bs, e) && Plain(m, e) && Inside(aux, c, e, r) && e.Let?
    requires RestoreAt(m, c.params, Bs, Rename(r, c.As, Bs)).None?
    ensures Erase(Replace(RestoreStep(m, c.params, Bs), Rename(r, c.As, Bs), o)) == Erase(Rename(e, c.As, Bs))
    decreases e, 0, 0
  {
    hide Apart, Hit, IsNested, Encodes, RestoreAt, Reflects, LastIndex;
    ApartParts(c, Bs, e);
    RestoreEncoded(m, aux, c, Bs, e.ltype, r.ltype, o);
    RestoreEncoded(m, aux, c, Bs, e.val, r.val, o);
    RestoreEncoded(m, aux, c, Bs, e.body, r.body, o + 1);
  }

  lemma ApartParts(c: Context, Bs: seq<Name>, e: Expr)
    requires Apart(c, Bs, e)
    ensures |c.params| == |c.As| == |Bs|
    ensures match e
      case MVar(_, t) => Apart(c, Bs, t)
      case App(f, a) => Apart(c, Bs, f) && Apart(c, Bs, a)
      case Binding(_, _, t, b, _) => Apart(c, Bs, t) && Apart(c, Bs, b)
      case Let(_, t, v, b) => Apart(c, Bs, t) && Apart(c, Bs, v) && Apart(c, Bs, b)
      case MData(_, x) => Apart(c, Bs, x)
      case Proj(_, _, x) => Apart(c, Bs, x)
      case _ => true
  {
  }
}

/** Local contexts and telescopes (src/kernel/local_ctx.cpp, src/util/name_generator.cpp, the
  * loops of infer_lambda, infer_pi and infer_let in src/kernel/type_checker.cpp).
  */
module LocalContexts {
  import opened Wrappers
  import opened Names
  import opened Exprs
  import opened Instantiate

  datatype Decl = Decl(idx: nat, id: Name, userName: Name, dtype: Expr, value: Option<Expr>, info: BinderInfo)

  type Decls = map<Name, Decl>

  // One binder of mk_binding, around r
  function Wrap(d: Decl, xs: seq<Name>, isLambda: bool, r: Expr): Expr {
    var t := Abstract(d.dtype, xs);
    match d.value
    case Some(v) => Let(d.userName, t, Abstract(v, xs), r)
    case None => Binding(if isLambda then Lambda else Pi, d.userName, t, r, d.info)
  }

  // The binders for the first n variables, around r
  function Bind(ds: Decls, xs: seq<Name>, n: nat, isLambda: bool, r: Expr): Expr
    requires n <= |xs| && forall i :: 0 <= i < n ==> xs[i] in ds
  {
    if n == 0 then r else Bind(ds, xs, n - 1, isLambda, Wrap(ds[xs[n - 1]], xs[..n - 1], isLambda, r))
  }

  // Further variables and declarations do not matter
  lemma {:induction false} BindExtend(ds: Decls, xs: seq<Name>, n: nat, isLambda: bool, r: Expr, ds': Decls,
                                      xs': seq<Name>)
    requires n <= |xs| && xs <= xs' && forall i :: 0 <= i < n ==> xs[i] in ds
    requires forall x :: x in ds ==> x in ds' && ds'[x] == ds[x]
    ensures Bind(ds', xs', n, isLambda, r) == Bind(ds, xs, n, isLambda, r)
  {
    if n > 0 {
      assert xs'[..n - 1] == xs[..n - 1];
      BindExtend(ds, xs, n - 1, isLambda, Wrap(ds[xs[n - 1]], xs[..n - 1], isLambda, r), ds', xs');
    }
  }

  class NameGenerator {
    const prefix: Name
    var nextIdx: nat

    constructor (p: Name)
      ensures prefix == p && nextIdx == 0
    {
      prefix, nextIdx := p, 0;
    }

    function NameAt(i: nat): Name {
      prefix + [Num(i)]
    }

    lemma NamesDiffer(i: nat, j: nat)
      requires i != j
      ensures NameAt(i) != NameAt(j)
    {
      assert NameAt(i)[|prefix|] == Num(i) && NameAt(j)[|prefix|] == Num(j);
    }

    method Next() returns (n: Name)
      modifies this
      ensures n == NameAt(old(nextIdx)) && nextIdx == old(nextIdx) + 1
    {
      n := NameAt(nextIdx);
      nextIdx := nextIdx + 1;
    }
  }

  // Which binders a loop goes through: those of infer_lambda, infer_pi or infer_let
  datatype Form = Lambdas | Pis | Lets

  predicate Opens(form: Form, e: Expr) {
    match form
    case Lambdas => IsLambda(e)
    case Pis => IsPi(e)
    case Lets => e.Let?
  }

  class LocalContext {
    var decls: Decls
    var nextIdx: nat

    constructor ()
      ensures decls == map[] && nextIdx == 0
    {
      decls, nextIdx := map[], 0;
    }

    method MkLocalDecl(n: Name, un: Name, t: Expr, v: Option<Expr>, info: BinderInfo) returns (d: Decl)
      requires n !in decls
      modifies this
      ensures d == Decl(old(nextIdx), n, un, t, v, info)
      ensures decls == old(decls)[n := d] && nextIdx == old(nextIdx) + 1
    {
      var idx := nextIdx;
      nextIdx := nextIdx + 1;
      d := Decl(idx, n, un, t, v, info);
      decls := decls[n := d];
    }

    method GetLocalDecl(n: Name) returns (r: Result<Decl>)
      ensures r == if n in decls then Ok(decls[n]) else Err(UnknownFreeVariable)
    {
      return if n in decls then Ok(decls[n]) else Err(UnknownFreeVariable);
    }

    // mk_lambda and mk_pi
    method MkBinding(isLambda: bool, xs: seq<Name>, b: Expr) returns (res: Result<Expr>)
      ensures res.Ok? <==> forall i :: 0 <= i < |xs| ==> xs[i] in decls
      ensures res.Ok? ==> res.result == Bind(decls, xs, |xs|, isLambda, Abstract(b, xs))
    {
      var r := Abstract(b, xs);
      var i := |xs|;
      while i > 0
        invariant 0 <= i <= |xs| && forall j :: i <= j < |xs| ==> xs[j] in decls
        invariant (forall j :: 0 <= j < |xs| ==> xs[j] in decls) ==>
          Bind(decls, xs, i, isLambda, r) == Bind(decls, xs, |xs|, isLambda, Abstract(b, xs))
      {
        i := i - 1;
        var decl :- GetLocalDecl(xs[i]);
        var t := Abstract(decl.dtype, xs[..i]);
        match decl.value {
          case Some(v) => r := Let(decl.userName, t, Abstract(v, xs[..i]), r);
          case None => r := Binding(if isLambda then Lambda else Pi, decl.userName, t, r, decl.info);
        }
      }
      return Ok(r);
    }

    // The names the generator will give are used neither here nor in e
    ghost predicate Unused(g: NameGenerator, from: nat, e: Expr)
      reads this
    {
      forall i: nat {:trigger g.NameAt(i)} :: i >= from ==> g.NameAt(i) !in decls && !Occurs(g.NameAt(i), e)
    }

    // Open all binders of the given form in front of e with fresh variables: the domains
    // and values are instantiated when they are declared, the rest at the end
    method Open(form: Form, e: Expr, g: NameGenerator) returns (xs: seq<Name>, body: Expr)
      requires Range(e) == 0 && Unused(g, g.nextIdx, e)
      modifies this, g
      ensures Unique(xs) && |xs| == Binders(form, e) && forall i :: 0 <= i < |xs| ==> xs[i] in decls
      ensures Bind(decls, xs, |xs|, form == Lambdas, Abstract(body, xs)) == e
      ensures forall x :: x in old(decls) ==> x in decls && decls[x] == old(decls[x])
    {
      hide InstRev, Abstract, Wrap, Occurs, Opened, Partly, Unused;
      StartOpen(form, e, g);
      xs := [];
      var raw := e;
      while Opens(form, raw)
        invariant g.nextIdx == old(g.nextIdx) + |xs|
        invariant Opened(decls, xs, raw, g, old(g.nextIdx)) && Partly(old(decls), decls, xs, raw, form, e)
        decreases raw
      {
        ghost var decls0 := decls;
        var n := Declare(raw, xs, g, form == Lambdas, old(g.nextIdx));
        OpenedNext(decls0, decls, xs, n, raw, g, old(g.nextIdx), form == Lambdas);
        PartlyNext(old(decls), decls0, decls, xs, n, raw, form, e);
        raw := raw.body;
        xs := xs + [n];
      }
      EndOpen(old(decls), xs, raw, form, e, g, old(g.nextIdx));
      body := InstRev(raw, FVars(xs));
    }

    lemma StartOpen(form: Form, e: Expr, g: NameGenerator)
      requires Range(e) == 0 && Unused(g, g.nextIdx, e)
      ensures Opened(decls, [], e, g, g.nextIdx) && Partly(decls, decls, [], e, form, e)
    {
    }

    lemma {:induction false} EndOpen(ds0: Decls, xs: seq<Name>, raw: Expr, form: Form, e: Expr, g: NameGenerator,
                                     start: nat)
      requires Opened(decls, xs, raw, g, start) && Partly(ds0, decls, xs, raw, form, e) && !Opens(form, raw)
      ensures Unique(xs) && |xs| == Binders(form, e) && forall i :: 0 <= i < |xs| ==> xs[i] in decls
      ensures Bind(decls, xs, |xs|, form == Lambdas, Abstract(InstRev(raw, FVars(xs)), xs)) == e
      ensures forall x :: x in ds0 ==> x in decls && decls[x] == ds0[x]
    {
      Distinct(g, start, xs);
      CloseOpen(raw, xs);
    }

    // The declaration of the variable for the first binder of raw
    method Declare(raw: Expr, xs: seq<Name>, g: NameGenerator, ghost isLambda: bool, ghost start: nat) returns (n: Name)
      requires Opened(decls, xs, raw, g, start) && g.nextIdx == start + |xs|
      requires raw.Let? || (raw.Binding? && (raw.kind == Lambda <==> isLambda))
      modifies this, g
      ensures g.nextIdx == old(g.nextIdx) + 1 && n == g.NameAt(start + |xs|)
      ensures n in decls && decls == old(decls)[n := decls[n]]
      ensures Wrap(decls[n], xs, isLambda, raw.body) == raw
    {
      Distinct(g, start, xs);
      n := g.Next();
      if raw.Let? {
        CloseOpen(raw.ltype, xs);
        CloseOpen(raw.val, xs);
        var t := InstRev(raw.ltype, FVars(xs));
        var v := InstRev(raw.val, FVars(xs));
        var d := MkLocalDecl(n, raw.name, t, Some(v), Default);
      } else {
        CloseOpen(raw.dom, xs);
        var t := InstRev(raw.dom, FVars(xs));
        var d := MkLocalDecl(n, raw.name, t, None, raw.info);
      }
    }

    // Opening and closing gives back the same term, binder names and infos included
    method OpenAndClose(form: Form, e: Expr, g: NameGenerator) returns (res: Result<Expr>)
      requires Range(e) == 0 && Unused(g, g.nextIdx, e)
      modifies this, g
      ensures res == Ok(e)
    {
      var xs, body := Open(form, e, g);
      res := MkBinding(form == Lambdas, xs, body);
    }
  }

  // How many binders of the form are in front of e
  function Binders(form: Form, e: Expr): nat {
    if Opens(form, e) then Binders(form, e.body) + 1 else 0
  }

  lemma Distinct(g: NameGenerator, start: nat, xs: seq<Name>)
    requires forall i :: 0 <= i < |xs| ==> xs[i] == g.NameAt(start + i)
    ensures Unique(xs)
  {
    forall i, j | 0 <= i < j < |xs| ensures xs[i] != xs[j] {
      g.NamesDiffer(start + i, start + j);
    }
  }

  // The variables xs, given out from start on, stand for the binders removed from around
  // raw; no later name is used
  ghost predicate Opened(ds: Decls, xs: seq<Name>, raw: Expr, g: NameGenerator, start: nat) {
    && Range(raw) <= |xs|
    && (forall i :: 0 <= i < |xs| ==> xs[i] == g.NameAt(start + i) && xs[i] in ds)
    && (forall i: nat {:trigger g.NameAt(i)} :: i >= start + |xs| ==> g.NameAt(i) !in ds)
    && (forall i: nat {:trigger g.NameAt(i)} :: i >= start ==> !Occurs(g.NameAt(i), raw))
  }

  // The declarations of xs, put around raw, give e
  ghost predicate Partly(ds0: Decls, ds: Decls, xs: seq<Name>, raw: Expr, form: Form, e: Expr) {
    && (forall x :: x in ds0 ==> x in ds && ds[x] == ds0[x])
    && (forall i :: 0 <= i < |xs| ==> xs[i] in ds)
    && Bind(ds, xs, |xs|, form == Lambdas, raw) == e
    && |xs| + Binders(form, raw) == Binders(form, e)
  }

  lemma PartlyNext(ds0: Decls, ds: Decls, ds': Decls, xs: seq<Name>, n: Name, raw: Expr, form: Form, e: Expr)
    requires Partly(ds0, ds, xs, raw, form, e) && Opens(form, raw) && n !in ds
    requires n in ds' && ds' == ds[n := ds'[n]] && Wrap(ds'[n], xs, form == Lambdas, raw.body) == raw
    ensures Partly(ds0, ds', xs + [n], raw.body, form, e)
  {
    var xs' := xs + [n];
    assert xs'[..|xs|] == xs;
    BindExtend(ds, xs, |xs|, form == Lambdas, raw, ds', xs');
  }

  lemma OpenedNext(ds: Decls, ds': Decls, xs: seq<Name>, n: Name, raw: Expr, g: NameGenerator, start: nat,
                   isLambda: bool)
    requires Opened(ds, xs, raw, g, start) && n == g.NameAt(start + |xs|)
    requires raw.Let? || raw.Binding?
    requires n in ds' && ds' == ds[n := ds'[n]] && Wrap(ds'[n], xs, isLambda, raw.body) == raw
    ensures Opened(ds', xs + [n], raw.body, g, start) && n !in ds
  {
    forall i: nat | i >= start + |xs| + 1 ensures g.NameAt(i) !in ds' {
      g.NamesDiffer(i, start + |xs|);
    }
  }
}

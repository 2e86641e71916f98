/** restore_nested on terms of the auxiliary environment in general, such as the types and rules
  * of recursors: what each constant in them stands for (src/kernel/inductive.cpp).
  */
module NestedRecursors {
  import opened Wrappers
  import opened Names
  import opened Exprs
  import opened Instantiate
  import opened Beta
  import opened Renaming
  import opened NestedRestore

  // ----- names of constructors -----

  // A constructor of an auxiliary type gets the name of the original back exactly when that name
  // began with the name of its type, or does not begin with that of the auxiliary type
  lemma NameBack(C: Name, J: Name, auxJ: Name)
    ensures ReplacePrefix(ReplacePrefix(C, J, auxJ), auxJ, J) == C <==> J <= C || !(auxJ <= C) || J == auxJ
  {
    ReplacePrefixMeans(C, J, auxJ);
    ReplacePrefixMeans(ReplacePrefix(C, J, auxJ), auxJ, J);
    if J <= C {
      assert (auxJ + C[|J|..])[|auxJ|..] == C[|J|..];
      assert J + C[|J|..] == C;
    } else if auxJ <= C && J != auxJ {
      assert J <= J + C[|auxJ|..];
    }
  }

  // ----- what a term of the auxiliary environment stands for -----

  // Types, constructors and recursors have different names; nested applications are closed and
  // apply constants
  ghost predicate GoodMaps(m: Maps) {
    && m.nested.Keys !! m.ctors.Keys && m.recs.Keys !! m.nested.Keys && m.recs.Keys !! m.ctors.Keys
    && forall n :: n in m.nested ==> Range(m.nested[n]) == 0 && Head(m.nested[n]).Const?
  }

  // The names whose applications are replaced as a whole
  predicate Auxiliary(m: Maps, n: Name) {
    n in m.nested || (n in m.ctors && m.ctors[n] in m.nested)
  }

  // An auxiliary type with its parameters and further arguments stands for the nested application
  // over Bs, with these arguments
  ghost predicate TypeFor(m: Maps, ps: seq<Name>, Bs: seq<Name>, r: Expr, e: Expr, ls: seq<Levels.Level>,
                          Xs: seq<Expr>, rest: seq<Expr>)
    requires Head(r).Const? && |ps| == |Bs|
  {
    var n := Head(r).id;
    && n in m.nested && |Xs| == |ps| && r == Apply(Apply(Const(n, ls), Xs), rest)
    && e == Apply(Rename(m.nested[n], ps, Bs), rest)
  }

  // A constructor of the auxiliary type for J Ds stands for the constructor C of J, with the levels
  // of J, applied to Ds over Bs
  ghost predicate CtorFor(m: Maps, ps: seq<Name>, Bs: seq<Name>, r: Expr, e: Expr, ls: seq<Levels.Level>,
                          Xs: seq<Expr>, rest: seq<Expr>, C: Name)
    requires Head(r).Const? && |ps| == |Bs|
  {
    var n := Head(r).id;
    && n in m.ctors && m.ctors[n] in m.nested && |Xs| == |ps| && r == Apply(Apply(Const(n, ls), Xs), rest)
    && var auxJ, nested := m.ctors[n], m.nested[m.ctors[n]];
      && Head(nested).Const? && Head(nested).id <= C && n == ReplacePrefix(C, Head(nested).id, auxJ)
      && e == Apply(Apply(Const(C, Head(nested).levels), RenameAll(Args(nested), ps, Bs)), rest)
  }

  // r stands for e
  ghost predicate Reads(m: Maps, ps: seq<Name>, Bs: seq<Name>, r: Expr, e: Expr)
    requires |ps| == |Bs|
    decreases r
  {
    if r.Const? && r.id in m.recs then e == Const(m.recs[r.id], r.levels)
    else if Head(r).Const? && Auxiliary(m, Head(r).id) then
      || (exists ls, Xs, rest :: TypeFor(m, ps, Bs, r, e, ls, Xs, rest))
      || (exists ls, Xs, rest, C :: CtorFor(m, ps, Bs, r, e, ls, Xs, rest, C))
    else
      match r
      case MVar(n, t) => e.MVar? && e.id == n && Reads(m, ps, Bs, t, e.mtype)
      case App(f, a) => e.App? && Reads(m, ps, Bs, f, e.fn) && Reads(m, ps, Bs, a, e.arg)
      case Binding(k, n, t, b, i) =>
        && e.Binding? && e.kind == k && e.name == n && e.info == i
        && Reads(m, ps, Bs, t, e.dom) && Reads(m, ps, Bs, b, e.body)
      case Let(n, t, v, b) =>
        && e.Let? && e.name == n
        && Reads(m, ps, Bs, t, e.ltype) && Reads(m, ps, Bs, v, e.val) && Reads(m, ps, Bs, b, e.body)
      case MData(d, x) => e.MData? && e.data == d && Reads(m, ps, Bs, x, e.e)
      case Proj(s, i, x) => e.Proj? && e.sname == s && e.field == i && Reads(m, ps, Bs, x, e.e)
      case _ => e == r
  }

  // ----- restoring gives what the term stands for -----

  lemma {:induction false} ReparamRenames(nested: Expr, ps: seq<Name>, Bs: seq<Name>)
    requires |ps| == |Bs| && Range(nested) == 0
    ensures Reparam(nested, ps, Bs) == Rename(nested, ps, Bs)
  {
    Reopened(nested, ps, Bs);
  }

  lemma {:induction false} RestoreType(m: Maps, ps: seq<Name>, Bs: seq<Name>, r: Expr, e: Expr, ls: seq<Levels.Level>,
                                       Xs: seq<Expr>, rest: seq<Expr>)
    requires GoodMaps(m) && Head(r).Const? && |ps| == |Bs| && TypeFor(m, ps, Bs, r, e, ls, Xs, rest)
    ensures RestoreAt(m, ps, Bs, r) == Some(e)
  {
    hide Rename;
    var n := Head(r).id;
    SpineParts(Const(n, ls), Xs, rest);
    assert (Xs + rest)[|ps|..] == rest;
    ReparamRenames(m.nested[n], ps, Bs);
  }

  lemma RestoreCtor(m: Maps, ps: seq<Name>, Bs: seq<Name>, r: Expr, e: Expr, ls: seq<Levels.Level>, Xs: seq<Expr>,
                    rest: seq<Expr>, C: Name)
    requires GoodMaps(m) && Head(r).Const? && |ps| == |Bs| && CtorFor(m, ps, Bs, r, e, ls, Xs, rest, C)
    ensures RestoreAt(m, ps, Bs, r) == Some(e)
  {
    hide Rename, RenameAll;
    var n := Head(r).id;
    var nested := m.nested[m.ctors[n]];
    SpineParts(Const(n, ls), Xs, rest);
    assert (Xs + rest)[|ps|..] == rest;
    ReparamRenames(nested, ps, Bs);
    RenameSpine(nested, ps, Bs);
    NameBack(C, Head(nested).id, m.ctors[n]);
  }

  lemma RenameSpine(e: Expr, xs: seq<Name>, ys: seq<Name>)
    requires |xs| == |ys| && Head(e).Const?
    ensures Head(Rename(e, xs, ys)) == Head(e) && Args(Rename(e, xs, ys)) == RenameAll(Args(e), xs, ys)
  {
    RenameHead(e, xs, ys);
    RenameArgs(e, xs, ys);
  }

  lemma NotReplaced(m: Maps, ps: seq<Name>, Bs: seq<Name>, r: Expr)
    requires !(r.Const? && r.id in m.recs) && !(Head(r).Const? && Auxiliary(m, Head(r).id))
    ensures RestoreAt(m, ps, Bs, r).None?
  {
  }

  // restore_nested gives exactly what the term stands for
  lemma {:induction false} RestoreReads(m: Maps, ps: seq<Name>, Bs: seq<Name>, r: Expr, e: Expr, o: nat)
    requires GoodMaps(m) && |ps| == |Bs| && Reads(m, ps, Bs, r, e)
    ensures Replace(RestoreStep(m, ps, Bs), r, o) == e
    decreases r, 1
  {
    hide RestoreAt, GoodMaps, TypeFor, CtorFor;
    if r.Const? && r.id in m.recs {
      RestoreRecursor(m, ps, Bs, r);
    } else if Head(r).Const? && Auxiliary(m, Head(r).id) {
      if ls, Xs, rest :| TypeFor(m, ps, Bs, r, e, ls, Xs, rest) {
        RestoreType(m, ps, Bs, r, e, ls, Xs, rest);
      } else {
        var ls, Xs, rest, C :| CtorFor(m, ps, Bs, r, e, ls, Xs, rest, C);
        RestoreCtor(m, ps, Bs, r, e, ls, Xs, rest, C);
      }
    } else {
      NotReplaced(m, ps, Bs, r);
      RestoreReadsParts(m, ps, Bs, r, e, o);
    }
  }

  lemma RestoreRecursor(m: Maps, ps: seq<Name>, Bs: seq<Name>, r: Expr)
    requires r.Const? && r.id in m.recs
    ensures RestoreAt(m, ps, Bs, r) == Some(Const(m.recs[r.id], r.levels))
  {
  }

  lemma {:induction false} RestoreReadsParts(m: Maps, ps: seq<Name>, Bs: seq<Name>, r: Expr, e: Expr, o: nat)
    requires GoodMaps(m) && |ps| == |Bs| && Reads(m, ps, Bs, r, e) && RestoreAt(m, ps, Bs, r).None?
    requires !(r.Const? && r.id in m.recs) && !(Head(r).Const? && Auxiliary(m, Head(r).id))
    ensures Replace(RestoreStep(m, ps, Bs), r, o) == e
    decreases r, 0
  {
    hide RestoreAt, GoodMaps, TypeFor, CtorFor, Auxiliary;
    match r
    case MVar(_, t) => RestoreReads(m, ps, Bs, t, e.mtype, o);
    case App(f, a) =>
      RestoreReads(m, ps, Bs, f, e.fn, o);
      RestoreReads(m, ps, Bs, a, e.arg, o);
    case Binding(_, _, t, b, _) =>
      RestoreReads(m, ps, Bs, t, e.dom, o);
      RestoreReads(m, ps, Bs, b, e.body, o + 1);
    case Let(_, t, v, b) =>
      RestoreReads(m, ps, Bs, t, e.ltype, o);
      RestoreReads(m, ps, Bs, v, e.val, o);
      RestoreReads(m, ps, Bs, b, e.body, o + 1);
    case MData(_, x) => RestoreReads(m, ps, Bs, x, e.e, o);
    case Proj(_, _, x) => RestoreReads(m, ps, Bs, x, e.e, o);
    case _ =>
  }

  // ----- which terms stand for something -----

  // What the assertions of restore_nested ask for: auxiliary types and constructors have their
  // parameters, and constructors begin with the name of their type
  ghost predicate Proper(m: Maps, n: nat, r: Expr)
    decreases r
  {
    if r.Const? && r.id in m.recs then true
    else if Head(r).Const? && Auxiliary(m, Head(r).id) then
      |Args(r)| >= n && (Head(r).id in m.ctors ==> m.ctors[Head(r).id] <= Head(r).id)
    else
      match r
      case MVar(_, t) => Proper(m, n, t)
      case App(f, a) => Proper(m, n, f) && Proper(m, n, a)
      case Binding(_, _, t, b, _) => Proper(m, n, t) && Proper(m, n, b)
      case Let(_, t, v, b) => Proper(m, n, t) && Proper(m, n, v) && Proper(m, n, b)
      case MData(_, x) => Proper(m, n, x)
      case Proj(_, _, x) => Proper(m, n, x)
      case _ => true
  }

  lemma AuxiliaryReads(m: Maps, ps: seq<Name>, Bs: seq<Name>, r: Expr) returns (e: Expr)
    requires GoodMaps(m) && |ps| == |Bs| && Proper(m, |ps|, r)
    requires !(r.Const? && r.id in m.recs) && Head(r).Const? && Auxiliary(m, Head(r).id)
    ensures Reads(m, ps, Bs, r, e)
  {
    var n, ls := Head(r).id, Head(r).levels;
    var Xs, rest := Args(r)[..|ps|], Args(r)[|ps|..];
    ApplyArgs(r);
    assert Args(r) == Xs + rest;
    ApplyConcat(Const(n, ls), Xs, rest);
    if n in m.nested {
      e := Apply(Rename(m.nested[n], ps, Bs), rest);
      assert TypeFor(m, ps, Bs, r, e, ls, Xs, rest);
    } else {
      var auxJ := m.ctors[n];
      var nested := m.nested[auxJ];
      var C := Head(nested).id + n[|auxJ|..];
      ReplacePrefixMeans(C, Head(nested).id, auxJ);
      assert C[|Head(nested).id|..] == n[|auxJ|..];
      e := Apply(Apply(Const(C, Head(nested).levels), RenameAll(Args(nested), ps, Bs)), rest);
      assert CtorFor(m, ps, Bs, r, e, ls, Xs, rest, C);
    }
  }

  // Every such term stands for something
  lemma {:induction false} ProperReads(m: Maps, ps: seq<Name>, Bs: seq<Name>, r: Expr) returns (e: Expr)
    requires GoodMaps(m) && |ps| == |Bs| && Proper(m, |ps|, r)
    ensures Reads(m, ps, Bs, r, e)
  {
    hide GoodMaps, TypeFor, CtorFor, Auxiliary;
    if r.Const? && r.id in m.recs {
      e := Const(m.recs[r.id], r.levels);
    } else if Head(r).Const? && Auxiliary(m, Head(r).id) {
      e := AuxiliaryReads(m, ps, Bs, r);
    } else {
      match r
      case MVar(n, t) =>
        var t' := ProperReads(m, ps, Bs, t);
        e := MVar(n, t');
      case App(f, a) =>
        var f' := ProperReads(m, ps, Bs, f);
        var a' := ProperReads(m, ps, Bs, a);
        e := App(f', a');
      case Binding(k, n, t, b, i) =>
        var t' := ProperReads(m, ps, Bs, t);
        var b' := ProperReads(m, ps, Bs, b);
        e := Binding(k, n, t', b', i);
      case Let(n, t, v, b) =>
        var t' := ProperReads(m, ps, Bs, t);
        var v' := ProperReads(m, ps, Bs, v);
        var b' := ProperReads(m, ps, Bs, b);
        e := Let(n, t', v', b');
      case MData(d, x) =>
        var x' := ProperReads(m, ps, Bs, x);
        e := MData(d, x');
      case Proj(s, i, x) =>
        var x' := ProperReads(m, ps, Bs, x);
        e := Proj(s, i, x');
      case _ =>
        e := r;
    }
  }

  // The result of restore_nested is the one thing that the term stands for
  lemma {:induction false} RestoreExact(m: Maps, ps: seq<Name>, Bs: seq<Name>, r: Expr, e: Expr, o: nat)
    requires GoodMaps(m) && |ps| == |Bs| && Proper(m, |ps|, r)
    ensures Reads(m, ps, Bs, r, e) <==> e == Replace(RestoreStep(m, ps, Bs), r, o)
  {
    var x := ProperReads(m, ps, Bs, r);
    RestoreReads(m, ps, Bs, r, x, o);
    if Reads(m, ps, Bs, r, e) {
      RestoreReads(m, ps, Bs, r, e, o);
    }
  }
}

/** Positions in a term: which part stands where, and under how many binders. */
module Subterms {
  import opened Wrappers
  import opened Exprs

  type Path = seq<nat>

  // The k-th part of e, and how many binders are passed on the way
  function Part(e: Expr, k: nat): (r: Option<(Expr, nat)>)
    ensures r.Some? ==> r.value.0 < e
  {
    match e
    case MVar(_, t) => if k == 0 then Some((t, 0)) else None
    case App(f, a) => if k == 0 then Some((f, 0)) else if k == 1 then Some((a, 0)) else None
    case Binding(_, _, d, b, _) => if k == 0 then Some((d, 0)) else if k == 1 then Some((b, 1)) else None
    case Let(_, t, v, b) =>
      if k == 0 then Some((t, 0)) else if k == 1 then Some((v, 0)) else if k == 2 then Some((b, 1)) else None
    case MData(_, x) => if k == 0 then Some((x, 0)) else None
    case Proj(_, _, x) => if k == 0 then Some((x, 0)) else None
    case _ => None
  }

  // What stands at a position, and under how many binders
  function At(e: Expr, path: Path): Option<(Expr, nat)> {
    if path == [] then Some((e, 0))
    else match Part(e, path[0])
      case None => None
      case Some(p) =>
        match At(p.0, path[1..])
        case None => None
        case Some(q) => Some((q.0, p.1 + q.1))
  }

  // Positions from left to right, a term before its parts
  predicate Before(p: Path, q: Path) {
    q != [] && (p == [] || p[0] < q[0] || (p[0] == q[0] && Before(p[1..], q[1..])))
  }

  lemma AtUnder(e: Expr, k: nat, path: Path)
    requires Part(e, k).Some?
    ensures At(e, [k] + path) == match At(Part(e, k).value.0, path)
      case None => None
      case Some(q) => Some((q.0, Part(e, k).value.1 + q.1))
  {
    assert ([k] + path)[1..] == path;
  }

  // ----- bound variables -----

  // The variable occurs loose in the k-th part
  predicate PartLoose(e: Expr, i: nat, k: nat) {
    Part(e, k).Some? && HasLoose(Part(e, k).value.0, i + Part(e, k).value.1)
  }

  // In one of the parts from the k-th on
  predicate AnyLoose(e: Expr, i: nat, k: nat)
    decreases 3 - k
  {
    k < 3 && (PartLoose(e, i, k) || AnyLoose(e, i, k + 1))
  }

  lemma {:induction false} AnyLooseMeans(e: Expr, i: nat)
    ensures !e.BVar? ==> (HasLoose(e, i) <==> AnyLoose(e, i, 0))
  {
    hide HasLoose, PartLoose, AnyLoose;
    LooseParts(e, i);
    ThreeParts(e, i);
  }

  lemma ThreeParts(e: Expr, i: nat)
    ensures AnyLoose(e, i, 0) <==> PartLoose(e, i, 0) || PartLoose(e, i, 1) || PartLoose(e, i, 2)
  {
    hide PartLoose, HasLoose;
    assert AnyLoose(e, i, 1) <==> PartLoose(e, i, 1) || AnyLoose(e, i, 2);
  }

  lemma {:induction false} LooseParts(e: Expr, i: nat)
    ensures !e.BVar? ==> (HasLoose(e, i) <==> PartLoose(e, i, 0) || PartLoose(e, i, 1) || PartLoose(e, i, 2))
  {
    hide HasLoose, PartLoose;
    PartIsLoose(e, i, 0);
    PartIsLoose(e, i, 1);
    PartIsLoose(e, i, 2);
    LooseIsPart(e, i);
  }

  lemma PartIsLoose(e: Expr, i: nat, k: nat)
    ensures PartLoose(e, i, k) ==> HasLoose(e, i)
  {
  }

  lemma LooseIsPart(e: Expr, i: nat)
    ensures HasLoose(e, i) && !e.BVar? ==> PartLoose(e, i, 0) || PartLoose(e, i, 1) || PartLoose(e, i, 2)
  {
    match e
    case App(_, _) =>
    case Binding(_, _, _, _, _) =>
    case Let(_, _, _, _) =>
    case _ =>
  }

  lemma {:induction false} NoneLoose(e: Expr, i: nat, k: nat)
    requires Part(e, k).None?
    ensures !AnyLoose(e, i, k)
    decreases 3 - k
  {
    if k < 3 {
      NoneLoose(e, i, k + 1);
    }
  }

  // Some loose variable with index i stands at the position
  predicate LooseAt(e: Expr, i: nat, path: Path) {
    match At(e, path)
    case None => false
    case Some(q) => q.0 == BVar(i + q.1)
  }

  // An index is loose when some position, under d binders, holds the variable i + d
  lemma {:induction false} LoosePath(e: Expr, i: nat) returns (path: Path)
    requires HasLoose(e, i)
    ensures LooseAt(e, i, path)
  {
    match e
    case BVar(_) => path := [];
    case MVar(_, t) => path := LooseUnder(e, i, 0);
    case App(f, a) => path := LooseUnder(e, i, if HasLoose(f, i) then 0 else 1);
    case Binding(_, _, d, _, _) => path := LooseUnder(e, i, if HasLoose(d, i) then 0 else 1);
    case Let(_, t, v, _) => path := LooseUnder(e, i, if HasLoose(t, i) then 0 else if HasLoose(v, i) then 1 else 2);
    case MData(_, x) => path := LooseUnder(e, i, 0);
    case Proj(_, _, x) => path := LooseUnder(e, i, 0);
  }

  lemma {:induction false} LooseUnder(e: Expr, i: nat, k: nat) returns (path: Path)
    requires Part(e, k).Some? && HasLoose(Part(e, k).value.0, i + Part(e, k).value.1)
    ensures LooseAt(e, i, path)
    decreases Part(e, k).value.0
  {
    path := LoosePath(Part(e, k).value.0, i + Part(e, k).value.1);
    AtUnder(e, k, path);
    path := [k] + path;
  }

  lemma {:induction false} LooseExact(e: Expr, i: nat, path: Path)
    requires LooseAt(e, i, path)
    ensures HasLoose(e, i)
    decreases |path|
  {
    if path != [] {
      LooseExact(Part(e, path[0]).value.0, i + Part(e, path[0]).value.1, path[1..]);
    }
  }

  lemma LooseMeans(e: Expr, i: nat)
    ensures HasLoose(e, i) <==> exists path :: LooseAt(e, i, path)
  {
    if HasLoose(e, i) {
      var path := LoosePath(e, i);
    }
    forall path | LooseAt(e, i, path) ensures HasLoose(e, i) {
      LooseExact(e, i, path);
    }
  }
}

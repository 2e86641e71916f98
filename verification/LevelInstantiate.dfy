/** Replacing universe parameters (src/kernel/level.cpp): re-simplifying on the way does not
  * change the meaning.
  */
module LevelInstantiate {
  import opened Wrappers
  import opened Names
  import opened Levels

  predicate HasParam(l: Level) {
    match l
    case Param(_) => true
    case Succ(a) => HasParam(a)
    case Max(a, b) => HasParam(a) || HasParam(b)
    case IMax(a, b) => HasParam(a) || HasParam(b)
    case _ => false
  }

  // The level for the first occurrence of id in ps
  function Lookup(id: Name, ps: seq<Name>, ls: seq<Level>): Option<Level> {
    if ps == [] || ls == [] then None
    else if ps[0] == id then Some(ls[0])
    else Lookup(id, ps[1..], ls[1..])
  }

  function ParamValue(id: Name, A: Assignment, ps: seq<Name>, ls: seq<Level>): nat {
    match Lookup(id, ps, ls)
    case Some(l) => Value(l, A)
    case None => A.param(id)
  }

  // The parameters in ps get the values of the levels in ls
  function Updated(A: Assignment, ps: seq<Name>, ls: seq<Level>): Assignment {
    Valuation((id: Name) => ParamValue(id, A, ps, ls), A.mvar, Exact)
  }

  lemma {:induction false} NoParamValue(l: Level, A: Assignment, ps: seq<Name>, ls: seq<Level>)
    requires |ps| == |ls| && !HasParam(l)
    ensures Value(l, Updated(A, ps, ls)) == Value(l, A)
  {
    match l
    case Succ(a) => NoParamValue(a, A, ps, ls);
    case Max(a, b) =>
      NoParamValue(a, A, ps, ls);
      NoParamValue(b, A, ps, ls);
    case IMax(a, b) =>
      NoParamValue(a, A, ps, ls);
      NoParamValue(b, A, ps, ls);
    case _ =>
  }

  // The loop over the two lists
  method FindParam(id: Name, ps: seq<Name>, ls: seq<Level>) returns (r: Option<Level>)
    requires |ps| == |ls|
    ensures r == Lookup(id, ps, ls)
  {
    var it1, it2 := ps, ls;
    while it1 != []
      invariant |it1| == |it2| && Lookup(id, it1, it2) == Lookup(id, ps, ls)
      decreases |it1|
    {
      if it1[0] == id {
        return Some(it2[0]);
      }
      it1, it2 := it1[1..], it2[1..];
    }
    return None;
  }

  // update_succ and update_max return the old object when is_eqp says that nothing has
  // changed; two objects may also be equal without being the same
  method UpdateSucc(l: Level, a: Level) returns (r: Level)
    requires l.Succ?
    ensures r == Succ(a)
  {
    var same: bool := *;
    if same && l.arg == a {
      return l;
    } else {
      return Succ(a);
    }
  }

  // The old object, for unchanged arguments only, or a new one that may be simplified
  predicate Remade(l: Level, l1: Level, l2: Level, r: Level)
    requires l.Max? || l.IMax?
  {
    (r == l && l.lhs == l1 && l.rhs == l2) || r == if l.Max? then MkMax(l1, l2) else MkIMax(l1, l2)
  }

  method UpdateMax(l: Level, l1: Level, l2: Level) returns (r: Level)
    requires l.Max? || l.IMax?
    ensures forall A: Assignment :: Value(r, A) == Value(if l.Max? then Max(l1, l2) else IMax(l1, l2), A)
    ensures Remade(l, l1, l2, r)
  {
    var same: bool := *;
    if same && l.lhs == l1 && l.rhs == l2 {
      return l;
    } else if l.Max? {
      return MkMax(l1, l2);
    } else {
      return MkIMax(l1, l2);
    }
  }

  // r is l with the levels put in; each max and imax was rebuilt from the new arguments
  ghost predicate InstOf(l: Level, ps: seq<Name>, ls: seq<Level>, r: Level) {
    if !HasParam(l) then r == l
    else match l
      case Param(id) => r == if Lookup(id, ps, ls).Some? then Lookup(id, ps, ls).value else l
      case Succ(a) => r.Succ? && InstOf(a, ps, ls, r.arg)
      case Max(a, b) => exists a', b' :: InstOf(a, ps, ls, a') && InstOf(b, ps, ls, b') && Remade(l, a', b', r)
      case IMax(a, b) => exists a', b' :: InstOf(a, ps, ls, a') && InstOf(b, ps, ls, b') && Remade(l, a', b', r)
  }

  // instantiate: replacing levels for parameters is giving the parameters their values
  method Instantiate(l: Level, ps: seq<Name>, ls: seq<Level>) returns (r: Level)
    requires |ps| == |ls|
    ensures forall A: Assignment :: Value(r, A) == Value(l, Updated(A, ps, ls))
    ensures InstOf(l, ps, ls, r)
    decreases l
  {
    if !HasParam(l) {
      forall A: Assignment ensures Value(l, A) == Value(l, Updated(A, ps, ls)) {
        NoParamValue(l, A, ps, ls);
      }
      return l;
    }
    match l {
      case Param(id) =>
        var found := FindParam(id, ps, ls);
        return if found.Some? then found.value else l;
      case Succ(a) =>
        var a' := Instantiate(a, ps, ls);
        r := UpdateSucc(l, a');
      case Max(a, b) =>
        var a' := Instantiate(a, ps, ls);
        var b' := Instantiate(b, ps, ls);
        r := UpdateMax(l, a', b');
      case IMax(a, b) =>
        var a' := Instantiate(a, ps, ls);
        var b' := Instantiate(b, ps, ls);
        r := UpdateMax(l, a', b');
    }
  }
}

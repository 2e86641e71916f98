/** What a recursion without a cache calls its callback on, and in which order
  * (src/kernel/for_each_fn.cpp).
  */
module Preorder {
  import opened Wrappers
  import opened Exprs
  import opened Subterms
  import opened Dag

  type Visit = (Ref, nat)

  // The callback: go on below, do not, or stop for good. A callback that has found what it
  // looks for answers false from then on
  datatype Answer = Descend | Skip | Stop

  type Callback = (Expr, nat) -> Answer

  // ----- on terms -----

  // The callback is asked about the position: it descends everywhere above it
  predicate Reached(f: Callback, e: Expr, o: nat, path: Path)
    decreases |path|
  {
    path != [] ==>
      && f(e, o).Descend? && Part(e, path[0]).Some?
      && Reached(f, Part(e, path[0]).value.0, o + Part(e, path[0]).value.1, path[1..])
  }

  function Under(k: nat, ps: seq<Path>): (qs: seq<Path>)
    ensures |qs| == |ps| && forall i :: 0 <= i < |ps| ==> qs[i] == [k] + ps[i]
  {
    if ps == [] then [] else [[k] + ps[0]] + Under(k, ps[1..])
  }

  // The positions reached, from left to right
  function Positions(f: Callback, e: Expr, o: nat): seq<Path>
    decreases e, 4
  {
    [[]] + if f(e, o).Descend? then PositionsFrom(f, e, o, 0) else []
  }

  // Those in the parts from the k-th on
  function PositionsFrom(f: Callback, e: Expr, o: nat, k: nat): seq<Path>
    requires k <= 3
    decreases e, 3 - k
  {
    match Part(e, k)
    case None => []
    case Some(p) => if k == 3 then [] else Under(k, Positions(f, p.0, o + p.1)) + PositionsFrom(f, e, o, k + 1)
  }

  ghost predicate InOrder(ps: seq<Path>) {
    forall i, j :: 0 <= i < j < |ps| ==> Before(ps[i], ps[j])
  }

  lemma {:induction false} PositionsOrdered(f: Callback, e: Expr, o: nat)
    ensures InOrder(Positions(f, e, o))
    decreases e, 4
  {
    if f(e, o).Descend? {
      FromOrdered(f, e, o, 0);
    }
  }

  lemma {:induction false} FromOrdered(f: Callback, e: Expr, o: nat, k: nat)
    requires k <= 3
    ensures InOrder(PositionsFrom(f, e, o, k))
    ensures forall p :: p in PositionsFrom(f, e, o, k) ==> p != [] && p[0] >= k
    decreases e, 3 - k
  {
    hide Before, Positions, Part, Under;
    if Part(e, k).Some? && k < 3 {
      var p := Part(e, k).value;
      PositionsOrdered(f, p.0, o + p.1);
      FromOrdered(f, e, o, k + 1);
      UnderOrdered(k, Positions(f, p.0, o + p.1), PositionsFrom(f, e, o, k + 1));
    }
  }

  lemma UnderOrdered(k: nat, ps: seq<Path>, qs: seq<Path>)
    requires InOrder(ps) && InOrder(qs) && forall q :: q in qs ==> q != [] && q[0] >= k + 1
    ensures InOrder(Under(k, ps) + qs) && forall p :: p in Under(k, ps) + qs ==> p != [] && p[0] >= k
  {
    forall i, j | 0 <= i < j < |ps| ensures Before(Under(k, ps)[i], Under(k, ps)[j]) {
      assert ([k] + ps[i])[1..] == ps[i] && ([k] + ps[j])[1..] == ps[j];
    }
  }

  lemma {:induction false} PositionsReached(f: Callback, e: Expr, o: nat, path: Path)
    ensures path in Positions(f, e, o) <==> Reached(f, e, o, path)
    decreases |path|, 1, 0
  {
    if path != [] && f(e, o).Descend? {
      FromReached(f, e, o, 0, path);
      assert path in Positions(f, e, o) <==> path in PositionsFrom(f, e, o, 0);
    }
  }

  lemma {:induction false} FromReached(f: Callback, e: Expr, o: nat, k: nat, path: Path)
    requires k <= 3 && path != [] && f(e, o).Descend?
    ensures path in PositionsFrom(f, e, o, k) <==> path[0] >= k && Reached(f, e, o, path)
    decreases |path|, 0, 3 - k
  {
    hide Positions, Under, Part;
    PartCount(e, k, path[0]);
    if Part(e, k).Some? && k < 3 {
      var p := Part(e, k).value;
      var ps := Positions(f, p.0, o + p.1);
      FromReached(f, e, o, k + 1, path);
      PositionsReached(f, p.0, o + p.1, path[1..]);
      UnderMembers(k, ps, path);
    }
  }

  // Parts are numbered from 0 on, and there are at most three
  lemma PartCount(e: Expr, k: nat, j: nat)
    ensures Part(e, k).None? && k <= j ==> Part(e, j).None?
    ensures k >= 3 ==> Part(e, k).None?
  {
  }

  lemma UnderMembers(k: nat, ps: seq<Path>, path: Path)
    requires path != []
    ensures path in Under(k, ps) <==> path[0] == k && path[1..] in ps
  {
    if path[0] == k && path[1..] in ps {
      var i :| 0 <= i < |ps| && ps[i] == path[1..];
      assert path == [k] + path[1..] == Under(k, ps)[i];
    }
    if path in Under(k, ps) {
      var i :| 0 <= i < |ps| && Under(k, ps)[i] == path;
      assert path[1..] == ps[i];
    }
  }

  // ----- on nodes -----

  // The children with their offsets, the one visited first last, as they are pushed
  function Pushed(c: Cell, o: nat): seq<Visit> {
    match c
    case Leaf(_) => []
    case MVarCell(_, t) => [(t, o)]
    case AppCell(f, a) => [(a, o), (f, o)]
    case BindingCell(_, _, d, b, _) => [(b, o + 1), (d, o)]
    case LetCell(_, t, v, b) => [(b, o + 1), (v, o), (t, o)]
    case MDataCell(_, x) => [(x, o)]
    case ProjCell(_, _, x) => [(x, o)]
  }

  predicate Good(s: Store, todo: seq<Visit>) {
    forall p :: p in todo ==> p.0 < |s|
  }

  // What the plain recursion visits, in its order
  ghost function Visits(s: Store, f: Callback, e: Ref, o: nat): (vs: seq<Visit>)
    requires StoreOk(s) && e < |s|
    ensures vs != [] && vs[0] == (e, o)
    decreases e
  {
    assert CellOk(s[e], e);
    [(e, o)] +
    if !f(Term(s, e), o).Descend? then [] else
      match s[e]
      case Leaf(_) => []
      case MVarCell(_, t) => Visits(s, f, t, o)
      case AppCell(g, a) => Visits(s, f, g, o) + Visits(s, f, a, o)
      case BindingCell(_, _, d, b, _) => Visits(s, f, d, o) + Visits(s, f, b, o + 1)
      case LetCell(_, t, v, b) => Visits(s, f, t, o) + Visits(s, f, v, o) + Visits(s, f, b, o + 1)
      case MDataCell(_, x) => Visits(s, f, x, o)
      case ProjCell(_, _, x) => Visits(s, f, x, o)
  }

  // What it visits for a stack, from the top
  ghost function Pending(s: Store, f: Callback, todo: seq<Visit>): (vs: seq<Visit>)
    requires StoreOk(s) && Good(s, todo)
    ensures |vs| >= |todo|
  {
    if todo == [] then [] else
      var n := |todo| - 1;
      assert todo[n] in todo;
      Visits(s, f, todo[n].0, todo[n].1) + Pending(s, f, todo[..n])
  }

  lemma PendingPush(s: Store, f: Callback, todo: seq<Visit>, p: Visit)
    requires StoreOk(s) && Good(s, todo) && p.0 < |s|
    ensures Good(s, todo + [p])
    ensures Pending(s, f, todo + [p]) == Visits(s, f, p.0, p.1) + Pending(s, f, todo)
  {
    assert (todo + [p])[..|todo|] == todo;
  }

  lemma Child(s: Store, e: Ref)
    requires StoreOk(s) && e < |s|
    ensures CellOk(s[e], e)
  {
  }

  // Going below a node on top of the stack
  lemma {:induction false} PendingPushed(s: Store, f: Callback, todo: seq<Visit>, e: Ref, o: nat)
    requires StoreOk(s) && Good(s, todo) && e < |s| && f(Term(s, e), o).Descend?
    ensures Good(s, todo + Pushed(s[e], o))
    ensures Visits(s, f, e, o) + Pending(s, f, todo) == [(e, o)] + Pending(s, f, todo + Pushed(s[e], o))
  {
    hide Pending, Term, StoreOk;
    assert CellOk(s[e], e) by {
      Child(s, e);
    }
    match s[e]
    case Leaf(_) => assert todo + [] == todo;
    case MVarCell(_, t) => PendingPush(s, f, todo, (t, o));
    case AppCell(g, a) => PendingTwo(s, f, todo, (g, o), (a, o));
    case BindingCell(_, _, d, b, _) => PendingTwo(s, f, todo, (d, o), (b, o + 1));
    case LetCell(_, t, v, b) => PendingThree(s, f, todo, (t, o), (v, o), (b, o + 1));
    case MDataCell(_, x) => PendingPush(s, f, todo, (x, o));
    case ProjCell(_, _, x) => PendingPush(s, f, todo, (x, o));
  }

  lemma {:induction false} PendingTwo(s: Store, f: Callback, todo: seq<Visit>, p: Visit, q: Visit)
    requires StoreOk(s) && Good(s, todo) && p.0 < |s| && q.0 < |s|
    ensures Good(s, todo + [q, p])
    ensures Pending(s, f, todo + [q, p]) == Visits(s, f, p.0, p.1) + Visits(s, f, q.0, q.1) + Pending(s, f, todo)
  {
    hide Pending, Visits;
    PendingPush(s, f, todo, q);
    PendingPush(s, f, todo + [q], p);
    assert todo + [q] + [p] == todo + [q, p];
  }

  lemma {:induction false} PendingThree(s: Store, f: Callback, todo: seq<Visit>, p: Visit, q: Visit, r: Visit)
    requires StoreOk(s) && Good(s, todo) && p.0 < |s| && q.0 < |s| && r.0 < |s|
    ensures Good(s, todo + [r, q, p])
    ensures Pending(s, f, todo + [r, q, p]) ==
      Visits(s, f, p.0, p.1) + Visits(s, f, q.0, q.1) + Visits(s, f, r.0, r.1) + Pending(s, f, todo)
  {
    hide Pending, Visits;
    PendingTwo(s, f, todo, q, r);
    PendingPush(s, f, todo + [r, q], p);
    assert todo + [r, q] + [p] == todo + [r, q, p];
  }

  // ----- visits are positions -----

  // The visit is to what stands at the position, with the number of binders passed
  ghost predicate Shows(s: Store, v: Visit, e: Expr, o: nat, path: Path)
    requires StoreOk(s)
  {
    v.0 < |s| && v.1 >= o && At(e, path) == Some((Term(s, v.0), v.1 - o))
  }

  ghost predicate AllShow(s: Store, vs: seq<Visit>, e: Expr, o: nat, ps: seq<Path>)
    requires StoreOk(s)
  {
    |vs| == |ps| && forall n :: 0 <= n < |vs| ==> Shows(s, vs[n], e, o, ps[n])
  }

  // The children are the parts
  lemma PushedParts(s: Store, e: Ref, o: nat, k: nat)
    requires StoreOk(s) && e < |s|
    ensures Good(s, Pushed(s[e], o)) && forall p :: p in Pushed(s[e], o) ==> p.0 < e && p.1 >= o
    ensures var n := |Pushed(s[e], o)|;
      && n <= 3
      && if k < n then var p := Pushed(s[e], o)[n - 1 - k]; Part(Term(s, e), k) == Some((Term(s, p.0), p.1 - o))
         else Part(Term(s, e), k) == None
  {
    assert CellOk(s[e], e);
  }

  // Each visit belongs to a position, in this order; every position reached is visited
  lemma {:induction false} VisitsPositions(s: Store, f: Callback, e: Ref, o: nat)
    requires StoreOk(s) && e < |s|
    ensures AllShow(s, Visits(s, f, e, o), Term(s, e), o, Positions(f, Term(s, e), o))
    decreases e, 4
  {
    hide Term, Part, Pending, StoreOk;
    var t := Term(s, e);
    if f(t, o).Descend? {
      var todo := Pushed(s[e], o);
      PushedParts(s, e, o, 0);
      FromPositions(s, f, e, o, 0);
      assert todo[..|todo|] == todo;
      VisitsBelow(s, f, e, o);
    }
  }

  lemma {:induction false} VisitsBelow(s: Store, f: Callback, e: Ref, o: nat)
    requires StoreOk(s) && e < |s| && f(Term(s, e), o).Descend?
    ensures Good(s, Pushed(s[e], o)) && Visits(s, f, e, o) == [(e, o)] + Pending(s, f, Pushed(s[e], o))
  {
    PendingPushed(s, f, [], e, o);
    assert [] + Pushed(s[e], o) == Pushed(s[e], o);
    assert Visits(s, f, e, o) + [] == Visits(s, f, e, o);
  }

  lemma {:induction false} FromPositions(s: Store, f: Callback, e: Ref, o: nat, k: nat)
    requires StoreOk(s) && e < |s| && k <= |Pushed(s[e], o)| <= 3 && Good(s, Pushed(s[e], o))
    ensures var todo := Pushed(s[e], o)[..|Pushed(s[e], o)| - k];
      && Good(s, todo)
      && AllShow(s, Pending(s, f, todo), Term(s, e), o, PositionsFrom(f, Term(s, e), o, k))
    decreases e, 3 - k
  {
    hide Term, Part, Pushed, StoreOk, At, Visits, Positions, Shows, Under;
    var all := Pushed(s[e], o);
    var n := |all| - k;
    var t := Term(s, e);
    PushedParts(s, e, o, k);
    if n > 0 {
      var p := all[n - 1];
      assert p in all;
      VisitsPositions(s, f, p.0, p.1);
      FromPositions(s, f, e, o, k + 1);
      assert all[..n][..n - 1] == all[..n - 1];
      PartPositions(s, Visits(s, f, p.0, p.1), t, o, k, Positions(f, Term(s, p.0), p.1));
    }
  }

  lemma PartPositions(s: Store, vs: seq<Visit>, e: Expr, o: nat, k: nat, ps: seq<Path>)
    requires StoreOk(s) && Part(e, k).Some?
    requires AllShow(s, vs, Part(e, k).value.0, o + Part(e, k).value.1, ps)
    ensures AllShow(s, vs, e, o, Under(k, ps))
  {
    hide At;
    forall n | 0 <= n < |vs| ensures Shows(s, vs[n], e, o, Under(k, ps)[n]) {
      assert Shows(s, vs[n], Part(e, k).value.0, o + Part(e, k).value.1, ps[n]);
      AtUnder(e, k, ps[n]);
    }
  }
}

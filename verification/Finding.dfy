/** What the callers of for_each find with it: the first subterm with a property (src/kernel/find_fn.h),
  * and whether a variable occurs loose (src/kernel/expr.cpp).
  */
module Finding {
  import opened Wrappers
  import opened Exprs
  import opened Subterms
  import opened Dag
  import opened Preorder
  import opened CachedForEach

  // ----- the order of positions -----

  lemma {:induction false} BeforeOrder(p: Path, q: Path, r: Path)
    ensures !Before(p, p)
    ensures !(Before(p, q) && Before(q, p))
    ensures Before(p, q) && Before(q, r) ==> Before(p, r)
    decreases |p|
  {
    if p != [] {
      BeforeOrder(p[1..], p[1..], p[1..]);
      if q != [] {
        BeforeOrder(p[1..], q[1..], if r == [] then [] else r[1..]);
      }
    }
  }

  lemma {:induction false} PrefixBefore(p: Path, q: Path)
    requires p <= q
    ensures p == q || Before(p, q)
  {
    if p != [] {
      assert p[1..] <= q[1..];
      PrefixBefore(p[1..], q[1..]);
      assert p == [p[0]] + p[1..] && q == [q[0]] + q[1..];
    }
  }

  // ----- find -----

  type Property = (Expr, nat) -> bool

  // The callback of find
  function FindStep(p: Property): Callback {
    (e: Expr, o: nat) => if p(e, o) then Stop else Descend
  }

  // The property holds at the position
  predicate HoldsAt(p: Property, e: Expr, o: nat, path: Path) {
    match At(e, path)
    case None => false
    case Some(q) => p(q.0, o + q.1)
  }

  // A position that is not reached is below one with the property
  lemma {:induction false} StoppedAbove(p: Property, e: Expr, o: nat, path: Path) returns (above: Path)
    requires At(e, path).Some?
    ensures above <= path && Reached(FindStep(p), e, o, above)
    ensures above == path || HoldsAt(p, e, o, above)
    decreases |path|
  {
    if path == [] || p(e, o) {
      above := [];
    } else {
      var q := Part(e, path[0]).value;
      above := StoppedAbove(p, q.0, o + q.1, path[1..]);
      AtUnder(e, path[0], above);
      above := [path[0]] + above;
    }
  }

  // Where the first stop is
  lemma {:induction false} StopIndex(s: Store, f: Callback, vs: seq<Visit>) returns (n: nat)
    requires StoreOk(s) && Found(s, f, vs).Some?
    ensures n < |vs| && Found(s, f, vs) == Some(vs[n]) && NoStop(s, f, vs[..n])
  {
    if Stops(s, f, vs[0]) {
      n := 0;
    } else {
      n := StopIndex(s, f, vs[1..]);
      assert vs[..n + 1] == [vs[0]] + vs[1..][..n];
      n := n + 1;
    }
  }

  // The n-th visit stops exactly when the property holds at its position
  lemma {:induction false} StopsAt(s: Store, p: Property, e: Ref, n: nat)
    requires StoreOk(s) && e < |s| && n < |Visits(s, FindStep(p), e, 0)|
    ensures var f, t := FindStep(p), Term(s, e);
      var ps := Positions(f, t, 0);
      && |ps| == |Visits(s, f, e, 0)| && Shows(s, Visits(s, f, e, 0)[n], t, 0, ps[n])
      && (Stops(s, f, Visits(s, f, e, 0)[n]) <==> HoldsAt(p, t, 0, ps[n]))
  {
    hide Visits, Positions, Term;
    VisitsPositions(s, FindStep(p), e, 0);
  }

  // It is the first position, from left to right, at which the property holds
  ghost predicate FirstAt(p: Property, e: Expr, path: Path) {
    && HoldsAt(p, e, 0, path)
    && forall q :: Before(q, path) ==> !HoldsAt(p, e, 0, q)
  }

  lemma NothingFound(s: Store, p: Property, e: Ref, path: Path)
    requires StoreOk(s) && e < |s| && Found(s, FindStep(p), Visits(s, FindStep(p), e, 0)).None?
    ensures !HoldsAt(p, Term(s, e), 0, path)
  {
    hide Visits, Positions, Term, Reached, Found;
    var f, t := FindStep(p), Term(s, e);
    if At(t, path).Some? {
      var q := StoppedAbove(p, t, 0, path);
      PositionsReached(f, t, 0, q);
      var n :| 0 <= n < |Positions(f, t, 0)| && Positions(f, t, 0)[n] == q;
      VisitsPositions(s, f, e, 0);
      StopsAt(s, p, e, n);
      StoppedNot(s, f, Visits(s, f, e, 0), n);
    }
  }

  lemma StoppedNot(s: Store, f: Callback, vs: seq<Visit>, n: nat)
    requires StoreOk(s) && NoStop(s, f, vs)
    ensures n < |vs| ==> !Stops(s, f, vs[n])
  {
  }

  lemma {:induction false} SomethingFound(s: Store, p: Property, e: Ref) returns (path: Path)
    requires StoreOk(s) && e < |s| && Found(s, FindStep(p), Visits(s, FindStep(p), e, 0)).Some?
    ensures var v := Found(s, FindStep(p), Visits(s, FindStep(p), e, 0)).value;
      v.0 < |s| && At(Term(s, e), path) == Some((Term(s, v.0), v.1)) && FirstAt(p, Term(s, e), path)
  {
    hide Visits, Positions, Term, Reached, Found, NoStop;
    var f, t := FindStep(p), Term(s, e);
    var n := StopIndex(s, f, Visits(s, f, e, 0));
    StopsAt(s, p, e, n);
    path := Positions(f, t, 0)[n];
    forall q | Before(q, path) ensures !HoldsAt(p, t, 0, q) {
      if At(t, q).Some? {
        EarlierNot(s, p, e, n, q);
      }
    }
  }

  lemma EarlierNot(s: Store, p: Property, e: Ref, n: nat, q: Path)
    requires StoreOk(s) && e < |s| && At(Term(s, e), q).Some?
    requires var f, t := FindStep(p), Term(s, e);
      && n < |Visits(s, f, e, 0)| == |Positions(f, t, 0)| && NoStop(s, f, Visits(s, f, e, 0)[..n])
      && Before(q, Positions(f, t, 0)[n])
    ensures !HoldsAt(p, Term(s, e), 0, q)
  {
    hide Visits, Positions, Term, Reached, NoStop, Stops, HoldsAt;
    var f, t := FindStep(p), Term(s, e);
    var ps, vs := Positions(f, t, 0), Visits(s, f, e, 0);
    var r := StoppedAbove(p, t, 0, q);
    PositionsReached(f, t, 0, r);
    var m :| 0 <= m < |ps| && ps[m] == r;
    StopsAt(s, p, e, m);
    StoppedNot(s, f, vs[..n], m);
    PositionsOrdered(f, t, 0);
    assert n < m ==> Before(ps[n], ps[m]);
    PrefixBefore(r, q);
    BeforeOrder(ps[n], r, q);
    BeforeOrder(q, ps[n], r);
  }

  // x stands at the first position with the property
  ghost predicate IsFirst(p: Property, e: Expr, path: Path, x: Expr) {
    FirstAt(p, e, path) && At(e, path).Some? && At(e, path).value.0 == x
  }

  // What find returns
  lemma {:induction false} FindResult(s: Store, p: Property, e: Ref)
    requires StoreOk(s) && e < |s|
    ensures match Found(s, FindStep(p), Visits(s, FindStep(p), e, 0))
      case None => forall path :: !HoldsAt(p, Term(s, e), 0, path)
      case Some(v) => v.0 < |s| && exists path :: IsFirst(p, Term(s, e), path, Term(s, v.0))
  {
    hide Visits, HoldsAt, Found;
    if Found(s, FindStep(p), Visits(s, FindStep(p), e, 0)).None? {
      forall path ensures !HoldsAt(p, Term(s, e), 0, path) {
        NothingFound(s, p, e, path);
      }
    } else {
      var path := SomethingFound(s, p, e);
      assert IsFirst(p, Term(s, e), path, Term(s, Found(s, FindStep(p), Visits(s, FindStep(p), e, 0)).value.0));
    }
  }

  // ----- has_loose_bvar -----

  // The callback: parts whose cached range is too small are skipped
  function LooseStep(i: nat): Callback {
    (e: Expr, o: nat) =>
      if i + o >= Range(e) then Skip
      else if e.BVar? && e.idx == i + o then Stop
      else Descend
  }

  // The recursion stops somewhere if and only if the variable occurs loose
  lemma {:induction false} LooseFound(s: Store, i: nat, e: Ref, o: nat)
    requires StoreOk(s) && e < |s|
    ensures Found(s, LooseStep(i), Visits(s, LooseStep(i), e, o)).Some? <==> HasLoose(Term(s, e), i + o)
    decreases e
  {
    hide Visits, Pending, Pushed, Found, HasLoose, Range, Term;
    var f, t := LooseStep(i), Term(s, e);
    AnyLooseMeans(t, i + o);
    LooseRange(t, i + o);
    if f(t, o).Descend? {
      PushedParts(s, e, o, 0);
      VisitsBelow(s, f, e, o);
      FoundConcat(s, f, [(e, o)], Pending(s, f, Pushed(s[e], o)));
      LooseInParts(s, i, e, o, 0);
      assert Pushed(s[e], o)[..|Pushed(s[e], o)|] == Pushed(s[e], o);
    } else {
      VisitsOnly(s, f, (e, o));
    }
    FoundOne(s, f, (e, o));
  }

  lemma LooseRange(e: Expr, i: nat)
    ensures i >= Range(e) ==> !HasLoose(e, i)
    ensures e.BVar? ==> (HasLoose(e, i) <==> e.idx == i)
  {
    RangeExact(e);
  }

  lemma FoundOne(s: Store, f: Callback, v: Visit)
    requires StoreOk(s)
    ensures Found(s, f, [v]).Some? <==> Stops(s, f, v)
  {
  }

  // From the k-th part on
  lemma {:induction false} LooseInParts(s: Store, i: nat, e: Ref, o: nat, k: nat)
    requires StoreOk(s) && e < |s| && k <= |Pushed(s[e], o)| <= 3 && Good(s, Pushed(s[e], o))
    ensures var todo := Pushed(s[e], o)[..|Pushed(s[e], o)| - k];
      && Good(s, todo)
      && (Found(s, LooseStep(i), Pending(s, LooseStep(i), todo)).Some? <==> AnyLoose(Term(s, e), i + o, k))
    decreases e, 3 - k
  {
    hide Visits, Pushed, HasLoose, Range, Term, Part, LooseStep;
    var f, all := LooseStep(i), Pushed(s[e], o);
    var n := |all| - k;
    PushedParts(s, e, o, k);
    if n > 0 {
      var p := all[n - 1];
      assert p in all && all[..n][..n - 1] == all[..n - 1];
      LooseInParts(s, i, e, o, k + 1);
      LooseFound(s, i, p.0, p.1);
      FoundConcat(s, f, Visits(s, f, p.0, p.1), Pending(s, f, all[..n - 1]));
    } else {
      NoneLoose(Term(s, e), i + o, k);
    }
  }
}

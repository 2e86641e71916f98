/** for_each_fn: a traversal with an explicit stack and a lossy cache of visited nodes
  * (src/kernel/for_each_fn.cpp).
  */
module CachedForEach {
  import opened Wrappers
  import opened Dag
  import opened DirectCache
  import opened Preorder

  type VisitCache = DirectCache<Visit, ()>

  // ----- first visits -----

  // Each visit once, in the order of the first ones
  function Firsts(vs: seq<Visit>): seq<Visit> {
    if vs == [] then [] else
      var n := |vs| - 1;
      Firsts(vs[..n]) + if vs[n] in vs[..n] then [] else [vs[n]]
  }

  lemma {:induction false} FirstsMembers(vs: seq<Visit>)
    ensures forall v :: v in Firsts(vs) <==> v in vs
  {
    if vs != [] {
      FirstsMembers(vs[..|vs| - 1]);
      assert vs == vs[..|vs| - 1] + [vs[|vs| - 1]];
    }
  }

  lemma FirstsSnoc(vs: seq<Visit>, v: Visit)
    ensures Firsts(vs + [v]) == Firsts(vs) + if v in vs then [] else [v]
  {
    assert (vs + [v])[..|vs|] == vs;
  }

  lemma {:induction false} FirstsPrefix(vs: seq<Visit>, ws: seq<Visit>)
    ensures Firsts(vs) <= Firsts(vs + ws)
    decreases |ws|
  {
    if ws == [] {
      assert vs + ws == vs;
    } else {
      var n := |ws| - 1;
      FirstsPrefix(vs, ws[..n]);
      FirstsSnoc(vs + ws[..n], ws[n]);
      assert vs + ws == vs + ws[..n] + [ws[n]];
    }
  }

  // What has been visited before makes no difference
  lemma {:induction false} FirstsSkip(vs: seq<Visit>, again: seq<Visit>, ws: seq<Visit>)
    requires forall v :: v in again ==> v in vs
    ensures Firsts(vs + again + ws) == Firsts(vs + ws)
    decreases |again| + |ws|
  {
    if ws != [] {
      var n := |ws| - 1;
      FirstsSkip(vs, again, ws[..n]);
      FirstsSnoc(vs + again + ws[..n], ws[n]);
      FirstsSnoc(vs + ws[..n], ws[n]);
      assert vs + again + ws == vs + again + ws[..n] + [ws[n]];
      assert vs + ws == vs + ws[..n] + [ws[n]];
    } else if again != [] {
      var n := |again| - 1;
      FirstsSkip(vs, again[..n], []);
      FirstsSnoc(vs + again[..n], again[n]);
      assert again[n] in again;
      assert vs + again + [] == vs + again[..n] + [again[n]] && vs + again[..n] + [] == vs + again[..n];
    } else {
      assert vs + again + ws == vs + ws;
    }
  }

  // ----- up to where the callback stops -----

  predicate Stops(s: Store, f: Callback, v: Visit)
    requires StoreOk(s)
  {
    v.0 < |s| && f(Term(s, v.0), v.1).Stop?
  }

  predicate NoStop(s: Store, f: Callback, vs: seq<Visit>)
    requires StoreOk(s)
  {
    forall v :: v in vs ==> !Stops(s, f, v)
  }

  // The visits up to the first one at which the callback stops
  function Until(s: Store, f: Callback, vs: seq<Visit>): seq<Visit>
    requires StoreOk(s)
  {
    if vs == [] then []
    else if Stops(s, f, vs[0]) then [vs[0]]
    else [vs[0]] + Until(s, f, vs[1..])
  }

  lemma {:induction false} UntilAll(s: Store, f: Callback, vs: seq<Visit>)
    requires StoreOk(s) && NoStop(s, f, vs)
    ensures Until(s, f, vs) == vs
  {
    if vs != [] {
      assert vs[0] in vs && forall v :: v in vs[1..] ==> v in vs;
      UntilAll(s, f, vs[1..]);
    }
  }

  lemma {:induction false} UntilFirst(s: Store, f: Callback, vs: seq<Visit>, v: Visit, ws: seq<Visit>)
    requires StoreOk(s) && NoStop(s, f, vs) && Stops(s, f, v)
    ensures Until(s, f, vs + [v] + ws) == vs + [v]
  {
    if vs == [] {
      assert (vs + [v] + ws)[0] == v;
    } else {
      assert vs[0] in vs && forall u :: u in vs[1..] ==> u in vs;
      assert (vs + [v] + ws)[1..] == vs[1..] + [v] + ws;
      UntilFirst(s, f, vs[1..], v, ws);
    }
  }

  // Where that is
  function Found(s: Store, f: Callback, vs: seq<Visit>): (r: Option<Visit>)
    requires StoreOk(s)
    ensures r.Some? ==> r.value in vs && Stops(s, f, r.value)
    ensures r.None? ==> NoStop(s, f, vs)
  {
    if vs == [] then None
    else if Stops(s, f, vs[0]) then Some(vs[0])
    else
      assert vs == [vs[0]] + vs[1..];
      Found(s, f, vs[1..])
  }

  lemma {:induction false} FoundConcat(s: Store, f: Callback, vs: seq<Visit>, ws: seq<Visit>)
    requires StoreOk(s)
    ensures Found(s, f, vs + ws) == if Found(s, f, vs).Some? then Found(s, f, vs) else Found(s, f, ws)
  {
    if vs == [] {
      assert vs + ws == ws;
    } else {
      assert (vs + ws)[0] == vs[0] && (vs + ws)[1..] == vs[1..] + ws;
      FoundConcat(s, f, vs[1..], ws);
    }
  }

  lemma {:induction false} FoundFirsts(s: Store, f: Callback, vs: seq<Visit>)
    requires StoreOk(s)
    ensures Found(s, f, Firsts(vs)) == Found(s, f, vs)
  {
    if vs != [] {
      var n := |vs| - 1;
      FoundFirsts(s, f, vs[..n]);
      FoundConcat(s, f, vs[..n], [vs[n]]);
      FoundConcat(s, f, Firsts(vs[..n]), if vs[n] in vs[..n] then [] else [vs[n]]);
      assert vs == vs[..n] + [vs[n]];
    }
  }

  // ----- the stack -----

  // bounds[j] is the node that pushed todo[j]: nodes above it on the stack are below that node
  ghost predicate Stacked(s: Store, todo: seq<Visit>, bounds: seq<nat>) {
    && Good(s, todo) && |bounds| == |todo|
    && forall j, k :: 0 <= j <= k < |todo| ==> todo[k].0 < bounds[j]
  }

  // What a visited pair leads to has been visited, or is to be for something pushed below it
  ghost predicate Led(s: Store, f: Callback, calls: seq<Visit>, todo: seq<Visit>, bounds: seq<nat>, p: Visit, q: Visit)
    requires StoreOk(s) && Stacked(s, todo, bounds)
  {
    q in calls || exists j :: 0 <= j < |todo| && bounds[j] <= p.0 && q in Visits(s, f, todo[j].0, todo[j].1)
  }

  ghost predicate AllLed(s: Store, f: Callback, calls: seq<Visit>, todo: seq<Visit>, bounds: seq<nat>)
    requires StoreOk(s) && Stacked(s, todo, bounds)
  {
    forall p, q :: p in calls && p.0 < |s| && q in Visits(s, f, p.0, p.1) ==> Led(s, f, calls, todo, bounds, p, q)
  }

  // all is what the recursion visits
  ghost predicate Traversing(s: Store, f: Callback, all: seq<Visit>, calls: seq<Visit>, todo: seq<Visit>,
                             bounds: seq<nat>)
    requires StoreOk(s)
  {
    && Stacked(s, todo, bounds) && AllLed(s, f, calls, todo, bounds) && NoStop(s, f, calls)
    && Firsts(calls + Pending(s, f, todo)) == Firsts(all)
  }

  lemma Popped(s: Store, f: Callback, todo: seq<Visit>, bounds: seq<nat>)
    requires StoreOk(s) && todo != [] && Stacked(s, todo, bounds)
    ensures var n := |todo| - 1;
      && todo[n].0 < |s| && Stacked(s, todo[..n], bounds[..n])
      && Pending(s, f, todo) == Visits(s, f, todo[n].0, todo[n].1) + Pending(s, f, todo[..n])
  {
    assert todo[|todo| - 1] in todo;
  }

  // A node that was visited before is on top of the stack: all below it has been visited
  lemma TopDone(s: Store, f: Callback, calls: seq<Visit>, todo: seq<Visit>, bounds: seq<nat>)
    requires StoreOk(s) && todo != [] && Stacked(s, todo, bounds) && AllLed(s, f, calls, todo, bounds)
    requires todo[|todo| - 1] in calls
    ensures var p := todo[|todo| - 1]; p.0 < |s| && forall q :: q in Visits(s, f, p.0, p.1) ==> q in calls
  {
    var p := todo[|todo| - 1];
    assert p in todo;
    forall q | q in Visits(s, f, p.0, p.1) ensures q in calls {
      assert Led(s, f, calls, todo, bounds, p, q);
    }
  }

  lemma {:induction false} SkipTop(s: Store, f: Callback, all: seq<Visit>, calls: seq<Visit>, todo: seq<Visit>,
                                   bounds: seq<nat>)
    requires StoreOk(s) && todo != [] && Traversing(s, f, all, calls, todo, bounds) && todo[|todo| - 1] in calls
    ensures Traversing(s, f, all, calls, todo[..|todo| - 1], bounds[..|todo| - 1])
  {
    hide Visits, Pending, Firsts, NoStop;
    var n := |todo| - 1;
    var p := todo[n];
    Popped(s, f, todo, bounds);
    TopDone(s, f, calls, todo, bounds);
    FirstsSkip(calls, Visits(s, f, p.0, p.1), Pending(s, f, todo[..n]));
    assert calls + Pending(s, f, todo) == calls + Visits(s, f, p.0, p.1) + Pending(s, f, todo[..n]);
    forall a, q | a in calls && a.0 < |s| && q in Visits(s, f, a.0, a.1)
      ensures Led(s, f, calls, todo[..n], bounds[..n], a, q)
    {
      assert Led(s, f, calls, todo, bounds, a, q);
    }
  }

  // What a call on the top of the stack makes of it
  function Below(s: Store, f: Callback, todo: seq<Visit>, e: Ref, o: nat): seq<Visit>
    requires StoreOk(s) && e < |s|
  {
    if f(Term(s, e), o).Descend? then todo + Pushed(s[e], o) else todo
  }

  lemma {:induction false} CallTop(s: Store, f: Callback, all: seq<Visit>, calls: seq<Visit>, todo: seq<Visit>,
                                   bounds: seq<nat>)
      returns (bounds': seq<nat>)
    requires StoreOk(s) && todo != [] && Traversing(s, f, all, calls, todo, bounds)
    requires !Stops(s, f, todo[|todo| - 1])
    ensures var p, rest := todo[|todo| - 1], todo[..|todo| - 1];
      && p.0 < |s| && Traversing(s, f, all, calls + [p], Below(s, f, rest, p.0, p.1), bounds')
      && |Pending(s, f, Below(s, f, rest, p.0, p.1))| < |Pending(s, f, todo)|
  {
    hide Visits, Pending, Firsts, AllLed, Pushed;
    var p, rest := todo[|todo| - 1], todo[..|todo| - 1];
    Popped(s, f, todo, bounds);
    VisitsTop(s, f, rest, p);
    var todo' := Below(s, f, rest, p.0, p.1);
    bounds' := bounds[..|rest|] + seq(|todo'| - |rest|, _ => p.0);
    assert calls + ([p] + Pending(s, f, todo')) == calls + [p] + Pending(s, f, todo');
    LedNext(s, f, calls, todo, bounds, bounds');
  }

  // Visiting the top, then what is below it and the rest
  lemma {:induction false} VisitsTop(s: Store, f: Callback, rest: seq<Visit>, p: Visit)
    requires StoreOk(s) && Good(s, rest) && p.0 < |s|
    ensures var todo := Below(s, f, rest, p.0, p.1);
      && Good(s, todo) && rest <= todo && (forall q :: q in todo[|rest|..] ==> q.0 < p.0)
      && Visits(s, f, p.0, p.1) + Pending(s, f, rest) == [p] + Pending(s, f, todo)
  {
    hide Visits, Pending, Pushed, Term;
    PushedParts(s, p.0, p.1, 0);
    if f(Term(s, p.0), p.1).Descend? {
      PendingPushed(s, f, rest, p.0, p.1);
    } else {
      VisitsOnly(s, f, p);
    }
  }

  lemma VisitsOnly(s: Store, f: Callback, p: Visit)
    requires StoreOk(s) && p.0 < |s| && !f(Term(s, p.0), p.1).Descend?
    ensures Visits(s, f, p.0, p.1) == [p]
  {
  }

  lemma {:induction false} VisitsOne(s: Store, f: Callback, p: Visit, q: Visit)
    requires StoreOk(s) && p.0 < |s| && q in Visits(s, f, p.0, p.1) && q != p
    ensures f(Term(s, p.0), p.1).Descend? && Good(s, Pushed(s[p.0], p.1))
    ensures var todo := Pushed(s[p.0], p.1);
      exists k :: 0 <= k < |todo| && q in Visits(s, f, todo[k].0, todo[k].1)
  {
    VisitsBelow(s, f, p.0, p.1);
    InPending(s, f, Pushed(s[p.0], p.1), q);
  }

  lemma {:induction false} InPending(s: Store, f: Callback, todo: seq<Visit>, q: Visit)
    requires StoreOk(s) && Good(s, todo) && q in Pending(s, f, todo)
    ensures exists k :: 0 <= k < |todo| && q in Visits(s, f, todo[k].0, todo[k].1)
  {
    var n := |todo| - 1;
    assert todo[n] in todo;
    if q !in Visits(s, f, todo[n].0, todo[n].1) {
      InPending(s, f, todo[..n], q);
    }
  }

  lemma {:induction false} LedNext(s: Store, f: Callback, calls: seq<Visit>, todo: seq<Visit>, bounds: seq<nat>,
                                   bounds': seq<nat>)
    requires StoreOk(s) && todo != [] && Stacked(s, todo, bounds) && AllLed(s, f, calls, todo, bounds)
    requires todo[|todo| - 1].0 < |s|
    requires var p, rest := todo[|todo| - 1], todo[..|todo| - 1];
      var todo' := Below(s, f, rest, p.0, p.1);
      && |todo'| >= |rest| && bounds' == bounds[..|rest|] + seq(|todo'| - |rest|, _ => p.0)
      && Stacked(s, todo', bounds')
    ensures var p, rest := todo[|todo| - 1], todo[..|todo| - 1];
      AllLed(s, f, calls + [p], Below(s, f, rest, p.0, p.1), bounds')
  {
    hide Visits, Pending, Pushed, Term;
    var p := todo[|todo| - 1];
    var todo' := Below(s, f, todo[..|todo| - 1], p.0, p.1);
    forall a, q | a in calls + [p] && a.0 < |s| && q in Visits(s, f, a.0, a.1)
      ensures Led(s, f, calls + [p], todo', bounds', a, q)
    {
      if q !in calls + [p] {
        if a in calls {
          assert Led(s, f, calls, todo, bounds, a, q);
        }
        LedOne(s, f, calls, todo, bounds, bounds', a, q);
      }
    }
  }

  lemma {:induction false} LedOne(s: Store, f: Callback, calls: seq<Visit>, todo: seq<Visit>, bounds: seq<nat>,
                                  bounds': seq<nat>, a: Visit, q: Visit)
    requires StoreOk(s) && todo != [] && Stacked(s, todo, bounds) && todo[|todo| - 1].0 < |s|
    requires (a == todo[|todo| - 1] && q in Visits(s, f, a.0, a.1)) || Led(s, f, calls, todo, bounds, a, q)
    requires var p, rest := todo[|todo| - 1], todo[..|todo| - 1];
      var todo' := Below(s, f, rest, p.0, p.1);
      && |todo'| >= |rest| && bounds' == bounds[..|rest|] + seq(|todo'| - |rest|, _ => p.0)
      && Stacked(s, todo', bounds') && q !in calls + [p]
    ensures var p, rest := todo[|todo| - 1], todo[..|todo| - 1];
      Led(s, f, calls + [p], Below(s, f, rest, p.0, p.1), bounds', a, q)
  {
    hide Visits, Pending, Pushed, Term;
    var n := |todo| - 1;
    var p := todo[n];
    var todo' := Below(s, f, todo[..n], p.0, p.1);
    if j :| 0 <= j < n && bounds[j] <= a.0 && q in Visits(s, f, todo[j].0, todo[j].1) {
      assert todo'[j] == todo[j] && bounds'[j] == bounds[j];
    } else {
      VisitsOne(s, f, p, q);
      var kids := Pushed(s[p.0], p.1);
      var k :| 0 <= k < |kids| && q in Visits(s, f, kids[k].0, kids[k].1);
      assert todo'[n + k] == kids[k] && bounds'[n + k] == p.0;
    }
  }

  // The callback stops at the top of the stack
  lemma {:induction false} StopTop(s: Store, f: Callback, all: seq<Visit>, calls: seq<Visit>, todo: seq<Visit>,
                                   bounds: seq<nat>)
    requires StoreOk(s) && todo != [] && Traversing(s, f, all, calls, todo, bounds) && Stops(s, f, todo[|todo| - 1])
    ensures var p := todo[|todo| - 1];
      Firsts(calls + [p]) == Until(s, f, Firsts(all)) && Found(s, f, Firsts(all)) == Some(p)
  {
    hide Pending, Firsts, AllLed;
    var p, rest := todo[|todo| - 1], todo[..|todo| - 1];
    Popped(s, f, todo, bounds);
    VisitsTop(s, f, rest, p);
    assert calls + Pending(s, f, todo) == calls + [p] + Pending(s, f, rest);
    FirstsPrefix(calls + [p], Pending(s, f, rest));
    FirstsSnoc(calls, p);
    FirstsMembers(calls);
    var ws := Firsts(all)[|Firsts(calls + [p])|..];
    assert Firsts(all) == Firsts(calls) + [p] + ws;
    UntilFirst(s, f, Firsts(calls), p, ws);
    FoundConcat(s, f, Firsts(calls), [p] + ws);
    assert Firsts(calls) + ([p] + ws) == Firsts(all);
  }

  // ----- the traversal -----

  predicate AlwaysCalled(c: Cell) {
    c.Leaf? && (c.e.Const? || c.e.BVar? || c.e.Sort?)
  }

  // for_each_cache::visited
  method Visited(cache: VisitCache, e: Ref, o: nat, hash: (Ref, nat) -> nat) returns (r: bool)
    requires cache.Valid()
    modifies cache
    ensures cache.Valid() && cache.Entries() <= old(cache.Entries()) + {((e, o), ())}
    ensures r ==> ((e, o), ()) in old(cache.Entries())
    ensures r ==> cache.Entries() == old(cache.Entries())
  {
    var found := cache.Find((e, o), hash(e, o));
    if found.Some? {
      assert found.value == ();
      return true;
    }
    cache.Insert((e, o), (), hash(e, o));
    return false;
  }

  // What is certain at the end: the first visits are those of the recursion, in its order, up
  // to where the callback stops
  ghost predicate Traversed(s: Store, f: Callback, all: seq<Visit>, calls: seq<Visit>, hit: Option<Visit>)
    requires StoreOk(s)
  {
    Firsts(calls) == Until(s, f, Firsts(all)) && hit == Found(s, f, Firsts(all))
  }

  // If it never stops, exactly the same pairs are visited
  lemma TraversedAll(s: Store, f: Callback, all: seq<Visit>, calls: seq<Visit>, hit: Option<Visit>)
    requires StoreOk(s) && Traversed(s, f, all, calls, hit)
    ensures hit.None? ==> Firsts(calls) == Firsts(all) && forall v :: v in calls <==> v in all
  {
    hide Firsts;
    FirstsMembers(calls);
    FirstsMembers(all);
    if hit.None? {
      UntilAll(s, f, Firsts(all));
    }
  }

  // Until the callback stops the traversal is on its way, after that nothing changes
  ghost predicate Going(s: Store, f: Callback, all: seq<Visit>, calls: seq<Visit>, hit: Option<Visit>,
                        todo: seq<Visit>, bounds: seq<nat>)
    requires StoreOk(s)
  {
    && Good(s, todo)
    && match hit
       case None => Traversing(s, f, all, calls, todo, bounds)
       case Some(_) => Traversed(s, f, all, calls, hit)
  }

  lemma {:induction false} GoingSkip(s: Store, f: Callback, all: seq<Visit>, calls: seq<Visit>, hit: Option<Visit>,
                                     todo: seq<Visit>, bounds: seq<nat>) returns (bounds': seq<nat>)
    requires StoreOk(s) && todo != [] && Going(s, f, all, calls, hit, todo, bounds)
    requires hit.None? ==> todo[|todo| - 1] in calls
    ensures var rest := todo[..|todo| - 1];
      && Good(s, todo) && Good(s, rest) && Going(s, f, all, calls, hit, rest, bounds')
      && |Pending(s, f, rest)| < |Pending(s, f, todo)|
  {
    hide Visits, Traversing, Traversed;
    bounds' := bounds;
    if hit.None? {
      SkipTop(s, f, all, calls, todo, bounds);
      assert Stacked(s, todo, bounds) by {
        Depths(s, f, all, calls, todo, bounds);
      }
      bounds' := bounds[..|todo| - 1];
    }
    assert todo[|todo| - 1] in todo;
  }

  lemma Depths(s: Store, f: Callback, all: seq<Visit>, calls: seq<Visit>, todo: seq<Visit>, bounds: seq<nat>)
    requires StoreOk(s) && Traversing(s, f, all, calls, todo, bounds)
    ensures Stacked(s, todo, bounds)
  {
  }

  lemma {:induction false} GoingCall(s: Store, f: Callback, all: seq<Visit>, calls: seq<Visit>, todo: seq<Visit>,
                                     bounds: seq<nat>)
      returns (bounds': seq<nat>)
    requires StoreOk(s) && todo != [] && Going(s, f, all, calls, None, todo, bounds)
    ensures var p, rest := todo[|todo| - 1], todo[..|todo| - 1];
      && p.0 < |s|
      && var stop := Stops(s, f, p);
        var todo' := Below(s, f, rest, p.0, p.1);
        && Good(s, todo) && Good(s, todo')
        && Going(s, f, all, calls + [p], if stop then Some(p) else None, todo', bounds')
        && |Pending(s, f, todo')| < |Pending(s, f, todo)|
  {
    hide Visits, Traversing, Pending, Pushed, Firsts;
    var p, rest := todo[|todo| - 1], todo[..|todo| - 1];
    assert p in todo;
    if Stops(s, f, p) {
      StopTop(s, f, all, calls, todo, bounds);
      VisitsTop(s, f, rest, p);
      Depths(s, f, all, calls, todo, bounds);
      Popped(s, f, todo, bounds);
      bounds' := [];
    } else {
      bounds' := CallTop(s, f, all, calls, todo, bounds);
      Depths(s, f, all, calls + [p], Below(s, f, rest, p.0, p.1), bounds');
    }
  }

  // calls: what the callback was asked about, in order, until it stopped; hit: where it did
  method Apply(cache: VisitCache, s: Store, f: Callback, hash: (Ref, nat) -> nat, root: Ref)
      returns (calls: seq<Visit>, hit: Option<Visit>)
    requires StoreOk(s) && cache.Valid() && cache.Entries() == {} && root < |s|
    modifies cache
    ensures cache.Valid() && Traversed(s, f, Visits(s, f, root, 0), calls, hit)
    ensures hit.None? ==> forall v :: v in calls <==> v in Visits(s, f, root, 0)
  {
    hide Going, Traversed, Visits, Pending, Pushed;
    calls, hit := [], None;
    var todo: seq<Visit> := [(root, 0)];
    ghost var all := Visits(s, f, root, 0);
    ghost var bounds: seq<nat> := Begin(s, f, root);
    while todo != []
      invariant cache.Valid() && Good(s, todo) && Going(s, f, all, calls, hit, todo, bounds)
      invariant hit.None? ==> forall p :: p in cache.Entries() ==> p.0 in calls
      decreases |Pending(s, f, todo)|
    {
      InStore(s, f, all, calls, hit, todo, bounds);
      var e, o := todo[|todo| - 1].0, todo[|todo| - 1].1;
      var isShared: bool := *;
      if !AlwaysCalled(s[e]) && isShared {
        var v := Visited(cache, e, o, hash);
        if v {
          bounds := GoingSkip(s, f, all, calls, hit, todo, bounds);
          todo := todo[..|todo| - 1];
          continue;
        }
      }
      if hit.Some? {    // the callback answers false
        bounds := GoingSkip(s, f, all, calls, hit, todo, bounds);
        todo := todo[..|todo| - 1];
        continue;
      }
      bounds := GoingCall(s, f, all, calls, todo, bounds);
      todo, calls := todo[..|todo| - 1], calls + [(e, o)];
      match f(Term(s, e), o) {
        case Skip =>
        case Stop => hit := Some((e, o));
        case Descend => todo := todo + Pushed(s[e], o);    // nothing for a leaf
      }
    }
    Over(s, f, all, calls, hit, bounds);
    TraversedAll(s, f, all, calls, hit);
  }

  lemma InStore(s: Store, f: Callback, all: seq<Visit>, calls: seq<Visit>, hit: Option<Visit>, todo: seq<Visit>,
                bounds: seq<nat>)
    requires StoreOk(s) && todo != [] && Going(s, f, all, calls, hit, todo, bounds)
    ensures Good(s, todo) && todo[|todo| - 1].0 < |s|
  {
    assert todo[|todo| - 1] in todo;
  }

  lemma {:induction false} Begin(s: Store, f: Callback, root: Ref) returns (bounds: seq<nat>)
    requires StoreOk(s) && root < |s|
    ensures Good(s, [(root, 0)]) && Going(s, f, Visits(s, f, root, 0), [], None, [(root, 0)], bounds)
  {
    bounds := [root + 1];
    PendingPush(s, f, [], (root, 0));
    assert [] + [(root, 0)] == [(root, 0)] && Pending(s, f, []) == [];
    assert [] + Pending(s, f, [(root, 0)]) == Visits(s, f, root, 0);
  }

  lemma Over(s: Store, f: Callback, all: seq<Visit>, calls: seq<Visit>, hit: Option<Visit>, bounds: seq<nat>)
    requires StoreOk(s) && Going(s, f, all, calls, hit, [], bounds)
    ensures Traversed(s, f, all, calls, hit)
  {
    if hit.None? {
      assert calls + Pending(s, f, []) == calls;
      FirstsMembers(calls);
      UntilAll(s, f, Firsts(calls));
    }
  }
}

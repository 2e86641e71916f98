/** instantiate, instantiate_rev, lift_loose_bvars, lower_loose_bvars, has_loose_bvar and
  * abstract as the kernel runs them: through replace, pruned by the cached loose range, with
  * a short cut for easy terms (src/kernel/replace_fn.cpp, src/kernel/expr.cpp,
  * src/kernel/instantiate.cpp, src/kernel/abstract.cpp).
  */
module Instantiate {
  import opened Wrappers
  import opened Names
  import opened Exprs

  type Callback = (Expr, nat) -> Option<Expr>

  // replace, without its cache
  function Replace(f: Callback, e: Expr, o: nat): Expr {
    match f(e, o)
    case Some(r) => r
    case None =>
      match e
      case MVar(n, t) => MVar(n, Replace(f, t, o))
      case App(x, a) => App(Replace(f, x, o), Replace(f, a, o))
      case Binding(k, n, t, b, i) => Binding(k, n, Replace(f, t, o), Replace(f, b, o + 1), i)
      case Let(n, t, v, b) => Let(n, Replace(f, t, o), Replace(f, v, o), Replace(f, b, o + 1))
      case MData(m, x) => MData(m, Replace(f, x, o))
      case Proj(s, i, x) => Proj(s, i, Replace(f, x, o))
      case _ => e
  }

  // ----- lifting and lowering -----

  function LiftStep(s: nat, d: nat): Callback {
    (m: Expr, o: nat) =>
      if s + o >= Range(m) then Some(m)
      else if m.BVar? && m.idx >= s + o then Some(BVar(m.idx + d))
      else None
  }

  function Lift(e: Expr, s: nat, d: nat): Expr {
    if d == 0 || s >= Range(e) then e else Replace(LiftStep(s, d), e, 0)
  }

  function LowerStep(s: nat, d: nat): Callback
    requires d <= s
  {
    (m: Expr, o: nat) =>
      if s + o >= Range(m) then Some(m)
      else if m.BVar? && m.idx >= s + o then Some(BVar(m.idx - d))
      else None
  }

  function Lower(e: Expr, s: nat, d: nat): Expr
    requires d <= s
  {
    if d == 0 || s >= Range(e) then e else Replace(LowerStep(s, d), e, 0)
  }

  lemma LiftIsShift(e: Expr, s: nat, d: nat)
    ensures Lift(e, s, d) == Shift(e, s, d)
  {
    if d == 0 || s >= Range(e) {
      ShiftClosed(e, s, d);
    } else {
      LiftStepShift(e, s, d, 0, s);
    }
  }

  lemma {:induction false} LiftStepShift(e: Expr, s: nat, d: nat, o: nat, c: nat)
    requires c == s + o
    ensures Replace(LiftStep(s, d), e, o) == Shift(e, c, d)
    decreases e, 1
  {
    if c >= Range(e) {
      ShiftClosed(e, c, d);
    } else {
      match e
      case MVar(_, t) => LiftStepShift(t, s, d, o, c);
      case App(f, a) =>
        LiftStepShift(f, s, d, o, c);
        LiftStepShift(a, s, d, o, c);
      case Binding(_, _, _, _, _) => LiftStepShiftUnder(e, s, d, o, c);
      case Let(_, _, _, _) => LiftStepShiftUnder(e, s, d, o, c);
      case MData(_, x) => LiftStepShift(x, s, d, o, c);
      case Proj(_, _, x) => LiftStepShift(x, s, d, o, c);
      case _ =>
    }
  }

  // The cases with a binder
  lemma {:induction false} LiftStepShiftUnder(e: Expr, s: nat, d: nat, o: nat, c: nat)
    requires c == s + o && c < Range(e)
    requires e.Binding? || e.Let?
    ensures Replace(LiftStep(s, d), e, o) == Shift(e, c, d)
    decreases e, 0
  {
    match e
    case Binding(_, _, t, b, _) =>
      LiftStepShift(t, s, d, o, c);
      LiftStepShift(b, s, d, o + 1, c + 1);
    case Let(_, t, v, b) =>
      LiftStepShift(t, s, d, o, c);
      LiftStepShift(v, s, d, o, c);
      LiftStepShift(b, s, d, o + 1, c + 1);
  }

  lemma LowerIsUnshift(e: Expr, s: nat, d: nat)
    requires d <= s
    ensures Lower(e, s, d) == Unshift(e, s, d)
  {
    if d == 0 || s >= Range(e) {
      UnshiftClosed(e, s, d);
    } else {
      LowerStepUnshift(e, s, d, 0, s);
    }
  }

  lemma {:induction false} LowerStepUnshift(e: Expr, s: nat, d: nat, o: nat, c: nat)
    requires d <= s && c == s + o
    ensures Replace(LowerStep(s, d), e, o) == Unshift(e, c, d)
    decreases e, 1
  {
    if c >= Range(e) {
      UnshiftClosed(e, c, d);
    } else {
      match e
      case MVar(_, t) => LowerStepUnshift(t, s, d, o, c);
      case App(f, a) =>
        LowerStepUnshift(f, s, d, o, c);
        LowerStepUnshift(a, s, d, o, c);
      case Binding(_, _, _, _, _) => LowerStepUnshiftBinding(e, s, d, o, c);
      case Let(_, _, _, _) => LowerStepUnshiftLet(e, s, d, o, c);
      case MData(_, x) => LowerStepUnshift(x, s, d, o, c);
      case Proj(_, _, x) => LowerStepUnshift(x, s, d, o, c);
      case _ =>
    }
  }

  lemma {:induction false} LowerStepUnshiftBinding(e: Expr, s: nat, d: nat, o: nat, c: nat)
    requires d <= s && c == s + o
    requires e.Binding?
    ensures Replace(LowerStep(s, d), e, o) == Unshift(e, c, d)
    decreases e, 0
  {
    LowerStepUnshift(e.dom, s, d, o, c);
    LowerStepUnshift(e.body, s, d, o + 1, c + 1);
  }

  lemma {:induction false} LowerStepUnshiftLet(e: Expr, s: nat, d: nat, o: nat, c: nat)
    requires d <= s && c == s + o
    requires e.Let?
    ensures Replace(LowerStep(s, d), e, o) == Unshift(e, c, d)
    decreases e, 0
  {
    LowerStepUnshift(e.ltype, s, d, o, c);
    LowerStepUnshift(e.val, s, d, o, c);
    LowerStepUnshift(e.body, s, d, o + 1, c + 1);
  }

  lemma {:induction false} UnshiftClosed(e: Expr, s: nat, d: nat)
    requires d <= s && (Range(e) <= s || d == 0)
    ensures Unshift(e, s, d) == e
  {
    match e
    case MVar(_, t) => UnshiftClosed(t, s, d);
    case App(f, a) =>
      UnshiftClosed(f, s, d);
      UnshiftClosed(a, s, d);
    case Binding(_, _, t, b, _) =>
      UnshiftClosed(t, s, d);
      UnshiftClosed(b, s + 1, d);
    case Let(_, t, v, b) =>
      UnshiftClosed(t, s, d);
      UnshiftClosed(v, s, d);
      UnshiftClosed(b, s + 1, d);
    case MData(_, x) => UnshiftClosed(x, s, d);
    case Proj(_, _, x) => UnshiftClosed(x, s, d);
    case _ =>
  }

  // Lowering by d what was lifted by d gives the term back
  lemma LowerLift(e: Expr, s: nat, d: nat, s': nat)
    requires s <= s' <= s + d && d <= s'
    ensures Lower(Lift(e, s, d), s', d) == e
  {
    LiftIsShift(e, s, d);
    LowerIsUnshift(Shift(e, s, d), s', d);
    UnshiftShift(e, s, d, s');
  }

  // has_loose_bvar: the search skips terms whose range is too small
  predicate FindLoose(e: Expr, i: nat) {
    i < Range(e) &&
    match e
    case BVar(v) => v == i
    case MVar(_, t) => FindLoose(t, i)
    case App(f, a) => FindLoose(f, i) || FindLoose(a, i)
    case Binding(_, _, d, b, _) => FindLoose(d, i) || FindLoose(b, i + 1)
    case Let(_, t, v, b) => FindLoose(t, i) || FindLoose(v, i) || FindLoose(b, i + 1)
    case MData(_, x) => FindLoose(x, i)
    case Proj(_, _, x) => FindLoose(x, i)
    case _ => false
  }

  lemma {:induction false} FindLooseExact(e: Expr, i: nat)
    ensures FindLoose(e, i) <==> HasLoose(e, i)
  {
    RangeExact(e);
    match e
    case MVar(_, t) => FindLooseExact(t, i);
    case App(f, a) =>
      FindLooseExact(f, i);
      FindLooseExact(a, i);
    case Binding(_, _, d, b, _) =>
      FindLooseExact(d, i);
      FindLooseExact(b, i + 1);
    case Let(_, t, v, b) =>
      FindLooseExact(t, i);
      FindLooseExact(v, i);
      FindLooseExact(b, i + 1);
    case MData(_, x) => FindLooseExact(x, i);
    case Proj(_, _, x) => FindLooseExact(x, i);
    case _ =>
  }

  // ----- instantiate and instantiate_rev -----

  // instantiate_easy_fn: applications of bound variables and closed terms need no replace
  function Easy(a: Expr, ts: Subst, rev: bool, app: bool): Option<Expr> {
    if Range(a) == 0 then Some(a)
    else if a.BVar? && a.idx < |ts| then Some(ts[if rev then |ts| - a.idx - 1 else a.idx])
    else if app && a.App? then
      match Easy(a.arg, ts, rev, false)
      case None => None
      case Some(arg) =>
        match Easy(a.fn, ts, rev, true)
        case None => None
        case Some(fn) => Some(App(fn, arg))
    else None
  }

  function InstStep(s: nat, ts: Subst): Callback {
    (m: Expr, o: nat) =>
      if s + o >= Range(m) then Some(m)
      else if m.BVar? && m.idx >= s + o then
        if m.idx < s + o + |ts| then Some(Lift(ts[m.idx - (s + o)], 0, o)) else Some(BVar(m.idx - |ts|))
      else None
  }

  function Inst(a: Expr, s: nat, ts: Subst): Expr {
    if s >= Range(a) || ts == [] then a
    else if s == 0 && Easy(a, ts, false, true).Some? then Easy(a, ts, false, true).value
    else Replace(InstStep(s, ts), a, 0)
  }

  function InstRevStep(ts: Subst): Callback {
    (m: Expr, o: nat) =>
      if o >= Range(m) then Some(m)
      else if m.BVar? && m.idx >= o then
        if m.idx < o + |ts| then Some(Lift(ts[|ts| - (m.idx - o) - 1], 0, o)) else Some(BVar(m.idx - |ts|))
      else None
  }

  function InstRev(a: Expr, ts: Subst): Expr {
    if Range(a) == 0 then a
    else if Easy(a, ts, true, true).Some? then Easy(a, ts, true, true).value
    else Replace(InstRevStep(ts), a, 0)
  }

  lemma {:induction false} EasyReplaced(a: Expr, ts: Subst, rev: bool, app: bool)
    requires Easy(a, ts, rev, app).Some?
    ensures Easy(a, ts, rev, app).value == Replaced(a, 0, 0, if rev then Reverse(ts) else ts)
  {
    var us := if rev then Reverse(ts) else ts;
    if Range(a) == 0 {
      ReplacedClosed(a, 0, 0, us);
    } else if a.BVar? {
      ShiftClosed(us[a.idx], 0, 0);
    } else {
      EasyReplaced(a.arg, ts, rev, false);
      EasyReplaced(a.fn, ts, rev, true);
    }
  }

  lemma {:induction false} InstStepReplaced(e: Expr, s: nat, ts: Subst, o: nat, k: nat)
    requires k == s + o
    ensures Replace(InstStep(s, ts), e, o) == Replaced(e, k, o, ts)
    decreases e, 1
  {
    if k >= Range(e) {
      ReplacedClosed(e, k, o, ts);
    } else {
      match e
      case BVar(v) =>
        if k <= v < k + |ts| {
          LiftIsShift(ts[v - k], 0, o);
        }
      case MVar(_, t) => InstStepReplaced(t, s, ts, o, k);
      case App(f, a) =>
        InstStepReplaced(f, s, ts, o, k);
        InstStepReplaced(a, s, ts, o, k);
      case Binding(_, _, _, _, _) => InstStepReplacedUnder(e, s, ts, o, k);
      case Let(_, _, _, _) => InstStepReplacedUnder(e, s, ts, o, k);
      case MData(_, x) => InstStepReplaced(x, s, ts, o, k);
      case Proj(_, _, x) => InstStepReplaced(x, s, ts, o, k);
      case _ =>
    }
  }

  // The cases with a binder
  lemma {:induction false} InstStepReplacedUnder(e: Expr, s: nat, ts: Subst, o: nat, k: nat)
    requires k == s + o && k < Range(e)
    requires e.Binding? || e.Let?
    ensures Replace(InstStep(s, ts), e, o) == Replaced(e, k, o, ts)
    decreases e, 0
  {
    match e
    case Binding(_, _, t, b, _) =>
      InstStepReplaced(t, s, ts, o, k);
      InstStepReplaced(b, s, ts, o + 1, k + 1);
    case Let(_, t, v, b) =>
      InstStepReplaced(t, s, ts, o, k);
      InstStepReplaced(v, s, ts, o, k);
      InstStepReplaced(b, s, ts, o + 1, k + 1);
  }

  // instantiate is textbook substitution, from any index on
  lemma InstIsReplaced(a: Expr, s: nat, ts: Subst)
    ensures Inst(a, s, ts) == Replaced(a, s, 0, ts)
  {
    if s >= Range(a) || ts == [] {
      ReplacedClosed(a, s, 0, ts);
    } else if s == 0 && Easy(a, ts, false, true).Some? {
      EasyReplaced(a, ts, false, true);
    } else {
      InstStepReplaced(a, s, ts, 0, s);
    }
  }

  lemma {:induction false} InstRevStepReplaced(e: Expr, ts: Subst, us: Subst, o: nat)
    requires |us| == |ts| && forall i :: 0 <= i < |ts| ==> us[i] == ts[|ts| - 1 - i]
    ensures Replace(InstRevStep(ts), e, o) == Replaced(e, o, o, us)
    decreases e, 1
  {
    if o >= Range(e) {
      ReplacedClosed(e, o, o, us);
    } else {
      match e
      case BVar(v) =>
        if o <= v < o + |ts| {
          LiftIsShift(ts[|ts| - (v - o) - 1], 0, o);
        }
      case MVar(_, t) => InstRevStepReplaced(t, ts, us, o);
      case App(f, a) =>
        InstRevStepReplaced(f, ts, us, o);
        InstRevStepReplaced(a, ts, us, o);
      case Binding(_, _, _, _, _) => InstRevStepReplacedUnder(e, ts, us, o);
      case Let(_, _, _, _) => InstRevStepReplacedUnder(e, ts, us, o);
      case MData(_, x) => InstRevStepReplaced(x, ts, us, o);
      case Proj(_, _, x) => InstRevStepReplaced(x, ts, us, o);
      case _ =>
    }
  }

  // The cases with a binder
  lemma {:induction false} InstRevStepReplacedUnder(e: Expr, ts: Subst, us: Subst, o: nat)
    requires |us| == |ts| && forall i :: 0 <= i < |ts| ==> us[i] == ts[|ts| - 1 - i]
    requires o < Range(e)
    requires e.Binding? || e.Let?
    ensures Replace(InstRevStep(ts), e, o) == Replaced(e, o, o, us)
    decreases e, 0
  {
    match e
    case Binding(_, _, t, b, _) =>
      InstRevStepReplaced(t, ts, us, o);
      InstRevStepReplaced(b, ts, us, o + 1);
    case Let(_, t, v, b) =>
      InstRevStepReplaced(t, ts, us, o);
      InstRevStepReplaced(v, ts, us, o);
      InstRevStepReplaced(b, ts, us, o + 1);
  }

  // instantiate_rev is textbook substitution of the reversed terms
  lemma InstRevIsReplaced(a: Expr, ts: Subst)
    ensures InstRev(a, ts) == Replaced(a, 0, 0, Reverse(ts))
  {
    if Range(a) == 0 {
      ReplacedClosed(a, 0, 0, Reverse(ts));
    } else if Easy(a, ts, true, true).Some? {
      EasyReplaced(a, ts, true, true);
    } else {
      InstRevStepReplaced(a, ts, Reverse(ts), 0);
    }
  }

  // ----- one term at a time -----

  // n substitutions of one term each, the last variable first; the term is lifted over the
  // variables that are still there
  function InstEach(a: Expr, ts: Subst): Expr
    decreases |ts|
  {
    if ts == [] then a else
      var n := |ts| - 1;
      InstEach(Inst(a, n, [Lift(ts[n], 0, n)]), ts[..n])
  }

  lemma {:induction false} InstAtOnce(a: Expr, ts: Subst)
    ensures Inst(a, 0, ts) == InstEach(a, ts)
    decreases |ts|
  {
    hide Inst, Lift, Replaced, Shift;
    if ts == [] {
      InstIsReplaced(a, 0, ts);
      ReplacedClosed(a, 0, 0, ts);
    } else {
      var n := |ts| - 1;
      LiftIsShift(ts[n], 0, n);
      InstIsReplaced(a, n, [Lift(ts[n], 0, n)]);
      ReplacedLifted(a, n, 0, n, ts[n]);
      assert ts == ts[..n] + [ts[n]];
      ReplacedSplit(a, 0, ts[..n], [ts[n]]);
      InstIsReplaced(a, 0, ts);
      InstIsReplaced(Replaced(a, n, n, [ts[n]]), 0, ts[..n]);
      InstAtOnce(Inst(a, n, [Lift(ts[n], 0, n)]), ts[..n]);
    }
  }

  // Instantiating a lifted term cancels the lift
  lemma InstLift(a: Expr, ts: Subst)
    ensures Inst(Lift(a, 0, |ts|), 0, ts) == a
  {
    LiftIsShift(a, 0, |ts|);
    InstIsReplaced(Shift(a, 0, |ts|), 0, ts);
    ReplacedShift(a, 0, |ts|, 0, 0, ts);
    ShiftClosed(a, 0, 0);
  }

  // ----- abstract -----

  // The search loop: the last of the free variables that is called x
  function LastIndex(x: Name, xs: seq<Name>): Option<nat> {
    if xs == [] then None
    else if xs[|xs| - 1] == x then Some(|xs| - 1)
    else LastIndex(x, xs[..|xs| - 1])
  }

  method FindLast(x: Name, xs: seq<Name>) returns (r: Option<nat>)
    ensures r == LastIndex(x, xs)
  {
    var i := |xs|;
    assert xs[..i] == xs;
    while i > 0
      invariant 0 <= i <= |xs| && LastIndex(x, xs) == LastIndex(x, xs[..i])
    {
      i := i - 1;
      assert xs[..i + 1][..i] == xs[..i];
      if xs[i] == x {
        return Some(i);
      }
    }
    return None;
  }

  lemma {:induction false} LastIndexMeans(x: Name, xs: seq<Name>)
    ensures match LastIndex(x, xs)
      case Some(i) => i < |xs| && xs[i] == x && x !in xs[i + 1..]
      case None => x !in xs
  {
    if xs != [] && xs[|xs| - 1] != x {
      LastIndexMeans(x, xs[..|xs| - 1]);
      if LastIndex(x, xs).Some? {
        var i := LastIndex(x, xs).value;
        assert xs[i + 1..] == xs[..|xs| - 1][i + 1..] + [xs[|xs| - 1]];
      } else {
        assert xs == xs[..|xs| - 1] + [xs[|xs| - 1]];
      }
    }
  }

  function AbstractStep(xs: seq<Name>): Callback {
    (m: Expr, o: nat) =>
      if !HasFVar(m) then Some(m)
      else if m.FVar? && LastIndex(m.id, xs).Some? then
        LastIndexMeans(m.id, xs);
        Some(BVar(o + |xs| - LastIndex(m.id, xs).value - 1))
      else None
  }

  function Abstract(e: Expr, xs: seq<Name>): Expr {
    if !HasFVar(e) then e else Replace(AbstractStep(xs), e, 0)
  }

  // Textbook abstraction: each of the variables becomes the index of its binder
  function Bound(e: Expr, o: nat, xs: seq<Name>): Expr {
    match e
    case FVar(x) =>
      LastIndexMeans(x, xs);
      if LastIndex(x, xs).Some? then BVar(o + |xs| - LastIndex(x, xs).value - 1) else e
    case MVar(n, t) => MVar(n, Bound(t, o, xs))
    case App(f, a) => App(Bound(f, o, xs), Bound(a, o, xs))
    case Binding(k, n, t, b, i) => Binding(k, n, Bound(t, o, xs), Bound(b, o + 1, xs), i)
    case Let(n, t, v, b) => Let(n, Bound(t, o, xs), Bound(v, o, xs), Bound(b, o + 1, xs))
    case MData(m, x) => MData(m, Bound(x, o, xs))
    case Proj(s, i, x) => Proj(s, i, Bound(x, o, xs))
    case _ => e
  }

  lemma {:induction false} BoundClosed(e: Expr, o: nat, xs: seq<Name>)
    requires forall x :: x in xs ==> !Occurs(x, e)
    ensures Bound(e, o, xs) == e
  {
    match e
    case FVar(x) =>
      LastIndexMeans(x, xs);
      assert x in xs ==> !Occurs(x, e);
    case MVar(_, t) => BoundClosed(t, o, xs);
    case App(f, a) =>
      BoundClosed(f, o, xs);
      BoundClosed(a, o, xs);
    case Binding(_, _, t, b, _) =>
      BoundClosed(t, o, xs);
      BoundClosed(b, o + 1, xs);
    case Let(_, t, v, b) =>
      BoundClosed(t, o, xs);
      BoundClosed(v, o, xs);
      BoundClosed(b, o + 1, xs);
    case MData(_, x) => BoundClosed(x, o, xs);
    case Proj(_, _, x) => BoundClosed(x, o, xs);
    case _ =>
  }

  lemma {:induction false} AbstractStepBound(e: Expr, xs: seq<Name>, o: nat)
    ensures Replace(AbstractStep(xs), e, o) == Bound(e, o, xs)
  {
    if !HasFVar(e) {
      forall x ensures !Occurs(x, e) {
        NoFVar(e, x);
      }
      BoundClosed(e, o, xs);
    } else {
      match e
      case MVar(_, t) => AbstractStepBound(t, xs, o);
      case App(f, a) =>
        AbstractStepBound(f, xs, o);
        AbstractStepBound(a, xs, o);
      case Binding(_, _, t, b, _) =>
        AbstractStepBound(t, xs, o);
        AbstractStepBound(b, xs, o + 1);
      case Let(_, t, v, b) =>
        AbstractStepBound(t, xs, o);
        AbstractStepBound(v, xs, o);
        AbstractStepBound(b, xs, o + 1);
      case MData(_, x) => AbstractStepBound(x, xs, o);
      case Proj(_, _, x) => AbstractStepBound(x, xs, o);
      case _ =>
    }
  }

  lemma AbstractIsBound(e: Expr, xs: seq<Name>)
    ensures Abstract(e, xs) == Bound(e, 0, xs)
  {
    AbstractStepBound(e, xs, 0);
  }

  function FVars(xs: seq<Name>): (ts: Subst)
    ensures |ts| == |xs| && forall i :: 0 <= i < |xs| ==> ts[i] == FVar(xs[i])
  {
    seq(|xs|, i requires 0 <= i < |xs| => FVar(xs[i]))
  }

  // ts are the variables xs, in the order in which InstRev puts them for the loose indices
  ghost predicate ArePut(ts: Subst, xs: seq<Name>) {
    |ts| == |xs| && forall i :: 0 <= i < |ts| ==> ts[i] == FVar(xs[|xs| - 1 - i])
  }

  // Opening what was closed
  lemma {:induction false} ReplacedBound(e: Expr, o: nat, xs: seq<Name>, ts: Subst)
    requires Range(e) <= o && ArePut(ts, xs)
    ensures Replaced(Bound(e, o, xs), o, o, ts) == e
    decreases e, 1
  {
    match e
    case FVar(x) => LastIndexMeans(x, xs);
    case MVar(_, t) => ReplacedBound(t, o, xs, ts);
    case App(f, a) =>
      ReplacedBound(f, o, xs, ts);
      ReplacedBound(a, o, xs, ts);
    case Binding(_, _, _, _, _) => ReplacedBoundBinding(e, o, xs, ts);
    case Let(_, _, _, _) => ReplacedBoundLet(e, o, xs, ts);
    case MData(_, x) => ReplacedBound(x, o, xs, ts);
    case Proj(_, _, x) => ReplacedBound(x, o, xs, ts);
    case _ =>
  }

  lemma {:induction false} ReplacedBoundBinding(e: Expr, o: nat, xs: seq<Name>, ts: Subst)
    requires Range(e) <= o && ArePut(ts, xs)
    requires e.Binding?
    ensures Replaced(Bound(e, o, xs), o, o, ts) == e
    decreases e, 0
  {
    hide ArePut, Shift, LastIndex;
    ReplacedBound(e.dom, o, xs, ts);
    ReplacedBound(e.body, o + 1, xs, ts);
  }

  lemma {:induction false} ReplacedBoundLet(e: Expr, o: nat, xs: seq<Name>, ts: Subst)
    requires Range(e) <= o && ArePut(ts, xs)
    requires e.Let?
    ensures Replaced(Bound(e, o, xs), o, o, ts) == e
    decreases e, 0
  {
    hide ArePut, Shift, LastIndex;
    ReplacedBound(e.ltype, o, xs, ts);
    ReplacedBound(e.val, o, xs, ts);
    ReplacedBound(e.body, o + 1, xs, ts);
  }

  predicate Unique(xs: seq<Name>) {
    forall i, j :: 0 <= i < j < |xs| ==> xs[i] != xs[j]
  }

  predicate Fresh(xs: seq<Name>, e: Expr) {
    forall x :: x in xs ==> !Occurs(x, e)
  }

  // Closing what was opened
  lemma {:induction false} BoundReplaced(e: Expr, o: nat, xs: seq<Name>, ts: Subst)
    requires Unique(xs) && Fresh(xs, e) && Range(e) <= o + |xs|
    requires ArePut(ts, xs)
    ensures Bound(Replaced(e, o, o, ts), o, xs) == e
    decreases e, 1
  {
    match e
    case BVar(v) =>
      if v >= o {
        LastIndexMeans(xs[|xs| - 1 - (v - o)], xs);
      }
    case FVar(x) =>
      LastIndexMeans(x, xs);
      assert x in xs ==> !Occurs(x, e);
    case MVar(_, t) => BoundReplaced(t, o, xs, ts);
    case App(f, a) =>
      BoundReplaced(f, o, xs, ts);
      BoundReplaced(a, o, xs, ts);
    case Binding(_, _, _, _, _) => BoundReplacedBinding(e, o, xs, ts);
    case Let(_, _, _, _) => BoundReplacedLet(e, o, xs, ts);
    case MData(_, x) => BoundReplaced(x, o, xs, ts);
    case Proj(_, _, x) => BoundReplaced(x, o, xs, ts);
    case _ =>
  }

  lemma {:induction false} BoundReplacedBinding(e: Expr, o: nat, xs: seq<Name>, ts: Subst)
    requires Unique(xs) && Fresh(xs, e) && Range(e) <= o + |xs|
    requires ArePut(ts, xs)
    requires e.Binding?
    ensures Bound(Replaced(e, o, o, ts), o, xs) == e
    decreases e, 0
  {
    hide ArePut, Shift, LastIndex, Unique;
    BoundReplaced(e.dom, o, xs, ts);
    BoundReplaced(e.body, o + 1, xs, ts);
  }

  lemma {:induction false} BoundReplacedLet(e: Expr, o: nat, xs: seq<Name>, ts: Subst)
    requires Unique(xs) && Fresh(xs, e) && Range(e) <= o + |xs|
    requires ArePut(ts, xs)
    requires e.Let?
    ensures Bound(Replaced(e, o, o, ts), o, xs) == e
    decreases e, 0
  {
    hide ArePut, Shift, LastIndex, Unique;
    BoundReplaced(e.ltype, o, xs, ts);
    BoundReplaced(e.val, o, xs, ts);
    BoundReplaced(e.body, o + 1, xs, ts);
  }

  // abstract and instantiate_rev are inverse to each other: the first needs a closed term
  // only, the second distinct variables that do not occur and no other loose index
  lemma OpenClose(e: Expr, xs: seq<Name>)
    requires Range(e) == 0
    ensures InstRev(Abstract(e, xs), FVars(xs)) == e
  {
    AbstractIsBound(e, xs);
    InstRevIsReplaced(Bound(e, 0, xs), FVars(xs));
    ReplacedBound(e, 0, xs, Reverse(FVars(xs)));
  }

  lemma CloseOpen(e: Expr, xs: seq<Name>)
    requires Unique(xs) && Fresh(xs, e) && Range(e) <= |xs|
    ensures Abstract(InstRev(e, FVars(xs)), xs) == e
  {
    InstRevIsReplaced(e, FVars(xs));
    AbstractIsBound(Replaced(e, 0, 0, Reverse(FVars(xs))), xs);
    BoundReplaced(e, 0, xs, Reverse(FVars(xs)));
  }
}

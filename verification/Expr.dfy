/** Locally nameless expressions, and the textbook operations on their loose bound
  * variables (src/kernel/expr.h, src/kernel/expr.cpp).
  */
module Exprs {
  import opened Wrappers
  import opened Names
  import Levels

  datatype BinderInfo = Default | Implicit | StrictImplicit | InstImplicit | Rec

  datatype BinderKind = Lambda | Pi

  datatype Literal = NatLit(n: nat) | StringLit(s: string)

  datatype Expr =
    | BVar(idx: nat)
    | FVar(id: Name)
    | MVar(id: Name, mtype: Expr)
    | Const(id: Name, levels: seq<Levels.Level>)
    | Sort(level: Levels.Level)
    | Lit(lit: Literal)
    | App(fn: Expr, arg: Expr)
    | Binding(kind: BinderKind, name: Name, dom: Expr, body: Expr, info: BinderInfo)
    | Let(name: Name, ltype: Expr, val: Expr, body: Expr)
    | MData(data: nat, e: Expr)
    | Proj(sname: Name, field: nat, e: Expr)

  predicate IsLambda(e: Expr) {
    e.Binding? && e.kind == Lambda
  }

  predicate IsPi(e: Expr) {
    e.Binding? && e.kind == Pi
  }

  // safe_dec
  function Pred(k: nat): nat {
    if k == 0 then 0 else k - 1
  }

  // get_loose_bvar_range, as the constructors compute it
  function Range(e: Expr): nat {
    match e
    case BVar(v) => v + 1
    case MVar(_, t) => Range(t)
    case App(f, a) => Larger(Range(f), Range(a))
    case Binding(_, _, d, b, _) => Larger(Range(d), Pred(Range(b)))
    case Let(_, t, v, b) => Larger(Range(t), Larger(Range(v), Pred(Range(b))))
    case MData(_, x) => Range(x)
    case Proj(_, _, x) => Range(x)
    case _ => 0
  }

  // Bound variable i occurs loose
  predicate HasLoose(e: Expr, i: nat) {
    match e
    case BVar(v) => v == i
    case MVar(_, t) => HasLoose(t, i)
    case App(f, a) => HasLoose(f, i) || HasLoose(a, i)
    case Binding(_, _, d, b, _) => HasLoose(d, i) || HasLoose(b, i + 1)
    case Let(_, t, v, b) => HasLoose(t, i) || HasLoose(v, i) || HasLoose(b, i + 1)
    case MData(_, x) => HasLoose(x, i)
    case Proj(_, _, x) => HasLoose(x, i)
    case _ => false
  }

  // Free variable x occurs
  predicate Occurs(x: Name, e: Expr) {
    match e
    case FVar(n) => n == x
    case MVar(_, t) => Occurs(x, t)
    case App(f, a) => Occurs(x, f) || Occurs(x, a)
    case Binding(_, _, d, b, _) => Occurs(x, d) || Occurs(x, b)
    case Let(_, t, v, b) => Occurs(x, t) || Occurs(x, v) || Occurs(x, b)
    case MData(_, y) => Occurs(x, y)
    case Proj(_, _, y) => Occurs(x, y)
    case _ => false
  }

  // has_fvar, as the constructors compute it
  predicate HasFVar(e: Expr) {
    match e
    case FVar(_) => true
    case MVar(_, t) => HasFVar(t)
    case App(f, a) => HasFVar(f) || HasFVar(a)
    case Binding(_, _, d, b, _) => HasFVar(d) || HasFVar(b)
    case Let(_, t, v, b) => HasFVar(t) || HasFVar(v) || HasFVar(b)
    case MData(_, y) => HasFVar(y)
    case Proj(_, _, y) => HasFVar(y)
    case _ => false
  }

  // ----- textbook operations -----

  // The bound variables from c on grow by d
  function Shift(e: Expr, c: nat, d: nat): Expr {
    match e
    case BVar(v) => if v < c then e else BVar(v + d)
    case MVar(n, t) => MVar(n, Shift(t, c, d))
    case App(f, a) => App(Shift(f, c, d), Shift(a, c, d))
    case Binding(k, n, t, b, i) => Binding(k, n, Shift(t, c, d), Shift(b, c + 1, d), i)
    case Let(n, t, v, b) => Let(n, Shift(t, c, d), Shift(v, c, d), Shift(b, c + 1, d))
    case MData(m, x) => MData(m, Shift(x, c, d))
    case Proj(s, i, x) => Proj(s, i, Shift(x, c, d))
    case _ => e
  }

  // The bound variables from c on shrink by d
  function Unshift(e: Expr, c: nat, d: nat): Expr
    requires d <= c
  {
    match e
    case BVar(v) => if v < c then e else BVar(v - d)
    case MVar(n, t) => MVar(n, Unshift(t, c, d))
    case App(f, a) => App(Unshift(f, c, d), Unshift(a, c, d))
    case Binding(k, n, t, b, i) => Binding(k, n, Unshift(t, c, d), Unshift(b, c + 1, d), i)
    case Let(n, t, v, b) => Let(n, Unshift(t, c, d), Unshift(v, c, d), Unshift(b, c + 1, d))
    case MData(m, x) => MData(m, Unshift(x, c, d))
    case Proj(s, i, x) => Proj(s, i, Unshift(x, c, d))
    case _ => e
  }

  type Subst = seq<Expr>

  // Simultaneous capture-avoiding substitution of ts for the bound variables k, k + 1, ...;
  // o binders have been passed, so the terms are lifted by o
  function Replaced(e: Expr, k: nat, o: nat, ts: Subst): Expr {
    match e
    case BVar(v) =>
      if v < k then e
      else if v < k + |ts| then Shift(ts[v - k], 0, o)
      else BVar(v - |ts|)
    case MVar(n, t) => MVar(n, Replaced(t, k, o, ts))
    case App(f, a) => App(Replaced(f, k, o, ts), Replaced(a, k, o, ts))
    case Binding(b, n, t, x, i) => Binding(b, n, Replaced(t, k, o, ts), Replaced(x, k + 1, o + 1, ts), i)
    case Let(n, t, v, b) => Let(n, Replaced(t, k, o, ts), Replaced(v, k, o, ts), Replaced(b, k + 1, o + 1, ts))
    case MData(m, x) => MData(m, Replaced(x, k, o, ts))
    case Proj(s, i, x) => Proj(s, i, Replaced(x, k, o, ts))
    case _ => e
  }

  function Reverse<T>(s: seq<T>): (r: seq<T>)
    ensures |r| == |s| && forall i :: 0 <= i < |s| ==> r[i] == s[|s| - 1 - i]
  {
    if s == [] then [] else Reverse(s[1..]) + [s[0]]
  }

  // ----- laws -----

  // The cached range is one more than the largest loose index, or 0
  lemma {:induction false} RangeExact(e: Expr)
    ensures forall i: nat :: HasLoose(e, i) ==> i < Range(e)
    ensures Range(e) > 0 ==> HasLoose(e, Range(e) - 1)
  {
    match e
    case MVar(_, t) => RangeExact(t);
    case App(f, a) =>
      RangeExact(f);
      RangeExact(a);
    case Binding(_, _, d, b, _) =>
      RangeExact(d);
      RangeExact(b);
    case Let(_, t, v, b) =>
      RangeExact(t);
      RangeExact(v);
      RangeExact(b);
    case MData(_, x) => RangeExact(x);
    case Proj(_, _, x) => RangeExact(x);
    case _ =>
  }

  // HasFVar is exact: the flag is set when, and only when, some free variable occurs
  lemma {:induction false} SomeFVar(e: Expr) returns (x: Name)
    requires HasFVar(e)
    ensures Occurs(x, e)
  {
    match e
    case FVar(n) => x := n;
    case MVar(_, t) => x := SomeFVar(t);
    case App(f, a) => x := SomeFVar(if HasFVar(f) then f else a);
    case Binding(_, _, d, b, _) => x := SomeFVar(if HasFVar(d) then d else b);
    case Let(_, t, v, b) => x := SomeFVar(if HasFVar(t) then t else if HasFVar(v) then v else b);
    case MData(_, y) => x := SomeFVar(y);
    case Proj(_, _, y) => x := SomeFVar(y);
  }

  lemma {:induction false} NoFVar(e: Expr, x: Name)
    requires !HasFVar(e)
    ensures !Occurs(x, e)
  {
    match e
    case MVar(_, t) => NoFVar(t, x);
    case App(f, a) =>
      NoFVar(f, x);
      NoFVar(a, x);
    case Binding(_, _, d, b, _) =>
      NoFVar(d, x);
      NoFVar(b, x);
    case Let(_, t, v, b) =>
      NoFVar(t, x);
      NoFVar(v, x);
      NoFVar(b, x);
    case MData(_, y) => NoFVar(y, x);
    case Proj(_, _, y) => NoFVar(y, x);
    case _ =>
  }

  // Below the threshold nothing changes
  lemma {:induction false} ShiftClosed(e: Expr, c: nat, d: nat)
    requires Range(e) <= c || d == 0
    ensures Shift(e, c, d) == e
  {
    match e
    case MVar(_, t) => ShiftClosed(t, c, d);
    case App(f, a) =>
      ShiftClosed(f, c, d);
      ShiftClosed(a, c, d);
    case Binding(_, _, t, b, _) =>
      ShiftClosed(t, c, d);
      ShiftClosed(b, c + 1, d);
    case Let(_, t, v, b) =>
      ShiftClosed(t, c, d);
      ShiftClosed(v, c, d);
      ShiftClosed(b, c + 1, d);
    case MData(_, x) => ShiftClosed(x, c, d);
    case Proj(_, _, x) => ShiftClosed(x, c, d);
    case _ =>
  }

  lemma {:induction false} ReplacedClosed(e: Expr, k: nat, o: nat, ts: Subst)
    requires Range(e) <= k || ts == []
    ensures Replaced(e, k, o, ts) == e
  {
    match e
    case MVar(_, t) => ReplacedClosed(t, k, o, ts);
    case App(f, a) =>
      ReplacedClosed(f, k, o, ts);
      ReplacedClosed(a, k, o, ts);
    case Binding(_, _, t, b, _) =>
      ReplacedClosed(t, k, o, ts);
      ReplacedClosed(b, k + 1, o + 1, ts);
    case Let(_, t, v, b) =>
      ReplacedClosed(t, k, o, ts);
      ReplacedClosed(v, k, o, ts);
      ReplacedClosed(b, k + 1, o + 1, ts);
    case MData(_, x) => ReplacedClosed(x, k, o, ts);
    case Proj(_, _, x) => ReplacedClosed(x, k, o, ts);
    case _ =>
  }

  // Lowering undoes lifting
  lemma {:induction false} UnshiftShift(e: Expr, c: nat, d: nat, s: nat)
    requires c <= s <= c + d && d <= s
    ensures Unshift(Shift(e, c, d), s, d) == e
    decreases e, 1
  {
    match e
    case MVar(_, t) => UnshiftShift(t, c, d, s);
    case App(f, a) =>
      UnshiftShift(f, c, d, s);
      UnshiftShift(a, c, d, s);
    case Binding(_, _, _, _, _) => UnshiftShiftBinding(e, c, d, s);
    case Let(_, _, _, _) => UnshiftShiftLet(e, c, d, s);
    case MData(_, x) => UnshiftShift(x, c, d, s);
    case Proj(_, _, x) => UnshiftShift(x, c, d, s);
    case _ =>
  }

  lemma {:induction false} UnshiftShiftBinding(e: Expr, c: nat, d: nat, s: nat)
    requires c <= s <= c + d && d <= s
    requires e.Binding?
    ensures Unshift(Shift(e, c, d), s, d) == e
    decreases e, 0
  {
    UnshiftShift(e.dom, c, d, s);
    UnshiftShift(e.body, c + 1, d, s + 1);
  }

  lemma {:induction false} UnshiftShiftLet(e: Expr, c: nat, d: nat, s: nat)
    requires c <= s <= c + d && d <= s
    requires e.Let?
    ensures Unshift(Shift(e, c, d), s, d) == e
    decreases e, 0
  {
    UnshiftShift(e.ltype, c, d, s);
    UnshiftShift(e.val, c, d, s);
    UnshiftShift(e.body, c + 1, d, s + 1);
  }

  // Lifting twice
  lemma {:induction false} ShiftShift(e: Expr, c: nat, d: nat, c': nat, d': nat)
    requires c <= c' <= c + d
    ensures Shift(Shift(e, c, d), c', d') == Shift(e, c, d + d')
    decreases e, 1
  {
    match e
    case MVar(_, t) => ShiftShift(t, c, d, c', d');
    case App(f, a) =>
      ShiftShift(f, c, d, c', d');
      ShiftShift(a, c, d, c', d');
    case Binding(_, _, _, _, _) => ShiftShiftBinding(e, c, d, c', d');
    case Let(_, _, _, _) => ShiftShiftLet(e, c, d, c', d');
    case MData(_, x) => ShiftShift(x, c, d, c', d');
    case Proj(_, _, x) => ShiftShift(x, c, d, c', d');
    case _ =>
  }

  lemma {:induction false} ShiftShiftBinding(e: Expr, c: nat, d: nat, c': nat, d': nat)
    requires c <= c' <= c + d
    requires e.Binding?
    ensures Shift(Shift(e, c, d), c', d') == Shift(e, c, d + d')
    decreases e, 0
  {
    ShiftShift(e.dom, c, d, c', d');
    ShiftShift(e.body, c + 1, d, c' + 1, d');
  }

  lemma {:induction false} ShiftShiftLet(e: Expr, c: nat, d: nat, c': nat, d': nat)
    requires c <= c' <= c + d
    requires e.Let?
    ensures Shift(Shift(e, c, d), c', d') == Shift(e, c, d + d')
    decreases e, 0
  {
    ShiftShift(e.ltype, c, d, c', d');
    ShiftShift(e.val, c, d, c', d');
    ShiftShift(e.body, c + 1, d, c' + 1, d');
  }

  // Substituting for variables that a lift has skipped cancels that much of the lift
  lemma {:induction false} ReplacedShift(e: Expr, c: nat, d: nat, k: nat, o: nat, ts: Subst)
    requires c <= k && k + |ts| <= c + d
    ensures Replaced(Shift(e, c, d), k, o, ts) == Shift(e, c, d - |ts|)
    decreases e, 1
  {
    match e
    case MVar(_, t) => ReplacedShift(t, c, d, k, o, ts);
    case App(f, a) =>
      ReplacedShift(f, c, d, k, o, ts);
      ReplacedShift(a, c, d, k, o, ts);
    case Binding(_, _, _, _, _) => ReplacedShiftBinding(e, c, d, k, o, ts);
    case Let(_, _, _, _) => ReplacedShiftLet(e, c, d, k, o, ts);
    case MData(_, x) => ReplacedShift(x, c, d, k, o, ts);
    case Proj(_, _, x) => ReplacedShift(x, c, d, k, o, ts);
    case _ =>
  }

  lemma {:induction false} ReplacedShiftBinding(e: Expr, c: nat, d: nat, k: nat, o: nat, ts: Subst)
    requires c <= k && k + |ts| <= c + d
    requires e.Binding?
    ensures Replaced(Shift(e, c, d), k, o, ts) == Shift(e, c, d - |ts|)
    decreases e, 0
  {
    ReplacedShift(e.dom, c, d, k, o, ts);
    ReplacedShift(e.body, c + 1, d, k + 1, o + 1, ts);
  }

  lemma {:induction false} ReplacedShiftLet(e: Expr, c: nat, d: nat, k: nat, o: nat, ts: Subst)
    requires c <= k && k + |ts| <= c + d
    requires e.Let?
    ensures Replaced(Shift(e, c, d), k, o, ts) == Shift(e, c, d - |ts|)
    decreases e, 0
  {
    ReplacedShift(e.ltype, c, d, k, o, ts);
    ReplacedShift(e.val, c, d, k, o, ts);
    ReplacedShift(e.body, c + 1, d, k + 1, o + 1, ts);
  }

  // Substituting ss and ts at once is substituting the outer ts first, under the variables
  // of ss, and then ss
  lemma {:induction false} ReplacedSplit(e: Expr, k: nat, ss: Subst, ts: Subst)
    ensures Replaced(e, k, k, ss + ts) == Replaced(Replaced(e, k + |ss|, k + |ss|, ts), k, k, ss)
    decreases e, 1
  {
    match e
    case BVar(v) => ReplacedSplitVar(v, k, ss, ts);
    case MVar(_, t) => ReplacedSplit(t, k, ss, ts);
    case App(f, a) =>
      ReplacedSplit(f, k, ss, ts);
      ReplacedSplit(a, k, ss, ts);
    case Binding(_, _, _, _, _) => ReplacedSplitBinding(e, k, ss, ts);
    case Let(_, _, _, _) => ReplacedSplitLet(e, k, ss, ts);
    case MData(_, x) => ReplacedSplit(x, k, ss, ts);
    case Proj(_, _, x) => ReplacedSplit(x, k, ss, ts);
    case _ =>
  }

  lemma {:induction false} ReplacedSplitBinding(e: Expr, k: nat, ss: Subst, ts: Subst)
    requires e.Binding?
    ensures Replaced(e, k, k, ss + ts) == Replaced(Replaced(e, k + |ss|, k + |ss|, ts), k, k, ss)
    decreases e, 0
  {
    hide Shift;
    ReplacedSplit(e.dom, k, ss, ts);
    ReplacedSplit(e.body, k + 1, ss, ts);
  }

  lemma {:induction false} ReplacedSplitLet(e: Expr, k: nat, ss: Subst, ts: Subst)
    requires e.Let?
    ensures Replaced(e, k, k, ss + ts) == Replaced(Replaced(e, k + |ss|, k + |ss|, ts), k, k, ss)
    decreases e, 0
  {
    hide Shift;
    ReplacedSplit(e.ltype, k, ss, ts);
    ReplacedSplit(e.val, k, ss, ts);
    ReplacedSplit(e.body, k + 1, ss, ts);
  }

  lemma ReplacedSplitVar(v: nat, k: nat, ss: Subst, ts: Subst)
    ensures Replaced(BVar(v), k, k, ss + ts) == Replaced(Replaced(BVar(v), k + |ss|, k + |ss|, ts), k, k, ss)
  {
    if k + |ss| <= v < k + |ss| + |ts| {
      ReplacedShift(ts[v - k - |ss|], 0, k + |ss|, k, k, ss);
    }
  }

  // The lift may be done beforehand
  lemma {:induction false} ReplacedLifted(e: Expr, k: nat, o: nat, d: nat, t: Expr)
    ensures Replaced(e, k, o + d, [t]) == Replaced(e, k, o, [Shift(t, 0, d)])
  {
    match e
    case BVar(v) => ShiftShift(t, 0, d, 0, o);
    case MVar(_, x) => ReplacedLifted(x, k, o, d, t);
    case App(f, a) =>
      ReplacedLifted(f, k, o, d, t);
      ReplacedLifted(a, k, o, d, t);
    case Binding(_, _, x, b, _) =>
      ReplacedLifted(x, k, o, d, t);
      ReplacedLifted(b, k + 1, o + 1, d, t);
    case Let(_, x, v, b) =>
      ReplacedLifted(x, k, o, d, t);
      ReplacedLifted(v, k, o, d, t);
      ReplacedLifted(b, k + 1, o + 1, d, t);
    case MData(_, x) => ReplacedLifted(x, k, o, d, t);
    case Proj(_, _, x) => ReplacedLifted(x, k, o, d, t);
    case _ =>
  }
}

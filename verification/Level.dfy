/** Universe levels: what they denote, the simplifying constructors, and the order used to
  * normalize them (src/kernel/level.cpp).
  */
module Levels {
  import opened Wrappers
  import opened Names

  datatype Level =
    | Zero
    | Succ(arg: Level)
    | Max(lhs: Level, rhs: Level)
    | IMax(lhs: Level, rhs: Level)
    | Param(id: Name)
    | MVar(id: Name)

  // How an imax is read: as what it means, as its second argument, or as the max of both
  datatype IMaxRule = Exact | Second | Both

  // Values for all parameters and metavariables, and a way to read imax
  datatype Valuation = Valuation(param: Name -> nat, mvar: Name -> nat, rule: IMaxRule)

  // What levels mean
  type Assignment = A: Valuation | A.rule.Exact? witness Valuation(_ => 0, _ => 0, Exact)

  function IMaxValue(rule: IMaxRule, a: nat, b: nat): nat {
    match rule
    case Exact => if b == 0 then 0 else Larger(a, b)
    case Second => b
    case Both => Larger(a, b)
  }

  function Value(l: Level, A: Valuation): nat {
    match l
    case Zero => 0
    case Succ(a) => Value(a, A) + 1
    case Max(a, b) => Larger(Value(a, A), Value(b, A))
    case IMax(a, b) => IMaxValue(A.rule, Value(a, A), Value(b, A))
    case Param(n) => A.param(n)
    case MVar(n) => A.mvar(n)
  }

  function Depth(l: Level): nat {
    match l
    case Succ(a) => Depth(a) + 1
    case Max(a, b) => Larger(Depth(a), Depth(b)) + 1
    case IMax(a, b) => Larger(Depth(a), Depth(b)) + 1
    case _ => 1
  }

  predicate IsExplicit(l: Level) {
    l.Zero? || (l.Succ? && IsExplicit(l.arg))
  }

  function Leaves(l: Level): (n: nat)
    ensures n > 0
  {
    match l
    case Succ(a) => Leaves(a)
    case Max(a, b) => Leaves(a) + Leaves(b)
    case IMax(a, b) => Leaves(a) + Leaves(b)
    case _ => 1
  }

  // ----- succ^k(l) -----

  function Base(l: Level): (b: Level)
    ensures !b.Succ?
  {
    if l.Succ? then Base(l.arg) else l
  }

  function Offset(l: Level): nat {
    if l.Succ? then Offset(l.arg) + 1 else 0
  }

  function AddSucc(l: Level, k: nat): Level {
    if k == 0 then l else Succ(AddSucc(l, k - 1))
  }

  lemma {:induction false} OffsetParts(l: Level)
    ensures AddSucc(Base(l), Offset(l)) == l
    ensures Leaves(Base(l)) == Leaves(l)
    ensures IsExplicit(l) <==> Base(l).Zero?
    ensures forall A :: Value(l, A) == Value(Base(l), A) + Offset(l)
  {
    if l.Succ? {
      OffsetParts(l.arg);
    }
  }

  lemma {:induction false} AddSuccParts(l: Level, k: nat)
    ensures Base(AddSucc(l, k)) == Base(l) && Offset(AddSucc(l, k)) == Offset(l) + k
    ensures Leaves(AddSucc(l, k)) == Leaves(l)
    ensures forall A :: Value(AddSucc(l, k), A) == Value(l, A) + k
  {
    if k > 0 {
      AddSuccParts(l, k - 1);
    }
  }

  lemma SuccAfter(l: Level, k: nat)
    ensures AddSucc(Succ(l), k) == AddSucc(l, k + 1)
  {
  }

  // to_offset
  method ToOffset(level: Level) returns (l: Level, k: nat)
    ensures l == Base(level) && k == Offset(level)
  {
    l, k := level, 0;
    while l.Succ?
      invariant Base(l) == Base(level) && k + Offset(l) == Offset(level)
      decreases l
    {
      l := l.arg;
      k := k + 1;
    }
  }

  // mk_succ(l, k)
  method MkSucc(level: Level, k: nat) returns (l: Level)
    ensures l == AddSucc(level, k)
  {
    l := level;
    var i := k;
    while i > 0
      invariant AddSucc(l, i) == AddSucc(level, k)
    {
      SuccAfter(l, i - 1);
      i := i - 1;
      l := Succ(l);
    }
  }

  // ----- simplifying constructors -----

  function MkMax(l1: Level, l2: Level): (r: Level)
    ensures forall A :: Value(r, A) == Larger(Value(l1, A), Value(l2, A))
  {
    if IsExplicit(l1) && IsExplicit(l2) then
      ExplicitDepth(l1);
      ExplicitDepth(l2);
      if Depth(l1) >= Depth(l2) then l1 else l2
    else if l1 == l2 then l1
    else if l1.Zero? then l2
    else if l2.Zero? then l1
    else if l2.Max? && (l2.lhs == l1 || l2.rhs == l1) then l2
    else if l1.Max? && (l1.lhs == l2 || l1.rhs == l2) then l1
    else if Base(l1) == Base(l2) then
      OffsetParts(l1);
      OffsetParts(l2);
      if Offset(l1) > Offset(l2) then l1 else l2
    else Max(l1, l2)
  }

  lemma {:induction false} ExplicitDepth(l: Level)
    requires IsExplicit(l)
    ensures forall A :: Value(l, A) + 1 == Depth(l)
  {
    if l.Succ? {
      ExplicitDepth(l.arg);
    }
  }

  // The assertion in mk_max: different levels with the same base have different offsets
  lemma SameBase(l1: Level, l2: Level)
    requires l1 != l2 && Base(l1) == Base(l2)
    ensures Offset(l1) != Offset(l2)
  {
    OffsetParts(l1);
    OffsetParts(l2);
  }

  predicate IsNotZero(l: Level) {
    match l
    case Succ(_) => true
    case Max(a, b) => IsNotZero(a) || IsNotZero(b)
    case IMax(_, b) => IsNotZero(b)
    case _ => false
  }

  const ALL_ZERO: Assignment := Valuation(_ => 0, _ => 0, Exact)

  // is_not_zero is exact
  lemma NotZeroExact(l: Level)
    ensures IsNotZero(l) <==> forall A: Assignment :: Value(l, A) > 0
  {
    if IsNotZero(l) {
      forall A: Assignment ensures Value(l, A) > 0 {
        NotZeroPositive(l, A);
      }
    } else {
      SometimesZero(l);
    }
  }

  lemma AlwaysPositive(l: Level)
    requires IsNotZero(l)
    ensures forall A :: Value(l, A) > 0
  {
    forall A ensures Value(l, A) > 0 {
      NotZeroPositive(l, A);
    }
  }

  lemma {:induction false} NotZeroPositive(l: Level, A: Valuation)
    requires IsNotZero(l)
    ensures Value(l, A) > 0
  {
    match l
    case Max(a, b) =>
      if IsNotZero(a) {
        NotZeroPositive(a, A);
      } else {
        NotZeroPositive(b, A);
      }
    case IMax(_, b) => NotZeroPositive(b, A);
    case _ =>
  }

  lemma {:induction false} SometimesZero(l: Level)
    requires !IsNotZero(l)
    ensures Value(l, ALL_ZERO) == 0
  {
    match l
    case Max(a, b) =>
      SometimesZero(a);
      SometimesZero(b);
    case IMax(_, b) => SometimesZero(b);
    case _ =>
  }

  // x may stand for y: the same value, or at least or at most as much when imax is read as its
  // second argument or as the max of both
  predicate Stands(rule: IMaxRule, x: nat, y: nat) {
    match rule
    case Exact => x == y
    case Second => x >= y
    case Both => x <= y
  }

  function MkIMax(l1: Level, l2: Level): (r: Level)
    ensures forall A: Valuation :: Stands(A.rule, Value(r, A), Value(IMax(l1, l2), A))
  {
    if IsNotZero(l2) then
      AlwaysPositive(l2);
      MkMax(l1, l2)
    else if l2.Zero? then l2
    else if l1.Zero? then l2
    else if l1 == l2 then l1
    else IMax(l1, l2)
  }

  // Where mk_max simplifies: zero is neutral, an argument of a max is absorbed, of two levels
  // with one base the higher stays; otherwise nothing is lost
  lemma MaxLaws(a: Level, b: Level, i: nat, j: nat)
    ensures MkMax(a, a) == a && MkMax(Zero, a) == a && MkMax(a, Zero) == a
    ensures MkMax(a, Max(a, b)) == MkMax(Max(a, b), a) == Max(a, b)
    ensures MkMax(b, Max(a, b)) == MkMax(Max(a, b), b) == Max(a, b)
    ensures MkMax(AddSucc(a, i), AddSucc(a, j)) == AddSucc(a, Larger(i, j))
    ensures MkMax(a, b) in {a, b, Max(a, b)}
  {
    MaxUnits(a);
    MaxAbsorbs(a, b);
    MaxOffsets(a, i, j);
  }

  lemma MaxUnits(a: Level)
    ensures MkMax(a, a) == a && MkMax(Zero, a) == a && MkMax(a, Zero) == a
  {
    DepthPositive(a);
    if a.Succ? {
      DepthPositive(a.arg);
    }
  }

  lemma {:induction false} DepthPositive(l: Level)
    ensures Depth(l) > 0
  {
  }

  lemma MaxAbsorbs(a: Level, b: Level)
    ensures MkMax(a, Max(a, b)) == MkMax(Max(a, b), a) == Max(a, b)
    ensures MkMax(b, Max(a, b)) == MkMax(Max(a, b), b) == Max(a, b)
  {
    assert a < Max(a, b) && b < Max(a, b);
  }

  lemma MaxOffsets(a: Level, i: nat, j: nat)
    ensures MkMax(AddSucc(a, i), AddSucc(a, j)) == AddSucc(a, Larger(i, j))
  {
    hide MkMax;
    AddSuccParts(a, i);
    AddSuccParts(a, j);
    OffsetParts(AddSucc(a, i));
    OffsetParts(AddSucc(a, j));
    MaxSameBase(AddSucc(a, i), AddSucc(a, j));
  }

  lemma MaxSameBase(l1: Level, l2: Level)
    requires Base(l1) == Base(l2)
    ensures MkMax(l1, l2) == if Offset(l1) >= Offset(l2) then l1 else l2
  {
    OffsetParts(l1);
    OffsetParts(l2);
    if IsExplicit(l1) {
      ExplicitDepth(l1);
      ExplicitDepth(l2);
      assert Value(l1, ALL_ZERO) - Value(l2, ALL_ZERO) == Offset(l1) - Offset(l2);
    }
  }

  // The same for mk_imax: a positive second argument makes it a max
  lemma IMaxLaws(a: Level, b: Level)
    ensures MkIMax(a, Zero) == Zero && MkIMax(Zero, b) == b && MkIMax(a, a) == a
    ensures IsNotZero(b) ==> MkIMax(a, b) == MkMax(a, b)
    ensures !IsNotZero(b) ==> MkIMax(a, b) in {a, b, IMax(a, b)}
    ensures MkIMax(a, b) == IMax(a, b) <==> !IsNotZero(b) && !b.Zero? && !a.Zero? && a != b
  {
    hide MkMax;
    MaxUnits(a);
    MaxUnits(b);
    MaxLaws(a, b, 0, 0);
  }

  // A simplification loses a leaf; without one there is no succ on the outside
  lemma MkMaxLeaves(l1: Level, l2: Level)
    ensures Leaves(MkMax(l1, l2)) <= Leaves(l1) + Leaves(l2)
    ensures Leaves(MkMax(l1, l2)) == Leaves(l1) + Leaves(l2) ==> Offset(MkMax(l1, l2)) == 0
  {
  }

  lemma MkIMaxLeaves(l1: Level, l2: Level)
    ensures Leaves(MkIMax(l1, l2)) <= Leaves(l1) + Leaves(l2)
    ensures Leaves(MkIMax(l1, l2)) == Leaves(l1) + Leaves(l2) ==> Offset(MkIMax(l1, l2)) == 0
  {
    MkMaxLeaves(l1, l2);
  }

  // ----- the order of normalize -----

  function KindRank(l: Level): nat {
    match l
    case Zero => 0
    case Succ(_) => 1
    case Max(_, _) => 2
    case IMax(_, _) => 3
    case Param(_) => 4
    case MVar(_) => 5
  }

  // is_norm_lt
  predicate NormLess(a: Level, b: Level)
    decreases Depth(a), 1
  {
    BaseDepth(a);
    if Base(a) != Base(b) then BaseLess(Base(a), Base(b)) else Offset(a) < Offset(b)
  }

  predicate BaseLess(a: Level, b: Level)
    requires !a.Succ? && !b.Succ? && a != b
    decreases Depth(a), 0
  {
    if KindRank(a) != KindRank(b) then KindRank(a) < KindRank(b)
    else match a
      case Param(n) => Less(n, b.id)
      case MVar(n) => Less(n, b.id)
      case Max(x, y) => if x != b.lhs then NormLess(x, b.lhs) else NormLess(y, b.rhs)
      case IMax(x, y) => if x != b.lhs then NormLess(x, b.lhs) else NormLess(y, b.rhs)
      case Zero => false
  }

  lemma {:induction false} BaseDepth(l: Level)
    ensures Depth(Base(l)) <= Depth(l)
  {
    if l.Succ? {
      BaseDepth(l.arg);
    }
  }

  lemma {:induction false} NormLessTotal(a: Level, b: Level)
    ensures !NormLess(a, a)
    ensures NormLess(a, b) || a == b || NormLess(b, a)
    ensures !(NormLess(a, b) && NormLess(b, a))
    decreases Depth(a), 1
  {
    OffsetParts(a);
    OffsetParts(b);
    BaseDepth(a);
    if Base(a) != Base(b) {
      BaseLessTotal(Base(a), Base(b));
    }
  }

  lemma {:induction false} BaseLessTotal(a: Level, b: Level)
    requires !a.Succ? && !b.Succ? && a != b
    ensures BaseLess(a, b) || BaseLess(b, a)
    ensures !(BaseLess(a, b) && BaseLess(b, a))
    decreases Depth(a), 0
  {
    if KindRank(a) == KindRank(b) {
      match a
      case Param(n) => LessTotal(n, b.id);
      case MVar(n) => LessTotal(n, b.id);
      case Max(x, y) =>
        NormLessTotal(x, b.lhs);
        NormLessTotal(y, b.rhs);
      case IMax(x, y) =>
        NormLessTotal(x, b.lhs);
        NormLessTotal(y, b.rhs);
      case Zero =>
    }
  }

  lemma {:induction false} NormLessTransitive(a: Level, b: Level, c: Level)
    requires NormLess(a, b) && NormLess(b, c)
    ensures NormLess(a, c)
    decreases Depth(a), 1
  {
    BaseDepth(a);
    if Base(a) != Base(b) && Base(b) != Base(c) {
      BaseLessTotal(Base(a), Base(b));
      if Base(a) != Base(c) {
        BaseLessTransitive(Base(a), Base(b), Base(c));
      }
    }
  }

  lemma {:induction false} BaseLessTransitive(a: Level, b: Level, c: Level)
    requires !a.Succ? && !b.Succ? && !c.Succ? && a != b && b != c && a != c
    requires BaseLess(a, b) && BaseLess(b, c)
    ensures BaseLess(a, c)
    decreases Depth(a), 0
  {
    if KindRank(a) == KindRank(b) == KindRank(c) {
      match a
      case Param(n) => LessTransitive(n, b.id, c.id);
      case MVar(n) => LessTransitive(n, b.id, c.id);
      case Max(x, y) => PairTransitive(x, y, b.lhs, b.rhs, c.lhs, c.rhs);
      case IMax(x, y) => PairTransitive(x, y, b.lhs, b.rhs, c.lhs, c.rhs);
      case Zero =>
    }
  }

  lemma PairTransitive(x1: Level, y1: Level, x2: Level, y2: Level, x3: Level, y3: Level)
    requires if x1 != x2 then NormLess(x1, x2) else NormLess(y1, y2)
    requires if x2 != x3 then NormLess(x2, x3) else NormLess(y2, y3)
    ensures if x1 != x3 then NormLess(x1, x3) else NormLess(y1, y3)
    decreases Larger(Depth(x1), Depth(y1)), 2
  {
    NormLessTotal(x1, x2);
    if x1 != x2 && x2 != x3 {
      NormLessTransitive(x1, x2, x3);
      NormLessTotal(x1, x3);
    } else if x1 == x2 == x3 {
      NormLessTransitive(y1, y2, y3);
    }
  }

  // The comment on is_norm_lt: a strict total order, zero first, succ(l) next after l; the kind
  // of the base decides first: numerals, max, imax, parameters, metavariables
  lemma NormLessOrder(a: Level, b: Level, c: Level)
    ensures !NormLess(a, a)
    ensures NormLess(a, b) || a == b || NormLess(b, a)
    ensures NormLess(a, b) && NormLess(b, c) ==> NormLess(a, c)
    ensures a != Zero ==> NormLess(Zero, a)
    ensures NormLess(a, Succ(a)) && !(NormLess(a, b) && NormLess(b, Succ(a)))
    ensures Base(a).Max? && (Base(b).IMax? || Base(b).Param? || Base(b).MVar?) ==> NormLess(a, b)
    ensures Base(a).IMax? && (Base(b).Param? || Base(b).MVar?) ==> NormLess(a, b)
    ensures Base(a).Param? && Base(b).MVar? ==> NormLess(a, b)
    ensures Base(a).Zero? && !Base(b).Zero? ==> NormLess(a, b)
  {
    NormLessTotal(a, b);
    NormLessTotal(a, Zero);
    if NormLess(a, b) && NormLess(b, c) {
      NormLessTransitive(a, b, c);
    }
    if Base(a) != Base(b) {
      BaseLessTotal(Base(a), Base(b));
    }
  }
}

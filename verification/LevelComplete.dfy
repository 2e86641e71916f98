/** Where is_geq is complete: it finds every comparison that does not depend on what an imax on
  * the left adds to its second argument, nor on what one on the right leaves out, if no succ is
  * put on an imax; so it decides the order of levels without imax (src/kernel/level.cpp).
  */
module LevelComplete {
  import opened Wrappers
  import opened Names
  import opened Levels
  import opened LevelNormalize
  import opened LevelCompare

  predicate NoIMax(l: Level) {
    match l
    case Succ(a) => NoIMax(a)
    case Max(a, b) => NoIMax(a) && NoIMax(b)
    case IMax(_, _) => false
    case _ => true
  }

  // No succ is put on an imax
  predicate Bare(l: Level) {
    match l
    case Succ(a) => NoIMax(a)
    case Max(a, b) => Bare(a) && Bare(b)
    case IMax(a, b) => Bare(a) && Bare(b)
    case _ => true
  }

  lemma {:induction false} NoIMaxBare(l: Level)
    requires NoIMax(l)
    ensures Bare(l)
  {
    if l.Max? {
      NoIMaxBare(l.lhs);
      NoIMaxBare(l.rhs);
    }
  }

  // ----- the normal form -----

  // Numerals, parameters and metavariables, with any number of succs
  predicate Atomic(l: Level) {
    Base(l).Zero? || Base(l).Param? || Base(l).MVar?
  }

  predicate AllAtomic(s: Buffer) {
    forall x :: x in s ==> Atomic(x)
  }

  // What the args of a max may be
  predicate Piece(l: Level) {
    Atomic(l) || (l.IMax? && Bare(l))
  }

  predicate AllPieces(s: Buffer) {
    forall x :: x in s ==> Piece(x)
  }

  // A max of pieces
  predicate IsTree(l: Level) {
    if l.Max? then IsTree(l.lhs) && IsTree(l.rhs) else Piece(l)
  }

  lemma {:induction false} NoIMaxBase(l: Level)
    requires NoIMax(l)
    ensures NoIMax(Base(l)) && (Base(l).Max? || Atomic(l))
  {
    if l.Succ? {
      NoIMaxBase(l.arg);
    }
  }

  lemma {:induction false} AtomicNoIMax(l: Level)
    requires Atomic(l)
    ensures NoIMax(l)
  {
    if l.Succ? {
      AtomicNoIMax(l.arg);
    }
  }

  lemma {:induction false} TreeBare(l: Level)
    requires IsTree(l)
    ensures Bare(l)
  {
    if l.Max? {
      TreeBare(l.lhs);
      TreeBare(l.rhs);
    } else if Atomic(l) {
      AtomicNoIMax(l);
      NoIMaxBare(l);
    }
  }

  lemma {:induction false} PushTree(l: Level)
    requires IsTree(l)
    ensures AllPieces(PushMaxArgs(l)) && (NoIMax(l) ==> AllAtomic(PushMaxArgs(l)))
  {
    if l.Max? {
      PushTree(l.lhs);
      PushTree(l.rhs);
    }
  }

  lemma {:induction false} PushBare(l: Level)
    requires Bare(l)
    ensures forall x :: x in PushMaxArgs(l) ==> Bare(x)
  {
    if l.Max? {
      PushBare(l.lhs);
      PushBare(l.rhs);
    }
  }

  lemma {:induction false} PushNoIMax(l: Level)
    requires NoIMax(l)
    ensures forall x :: x in PushMaxArgs(l) ==> NoIMax(x)
  {
    if l.Max? {
      PushNoIMax(l.lhs);
      PushNoIMax(l.rhs);
    }
  }

  lemma MkMaxTree(l1: Level, l2: Level)
    requires IsTree(l1) && IsTree(l2)
    ensures IsTree(MkMax(l1, l2)) && (NoIMax(l1) && NoIMax(l2) ==> NoIMax(MkMax(l1, l2)))
  {
  }

  lemma MkIMaxTree(l1: Level, l2: Level)
    requires IsTree(l1) && IsTree(l2)
    ensures IsTree(MkIMax(l1, l2))
  {
    hide MkMax;
    TreeBare(l1);
    TreeBare(l2);
    MkMaxTree(l1, l2);
  }

  lemma {:induction false} MaxOfTree(s: Buffer)
    requires s != [] && AllPieces(s)
    ensures IsTree(MaxOf(s)) && (AllAtomic(s) ==> NoIMax(MaxOf(s)))
  {
    hide MkMax;
    assert s[0] in s;
    if Atomic(s[0]) {
      AtomicNoIMax(s[0]);
    }
    if |s| > 1 {
      MaxOfTree(s[1..]);
      MkMaxTree(s[0], MaxOf(s[1..]));
    }
  }

  lemma RebuildTree(args: Buffer, k: nat)
    requires args != [] && AllPieces(args) && (k == 0 || AllAtomic(args))
    ensures IsTree(Rebuild(args, k)) && (AllAtomic(args) ==> NoIMax(Rebuild(args, k)))
  {
    hide Atomic, NoIMax;
    KeptValue(args, ALL_ZERO);
    KeptMembers(args, |args|);
    var s := Kept(args, |args|);
    assert AllPieces(s) && (AllAtomic(args) ==> AllAtomic(s));
    if AllAtomic(s) {
      RaiseAtomic(s, k);
    } else {
      RaiseNothing(s);
    }
    MaxOfTree(Raise(s, k));
  }

  lemma {:induction false} RaiseNothing(s: Buffer)
    ensures Raise(s, 0) == s
  {
    if s != [] {
      RaiseNothing(s[1..]);
      assert s == [s[0]] + s[1..];
    }
  }

  lemma {:induction false} RaiseAtomic(s: Buffer, k: nat)
    requires AllAtomic(s)
    ensures AllAtomic(Raise(s, k)) && AllPieces(Raise(s, k))
  {
    if s != [] {
      assert s[0] in s;
      AddSuccParts(s[0], k);
      RaiseAtomic(s[1..], k);
    }
  }

  lemma SortedPieces(s: Buffer)
    requires AllPieces(s)
    ensures AllPieces(Sorted(s)) && (AllAtomic(s) ==> AllAtomic(Sorted(s)))
  {
    SortedOrder(s);
    forall x | x in Sorted(s) ensures x in s {
      assert x in multiset(Sorted(s));
    }
  }

  // The normal form is a max of numerals, parameters and metavariables with succs, and of imax
  lemma {:induction false} NormTree(l: Level)
    requires Bare(l)
    ensures IsTree(Norm(l)) && (NoIMax(l) ==> NoIMax(Norm(l)))
    decreases Size(l), 0
  {
    hide NoIMax, MkIMax, Rebuild, PushMaxArgs;
    BareBase(l);
    BaseSize(l);
    match Base(l)
    case IMax(a, b) =>
      assert AddSucc(MkIMax(Norm(a), Norm(b)), 0) == MkIMax(Norm(a), Norm(b));
      NormTree(a);
      NormTree(b);
      MkIMaxTree(Norm(a), Norm(b));
    case Max(_, _) =>
      var r := Base(l);
      ArgsSize(r);
      NormArgsPieces(PushMaxArgs(r));
      SortedPieces(NormArgs(PushMaxArgs(r)));
      RebuildTree(Sorted(NormArgs(PushMaxArgs(r))), Offset(l));
    case _ =>
  }

  // Below succs there is no imax
  lemma {:induction false} BareBase(l: Level)
    requires Bare(l)
    ensures l.IMax? ==> !NoIMax(l) && Bare(l.lhs) && Bare(l.rhs)
    ensures Base(l).IMax? ==> l == Base(l) && Offset(l) == 0
    ensures Base(l).Max? ==> forall x :: x in PushMaxArgs(Base(l)) ==> Bare(x)
    ensures Base(l).Max? && (NoIMax(l) || Offset(l) > 0) ==> forall x :: x in PushMaxArgs(Base(l)) ==> NoIMax(x)
    ensures !Base(l).Max? && !Base(l).IMax? ==> Atomic(l)
  {
    if l.Succ? {
      NoIMaxBase(l);
      NoIMaxBare(Base(l));
      PushNoIMax(Base(l));
    } else if NoIMax(l) {
      PushNoIMax(l);
    }
    if Base(l).Max? {
      PushBare(Base(l));
    }
  }

  lemma {:induction false} NormArgsPieces(todo: Buffer)
    requires forall x :: x in todo ==> Bare(x)
    ensures AllPieces(NormArgs(todo)) && ((forall x :: x in todo ==> NoIMax(x)) ==> AllAtomic(NormArgs(todo)))
    decreases AllSize(todo), 1
  {
    hide NoIMax, Bare, Atomic, PushMaxArgs;
    if todo != [] {
      assert todo[0] in todo;
      NormTree(todo[0]);
      PushTree(Norm(todo[0]));
      NormArgsPieces(todo[1..]);
    }
  }

  // ----- a refuted comparison has a counterexample -----

  // Only the variable of x gets the value w, if it has one
  function Separating(x: Level, w: nat): Assignment {
    Valuation(n => if Base(x) == Param(n) then w else 0, n => if Base(x) == MVar(n) then w else 0, Exact)
  }

  // With each imax on the left read as its second argument
  function Low(A: Assignment): Valuation {
    A.(rule := Second)
  }

  // With each imax on the right read as the max of both arguments
  function High(A: Assignment): Valuation {
    A.(rule := Both)
  }

  // For every high enough value of its variable, x exceeds l
  ghost predicate Exceeds(x: Level, l: Level, bound: nat) {
    forall w: nat :: w >= bound ==> Value(l, Low(Separating(x, w))) < Value(x, Separating(x, w))
  }

  lemma {:induction false} NotCovered(l: Level, x: Level) returns (bound: nat)
    requires Bare(l) && Atomic(x) && !IsGeq(l, x)
    ensures Exceeds(x, l, bound)
    decreases Leaves(l) + Leaves(x), Offset(l) + Offset(x), 1
  {
    hide Bare, IsTree, Norm;
    NormTree(l);
    NormPreserves(l, ALL_ZERO);
    AtomicNorm(x);
    bound := NotCoveredCore(Norm(l), x);
    forall w: nat | w >= bound ensures Value(l, Low(Separating(x, w))) < Value(x, Separating(x, w)) {
      NormPreserves(l, Low(Separating(x, w)));
    }
  }

  lemma AtomicNorm(x: Level)
    requires Atomic(x)
    ensures Norm(x) == x
  {
  }

  lemma {:induction false} NotCoveredCore(l: Level, x: Level) returns (bound: nat)
    requires IsTree(l) && Atomic(x) && !IsGeqCore(l, x)
    ensures Exceeds(x, l, bound)
    decreases Leaves(l) + Leaves(x), Offset(l) + Offset(x), 0
  {
    TreeBare(l);
    if l.Max? {
      var b1 := NotCovered(l.lhs, x);
      var b2 := NotCovered(l.rhs, x);
      bound := Larger(b1, b2);
      forall w: nat | w >= bound ensures Value(l, Low(Separating(x, w))) < Value(x, Separating(x, w)) {
        assert Exceeds(x, l.lhs, b1) && Exceeds(x, l.rhs, b2);
      }
    } else if l.IMax? {
      bound := NotCovered(l.rhs, x);
      forall w: nat | w >= bound ensures Value(l, Low(Separating(x, w))) < Value(x, Separating(x, w)) {
        assert Exceeds(x, l.rhs, bound);
      }
    } else {
      bound := Offset(l) + 1;
      AtomExceeds(l, x);
    }
  }

  lemma AtomExceeds(l: Level, x: Level)
    requires Atomic(l) && Atomic(x) && !IsGeqCore(l, x)
    ensures Exceeds(x, l, Offset(l) + 1)
  {
    OffsetParts(l);
    OffsetParts(x);
    forall w: nat | w >= Offset(l) + 1 ensures Value(l, Low(Separating(x, w))) < Value(x, Separating(x, w)) {
      var A := Separating(x, w);
      assert Value(l, Low(A)) == Value(Base(l), Low(A)) + Offset(l);
      assert Value(x, A) == Value(Base(x), A) + Offset(x);
    }
  }

  lemma {:induction false} NotGeq(l1: Level, l2: Level) returns (A: Assignment)
    requires Bare(l1) && Bare(l2) && !IsGeq(l1, l2)
    ensures Value(l1, Low(A)) < Value(l2, High(A))
    decreases Leaves(l1) + Leaves(l2), Offset(l1) + Offset(l2), 1
  {
    hide Bare, IsTree, Norm;
    NormTree(l1);
    NormTree(l2);
    NormPreserves(l1, ALL_ZERO);
    NormPreserves(l2, ALL_ZERO);
    A := NotGeqCore(Norm(l1), Norm(l2));
    NormPreserves(l1, Low(A));
    NormPreserves(l2, High(A));
  }

  lemma {:induction false} NotGeqCore(l1: Level, l2: Level) returns (A: Assignment)
    requires IsTree(l1) && IsTree(l2) && !IsGeqCore(l1, l2)
    ensures Value(l1, Low(A)) < Value(l2, High(A))
    decreases Leaves(l1) + Leaves(l2), Offset(l1) + Offset(l2), 0
  {
    TreeBare(l1);
    TreeBare(l2);
    if l2.Max? || l2.IMax? {
      A := NotGeq(l1, if IsGeq(l1, l2.lhs) then l2.rhs else l2.lhs);
    } else {
      var bound := NotCoveredCore(l1, l2);
      A := Separating(l2, bound);
      AtomicNoIMax(l2);
      SameReading(l2, A, High(A));
    }
  }

  // Without imax it does not matter how imax is read
  lemma {:induction false} SameReading(l: Level, A: Valuation, B: Valuation)
    requires NoIMax(l) && B == A.(rule := B.rule)
    ensures Value(l, A) == Value(l, B)
  {
    match l
    case Succ(a) => SameReading(a, A, B);
    case Max(a, b) =>
      SameReading(a, A, B);
      SameReading(b, A, B);
    case _ =>
  }

  // The left side, with an imax read as its second argument, is at least the right side, with an
  // imax read as the max of both, under every assignment: then the answer is true
  lemma GeqComplete(l1: Level, l2: Level)
    requires Bare(l1) && Bare(l2) && forall A: Assignment :: Value(l1, Low(A)) >= Value(l2, High(A))
    ensures IsGeq(l1, l2)
  {
    if !IsGeq(l1, l2) {
      var A := NotGeq(l1, l2);
    }
  }

  // Without imax, is_geq decides the order of the values
  lemma GeqExact(l1: Level, l2: Level)
    requires NoIMax(l1) && NoIMax(l2)
    ensures IsGeq(l1, l2) <==> forall A: Assignment :: Value(l1, A) >= Value(l2, A)
  {
    if IsGeq(l1, l2) {
      GeqSound(l1, l2);
    } else {
      NoIMaxBare(l1);
      NoIMaxBare(l2);
      var A := NotGeq(l1, l2);
      SameReading(l1, A, Low(A));
      SameReading(l2, A, High(A));
    }
  }

  // ----- with an imax it need not be -----

  // On the left alone, on the right alone, and on both sides: the answer is false, although
  // the value is never smaller
  lemma GeqIncomplete(u: Name, v: Name)
    requires u != v
    ensures var l1, l2 := IMax(Param(u), Succ(Param(v))), Param(u);
      NoIMax(l2) && !IsGeq(l1, l2) && forall A: Assignment :: Value(l1, A) >= Value(l2, A)
    ensures var l1, l2 := Param(v), IMax(Succ(Zero), Param(v));
      NoIMax(l1) && !IsGeq(l1, l2) && forall A: Assignment :: Value(l1, A) >= Value(l2, A)
    ensures var l1, l2 := IMax(Succ(Param(u)), Param(v)), IMax(Param(u), Param(v));
      !IsGeq(l1, l2) && forall A: Assignment :: Value(l1, A) >= Value(l2, A)
  {
    LeftIncomplete(u, v);
    RightIncomplete(v);
    BothIncomplete(u, v);
  }

  // With a succ on an imax, even when the second argument of the imax suffices; and when the
  // imax on the right is taken apart before the one on the left
  lemma {:induction false} SuccOnIMax(u: Name, v: Name, w: Name)
    requires u != v
    ensures var l1, l2 := Succ(Succ(IMax(Param(u), Param(v)))), Succ(Param(v));
      !IsGeq(l1, l2) && forall A: Assignment :: Value(l1, Low(A)) >= Value(l2, High(A))
    ensures var l := IMax(Param(u), Param(v));
      !IsGeq(IMax(Param(w), l), l) && forall A: Assignment :: Value(IMax(Param(w), l), A) >= Value(l, A)
  {
    var l := IMax(Param(u), Param(v));
    assert Norm(l) == l;
    var l1, l2 := Succ(Succ(l)), Succ(Param(v));
    AddSuccParts(l, 2);
    AddSuccParts(Param(v), 1);
    assert AddSucc(l, 2) == Succ(AddSucc(l, 1)) == l1 && AddSucc(Param(v), 1) == l2;
    assert !IsGeqCore(l1, l2);
    forall A: Assignment ensures Value(l1, Low(A)) >= Value(l2, High(A)) {
      assert Value(l1, Low(A)) == Value(l, Low(A)) + 2;
      assert Value(l2, High(A)) == Value(Param(v), High(A)) + 1;
    }
    NestedIMax(u, v, w);
  }

  lemma NestedIMax(u: Name, v: Name, w: Name)
    requires u != v
    ensures !IsGeq(IMax(Param(w), IMax(Param(u), Param(v))), IMax(Param(u), Param(v)))
  {
    var l := IMax(Param(u), Param(v));
    var l1 := IMax(Param(w), l);
    GeqParams(v, 0, u, 0);
    assert Norm(l) == l && Untouched(l) && Norm(l1) == l1;
    assert !IsGeqCore(l, Param(u));
    assert !IsGeq(l, Param(u));
    assert !IsGeqCore(l1, Param(u));
    assert !IsGeq(l1, Param(u));
    assert !IsGeqCore(l1, l);
  }

  // On a parameter with succs on each side
  lemma GeqParams(u: Name, i: nat, v: Name, j: nat)
    ensures IsGeq(AddSucc(Param(u), i), AddSucc(Param(v), j)) <==> u == v && i >= j
  {
    var l1, l2 := AddSucc(Param(u), i), AddSucc(Param(v), j);
    AddSuccParts(Param(u), i);
    AddSuccParts(Param(v), j);
    AtomicNoIMax(l1);
    AtomicNoIMax(l2);
    GeqExact(l1, l2);
    if u == v {
      assert forall A: Assignment :: Value(l1, A) - Value(l2, A) == i - j;
      assert Value(l1, ALL_ZERO) == i;
    } else {
      var A := Separating(l2, i + 1);
      assert Value(l1, A) == i && Value(l2, A) == i + 1 + j;
    }
  }

  lemma LeftIncomplete(u: Name, v: Name)
    requires u != v
    ensures !IsGeq(IMax(Param(u), Succ(Param(v))), Param(u))
  {
    GeqParams(v, 1, u, 0);
    var l1 := IMax(Param(u), Succ(Param(v)));
    assert AddSucc(Param(v), 1) == l1.rhs;
    assert Base(l1.rhs) == Base(l1.rhs.arg) == Param(v);
    assert Untouched(l1.rhs) && Norm(l1) == l1;
    assert !IsGeqCore(l1, Param(u));
  }

  lemma RightIncomplete(v: Name)
    ensures !IsGeq(Param(v), IMax(Succ(Zero), Param(v)))
    ensures forall A: Assignment :: Value(Param(v), A) >= Value(IMax(Succ(Zero), Param(v)), A)
  {
    assert !IsGeqCore(Param(v), Succ(Zero));
    assert !IsGeq(Param(v), Succ(Zero));
    assert forall A: Assignment :: Value(Succ(Zero), A) == Value(Zero, A) + 1 == 1;
  }

  lemma BothIncomplete(u: Name, v: Name)
    requires u != v
    ensures !IsGeq(IMax(Succ(Param(u)), Param(v)), IMax(Param(u), Param(v)))
  {
    GeqParams(v, 0, u, 0);
    var l1 := IMax(Succ(Param(u)), Param(v));
    assert !IsGeqCore(l1, Param(u));
    assert !IsGeq(l1, Param(u));
  }
}

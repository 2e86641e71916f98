/** is_geq as a system of rules (src/kernel/level.cpp): the answer is true exactly when the
  * rules derive it, in whatever order they are applied.
  */
module LevelRules {
  import opened Levels
  import opened LevelNormalize
  import opened LevelCompare

  type Relation = (Level, Level) -> bool

  // The premises of rules are about levels that are normalized first
  predicate On(R: Relation, l1: Level, l2: Level) {
    R(Norm(l1), Norm(l2))
  }

  // Every level is geq itself and zero; what comes below max and imax on the right is covered
  // piece by piece
  ghost predicate RightRules(R: Relation) {
    && (forall l :: R(l, l))
    && (forall l :: R(l, Zero))
    && (forall l, a, b {:trigger R(l, Max(a, b))} :: On(R, l, a) && On(R, l, b) ==> R(l, Max(a, b)))
    && (forall l, a, b {:trigger R(l, IMax(a, b))} :: On(R, l, a) && On(R, l, b) ==> R(l, IMax(a, b)))
  }

  // A max on the left covers what one of its arguments covers, an imax what its second one
  // covers. The right side is taken apart first: a max always, an imax when there is an imax on the left
  ghost predicate LeftRules(R: Relation) {
    && (forall a, b, l: Level {:trigger R(Max(a, b), l)} :: !l.Max? && (On(R, a, l) || On(R, b, l)) ==> R(Max(a, b), l))
    && (forall a, b, l: Level {:trigger R(IMax(a, b), l)} :: !l.Max? && !l.IMax? && On(R, b, l) ==> R(IMax(a, b), l))
  }

  // More succs, succs against a numeral, and the same number of succs on both sides
  ghost predicate SuccRules(R: Relation) {
    && (forall l: Level, k: nat {:trigger R(AddSucc(l, k), l)} :: !l.Max? && !l.IMax? ==> R(AddSucc(l, k), l))
    && (forall l: Level, k: nat, n: nat {:trigger R(AddSucc(l, k), AddSucc(Zero, n))} ::
          k >= n ==> R(AddSucc(l, k), AddSucc(Zero, n)))
    && (forall a: Level, b: Level, k: nat {:trigger R(AddSucc(a, k), AddSucc(b, k))} ::
          k > 0 && !a.Succ? && !b.Succ? && On(R, a, b) ==> R(AddSucc(a, k), AddSucc(b, k)))
  }

  ghost predicate Closed(R: Relation) {
    RightRules(R) && LeftRules(R) && SuccRules(R)
  }

  // The least relation closed under the rules
  ghost predicate Derivable(l1: Level, l2: Level) {
    forall R: Relation :: Closed(R) ==> R(l1, l2)
  }

  // ----- is_geq_core is closed under the rules -----

  lemma RightCore(l: Level, a: Level, b: Level)
    ensures IsGeqCore(l, l) && IsGeqCore(l, Zero)
    ensures IsGeq(l, a) && IsGeq(l, b) ==> IsGeqCore(l, Max(a, b)) && IsGeqCore(l, IMax(a, b))
  {
    hide Norm;
  }

  lemma LeftCore(a: Level, b: Level, l: Level)
    ensures !l.Max? && (IsGeq(a, l) || IsGeq(b, l)) ==> IsGeqCore(Max(a, b), l)
    ensures !l.Max? && !l.IMax? && IsGeq(b, l) ==> IsGeqCore(IMax(a, b), l)
  {
    hide Norm;
  }

  lemma SuccCore(l: Level, k: nat)
    ensures !l.Max? && !l.IMax? ==> IsGeqCore(AddSucc(l, k), l)
  {
    hide Norm;
    AddSuccParts(l, k);
  }

  lemma NumeralCore(l: Level, k: nat, n: nat)
    requires k >= n
    ensures IsGeqCore(AddSucc(l, k), AddSucc(Zero, n))
  {
    hide Norm;
    AddSuccParts(l, k);
    AddSuccParts(Zero, n);
  }

  lemma {:induction false} SuccsCore(a: Level, b: Level, k: nat)
    requires k > 0 && !a.Succ? && !b.Succ? && IsGeq(a, b)
    ensures IsGeqCore(AddSucc(a, k), AddSucc(b, k))
  {
    hide Norm;
    AddSuccParts(a, k);
    AddSuccParts(b, k);
  }

  lemma {:induction false} CoreClosed(R: Relation)
    requires forall l1, l2 :: R(l1, l2) <==> IsGeqCore(l1, l2)
    ensures Closed(R)
  {
    hide Norm, IsGeqCore;
    assert RightRules(R) by {
      forall l: Level ensures R(l, l) && R(l, Zero) {
        RightCore(l, l, l);
      }
      forall l, a, b: Level | On(R, l, a) && On(R, l, b) ensures R(l, Max(a, b)) && R(l, IMax(a, b)) {
        RightCore(l, a, b);
      }
    }
    assert LeftRules(R) by {
      forall a, b, l: Level | !l.Max? && (On(R, a, l) || On(R, b, l)) ensures R(Max(a, b), l) {
        LeftCore(a, b, l);
      }
      forall a, b, l: Level | !l.Max? && !l.IMax? && On(R, b, l) ensures R(IMax(a, b), l) {
        LeftCore(a, b, l);
      }
    }
    assert SuccRules(R) by {
      forall l: Level, k: nat | !l.Max? && !l.IMax? ensures R(AddSucc(l, k), l) {
        SuccCore(l, k);
      }
      forall l: Level, k: nat, n: nat | k >= n ensures R(AddSucc(l, k), AddSucc(Zero, n)) {
        NumeralCore(l, k, n);
      }
      forall a: Level, b: Level, k: nat | k > 0 && !a.Succ? && !b.Succ? && On(R, a, b)
        ensures R(AddSucc(a, k), AddSucc(b, k))
      {
        SuccsCore(a, b, k);
      }
    }
  }

  // Whatever it answers true is derived by the rules
  lemma {:induction false} GeqDerived(l1: Level, l2: Level, R: Relation)
    requires Closed(R)
    ensures IsGeq(l1, l2) ==> On(R, l1, l2)
    decreases Leaves(l1) + Leaves(l2), Offset(l1) + Offset(l2), 1
  {
    NormPreserves(l1, ALL_ZERO);
    NormPreserves(l2, ALL_ZERO);
    CoreDerived(Norm(l1), Norm(l2), R);
  }

  lemma {:induction false} CoreDerived(l1: Level, l2: Level, R: Relation)
    requires Closed(R)
    ensures IsGeqCore(l1, l2) ==> R(l1, l2)
    decreases Leaves(l1) + Leaves(l2), Offset(l1) + Offset(l2), 0
  {
    hide Norm;
    OffsetParts(l1);
    OffsetParts(l2);
    if l1 == l2 || l2.Zero? {
    } else if l2.Max? {
      GeqDerived(l1, l2.lhs, R);
      GeqDerived(l1, l2.rhs, R);
    } else if l1.Max? && IsGeq(l1.lhs, l2) {
      GeqDerived(l1.lhs, l2, R);
    } else if l1.Max? && IsGeq(l1.rhs, l2) {
      GeqDerived(l1.rhs, l2, R);
    } else if l2.IMax? {
      GeqDerived(l1, l2.lhs, R);
      GeqDerived(l1, l2.rhs, R);
    } else if l1.IMax? {
      GeqDerived(l1.rhs, l2, R);
    } else {
      SuccDerived(l1, l2, R);
    }
  }

  // The comparison of succs
  lemma {:induction false} SuccDerived(l1: Level, l2: Level, R: Relation)
    requires Closed(R) && !l2.Max? && !l2.IMax? && !l1.IMax? && l1 != l2 && !l2.Zero?
    requires !(l1.Max? && (IsGeq(l1.lhs, l2) || IsGeq(l1.rhs, l2)))
    ensures IsGeqCore(l1, l2) ==> R(l1, l2)
    decreases Leaves(l1) + Leaves(l2), Offset(l1) + Offset(l2), 0, 0
  {
    hide Norm;
    OffsetParts(l1);
    OffsetParts(l2);
    var a, b, i, j := Base(l1), Base(l2), Offset(l1), Offset(l2);
    if a == b {
      if i >= j {
        SuccSplit(a, i, j);
        assert R(AddSucc(l2, i - j), l2);
      }
    } else if b.Zero? {
      if i >= j {
        assert R(AddSucc(a, i), AddSucc(Zero, j));
      }
    } else if i == j && i > 0 {
      GeqDerived(a, b, R);
      assert IsGeq(a, b) ==> R(AddSucc(a, i), AddSucc(b, i));
    }
  }

  lemma {:induction false} SuccSplit(l: Level, i: nat, j: nat)
    requires j <= i
    ensures AddSucc(AddSucc(l, j), i - j) == AddSucc(l, i)
  {
    if j < i {
      SuccSplit(l, i - 1, j);
    }
  }

  // The answer of is_geq is what the rules derive
  lemma GeqIsDerivable(l1: Level, l2: Level)
    ensures IsGeq(l1, l2) <==> Derivable(Norm(l1), Norm(l2))
  {
    hide Norm;
    if IsGeq(l1, l2) {
      forall R: Relation | Closed(R) ensures R(Norm(l1), Norm(l2)) {
        GeqDerived(l1, l2, R);
      }
    }
    if Derivable(Norm(l1), Norm(l2)) {
      var R: Relation := (a, b) => IsGeqCore(a, b);
      CoreClosed(R);
      assert R(Norm(l1), Norm(l2));
    }
  }
}

/** is_equivalent and is_geq: what their answers mean, and why is_geq terminates although
  * every call normalizes both levels again (src/kernel/level.cpp).
  */
module LevelCompare {
  import opened Levels
  import opened LevelNormalize

  predicate IsEquivalent(lhs: Level, rhs: Level) {
    lhs == rhs || Norm(lhs) == Norm(rhs)
  }

  lemma EquivalentSound(lhs: Level, rhs: Level)
    ensures IsEquivalent(lhs, rhs) ==> forall A: Assignment :: Value(lhs, A) == Value(rhs, A)
  {
    forall A: Assignment | IsEquivalent(lhs, rhs) ensures Value(lhs, A) == Value(rhs, A) {
      NormPreserves(lhs, A);
      NormPreserves(rhs, A);
    }
  }

  // The measure: normalizing does not make it larger, every call in IsGeqCore makes it smaller
  predicate IsGeq(l1: Level, l2: Level)
    decreases Leaves(l1) + Leaves(l2), Offset(l1) + Offset(l2), 1
  {
    NormPreserves(l1, ALL_ZERO);
    NormPreserves(l2, ALL_ZERO);
    IsGeqCore(Norm(l1), Norm(l2))
  }

  predicate IsGeqCore(l1: Level, l2: Level)
    decreases Leaves(l1) + Leaves(l2), Offset(l1) + Offset(l2), 0
  {
    OffsetParts(l1);
    OffsetParts(l2);
    if l1 == l2 || l2.Zero? then true
    else if l2.Max? then IsGeq(l1, l2.lhs) && IsGeq(l1, l2.rhs)
    else if l1.Max? && (IsGeq(l1.lhs, l2) || IsGeq(l1.rhs, l2)) then true
    else if l2.IMax? then IsGeq(l1, l2.lhs) && IsGeq(l1, l2.rhs)
    else if l1.IMax? then IsGeq(l1.rhs, l2)
    else if Base(l1) == Base(l2) || Base(l2).Zero? then Offset(l1) >= Offset(l2)
    else if Offset(l1) == Offset(l2) && Offset(l1) > 0 then IsGeq(Base(l1), Base(l2))
    else false
  }

  // The promise in level.h
  lemma GeqSound(l1: Level, l2: Level)
    ensures IsGeq(l1, l2) ==> forall A: Assignment :: Value(l1, A) >= Value(l2, A)
  {
    forall A: Assignment | IsGeq(l1, l2) ensures Value(l1, A) >= Value(l2, A) {
      GeqSoundAt(l1, l2, A);
    }
  }

  lemma {:induction false} GeqSoundAt(l1: Level, l2: Level, A: Assignment)
    ensures IsGeq(l1, l2) ==> Value(l1, A) >= Value(l2, A)
    decreases Leaves(l1) + Leaves(l2), Offset(l1) + Offset(l2), 1
  {
    NormPreserves(l1, A);
    NormPreserves(l2, A);
    GeqCoreSoundAt(Norm(l1), Norm(l2), A);
  }

  lemma {:induction false} GeqCoreSoundAt(l1: Level, l2: Level, A: Assignment)
    ensures IsGeqCore(l1, l2) ==> Value(l1, A) >= Value(l2, A)
    decreases Leaves(l1) + Leaves(l2), Offset(l1) + Offset(l2), 0
  {
    OffsetParts(l1);
    OffsetParts(l2);
    if l1 == l2 || l2.Zero? || !IsGeqCore(l1, l2) {
    } else if l2.Max? || (l2.IMax? && !(l1.Max? && (IsGeq(l1.lhs, l2) || IsGeq(l1.rhs, l2)))) {
      GeqSoundAt(l1, l2.lhs, A);
      GeqSoundAt(l1, l2.rhs, A);
    } else if l1.Max? && IsGeq(l1.lhs, l2) {
      GeqSoundAt(l1.lhs, l2, A);
    } else if l1.Max? && IsGeq(l1.rhs, l2) {
      GeqSoundAt(l1.rhs, l2, A);
    } else if l1.IMax? {
      GeqSoundAt(l1.rhs, l2, A);
    } else if Base(l1) != Base(l2) && !Base(l2).Zero? {
      GeqSoundAt(Base(l1), Base(l2), A);
    }
  }
}

/** Without imax, normalize gives one form for every value: is_equivalent is exact
  * (src/kernel/level.cpp).
  */
module LevelCanonical {
  import opened Levels
  import opened LevelNormalize
  import opened LevelCompare
  import opened LevelComplete

  // ----- canonical buffers -----

  predicate Lone(s: Buffer) {
    forall i, j :: 0 <= i < j < |s| ==> Base(s[i]) != Base(s[j])
  }

  // A numeral exceeds what all others are at least
  predicate Topped(s: Buffer) {
    forall i, j :: 0 <= i < |s| && 0 <= j < |s| && i != j && Base(s[i]).Zero? ==> Offset(s[j]) < Offset(s[i])
  }

  // In order, no two entries with one base, no numeral that another entry covers
  predicate Canonical(s: Buffer) {
    s != [] && AllAtomic(s) && InOrder(s) && Lone(s) && Topped(s)
  }

  // Of entries with one base the last is kept
  lemma KeptLater(s: Buffer, i: nat, j: nat)
    requires InOrder(s) && i < j < |s| && Base(s[i]) == Base(s[j])
    ensures !Emits(s, i)
  {
    hide InOrder, Emits;
    OrderedBases(s, i, i + 1, j);
    EmitsLast(s, i);
  }

  lemma {:induction false} KeptCanonical(s: Buffer, n: nat)
    requires InOrder(s) && n <= |s| && AllAtomic(s)
    ensures AllAtomic(Kept(s, n)) && InOrder(Kept(s, n)) && Lone(Kept(s, n)) && Topped(Kept(s, n))
  {
    hide Emits, Atomic, NormLess;
    if n > 0 {
      KeptCanonical(s, n - 1);
      if Emits(s, n - 1) {
        KeptSnoc(s, n - 1);
      }
    }
  }

  lemma {:induction false} KeptSnoc(s: Buffer, n: nat)
    requires InOrder(s) && n < |s| && AllAtomic(s) && Emits(s, n)
    requires AllAtomic(Kept(s, n)) && InOrder(Kept(s, n)) && Lone(Kept(s, n)) && Topped(Kept(s, n))
    ensures var t := Kept(s, n) + [s[n]]; AllAtomic(t) && InOrder(t) && Lone(t) && Topped(t)
  {
    hide Kept, Emits, Atomic, NormLess;
    var t := Kept(s, n) + [s[n]];
    KeptMembers(s, n);
    forall j | 0 <= j < |t| - 1
      ensures !NormLess(s[n], t[j]) && Base(t[j]) != Base(s[n])
      ensures Base(t[j]).Zero? ==> Offset(s[n]) < Offset(t[j])
      ensures Base(s[n]).Zero? ==> Offset(t[j]) < Offset(s[n])
    {
      assert t[j] in Kept(s, n);
      var i :| 0 <= i < n && Emits(s, i) && s[i] == t[j];
      KeptPair(s, i, n);
    }
  }

  lemma KeptPair(s: Buffer, i: nat, n: nat)
    requires InOrder(s) && i < n < |s| && Emits(s, i) && Emits(s, n)
    ensures Base(s[i]) != Base(s[n])
    ensures Base(s[i]).Zero? ==> Offset(s[n]) < Offset(s[i])
    ensures Base(s[n]).Zero? ==> Offset(s[i]) < Offset(s[n])
  {
    assert s[i] in s && s[n] in s;
    if Base(s[i]) == Base(s[n]) {
      KeptLater(s, i, n);
    }
  }

  lemma {:induction false} RaiseCanonical(s: Buffer, k: nat)
    requires Canonical(s)
    ensures Canonical(Raise(s, k))
  {
    hide Raise, Atomic, BaseLess;
    RaiseParts(s, k, ALL_ZERO);
    RaiseAtomic(s, k);
    var t := Raise(s, k);
    forall i | 0 <= i < |s| ensures Base(t[i]) == Base(s[i]) && Offset(t[i]) == Offset(s[i]) + k {
      AddSuccParts(s[i], k);
    }
  }

  // Without imax, the normal form is the max of a canonical buffer
  lemma NormCanonical(l: Level) returns (s: Buffer)
    requires NoIMax(l)
    ensures Canonical(s) && Norm(l) == MaxOf(s)
  {
    NoIMaxBase(l);
    if Base(l).Max? {
      var r := Base(l);
      ArgsSize(r);
      PushNoIMax(r);
      PushNoIMaxBare(PushMaxArgs(r));
      NormArgsPieces(PushMaxArgs(r));
      var args := Sorted(NormArgs(PushMaxArgs(r)));
      SortedPieces(NormArgs(PushMaxArgs(r)));
      SortedOrder(NormArgs(PushMaxArgs(r)));
      KeptValue(args, ALL_ZERO);
      KeptCanonical(args, |args|);
      RaiseCanonical(Kept(args, |args|), Offset(l));
      s := Raise(Kept(args, |args|), Offset(l));
    } else {
      s := [l];
    }
  }

  lemma PushNoIMaxBare(s: Buffer)
    requires forall x :: x in s ==> NoIMax(x)
    ensures forall x :: x in s ==> Bare(x)
  {
    forall x | x in s ensures Bare(x) {
      NoIMaxBare(x);
    }
  }

  // ----- the value determines the buffer -----

  // An upper bound of the offsets
  function AllOffsets(s: Buffer): nat {
    if s == [] then 0 else Offset(s[0]) + AllOffsets(s[1..])
  }

  lemma {:induction false} OffsetBound(s: Buffer, x: Level)
    requires x in s
    ensures Offset(x) <= AllOffsets(s)
  {
    if x != s[0] {
      OffsetBound(s[1..], x);
    }
  }

  ghost predicate SameValue(s: Buffer, t: Buffer) {
    forall A: Assignment :: MaxValue(s, A) == MaxValue(t, A)
  }

  // The value of an atom when the variable of x has the value w
  lemma AtomValue(y: Level, x: Level, w: nat)
    requires Atomic(x) && Atomic(y)
    ensures Value(y, Separating(x, w)) == Offset(y) + if Base(x) == Base(y) && !Base(y).Zero? then w else 0
  {
    OffsetParts(y);
  }

  // For a large value of its variable, x is what counts
  lemma VariableCounts(s: Buffer, x: Level, w: nat)
    requires Canonical(s) && x in s && !Base(x).Zero? && w > AllOffsets(s)
    ensures MaxValue(s, Separating(x, w)) == w + Offset(x)
  {
    hide Separating, Atomic, Canonical;
    CanonicalParts(s);
    var A := Separating(x, w);
    AtomValue(x, x, w);
    MaxValueBound(s, x, A);
    var y := MaxValueReached(s, A);
    AtomValue(y, x, w);
    OffsetBound(s, y);
    LoneBase(s, x, y);
  }

  lemma CanonicalParts(s: Buffer)
    requires Canonical(s)
    ensures s != [] && AllAtomic(s) && InOrder(s) && Lone(s) && Topped(s)
  {
  }

  lemma LoneBase(s: Buffer, x: Level, y: Level)
    requires Lone(s) && x in s && y in s && Base(x) == Base(y)
    ensures x == y
  {
    var i :| 0 <= i < |s| && s[i] == x;
    var j :| 0 <= j < |s| && s[j] == y;
  }

  lemma VariableShared(s: Buffer, t: Buffer, x: Level)
    requires Canonical(s) && Canonical(t) && SameValue(s, t) && x in s && !Base(x).Zero?
    ensures x in t
  {
    hide Separating, Atomic, Canonical;
    CanonicalParts(s);
    CanonicalParts(t);
    var w := AllOffsets(s) + AllOffsets(t) + 1;
    var A := Separating(x, w);
    VariableCounts(s, x, w);
    var y := MaxValueReached(t, A);
    AtomValue(y, x, w);
    OffsetBound(t, y);
    OffsetParts(x);
    OffsetParts(y);
  }

  lemma NumeralShared(s: Buffer, t: Buffer, x: Level)
    requires Canonical(s) && Canonical(t) && SameValue(s, t) && x in s && Base(x).Zero?
    ensures x in t
  {
    hide Separating, Atomic, Canonical;
    CanonicalParts(s);
    CanonicalParts(t);
    var A := Separating(x, 0);
    var z := MaxValueReached(s, A);
    var y := MaxValueReached(t, A);
    AtomValue(x, x, 0);
    AtomValue(y, x, 0);
    AtomValue(z, x, 0);
    MaxValueBound(s, x, A);
    ToppedBy(s, x, z);
    OffsetParts(x);
    OffsetParts(y);
    if !Base(y).Zero? {
      VariableShared(t, s, y);
      ToppedBy(s, x, y);
    }
  }

  lemma ToppedBy(s: Buffer, x: Level, y: Level)
    requires Topped(s) && x in s && y in s && Base(x).Zero?
    ensures x != y ==> Offset(y) < Offset(x)
  {
    var i :| 0 <= i < |s| && s[i] == x;
    var j :| 0 <= j < |s| && s[j] == y;
  }

  lemma {:induction false} LoneOnce(s: Buffer)
    requires Lone(s)
    ensures forall x :: multiset(s)[x] == if x in s then 1 else 0
  {
    if s != [] {
      var n := |s| - 1;
      LoneOnce(s[..n]);
      assert s == s[..n] + [s[n]];
      assert s[n] !in s[..n];
    }
  }

  lemma CanonicalUnique(s: Buffer, t: Buffer)
    requires Canonical(s) && Canonical(t) && SameValue(s, t)
    ensures s == t
  {
    hide SameValue, Topped, AllAtomic;
    forall x ensures x in s <==> x in t {
      Shared(s, t, x);
      Shared(t, s, x);
    }
    LoneOnce(s);
    LoneOnce(t);
    assert multiset(s) == multiset(t);
    SortUnique(s, t);
  }

  lemma Shared(s: Buffer, t: Buffer, x: Level)
    requires Canonical(s) && Canonical(t) && SameValue(s, t)
    ensures SameValue(t, s) && (x in s ==> x in t)
  {
    if x in s {
      if Base(x).Zero? {
        NumeralShared(s, t, x);
      } else {
        VariableShared(s, t, x);
      }
    }
  }

  // Without imax, levels are reported equivalent if and only if they always have the same value
  lemma EquivalentExact(lhs: Level, rhs: Level)
    requires NoIMax(lhs) && NoIMax(rhs)
    ensures IsEquivalent(lhs, rhs) <==> forall A: Assignment :: Value(lhs, A) == Value(rhs, A)
  {
    if IsEquivalent(lhs, rhs) {
      EquivalentSound(lhs, rhs);
    } else {
      var A := Differing(lhs, rhs);
    }
  }

  lemma Differing(lhs: Level, rhs: Level) returns (A: Assignment)
    requires NoIMax(lhs) && NoIMax(rhs) && !IsEquivalent(lhs, rhs)
    ensures Value(lhs, A) != Value(rhs, A)
  {
    var s := NormCanonical(lhs);
    var t := NormCanonical(rhs);
    if SameValue(s, t) {
      CanonicalUnique(s, t);
    }
    A :| MaxValue(s, A) != MaxValue(t, A);
    NormPreserves(lhs, A);
    NormPreserves(rhs, A);
    MaxOfParts(s, A);
    MaxOfParts(t, A);
  }
}

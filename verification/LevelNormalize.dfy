/** normalize: flatten the max, sort, drop the subsumed entries, rebuild
  * (src/kernel/level.cpp). It keeps the value of a level and never makes it larger.
  */
module LevelNormalize {
  import opened Wrappers
  import opened Levels

  type Buffer = seq<Level>

  // ----- buffers of levels, read as their maximum -----

  function MaxValue(s: Buffer, A: Valuation): nat {
    if s == [] then 0 else Larger(Value(s[0], A), MaxValue(s[1..], A))
  }

  function AllLeaves(s: Buffer): (n: nat)
    ensures n >= |s|
  {
    if s == [] then 0 else Leaves(s[0]) + AllLeaves(s[1..])
  }

  lemma {:induction false} ConcatParts(s: Buffer, t: Buffer, A: Valuation)
    ensures MaxValue(s + t, A) == Larger(MaxValue(s, A), MaxValue(t, A))
    ensures AllLeaves(s + t) == AllLeaves(s) + AllLeaves(t)
  {
    if s == [] {
      assert s + t == t;
    } else {
      assert (s + t)[0] == s[0] && (s + t)[1..] == s[1..] + t;
      ConcatParts(s[1..], t, A);
    }
  }

  lemma {:induction false} MaxValueBound(s: Buffer, x: Level, A: Valuation)
    requires x in s
    ensures Value(x, A) <= MaxValue(s, A)
  {
    if x != s[0] {
      MaxValueBound(s[1..], x, A);
    }
  }

  lemma {:induction false} MaxValueReached(s: Buffer, A: Valuation) returns (x: Level)
    requires s != []
    ensures x in s && Value(x, A) == MaxValue(s, A)
  {
    x := s[0];
    if |s| > 1 {
      var y := MaxValueReached(s[1..], A);
      if Value(y, A) > Value(x, A) {
        x := y;
      }
    }
  }

  // ----- push_max_args -----

  function PushMaxArgs(l: Level): (s: Buffer)
    ensures |s| >= 1 && (l.Max? ==> |s| >= 2)
  {
    if l.Max? then PushMaxArgs(l.lhs) + PushMaxArgs(l.rhs) else [l]
  }

  lemma {:induction false} PushMaxArgsParts(l: Level, A: Valuation)
    ensures MaxValue(PushMaxArgs(l), A) == Value(l, A)
    ensures AllLeaves(PushMaxArgs(l)) == Leaves(l)
  {
    if l.Max? {
      PushMaxArgsParts(l.lhs, A);
      PushMaxArgsParts(l.rhs, A);
      ConcatParts(PushMaxArgs(l.lhs), PushMaxArgs(l.rhs), A);
    }
  }

  // ----- sorting -----

  predicate InOrder(s: Buffer) {
    forall i, j :: 0 <= i < j < |s| ==> !NormLess(s[j], s[i])
  }

  function Insert(x: Level, s: Buffer): (t: Buffer)
    ensures |t| == |s| + 1
  {
    if s == [] || NormLess(x, s[0]) then [x] + s else [s[0]] + Insert(x, s[1..])
  }

  // std::sort with is_norm_lt; how it sorts does not matter
  function Sorted(s: Buffer): (t: Buffer)
    ensures |t| == |s|
  {
    if s == [] then [] else Insert(s[0], Sorted(s[1..]))
  }

  lemma {:induction false} InsertMembers(x: Level, s: Buffer)
    ensures multiset(Insert(x, s)) == multiset(s) + multiset{x}
  {
    hide NormLess;
    if s != [] && !NormLess(x, s[0]) {
      InsertMembers(x, s[1..]);
      assert s == [s[0]] + s[1..];
    }
  }

  lemma {:induction false} InsertOrder(x: Level, s: Buffer)
    requires InOrder(s)
    ensures InOrder(Insert(x, s)) && multiset(Insert(x, s)) == multiset(s) + multiset{x}
  {
    hide NormLess;
    InsertMembers(x, s);
    if s == [] || NormLess(x, s[0]) {
      forall j | 0 <= j < |s| ensures !NormLess(s[j], x) {
        NotBefore(x, s, j);
      }
    } else {
      InsertOrder(x, s[1..]);
      AfterFirst(x, s);
    }
  }

  lemma AfterFirst(x: Level, s: Buffer)
    requires InOrder(s) && s != [] && !NormLess(x, s[0])
    ensures forall y :: y in Insert(x, s[1..]) ==> !NormLess(y, s[0])
  {
    hide NormLess, Insert;
    InsertMembers(x, s[1..]);
    forall y | y in Insert(x, s[1..]) ensures !NormLess(y, s[0]) {
      assert y in multiset(Insert(x, s[1..]));
      assert y == x || y in s[1..];
    }
  }

  lemma NotBefore(x: Level, s: Buffer, j: nat)
    requires InOrder(s) && j < |s| && NormLess(x, s[0])
    ensures !NormLess(s[j], x)
  {
    hide NormLess;
    NormLessTotal(x, s[j]);
    NormLessTotal(s[0], s[j]);
    if NormLess(s[0], s[j]) {
      NormLessTransitive(x, s[0], s[j]);
    }
  }

  lemma {:induction false} SortedOrder(s: Buffer)
    ensures InOrder(Sorted(s)) && multiset(Sorted(s)) == multiset(s)
  {
    if s != [] {
      SortedOrder(s[1..]);
      InsertOrder(s[0], Sorted(s[1..]));
      assert s == [s[0]] + s[1..];
    }
  }

  // Any algorithm that sorts gives the same buffer, for the order is strict and total
  lemma {:induction false} SortUnique(s: Buffer, t: Buffer)
    requires InOrder(s) && InOrder(t) && multiset(s) == multiset(t)
    ensures s == t
    decreases |s|
  {
    assert |multiset(s)| == |s| && |multiset(t)| == |t|;
    if s != [] {
      SameFirst(s, t);
      assert s == [s[0]] + s[1..] && t == [t[0]] + t[1..];
      RestSame(s[0], s[1..], t[1..]);
      SortUnique(s[1..], t[1..]);
    }
  }

  lemma SameFirst(s: Buffer, t: Buffer)
    requires s != [] && t != [] && InOrder(s) && InOrder(t) && multiset(s) == multiset(t)
    ensures s[0] == t[0]
  {
    assert s[0] in multiset(t) && t[0] in multiset(s);
    var i :| 0 <= i < |t| && t[i] == s[0];
    var j :| 0 <= j < |s| && s[j] == t[0];
    NormLessTotal(s[0], t[0]);
  }

  lemma RestSame(x: Level, s: Buffer, t: Buffer)
    requires multiset([x] + s) == multiset([x] + t)
    ensures multiset(s) == multiset(t)
  {
    assert multiset(s) == multiset([x] + s) - multiset{x};
    assert multiset(t) == multiset([x] + t) - multiset{x};
  }

  lemma {:induction false} SortedParts(s: Buffer, A: Valuation)
    ensures MaxValue(Sorted(s), A) == MaxValue(s, A) && AllLeaves(Sorted(s)) == AllLeaves(s)
  {
    if s != [] {
      SortedParts(s[1..], A);
      InsertParts(s[0], Sorted(s[1..]), A);
    }
  }

  lemma {:induction false} InsertParts(x: Level, s: Buffer, A: Valuation)
    ensures MaxValue(Insert(x, s), A) == Larger(Value(x, A), MaxValue(s, A))
    ensures AllLeaves(Insert(x, s)) == Leaves(x) + AllLeaves(s)
  {
    if s == [] || NormLess(x, s[0]) {
      assert ([x] + s)[1..] == s;
    } else {
      InsertParts(x, s[1..], A);
      assert Insert(x, s)[1..] == Insert(x, s[1..]);
    }
  }

  // ----- dropping subsumed entries -----

  // succ^k(l) is subsumed by a higher succ^k'(l), and a numeral by a level that is not
  // smaller whatever the assignment
  predicate Survives(s: Buffer, x: Level) {
    && (forall y :: y in s && Base(y) == Base(x) ==> Offset(y) <= Offset(x))
    && (Base(x).Zero? ==> forall y :: y in s && !Base(y).Zero? ==> Offset(y) < Offset(x))
  }

  // s[i] is kept: it survives, and the next entry is not the same
  predicate Emits(s: Buffer, i: nat)
    requires i < |s|
  {
    Survives(s, s[i]) && (i + 1 == |s| || s[i + 1] != s[i])
  }

  function Kept(s: Buffer, n: nat): (t: Buffer)
    requires n <= |s|
    ensures |t| <= n
  {
    if n == 0 then [] else Kept(s, n - 1) + if Emits(s, n - 1) then [s[n - 1]] else []
  }

  lemma {:induction false} KeptMembers(s: Buffer, n: nat)
    requires n <= |s|
    ensures forall x :: x in Kept(s, n) <==> exists i :: 0 <= i < n && Emits(s, i) && s[i] == x
  {
    hide Emits;
    if n > 0 {
      KeptMembers(s, n - 1);
    }
  }

  // Entries with the same base are adjacent, with growing offsets; numerals come first
  lemma OrderedBases(s: Buffer, i: nat, j: nat, k: nat)
    requires InOrder(s) && i <= j <= k < |s|
    ensures Base(s[i]) == Base(s[k]) ==> Base(s[i]) == Base(s[j]) && Offset(s[i]) <= Offset(s[j])
    ensures Base(s[j]).Zero? ==> Base(s[i]).Zero?
  {
    OrderedPair(s, i, j);
    OrderedPair(s, j, k);
    if Base(s[i]) != Base(s[j]) && Base(s[j]) != Base(s[k]) {
      BaseLessTotal(Base(s[i]), Base(s[j]));
      BaseLessTotal(Base(s[j]), Base(s[k]));
    }
  }

  lemma {:induction false} OrderedPair(s: Buffer, i: nat, j: nat)
    requires InOrder(s) && i <= j < |s|
    ensures Base(s[i]) == Base(s[j]) ==> Offset(s[i]) <= Offset(s[j])
    ensures Base(s[i]) != Base(s[j]) ==> BaseLess(Base(s[i]), Base(s[j]))
  {
    if i < j {
      NormLessTotal(s[i], s[j]);
      if s[i] != s[j] {
        assert NormLess(s[i], s[j]);
      }
    }
  }

  // In a sorted buffer an entry is kept when the next one has another base, numerals aside
  lemma EmitsLast(s: Buffer, i: nat)
    requires InOrder(s) && i < |s|
    ensures i + 1 < |s| && Base(s[i + 1]) == Base(s[i]) ==> !Emits(s, i)
    ensures (i + 1 == |s| || Base(s[i + 1]) != Base(s[i])) ==>
      (Emits(s, i) <==> (Base(s[i]).Zero? ==> forall j :: i < j < |s| ==> Offset(s[j]) < Offset(s[i])))
  {
    hide InOrder;
    if i + 1 < |s| && Base(s[i + 1]) == Base(s[i]) {
      OrderedPair(s, i, i + 1);
      OffsetParts(s[i]);
      OffsetParts(s[i + 1]);
      assert s[i + 1] in s;
    } else {
      HighestOfBase(s, i);
      if Base(s[i]).Zero? {
        NumeralsUpTo(s, i);
        assert forall j :: i < j < |s| ==> s[j] in s;
      }
    }
  }

  lemma HighestOfBase(s: Buffer, i: nat)
    requires InOrder(s) && i < |s| && (i + 1 == |s| || Base(s[i + 1]) != Base(s[i]))
    ensures forall y :: y in s && Base(y) == Base(s[i]) ==> Offset(y) <= Offset(s[i])
  {
    hide InOrder;
    forall y | y in s && Base(y) == Base(s[i]) ensures Offset(y) <= Offset(s[i]) {
      var j :| 0 <= j < |s| && s[j] == y;
      if j <= i {
        OrderedPair(s, j, i);
      } else {
        OrderedBases(s, i, i + 1, j);
      }
    }
  }

  lemma NumeralsUpTo(s: Buffer, i: nat)
    requires InOrder(s) && i < |s| && Base(s[i]).Zero? && (i + 1 == |s| || Base(s[i + 1]) != Base(s[i]))
    ensures forall j :: 0 <= j < |s| ==> (Base(s[j]).Zero? <==> j <= i)
  {
    hide InOrder;
    forall j | 0 <= j < |s| ensures Base(s[j]).Zero? <==> j <= i {
      if j <= i {
        OrderedBases(s, j, i, i);
      } else {
        OrderedBases(s, i + 1, j, j);
      }
    }
  }

  // Some entry with the base of x has the highest offset
  lemma {:induction false} Highest(s: Buffer, x: Level) returns (i: nat)
    requires x in s
    ensures i < |s| && Base(s[i]) == Base(x)
    ensures forall y :: y in s && Base(y) == Base(x) ==> Offset(y) <= Offset(s[i])
  {
    assert s == [s[0]] + s[1..];
    if z :| z in s[1..] && Base(z) == Base(x) {
      i := Highest(s[1..], z);
      i := if Base(s[0]) == Base(x) && Offset(s[0]) > Offset(s[i + 1]) then 0 else i + 1;
    } else {
      i := 0;
    }
  }

  // The last of several equal entries is kept
  lemma KeptSurvivors(s: Buffer, x: Level)
    requires x in s && Survives(s, x)
    ensures x in Kept(s, |s|)
  {
    var i :| 0 <= i < |s| && s[i] == x;
    while i + 1 < |s| && s[i + 1] == x
      invariant 0 <= i < |s| && s[i] == x
      decreases |s| - i
    {
      i := i + 1;
    }
    assert Emits(s, i);
    KeptMembers(s, |s|);
  }

  // Every entry is below one that is kept
  lemma Dominated(s: Buffer, x: Level, A: Valuation) returns (y: Level)
    requires x in s
    ensures y in Kept(s, |s|) && Value(x, A) <= Value(y, A)
  {
    var i := Highest(s, x);
    OffsetParts(x);
    OffsetParts(s[i]);
    y := s[i];
    if !Survives(s, y) {
      var z :| z in s && !Base(z).Zero? && Offset(z) >= Offset(y);
      var j := Highest(s, z);
      OffsetParts(s[j]);
      y := s[j];
    }
    KeptSurvivors(s, y);
  }

  lemma {:induction false} KeptValue(s: Buffer, A: Valuation)
    requires s != []
    ensures Kept(s, |s|) != [] && MaxValue(Kept(s, |s|), A) == MaxValue(s, A)
  {
    var x := MaxValueReached(s, A);
    var y := Dominated(s, x, A);
    MaxValueBound(Kept(s, |s|), y, A);
    var z := MaxValueReached(Kept(s, |s|), A);
    KeptMembers(s, |s|);
    MaxValueBound(s, z, A);
  }

  lemma {:induction false} KeptLeaves(s: Buffer, n: nat)
    requires n <= |s|
    ensures AllLeaves(Kept(s, n)) <= AllLeaves(s[..n])
    ensures AllLeaves(Kept(s, n)) == AllLeaves(s[..n]) ==> |Kept(s, n)| == n
  {
    hide Emits, Leaves;
    if n > 0 {
      KeptLeaves(s, n - 1);
      assert s[..n] == s[..n - 1] + [s[n - 1]];
      ConcatParts(s[..n - 1], [s[n - 1]], ALL_ZERO);
      ConcatParts(Kept(s, n - 1), [s[n - 1]], ALL_ZERO);
      assert Kept(s, n - 1) + [] == Kept(s, n - 1);
    }
  }

  // From entry i on no numeral is subsumed
  predicate Unsubsumed(s: Buffer, i: nat) {
    forall j, m :: i <= j < m < |s| && Base(s[j]).Zero? ==> Offset(s[m]) < Offset(s[j])
  }

  lemma {:induction false} KeptNext(s: Buffer, i: nat)
    requires InOrder(s) && 0 < i <= |s| && Unsubsumed(s, i - 1)
    ensures i < |s| && Base(s[i]) == Base(s[i - 1]) ==> Kept(s, i) == Kept(s, i - 1) && Offset(s[i - 1]) <= Offset(s[i])
    ensures i < |s| && Base(s[i]) == Base(s[i - 1]) && Offset(s[i - 1]) == Offset(s[i]) ==> s[i] == s[i - 1]
    ensures i == |s| || Base(s[i]) != Base(s[i - 1]) ==> Kept(s, i) == Kept(s, i - 1) + [s[i - 1]]
  {
    EmitsLast(s, i - 1);
    if i < |s| {
      OrderedPair(s, i - 1, i);
      OffsetParts(s[i]);
      OffsetParts(s[i - 1]);
    }
  }

  // The two loops of normalize over the sorted entries
  method DropSubsumed(args: Buffer) returns (rargs: Buffer)
    requires args != [] && InOrder(args)
    ensures rargs == Kept(args, |args|)
  {
    hide Kept, InOrder;
    var i := FirstKept(args);
    rargs := [args[i]];
    var prev, prevOffset := ToOffset(args[i]);
    i := i + 1;
    while i < |args|
      invariant 0 < i <= |args| && Unsubsumed(args, i - 1)
      invariant rargs == Kept(args, i - 1) + [args[i - 1]]
      invariant prev == Base(args[i - 1]) && prevOffset == Offset(args[i - 1])
    {
      KeptNext(args, i);
      var curr, currOffset := ToOffset(args[i]);
      if prev == curr {
        if prevOffset < currOffset {
          prevOffset := currOffset;
          rargs := rargs[..|rargs| - 1];
          rargs := rargs + [args[i]];
        }
      } else {
        prev, prevOffset := curr, currOffset;
        rargs := rargs + [args[i]];
      }
      i := i + 1;
    }
    KeptNext(args, i);
  }

  // Where the entries that are kept begin: after all numerals but the last, and after that
  // one too when some other entry has at least its offset
  method FirstKept(args: Buffer) returns (i: nat)
    requires args != [] && InOrder(args)
    ensures i < |args| && Kept(args, i) == [] && Unsubsumed(args, i)
  {
    hide Kept, InOrder;
    i := 0;
    OffsetParts(args[0]);
    if IsExplicit(args[i]) {
      i := LastNumeral(args);
      var _, k := ToOffset(args[i]);
      var j := Reaching(args, i + 1, k);
      NumeralKept(args, i, k, j);
      if j < |args| {
        i := i + 1;
      }
    } else {
      NumeralsNone(args);
    }
  }

  // The largest numeral is subsumed, or nothing from it on is
  lemma NumeralKept(s: Buffer, i: nat, k: nat, j: nat)
    requires i < j <= |s| && Base(s[i]).Zero? && Offset(s[i]) == k
    requires forall m :: i < m < |s| ==> !Base(s[m]).Zero?
    requires forall m :: i < m < j ==> Offset(s[m]) < k
    requires j < |s| ==> Offset(s[j]) >= k
    ensures j < |s| ==> Kept(s, i + 1) == Kept(s, i) && Unsubsumed(s, i + 1)
    ensures j == |s| ==> Unsubsumed(s, i)
  {
    if j < |s| {
      NumeralSubsumed(s, i, j);
    }
  }

  // The loop that finds an entry, from i on, with at least k succs
  method Reaching(args: Buffer, i: nat, k: nat) returns (j: nat)
    requires i <= |args|
    ensures i <= j <= |args| && forall m :: i <= m < j ==> Offset(args[m]) < k
    ensures j < |args| ==> Offset(args[j]) >= k
  {
    j := i;
    while j < |args|
      invariant i <= j <= |args|
      invariant forall m :: i <= m < j ==> Offset(args[m]) < k
    {
      var _, n := ToOffset(args[j]);
      if n >= k {
        break;
      }
      j := j + 1;
    }
  }

  // The loop that finds the largest numeral
  method LastNumeral(args: Buffer) returns (i: nat)
    requires args != [] && InOrder(args) && Base(args[0]).Zero?
    ensures i < |args| && Base(args[i]).Zero? && Kept(args, i) == []
    ensures forall j :: i < j < |args| ==> !Base(args[j]).Zero?
  {
    i := 0;
    while i + 1 < |args| && IsExplicit(args[i + 1])
      invariant i < |args| && Base(args[i]).Zero? && Kept(args, i) == []
    {
      EmitsLast(args, i);
      OffsetParts(args[i + 1]);
      i := i + 1;
    }
    if i + 1 < |args| {
      OffsetParts(args[i + 1]);
    }
    NumeralsEnd(args, i);
  }

  lemma NumeralSubsumed(s: Buffer, i: nat, j: nat)
    requires i < j < |s| && Base(s[i]).Zero? && !Base(s[j]).Zero? && Offset(s[j]) >= Offset(s[i])
    ensures Kept(s, i + 1) == Kept(s, i)
  {
    assert s[j] in s;
  }

  lemma NumeralsEnd(s: Buffer, i: nat)
    requires InOrder(s) && i < |s| && (i + 1 == |s| || !Base(s[i + 1]).Zero?)
    ensures forall j :: i < j < |s| ==> !Base(s[j]).Zero?
  {
    forall j | i < j < |s| ensures !Base(s[j]).Zero? {
      OrderedBases(s, i + 1, j, j);
    }
  }

  lemma NumeralsNone(s: Buffer)
    requires InOrder(s) && s != [] && !Base(s[0]).Zero?
    ensures forall j :: 0 <= j < |s| ==> !Base(s[j]).Zero?
  {
    forall j | 0 <= j < |s| ensures !Base(s[j]).Zero? {
      OrderedBases(s, 0, j, j);
    }
  }

  // ----- rebuilding -----

  function Raise(s: Buffer, k: nat): (t: Buffer)
    ensures |t| == |s|
  {
    if s == [] then [] else [AddSucc(s[0], k)] + Raise(s[1..], k)
  }

  lemma {:induction false} RaiseParts(s: Buffer, k: nat, A: Valuation)
    ensures AllLeaves(Raise(s, k)) == AllLeaves(s)
    ensures s != [] ==> MaxValue(Raise(s, k), A) == MaxValue(s, A) + k
    ensures forall i :: 0 <= i < |s| ==> Raise(s, k)[i] == AddSucc(s[i], k)
  {
    if s != [] {
      AddSuccParts(s[0], k);
      RaiseParts(s[1..], k, A);
      assert Raise(s, k)[1..] == Raise(s[1..], k);
    }
  }

  // mk_max(buffer)
  function MaxOf(s: Buffer): Level
    requires s != []
  {
    if |s| == 1 then s[0] else MkMax(s[0], MaxOf(s[1..]))
  }

  lemma {:induction false} MaxOfParts(s: Buffer, A: Valuation)
    requires s != []
    ensures Value(MaxOf(s), A) == MaxValue(s, A)
    ensures Leaves(MaxOf(s)) <= AllLeaves(s)
    ensures |s| > 1 && Leaves(MaxOf(s)) == AllLeaves(s) ==> Offset(MaxOf(s)) == 0
  {
    if |s| > 1 {
      MaxOfParts(s[1..], A);
      MkMaxLeaves(s[0], MaxOf(s[1..]));
    }
  }

  method MkMaxAll(args: Buffer) returns (r: Level)
    requires args != []
    ensures r == MaxOf(args)
  {
    var nargs := |args|;
    if nargs == 1 {
      r := args[0];
    } else {
      r := MkMax(args[nargs - 2], args[nargs - 1]);
      var i := nargs - 2;
      while i > 0
        invariant 0 <= i <= nargs - 2
        invariant r == MaxOf(args[i..])
      {
        i := i - 1;
        r := MkMax(args[i], r);
      }
    }
  }

  function Rebuild(args: Buffer, k: nat): Level
    requires args != []
  {
    KeptValue(args, ALL_ZERO);
    MaxOf(Raise(Kept(args, |args|), k))
  }

  // ----- normalize -----

  function Size(l: Level): (n: nat)
    ensures n > 0
  {
    match l
    case Succ(a) => Size(a) + 1
    case Max(a, b) => Size(a) + Size(b) + 1
    case IMax(a, b) => Size(a) + Size(b) + 1
    case _ => 1
  }

  function AllSize(s: Buffer): nat {
    if s == [] then 0 else Size(s[0]) + AllSize(s[1..])
  }

  lemma {:induction false} ConcatSize(s: Buffer, t: Buffer)
    ensures AllSize(s + t) == AllSize(s) + AllSize(t)
  {
    if s == [] {
      assert s + t == t;
    } else {
      assert (s + t)[0] == s[0] && (s + t)[1..] == s[1..] + t;
      ConcatSize(s[1..], t);
    }
  }

  lemma {:induction false} ArgsSize(l: Level)
    ensures AllSize(PushMaxArgs(l)) <= Size(l) && (l.Max? ==> AllSize(PushMaxArgs(l)) < Size(l))
  {
    if l.Max? {
      ArgsSize(l.lhs);
      ArgsSize(l.rhs);
      ConcatSize(PushMaxArgs(l.lhs), PushMaxArgs(l.rhs));
    }
  }

  lemma {:induction false} BaseSize(l: Level)
    ensures Size(Base(l)) <= Size(l)
  {
    if l.Succ? {
      BaseSize(l.arg);
    }
  }

  // normalize returns the very object it was given: is_eqp holds of the result and l
  predicate Untouched(l: Level)
    decreases Size(l)
  {
    BaseSize(l);
    match Base(l)
    case IMax(a, b) => Untouched(a) && Untouched(b)
    case Max(_, _) => false
    case _ => true
  }

  function Norm(l: Level): Level
    decreases Size(l), 0
  {
    BaseSize(l);
    var k := Offset(l);
    match Base(l)
    case IMax(a, b) => if Untouched(a) && Untouched(b) then l else AddSucc(MkIMax(Norm(a), Norm(b)), k)
    case Max(_, _) =>
      ArgsSize(Base(l));
      Rebuild(Sorted(NormArgs(PushMaxArgs(Base(l)))), k)
    case _ => l
  }

  function NormArgs(todo: Buffer): (args: Buffer)
    ensures |args| >= |todo|
    decreases AllSize(todo), 1
  {
    if todo == [] then [] else PushMaxArgs(Norm(todo[0])) + NormArgs(todo[1..])
  }

  lemma UntouchedSame(l: Level)
    requires Untouched(l)
    ensures Norm(l) == l
  {
  }

  // same: the result is the object that was given (is_eqp)
  method Normalize(l: Level) returns (res: Level, same: bool)
    ensures res == Norm(l) && (same <==> Untouched(l))
    decreases Size(l), 1
  {
    var r, k := ToOffset(l);
    OffsetParts(l);
    BaseSize(l);
    match r
    case IMax(a, b) =>
      var l1, same1 := Normalize(a);
      var l2, same2 := Normalize(b);
      if !same1 || !same2 {
        res := MkSucc(MkIMax(l1, l2), k);
        same := false;
      } else {
        res, same := l, true;
      }
    case Max(_, _) =>
      res := NormalizeMax(r, k);
      same := false;
    case _ =>
      res, same := l, true;
  }

  // The case of a max with k succs around it
  method NormalizeMax(r: Level, k: nat) returns (res: Level)
    requires r.Max?
    ensures res == Norm(AddSucc(r, k))
    decreases Size(r), 0
  {
    ArgsSize(r);
    var todo := PushMaxArgs(r);
    var args := NormalizeArgs(todo);
    SortedOrder(args);
    args := Sorted(args);
    KeptValue(args, ALL_ZERO);
    var rargs := DropSubsumed(args);
    rargs := RaiseAll(rargs, k);
    res := MkMaxAll(rargs);
    NormMax(r, k);
  }

  lemma {:induction false} NormMax(r: Level, k: nat)
    requires r.Max?
    ensures Norm(AddSucc(r, k)) == Rebuild(Sorted(NormArgs(PushMaxArgs(r))), k)
  {
    hide Rebuild, Sorted, NormArgs, PushMaxArgs, AddSucc, Untouched;
    AddSuccParts(r, k);
  }

  method NormalizeArgs(todo: Buffer) returns (args: Buffer)
    ensures args == NormArgs(todo)
    decreases AllSize(todo), 2
  {
    hide Norm, PushMaxArgs, Size;
    args := [];
    var i := 0;
    while i < |todo|
      invariant 0 <= i <= |todo|
      invariant args + NormArgs(todo[i..]) == NormArgs(todo)
    {
      MemberSize(todo, i);
      var a, _ := Normalize(todo[i]);
      assert args + NormArgs(todo[i..]) == (args + PushMaxArgs(a)) + NormArgs(todo[i + 1..]);
      args := args + PushMaxArgs(a);
      i := i + 1;
    }
  }

  lemma {:induction false} MemberSize(s: Buffer, i: nat)
    requires i < |s|
    ensures Size(s[i]) <= AllSize(s)
  {
    if i > 0 {
      MemberSize(s[1..], i - 1);
    }
  }

  // for (level & a : rargs) a = mk_succ(a, k)
  method RaiseAll(rargs: Buffer, k: nat) returns (s: Buffer)
    ensures s == Raise(rargs, k)
  {
    s := rargs;
    var i := 0;
    while i < |s|
      invariant 0 <= i <= |s| == |rargs|
      invariant forall j :: 0 <= j < i ==> s[j] == AddSucc(rargs[j], k)
      invariant forall j :: i <= j < |s| ==> s[j] == rargs[j]
    {
      var a := MkSucc(s[i], k);
      s := s[i := a];
      i := i + 1;
    }
    RaiseParts(rargs, k, ALL_ZERO);
  }

  // The value is kept, and when imax is read as its second argument it may grow, as the max of
  // both it may shrink; the number of leaves does not grow, and when it stays so does not
  // the number of succs on the outside
  lemma {:induction false} NormPreserves(l: Level, A: Valuation)
    ensures Stands(A.rule, Value(Norm(l), A), Value(l, A))
    ensures Leaves(Norm(l)) <= Leaves(l)
    ensures Leaves(Norm(l)) == Leaves(l) ==> Offset(Norm(l)) <= Offset(l)
    decreases Size(l), 1
  {
    hide AddSucc, MkIMax, Untouched, Value, Offset, Leaves;
    BaseSize(l);
    match Base(l)
    case IMax(x, y) =>
      NormPreserves(x, A);
      NormPreserves(y, A);
      IMaxPreserves(l, A);
    case Max(_, _) =>
      MaxPreserves(l, A);
    case _ =>
      StandsSelf(A.rule, Value(l, A));
  }

  lemma StandsSelf(rule: IMaxRule, x: nat)
    ensures Stands(rule, x, x)
  {
  }

  lemma NormIMax(l: Level)
    requires Base(l).IMax?
    ensures Norm(l) == l || Norm(l) == AddSucc(MkIMax(Norm(Base(l).lhs), Norm(Base(l).rhs)), Offset(l))
  {
    hide MkIMax, AddSucc, Untouched;
  }

  lemma {:induction false} IMaxPreserves(l: Level, A: Valuation)
    requires Base(l).IMax?
    requires var b := Base(l);
      && Stands(A.rule, Value(Norm(b.lhs), A), Value(b.lhs, A)) && Leaves(Norm(b.lhs)) <= Leaves(b.lhs)
      && Stands(A.rule, Value(Norm(b.rhs), A), Value(b.rhs, A)) && Leaves(Norm(b.rhs)) <= Leaves(b.rhs)
    ensures Stands(A.rule, Value(Norm(l), A), Value(l, A))
    ensures Leaves(Norm(l)) <= Leaves(l)
    ensures Leaves(Norm(l)) == Leaves(l) ==> Offset(Norm(l)) <= Offset(l)
  {
    hide Norm, MkIMax, AddSucc;
    var b, k := Base(l), Offset(l);
    NormIMax(l);
    OffsetParts(l);
    AddSuccParts(MkIMax(Norm(b.lhs), Norm(b.rhs)), k);
    MkIMaxLeaves(Norm(b.lhs), Norm(b.rhs));
  }

  lemma {:induction false} MaxPreserves(l: Level, A: Valuation)
    requires Base(l).Max?
    ensures Stands(A.rule, Value(Norm(l), A), Value(l, A))
    ensures Leaves(Norm(l)) <= Leaves(l)
    ensures Leaves(Norm(l)) == Leaves(l) ==> Offset(Norm(l)) <= Offset(l)
    decreases Size(Base(l)), 0
  {
    var b, k := Base(l), Offset(l);
    OffsetParts(l);
    ArgsSize(b);
    var todo := PushMaxArgs(b);
    PushMaxArgsParts(b, A);
    NormArgsPreserves(todo, A);
    SortedParts(NormArgs(todo), A);
    RebuildPreserves(Sorted(NormArgs(todo)), k, A);
  }

  lemma {:induction false} RebuildPreserves(args: Buffer, k: nat, A: Valuation)
    requires |args| > 1
    ensures var r := Rebuild(args, k);
      && Value(r, A) == MaxValue(args, A) + k && Leaves(r) <= AllLeaves(args)
      && (Leaves(r) == AllLeaves(args) ==> Offset(r) == 0)
  {
    KeptValue(args, A);
    assert args[..|args|] == args;
    KeptLeaves(args, |args|);
    RaiseParts(Kept(args, |args|), k, A);
    MaxOfParts(Raise(Kept(args, |args|), k), A);
  }

  lemma {:induction false} NormArgsPreserves(todo: Buffer, A: Valuation)
    ensures Stands(A.rule, MaxValue(NormArgs(todo), A), MaxValue(todo, A))
    ensures AllLeaves(NormArgs(todo)) <= AllLeaves(todo)
    decreases AllSize(todo), 2
  {
    if todo != [] {
      NormPreserves(todo[0], A);
      NormArgsPreserves(todo[1..], A);
      PushMaxArgsParts(Norm(todo[0]), A);
      ConcatParts(PushMaxArgs(Norm(todo[0])), NormArgs(todo[1..]), A);
    }
  }
}

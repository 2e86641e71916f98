/** Hierarchical names and their order (src/util/name.cpp). */
module Names {

  datatype Limb = Str(s: string) | Num(n: nat)

  type Name = seq<Limb>

  // Character by character, a proper prefix first
  predicate StringLess(a: string, b: string) {
    b != [] && (a == [] || a[0] < b[0] || (a[0] == b[0] && StringLess(a[1..], b[1..])))
  }

  // Strings come after numerals
  predicate LimbLess(a: Limb, b: Limb) {
    match (a, b)
    case (Str(x), Str(y)) => StringLess(x, y)
    case (Num(x), Num(y)) => x < y
    case (Num(_), Str(_)) => true
    case (Str(_), Num(_)) => false
  }

  // name::cmp_core is negative: limb by limb, a proper prefix first
  predicate Less(a: Name, b: Name) {
    b != [] && (a == [] || LimbLess(a[0], b[0]) || (a[0] == b[0] && Less(a[1..], b[1..])))
  }

  // The order is decided where two names differ first
  predicate DifferAt(a: Name, b: Name, k: nat) {
    && k <= |a| && k < |b| && a[..k] == b[..k]
    && (k == |a| || LimbLess(a[k], b[k]))
  }

  predicate StringsDifferAt(a: string, b: string, k: nat) {
    && k <= |a| && k < |b| && a[..k] == b[..k]
    && (k == |a| || a[k] < b[k])
  }

  lemma SameStart<T>(a: seq<T>, b: seq<T>, k: nat)
    requires k <= |a| && k <= |b| && a[..k] == b[..k]
    ensures k > 0 ==> a[0] == b[0]
  {
    if k > 0 {
      assert a[..k][0] == b[..k][0];
    }
  }

  lemma {:induction false} StringLessMeans(a: string, b: string)
    ensures StringLess(a, b) <==> exists k: nat :: StringsDifferAt(a, b, k)
  {
    if a == [] || b == [] || a[0] != b[0] {
      assert b != [] ==> (StringsDifferAt(a, b, 0) <==> a == [] || a[0] < b[0]);
      forall k: nat | StringsDifferAt(a, b, k) ensures k == 0 {
        SameStart(a, b, k);
      }
    } else {
      StringLessMeans(a[1..], b[1..]);
      if StringLess(a, b) {
        var k: nat :| StringsDifferAt(a[1..], b[1..], k);
        assert a[..k + 1] == [a[0]] + a[1..][..k] && b[..k + 1] == [b[0]] + b[1..][..k];
        assert StringsDifferAt(a, b, k + 1);
      }
      forall k: nat | StringsDifferAt(a, b, k) ensures StringLess(a, b) {
        assert k > 0 && a[1..][..k - 1] == a[..k][1..] && b[1..][..k - 1] == b[..k][1..];
        assert StringsDifferAt(a[1..], b[1..], k - 1);
      }
    }
  }

  // Names are compared where they differ first, a proper prefix comes first; numerals come
  // before strings
  lemma {:induction false} LessMeans(a: Name, b: Name)
    ensures Less(a, b) <==> exists k: nat :: DifferAt(a, b, k)
    ensures forall n, s :: LimbLess(Num(n), Str(s)) && !LimbLess(Str(s), Num(n))
    ensures forall m, n :: LimbLess(Num(m), Num(n)) <==> m < n
    ensures forall s, t :: LimbLess(Str(s), Str(t)) <==> exists k: nat :: StringsDifferAt(s, t, k)
  {
    forall s, t ensures LimbLess(Str(s), Str(t)) <==> exists k: nat :: StringsDifferAt(s, t, k) {
      StringLessMeans(s, t);
    }
    LessWhere(a, b);
  }

  lemma {:induction false} LessWhere(a: Name, b: Name)
    ensures Less(a, b) <==> exists k: nat :: DifferAt(a, b, k)
  {
    hide LimbLess;
    if a == [] || b == [] || a[0] != b[0] {
      assert b != [] ==> (DifferAt(a, b, 0) <==> a == [] || LimbLess(a[0], b[0]));
      forall k: nat | DifferAt(a, b, k) ensures k == 0 {
        SameStart(a, b, k);
      }
    } else {
      LessWhere(a[1..], b[1..]);
      LimbOrder(a[0], b[0], b[0]);
      if Less(a, b) {
        var k: nat :| DifferAt(a[1..], b[1..], k);
        assert a[..k + 1] == [a[0]] + a[1..][..k] && b[..k + 1] == [b[0]] + b[1..][..k];
        assert DifferAt(a, b, k + 1);
      }
      forall k: nat | DifferAt(a, b, k) ensures Less(a, b) {
        assert k > 0 && a[1..][..k - 1] == a[..k][1..] && b[1..][..k - 1] == b[..k][1..];
        assert DifferAt(a[1..], b[1..], k - 1);
      }
    }
  }

  lemma {:induction false} StringTotal(a: string, b: string)
    ensures !StringLess(a, a)
    ensures StringLess(a, b) || a == b || StringLess(b, a)
    ensures !(StringLess(a, b) && StringLess(b, a))
  {
    if a != [] {
      StringTotal(a[1..], a[1..]);
      if b != [] {
        StringTotal(a[1..], b[1..]);
        assert a == [a[0]] + a[1..] && b == [b[0]] + b[1..];
      }
    }
  }

  lemma {:induction false} StringTransitive(a: string, b: string, c: string)
    requires StringLess(a, b) && StringLess(b, c)
    ensures StringLess(a, c)
  {
    if a != [] && a[0] == b[0] == c[0] {
      StringTransitive(a[1..], b[1..], c[1..]);
    }
  }

  lemma LimbOrder(a: Limb, b: Limb, c: Limb)
    ensures !LimbLess(a, a)
    ensures LimbLess(a, b) || a == b || LimbLess(b, a)
    ensures !(LimbLess(a, b) && LimbLess(b, a))
    ensures LimbLess(a, b) && LimbLess(b, c) ==> LimbLess(a, c)
  {
    if a.Str? {
      StringTotal(a.s, a.s);
    }
    if a.Str? && b.Str? {
      StringTotal(a.s, b.s);
      if c.Str? && LimbLess(a, b) && LimbLess(b, c) {
        StringTransitive(a.s, b.s, c.s);
      }
    }
  }

  lemma {:induction false} LessTotal(a: Name, b: Name)
    ensures !Less(a, a)
    ensures Less(a, b) || a == b || Less(b, a)
    ensures !(Less(a, b) && Less(b, a))
  {
    if a != [] {
      LessTotal(a[1..], a[1..]);
      LimbOrder(a[0], a[0], a[0]);
      if b != [] {
        LessTotal(a[1..], b[1..]);
        LimbOrder(a[0], b[0], a[0]);
        assert a == [a[0]] + a[1..] && b == [b[0]] + b[1..];
      }
    }
  }

  lemma {:induction false} LessTransitive(a: Name, b: Name, c: Name)
    requires Less(a, b) && Less(b, c)
    ensures Less(a, c)
  {
    if a != [] {
      LimbOrder(a[0], b[0], c[0]);
      if a[0] == b[0] == c[0] {
        LimbOrder(a[0], b[0], a[0]);
        LessTransitive(a[1..], b[1..], c[1..]);
      }
    }
  }
}

/** Baker-style persistent arrays (src/library/parray.h), the graph of versions.
  *
  * A version of the array is a cell.  One cell of each tree is a Root that owns the
  * values; every other cell says how it differs from the cell its `next` points to.
  * Reading an old version reverses the chain in place.  Cells are reference counted
  * and freed.
  *
  * This module is what the memory means: which cells are allocated, how they point to
  * each other, and what sequence each one denotes.  The code that works on the memory
  * is in module PersistentArray.
  */
module VersionGraph {

  // An address; 0 is the null pointer
  type Ptr = nat

  const NULL: Ptr := 0

  // A parray object: a variable that holds a counted pointer to a cell
  type Var = nat

  // What a cell holds
  datatype Rec<T(!new)> =
    | RootOf(vals: seq<T>)
    | SetOf(next: Ptr, idx: nat, elem: T)
    | PushOf(next: Ptr, elem: T)
    | PopOf(next: Ptr)

  datatype Graph<T(!new)> = Graph(
    cells: map<Ptr, Rec<T>>,
    den: map<Ptr, seq<T>>,
    rank: map<Ptr, nat>,
    count: map<Ptr, int>,
    owner: map<Var, Ptr>)

  ghost predicate PointsTo<T(!new)>(r: Rec<T>, x: Ptr) {
    !r.RootOf? && r.next == x
  }

  // One diff applied to the sequence of the next version
  ghost predicate Applies<T(!new)>(r: Rec<T>, d: seq<T>)
    requires !r.RootOf?
  {
    match r
    case SetOf(_, i, _) => i < |d|
    case PushOf(_, _) => true
    case PopOf(_) => |d| > 0
  }

  ghost function Diff<T(!new)>(r: Rec<T>, d: seq<T>): seq<T>
    requires !r.RootOf? && Applies(r, d)
  {
    match r
    case SetOf(_, i, e) => d[i := e]
    case PushOf(_, e) => d + [e]
    case PopOf(_) => d[..|d| - 1]
  }

  // What a diff against xs without its last element denotes
  lemma PushedLast<T(!new)>(n: Ptr, xs: seq<T>)
    requires |xs| > 0
    ensures var k := |xs| - 1;
      Applies(PushOf(n, xs[k]), xs[..k]) && Diff(PushOf(n, xs[k]), xs[..k]) == xs
  {
  }

  // The diff that leads back: how the next version differs from the one r denotes, held in p
  ghost function Back<T(!new)>(r: Rec<T>, p: Ptr, d: seq<T>): (b: Rec<T>)
    requires !r.RootOf? && Applies(r, d)
    ensures !b.RootOf? && b.next == p
    ensures Applies(b, Diff(r, d)) && Diff(b, Diff(r, d)) == d
  {
    match r
    case SetOf(_, i, _) => SetOf(p, i, d[i])
    case PushOf(_, _) => PopOf(p)
    case PopOf(_) => PushOf(p, d[|d| - 1])
  }

  ghost predicate Local<T(!new)>(g: Graph<T>, x: Ptr) {
    && x in g.cells && x in g.den && x in g.rank
    && var r := g.cells[x];
       if r.RootOf? then g.den[x] == r.vals
       else
         && r.next in g.cells && r.next in g.den && r.next in g.rank
         && g.rank[r.next] < g.rank[x]
         && Applies(r, g.den[r.next])
         && g.den[x] == Diff(r, g.den[r.next])
  }

  ghost predicate Owned<T(!new)>(g: Graph<T>, h: Var) {
    h in g.owner && g.owner[h] in g.cells
  }

  ghost function Preds<T(!new)>(g: Graph<T>, x: Ptr): set<Ptr> {
    set y | y in g.cells && PointsTo(g.cells[y], x)
  }

  ghost function Owners<T(!new)>(g: Graph<T>, x: Ptr): set<Var> {
    set h | h in g.owner && g.owner[h] == x
  }

  ghost function Count<T(!new)>(g: Graph<T>, x: Ptr): nat {
    |Preds(g, x)| + |Owners(g, x)|
  }

  // `count` is the number of links and handles that hold x
  ghost predicate CountOk<T(!new)>(g: Graph<T>, x: Ptr) {
    x in g.count && g.count[x] == Count(g, x)
  }

  ghost predicate Sound<T(!new)>(g: Graph<T>) {
    && g.cells.Keys == g.den.Keys == g.rank.Keys == g.count.Keys
    && (forall x {:trigger Local(g, x)} :: x in g.cells ==> Local(g, x))
    && (forall h {:trigger Owned(g, h)} :: h in g.owner ==> Owned(g, h))
  }

  ghost predicate Exact<T(!new)>(g: Graph<T>) {
    forall x {:trigger CountOk(g, x)} :: x in g.cells ==> CountOk(g, x)
  }

  ghost predicate Inv<T(!new)>(g: Graph<T>) {
    Sound(g) && Exact(g)
  }

  // ----- the steps the code takes, on graphs -----

  // The link p -> c into a Root c becomes c -> p, and p becomes the Root
  ghost function Rotate<T(!new)>(g: Graph<T>, p: Ptr, c: Ptr): Graph<T>
    requires Local(g, p) && Local(g, c) && p in g.count && c in g.count
    requires PointsTo(g.cells[p], c) && g.cells[c].RootOf?
  {
    g.(cells := g.cells[c := Back(g.cells[p], p, g.den[c])][p := RootOf(g.den[p])],
       rank := map x | x in g.rank :: if x == p then 0 else g.rank[x] + 1,
       count := g.count[p := g.count[p] + 1][c := g.count[c] - 1])
  }

  lemma {:induction false} RotateSound<T(!new)>(g: Graph<T>, p: Ptr, c: Ptr)
    requires Inv(g) && p in g.cells && c in g.cells
    requires PointsTo(g.cells[p], c) && g.cells[c].RootOf?
    requires Local(g, p) && Local(g, c)
    ensures Sound(Rotate(g, p, c))
  {
    var g' := Rotate(g, p, c);
    forall x | x in g'.cells ensures Local(g', x) {
      assert Local(g, x);
    }
    forall h | h in g'.owner ensures Owned(g', h) {
      assert Owned(g, h);
    }
  }

  lemma {:induction false} RotateInv<T(!new)>(g: Graph<T>, p: Ptr, c: Ptr)
    requires Inv(g) && p in g.cells && c in g.cells
    requires PointsTo(g.cells[p], c) && g.cells[c].RootOf?
    requires Local(g, p) && Local(g, c)
    ensures Inv(Rotate(g, p, c))
  {
    hide Count, Local, Owned;
    RotateSound(g, p, c);
    var g' := Rotate(g, p, c);
    forall x | x in g'.cells ensures CountOk(g', x) {
      assert CountOk(g, x);
      RotateCount(g, p, c, x);
    }
  }

  lemma RotatePreds<T(!new)>(g: Graph<T>, p: Ptr, c: Ptr, x: Ptr)
    requires p in g.cells && c in g.cells && p in g.count && c in g.count
    requires PointsTo(g.cells[p], c) && g.cells[c].RootOf?
    requires Local(g, p) && Local(g, c)
    ensures p in Preds(g, c) && c !in Preds(g, p)
    ensures Preds(Rotate(g, p, c), x)
         == if x == p then Preds(g, x) + {c} else if x == c then Preds(g, x) - {p} else Preds(g, x)
  {
    var g' := Rotate(g, p, c);
    assert PointsTo(g'.cells[c], p) && g'.cells[p].RootOf?;
    forall y ensures y in Preds(g', x) <==>
      y in (if x == p then Preds(g, x) + {c} else if x == c then Preds(g, x) - {p} else Preds(g, x))
    {
      if y == p || y == c {
      } else {
        assert y in g'.cells <==> y in g.cells;
        assert y in g.cells ==> g'.cells[y] == g.cells[y];
      }
    }
  }

  lemma RotateCount<T(!new)>(g: Graph<T>, p: Ptr, c: Ptr, x: Ptr)
    requires p in g.cells && c in g.cells && p in g.count && c in g.count
    requires PointsTo(g.cells[p], c) && g.cells[c].RootOf?
    requires Local(g, p) && Local(g, c)
    ensures Count(Rotate(g, p, c), x)
         == Count(g, x) + (if x == p then 1 else 0) - (if x == c then 1 else 0)
  {
    RotatePreds(g, p, c, x);
    var g' := Rotate(g, p, c);
    assert g'.owner == g.owner;
    assert Owners(g', x) == Owners(g, x);
  }

  // A fresh isolated Root, not yet referenced
  ghost function AddRoot<T(!new)>(g: Graph<T>, n: Ptr, vs: seq<T>): Graph<T> {
    g.(cells := g.cells[n := RootOf(vs)], den := g.den[n := vs],
       rank := g.rank[n := 0], count := g.count[n := 0])
  }

  lemma {:induction false} AddRootInv<T(!new)>(g: Graph<T>, n: Ptr, vs: seq<T>)
    requires Inv(g) && n !in g.cells
    ensures Inv(AddRoot(g, n, vs))
  {
    hide Count;
    var g' := AddRoot(g, n, vs);
    assert Sound(g') by {
      forall x | x in g'.cells ensures Local(g', x) {
        assert x != n ==> Local(g, x);
      }
      forall h | h in g'.owner ensures Owned(g', h) {
        assert Owned(g, h);
      }
    }
    forall x | x in g'.cells ensures CountOk(g', x) {
      assert x != n ==> CountOk(g, x);
      AddRootCount(g, n, vs, x);
    }
  }

  lemma AddRootCount<T(!new)>(g: Graph<T>, n: Ptr, vs: seq<T>, x: Ptr)
    requires Sound(g) && n !in g.cells
    ensures Count(AddRoot(g, n, vs), x) == Count(g, x)
    ensures x == n ==> Count(g, x) == 0
  {
    var g' := AddRoot(g, n, vs);
    assert g'.owner == g.owner;
    assert Owners(g', x) == Owners(g, x);
    forall y ensures y in Preds(g', x) <==> y in Preds(g, x) {
      assert y in g.cells ==> g'.cells[y] == g.cells[y];
    }
    assert Preds(g', x) == Preds(g, x);
    if x == n {
      forall y | y in g.cells ensures !PointsTo(g.cells[y], n) {
        assert Local(g, y);
      }
      forall h | h in g.owner ensures g.owner[h] != n {
        assert Owned(g, h);
      }
      assert Preds(g, n) == {} && Owners(g, n) == {};
    }
  }

  // A handle starts, or stops, holding a version
  ghost function Own<T(!new)>(g: Graph<T>, h: Var, x: Ptr): Graph<T>
    requires x in g.count
  {
    g.(owner := g.owner[h := x], count := g.count[x := g.count[x] + 1])
  }

  ghost function Disown<T(!new)>(g: Graph<T>, h: Var): Graph<T>
    requires h in g.owner && g.owner[h] in g.count
  {
    g.(owner := g.owner - {h}, count := g.count[g.owner[h] := g.count[g.owner[h]] - 1])
  }

  lemma {:induction false} OwnInv<T(!new)>(g: Graph<T>, h: Var, x: Ptr)
    requires Inv(g) && x in g.cells && h !in g.owner
    ensures Inv(Own(g, h, x))
  {
    hide Count;
    var g' := Own(g, h, x);
    assert Sound(g') by {
      forall y | y in g'.cells ensures Local(g', y) {
        assert Local(g, y);
      }
      forall k | k in g'.owner ensures Owned(g', k) {
        assert k != h ==> Owned(g, k);
      }
    }
    forall y | y in g'.cells ensures CountOk(g', y) {
      assert CountOk(g, y);
      OwnCount(g, h, x, y);
    }
  }

  lemma OwnCount<T(!new)>(g: Graph<T>, h: Var, x: Ptr, y: Ptr)
    requires x in g.count && h !in g.owner
    ensures Count(Own(g, h, x), y) == Count(g, y) + if x == y then 1 else 0
  {
    OwnOwners(g, h, x, y);
    assert Preds(Own(g, h, x), y) == Preds(g, y);
  }

  lemma OwnOwners<T(!new)>(g: Graph<T>, h: Var, x: Ptr, y: Ptr)
    requires x in g.count && h !in g.owner
    ensures h !in Owners(g, y)
    ensures Owners(Own(g, h, x), y) == if x == y then Owners(g, y) + {h} else Owners(g, y)
  {
  }

  lemma DisownInv<T(!new)>(g: Graph<T>, h: Var)
    requires Inv(g) && h in g.owner && Owned(g, h)
    ensures Inv(Disown(g, h))
  {
    hide Count;
    var g' := Disown(g, h);
    assert Sound(g') by {
      forall y | y in g'.cells ensures Local(g', y) {
        assert Local(g, y);
      }
      forall k | k in g'.owner ensures Owned(g', k) {
        assert Owned(g, k);
      }
    }
    forall y | y in g'.cells ensures CountOk(g', y) {
      assert CountOk(g, y);
      DisownCount(g, h, y);
    }
  }

  lemma DisownCount<T(!new)>(g: Graph<T>, h: Var, y: Ptr)
    requires h in g.owner && g.owner[h] in g.count
    ensures Count(Disown(g, h), y) == Count(g, y) - if g.owner[h] == y then 1 else 0
  {
    DisownOwners(g, h, y);
    assert Preds(Disown(g, h), y) == Preds(g, y);
  }

  lemma DisownOwners<T(!new)>(g: Graph<T>, h: Var, y: Ptr)
    requires h in g.owner && g.owner[h] in g.count
    ensures h in Owners(g, y) <==> g.owner[h] == y
    ensures Owners(Disown(g, h), y) == Owners(g, y) - {h}
  {
  }

  // A Root nobody else can see is overwritten in place
  ghost function Overwrite<T(!new)>(g: Graph<T>, c: Ptr, vs: seq<T>): Graph<T> {
    g.(cells := g.cells[c := RootOf(vs)], den := g.den[c := vs])
  }

  lemma OverwriteInv<T(!new)>(g: Graph<T>, c: Ptr, vs: seq<T>)
    requires Inv(g) && c in g.cells && Preds(g, c) == {} && g.cells[c].RootOf?
    ensures Inv(Overwrite(g, c, vs))
  {
    hide Count;
    var g' := Overwrite(g, c, vs);
    assert Sound(g') by {
      assert Local(g, c);
      forall x | x in g'.cells ensures Local(g', x) {
        assert Local(g, x);
        assert x !in Preds(g, c);
      }
      forall h | h in g'.owner ensures Owned(g', h) {
        assert Owned(g, h);
      }
    }
    forall x | x in g'.cells ensures CountOk(g', x) {
      assert CountOk(g, x);
      OverwriteCount(g, c, vs, x);
    }
  }

  lemma OverwriteCount<T(!new)>(g: Graph<T>, c: Ptr, vs: seq<T>, x: Ptr)
    requires c in g.cells && g.cells[c].RootOf?
    ensures Count(Overwrite(g, c, vs), x) == Count(g, x)
  {
    var g' := Overwrite(g, c, vs);
    assert Owners(g', x) == Owners(g, x);
    assert !PointsTo(g.cells[c], x) && !PointsTo(g'.cells[c], x);
    forall y ensures y in Preds(g', x) <==> y in Preds(g, x) {
      assert y in g.cells && y != c ==> g'.cells[y] == g.cells[y];
    }
    assert Preds(g', x) == Preds(g, x);
  }

  // The Root c becomes a diff against a new Root n, which takes over the values
  ghost function Demote<T(!new)>(g: Graph<T>, c: Ptr, r: Rec<T>): Graph<T>
    requires !r.RootOf? && r.next in g.count
  {
    g.(cells := g.cells[c := r],
       rank := map x | x in g.rank :: if x == r.next then 0 else g.rank[x] + 1,
       count := g.count[r.next := g.count[r.next] + 1])
  }

  lemma {:induction false} DemoteSound<T(!new)>(g: Graph<T>, c: Ptr, r: Rec<T>)
    requires Inv(g) && c in g.cells && !r.RootOf? && r.next in g.cells && r.next != c
    requires g.cells[c].RootOf? && g.cells[r.next].RootOf? && Applies(r, g.den[r.next])
    requires g.den[c] == Diff(r, g.den[r.next])
    ensures Sound(Demote(g, c, r))
  {
    var g' := Demote(g, c, r);
    assert Local(g, c) && Local(g, r.next);
    forall x | x in g'.cells ensures Local(g', x) {
      assert Local(g, x);
    }
    forall h | h in g'.owner ensures Owned(g', h) {
      assert Owned(g, h);
    }
  }

  lemma {:induction false} DemoteInv<T(!new)>(g: Graph<T>, c: Ptr, r: Rec<T>)
    requires Inv(g) && c in g.cells && !r.RootOf? && r.next in g.cells && r.next != c
    requires g.cells[c].RootOf? && g.cells[r.next].RootOf? && Applies(r, g.den[r.next])
    requires g.den[c] == Diff(r, g.den[r.next])
    ensures Inv(Demote(g, c, r))
  {
    hide Count, Local, Owned;
    DemoteSound(g, c, r);
    var g' := Demote(g, c, r);
    forall x | x in g'.cells ensures CountOk(g', x) {
      assert CountOk(g, x);
      DemoteCount(g, c, r, x);
    }
  }

  lemma DemoteCount<T(!new)>(g: Graph<T>, c: Ptr, r: Rec<T>, x: Ptr)
    requires c in g.cells && !r.RootOf? && r.next in g.count && g.cells[c].RootOf?
    ensures Count(Demote(g, c, r), x) == Count(g, x) + if x == r.next then 1 else 0
  {
    var g' := Demote(g, c, r);
    assert Owners(g', x) == Owners(g, x);
    assert PointsTo(g'.cells[c], r.next) && !PointsTo(g.cells[c], x);
    forall y ensures y in Preds(g', x) <==> y in (if x == r.next then Preds(g, x) + {c} else Preds(g, x)) {
      assert y in g.cells && y != c ==> g'.cells[y] == g.cells[y];
    }
    assert Preds(g', x) == if x == r.next then Preds(g, x) + {c} else Preds(g, x);
  }

  // The link of b is moved to another version n that denotes the same sequence
  ghost function Relink<T(!new)>(g: Graph<T>, b: Ptr, n: Ptr): Graph<T>
    requires b in g.cells && !g.cells[b].RootOf?
    requires n in g.count && g.cells[b].next in g.count
  {
    var m := g.cells[b].next;
    g.(cells := g.cells[b := g.cells[b].(next := n)],
       count := g.count[m := g.count[m] - 1][n := g.count[n] + 1])
  }

  lemma {:induction false} RelinkInv<T(!new)>(g: Graph<T>, b: Ptr, n: Ptr)
    requires Inv(g) && b in g.cells && n in g.cells && !g.cells[b].RootOf?
    requires Local(g, b) && Local(g, n) && g.cells[b].next != n
    requires g.den[n] == g.den[g.cells[b].next] && g.rank[n] < g.rank[b]
    ensures Inv(Relink(g, b, n))
  {
    hide Count;
    var g' := Relink(g, b, n);
    assert Sound(g') by {
      forall x | x in g'.cells ensures Local(g', x) {
        assert Local(g, x);
      }
      forall h | h in g'.owner ensures Owned(g', h) {
        assert Owned(g, h);
      }
    }
    forall x | x in g'.cells ensures CountOk(g', x) {
      assert CountOk(g, x);
      RelinkCount(g, b, n, x);
    }
  }

  lemma RelinkCount<T(!new)>(g: Graph<T>, b: Ptr, n: Ptr, x: Ptr)
    requires b in g.cells && !g.cells[b].RootOf? && g.cells[b].next != n
    requires n in g.count && g.cells[b].next in g.count
    ensures Count(Relink(g, b, n), x)
         == Count(g, x) + (if x == n then 1 else 0) - (if x == g.cells[b].next then 1 else 0)
  {
    var g' := Relink(g, b, n);
    assert Owners(g', x) == Owners(g, x);
    assert PointsTo(g'.cells[b], n) && PointsTo(g.cells[b], g.cells[b].next);
    forall y ensures y in Preds(g', x) <==> y in (if x == n then Preds(g, x) + {b} else Preds(g, x) - {b}) {
      assert y in g.cells && y != b ==> g'.cells[y] == g.cells[y];
    }
    assert Preds(g', x) == if x == n then Preds(g, x) + {b} else Preds(g, x) - {b};
    assert b in Preds(g, x) <==> x == g.cells[b].next;
  }

  // A cell nobody refers to is freed, and lets go of its successor
  ghost function Free<T(!new)>(g: Graph<T>, c: Ptr): Graph<T>
    requires c in g.cells && (g.cells[c].RootOf? || g.cells[c].next in g.count)
  {
    var r := g.cells[c];
    var count := if r.RootOf? then g.count else g.count[r.next := g.count[r.next] - 1];
    g.(cells := g.cells - {c}, den := g.den - {c}, rank := g.rank - {c}, count := count - {c})
  }

  lemma {:induction false} FreeInv<T(!new)>(g: Graph<T>, c: Ptr)
    requires Inv(g) && c in g.cells && g.count[c] == 0 && Local(g, c)
    ensures Inv(Free(g, c))
  {
    var g' := Free(g, c);
    assert CountOk(g, c);
    assert Preds(g, c) == {} && Owners(g, c) == {};
    assert Sound(g') by {
      forall x | x in g'.cells ensures Local(g', x) {
        assert Local(g, x);
        assert x !in Preds(g, c);
      }
      forall h | h in g'.owner ensures Owned(g', h) {
        assert Owned(g, h);
        assert h !in Owners(g, c);
      }
    }
    forall x | x in g'.cells ensures CountOk(g', x) {
      assert CountOk(g, x);
      FreeCount(g, c, x);
    }
  }

  lemma FreeCount<T(!new)>(g: Graph<T>, c: Ptr, x: Ptr)
    requires c in g.cells && (g.cells[c].RootOf? || g.cells[c].next in g.count)
    ensures Count(Free(g, c), x) == Count(g, x) - (if PointsTo(g.cells[c], x) then 1 else 0)
  {
    var g' := Free(g, c);
    assert Owners(g', x) == Owners(g, x);
    forall y ensures y in Preds(g', x) <==> y in Preds(g, x) - {c} {
      assert y in g.cells && y != c ==> g'.cells[y] == g.cells[y];
    }
    assert Preds(g', x) == Preds(g, x) - {c};
    assert c in Preds(g, x) <==> PointsTo(g.cells[c], x);
  }

  // ----- what the counts give -----

  // Count one through a handle means nobody else can see the version
  lemma SoleOwner<T(!new)>(g: Graph<T>, h: Var)
    requires Inv(g) && h in g.owner && Owned(g, h) && g.count[g.owner[h]] == 1
    ensures Preds(g, g.owner[h]) == {} && Owners(g, g.owner[h]) == {h}
  {
    var c := g.owner[h];
    assert CountOk(g, c);
    assert h in Owners(g, c);
    if Owners(g, c) != {h} {
      var k :| k in Owners(g, c) && k != h;
      SubsetCard({h, k}, Owners(g, c));
    }
  }

  lemma SubsetCard<A>(s: set<A>, t: set<A>)
    requires s <= t
    ensures |s| <= |t|
  {
    assert t == s + (t - s);
  }

  // No leak: when every count is positive and no handle is left, no cell is allocated
  lemma NoHandlesNoCells<T(!new)>(g: Graph<T>)
    requires Inv(g) && g.owner == map[]
    requires forall x :: x in g.count ==> g.count[x] > 0
    ensures g.cells == map[]
  {
    if g.cells.Keys != {} {
      var x :| x in g.cells;
      NoTop(g, x, MaxRank(g.rank, g.rank.Keys));
    }
  }

  ghost function MaxRank<A>(rank: map<A, nat>, s: set<A>): (m: nat)
    requires s <= rank.Keys
    ensures forall x :: x in s ==> rank[x] <= m
  {
    if s == {} then 0
    else
      var x :| x in s;
      var m := MaxRank(rank, s - {x});
      if rank[x] > m then rank[x] else m
  }

  lemma {:induction false} NoTop<T(!new)>(g: Graph<T>, x: Ptr, m: nat)
    requires Inv(g) && g.owner == map[] && x in g.cells
    requires forall x :: x in g.count ==> g.count[x] > 0
    requires forall x :: x in g.rank ==> g.rank[x] <= m
    ensures false
    decreases m - g.rank[x]
  {
    assert CountOk(g, x);
    assert Owners(g, x) == {};
    var y :| y in Preds(g, x);
    assert Local(g, y);
    NoTop(g, y, m);
  }

  // The sequence of a version read off the chain, without the stored denotations
  ghost function Denotation<T(!new)>(g: Graph<T>, x: Ptr): seq<T>
    requires Sound(g) && x in g.cells
    decreases g.rank[x]
  {
    assert Local(g, x);
    var r := g.cells[x];
    if r.RootOf? then r.vals
    else
      var d := Denotation(g, r.next);
      if Applies(r, d) then Diff(r, d) else []
  }

  lemma {:induction false} DenIsDenotation<T(!new)>(g: Graph<T>, x: Ptr)
    requires Sound(g) && x in g.cells
    ensures g.den[x] == Denotation(g, x)
    decreases g.rank[x]
  {
    assert Local(g, x);
    if !g.cells[x].RootOf? {
      DenIsDenotation(g, g.cells[x].next);
    }
  }

  // ----- paths -----

  // Cell i of the path cs to c, counting c itself
  function At(cs: seq<Ptr>, c: Ptr, i: nat): Ptr {
    if i < |cs| then cs[i] else c
  }

  ghost predicate LinkAt<T(!new)>(cells: map<Ptr, Rec<T>>, cs: seq<Ptr>, c: Ptr, i: nat) {
    At(cs, c, i) in cells && At(cs, c, i) != c && PointsTo(cells[At(cs, c, i)], At(cs, c, i + 1))
  }

  // cs[0] -> cs[1] -> ... -> c without repetitions
  ghost predicate Path<T(!new)>(cells: map<Ptr, Rec<T>>, cs: seq<Ptr>, c: Ptr) {
    && (forall i: nat {:trigger LinkAt(cells, cs, c, i)} :: i < |cs| ==> LinkAt(cells, cs, c, i))
    && (forall i, j :: 0 <= i < j < |cs| ==> cs[i] != cs[j])
  }

  lemma PathExtend<T(!new)>(cells: map<Ptr, Rec<T>>, cs: seq<Ptr>, c: Ptr, n: Ptr)
    requires Path(cells, cs, c) && c in cells && PointsTo(cells[c], n) && n !in cs && n != c
    ensures Path(cells, cs + [c], n)
  {
    var ds := cs + [c];
    forall i: nat | i < |ds| ensures LinkAt(cells, ds, n, i) {
      assert i < |cs| ==> LinkAt(cells, cs, c, i);
    }
    forall i, j | 0 <= i < j < |ds| ensures ds[i] != ds[j] {
      assert LinkAt(cells, cs, c, i);
    }
  }

  lemma PathPrefix<T(!new)>(cells: map<Ptr, Rec<T>>, cs: seq<Ptr>, c: Ptr, m: nat)
    requires Path(cells, cs, c) && m < |cs|
    ensures Path(cells, cs[..m], cs[m])
  {
    forall i: nat | i < m ensures LinkAt(cells, cs[..m], cs[m], i) {
      assert LinkAt(cells, cs, c, i);
    }
  }

  // The last cell of a path is made to point to the new cell n instead of m
  lemma PathRelink<T(!new)>(cells: map<Ptr, Rec<T>>, cs: seq<Ptr>, m: Ptr, n: Ptr, cells': map<Ptr, Rec<T>>)
    requires Path(cells, cs, m) && |cs| > 0 && n !in cells && n in cells'
    requires cells.Keys <= cells'.Keys && cs[|cs| - 1] in cells' && PointsTo(cells'[cs[|cs| - 1]], n)
    requires forall x :: x in cells && x != cs[|cs| - 1] ==> cells'[x] == cells[x]
    ensures Path(cells', cs, n)
  {
    forall i: nat | i < |cs| ensures LinkAt(cells', cs, n, i) {
      assert LinkAt(cells, cs, m, i);
    }
  }

  // Freeing cells does not cut a path that starts at a surviving cell
  lemma {:induction false} PathSurvives<T(!new)>(g: Graph<T>, cs: seq<Ptr>, c: Ptr, g': Graph<T>, k: nat)
    requires Path(g.cells, cs, c) && k <= |cs| && Inv(g') && Shrunk(g, g') && At(cs, c, 0) in g'.cells
    ensures At(cs, c, k) in g'.cells
  {
    if k > 0 {
      PathSurvives(g, cs, c, g', k - 1);
      assert Local(g', At(cs, c, k - 1));
      assert LinkAt(g.cells, cs, c, k - 1);
    }
  }

  lemma PathShrunk<T(!new)>(g: Graph<T>, cs: seq<Ptr>, c: Ptr, g': Graph<T>)
    requires Path(g.cells, cs, c) && |cs| > 0 && Inv(g') && Shrunk(g, g') && cs[0] in g'.cells
    ensures Path(g'.cells, cs, c) && c in g'.cells
  {
    PathSurvives(g, cs, c, g', |cs|);
    forall i: nat | i < |cs| ensures LinkAt(g'.cells, cs, c, i) {
      PathSurvives(g, cs, c, g', i);
      assert LinkAt(g.cells, cs, c, i);
    }
  }

  // A path loses its last link p -> c when only p and c are rewritten
  lemma PathInit<T(!new)>(cells: map<Ptr, Rec<T>>, cs: seq<Ptr>, c: Ptr, cells': map<Ptr, Rec<T>>)
    requires Path(cells, cs, c) && |cs| > 0 && cells'.Keys == cells.Keys
    requires forall x :: x in cells && x != c && x != cs[|cs| - 1] ==> cells'[x] == cells[x]
    ensures Path(cells', cs[..|cs| - 1], cs[|cs| - 1])
  {
    var n := |cs| - 1;
    forall i: nat | i < n ensures LinkAt(cells', cs[..n], cs[n], i) {
      assert LinkAt(cells, cs, c, i);
    }
  }

  // The same for the first i cells of a path, whose last link has been turned
  lemma PathBefore<T(!new)>(cells: map<Ptr, Rec<T>>, cs: seq<Ptr>, i: nat, c: Ptr, cells': map<Ptr, Rec<T>>)
    requires 0 < i <= |cs| && Path(cells, cs[..i], c) && cells'.Keys == cells.Keys
    requires forall x :: x in cells && x != c && x != cs[i - 1] ==> cells'[x] == cells[x]
    ensures Path(cells', cs[..i - 1], cs[i - 1])
  {
    PathInit(cells, cs[..i], c, cells');
    assert cs[..i][..i - 1] == cs[..i - 1];
  }

  lemma PathLast<T(!new)>(cells: map<Ptr, Rec<T>>, cs: seq<Ptr>, i: nat, c: Ptr)
    requires 0 < i <= |cs| && Path(cells, cs[..i], c)
    ensures cs[i - 1] in cells && PointsTo(cells[cs[i - 1]], c)
  {
    assert LinkAt(cells, cs[..i], c, i - 1);
  }

  // Links have been turned around, and nothing else
  ghost predicate Turned<T(!new)>(g: Graph<T>, g': Graph<T>) {
    g'.owner == g.owner && g'.den == g.den && g'.cells.Keys == g.cells.Keys
  }

  // ----- what the holders see -----

  ghost function Value<T(!new)>(g: Graph<T>, h: Var): seq<T> {
    if h in g.owner && g.owner[h] in g.den then g.den[g.owner[h]] else []
  }

  // Every handle has the version it had, and that denotes what it did
  ghost predicate SameVersions<T(!new)>(g: Graph<T>, g': Graph<T>) {
    g'.owner == g.owner && forall h :: h in g.owner ==> Value(g', h) == Value(g, h)
  }

  lemma SameDenVersions<T(!new)>(g: Graph<T>, g': Graph<T>)
    requires Inv(g) && Inv(g') && g'.owner == g.owner && SameDen(g, g')
    ensures SameVersions(g, g')
  {
    forall h | h in g.owner ensures Value(g', h) == Value(g, h) {
      assert Owned(g, h) && Owned(g', h);
    }
  }

  // ----- the same steps, by what they do to the cells -----

  // Every surviving version denotes what it did
  ghost predicate SameDen<T(!new)>(g: Graph<T>, g': Graph<T>) {
    forall x :: x in g.cells && x in g'.cells ==> x in g.den && x in g'.den && g'.den[x] == g.den[x]
  }

  // What freeing cells leaves as it was
  ghost predicate Shrunk<T(!new)>(g: Graph<T>, g': Graph<T>) {
    && g'.owner == g.owner && SameDen(g, g')
    && g'.cells.Keys <= g.cells.Keys
    && (forall x :: x in g'.cells ==> g'.cells[x] == g.cells[x])
  }

  lemma ShrunkTrans<T(!new)>(g0: Graph<T>, g1: Graph<T>, g2: Graph<T>)
    requires Shrunk(g0, g1) && Shrunk(g1, g2)
    ensures Shrunk(g0, g2)
  {
  }

  lemma {:induction false} FreeStep<T(!new)>(g: Graph<T>, c: Ptr) returns (g': Graph<T>)
    requires Inv(g) && c in g.cells && g.count[c] == 0
    ensures Inv(g') && Shrunk(g, g')
    ensures g'.cells == g.cells - {c}
    ensures g.cells[c].RootOf? || g.cells[c].next in g'.cells
    ensures forall x :: x in g'.cells ==>
      g'.count[x] == g.count[x] - if PointsTo(g.cells[c], x) then 1 else 0
  {
    assert Local(g, c);
    FreeInv(g, c);
    g' := Free(g, c);
  }

  lemma {:induction false} RotateStep<T(!new)>(g: Graph<T>, p: Ptr, c: Ptr) returns (g': Graph<T>)
    requires Inv(g) && p in g.cells && c in g.cells
    requires PointsTo(g.cells[p], c) && g.cells[c].RootOf?
    ensures Inv(g') && g'.owner == g.owner && g'.den == g.den && p != c
    ensures Applies(g.cells[p], g.cells[c].vals)
    ensures var vs := g.cells[c].vals;
      g'.cells == g.cells[c := Back(g.cells[p], p, vs)][p := RootOf(Diff(g.cells[p], vs))]
    ensures g'.count == g.count[p := g.count[p] + 1][c := g.count[c] - 1]
  {
    assert Local(g, p) && Local(g, c);
    RotateInv(g, p, c);
    g' := Rotate(g, p, c);
  }

  lemma AddRootStep<T(!new)>(g: Graph<T>, n: Ptr, vs: seq<T>) returns (g': Graph<T>)
    requires Inv(g) && n !in g.cells
    ensures Inv(g') && g'.owner == g.owner && SameDen(g, g')
    ensures g'.cells == g.cells[n := RootOf(vs)] && g'.den == g.den[n := vs]
    ensures g'.count == g.count[n := 0]
  {
    AddRootInv(g, n, vs);
    g' := AddRoot(g, n, vs);
  }

  lemma {:induction false} OverwriteStep<T(!new)>(g: Graph<T>, c: Ptr, vs: seq<T>) returns (g': Graph<T>)
    requires Inv(g) && c in g.cells && g.cells[c].RootOf? && Preds(g, c) == {}
    ensures Inv(g') && g'.owner == g.owner && g'.count == g.count
    ensures g'.cells == g.cells[c := RootOf(vs)] && g'.den == g.den[c := vs]
    ensures Preds(g', c) == {}
  {
    OverwriteInv(g, c, vs);
    g' := Overwrite(g, c, vs);
    assert !PointsTo(g'.cells[c], c);
    forall y | y in g'.cells ensures !PointsTo(g'.cells[y], c) {
      assert y !in Preds(g, c);
    }
  }

  lemma {:induction false} DemoteStep<T(!new)>(g: Graph<T>, c: Ptr, r: Rec<T>) returns (g': Graph<T>)
    requires Inv(g) && c in g.cells && !r.RootOf? && r.next in g.cells && r.next != c
    requires g.cells[c].RootOf? && g.cells[r.next].RootOf? && Applies(r, g.cells[r.next].vals)
    requires g.cells[c].vals == Diff(r, g.cells[r.next].vals)
    ensures Inv(g') && g'.owner == g.owner && g'.den == g.den
    ensures g'.cells == g.cells[c := r]
    ensures g'.count == g.count[r.next := g.count[r.next] + 1]
  {
    hide Exact;
    assert Local(g, c) && Local(g, r.next);
    DemoteInv(g, c, r);
    g' := Demote(g, c, r);
  }

  lemma {:induction false} RelinkStep<T(!new)>(g: Graph<T>, b: Ptr, n: Ptr) returns (g': Graph<T>)
    requires Inv(g) && b in g.cells && n in g.cells && !g.cells[b].RootOf? && g.cells[b].next != n
    requires g.cells[n].RootOf? && g.count[n] == 0
    requires g.cells[b].next in g.cells && g.den[n] == g.den[g.cells[b].next]
    ensures Inv(g') && g'.owner == g.owner && g'.den == g.den
    ensures g'.cells == g.cells[b := g.cells[b].(next := n)]
    ensures g'.count == g.count[g.cells[b].next := g.count[g.cells[b].next] - 1][n := 1]
  {
    hide Exact;
    assert Local(g, b) && Local(g, n);
    var g0 := LowerRank(g, n);
    assert Local(g0, b) && Local(g0, n);
    RelinkInv(g0, b, n);
    g' := Relink(g0, b, n);
  }

  // A Root nobody points to can be ranked lowest
  lemma {:induction false} LowerRank<T(!new)>(g: Graph<T>, n: Ptr) returns (g': Graph<T>)
    requires Inv(g) && n in g.cells && g.cells[n].RootOf?
    ensures Inv(g') && g' == g.(rank := g.rank[n := 0])
  {
    g' := g.(rank := g.rank[n := 0]);
    assert Sound(g') by {
      forall x | x in g'.cells ensures Local(g', x) {
        assert Local(g, x);
      }
      forall h | h in g'.owner ensures Owned(g', h) {
        assert Owned(g, h);
      }
    }
    forall x | x in g'.cells ensures CountOk(g', x) {
      assert CountOk(g, x);
      LowerRankCount(g, n, x);
    }
  }

  lemma LowerRankCount<T(!new)>(g: Graph<T>, n: Ptr, x: Ptr)
    ensures Count(g.(rank := g.rank[n := 0]), x) == Count(g, x)
  {
    var g' := g.(rank := g.rank[n := 0]);
    assert Preds(g', x) == Preds(g, x);
    assert Owners(g', x) == Owners(g, x);
  }

  lemma {:induction false} OwnStep<T(!new)>(g: Graph<T>, h: Var, x: Ptr) returns (g': Graph<T>)
    requires Inv(g) && x in g.cells && h !in g.owner
    ensures Inv(g') && g'.owner == g.owner[h := x] && g'.cells == g.cells && g'.den == g.den
    ensures g'.count == g.count[x := g.count[x] + 1]
  {
    OwnInv(g, h, x);
    g' := Own(g, h, x);
  }

  lemma {:induction false} DisownStep<T(!new)>(g: Graph<T>, h: Var) returns (g': Graph<T>)
    requires Inv(g) && h in g.owner
    ensures g.owner[h] in g.cells
    ensures Inv(g') && g'.owner == g.owner - {h} && g'.cells == g.cells && g'.den == g.den
    ensures g'.count == g.count[g.owner[h] := g.count[g.owner[h]] - 1]
  {
    assert Owned(g, h);
    DisownInv(g, h);
    g' := Disown(g, h);
  }

  lemma {:induction false} MoveOwnerStep<T(!new)>(g: Graph<T>, h: Var, n: Ptr) returns (g': Graph<T>)
    requires Inv(g) && h in g.owner && n in g.cells && g.owner[h] != n
    ensures Inv(g') && g'.owner == g.owner[h := n] && g'.cells == g.cells && g'.den == g.den
    ensures g.owner[h] in g.cells
    ensures g'.count == g.count[n := g.count[n] + 1][g.owner[h] := g.count[g.owner[h]] - 1]
  {
    var g1 := DisownStep(g, h);
    g' := OwnStep(g1, h, n);
    assert (g.owner - {h})[h := n] == g.owner[h := n];
  }

  lemma {:induction false} AddDemoteStep<T(!new)>(g: Graph<T>, c: Ptr, r: Rec<T>, vs: seq<T>) returns (g': Graph<T>)
    requires Inv(g) && c in g.cells && g.cells[c].RootOf? && !r.RootOf? && r.next !in g.cells
    requires Applies(r, vs) && g.cells[c].vals == Diff(r, vs)
    ensures Inv(g') && g'.owner == g.owner
    ensures g'.cells == g.cells[r.next := RootOf(vs)][c := r] && g'.den == g.den[r.next := vs]
    ensures g'.count == g.count[r.next := 1]
  {
    hide Inv;
    var g1 := AddRootStep(g, r.next, vs);
    g' := DemoteStep(g1, c, r);
  }

  // A handle gives up the Root c for a new Root n; c stays as a diff against n
  lemma {:induction false} SpawnStep<T(!new)>(g: Graph<T>, h: Var, c: Ptr, r: Rec<T>, vs: seq<T>) returns (g': Graph<T>)
    requires Inv(g) && h in g.owner && g.owner[h] == c && c in g.cells && g.cells[c].RootOf?
    requires !r.RootOf? && r.next !in g.cells
    requires Applies(r, vs) && g.cells[c].vals == Diff(r, vs)
    ensures Inv(g') && g'.owner == g.owner[h := r.next]
    ensures g'.cells == g.cells[r.next := RootOf(vs)][c := r] && g'.den == g.den[r.next := vs]
    ensures g'.count == g.count[r.next := 2][c := g.count[c] - 1]
  {
    hide Inv;
    var g1 := AddDemoteStep(g, c, r, vs);
    g' := MoveOwnerStep(g1, h, r.next);
  }
}

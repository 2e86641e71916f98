/** The memory that holds a graph of versions: cells and raw arrays at addresses, as
  * src/library/parray.h lays them out, and what each write to it does to the graph.
  */
module VersionMemory {
  import opened VersionGraph

  datatype Kind = Set | PushBack | PopBack | Root

  // m_values and m_elem share one union
  datatype Payload<T(!new)> = Values(vs: Ptr) | Elem(e: T) | Nothing

  // num is m_idx, or m_size in a Root: one union too
  datatype Cell<T(!new)> = Cell(rc: nat, kind: Kind, num: nat, next: Ptr, payload: Payload<T>)

  // A raw array: elems are the constructed elements, the rest of the capacity is raw
  datatype Block<T(!new)> = Block(capacity: nat, elems: seq<T>)

  type Cells<T(!new)> = map<Ptr, Cell<T>>
  type Blocks<T(!new)> = map<Ptr, Block<T>>

  function Capacity<T(!new)>(blocks: Blocks<T>, a: Ptr): nat {
    if a in blocks then blocks[a].capacity else 0
  }

  function Elems<T(!new)>(blocks: Blocks<T>, a: Ptr): seq<T> {
    if a in blocks then blocks[a].elems else []
  }

  // ----- what the memory has to look like -----

  // The raw array a belongs to x and holds vs; the null array has no capacity
  ghost predicate HoldsValues<T(!new)>(blocks: Blocks<T>, home: map<Ptr, Ptr>, x: Ptr, a: Ptr, vs: seq<T>) {
    && Elems(blocks, a) == vs && |vs| <= Capacity(blocks, a)
    && (a in blocks ==> a in home && home[a] == x)
    && (a !in blocks ==> a == NULL)
  }

  // The cell c at x holds what the record r says; home[a] is the Root that owns the array a
  ghost predicate Matches<T(!new)>(blocks: Blocks<T>, home: map<Ptr, Ptr>, x: Ptr, c: Cell<T>, r: Rec<T>) {
    match r
    case RootOf(vs) =>
      && c.kind == Root && c.next == NULL && c.payload.Values?
      && c.num == |vs| && HoldsValues(blocks, home, x, c.payload.vs, vs)
    case SetOf(n, i, e) => c.kind == Set && c.next == n && c.num == i && c.payload == Elem(e)
    case PushOf(n, e) => c.kind == PushBack && c.next == n && c.payload == Elem(e)
    case PopOf(n) => c.kind == PopBack && c.next == n && c.payload == Nothing
  }

  // Every allocated cell but `hole`, which is being rewritten, holds what the graph says
  ghost predicate Coupled<T(!new)>(cells: Cells<T>, blocks: Blocks<T>, home: map<Ptr, Ptr>, g: Graph<T>, hole: Ptr) {
    && cells.Keys == g.cells.Keys && NULL !in cells && NULL !in blocks
    && (forall x :: x in g.cells && x != hole ==> Matches(blocks, home, x, cells[x], g.cells[x]))
  }

  // Every raw array belongs to a Root, or to `hole`
  ghost predicate Housed<T(!new)>(cells: Cells<T>, blocks: Blocks<T>, home: map<Ptr, Ptr>, hole: Ptr) {
    forall b {:trigger HousedAt(cells, home, b, hole)} :: b in blocks ==> HousedAt(cells, home, b, hole)
  }

  ghost predicate HousedAt<T(!new)>(cells: Cells<T>, home: map<Ptr, Ptr>, b: Ptr, hole: Ptr) {
    && b in home
    && if home[b] == hole then hole != NULL
       else home[b] in cells && cells[home[b]].kind == Root && cells[home[b]].payload == Values(b)
  }

  ghost predicate Sane<T(!new)>(cells: Cells<T>, blocks: Blocks<T>, home: map<Ptr, Ptr>, g: Graph<T>) {
    Inv(g) && Coupled(cells, blocks, home, g, NULL) && Housed(cells, blocks, home, NULL)
  }

  // Exact and positive counts, up to one too many at `plus` and one too few at `minus`
  ghost predicate Counted<T(!new)>(cells: Cells<T>, g: Graph<T>, plus: Ptr, minus: Ptr) {
    forall x {:trigger cells[x]} {:trigger g.count[x]} :: x in cells && x in g.count ==>
      && cells[x].rc > 0
      && cells[x].rc + (if x == minus then 1 else 0) == g.count[x] + (if x == plus then 1 else 0)
  }

  // Nobody refers to c; all other counts are exact
  ghost predicate Unreferenced<T(!new)>(cells: Cells<T>, g: Graph<T>, c: Ptr) {
    && c in cells && c in g.count && g.count[c] == 0
    && (forall x {:trigger cells[x]} {:trigger g.count[x]} :: x in cells && x in g.count && x != c ==>
          cells[x].rc > 0 && cells[x].rc == g.count[x])
  }

  // While a path is being reverted c plays the Root, with the values in the array vs,
  // although its own fields are still those of a diff
  ghost predicate Reverting<T(!new)>(cells: Cells<T>, blocks: Blocks<T>, home: map<Ptr, Ptr>, g: Graph<T>, c: Ptr,
                              vs: Ptr)
  {
    && Inv(g) && Coupled(cells, blocks, home, g, c)
    && c in g.cells && g.cells[c].RootOf?
    && HoldsValues(blocks, home, c, vs, g.cells[c].vals)
    && (cells[c].payload.Elem? <==> cells[c].kind == Set || cells[c].kind == PushBack)
    && Housed(cells, blocks, home, c) && OnlyArray(blocks, home, c, vs)
  }

  // x has no other array than a
  ghost predicate OnlyArray<T(!new)>(blocks: Blocks<T>, home: map<Ptr, Ptr>, x: Ptr, a: Ptr) {
    forall b :: b in blocks && b in home && home[b] == x ==> b == a
  }

  // Arrays other than a are untouched; a may have been moved to a'
  ghost predicate KeptBut<T(!new)>(blocks: Blocks<T>, home: map<Ptr, Ptr>, blocks': Blocks<T>, home': map<Ptr, Ptr>,
                                   a: Ptr, a': Ptr)
  {
    && NULL !in blocks'
    && (forall b :: b in blocks' && b != a' ==> b in blocks && b != a)
    && (forall b :: b in blocks && b != a ==> b in blocks' && blocks'[b] == blocks[b])
    && (forall b :: b in home && b in blocks && b != a ==> b in home' && home'[b] == home[b])
  }

  // The array a is overwritten where it is, or is new, and belongs to y
  lemma BlockSet<T(!new)>(blocks: Blocks<T>, home: map<Ptr, Ptr>, a: Ptr, b: Block<T>, y: Ptr)
    requires NULL !in blocks && a != NULL && |b.elems| <= b.capacity
    ensures HoldsValues(blocks[a := b], home[a := y], y, a, b.elems)
    ensures KeptBut(blocks, home, blocks[a := b], home[a := y], a, a)
  {
  }

  // Cells keep what they hold
  ghost predicate SameHolding<T(!new)>(cells: Cells<T>, cells': Cells<T>, x: Ptr) {
    x in cells ==> x in cells' && cells'[x].kind == cells[x].kind && cells'[x].payload == cells[x].payload
  }

  lemma SameHoused<T(!new)>(cells: Cells<T>, blocks: Blocks<T>, home: map<Ptr, Ptr>, cells': Cells<T>)
    requires Housed(cells, blocks, home, NULL) && forall x :: SameHolding(cells, cells', x)
    ensures Housed(cells', blocks, home, NULL)
  {
    forall b | b in blocks ensures HousedAt(cells', home, b, NULL) {
      assert HousedAt(cells, home, b, NULL) && SameHolding(cells, cells', home[b]);
    }
  }

  // The array a, of the cell x, moves to the cell y as a'; x is the old hole, or loses a, and
  // every other Root keeps its array
  lemma HousedMoved<T(!new)>(cells: Cells<T>, blocks: Blocks<T>, home: map<Ptr, Ptr>, hole: Ptr, a: Ptr,
                             cells': Cells<T>, blocks': Blocks<T>, home': map<Ptr, Ptr>, hole': Ptr, a': Ptr)
    requires Housed(cells, blocks, home, hole) && KeptBut(blocks, home, blocks', home', a, a')
    requires forall b :: b in blocks && b in home && b != a ==>
      home[b] != hole && home[b] != hole' && SameHolding(cells, cells', home[b])
    requires a' in blocks' ==> HousedAt(cells', home', a', hole')
    ensures Housed(cells', blocks', home', hole')
  {
    forall b | b in blocks' ensures HousedAt(cells', home', b, hole') {
      if b != a' {
        assert HousedAt(cells, home, b, hole);
        assert SameHolding(cells, cells', home[b]);
      }
    }
  }

  lemma CellKind<T(!new)>(cells: Cells<T>, blocks: Blocks<T>, home: map<Ptr, Ptr>, g: Graph<T>, x: Ptr)
    requires Coupled(cells, blocks, home, g, NULL) && x in cells
    ensures x in g.cells && (cells[x].kind == Root <==> g.cells[x].RootOf?)
    ensures cells[x].kind == Root ==>
      && cells[x].payload.Values? && HoldsValues(blocks, home, x, cells[x].payload.vs, g.cells[x].vals)
      && cells[x].num == |g.cells[x].vals|
    ensures cells[x].kind != Root ==> g.cells[x].next == cells[x].next
  {
    assert Matches(blocks, home, x, cells[x], g.cells[x]);
  }

  // The same, without saying what the memory as a whole looks like
  lemma {:induction false} SaneCell<T(!new)>(cells: Cells<T>, blocks: Blocks<T>, home: map<Ptr, Ptr>, g: Graph<T>,
                                             x: Ptr)
    requires Sane(cells, blocks, home, g) && x in cells
    ensures x in g.cells && x in g.den && x in g.rank && x in g.count && (cells[x].kind == Root <==> g.cells[x].RootOf?)
    ensures cells[x].kind == Root ==>
      && cells[x].payload.Values? && HoldsValues(blocks, home, x, cells[x].payload.vs, g.den[x])
      && cells[x].num == |g.den[x]| && g.cells[x].vals == g.den[x]
    ensures cells[x].kind != Root ==>
      g.cells[x].next == cells[x].next && cells[x].next in cells && cells[x].next in g.cells && cells[x].next in g.den
  {
    CellKind(cells, blocks, home, g, x);
    assert Local(g, x);
  }

  lemma SaneKeys<T(!new)>(cells: Cells<T>, blocks: Blocks<T>, home: map<Ptr, Ptr>, g: Graph<T>)
    requires Sane(cells, blocks, home, g)
    ensures Inv(g) && cells.Keys == g.cells.Keys == g.den.Keys == g.count.Keys && NULL !in cells && NULL !in blocks
  {
  }

  lemma OwnedCell<T(!new)>(cells: Cells<T>, blocks: Blocks<T>, home: map<Ptr, Ptr>, g: Graph<T>, h: Var)
    requires Sane(cells, blocks, home, g) && h in g.owner
    ensures g.owner[h] in cells && g.owner[h] in g.cells && g.owner[h] in g.den && g.owner[h] in g.count
    ensures cells[g.owner[h]].kind == Root <==> g.cells[g.owner[h]].RootOf?
  {
    assert Owned(g, h);
    CellKind(cells, blocks, home, g, g.owner[h]);
  }

  lemma {:induction false} NextCell<T(!new)>(cells: Cells<T>, blocks: Blocks<T>, home: map<Ptr, Ptr>, g: Graph<T>,
                                             x: Ptr)
    requires Sane(cells, blocks, home, g) && x in cells && cells[x].kind != Root
    ensures cells[x].next in cells && x in g.cells && PointsTo(g.cells[x], cells[x].next)
    ensures x in g.rank && cells[x].next in g.rank && g.rank[cells[x].next] < g.rank[x]
  {
    CellKind(cells, blocks, home, g, x);
    assert Local(g, x);
  }

  // x is a Root nobody points to; its array was rewritten, and nothing else
  ghost predicate Edited<T(!new)>(cells: Cells<T>, g: Graph<T>, cells': Cells<T>, g': Graph<T>, x: Ptr, vs: seq<T>) {
    && x in cells && x in cells' && cells' == cells[x := cells'[x]]
    && cells'[x].rc == cells[x].rc && cells'[x].kind == Root && cells'[x].num == |vs|
    && Preds(g', x) == {}
    && g'.owner == g.owner && g'.count == g.count
    && g'.cells == g.cells[x := RootOf(vs)] && g'.den == g.den[x := vs]
  }

  lemma EditedCounted<T(!new)>(cells: Cells<T>, g: Graph<T>, cells': Cells<T>, g': Graph<T>, x: Ptr, vs: seq<T>)
    requires Edited(cells, g, cells', g', x, vs)
    ensures Counted(cells, g, NULL, NULL) ==> Counted(cells', g', NULL, NULL)
    ensures Unreferenced(cells, g, x) ==> Unreferenced(cells', g', x)
  {
  }

  // r is a new Root nobody refers to yet, with the values xs; all else is as in cells and g
  ghost predicate Copied<T(!new)>(cells: Cells<T>, g: Graph<T>, cells': Cells<T>, g': Graph<T>, r: Ptr, xs: seq<T>) {
    && r !in cells && r in cells' && cells' == cells[r := cells'[r]]
    && cells'[r].rc == 0 && cells'[r].kind == Root && Preds(g', r) == {}
    && g'.owner == g.owner && g'.count == g.count[r := 0]
    && g'.cells == g.cells[r := RootOf(xs)] && g'.den == g.den[r := xs]
  }

  lemma CopiedEdited<T(!new)>(cells: Cells<T>, g: Graph<T>, cells1: Cells<T>, g1: Graph<T>, r: Ptr, xs: seq<T>,
                              cells2: Cells<T>, g2: Graph<T>, ys: seq<T>)
    requires Copied(cells, g, cells1, g1, r, xs) && Edited(cells1, g1, cells2, g2, r, ys)
    ensures Copied(cells, g, cells2, g2, r, ys)
  {
    hide Preds;
    assert cells2 == cells[r := cells2[r]];
  }

  lemma CopiedUnreferenced<T(!new)>(cells: Cells<T>, g: Graph<T>, cells': Cells<T>, g': Graph<T>, r: Ptr, xs: seq<T>)
    requires Counted(cells, g, NULL, NULL) && NULL !in cells && Copied(cells, g, cells', g', r, xs)
    ensures Unreferenced(cells', g', r)
  {
  }

  // What a diff cell denotes, by its own fields
  lemma {:induction false} CellDiff<T(!new)>(cells: Cells<T>, blocks: Blocks<T>, home: map<Ptr, Ptr>, g: Graph<T>,
                                             p: Ptr)
    requires Sane(cells, blocks, home, g) && p in cells && cells[p].kind != Root
    ensures cells[p].next in g.den && p in g.den
    ensures var d := g.den[cells[p].next];
      match cells[p].kind
      case Set => cells[p].payload.Elem? && cells[p].num < |d| && g.den[p] == d[cells[p].num := cells[p].payload.e]
      case PushBack => cells[p].payload.Elem? && g.den[p] == d + [cells[p].payload.e]
      case PopBack => |d| > 0 && g.den[p] == d[..|d| - 1]
      case Root => false
  {
    assert Matches(blocks, home, p, cells[p], g.cells[p]);
    assert Local(g, p);
  }

  // A cell that does not own the array a is not affected by changes to it
  lemma MatchesKept<T(!new)>(blocks: Blocks<T>, home: map<Ptr, Ptr>, blocks': Blocks<T>, home': map<Ptr, Ptr>, a: Ptr,
                             a': Ptr, x: Ptr, c: Cell<T>, r: Rec<T>)
    requires Matches(blocks, home, x, c, r) && KeptBut(blocks, home, blocks', home', a, a')
    requires a in blocks ==> a in home && home[a] != x
    ensures Matches(blocks', home', x, c, r)
  {
  }

  // ----- what the writes do -----

  lemma {:induction false} DropRef<T(!new)>(cells: Cells<T>, blocks: Blocks<T>, home: map<Ptr, Ptr>, g: Graph<T>,
                                            n: Ptr)
    requires Sane(cells, blocks, home, g) && n in cells && Counted(cells, g, n, NULL)
    ensures cells[n].rc > 0
    ensures var cells' := cells[n := cells[n].(rc := cells[n].rc - 1)];
      && Sane(cells', blocks, home, g)
      && (cells'[n].rc == 0 ==> Unreferenced(cells', g, n))
      && (cells'[n].rc > 0 ==> Counted(cells', g, NULL, NULL))
  {
    hide Inv, Coupled, Housed;
    SaneKeys(cells, blocks, home, g);
    assert cells[n].rc > 0;
    var cells' := cells[n := cells[n].(rc := cells[n].rc - 1)];
    assert forall x :: x in cells && x != n ==> cells'[x] == cells[x];
    SetRcCoupled(cells, blocks, home, g, n, cells[n].rc - 1);
    SameHoused(cells, blocks, home, cells');
  }

  lemma {:induction false} FreeCellOk<T(!new)>(cells: Cells<T>, blocks: Blocks<T>, home: map<Ptr, Ptr>, g: Graph<T>,
                                               c: Ptr, blocks': Blocks<T>)
    returns (g': Graph<T>)
    requires Sane(cells, blocks, home, g) && Unreferenced(cells, g, c)
    requires blocks' == if cells[c].kind == Root then blocks - {cells[c].payload.vs} else blocks
    ensures Sane(cells - {c}, blocks', home, g') && Shrunk(g, g')
    ensures cells[c].next == NULL || cells[c].next in cells - {c}
    ensures Counted(cells - {c}, g', cells[c].next, NULL)
  {
    assert Matches(blocks, home, c, cells[c], g.cells[c]);
    g' := FreeStep(g, c);
    FreeCellCoupled(cells, blocks, home, g, c, blocks', g');
    FreeCellHoused(cells, blocks, home, c, blocks');
    FreeCellCounted(cells, g, c, g');
  }

  lemma FreeCellCoupled<T(!new)>(cells: Cells<T>, blocks: Blocks<T>, home: map<Ptr, Ptr>, g: Graph<T>, c: Ptr,
                                 blocks': Blocks<T>, g': Graph<T>)
    requires Coupled(cells, blocks, home, g, NULL) && c in cells
    requires blocks' == if cells[c].kind == Root then blocks - {cells[c].payload.vs} else blocks
    requires g'.cells == g.cells - {c}
    ensures Coupled(cells - {c}, blocks', home, g', NULL)
  {
    assert Matches(blocks, home, c, cells[c], g.cells[c]);
    forall x | x in g'.cells ensures Matches(blocks', home, x, cells[x], g'.cells[x]) {
      assert Matches(blocks, home, x, cells[x], g.cells[x]);
    }
  }

  lemma FreeCellHoused<T(!new)>(cells: Cells<T>, blocks: Blocks<T>, home: map<Ptr, Ptr>, c: Ptr, blocks': Blocks<T>)
    requires Housed(cells, blocks, home, NULL) && c in cells && (cells[c].kind == Root ==> cells[c].payload.Values?)
    requires blocks' == if cells[c].kind == Root then blocks - {cells[c].payload.vs} else blocks
    ensures Housed(cells - {c}, blocks', home, NULL)
  {
    forall b | b in blocks' ensures HousedAt(cells - {c}, home, b, NULL) {
      assert HousedAt(cells, home, b, NULL);
    }
  }

  lemma FreeCellCounted<T(!new)>(cells: Cells<T>, g: Graph<T>, c: Ptr, g': Graph<T>)
    requires Unreferenced(cells, g, c) && c in g.cells && NULL !in cells
    requires g'.count.Keys <= g.count.Keys
    requires forall x :: x in g'.count ==>
      g'.count[x] == g.count[x] - if PointsTo(g.cells[c], x) then 1 else 0
    requires forall x :: x in cells ==> (PointsTo(g.cells[c], x) <==> x == cells[c].next)
    ensures Counted(cells - {c}, g', cells[c].next, NULL)
  {
  }

  // What is known of the link p -> c that is about to be reverted
  lemma LinkParts<T(!new)>(cells: Cells<T>, blocks: Blocks<T>, home: map<Ptr, Ptr>, g: Graph<T>, p: Ptr, c: Ptr,
                           vs: Ptr)
    requires Reverting(cells, blocks, home, g, c, vs) && p in g.cells && PointsTo(g.cells[p], c)
    ensures p != c && p in cells && c in cells && p in g.count && c in g.count
    ensures Matches(blocks, home, p, cells[p], g.cells[p])
    ensures NULL !in blocks && HoldsValues(blocks, home, c, vs, g.cells[c].vals)
  {
  }

  // One link p -> c reverted: c now leads back to p, and p plays the Root with array vs'
  lemma {:induction false} RevertOk<T(!new)>(cells: Cells<T>, blocks: Blocks<T>, home: map<Ptr, Ptr>, g: Graph<T>,
                                             p: Ptr, c: Ptr, vs: Ptr, cells': Cells<T>, blocks': Blocks<T>,
                                             home': map<Ptr, Ptr>, g': Graph<T>, vs': Ptr)
    requires Reverting(cells, blocks, home, g, c, vs) && p in g.cells && p != c && !g.cells[p].RootOf?
    requires Inv(g') && g'.cells.Keys == g.cells.Keys && g'.cells[p].RootOf?
    requires forall x :: x in g.cells && x != c && x != p ==> g'.cells[x] == g.cells[x]
    requires c in cells' && cells' == cells[c := cells'[c]]
    requires Matches(blocks', home', c, cells'[c], g'.cells[c])
    requires HoldsValues(blocks', home', p, vs', g'.cells[p].vals) && KeptBut(blocks, home, blocks', home', vs, vs')
    ensures Reverting(cells', blocks', home', g', p, vs')
  {
    assert Matches(blocks, home, p, cells[p], g.cells[p]);
    RevertCoupled(cells, blocks, home, g, p, c, vs, cells', blocks', home', g', vs');
    RevertHoused(cells, blocks, home, p, c, vs, cells', blocks', home', vs');
  }

  lemma RevertCoupled<T(!new)>(cells: Cells<T>, blocks: Blocks<T>, home: map<Ptr, Ptr>, g: Graph<T>, p: Ptr, c: Ptr,
                               vs: Ptr, cells': Cells<T>, blocks': Blocks<T>, home': map<Ptr, Ptr>, g': Graph<T>,
                               vs': Ptr)
    requires Coupled(cells, blocks, home, g, c) && c in g.cells && p in g.cells && p != c
    requires vs in blocks ==> vs in home && home[vs] == c
    requires g'.cells.Keys == g.cells.Keys
    requires forall x :: x in g.cells && x != c && x != p ==> g'.cells[x] == g.cells[x]
    requires c in cells' && cells' == cells[c := cells'[c]]
    requires Matches(blocks', home', c, cells'[c], g'.cells[c]) && KeptBut(blocks, home, blocks', home', vs, vs')
    ensures Coupled(cells', blocks', home', g', p)
  {
    forall x | x in g'.cells && x != p ensures Matches(blocks', home', x, cells'[x], g'.cells[x]) {
      if x != c {
        MatchesKept(blocks, home, blocks', home', vs, vs', x, cells[x], g.cells[x]);
      }
    }
  }

  lemma RevertHoused<T(!new)>(cells: Cells<T>, blocks: Blocks<T>, home: map<Ptr, Ptr>, p: Ptr, c: Ptr, vs: Ptr,
                              cells': Cells<T>, blocks': Blocks<T>, home': map<Ptr, Ptr>, vs': Ptr)
    requires Housed(cells, blocks, home, c) && OnlyArray(blocks, home, c, vs) && p in cells && cells[p].kind != Root
    requires c in cells' && cells' == cells[c := cells'[c]] && p != c && p != NULL
    requires KeptBut(blocks, home, blocks', home', vs, vs') && (vs' in blocks' ==> vs' in home' && home'[vs'] == p)
    ensures Housed(cells', blocks', home', p) && OnlyArray(blocks', home', p, vs')
  {
    forall b | b in blocks && b in home && b != vs ensures home[b] != c && home[b] != p {
      assert HousedAt(cells, home, b, c);
    }
    HousedMoved(cells, blocks, home, c, vs, cells', blocks', home', p, vs');
    forall b | b in blocks' && b in home' && home'[b] == p ensures b == vs' {
      assert b in blocks ==> HousedAt(cells, home, b, c);
    }
  }

  lemma RevertCounted<T(!new)>(cells: Cells<T>, g: Graph<T>, p: Ptr, c: Ptr, cells': Cells<T>, g': Graph<T>, last: Ptr)
    requires Counted(cells, g, last, c) && p != c && p in g.count && c in g.count
    requires c in cells && c in cells' && cells' == cells[c := cells'[c]] && cells'[c].rc == cells[c].rc
    requires g'.count == g.count[p := g.count[p] + 1][c := g.count[c] - 1]
    ensures Counted(cells', g', last, p)
  {
  }

  lemma {:induction false} StartRevert<T(!new)>(cells: Cells<T>, blocks: Blocks<T>, home: map<Ptr, Ptr>, g: Graph<T>,
                                                c: Ptr)
    requires Sane(cells, blocks, home, g) && Counted(cells, g, NULL, NULL) && c in cells && cells[c].kind == Root
    ensures cells[c].payload.Values? && Reverting(cells, blocks, home, g, c, cells[c].payload.vs)
    ensures cells[c].num == |g.cells[c].vals| && Counted(cells, g, c, c)
  {
    CellKind(cells, blocks, home, g, c);
    forall b | b in blocks ensures HousedAt(cells, home, b, c) && (home[b] == c ==> b == cells[c].payload.vs) {
      assert HousedAt(cells, home, b, NULL);
    }
  }

  // The end of a reversal: r, which plays the Root, becomes one and takes the new reference
  lemma {:induction false} CloseRoot<T(!new)>(cells: Cells<T>, blocks: Blocks<T>, home: map<Ptr, Ptr>, g: Graph<T>,
                                              r: Ptr, vs: Ptr, last: Ptr)
    requires Reverting(cells, blocks, home, g, r, vs) && Counted(cells, g, last, r) && last != r
    ensures var cells' := cells[r := Cell(cells[r].rc + 1, Root, |g.cells[r].vals|, NULL, Values(vs))];
      Sane(cells', blocks, home, g) && Counted(cells', g, last, NULL)
  {
    hide Inv, HoldsValues;
    var cells' := cells[r := Cell(cells[r].rc + 1, Root, |g.cells[r].vals|, NULL, Values(vs))];
    forall x | x in g.cells ensures Matches(blocks, home, x, cells'[x], g.cells[x]) {
      assert x != r ==> Matches(blocks, home, x, cells[x], g.cells[x]);
    }
    forall b | b in blocks ensures HousedAt(cells', home, b, NULL) {
      assert HousedAt(cells, home, b, r);
    }
  }

  // A new Root n with its own array a; its count is still zero
  lemma {:induction false} AddRootOk<T(!new)>(cells: Cells<T>, blocks: Blocks<T>, home: map<Ptr, Ptr>, g: Graph<T>,
                                              n: Ptr, rc: nat, blocks': Blocks<T>, home': map<Ptr, Ptr>, a: Ptr,
                                              vs: seq<T>)
    returns (g': Graph<T>, cells': Cells<T>)
    requires Sane(cells, blocks, home, g) && n != NULL && n !in cells && a !in blocks
    requires HoldsValues(blocks', home', n, a, vs) && KeptBut(blocks, home, blocks', home', a, a)
    ensures Inv(g') && g'.owner == g.owner && g'.cells == g.cells[n := RootOf(vs)]
    ensures g'.den == g.den[n := vs] && g'.count == g.count[n := 0]
    ensures Preds(g', n) == {} && n !in g.cells
    ensures cells' == cells[n := Cell(rc, Root, |vs|, NULL, Values(a))]
    ensures Sane(cells', blocks', home', g')
  {
    hide Inv, Coupled, Housed, KeptBut;
    cells' := cells[n := Cell(rc, Root, |vs|, NULL, Values(a))];
    SaneKeys(cells, blocks, home, g);
    g' := AddRootStep(g, n, vs);
    AddRootCoupled(cells, blocks, home, g, n, rc, blocks', home', a, vs, g');
    AddRootHoused(cells, blocks, home, n, cells', blocks', home', a);
    NoPreds(g', n);
  }

  lemma AddRootHoused<T(!new)>(cells: Cells<T>, blocks: Blocks<T>, home: map<Ptr, Ptr>, n: Ptr, cells': Cells<T>,
                               blocks': Blocks<T>, home': map<Ptr, Ptr>, a: Ptr)
    requires Housed(cells, blocks, home, NULL) && a !in blocks && KeptBut(blocks, home, blocks', home', a, a)
    requires n != NULL && n !in cells && n in cells' && cells' == cells[n := cells'[n]]
    requires cells'[n].kind == Root && cells'[n].payload == Values(a)
    requires a in blocks' ==> a in home' && home'[a] == n
    ensures Housed(cells', blocks', home', NULL)
  {
    forall b | b in blocks && b in home ensures home[b] != NULL && SameHolding(cells, cells', home[b]) {
      assert HousedAt(cells, home, b, NULL);
    }
    HousedMoved(cells, blocks, home, NULL, a, cells', blocks', home', NULL, a);
  }

  lemma NoPreds<T(!new)>(g: Graph<T>, n: Ptr)
    requires Inv(g) && n in g.cells && n in g.count && g.count[n] == 0
    ensures Preds(g, n) == {}
  {
    assert CountOk(g, n);
  }

  lemma AddRootCoupled<T(!new)>(cells: Cells<T>, blocks: Blocks<T>, home: map<Ptr, Ptr>, g: Graph<T>, n: Ptr, rc: nat,
                                blocks': Blocks<T>, home': map<Ptr, Ptr>, a: Ptr, vs: seq<T>, g': Graph<T>)
    requires Coupled(cells, blocks, home, g, NULL) && n != NULL && n !in cells && a !in blocks
    requires HoldsValues(blocks', home', n, a, vs) && KeptBut(blocks, home, blocks', home', a, a)
    requires g'.cells == g.cells[n := RootOf(vs)]
    ensures Coupled(cells[n := Cell(rc, Root, |vs|, NULL, Values(a))], blocks', home', g', NULL)
  {
    var cells' := cells[n := Cell(rc, Root, |vs|, NULL, Values(a))];
    forall x | x in g'.cells ensures Matches(blocks', home', x, cells'[x], g'.cells[x]) {
      if x != n {
        MatchesKept(blocks, home, blocks', home', a, a, x, cells[x], g.cells[x]);
      }
    }
  }

  // A Root nobody points to is overwritten in place
  lemma {:induction false} RewriteRootOk<T(!new)>(cells: Cells<T>, blocks: Blocks<T>, home: map<Ptr, Ptr>, g: Graph<T>,
                                                  x: Ptr, blocks': Blocks<T>, home': map<Ptr, Ptr>, a: Ptr, vs: seq<T>)
    returns (g': Graph<T>, cells': Cells<T>)
    requires Sane(cells, blocks, home, g) && x in cells && cells[x].kind == Root && Preds(g, x) == {}
    requires cells[x].payload.Values? && KeptBut(blocks, home, blocks', home', cells[x].payload.vs, a)
    requires HoldsValues(blocks', home', x, a, vs)
    ensures Inv(g') && g'.owner == g.owner && g'.count == g.count && Preds(g', x) == {}
    ensures g'.cells == g.cells[x := RootOf(vs)] && g'.den == g.den[x := vs]
    ensures cells' == cells[x := cells[x].(num := |vs|, payload := Values(a))]
    ensures Sane(cells', blocks', home', g')
  {
    hide Inv, Coupled, Housed, KeptBut;
    cells' := cells[x := cells[x].(num := |vs|, payload := Values(a))];
    SaneCell(cells, blocks, home, g, x);
    SaneKeys(cells, blocks, home, g);
    g' := OverwriteStep(g, x, vs);
    RewriteRootCoupled(cells, blocks, home, g, x, blocks', home', a, vs, g');
    RootHoused(cells, blocks, home, x, cells', blocks', home', x, a);
  }

  // The array of the Root x goes to y, which is x itself or a new Root
  lemma RootHoused<T(!new)>(cells: Cells<T>, blocks: Blocks<T>, home: map<Ptr, Ptr>, x: Ptr, cells': Cells<T>,
                            blocks': Blocks<T>, home': map<Ptr, Ptr>, y: Ptr, a: Ptr)
    requires Housed(cells, blocks, home, NULL) && x in cells && cells[x].kind == Root && cells[x].payload.Values?
    requires x in cells' && y in cells' && y != NULL && cells' == cells[x := cells'[x]][y := cells'[y]]
    requires cells'[y].kind == Root && cells'[y].payload == Values(a) && (x == y || y !in cells)
    requires KeptBut(blocks, home, blocks', home', cells[x].payload.vs, a)
    requires a in blocks' ==> a in home' && home'[a] == y
    ensures Housed(cells', blocks', home', NULL)
  {
    forall b | b in blocks && b in home && b != cells[x].payload.vs
      ensures home[b] != NULL && SameHolding(cells, cells', home[b])
    {
      assert HousedAt(cells, home, b, NULL);
    }
    HousedMoved(cells, blocks, home, NULL, cells[x].payload.vs, cells', blocks', home', NULL, a);
  }

  lemma RewriteRootCoupled<T(!new)>(cells: Cells<T>, blocks: Blocks<T>, home: map<Ptr, Ptr>, g: Graph<T>, x: Ptr,
                                    blocks': Blocks<T>, home': map<Ptr, Ptr>, a: Ptr, vs: seq<T>, g': Graph<T>)
    requires Coupled(cells, blocks, home, g, NULL) && x in cells && cells[x].kind == Root
    requires cells[x].payload.Values? && KeptBut(blocks, home, blocks', home', cells[x].payload.vs, a)
    requires HoldsValues(blocks', home', x, a, vs) && g'.cells == g.cells[x := RootOf(vs)]
    ensures Coupled(cells[x := cells[x].(num := |vs|, payload := Values(a))], blocks', home', g', NULL)
  {
    assert Matches(blocks, home, x, cells[x], g.cells[x]);
    var cells' := cells[x := cells[x].(num := |vs|, payload := Values(a))];
    forall y | y in g'.cells ensures Matches(blocks', home', y, cells'[y], g'.cells[y]) {
      if y != x {
        MatchesKept(blocks, home, blocks', home', cells[x].payload.vs, a, y, cells[y], g.cells[y]);
      }
    }
  }

  // A handle h leaves the Root c, which becomes a diff, for the new Root n that takes c's array
  lemma {:induction false} SpawnOk<T(!new)>(cells: Cells<T>, blocks: Blocks<T>, home: map<Ptr, Ptr>, g: Graph<T>,
                                            h: Var, c: Ptr, d: Cell<T>, r: Rec<T>, blocks': Blocks<T>,
                                            home': map<Ptr, Ptr>, a: Ptr, vs: seq<T>)
    returns (g': Graph<T>, cells': Cells<T>)
    requires Sane(cells, blocks, home, g) && Counted(cells, g, NULL, NULL)
    requires h in g.owner && g.owner[h] == c && c in cells && cells[c].kind == Root && cells[c].payload.Values?
    requires !r.RootOf? && r.next !in cells && r.next != NULL && Applies(r, vs) && c in g.den && g.den[c] == Diff(r, vs)
    requires cells[c].rc > 1 && d.rc == cells[c].rc - 1 && Matches(blocks', home', c, d, r)
    requires KeptBut(blocks, home, blocks', home', cells[c].payload.vs, a) && HoldsValues(blocks', home', r.next, a, vs)
    ensures Inv(g') && g'.owner == g.owner[h := r.next] && g'.den == g.den[r.next := vs]
    ensures cells' == cells[c := d][r.next := Cell(2, Root, |vs|, NULL, Values(a))]
    ensures Sane(cells', blocks', home', g') && Counted(cells', g', NULL, NULL)
  {
    hide Inv, Coupled, Housed, KeptBut;
    cells' := cells[c := d][r.next := Cell(2, Root, |vs|, NULL, Values(a))];
    SaneCell(cells, blocks, home, g, c);
    SaneKeys(cells, blocks, home, g);
    g' := SpawnStep(g, h, c, r, vs);
    SpawnCoupled(cells, blocks, home, g, c, d, r, blocks', home', a, vs, g');
    RootHoused(cells, blocks, home, c, cells', blocks', home', r.next, a);
  }

  lemma {:induction false} SpawnCoupled<T(!new)>(cells: Cells<T>, blocks: Blocks<T>, home: map<Ptr, Ptr>, g: Graph<T>,
                                                 c: Ptr, d: Cell<T>, r: Rec<T>, blocks': Blocks<T>,
                                                 home': map<Ptr, Ptr>, a: Ptr, vs: seq<T>, g': Graph<T>)
    requires Coupled(cells, blocks, home, g, NULL)
    requires c in cells && cells[c].kind == Root && cells[c].payload.Values?
    requires !r.RootOf? && r.next !in cells && r.next != NULL && Matches(blocks', home', c, d, r)
    requires KeptBut(blocks, home, blocks', home', cells[c].payload.vs, a) && HoldsValues(blocks', home', r.next, a, vs)
    requires g'.cells == g.cells[r.next := RootOf(vs)][c := r]
    ensures Coupled(cells[c := d][r.next := Cell(2, Root, |vs|, NULL, Values(a))], blocks', home', g', NULL)
  {
    assert NULL !in blocks';
    hide KeptBut;
    assert Matches(blocks, home, c, cells[c], g.cells[c]);
    var n := r.next;
    var cells' := cells[c := d][n := Cell(2, Root, |vs|, NULL, Values(a))];
    forall x | x in g'.cells ensures Matches(blocks', home', x, cells'[x], g'.cells[x]) {
      if x != n && x != c {
        MatchesKept(blocks, home, blocks', home', cells[c].payload.vs, a, x, cells[x], g.cells[x]);
      }
    }
  }

  // The link of b is moved to the new Root n, whose count becomes one
  lemma {:induction false} RelinkOk<T(!new)>(cells: Cells<T>, blocks: Blocks<T>, home: map<Ptr, Ptr>, g: Graph<T>,
                                             b: Ptr, n: Ptr)
    returns (g': Graph<T>, cells': Cells<T>)
    requires Sane(cells, blocks, home, g) && Unreferenced(cells, g, n) && cells[n].rc == 0 && cells[n].kind == Root
    requires b in cells && b != n && cells[b].kind != Root && cells[b].next in g.den && n in g.den
    requires g.den[n] == g.den[cells[b].next]
    ensures Inv(g') && g'.owner == g.owner && g'.den == g.den
    ensures b in g.cells && !g.cells[b].RootOf? && g'.cells == g.cells[b := g.cells[b].(next := n)]
    ensures cells[b].next in cells && cells[b].next != n
    ensures cells' == cells[n := cells[n].(rc := 1)][b := cells[b].(next := n)]
    ensures Sane(cells', blocks, home, g') && Counted(cells', g', cells[b].next, NULL)
  {
    hide Inv, Coupled, Housed, Counted;
    cells' := cells[n := cells[n].(rc := 1)][b := cells[b].(next := n)];
    SaneCell(cells, blocks, home, g, b);
    SaneCell(cells, blocks, home, g, n);
    SaneKeys(cells, blocks, home, g);
    NotReferenced(g, b, n);
    g' := RelinkStep(g, b, n);
    RelinkCoupled(cells, blocks, home, g, b, n, g');
    RelinkCounted(cells, g, b, n, g');
    SameHoused(cells, blocks, home, cells');
  }

  lemma RelinkCoupled<T(!new)>(cells: Cells<T>, blocks: Blocks<T>, home: map<Ptr, Ptr>, g: Graph<T>, b: Ptr, n: Ptr,
                               g': Graph<T>)
    requires Coupled(cells, blocks, home, g, NULL) && b in cells && n in cells && b != n && !g.cells[b].RootOf?
    requires g'.cells == g.cells[b := g.cells[b].(next := n)]
    ensures Coupled(cells[n := cells[n].(rc := 1)][b := cells[b].(next := n)], blocks, home, g', NULL)
  {
    var cells' := cells[n := cells[n].(rc := 1)][b := cells[b].(next := n)];
    forall x | x in g'.cells ensures Matches(blocks, home, x, cells'[x], g'.cells[x]) {
      assert Matches(blocks, home, x, cells[x], g.cells[x]);
    }
  }

  lemma RelinkCounted<T(!new)>(cells: Cells<T>, g: Graph<T>, b: Ptr, n: Ptr, g': Graph<T>)
    requires Unreferenced(cells, g, n) && b in cells && b != n && cells[b].next in g.count && cells[b].next != n
    requires NULL !in cells
    requires g'.count == g.count[cells[b].next := g.count[cells[b].next] - 1][n := 1]
    ensures Counted(cells[n := cells[n].(rc := 1)][b := cells[b].(next := n)], g', cells[b].next, NULL)
  {
  }

  lemma NotReferenced<T(!new)>(g: Graph<T>, b: Ptr, n: Ptr)
    requires Inv(g) && b in g.cells && n in g.cells && g.count[n] == 0
    ensures !PointsTo(g.cells[b], n)
  {
    assert CountOk(g, n);
    assert b !in Preds(g, n);
  }

  // The cell before the middle of a path whose middle version has been copied to n
  lemma {:induction false} BeforeMiddle<T(!new)>(cells: Cells<T>, blocks: Blocks<T>, home: map<Ptr, Ptr>, g: Graph<T>,
                                                 cells0: Cells<T>, g0: Graph<T>, cs: seq<Ptr>, c: Ptr, mid: nat, n: Ptr)
    requires 0 < mid < |cs| && Path(g0.cells, cs, c) && cells0.Keys == g0.cells.Keys && cs[mid] in g0.den
    requires Sane(cells, blocks, home, g) && Copied(cells0, g0, cells, g, n, g0.den[cs[mid]])
    ensures cs[mid - 1] in cells && cs[mid - 1] != n && cells[cs[mid - 1]].kind != Root
    ensures cells[cs[mid - 1]].next in g.den && n in g.den && g.den[n] == g.den[cells[cs[mid - 1]].next]
  {
    assert LinkAt(g0.cells, cs, c, mid - 1) && LinkAt(g0.cells, cs, c, mid);
    CellKind(cells, blocks, home, g, cs[mid - 1]);
  }

  lemma HalfPath<T(!new)>(cells0: Cells<T>, g0: Graph<T>, cells: Cells<T>, g: Graph<T>, cs: seq<Ptr>, c: Ptr, mid: nat,
                          n: Ptr, vs: seq<T>, g': Graph<T>)
    requires 0 < mid < |cs| && Path(g0.cells, cs, c) && cells0.Keys == g0.cells.Keys
    requires Copied(cells0, g0, cells, g, n, vs)
    requires cs[mid - 1] in g.cells && !g.cells[cs[mid - 1]].RootOf?
    requires g'.cells == g.cells[cs[mid - 1] := g.cells[cs[mid - 1]].(next := n)]
    ensures n in g'.cells && Path(g'.cells, cs[..mid], n)
  {
    PathPrefix(g0.cells, cs, c, mid);
    PathRelink(g0.cells, cs[..mid], cs[mid], n, g'.cells);
  }

  // ----- what an operation of the holder h does to what the holders see -----

  // h now holds n, which denotes xs; nobody else sees a difference
  ghost predicate Acted<T(!new)>(g: Graph<T>, g': Graph<T>, h: Var, n: Ptr, xs: seq<T>) {
    && h in g.owner && g'.owner == g.owner[h := n] && Value(g', h) == xs
    && (forall k :: k in g.owner && k != h ==> Value(g', k) == Value(g, k))
  }

  lemma EditedActed<T(!new)>(cells: Cells<T>, g: Graph<T>, cells': Cells<T>, g': Graph<T>, h: Var, vs: seq<T>)
    requires Inv(g) && h in g.owner && g.owner[h] in g.count && g.count[g.owner[h]] == 1
    requires Edited(cells, g, cells', g', g.owner[h], vs)
    ensures Acted(g, g', h, g.owner[h], vs)
  {
    var x := g.owner[h];
    assert Owned(g, h);
    SoleOwner(g, h);
    assert g'.owner == g.owner[h := x];
    forall k | k in g.owner && k != h ensures Value(g', k) == Value(g, k) {
      assert k !in Owners(g, x);
    }
  }

  lemma SpawnedActed<T(!new)>(g: Graph<T>, g': Graph<T>, h: Var, n: Ptr, vs: seq<T>)
    requires Inv(g) && h in g.owner && n !in g.cells
    requires g'.owner == g.owner[h := n] && g'.den == g.den[n := vs]
    ensures Acted(g, g', h, n, vs)
  {
    forall k | k in g.owner && k != h ensures Value(g', k) == Value(g, k) {
      assert Owned(g, k);
    }
  }

  // What every handle sees
  ghost function Views<T(!new)>(g: Graph<T>): map<Var, seq<T>> {
    map h | h in g.owner :: Value(g, h)
  }

  lemma ActedViews<T(!new)>(g: Graph<T>, g': Graph<T>, h: Var, n: Ptr, xs: seq<T>)
    requires Acted(g, g', h, n, xs)
    ensures Views(g') == Views(g)[h := xs]
  {
  }

  lemma SameVersionsViews<T(!new)>(g: Graph<T>, g': Graph<T>)
    requires SameVersions(g, g')
    ensures Views(g') == Views(g)
  {
  }

  // A handle starts to hold n, which denotes vs and may be new
  lemma OwnViews<T(!new)>(g: Graph<T>, g': Graph<T>, h: Var, n: Ptr, vs: seq<T>)
    requires Inv(g) && g'.owner == g.owner[h := n]
    requires (n !in g.cells && g'.den == g.den[n := vs]) || (n in g.den && g.den[n] == vs && g'.den == g.den)
    ensures Views(g') == Views(g)[h := vs]
  {
    forall k | k in g.owner && k != h ensures Value(g', k) == Value(g, k) {
      assert Owned(g, k);
    }
  }

  lemma DisownViews<T(!new)>(g: Graph<T>, g': Graph<T>, h: Var)
    requires g'.owner == g.owner - {h} && g'.den == g.den
    ensures Views(g') == Views(g) - {h}
  {
  }

  lemma CopiedViews<T(!new)>(cells: Cells<T>, g: Graph<T>, cells': Cells<T>, g': Graph<T>, n: Ptr, vs: seq<T>)
    requires Inv(g) && cells.Keys == g.cells.Keys && Copied(cells, g, cells', g', n, vs)
    ensures Views(g') == Views(g)
  {
    forall k | k in g.owner ensures Value(g', k) == Value(g, k) {
      assert Owned(g, k);
    }
  }

  // Freeing other cells leaves the single reference to a handle's cell
  lemma StillSole<T(!new)>(g: Graph<T>, g': Graph<T>, h: Var)
    requires Inv(g) && Inv(g') && Shrunk(g, g') && h in g.owner && g.owner[h] in g.count && g.count[g.owner[h]] == 1
    ensures g.owner[h] in g'.count && g'.count[g.owner[h]] == 1
  {
    var n := g.owner[h];
    assert Owned(g, h) && Owned(g', h);
    SoleOwner(g, h);
    assert CountOk(g', n);
    assert Owners(g', n) == Owners(g, n);
    forall y | y in g'.cells ensures !PointsTo(g'.cells[y], n) {
      assert y !in Preds(g, n);
    }
    assert Preds(g', n) == {};
  }

  // The values of a handle whose cell is a Root
  lemma RootValue<T(!new)>(cells: Cells<T>, blocks: Blocks<T>, home: map<Ptr, Ptr>, g: Graph<T>, h: Var)
    requires Sane(cells, blocks, home, g) && h in g.owner && g.owner[h] in cells && cells[g.owner[h]].kind == Root
    ensures cells[g.owner[h]].payload.Values? && Elems(blocks, cells[g.owner[h]].payload.vs) == Value(g, h)
    ensures cells[g.owner[h]].num == |Value(g, h)|
  {
    CellKind(cells, blocks, home, g, g.owner[h]);
    assert Local(g, g.owner[h]);
  }

  // A handle with count one is the only holder of its Root
  lemma {:induction false} CountOne<T(!new)>(cells: Cells<T>, blocks: Blocks<T>, home: map<Ptr, Ptr>, g: Graph<T>,
                                             h: Var)
    requires Sane(cells, blocks, home, g) && Counted(cells, g, NULL, NULL) && h in g.owner
    ensures g.owner[h] in cells && g.owner[h] in g.count && g.owner[h] in g.den && Value(g, h) == g.den[g.owner[h]]
    ensures cells[g.owner[h]].rc > 0
    ensures cells[g.owner[h]].rc == 1 ==> g.count[g.owner[h]] == 1 && Preds(g, g.owner[h]) == {}
  {
    OwnedCell(cells, blocks, home, g, h);
    assert Owned(g, h);
    assert cells[g.owner[h]].rc == g.count[g.owner[h]];
    if g.count[g.owner[h]] == 1 {
      SoleOwner(g, h);
    }
  }

  lemma ActedAfter<T(!new)>(g0: Graph<T>, g1: Graph<T>, g2: Graph<T>, h: Var, n: Ptr, xs: seq<T>)
    requires SameVersions(g0, g1) && Acted(g1, g2, h, n, xs)
    ensures Acted(g0, g2, h, n, xs)
  {
  }

  // ----- copying, moving and dropping handles -----

  lemma SetRcCoupled<T(!new)>(cells: Cells<T>, blocks: Blocks<T>, home: map<Ptr, Ptr>, g: Graph<T>, n: Ptr, rc: nat)
    requires Coupled(cells, blocks, home, g, NULL) && n in cells
    ensures Coupled(cells[n := cells[n].(rc := rc)], blocks, home, g, NULL)
  {
    var cells' := cells[n := cells[n].(rc := rc)];
    forall x | x in g.cells ensures Matches(blocks, home, x, cells'[x], g.cells[x]) {
      assert Matches(blocks, home, x, cells[x], g.cells[x]);
    }
  }

  lemma SameCellsCoupled<T(!new)>(cells: Cells<T>, blocks: Blocks<T>, home: map<Ptr, Ptr>, g: Graph<T>, g': Graph<T>)
    requires Coupled(cells, blocks, home, g, NULL) && g'.cells == g.cells
    ensures Coupled(cells, blocks, home, g', NULL)
  {
  }

  // A new handle h for the cell n
  lemma {:induction false} AddOwner<T(!new)>(cells: Cells<T>, blocks: Blocks<T>, home: map<Ptr, Ptr>, g: Graph<T>,
                                             h: Var, n: Ptr)
    returns (g': Graph<T>, cells': Cells<T>)
    requires Sane(cells, blocks, home, g) && Counted(cells, g, NULL, NULL) && n in cells && h !in g.owner
    ensures Inv(g') && g'.owner == g.owner[h := n] && g'.den == g.den && n in g.den
    ensures cells' == cells[n := cells[n].(rc := cells[n].rc + 1)]
    ensures Sane(cells', blocks, home, g') && Counted(cells', g', NULL, NULL)
  {
    hide Inv, Coupled, Housed;
    cells' := cells[n := cells[n].(rc := cells[n].rc + 1)];
    SaneCell(cells, blocks, home, g, n);
    g' := OwnStep(g, h, n);
    SameCellsCoupled(cells, blocks, home, g, g');
    SetRcCoupled(cells, blocks, home, g', n, cells[n].rc + 1);
    SameHoused(cells, blocks, home, cells');
    assert cells[n].rc == g.count[n];
  }

  // A new handle h for the new Root n
  lemma {:induction false} AddFirstOwner<T(!new)>(cells: Cells<T>, blocks: Blocks<T>, home: map<Ptr, Ptr>, g: Graph<T>,
                                                  h: Var, n: Ptr)
    returns (g': Graph<T>)
    requires Sane(cells, blocks, home, g) && Unreferenced(cells, g, n) && cells[n].rc == 1 && h !in g.owner
    ensures Inv(g') && g'.owner == g.owner[h := n] && g'.den == g.den
    ensures Sane(cells, blocks, home, g') && Counted(cells, g', NULL, NULL)
  {
    hide Inv, Coupled, Housed;
    SaneCell(cells, blocks, home, g, n);
    g' := OwnStep(g, h, n);
    SameCellsCoupled(cells, blocks, home, g, g');
  }

  // The handle h lets go of its cell, whose count is not adjusted yet
  lemma {:induction false} DropOwner<T(!new)>(cells: Cells<T>, blocks: Blocks<T>, home: map<Ptr, Ptr>, g: Graph<T>,
                                              h: Var)
    returns (g': Graph<T>)
    requires Sane(cells, blocks, home, g) && Counted(cells, g, NULL, NULL) && h in g.owner
    ensures Inv(g') && g'.owner == g.owner - {h} && g'.den == g.den
    ensures Sane(cells, blocks, home, g') && g.owner[h] in cells && Counted(cells, g', g.owner[h], NULL)
  {
    OwnedCell(cells, blocks, home, g, h);
    g' := DisownStep(g, h);
    SameCellsCoupled(cells, blocks, home, g, g');
    assert cells[g.owner[h]].rc == g.count[g.owner[h]];
  }

  // The handle h moves from its cell to n; the count of the old cell is not adjusted yet
  lemma {:induction false} MoveOwner<T(!new)>(cells: Cells<T>, blocks: Blocks<T>, home: map<Ptr, Ptr>, g: Graph<T>,
                                              h: Var, n: Ptr)
    returns (g': Graph<T>)
    requires Sane(cells, blocks, home, g) && h in g.owner && n in cells && g.owner[h] != n
    requires Counted(cells, g, NULL, NULL) || (Unreferenced(cells, g, n) && cells[n].rc == 0)
    ensures Inv(g') && g'.owner == g.owner[h := n] && g'.den == g.den && n in g.den
    ensures g.owner[h] in cells && n in g.count && n in g'.count && g'.count[n] == g.count[n] + 1
    ensures var cells' := cells[n := cells[n].(rc := cells[n].rc + 1)];
      Sane(cells', blocks, home, g') && Counted(cells', g', g.owner[h], NULL)
  {
    hide Inv, Coupled, Housed, Counted;
    OwnedCell(cells, blocks, home, g, h);
    SaneCell(cells, blocks, home, g, n);
    SaneKeys(cells, blocks, home, g);
    g' := MoveOwnerStep(g, h, n);
    SameCellsCoupled(cells, blocks, home, g, g');
    SetRcCoupled(cells, blocks, home, g', n, cells[n].rc + 1);
    SameHoused(cells, blocks, home, cells[n := cells[n].(rc := cells[n].rc + 1)]);
    MoveOwnerCounted(cells, g, h, n, g');
  }

  lemma MoveOwnerCounted<T(!new)>(cells: Cells<T>, g: Graph<T>, h: Var, n: Ptr, g': Graph<T>)
    requires h in g.owner && n in cells && g.owner[h] != n && n in g.count && g.owner[h] in g.count && NULL !in cells
    requires Counted(cells, g, NULL, NULL) || (Unreferenced(cells, g, n) && cells[n].rc == 0)
    requires g'.count == g.count[n := g.count[n] + 1][g.owner[h] := g.count[g.owner[h]] - 1]
    ensures Counted(cells[n := cells[n].(rc := cells[n].rc + 1)], g', g.owner[h], NULL)
  {
    var cells' := cells[n := cells[n].(rc := cells[n].rc + 1)];
    assert cells[n].rc == g.count[n];
    assert forall x :: x in cells && x != n ==> cells'[x] == cells[x];
  }

  // A new Root n for a new handle h
  lemma {:induction false} NewRoot<T(!new)>(cells: Cells<T>, blocks: Blocks<T>, home: map<Ptr, Ptr>, g: Graph<T>,
                                            h: Var, n: Ptr, blocks': Blocks<T>, home': map<Ptr, Ptr>, a: Ptr,
                                            vs: seq<T>)
    returns (g': Graph<T>, cells': Cells<T>)
    requires Sane(cells, blocks, home, g) && Counted(cells, g, NULL, NULL) && h !in g.owner
    requires n != NULL && n !in cells && a !in blocks
    requires HoldsValues(blocks', home', n, a, vs) && KeptBut(blocks, home, blocks', home', a, a)
    ensures g'.owner == g.owner[h := n] && Views(g') == Views(g)[h := vs]
    ensures cells' == cells[n := Cell(1, Root, |vs|, NULL, Values(a))]
    ensures Sane(cells', blocks', home', g') && Counted(cells', g', NULL, NULL)
  {
    cells' := cells[n := Cell(1, Root, |vs|, NULL, Values(a))];
    var g1, _ := AddRootOk(cells, blocks, home, g, n, 1, blocks', home', a, vs);
    NewUnreferenced(cells, g, n, cells'[n], g1);
    g' := AddFirstOwner(cells', blocks', home', g1, h, n);
    OwnViews(g, g', h, n, vs);
  }

  lemma NewUnreferenced<T(!new)>(cells: Cells<T>, g: Graph<T>, n: Ptr, c: Cell<T>, g': Graph<T>)
    requires Counted(cells, g, NULL, NULL) && n !in cells && NULL !in cells && g'.count == g.count[n := 0]
    ensures Unreferenced(cells[n := c], g', n)
  {
    var cells' := cells[n := c];
    assert forall x :: x in cells && x != n ==> cells'[x] == cells[x];
  }

  lemma {:induction false} MoveView<T(!new)>(cells: Cells<T>, blocks: Blocks<T>, home: map<Ptr, Ptr>, g: Graph<T>,
                                             h: Var, n: Ptr)
    returns (g': Graph<T>, cells': Cells<T>)
    requires Sane(cells, blocks, home, g) && h in g.owner && n in cells && g.owner[h] != n
    requires Counted(cells, g, NULL, NULL) || (Unreferenced(cells, g, n) && cells[n].rc == 0)
    ensures g'.owner == g.owner[h := n] && n in g.den && Views(g') == Views(g)[h := g.den[n]]
    ensures g.owner[h] in cells && n in g'.cells && (g'.cells[n].RootOf? <==> cells[n].kind == Root)
    ensures n in g.count && n in g'.count && g'.count[n] == g.count[n] + 1
    ensures cells' == cells[n := cells[n].(rc := cells[n].rc + 1)]
    ensures Sane(cells', blocks, home, g') && Counted(cells', g', g.owner[h], NULL)
  {
    cells' := cells[n := cells[n].(rc := cells[n].rc + 1)];
    g' := MoveOwner(cells, blocks, home, g, h, n);
    OwnViews(g, g', h, n, g.den[n]);
    CellKind(cells', blocks, home, g', n);
  }

  // The differences that refer to x, in the graph and in the cells
  lemma Referrers<T(!new)>(cells: Cells<T>, blocks: Blocks<T>, home: map<Ptr, Ptr>, g: Graph<T>, x: Ptr)
    requires Sane(cells, blocks, home, g) && x in cells
    ensures Preds(g, x) == set y | y in cells && cells[y].kind != Root && cells[y].next == x
  {
    forall y | y in cells ensures PointsTo(g.cells[y], x) <==> cells[y].kind != Root && cells[y].next == x {
      assert Matches(blocks, home, y, cells[y], g.cells[y]);
    }
  }
}

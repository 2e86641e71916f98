/** The operations of src/library/parray.h (with ThreadSafe == false): code that updates
  * a memory of cells and raw arrays in place.
  */
module PersistentArray {
  import opened VersionGraph
  import opened VersionMemory

  // capacity -> new capacity, of expand
  function Grown(capacity: nat): (c: nat)
    ensures c > capacity
  {
    if capacity == 0 then 2 else (3 * capacity + 1) / 2
  }

  lemma FreshExists(used: set<Ptr>)
    ensures exists p: Ptr :: p != NULL && p !in used
  {
    var m := UpperBound(used);
    assert m + 1 !in used;
  }

  ghost function UpperBound(s: set<Ptr>): (m: nat)
    ensures forall x :: x in s ==> x <= m
  {
    if s == {} then 0
    else
      var x :| x in s;
      var m := UpperBound(s - {x});
      assert forall y :: y in s ==> y == x || y in s - {x};
      if x > m then x else m
  }

  // malloc: some address that is not in use
  method Malloc(used: set<Ptr>) returns (p: Ptr)
    ensures p != NULL && p !in used
  {
    FreshExists(used);
    p :| p != NULL && p !in used;
  }

  class Memory<T(!new)> {
    var cells: Cells<T>
    var blocks: Blocks<T>
    var vars: map<Var, Ptr>     // the live parray objects

    // proofs only: the graph the memory holds, and the owner of each raw array
    ghost var g: Graph<T>
    ghost var home: map<Ptr, Ptr>

    // Sound memory; the pointer in the variable h may have to be updated yet
    ghost predicate Settled()
      reads this
    {
      Sane(cells, blocks, home, g) && Counted(cells, g, NULL, NULL)
    }

    ghost predicate Valid()
      reads this
    {
      Settled() && vars == g.owner
    }

    // ----- reference counting -----

    // free(c), with its array if it is a Root; the reference that c held is still counted
    method FreeCell(c: Ptr)
      requires Sane(cells, blocks, home, g) && Unreferenced(cells, g, c)
      modifies `cells, `blocks, `g
      ensures Sane(cells, blocks, home, g) && Shrunk(old(g), g)
      ensures cells == old(cells) - {c} && cells.Keys < old(cells.Keys)
      ensures old(cells[c].next) == NULL || old(cells[c].next) in cells
      ensures Counted(cells, g, old(cells[c].next), NULL)
    {
      ghost var c0, b0 := cells, blocks;
      if cells[c].kind == Root {
        CellKind(cells, blocks, home, g, c);
        blocks := blocks - {cells[c].payload.vs};
      }
      cells := cells - {c};
      g := FreeCellOk(c0, b0, home, g, c, blocks);
    }

    // c->m_rc--; true if that was the last reference
    method DropCount(c: Ptr) returns (last: bool)
      requires Sane(cells, blocks, home, g) && c in cells && Counted(cells, g, c, NULL)
      modifies `cells
      ensures Sane(cells, blocks, home, g) && cells.Keys == old(cells.Keys)
      ensures last ==> Unreferenced(cells, g, c)
      ensures !last ==> Counted(cells, g, NULL, NULL)
    {
      DropRef(cells, blocks, home, g, c);
      cells := cells[c := cells[c].(rc := cells[c].rc - 1)];
      last := cells[c].rc == 0;
    }

    // One round of deallocate_cell: the successor if its count dropped to zero, else null
    method ReleaseCell(c: Ptr) returns (next: Ptr)
      requires Sane(cells, blocks, home, g) && Unreferenced(cells, g, c)
      modifies `cells, `blocks, `g
      ensures Shrunk(old(g), g) && cells.Keys < old(cells.Keys)
      ensures next == NULL ==> Settled()
      ensures next != NULL ==> Sane(cells, blocks, home, g) && Unreferenced(cells, g, next)
    {
      next := cells[c].next;
      FreeCell(c);
      if next == NULL {
        return;
      }
      var last := DropCount(next);
      if !last {
        next := NULL;
      }
    }

    // deallocate_cell: frees c, then every successor whose count drops to zero
    method DeallocateCell(c: Ptr)
      requires Sane(cells, blocks, home, g) && Unreferenced(cells, g, c)
      modifies `cells, `blocks, `g
      ensures Settled() && Shrunk(old(g), g)
    {
      ghost var g0 := g;
      var next := ReleaseCell(c);
      while next != NULL
        invariant next == NULL ==> Settled()
        invariant next != NULL ==> Sane(cells, blocks, home, g) && Unreferenced(cells, g, next)
        invariant Shrunk(g0, g)
        decreases cells.Keys
      {
        ghost var g1 := g;
        next := ReleaseCell(next);
        ShrunkTrans(g0, g1, g);
      }
    }

    // dec_ref, by a holder that the graph no longer records
    method DecRef(c: Ptr)
      requires Sane(cells, blocks, home, g) && c in cells && Counted(cells, g, c, NULL)
      modifies `cells, `blocks, `g
      ensures Settled() && Shrunk(old(g), g)
    {
      var last := DropCount(c);
      if last {
        DeallocateCell(c);
      }
    }

    // ----- raw arrays -----

    // expand: moves the elements to a larger array
    method Expand(a: Ptr) returns (b: Ptr)
      requires NULL !in blocks
      modifies `blocks
      ensures b != NULL && b !in old(blocks)
      ensures blocks == (old(blocks) - {a})[b := Block(Grown(old(Capacity(blocks, a))), old(Elems(blocks, a)))]
    {
      b := Malloc(blocks.Keys);
      var moved := Block(Grown(Capacity(blocks, a)), Elems(blocks, a));
      blocks := (blocks - {a})[b := moved];
    }

    // new (vs + sz) T(e), after expand if the array is full; the array goes from x to y
    method Construct(a: Ptr, e: T, ghost xs: seq<T>, ghost x: Ptr, ghost y: Ptr) returns (b: Ptr)
      requires NULL !in blocks && HoldsValues(blocks, home, x, a, xs)
      modifies `blocks, `home
      ensures HoldsValues(blocks, home, y, b, xs + [e])
      ensures KeptBut(old(blocks), old(home), blocks, home, a, b)
    {
      b := a;
      if |Elems(blocks, a)| == Capacity(blocks, a) {
        b := Expand(a);
      }
      blocks := blocks[b := blocks[b].(elems := blocks[b].elems + [e])];
      home := home[b := y];
    }

    // ----- reroot -----

    // The switch in the loop of reroot: c becomes the diff that leads back to p, and the
    // array holds what p denotes.  c may not be the Root any more, but vs and sz still are
    // its values
    method RevertCell(p: Ptr, c: Ptr, vs: Ptr, sz: nat, ghost r: Rec<T>, ghost xs: seq<T>) returns (vs': Ptr, sz': nat)
      requires p != c && p in cells && c in cells && NULL !in blocks
      requires !r.RootOf? && Applies(r, xs) && Matches(blocks, home, p, cells[p], r)
      requires HoldsValues(blocks, home, c, vs, xs) && sz == |xs|
      modifies `cells, `blocks, `home
      ensures c in cells && cells == old(cells)[c := cells[c]] && cells[c].rc == old(cells[c].rc)
      ensures Matches(blocks, home, c, cells[c], Back(r, p, xs))
      ensures HoldsValues(blocks, home, p, vs', Diff(r, xs)) && sz' == |Diff(r, xs)|
      ensures KeptBut(old(blocks), old(home), blocks, home, vs, vs')
    {
      if cells[p].kind == Set {
        RevertSet(p, c, vs, r, xs);
        vs', sz' := vs, sz;
      } else if cells[p].kind == PushBack {
        vs' := RevertPush(p, c, vs, sz, r, xs);
        sz' := sz + 1;
      } else {
        RevertPop(p, c, vs, sz, r, xs);
        vs', sz' := vs, sz - 1;
      }
    }

    // Set: c gets the old element, newly allocated or over the one it has
    method RevertSet(p: Ptr, c: Ptr, vs: Ptr, ghost r: Rec<T>, ghost xs: seq<T>)
      requires p != c && p in cells && c in cells && NULL !in blocks
      requires !r.RootOf? && Applies(r, xs) && Matches(blocks, home, p, cells[p], r)
      requires HoldsValues(blocks, home, c, vs, xs) && cells[p].kind == Set
      modifies `cells, `blocks, `home
      ensures c in cells && cells == old(cells)[c := cells[c]] && cells[c].rc == old(cells[c].rc)
      ensures Matches(blocks, home, c, cells[c], Back(r, p, xs))
      ensures HoldsValues(blocks, home, p, vs, Diff(r, xs))
      ensures KeptBut(old(blocks), old(home), blocks, home, vs, vs)
    {
      var it, d := cells[p], cells[c];
      cells := cells[c := d.(kind := Set, num := it.num, next := p, payload := Elem(blocks[vs].elems[it.num]))];
      blocks := blocks[vs := blocks[vs].(elems := blocks[vs].elems[it.num := it.payload.e])];
      home := home[vs := p];
    }

    // PushBack: the element goes to the end of the array; c loses the one it has
    method RevertPush(p: Ptr, c: Ptr, vs: Ptr, sz: nat, ghost r: Rec<T>, ghost xs: seq<T>) returns (vs': Ptr)
      requires p != c && p in cells && c in cells && NULL !in blocks
      requires !r.RootOf? && Applies(r, xs) && Matches(blocks, home, p, cells[p], r)
      requires HoldsValues(blocks, home, c, vs, xs) && sz == |xs| && cells[p].kind == PushBack
      modifies `cells, `blocks, `home
      ensures c in cells && cells == old(cells)[c := cells[c]] && cells[c].rc == old(cells[c].rc)
      ensures Matches(blocks, home, c, cells[c], Back(r, p, xs))
      ensures HoldsValues(blocks, home, p, vs', Diff(r, xs)) && |Diff(r, xs)| == sz + 1
      ensures KeptBut(old(blocks), old(home), blocks, home, vs, vs')
    {
      var it, d := cells[p], cells[c];
      vs' := Construct(vs, it.payload.e, xs, c, p);
      cells := cells[c := d.(kind := PopBack, num := sz, next := p, payload := Nothing)];
    }

    // PopBack: c gets the last element, which leaves the array
    method RevertPop(p: Ptr, c: Ptr, vs: Ptr, sz: nat, ghost r: Rec<T>, ghost xs: seq<T>)
      requires p != c && p in cells && c in cells && NULL !in blocks
      requires !r.RootOf? && Applies(r, xs) && Matches(blocks, home, p, cells[p], r)
      requires HoldsValues(blocks, home, c, vs, xs) && sz == |xs| && cells[p].kind == PopBack
      modifies `cells, `blocks, `home
      ensures c in cells && cells == old(cells)[c := cells[c]] && cells[c].rc == old(cells[c].rc)
      ensures Matches(blocks, home, c, cells[c], Back(r, p, xs))
      ensures HoldsValues(blocks, home, p, vs, Diff(r, xs)) && |Diff(r, xs)| == sz - 1
      ensures KeptBut(old(blocks), old(home), blocks, home, vs, vs)
    {
      var d := cells[c];
      cells := cells[c := d.(kind := PushBack, num := sz - 1, next := p, payload := Elem(blocks[vs].elems[sz - 1]))];
      blocks := blocks[vs := blocks[vs].(elems := blocks[vs].elems[..sz - 1])];
      home := home[vs := p];
    }

    // The body of the loop of reroot: the link p -> c is turned around
    method RevertLink(p: Ptr, c: Ptr, vs: Ptr, sz: nat, ghost last: Ptr) returns (vs': Ptr, sz': nat)
      requires Reverting(cells, blocks, home, g, c, vs) && Counted(cells, g, last, c)
      requires sz == |g.cells[c].vals| && p in g.cells && PointsTo(g.cells[p], c)
      modifies `cells, `blocks, `home, `g
      ensures Reverting(cells, blocks, home, g, p, vs') && Counted(cells, g, last, p)
      ensures sz' == |g.cells[p].vals|
      ensures Turned(old(g), g)
      ensures forall x :: x in g.cells && x != c && x != p ==> g.cells[x] == old(g.cells[x])
    {
      hide Inv, Coupled, Housed, Counted, KeptBut, Matches, HoldsValues;
      LinkParts(cells, blocks, home, g, p, c, vs);
      ghost var g0, cells0, blocks0, home0 := g, cells, blocks, home;
      ghost var g' := RotateStep(g, p, c);
      vs', sz' := RevertCell(p, c, vs, sz, g.cells[p], g.cells[c].vals);
      g := g';
      RevertOk(cells0, blocks0, home0, g0, p, c, vs, cells, blocks, home, g, vs');
      RevertCounted(cells0, g0, p, c, cells, g, last);
    }

    // The state between two rounds: cs is the path still to be reverted, c plays the Root
    ghost predicate Midway(cs: seq<Ptr>, c: Ptr, vs: Ptr, sz: nat, last: Ptr)
      reads this
    {
      && Reverting(cells, blocks, home, g, c, vs) && Counted(cells, g, last, c)
      && sz == |g.cells[c].vals| && Path(g.cells, cs, c)
    }

    // One round of the loop of reroot
    method RevertNext(cs: seq<Ptr>, i: nat, c: Ptr, vs: Ptr, sz: nat, ghost last: Ptr) returns (vs': Ptr, sz': nat)
      requires 0 < i <= |cs| && Midway(cs[..i], c, vs, sz, last)
      modifies `cells, `blocks, `home, `g
      ensures Midway(cs[..i - 1], cs[i - 1], vs', sz', last)
      ensures Turned(old(g), g)
    {
      ghost var before := g.cells;
      PathLast(g.cells, cs, i, c);
      vs', sz' := RevertLink(cs[i - 1], c, vs, sz, last);
      PathBefore(before, cs, i, c, g.cells);
    }

    // The loop of reroot: afterwards the first cell of the path plays the Root
    method RevertPath(c: Ptr, cs: seq<Ptr>, vs0: Ptr, sz0: nat) returns (vs: Ptr, sz: nat)
      requires |cs| > 0 && Midway(cs, c, vs0, sz0, c)
      modifies `cells, `blocks, `home, `g
      ensures Midway([], cs[0], vs, sz, c)
      ensures Turned(old(g), g)
    {
      var it, i := c, |cs|;
      vs, sz := vs0, sz0;
      assert cs[..i] == cs;
      while i > 0
        invariant 0 <= i <= |cs| && (i < |cs| ==> it == cs[i])
        invariant Midway(cs[..i], it, vs, sz, c)
        invariant Turned(old(g), g)
      {
        i := i - 1;
        vs, sz := RevertNext(cs, i + 1, it, vs, sz, c);
        it := cs[i];
      }
    }

    // reroot(r, c, cs): reverts the path from r to the Root c
    method RerootPath(r: Ptr, c: Ptr, cs: seq<Ptr>, ghost h: Var)
      requires Settled() && c in cells && cells[c].kind == Root
      requires |cs| > 0 && cs[0] == r && Path(g.cells, cs, c)
      requires h in g.owner && g.owner[h] == r
      modifies `cells, `blocks, `home, `g
      ensures Settled() && SameVersions(old(g), g)
      ensures r in cells && cells[r].kind == Root
    {
      hide Sane, Inv, Counted;
      SaneKeys(cells, blocks, home, g);
      StartRevert(cells, blocks, home, g, c);
      ghost var g0 := g;
      assert LinkAt(g.cells, cs, c, 0);
      var vs, sz := RevertPath(c, cs, cells[c].payload.vs, cells[c].num);
      SameDenVersions(g0, g);
      CloseReroot(r, vs, sz, c);
      DropLast(c, h);
    }

    // r becomes the Root, with one more reference
    method CloseReroot(r: Ptr, vs: Ptr, sz: nat, ghost last: Ptr)
      requires Reverting(cells, blocks, home, g, r, vs) && Counted(cells, g, last, r) && last != r
      requires sz == |g.cells[r].vals|
      modifies `cells
      ensures Sane(cells, blocks, home, g) && Counted(cells, g, last, NULL)
      ensures r in cells && cells[r].kind == Root && cells.Keys == old(cells.Keys)
    {
      CloseRoot(cells, blocks, home, g, r, vs, last);
      cells := cells[r := Cell(cells[r].rc + 1, Root, sz, NULL, Values(vs))];
    }

    // dec_ref of a cell other than the Root that h holds
    method DropLast(c: Ptr, ghost h: Var)
      requires Sane(cells, blocks, home, g) && c in cells && Counted(cells, g, c, NULL)
      requires h in g.owner && g.owner[h] in cells && cells[g.owner[h]].kind == Root
      modifies `cells, `blocks, `g
      ensures Settled() && SameVersions(old(g), g)
      ensures g.owner[h] in cells && cells[g.owner[h]].kind == Root
    {
      OwnedCell(cells, blocks, home, g, h);
      ghost var g0 := g;
      DecRef(c);
      SameDenVersions(g0, g);
      OwnedCell(cells, blocks, home, g, h);
    }

    // collect_cells: the path from r to the Root of its tree
    method CollectCells(r: Ptr) returns (cs: seq<Ptr>, c: Ptr)
      requires Settled() && r in cells
      ensures c in cells && cells[c].kind == Root && Path(g.cells, cs, c)
      ensures if cs == [] then c == r else cs[0] == r
    {
      c, cs := r, [];
      while cells[c].kind != Root
        invariant c in cells && c in g.rank && Path(g.cells, cs, c)
        invariant if cs == [] then c == r else cs[0] == r
        invariant forall x :: x in cs ==> x in g.rank && g.rank[x] > g.rank[c]
        decreases g.rank[c]
      {
        NextCell(cells, blocks, home, g, c);
        PathExtend(g.cells, cs, c, cells[c].next);
        cs := cs + [c];
        c := cells[c].next;
      }
    }

    // ----- updates of a Root that no other cell points to -----

    // c->m_values[i] = v
    method Store(x: Ptr, i: nat, v: T)
      requires Sane(cells, blocks, home, g) && x in cells && cells[x].kind == Root && Preds(g, x) == {}
      requires x in g.den && i < |g.den[x]|
      modifies `cells, `blocks, `home, `g
      ensures Sane(cells, blocks, home, g)
      ensures Edited(old(cells), old(g), cells, g, x, old(g.den[x])[i := v])
    {
      hide Sane, Inv;
      SaneCell(cells, blocks, home, g, x);
      SaneKeys(cells, blocks, home, g);
      ghost var cells0, blocks0, g0 := cells, blocks, g;
      var a := cells[x].payload.vs;
      blocks := blocks[a := blocks[a].(elems := blocks[a].elems[i := v])];
      ghost var g', cells' := RewriteRootOk(cells0, blocks0, home, g0, x, blocks, home, a, g.den[x][i := v]);
      g := g';
      assert cells == cells0[x := cells0[x].(num := |g.den[x]|, payload := Values(a))];
    }

    // push_back_core
    method PushBackCore(x: Ptr, v: T)
      requires Sane(cells, blocks, home, g) && x in cells && cells[x].kind == Root && Preds(g, x) == {}
      requires x in g.den
      modifies `cells, `blocks, `home, `g
      ensures Sane(cells, blocks, home, g)
      ensures Edited(old(cells), old(g), cells, g, x, old(g.den[x]) + [v])
    {
      hide Sane, Inv;
      SaneCell(cells, blocks, home, g, x);
      SaneKeys(cells, blocks, home, g);
      ghost var cells0, blocks0, home0, g0 := cells, blocks, home, g;
      var a := Construct(cells[x].payload.vs, v, g.den[x], x, x);
      cells := cells[x := cells[x].(num := cells[x].num + 1, payload := Values(a))];
      ghost var g', cells' := RewriteRootOk(cells0, blocks0, home0, g0, x, blocks, home, a, g.den[x] + [v]);
      g := g';
    }

    // pop_back_core
    method PopBackCore(x: Ptr)
      requires Sane(cells, blocks, home, g) && x in cells && cells[x].kind == Root && Preds(g, x) == {}
      requires x in g.den && |g.den[x]| > 0
      modifies `cells, `blocks, `home, `g
      ensures Sane(cells, blocks, home, g)
      ensures Edited(old(cells), old(g), cells, g, x, old(g.den[x])[..|old(g.den[x])| - 1])
    {
      hide Sane, Inv;
      SaneCell(cells, blocks, home, g, x);
      SaneKeys(cells, blocks, home, g);
      ghost var cells0, blocks0, g0 := cells, blocks, g;
      var a := cells[x].payload.vs;
      cells := cells[x := cells[x].(num := cells[x].num - 1)];
      blocks := blocks[a := blocks[a].(elems := blocks[a].elems[..cells[x].num])];
      ghost var g', cells' := RewriteRootOk(cells0, blocks0, home, g0, x, blocks, home, a, g.den[x][..|g.den[x]| - 1]);
      g := g';
    }

    // ----- copy and split -----

    // The switch in the loop of copy: r, a copy of the next version, becomes one of p
    method CopyDiff(r: Ptr, p: Ptr)
      requires Sane(cells, blocks, home, g) && r in cells && cells[r].kind == Root && Preds(g, r) == {}
      requires p in cells && cells[p].kind != Root
      requires r in g.den && cells[p].next in g.den && g.den[r] == g.den[cells[p].next]
      modifies `cells, `blocks, `home, `g
      ensures Sane(cells, blocks, home, g) && p in old(g.den)
      ensures Edited(old(cells), old(g), cells, g, r, old(g.den)[p])
    {
      CellDiff(cells, blocks, home, g, p);
      if cells[p].kind == Set {
        Store(r, cells[p].num, cells[p].payload.e);
      } else if cells[p].kind == PushBack {
        PushBackCore(r, cells[p].payload.e);
      } else {
        PopBackCore(r);
      }
    }

    // mk_cell with a copy of the array of the Root c
    method CopyRoot(c: Ptr) returns (r: Ptr)
      requires Settled() && c in cells && cells[c].kind == Root
      modifies `cells, `blocks, `home, `g
      ensures Sane(cells, blocks, home, g) && c in old(g.den)
      ensures Copied(old(cells), old(g), cells, g, r, old(g.den)[c])
    {
      hide Sane, Inv, Counted, KeptBut;
      SaneCell(cells, blocks, home, g, c);
      SaneKeys(cells, blocks, home, g);
      r := Malloc(cells.Keys);
      var a := Malloc(blocks.Keys);
      var b := Block(Capacity(blocks, cells[c].payload.vs), Elems(blocks, cells[c].payload.vs));
      ghost var cells0, blocks0, home0, g0 := cells, blocks, home, g;
      cells := cells[r := Cell(0, Root, cells[c].num, NULL, Values(a))];
      blocks := blocks[a := b];
      home := home[a := r];
      BlockSet(blocks0, home0, a, b, r);
      ghost var g', cells' := AddRootOk(cells0, blocks0, home0, g0, r, 0, blocks, home, a, g0.den[c]);
      g := g';
    }

    // r holds the values of the version At(cs, c, i) of the memory cells0
    ghost predicate CopyOf(cells0: Cells<T>, g0: Graph<T>, r: Ptr, x: Ptr)
      reads this
    {
      Sane(cells, blocks, home, g) && x in g0.den && Copied(cells0, g0, cells, g, r, g0.den[x])
    }

    // One round of copy: from the values of the successor of cs[i] to those of cs[i]
    method CopyNext(ghost cells0: Cells<T>, ghost g0: Graph<T>, r: Ptr, c: Ptr, cs: seq<Ptr>, i: nat)
      requires i < |cs| && Path(g0.cells, cs, c) && c in g0.cells && cells0.Keys == g0.cells.Keys
      requires CopyOf(cells0, g0, r, At(cs, c, i + 1))
      modifies `cells, `blocks, `home, `g
      ensures CopyOf(cells0, g0, r, At(cs, c, i))
    {
      var p := cs[i];
      ghost var next := At(cs, c, i + 1);
      assert LinkAt(g0.cells, cs, c, i) && (i + 1 < |cs| ==> LinkAt(g0.cells, cs, c, i + 1));
      CellKind(cells, blocks, home, g, p);
      ghost var cells1, g1 := cells, g;
      CopyDiff(r, p);
      CopiedEdited(cells0, g0, cells1, g1, r, g0.den[next], cells, g, g0.den[p]);
    }

    // copy(from, c, cs): a Root with the values of cs[from], or of c itself
    method Copy(from: nat, c: Ptr, cs: seq<Ptr>) returns (r: Ptr)
      requires Settled() && c in cells && cells[c].kind == Root && Path(g.cells, cs, c) && from <= |cs|
      modifies `cells, `blocks, `home, `g
      ensures CopyOf(old(cells), old(g), r, At(cs, c, from))
      ensures Unreferenced(cells, g, r)
    {
      hide Sane, Inv, Counted;
      SaneKeys(cells, blocks, home, g);
      ghost var cells0, g0 := cells, g;
      r := CopyRoot(c);
      var i := |cs|;
      while i > from
        invariant from <= i <= |cs|
        invariant CopyOf(cells0, g0, r, At(cs, c, i))
      {
        i := i - 1;
        CopyNext(cells0, g0, r, c, cs, i);
      }
      CopiedUnreferenced(cells0, g0, cells, g, r, g0.den[At(cs, c, from)]);
    }

    // get_size: the number of elements of the first version of the path
    method GetSize(c: Ptr, cs: seq<Ptr>) returns (r: nat)
      requires Settled() && c in cells && cells[c].kind == Root && Path(g.cells, cs, c)
      ensures At(cs, c, 0) in g.den && r == |g.den[At(cs, c, 0)]|
    {
      CellKind(cells, blocks, home, g, c);
      assert Local(g, c);
      r := cells[c].num;
      var i := |cs|;
      while i > 0
        invariant 0 <= i <= |cs| && At(cs, c, i) in g.den && r == |g.den[At(cs, c, i)]|
      {
        i := i - 1;
        assert LinkAt(g.cells, cs, c, i);
        CellKind(cells, blocks, home, g, cs[i]);
        CellDiff(cells, blocks, home, g, cs[i]);
        if cells[cs[i]].kind == PushBack {
          r := r + 1;
        } else if cells[cs[i]].kind == PopBack {
          r := r - 1;
        }
      }
    }

    // new_m (n) takes over the link of b; the old target m keeps its count for now
    method Relink(b: Ptr, n: Ptr) returns (m: Ptr)
      requires Sane(cells, blocks, home, g) && Unreferenced(cells, g, n) && cells[n].rc == 0 && cells[n].kind == Root
      requires b in cells && b != n && cells[b].kind != Root && cells[b].next in g.den && n in g.den
      requires g.den[n] == g.den[cells[b].next]
      modifies `cells, `g
      ensures Sane(cells, blocks, home, g) && m in cells && Counted(cells, g, m, NULL)
      ensures g.owner == old(g.owner) && g.den == old(g.den)
      ensures b in old(g.cells) && !old(g.cells[b]).RootOf?
      ensures g.cells == old(g.cells)[b := old(g.cells)[b].(next := n)]
    {
      hide Sane, Inv, Counted;
      ghost var g1 := g;
      ghost var g', cells' := RelinkOk(cells, blocks, home, g1, b, n);
      m := cells[b].next;
      cells := cells[n := cells[n].(rc := 1)][b := cells[b].(next := n)];
      g := g';
    }

    // The split of reroot: the path r -> ... -> c is cut in the middle, and its first half
    // now ends in a copy
    method SplitPath(c: Ptr, cs: seq<Ptr>, ghost h: Var) returns (n: Ptr, cs': seq<Ptr>)
      requires Settled() && c in cells && cells[c].kind == Root && Path(g.cells, cs, c)
      requires |cs| > 4 && h in g.owner && g.owner[h] == cs[0]
      modifies `cells, `blocks, `home, `g
      ensures Settled() && SameVersions(old(g), g)
      ensures n in cells && cells[n].kind == Root && Path(g.cells, cs', n) && |cs'| > 0 && cs'[0] == cs[0]
    {
      var m;
      n, cs', m := CutPath(c, cs);
      SameDenVersions(old(g), g);
      ghost var g1 := g;
      DecRef(m);
      SameDenVersions(g1, g);
      OwnedCell(cells, blocks, home, g, h);
      PathShrunk(g1, cs', n, g);
      CellKind(cells, blocks, home, g, n);
    }

    method CutPath(c: Ptr, cs: seq<Ptr>) returns (n: Ptr, cs': seq<Ptr>, m: Ptr)
      requires Settled() && c in cells && cells[c].kind == Root && Path(g.cells, cs, c) && |cs| > 4
      modifies `cells, `blocks, `home, `g
      ensures Sane(cells, blocks, home, g) && m in cells && Counted(cells, g, m, NULL)
      ensures g.owner == old(g.owner) && SameDen(old(g), g)
      ensures |cs'| > 0 && cs'[0] == cs[0]
      ensures n in g.cells && g.cells[n].RootOf? && Path(g.cells, cs', n)
    {
      hide Sane, Inv, Counted;
      SaneKeys(cells, blocks, home, g);
      var mid := |cs| / 2;
      ghost var cells0, g0 := cells, g;
      n := CopyHalf(mid, c, cs);
      cs' := cs[..mid];
      ghost var cells1, g1 := cells, g;
      m := Relink(cs[mid - 1], n);
      HalfPath(cells0, g0, cells1, g1, cs, c, mid, n, g0.den[cs[mid]], g);
      SaneKeys(cells, blocks, home, g);
    }

    // The copy of the second half, and the cell before it
    method CopyHalf(mid: nat, c: Ptr, cs: seq<Ptr>) returns (n: Ptr)
      requires Settled() && c in cells && cells[c].kind == Root && Path(g.cells, cs, c) && 0 < mid < |cs|
      modifies `cells, `blocks, `home, `g
      ensures Sane(cells, blocks, home, g) && Unreferenced(cells, g, n) && cells[n].rc == 0 && cells[n].kind == Root
      ensures cs[mid] in old(g).den && Copied(old(cells), old(g), cells, g, n, old(g).den[cs[mid]])
      ensures cs[mid - 1] in cells && cs[mid - 1] != n && cells[cs[mid - 1]].kind != Root
      ensures cells[cs[mid - 1]].next in g.den && n in g.den && g.den[n] == g.den[cells[cs[mid - 1]].next]
    {
      ghost var cells0, g0 := cells, g;
      n := Copy(mid, c, cs);
      BeforeMiddle(cells, blocks, home, g, cells0, g0, cs, c, mid, n);
    }

    static predicate ShouldSplit(sz: nat, ops: nat) {
      ops > 4 && 2 * sz < 3 * ops
    }

    // reroot(r): afterwards r is the Root of its tree, and no version has changed
    method Reroot(r: Ptr, ghost h: Var)
      requires Settled() && h in g.owner && g.owner[h] == r
      requires r in cells && cells[r].kind != Root
      modifies `cells, `blocks, `home, `g
      ensures Settled() && SameVersions(old(g), g)
      ensures r in cells && cells[r].kind == Root
    {
      var cs, c := CollectCells(r);
      var split := ShouldSplit(cells[c].num, |cs|);
      if split {
        var sz := GetSize(c, cs);
        split := ShouldSplit(sz, |cs|);
      }
      ghost var g0 := g;
      if split {
        var n, cs' := SplitPath(c, cs, h);
        RerootPath(r, n, cs', h);
      } else {
        RerootPath(r, c, cs, h);
      }
    }

    // ----- write, push_back, pop_back -----

    // After this the cell of h is a Root
    method MakeRoot(c: Ptr, ghost h: Var)
      requires Settled() && h in g.owner && g.owner[h] == c
      modifies `cells, `blocks, `home, `g
      ensures Settled() && SameVersions(old(g), g)
      ensures c in cells && cells[c].kind == Root
    {
      OwnedCell(cells, blocks, home, g, h);
      if cells[c].kind != Root {
        Reroot(c, h);
      }
    }

    // The branches taken when h is the only holder
    method StoreOwned(c: Ptr, i: nat, v: T, ghost h: Var)
      requires Settled() && h in g.owner && g.owner[h] == c && c in cells && cells[c].kind == Root && cells[c].rc == 1
      requires i < |Value(g, h)|
      modifies `cells, `blocks, `home, `g
      ensures Settled() && Acted(old(g), g, h, c, old(Value(g, h))[i := v])
      ensures c in cells && cells[c].kind == Root
    {
      CountOne(cells, blocks, home, g, h);
      ghost var cells0, g0 := cells, g;
      Store(c, i, v);
      EditedCounted(cells0, g0, cells, g, c, g0.den[c][i := v]);
      EditedActed(cells0, g0, cells, g, h, g0.den[c][i := v]);
    }

    method PushOwned(c: Ptr, v: T, ghost h: Var)
      requires Settled() && h in g.owner && g.owner[h] == c && c in cells && cells[c].kind == Root && cells[c].rc == 1
      modifies `cells, `blocks, `home, `g
      ensures Settled() && Acted(old(g), g, h, c, old(Value(g, h)) + [v])
    {
      CountOne(cells, blocks, home, g, h);
      ghost var cells0, g0 := cells, g;
      PushBackCore(c, v);
      EditedCounted(cells0, g0, cells, g, c, g0.den[c] + [v]);
      EditedActed(cells0, g0, cells, g, h, g0.den[c] + [v]);
    }

    method PopOwned(c: Ptr, ghost h: Var)
      requires Settled() && h in g.owner && g.owner[h] == c && c in cells && cells[c].kind == Root && cells[c].rc == 1
      requires |Value(g, h)| > 0
      modifies `cells, `blocks, `home, `g
      ensures Settled() && Acted(old(g), g, h, c, old(Value(g, h))[..old(|Value(g, h)|) - 1])
    {
      CountOne(cells, blocks, home, g, h);
      ghost var cells0, g0 := cells, g;
      PopBackCore(c);
      EditedCounted(cells0, g0, cells, g, c, g0.den[c][..|g0.den[c]| - 1]);
      EditedActed(cells0, g0, cells, g, h, g0.den[c][..|g0.den[c]| - 1]);
    }

    // The branches taken when others hold c too: a new Root n takes over the array, and c
    // becomes the diff d
    method HandOver(c: Ptr, d: Cell<T>, n: Ptr, size: nat, a: Ptr, ghost h: Var, ghost r: Rec<T>, ghost vs: seq<T>,
                    ghost blocks0: Blocks<T>, ghost home0: map<Ptr, Ptr>)
      requires Sane(cells, blocks0, home0, g) && Counted(cells, g, NULL, NULL)
      requires h in g.owner && g.owner[h] == c && c in cells && cells[c].kind == Root && cells[c].payload.Values?
      requires !r.RootOf? && r.next == n && n !in cells && n != NULL
      requires Applies(r, vs) && c in g.den && g.den[c] == Diff(r, vs) && |vs| == size
      requires cells[c].rc > 1 && d.rc == cells[c].rc - 1 && Matches(blocks, home, c, d, r)
      requires KeptBut(blocks0, home0, blocks, home, cells[c].payload.vs, a) && HoldsValues(blocks, home, n, a, vs)
      modifies `cells, `g
      ensures Settled() && Acted(old(g), g, h, n, vs) && n in cells && cells[n].kind == Root
    {
      hide Sane, Inv, Counted;
      SaneKeys(cells, blocks0, home0, g);
      ghost var cells0, g0 := cells, g;
      ghost var g', cells' := SpawnOk(cells0, blocks0, home0, g0, h, c, d, r, blocks, home, a, vs);
      cells := cells[c := d];
      cells := cells[n := Cell(2, Root, size, NULL, Values(a))];
      g := g';
      SpawnedActed(g0, g, h, n, vs);
    }

    method StoreShared(c: Ptr, i: nat, v: T, ghost h: Var) returns (n: Ptr)
      requires Settled() && h in g.owner && g.owner[h] == c && c in cells && cells[c].kind == Root && cells[c].rc != 1
      requires i < |Value(g, h)|
      modifies `cells, `blocks, `home, `g
      ensures Settled() && Acted(old(g), g, h, n, old(Value(g, h))[i := v])
      ensures n in cells && cells[n].kind == Root
    {
      CountOne(cells, blocks, home, g, h);
      hide Sane, Inv, Counted, KeptBut;
      SaneCell(cells, blocks, home, g, c);
      SaneKeys(cells, blocks, home, g);
      n := Malloc(cells.Keys);
      ghost var blocks0, home0, xs := blocks, home, g.den[c];
      var a := cells[c].payload.vs;
      var d := Cell(cells[c].rc - 1, Set, i, n, Elem(blocks[a].elems[i]));
      blocks := blocks[a := blocks[a].(elems := blocks[a].elems[i := v])];
      home := home[a := n];
      BlockSet(blocks0, home0, a, blocks[a], n);
      HandOver(c, d, n, cells[c].num, a, h, SetOf(n, i, xs[i]), xs[i := v], blocks0, home0);
    }

    method PushShared(c: Ptr, v: T, ghost h: Var) returns (n: Ptr)
      requires Settled() && h in g.owner && g.owner[h] == c && c in cells && cells[c].kind == Root && cells[c].rc != 1
      modifies `cells, `blocks, `home, `g
      ensures Settled() && Acted(old(g), g, h, n, old(Value(g, h)) + [v])
    {
      CountOne(cells, blocks, home, g, h);
      hide Sane, Inv, Counted;
      SaneCell(cells, blocks, home, g, c);
      SaneKeys(cells, blocks, home, g);
      n := Malloc(cells.Keys);
      ghost var blocks0, home0, xs := blocks, home, g.den[c];
      var d := Cell(cells[c].rc - 1, PopBack, cells[c].num, n, Nothing);
      var a := Construct(cells[c].payload.vs, v, xs, c, n);
      HandOver(c, d, n, cells[c].num + 1, a, h, PopOf(n), xs + [v], blocks0, home0);
    }

    method PopShared(c: Ptr, ghost h: Var) returns (n: Ptr)
      requires Settled() && h in g.owner && g.owner[h] == c && c in cells && cells[c].kind == Root && cells[c].rc != 1
      requires |Value(g, h)| > 0
      modifies `cells, `blocks, `home, `g
      ensures Settled() && Acted(old(g), g, h, n, old(Value(g, h))[..old(|Value(g, h)|) - 1])
    {
      CountOne(cells, blocks, home, g, h);
      hide Sane, Inv, Counted, KeptBut, Diff, Applies;
      SaneCell(cells, blocks, home, g, c);
      SaneKeys(cells, blocks, home, g);
      n := Malloc(cells.Keys);
      ghost var blocks0, home0, xs := blocks, home, g.den[c];
      var a, size := cells[c].payload.vs, cells[c].num;
      var d := Cell(cells[c].rc - 1, PushBack, size, n, Elem(blocks[a].elems[size - 1]));
      blocks := blocks[a := blocks[a].(elems := blocks[a].elems[..size - 1])];
      home := home[a := n];
      BlockSet(blocks0, home0, a, blocks[a], n);
      PushedLast(n, xs);
      HandOver(c, d, n, size - 1, a, h, PushOf(n, xs[size - 1]), xs[..size - 1], blocks0, home0);
    }

    // write, push_back and pop_back: the cell the handle has to hold afterwards
    method Write(c: Ptr, i: nat, v: T, ghost h: Var) returns (n: Ptr)
      requires Settled() && h in g.owner && g.owner[h] == c && i < |Value(g, h)|
      modifies `cells, `blocks, `home, `g
      ensures Settled() && Acted(old(g), g, h, n, old(Value(g, h))[i := v])
      ensures n in cells && cells[n].kind == Root
    {
      ghost var g0 := g;
      MakeRoot(c, h);
      ghost var g1 := g;
      if cells[c].rc == 1 {
        StoreOwned(c, i, v, h);
        n := c;
      } else {
        n := StoreShared(c, i, v, h);
      }
      ActedAfter(g0, g1, g, h, n, Value(g0, h)[i := v]);
    }

    method Push(c: Ptr, v: T, ghost h: Var) returns (n: Ptr)
      requires Settled() && h in g.owner && g.owner[h] == c
      modifies `cells, `blocks, `home, `g
      ensures Settled() && Acted(old(g), g, h, n, old(Value(g, h)) + [v])
    {
      ghost var g0 := g;
      MakeRoot(c, h);
      ghost var g1 := g;
      if cells[c].rc == 1 {
        PushOwned(c, v, h);
        n := c;
      } else {
        n := PushShared(c, v, h);
      }
      ActedAfter(g0, g1, g, h, n, Value(g0, h) + [v]);
    }

    method Pop(c: Ptr, ghost h: Var) returns (n: Ptr)
      requires Settled() && h in g.owner && g.owner[h] == c && |Value(g, h)| > 0
      modifies `cells, `blocks, `home, `g
      ensures Settled() && Acted(old(g), g, h, n, old(Value(g, h))[..old(|Value(g, h)|) - 1])
    {
      ghost var g0 := g;
      MakeRoot(c, h);
      ghost var g1 := g;
      if cells[c].rc == 1 {
        PopOwned(c, h);
        n := c;
      } else {
        n := PopShared(c, h);
      }
      ActedAfter(g0, g1, g, h, n, Value(g0, h)[..|Value(g0, h)| - 1]);
    }

    // ----- the public operations -----

    // The sequence every live handle denotes
    ghost function Contents(): map<Var, seq<T>>
      reads this
    {
      Views(g)
    }

    constructor ()
      ensures Valid() && Contents() == map[]
    {
      cells, blocks, vars := map[], map[], map[];
      g := Graph(map[], map[], map[], map[], map[]);
      home := map[];
    }

    // A name for a further array object
    method Fresh() returns (h: Var)
      requires Valid()
      ensures h !in Contents()
    {
      h := Malloc(vars.Keys);
    }

    method SetAt(h: Var, i: nat, v: T)
      requires Valid() && h in Contents() && i < |Contents()[h]|
      modifies this
      ensures Valid() && Contents() == old(Contents()[h := Contents()[h][i := v]])
    {
      ghost var g0 := g;
      var n := Write(vars[h], i, v, h);
      ActedViews(g0, g, h, n, Value(g0, h)[i := v]);
      vars := vars[h := n];
    }

    method PushBackTo(h: Var, v: T)
      requires Valid() && h in Contents()
      modifies this
      ensures Valid() && Contents() == old(Contents()[h := Contents()[h] + [v]])
    {
      ghost var g0 := g;
      var n := Push(vars[h], v, h);
      ActedViews(g0, g, h, n, Value(g0, h) + [v]);
      vars := vars[h := n];
    }

    method PopBackFrom(h: Var)
      requires Valid() && h in Contents() && |Contents()[h]| > 0
      modifies this
      ensures Valid() && Contents() == old(Contents()[h := Contents()[h][..|Contents()[h]| - 1]])
    {
      ghost var g0 := g;
      var n := Pop(vars[h], h);
      ActedViews(g0, g, h, n, Value(g0, h)[..|Value(g0, h)| - 1]);
      vars := vars[h := n];
    }

    method Read(h: Var, i: nat) returns (v: T)
      requires Valid() && h in Contents() && i < |Contents()[h]|
      modifies this
      ensures Valid() && Contents() == old(Contents())
      ensures v == Contents()[h][i]
    {
      ghost var g0 := g;
      MakeRoot(vars[h], h);
      SameVersionsViews(g0, g);
      RootValue(cells, blocks, home, g, h);
      v := blocks[cells[vars[h]].payload.vs].elems[i];
    }

    method Size(h: Var) returns (n: nat)
      requires Valid() && h in Contents()
      modifies this
      ensures Valid() && Contents() == old(Contents())
      ensures n == |Contents()[h]|
    {
      ghost var g0 := g;
      MakeRoot(vars[h], h);
      SameVersionsViews(g0, g);
      RootValue(cells, blocks, home, g, h);
      n := cells[vars[h]].num;
    }

    // ----- exclusive_access -----

    // Its check_invariant: while the access lasts, the variable holds a Root
    ghost predicate Accessing(h: Var)
      reads this
    {
      h in vars && vars[h] in cells && cells[vars[h]].kind == Root
    }

    // exclusive_access(a)
    method OpenAccess(h: Var)
      requires Valid() && h in Contents()
      modifies this
      ensures Valid() && Contents() == old(Contents()) && Accessing(h)
    {
      hide Sane, Inv, Counted;
      ghost var g0 := g;
      MakeRoot(vars[h], h);
      SameVersionsViews(g0, g);
    }

    // size(): the size of the Root
    method AccessSize(h: Var) returns (n: nat)
      requires Valid() && Accessing(h)
      ensures h in Contents() && n == |Contents()[h]|
    {
      hide Sane, Inv, Counted;
      RootValue(cells, blocks, home, g, h);
      n := cells[vars[h]].num;
    }

    // operator[]: read from the raw array directly
    method AccessAt(h: Var, i: nat) returns (v: T)
      requires Valid() && Accessing(h) && h in Contents() && i < |Contents()[h]|
      ensures v == Contents()[h][i]
    {
      hide Sane, Inv, Counted;
      RootValue(cells, blocks, home, g, h);
      v := blocks[cells[vars[h]].payload.vs].elems[i];
    }

    // set(i, v): in place, or with a new Root when other versions need the old one
    method AccessSet(h: Var, i: nat, v: T)
      requires Valid() && Accessing(h) && h in Contents() && i < |Contents()[h]|
      modifies this
      ensures Valid() && Contents() == old(Contents()[h := Contents()[h][i := v]]) && Accessing(h)
    {
      hide Sane, Inv, Counted;
      ghost var g0 := g;
      var n := Write(vars[h], i, v, h);
      ActedViews(g0, g, h, n, Value(g0, h)[i := v]);
      vars := vars[h := n];
    }

    // parray(): an empty array, with no block at all
    method Create(h: Var)
      requires Valid() && h !in Contents()
      modifies this
      ensures Valid() && Contents() == old(Contents()[h := []])
    {
      var c := Malloc(cells.Keys);
      Install(h, c, 0, NULL, [], blocks, home);
    }

    // parray(sz, v)
    method CreateFilled(h: Var, sz: nat, v: T)
      requires Valid() && h !in Contents()
      modifies this
      ensures Valid() && Contents() == old(Contents()[h := seq(sz, _ => v)])
    {
      var c := Malloc(cells.Keys);
      var a := Malloc(blocks.Keys);
      ghost var blocks0, home0 := blocks, home;
      blocks := blocks[a := Block(sz, seq(sz, _ => v))];
      home := home[a := c];
      Install(h, c, sz, a, seq(sz, _ => v), blocks0, home0);
    }

    // The new variable h points to a new Root at c with the array a
    method Install(h: Var, c: Ptr, sz: nat, a: Ptr, ghost xs: seq<T>, ghost blocks0: Blocks<T>,
                   ghost home0: map<Ptr, Ptr>)
      requires Sane(cells, blocks0, home0, g) && Counted(cells, g, NULL, NULL) && vars == g.owner && h !in Views(g)
      requires c != NULL && c !in cells && a !in blocks0 && sz == |xs|
      requires HoldsValues(blocks, home, c, a, xs) && KeptBut(blocks0, home0, blocks, home, a, a)
      modifies `cells, `g, `vars
      ensures Valid() && Contents() == old(Views(g)[h := xs])
    {
      ghost var g', cells' := NewRoot(cells, blocks0, home0, g, h, c, blocks, home, a, xs);
      cells := cells[c := Cell(1, Root, sz, NULL, Values(a))];
      g := g';
      vars := vars[h := c];
    }

    // parray(parray const & s)
    method CopyFrom(h: Var, k: Var)
      requires Valid() && h !in Contents() && k in Contents()
      modifies this
      ensures Valid() && Contents() == old(Contents()[h := Contents()[k]])
    {
      hide Sane, Inv, Counted;
      SaneKeys(cells, blocks, home, g);
      var c := vars[k];
      OwnedCell(cells, blocks, home, g, k);
      ghost var g0 := g;
      ghost var g', cells' := AddOwner(cells, blocks, home, g0, h, c);
      cells := cells[c := cells[c].(rc := cells[c].rc + 1)];
      g := g';
      OwnViews(g0, g, h, c, Value(g0, k));
      vars := vars[h := c];
    }

    // ~parray()
    method Destroy(h: Var)
      requires Valid() && h in Contents()
      modifies this
      ensures Valid() && Contents() == old(Contents()) - {h}
    {
      var c := vars[h];
      ghost var g0 := g;
      g := DropOwner(cells, blocks, home, g0, h);
      DisownViews(g0, g, h);
      vars := vars - {h};
      ghost var g1 := g;
      DecRef(c);
      SameDenVersions(g1, g);
      SameVersionsViews(g1, g);
    }

    // h->m_cell = n, which gains a reference, and the old cell loses one
    method Repoint(h: Var, n: Ptr, ghost xs: seq<T>)
      requires Sane(cells, blocks, home, g) && vars == g.owner && h in vars && n in cells && vars[h] != n
      requires Counted(cells, g, NULL, NULL) || (Unreferenced(cells, g, n) && cells[n].rc == 0)
      requires n in g.den && g.den[n] == xs
      modifies this
      ensures Valid() && Contents() == old(Contents()[h := xs]) && h in vars && vars[h] == n
      ensures n in cells && (cells[n].kind == Root <==> old(cells[n]).kind == Root)
      ensures n in old(g.count) && (old(g.count[n]) == 0 ==> cells[n].rc == 1)
    {
      var c := Retarget(h, n);
      LetGo(c, h);
    }

    // inc_ref(n); m_cell = n: the old cell c has one reference too many now
    method Retarget(h: Var, n: Ptr) returns (c: Ptr)
      requires Sane(cells, blocks, home, g) && vars == g.owner && h in vars && n in cells && vars[h] != n
      requires Counted(cells, g, NULL, NULL) || (Unreferenced(cells, g, n) && cells[n].rc == 0)
      modifies this
      ensures Sane(cells, blocks, home, g) && c in cells && Counted(cells, g, c, NULL)
      ensures vars == g.owner && h in vars && vars[h] == n
      ensures n in old(g.den) && Views(g) == old(Views(g)[h := g.den[n]])
      ensures n in g.cells && (g.cells[n].RootOf? <==> old(cells[n]).kind == Root)
      ensures n in old(g.count) && n in g.count && g.count[n] == old(g.count[n]) + 1
    {
      hide Sane, Inv, Counted;
      c := vars[h];
      ghost var g', cells' := MoveView(cells, blocks, home, g, h, n);
      cells := cells[n := cells[n].(rc := cells[n].rc + 1)];
      vars := vars[h := n];
      g := g';
    }

    // dec_ref of a cell that the graph no longer counts, seen from a handle h of another one
    method LetGo(c: Ptr, ghost h: Var)
      requires Sane(cells, blocks, home, g) && c in cells && Counted(cells, g, c, NULL) && vars == g.owner && h in vars
      requires vars[h] in g.cells && vars[h] in g.count
      modifies this
      ensures Valid() && Contents() == old(Contents()) && vars == old(vars)
      ensures vars[h] in cells && (cells[vars[h]].kind == Root <==> old(g.cells[vars[h]]).RootOf?)
      ensures old(g.count[vars[h]]) == 1 ==> cells[vars[h]].rc == 1
    {
      ghost var g1 := g;
      DecRef(c);
      SameDenVersions(g1, g);
      SameVersionsViews(g1, g);
      OwnedCell(cells, blocks, home, g, h);
      CountOne(cells, blocks, home, g, h);
      if g1.count[vars[h]] == 1 {
        StillSole(g1, g, h);
      }
    }

    // operator=(parray const & s)
    method Assign(h: Var, k: Var)
      requires Valid() && h in Contents() && k in Contents()
      modifies this
      ensures Valid() && Contents() == old(Contents()[h := Contents()[k]])
    {
      OwnedCell(cells, blocks, home, g, k);
      if vars[h] != vars[k] {
        Repoint(h, vars[k], Value(g, k));
      } else {
        // the count goes up and down again
        assert Contents()[h] == Contents()[k];
      }
    }

    // ensure_unshared: afterwards no other handle and no other version uses the array of h
    method EnsureUnshared(h: Var)
      requires Valid() && h in Contents()
      modifies this
      ensures Valid() && Contents() == old(Contents())
      ensures h in vars && vars[h] in cells && cells[vars[h]].rc == 1 && cells[vars[h]].kind == Root
    {
      hide Sane, Inv, Counted;
      SaneKeys(cells, blocks, home, g);
      OwnedCell(cells, blocks, home, g, h);
      var c := vars[h];
      if cells[c].rc != 1 || cells[c].kind != Root {
        ghost var cells0, g0 := cells, g;
        var cs, root := CollectCells(c);
        var n := Copy(0, root, cs);
        CopiedViews(cells0, g0, cells, g, n, Value(g0, h));
        Repoint(h, n, Value(g0, h));
      }
    }

    // Dropping the last handle has freed every cell and every raw array
    lemma NoLeak()
      requires Valid() && Contents() == map[]
      ensures cells == map[] && blocks == map[]
    {
      forall h ensures h !in g.owner {
        assert h in g.owner ==> h in Views(g);
      }
      assert g.owner == map[];
      forall x | x in g.count ensures g.count[x] > 0 {
        assert cells[x].rc == g.count[x];
      }
      NoHandlesNoCells(g);
      assert cells.Keys == {};
      forall b ensures b !in blocks {
        assert b in blocks ==> HousedAt(cells, home, b, NULL);
      }
    }

    // Every count is the number of variables and of differences that refer to the cell
    lemma {:induction false} CountsExact(x: Ptr)
      requires Valid() && x in cells
      ensures cells[x].rc > 0
      ensures cells[x].rc ==
        |set h | h in vars && vars[h] == x| + |set y | y in cells && cells[y].kind != Root && cells[y].next == x|
    {
      assert CountOk(g, x);
      assert x in g.count && cells[x].rc == g.count[x];
      Referrers(cells, blocks, home, g, x);
      assert Owners(g, x) == set h | h in vars && vars[h] == x;
    }

    // No variable and no difference refers to a freed cell
    lemma {:induction false} NoDangling()
      requires Valid()
      ensures forall h :: h in vars ==> vars[h] in cells
      ensures forall y :: y in cells && cells[y].kind != Root ==> cells[y].next in cells
    {
      forall h | h in vars ensures vars[h] in cells {
        OwnedCell(cells, blocks, home, g, h);
      }
      forall y | y in cells && cells[y].kind != Root ensures cells[y].next in cells {
        NextCell(cells, blocks, home, g, y);
      }
    }

    // What a cell denotes
    ghost function Meaning(x: Ptr): seq<T>
      reads this
    {
      if x in g.den then g.den[x] else []
    }

    // A variable denotes what its cell does; a Root denotes its elements, a difference the
    // sequence of the next cell with one element set, added or taken away
    lemma {:induction false} MeaningOf(x: Ptr)
      requires Valid() && x in cells
      ensures forall h :: h in vars && vars[h] == x ==> h in Contents() && Contents()[h] == Meaning(x)
      ensures var c, s := cells[x], Meaning(cells[x].next);
        match c.kind
        case Root => c.payload.Values? && Meaning(x) == Elems(blocks, c.payload.vs) && c.num == |Meaning(x)|
        case Set => c.payload.Elem? && c.num < |s| && Meaning(x) == s[c.num := c.payload.e]
        case PushBack => c.payload.Elem? && Meaning(x) == s + [c.payload.e]
        case PopBack => |s| > 0 && Meaning(x) == s[..|s| - 1]
    {
      assert Local(g, x);
      assert Matches(blocks, home, x, cells[x], g.cells[x]);
    }
  }
}

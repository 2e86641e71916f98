/** The union-find forest of equiv_manager (src/kernel/equiv_manager.cpp): union by rank,
  * no path compression.
  */
module UnionFind {

  datatype Node = Node(parent: nat, rank: nat)

  type Forest = seq<Node>

  function Pow2(n: nat): (p: nat)
    ensures p > n
  {
    if n == 0 then 1 else 2 * Pow2(n - 1)
  }

  lemma {:induction false} Pow2Monotone(m: nat, n: nat)
    requires m <= n
    ensures Pow2(m) <= Pow2(n)
  {
    if m < n {
      Pow2Monotone(m, n - 1);
    }
  }

  // Ranks increase strictly along parent links, and are bounded
  ghost predicate Ranked(f: Forest) {
    forall i: nat {:trigger RankedAt(f, i)} :: i < |f| ==> RankedAt(f, i)
  }

  ghost predicate RankedAt(f: Forest, i: nat)
    requires i < |f|
  {
    && f[i].parent < |f| && f[i].rank < |f|
    && (f[i].parent != i ==> f[i].rank < f[f[i].parent].rank)
  }

  ghost function Root(f: Forest, i: nat): (r: nat)
    requires Ranked(f) && i < |f|
    ensures r < |f| && f[r].parent == r && f[i].rank <= f[r].rank
    decreases |f| - f[i].rank
  {
    assert RankedAt(f, i);
    if f[i].parent == i then i else Root(f, f[i].parent)
  }

  // How many of the first n nodes have the root r
  ghost function Members(f: Forest, r: nat, n: nat): (m: nat)
    requires Ranked(f) && n <= |f|
    ensures m <= n
  {
    if n == 0 then 0 else Members(f, r, n - 1) + if Root(f, n - 1) == r then 1 else 0
  }

  // A root of rank k has at least 2^k members
  ghost predicate Weighted(f: Forest) {
    && Ranked(f)
    && forall r {:trigger Members(f, r, |f|)} ::
      0 <= r < |f| && f[r].parent == r ==> Pow2(f[r].rank) <= Members(f, r, |f|)
  }

  // ----- a new node -----

  lemma {:induction false} AddedRoot(f: Forest, i: nat)
    requires Ranked(f) && i < |f| && Ranked(f + [Node(|f|, 0)])
    ensures Root(f + [Node(|f|, 0)], i) == Root(f, i)
    decreases |f| - f[i].rank
  {
    assert RankedAt(f, i) && RankedAt(f + [Node(|f|, 0)], i);
    if f[i].parent != i {
      AddedRoot(f, f[i].parent);
    }
  }

  lemma {:induction false} AddedMembers(f: Forest, r: nat, n: nat)
    requires Ranked(f) && n <= |f| && Ranked(f + [Node(|f|, 0)])
    ensures Members(f + [Node(|f|, 0)], r, n) == Members(f, r, n)
  {
    if n > 0 {
      AddedMembers(f, r, n - 1);
      AddedRoot(f, n - 1);
    }
  }

  lemma AddNode(f: Forest)
    requires Weighted(f)
    ensures var g := f + [Node(|f|, 0)];
      && Weighted(g) && Root(g, |f|) == |f| && forall i :: 0 <= i < |f| ==> Root(g, i) == Root(f, i)
  {
    var g := f + [Node(|f|, 0)];
    forall i: nat | i < |g| ensures RankedAt(g, i) {
      assert i < |f| ==> RankedAt(f, i);
    }
    forall i | 0 <= i < |f| ensures Root(g, i) == Root(f, i) {
      AddedRoot(f, i);
    }
    forall r | 0 <= r < |g| && g[r].parent == r ensures Pow2(g[r].rank) <= Members(g, r, |g|) {
      AddedMembers(f, r, |f|);
      if r < |f| {
        assert Pow2(f[r].rank) <= Members(f, r, |f|);
      } else {
        assert Root(g, |f|) == |f|;
      }
    }
  }

  // ----- linking two roots -----

  // The root c gets the parent p, whose rank becomes k
  function Linked(f: Forest, c: nat, p: nat, k: nat): Forest
    requires c < |f| && p < |f|
  {
    f[c := Node(p, f[c].rank)][p := Node(p, k)]
  }

  ghost predicate Linkable(f: Forest, c: nat, p: nat, k: nat) {
    && Weighted(f) && c < |f| && p < |f| && c != p && f[c].parent == c && f[p].parent == p
    && f[c].rank < k && f[p].rank <= k
    && (k == f[p].rank || (k == f[p].rank + 1 && f[c].rank == f[p].rank))
  }

  lemma {:induction false} MembersApart(f: Forest, a: nat, b: nat, n: nat)
    requires Ranked(f) && n <= |f| && a != b
    ensures Members(f, a, n) + Members(f, b, n) <= n
  {
    if n > 0 {
      MembersApart(f, a, b, n - 1);
    }
  }

  lemma LinkedRanked(f: Forest, c: nat, p: nat, k: nat)
    requires Linkable(f, c, p, k)
    ensures Ranked(Linked(f, c, p, k))
  {
    MembersApart(f, c, p, |f|);
    assert Pow2(f[c].rank) <= Members(f, c, |f|) && Pow2(f[p].rank) <= Members(f, p, |f|);
    forall i: nat | i < |f| ensures RankedAt(Linked(f, c, p, k), i) {
      assert RankedAt(f, i);
    }
  }

  lemma {:induction false} LinkedRoot(f: Forest, c: nat, p: nat, k: nat, i: nat)
    requires Linkable(f, c, p, k) && Ranked(Linked(f, c, p, k)) && i < |f|
    ensures Root(Linked(f, c, p, k), i) == if Root(f, i) == c then p else Root(f, i)
    decreases |f| - f[i].rank
  {
    assert RankedAt(f, i) && RankedAt(Linked(f, c, p, k), i);
    if f[i].parent != i {
      LinkedRoot(f, c, p, k, f[i].parent);
    }
  }

  lemma {:induction false} LinkedMembers(f: Forest, c: nat, p: nat, k: nat, r: nat, n: nat)
    requires Linkable(f, c, p, k) && Ranked(Linked(f, c, p, k)) && n <= |f| && r < |f|
    ensures r == p ==> Members(Linked(f, c, p, k), r, n) == Members(f, p, n) + Members(f, c, n)
    ensures r != p && r != c ==> Members(Linked(f, c, p, k), r, n) == Members(f, r, n)
  {
    if n > 0 {
      LinkedMembers(f, c, p, k, r, n - 1);
      LinkedRoot(f, c, p, k, n - 1);
    }
  }

  // Exactly the classes of c and p become one
  lemma Link(f: Forest, c: nat, p: nat, k: nat)
    requires Linkable(f, c, p, k)
    ensures var g := Linked(f, c, p, k);
      Weighted(g) && forall i :: 0 <= i < |f| ==> Root(g, i) == if Root(f, i) == c then p else Root(f, i)
  {
    hide Members, RankedAt;
    var g := Linked(f, c, p, k);
    LinkedRanked(f, c, p, k);
    forall i | 0 <= i < |f| ensures Root(g, i) == if Root(f, i) == c then p else Root(f, i) {
      LinkedRoot(f, c, p, k, i);
    }
    forall r | 0 <= r < |g| && g[r].parent == r ensures Pow2(g[r].rank) <= Members(g, r, |g|) {
      LinkedMembers(f, c, p, k, r, |f|);
      assert Pow2(f[r].rank) <= Members(f, r, |f|);
      if r == p && k == f[p].rank + 1 {
        assert Pow2(f[c].rank) <= Members(f, c, |f|);
      }
    }
  }

  // find: at most as many steps as the rank of the root, which is at most the logarithm of
  // the number of nodes
  method Find(f: Forest, start: nat) returns (r: nat, ghost steps: nat)
    requires Weighted(f) && start < |f|
    ensures r == Root(f, start) && Pow2(steps) <= |f|
  {
    var n: nat := start;
    steps := 0;
    while true
      invariant 0 <= n < |f| && Root(f, n) == Root(f, start)
      invariant steps <= f[n].rank
      decreases |f| - f[n].rank
    {
      assert RankedAt(f, n);
      var p := f[n].parent;
      if p == n {
        r := p;
        break;
      }
      n := p;
      steps := steps + 1;
    }
    Pow2Monotone(steps, f[r].rank);
    assert Pow2(f[r].rank) <= Members(f, r, |f|);
  }
}

/** equiv_manager: equalities found so far, closed under congruence on the way
  * (src/kernel/equiv_manager.cpp).
  */
module EquivManager {
  import opened Exprs
  import opened Renaming
  import opened UnionFind

  type Relation = (Expr, Expr) -> bool

  type Pairs = seq<(Expr, Expr)>

  // ----- congruences -----

  ghost predicate Equivalence(R: Relation) {
    && (forall a, b {:trigger R(a, b)} :: Erase(a) == Erase(b) ==> R(a, b))
    && (forall a, b :: R(a, b) ==> R(b, a))
    && (forall a, b, c :: Chained(R, a, b, c))
  }

  // Transitivity, one instance at a time
  ghost predicate Chained(R: Relation, a: Expr, b: Expr, c: Expr) {
    R(a, b) && R(b, c) ==> R(a, c)
  }

  // Binder names and infos, the data of mdata and the structure names of projections do not
  // matter
  ghost predicate Compatible(R: Relation) {
    CompatibleSingle(R) && CompatibleSeveral(R)
  }

  ghost predicate CompatibleSingle(R: Relation) {
    && (forall n, t, t' {:trigger R(t, t'), MVar(n, t), MVar(n, t')} :: R(t, t') ==> R(MVar(n, t), MVar(n, t')))
    && (forall m, m', x, x' {:trigger R(x, x'), MData(m, x), MData(m', x')} ::
          R(x, x') ==> R(MData(m, x), MData(m', x')))
    && (forall s, s', i, x, x' {:trigger R(x, x'), Proj(s, i, x), Proj(s', i, x')} ::
          R(x, x') ==> R(Proj(s, i, x), Proj(s', i, x')))
  }

  ghost predicate CompatibleSeveral(R: Relation) {
    && (forall f, f', a, a' {:trigger R(f, f'), R(a, a'), App(f, a), App(f', a')} ::
          R(f, f') && R(a, a') ==> R(App(f, a), App(f', a')))
    && (forall k, n, n', t, t', b, b', i, i'
          {:trigger R(t, t'), R(b, b'), Binding(k, n, t, b, i), Binding(k, n', t', b', i')} ::
          R(t, t') && R(b, b') ==> R(Binding(k, n, t, b, i), Binding(k, n', t', b', i')))
    && (forall n, n', t, t', v, v', b, b'
          {:trigger R(t, t'), R(v, v'), R(b, b'), Let(n, t, v, b), Let(n', t', v', b')} ::
          R(t, t') && R(v, v') && R(b, b') ==> R(Let(n, t, v, b), Let(n', t', v', b')))
  }

  ghost predicate IsCongruence(R: Relation, added: Pairs) {
    Equivalence(R) && Compatible(R) && forall p :: p in added ==> R(p.0, p.1)
  }

  // The least congruence that contains the pairs
  ghost predicate Entailed(added: Pairs, a: Expr, b: Expr) {
    forall R: Relation :: IsCongruence(R, added) ==> R(a, b)
  }

  lemma EntailedErase(added: Pairs, a: Expr, b: Expr)
    requires Erase(a) == Erase(b)
    ensures Entailed(added, a, b)
  {
  }

  lemma EntailedSymmetric(added: Pairs, a: Expr, b: Expr)
    requires Entailed(added, a, b)
    ensures Entailed(added, b, a)
  {
  }

  lemma EntailedTransitive(added: Pairs, a: Expr, b: Expr, c: Expr)
    requires Entailed(added, a, b) && Entailed(added, b, c)
    ensures Entailed(added, a, c)
  {
    forall R: Relation | IsCongruence(R, added) ensures R(a, c) {
      assert Chained(R, a, b, c);
    }
  }

  lemma EntailedMore(added: Pairs, p: (Expr, Expr), a: Expr, b: Expr)
    requires Entailed(added, a, b)
    ensures Entailed(added + [p], a, b)
  {
    forall R: Relation | IsCongruence(R, added + [p]) ensures R(a, b) {
      assert IsCongruence(R, added) by {
        forall q | q in added ensures R(q.0, q.1) {
          assert q in added + [p];
        }
      }
    }
  }

  lemma EntailedAdded(added: Pairs, p: (Expr, Expr))
    requires p in added
    ensures Entailed(added, p.0, p.1)
  {
  }

  // The parts that is_equiv_core compares, under the same constructor
  ghost predicate SameShape(a: Expr, b: Expr) {
    match (a, b)
    case (Const(n, ls), Const(n', ls')) => n == n' && ls == ls'
    case (MVar(n, _), MVar(n', _)) => n == n'
    case (FVar(n), FVar(n')) => n == n'
    case (App(_, _), App(_, _)) => true
    case (Binding(k, _, _, _, _), Binding(k', _, _, _, _)) => k == k'
    case (Sort(l), Sort(l')) => l == l'
    case (Lit(l), Lit(l')) => l == l'
    case (MData(_, _), MData(_, _)) => true
    case (Proj(_, i, _), Proj(_, i', _)) => i == i'
    case (Let(_, _, _, _), Let(_, _, _, _)) => true
    case _ => false
  }

  ghost predicate PartsEntailed(added: Pairs, a: Expr, b: Expr)
    requires SameShape(a, b)
  {
    match a
    case MVar(_, t) => Entailed(added, t, b.mtype)
    case App(f, x) => Entailed(added, f, b.fn) && Entailed(added, x, b.arg)
    case Binding(_, _, t, x, _) => Entailed(added, t, b.dom) && Entailed(added, x, b.body)
    case Let(_, t, v, x) => Entailed(added, t, b.ltype) && Entailed(added, v, b.val) && Entailed(added, x, b.body)
    case MData(_, x) => Entailed(added, x, b.e)
    case Proj(_, _, x) => Entailed(added, x, b.e)
    case _ => true
  }

  lemma EntailedParts(added: Pairs, a: Expr, b: Expr)
    requires SameShape(a, b) && PartsEntailed(added, a, b)
    ensures Entailed(added, a, b)
  {
    forall R: Relation | IsCongruence(R, added) ensures R(a, b) {
      PartsRelated(R, added, a, b);
    }
  }

  lemma PartsRelated(R: Relation, added: Pairs, a: Expr, b: Expr)
    requires IsCongruence(R, added) && SameShape(a, b) && PartsEntailed(added, a, b)
    ensures R(a, b)
  {
    match a
    case MVar(_, t) => assert R(t, b.mtype);
    case App(f, x) => assert R(f, b.fn) && R(x, b.arg);
    case Binding(_, _, t, x, _) => assert R(t, b.dom) && R(x, b.body);
    case Let(_, t, v, x) => assert R(t, b.ltype) && R(v, b.val) && R(x, b.body);
    case MData(_, x) => assert R(x, b.e);
    case Proj(_, _, x) => assert R(x, b.e);
    case _ =>
  }

  // ----- the manager -----

  // Nodes in one class have equal terms
  ghost predicate Sound(f: Forest, keys: seq<Expr>, added: Pairs) {
    && Weighted(f) && |keys| == |f|
    && forall i, j :: 0 <= i < |f| && 0 <= j < |f| && Root(f, i) == Root(f, j) ==> Entailed(added, keys[i], keys[j])
  }

  // The table maps each term, up to binder names, to its own node
  ghost predicate Indexed(m: map<Expr, nat>, keys: seq<Expr>) {
    && (forall e :: e in m ==> m[e] < |keys| && keys[m[e]] == e)
    && (forall i :: 0 <= i < |keys| ==> keys[i] in m && m[keys[i]] == i)
  }

  // The two terms are in one class
  ghost predicate Together(f: Forest, m: map<Expr, nat>, a: Expr, b: Expr) {
    && Ranked(f) && Erase(a) in m && Erase(b) in m && m[Erase(a)] < |f| && m[Erase(b)] < |f|
    && Root(f, m[Erase(a)]) == Root(f, m[Erase(b)])
  }

  ghost predicate AllTogether(f: Forest, m: map<Expr, nat>, added: Pairs) {
    forall p :: p in added ==> Together(f, m, p.0, p.1)
  }

  // Terms and classes are only added and joined
  ghost predicate Grows(f: Forest, m: map<Expr, nat>, f': Forest, m': map<Expr, nat>) {
    && Ranked(f) && Ranked(f') && |f| <= |f'|
    && (forall e :: e in m ==> e in m' && m'[e] == m[e])
    && forall i, j :: 0 <= i < |f| && 0 <= j < |f| && Root(f, i) == Root(f, j) ==> Root(f', i) == Root(f', j)
  }

  lemma GrowsTogether(f: Forest, m: map<Expr, nat>, f': Forest, m': map<Expr, nat>, added: Pairs)
    requires Grows(f, m, f', m') && AllTogether(f, m, added)
    ensures AllTogether(f', m', added)
  {
  }

  // The hash codes that are compared before anything else
  type Codes = Expr -> nat

  // Without hashing they are all the same
  function CodesOf(hash: Codes, useHash: bool): Codes {
    if useHash then hash else (_: Expr) => 0
  }

  // What structural comparison finds on top of the classes as they are: the codes agree at every
  // pair that is compared
  ghost predicate Derivable(h: Codes, f: Forest, m: map<Expr, nat>, a: Expr, b: Expr)
    decreases a, 1
  {
    h(a) == h(b) &&
    if a.BVar? && b.BVar? then a.idx == b.idx
    else Together(f, m, a, b) || Erase(a) == Erase(b) || (SameShape(a, b) && PartsDerivable(h, f, m, a, b))
  }

  ghost predicate PartsDerivable(h: Codes, f: Forest, m: map<Expr, nat>, a: Expr, b: Expr)
    requires SameShape(a, b)
    decreases a, 0
  {
    match a
    case MVar(_, t) => Derivable(h, f, m, t, b.mtype)
    case App(g, x) => Derivable(h, f, m, g, b.fn) && Derivable(h, f, m, x, b.arg)
    case Binding(_, _, t, x, _) => Derivable(h, f, m, t, b.dom) && Derivable(h, f, m, x, b.body)
    case Let(_, t, v, x) =>
      Derivable(h, f, m, t, b.ltype) && Derivable(h, f, m, v, b.val) && Derivable(h, f, m, x, b.body)
    case MData(_, x) => Derivable(h, f, m, x, b.e)
    case Proj(_, _, x) => Derivable(h, f, m, x, b.e)
    case _ => true
  }

  // What structural comparison finds on top of the added pairs alone
  ghost predicate Congruent(h: Codes, added: Pairs, a: Expr, b: Expr)
    decreases a, 1
  {
    h(a) == h(b) &&
    if a.BVar? && b.BVar? then a.idx == b.idx
    else
      || (a, b) in added || (b, a) in added || Erase(a) == Erase(b)
      || (SameShape(a, b) && PartsCongruent(h, added, a, b))
  }

  ghost predicate PartsCongruent(h: Codes, added: Pairs, a: Expr, b: Expr)
    requires SameShape(a, b)
    decreases a, 0
  {
    match a
    case MVar(_, t) => Congruent(h, added, t, b.mtype)
    case App(g, x) => Congruent(h, added, g, b.fn) && Congruent(h, added, x, b.arg)
    case Binding(_, _, t, x, _) => Congruent(h, added, t, b.dom) && Congruent(h, added, x, b.body)
    case Let(_, t, v, x) =>
      Congruent(h, added, t, b.ltype) && Congruent(h, added, v, b.val) && Congruent(h, added, x, b.body)
    case MData(_, x) => Congruent(h, added, x, b.e)
    case Proj(_, _, x) => Congruent(h, added, x, b.e)
    case _ => true
  }

  // A hash code that does not see binder names
  ghost predicate NamesUnseen(h: Codes) {
    forall a, b :: Erase(a) == Erase(b) ==> h(a) == h(b)
  }

  // It goes through every constructor, holds up to binder names, and holds of the added pairs, if
  // these are not two bound variables
  lemma {:induction false} CongruentClosed(R: Relation, added: Pairs)
    requires forall a, b :: R(a, b) <==> Congruent(CodesOf(_ => 0, false), added, a, b)
    ensures Compatible(R) && (forall a, b :: Erase(a) == Erase(b) ==> R(a, b))
    ensures forall p :: p in added && !(p.0.BVar? && p.1.BVar?) ==> R(p.0, p.1)
  {
    hide Erase, Congruent, SameShape, PartsCongruent, CompatibleSingle, CompatibleSeveral;
    var h := CodesOf(_ => 0, false);
    CongruentSingle(R, h, added);
    CongruentSeveral(R, h, added);
    forall a, b | Erase(a) == Erase(b) ensures R(a, b) {
      CongruentEqual(h, added, a, b);
    }
    forall p | p in added && !(p.0.BVar? && p.1.BVar?) ensures R(p.0, p.1) {
      CongruentAdded(h, added, p);
    }
  }

  lemma {:induction false} CongruentSingle(R: Relation, h: Codes, added: Pairs)
    requires (forall a, b :: R(a, b) <==> Congruent(h, added, a, b)) && forall a, b :: h(a) == h(b)
    ensures CompatibleSingle(R)
  {
    hide Erase, Congruent;
    forall a, b | SameShape(a, b) && PartsCongruent(h, added, a, b) ensures R(a, b) {
      CongruentByParts(h, added, a, b);
    }
  }

  lemma {:induction false} CongruentSeveral(R: Relation, h: Codes, added: Pairs)
    requires (forall a, b :: R(a, b) <==> Congruent(h, added, a, b)) && forall a, b :: h(a) == h(b)
    ensures CompatibleSeveral(R)
  {
    hide Erase, Congruent;
    forall a, b | SameShape(a, b) && PartsCongruent(h, added, a, b) ensures R(a, b) {
      CongruentByParts(h, added, a, b);
    }
  }

  lemma CongruentByParts(h: Codes, added: Pairs, a: Expr, b: Expr)
    requires SameShape(a, b) && PartsCongruent(h, added, a, b) && h(a) == h(b)
    ensures Congruent(h, added, a, b)
  {
  }

  lemma CongruentEqual(h: Codes, added: Pairs, a: Expr, b: Expr)
    requires Erase(a) == Erase(b) && h(a) == h(b)
    ensures Congruent(h, added, a, b)
  {
  }

  lemma CongruentAdded(h: Codes, added: Pairs, p: (Expr, Expr))
    requires p in added && !(p.0.BVar? && p.1.BVar?) && h(p.0) == h(p.1)
    ensures Congruent(h, added, p.0, p.1)
  {
  }

  lemma {:induction false} CongruentDerivable(h: Codes, f: Forest, m: map<Expr, nat>, added: Pairs, a: Expr, b: Expr)
    requires AllTogether(f, m, added) && Congruent(h, added, a, b)
    ensures Derivable(h, f, m, a, b)
    decreases a, 1
  {
    if (a, b) in added {
      assert Together(f, m, (a, b).0, (a, b).1);
    } else if (b, a) in added {
      assert Together(f, m, (b, a).0, (b, a).1);
    } else if !(a.BVar? && b.BVar?) && Erase(a) != Erase(b) {
      PartsCongruentDerivable(h, f, m, added, a, b);
    }
  }

  lemma {:induction false} PartsCongruentDerivable(h: Codes, f: Forest, m: map<Expr, nat>, added: Pairs, a: Expr,
                                                   b: Expr)
    requires AllTogether(f, m, added) && SameShape(a, b) && PartsCongruent(h, added, a, b)
    ensures PartsDerivable(h, f, m, a, b)
    decreases a, 0
  {
    match a
    case MVar(_, t) => CongruentDerivable(h, f, m, added, t, b.mtype);
    case App(g, x) =>
      CongruentDerivable(h, f, m, added, g, b.fn);
      CongruentDerivable(h, f, m, added, x, b.arg);
    case Binding(_, _, t, x, _) =>
      CongruentDerivable(h, f, m, added, t, b.dom);
      CongruentDerivable(h, f, m, added, x, b.body);
    case Let(_, t, v, x) =>
      CongruentDerivable(h, f, m, added, t, b.ltype);
      CongruentDerivable(h, f, m, added, v, b.val);
      CongruentDerivable(h, f, m, added, x, b.body);
    case MData(_, x) => CongruentDerivable(h, f, m, added, x, b.e);
    case Proj(_, _, x) => CongruentDerivable(h, f, m, added, x, b.e);
    case _ =>
  }

  // What is reported whatever the classes are
  lemma {:induction false} Reported(h: Codes, f: Forest, m: map<Expr, nat>, added: Pairs, a: Expr, b: Expr)
    requires AllTogether(f, m, added)
    ensures Congruent(h, added, a, b) || (Erase(a) == Erase(b) && NamesUnseen(h)) ==> Derivable(h, f, m, a, b)
  {
    if Congruent(h, added, a, b) {
      CongruentDerivable(h, f, m, added, a, b);
    }
  }

  // What derivability comes down to
  lemma DerivableParts(h: Codes, f: Forest, m: map<Expr, nat>, a: Expr, b: Expr)
    requires Derivable(h, f, m, a, b)
    ensures h(a) == h(b)
    ensures if a.BVar? && b.BVar? then a.idx == b.idx
      else Together(f, m, a, b) || Erase(a) == Erase(b) || (SameShape(a, b) && PartsDerivable(h, f, m, a, b))
  {
  }

  // It stays derivable when terms and classes are added and joined
  lemma {:induction false} DerivableMore(h: Codes, f: Forest, m: map<Expr, nat>, f': Forest, m': map<Expr, nat>,
                                         a: Expr, b: Expr)
    requires Grows(f, m, f', m') && Derivable(h, f, m, a, b)
    ensures Derivable(h, f', m', a, b)
    decreases a, 1
  {
    if Together(f, m, a, b) {
      TogetherMore(f, m, f', m', a, b);
    } else if !(a.BVar? && b.BVar?) && Erase(a) != Erase(b) {
      PartsDerivableMore(h, f, m, f', m', a, b);
    }
  }

  lemma TogetherMore(f: Forest, m: map<Expr, nat>, f': Forest, m': map<Expr, nat>, a: Expr, b: Expr)
    requires Grows(f, m, f', m') && Together(f, m, a, b)
    ensures Together(f', m', a, b)
  {
    assert Erase(a) in m' && Erase(b) in m';
  }

  lemma {:induction false} PartsDerivableMore(h: Codes, f: Forest, m: map<Expr, nat>, f': Forest, m': map<Expr, nat>,
                                              a: Expr, b: Expr)
    requires Grows(f, m, f', m') && SameShape(a, b) && PartsDerivable(h, f, m, a, b)
    ensures PartsDerivable(h, f', m', a, b)
    decreases a, 0
  {
    match a
    case MVar(_, t) => DerivableMore(h, f, m, f', m', t, b.mtype);
    case App(g, x) =>
      DerivableMore(h, f, m, f', m', g, b.fn);
      DerivableMore(h, f, m, f', m', x, b.arg);
    case Binding(_, _, t, x, _) =>
      DerivableMore(h, f, m, f', m', t, b.dom);
      DerivableMore(h, f, m, f', m', x, b.body);
    case Let(_, t, v, x) =>
      DerivableMore(h, f, m, f', m', t, b.ltype);
      DerivableMore(h, f, m, f', m', v, b.val);
      DerivableMore(h, f, m, f', m', x, b.body);
    case MData(_, x) => DerivableMore(h, f, m, f', m', x, b.e);
    case Proj(_, _, x) => DerivableMore(h, f, m, f', m', x, b.e);
    case _ =>
  }

  lemma GrowsSelf(f: Forest, m: map<Expr, nat>)
    requires Ranked(f)
    ensures Grows(f, m, f, m)
  {
  }

  lemma GrowsTransitive(f: Forest, m: map<Expr, nat>, f1: Forest, m1: map<Expr, nat>, f2: Forest, m2: map<Expr, nat>)
    requires Grows(f, m, f1, m1) && Grows(f1, m1, f2, m2)
    ensures Grows(f, m, f2, m2)
  {
  }

  lemma {:induction false} SoundLinked(f: Forest, keys: seq<Expr>, added: Pairs, c: nat, p: nat, k: nat, i: nat, j: nat)
    requires Linkable(f, c, p, k) && Sound(f, keys, added) && i < |f| && j < |f|
    requires {Root(f, i), Root(f, j)} == {c, p} && Entailed(added, keys[i], keys[j])
    ensures Sound(Linked(f, c, p, k), keys, added)
  {
    hide Entailed;
    var g := Linked(f, c, p, k);
    Link(f, c, p, k);
    forall x, y | 0 <= x < |g| && 0 <= y < |g| && Root(g, x) == Root(g, y) ensures Entailed(added, keys[x], keys[y]) {
      if Root(f, x) != Root(f, y) {
        EntailedSymmetric(added, keys[i], keys[j]);
        var u := if Root(f, i) == Root(f, x) then i else j;
        var v := if u == i then j else i;
        assert Root(f, u) == Root(f, x) && Root(f, v) == Root(f, y);
        EntailedTransitive(added, keys[x], keys[u], keys[v]);
        EntailedTransitive(added, keys[x], keys[v], keys[y]);
      }
    }
  }

  // Linking the roots of two equal terms joins their classes and splits none
  lemma {:induction false} Merged(f: Forest, m: map<Expr, nat>, keys: seq<Expr>, added: Pairs, c: nat, p: nat, k: nat,
                                  i: nat, j: nat)
    requires Linkable(f, c, p, k) && Sound(f, keys, added) && i < |f| && j < |f|
    requires {Root(f, i), Root(f, j)} == {c, p} && Entailed(added, keys[i], keys[j])
    ensures var g := Linked(f, c, p, k);
      Sound(g, keys, added) && Grows(f, m, g, m) && Root(g, i) == Root(g, j)
  {
    SoundLinked(f, keys, added, c, p, k, i, j);
    Link(f, c, p, k);
  }

  class EquivManager {
    const hash: Expr -> nat
    var nodes: Forest
    var toNode: map<Expr, nat>
    var useHash: bool
    ghost var keys: seq<Expr>
    ghost var added: Pairs    // what add_equiv was called with

    ghost predicate Valid()
      reads this
    {
      Sound(nodes, keys, added) && Indexed(toNode, keys) && AllTogether(nodes, toNode, added)
    }

    // What is_equiv_core compares first
    function ActiveCodes(): Codes
      reads `useHash
    {
      CodesOf(hash, useHash)
    }

    constructor (h: Expr -> nat)
      ensures Valid() && hash == h && added == []
    {
      hash, nodes, toNode, useHash, keys, added := h, [], map[], false, [], [];
    }

    // merge
    method Merge(n1: nat, n2: nat)
      requires Sound(nodes, keys, added) && n1 < |nodes| && n2 < |nodes| && Entailed(added, keys[n1], keys[n2])
      modifies `nodes
      ensures Sound(nodes, keys, added) && Grows(old(nodes), toNode, nodes, toNode) && |nodes| == |old(nodes)|
      ensures Root(nodes, n1) == Root(nodes, n2)
    {
      hide Entailed, Grows, Members, Pow2;
      GrowsSelf(nodes, toNode);
      var r1, s1 := Find(nodes, n1);
      var r2, s2 := Find(nodes, n2);
      if r1 != r2 {
        var ref1, ref2 := nodes[r1], nodes[r2];
        if ref1.rank < ref2.rank {
          Merged(nodes, toNode, keys, added, r1, r2, ref2.rank, n1, n2);
          nodes := nodes[r1 := Node(r2, ref1.rank)];
          assert nodes == Linked(old(nodes), r1, r2, ref2.rank);
        } else if ref1.rank > ref2.rank {
          Merged(nodes, toNode, keys, added, r2, r1, ref1.rank, n1, n2);
          nodes := nodes[r2 := Node(r1, ref2.rank)];
          assert nodes == Linked(old(nodes), r2, r1, ref1.rank);
        } else {
          Merged(nodes, toNode, keys, added, r2, r1, ref1.rank + 1, n1, n2);
          nodes := nodes[r2 := Node(r1, ref2.rank)];
          nodes := nodes[r1 := Node(nodes[r1].parent, ref1.rank + 1)];
          assert nodes == Linked(old(nodes), r2, r1, ref1.rank + 1);
        }
      }
    }

    // to_node: the table is keyed up to binder names
    method ToNode(e: Expr) returns (r: nat)
      requires Valid()
      modifies `nodes, `toNode, `keys
      ensures Valid() && Grows(old(nodes), old(toNode), nodes, toNode)
      ensures Erase(e) in toNode && toNode[Erase(e)] == r && r < |nodes| && keys[r] == Erase(e)
    {
      hide Entailed, Weighted, Sound, Grows, AllTogether;
      Unchanged();
      if Erase(e) in toNode {
        return toNode[Erase(e)];
      }
      r := |nodes|;
      NodeAdded(nodes, toNode, keys, added, Erase(e));
      nodes := nodes + [Node(r, 0)];
      toNode := toNode[Erase(e) := r];
      keys := keys + [Erase(e)];
    }

    lemma Unchanged()
      requires Valid()
      ensures Grows(nodes, toNode, nodes, toNode) && |keys| == |nodes|
    {
    }

    // to_node for both terms of a comparison
    method ToNodes(a: Expr, b: Expr) returns (r1: nat, r2: nat)
      requires Valid()
      modifies `nodes, `toNode, `keys
      ensures Valid() && Grows(old(nodes), old(toNode), nodes, toNode) && Placed(a, r1) && Placed(b, r2)
    {
      r1 := ToNode(a);
      ghost var f, m := nodes, toNode;
      r2 := ToNode(b);
      GrowsTransitive(old(nodes), old(toNode), f, m, nodes, toNode);
    }

    // The node r is that of e
    ghost predicate Placed(e: Expr, r: nat)
      reads this
    {
      Erase(e) in toNode && toNode[Erase(e)] == r && r < |nodes| && |keys| == |nodes| && keys[r] == Erase(e)
    }

    // add_equiv
    method AddEquiv(e1: Expr, e2: Expr)
      requires Valid()
      modifies this
      ensures Valid() && added == old(added) + [(e1, e2)] && useHash == old(useHash)
      ensures Grows(old(nodes), old(toNode), nodes, toNode) && Together(nodes, toNode, e1, e2)
    {
      var r1, r2 := ToNodes(e1, e2);
      ghost var f, m := nodes, toNode;
      MergeAdded(e1, e2, r1, r2);
      GrowsTransitive(old(nodes), old(toNode), f, m, nodes, toNode);
    }

    // Its merge, with the pair among the added ones from now on
    method MergeAdded(e1: Expr, e2: Expr, r1: nat, r2: nat)
      requires Valid() && Placed(e1, r1) && Placed(e2, r2)
      modifies `nodes, `added
      ensures Valid() && Grows(old(nodes), toNode, nodes, toNode) && Together(nodes, toNode, e1, e2)
      ensures added == old(added) + [(e1, e2)]
    {
      hide Entailed, Weighted, Indexed;
      added := added + [(e1, e2)];
      SoundMore(nodes, keys, old(added), (e1, e2));
      EntailedKeys(added, e1, e2);
      Merge(r1, r2);
      GrowsTogether(old(nodes), toNode, nodes, toNode, old(added));
    }

    // is_equiv_core: equalities that a failed comparison has found stay
    method IsEquivCore(a: Expr, b: Expr) returns (res: bool)
      requires Valid()
      modifies `nodes, `toNode, `keys
      ensures Valid() && Grows(old(nodes), old(toNode), nodes, toNode)
      ensures res ==> Entailed(added, a, b)
      ensures old(Derivable(ActiveCodes(), nodes, toNode, a, b)) ==> res
      ensures useHash && hash(a) != hash(b) ==> !res
      ensures a.BVar? && b.BVar? ==> (res <==> a.idx == b.idx)
      ensures res ==> a == b || Together(nodes, toNode, a, b)
      decreases a, 2
    {
      hide Grows, Entailed, Sound, Indexed, AllTogether, Derivable, SameShape, PartsDerivable, Together, Erase;
      Unchanged();
      if Derivable(ActiveCodes(), nodes, toNode, a, b) {
        DerivableParts(ActiveCodes(), nodes, toNode, a, b);
      }
      var same: bool := *;    // is_eqp
      if same && a == b {
        EntailedErase(added, a, b);
        return true;
      }
      if useHash && hash(a) != hash(b) {
        return false;
      }
      if a.BVar? && b.BVar? {
        if a.idx == b.idx {
          EntailedErase(added, a, b);
        }
        return a.idx == b.idx;
      }
      ghost var f0, m0 := nodes, toNode;
      var r1, r2 := FindNodes(a, b);
      if r1 == r2 {
        return true;
      }
      ghost var f, m := nodes, toNode;
      if Derivable(ActiveCodes(), f0, m0, a, b) {
        DerivableMore(ActiveCodes(), f0, m0, f, m, a, b);
        DerivableParts(ActiveCodes(), f, m, a, b);
      }
      res := CompareAndMerge(a, b, r1, r2);
      GrowsTransitive(f0, m0, f, m, nodes, toNode);
    }

    // find(to_node(a)) and find(to_node(b))
    method FindNodes(a: Expr, b: Expr) returns (r1: nat, r2: nat)
      requires Valid()
      modifies `nodes, `toNode, `keys
      ensures Valid() && Grows(old(nodes), old(toNode), nodes, toNode) && Represents(r1, a) && Represents(r2, b)
      ensures InClass(a, r1) && InClass(b, r2)
      ensures r1 == r2 ==> Entailed(added, a, b) && Together(nodes, toNode, a, b)
      ensures Together(nodes, toNode, a, b) || Erase(a) == Erase(b) ==> r1 == r2
    {
      var n1, n2 := ToNodes(a, b);
      ghost var s1, s2;
      r1, s1 := Find(nodes, n1);
      r2, s2 := Find(nodes, n2);
      EntailedRoot(a, n1, r1);
      EntailedRoot(b, n2, r2);
      if r1 == r2 {
        EntailedTerms(added, a, b);
      }
    }

    lemma EntailedRoot(e: Expr, n: nat, r: nat)
      requires Valid() && Placed(e, n) && r == Root(nodes, n)
      ensures Represents(r, e)
    {
      EraseTwice(e);
      EntailedErase(added, e, Erase(e));
      assert Root(nodes, r) == r;
      EntailedTransitive(added, e, keys[n], keys[r]);
    }

    // The node of e is in the class of r
    ghost predicate InClass(e: Expr, r: nat)
      reads this
    {
      && Ranked(nodes) && r < |nodes| && Erase(e) in toNode && toNode[Erase(e)] < |nodes|
      && Root(nodes, toNode[Erase(e)]) == Root(nodes, r)
    }

    // The structural comparison, after which the classes are merged
    method CompareAndMerge(a: Expr, b: Expr, r1: nat, r2: nat) returns (res: bool)
      requires Valid() && Represents(r1, a) && Represents(r2, b) && InClass(a, r1) && InClass(b, r2)
      modifies `nodes, `toNode, `keys
      ensures Valid() && Grows(old(nodes), old(toNode), nodes, toNode)
      ensures res ==> Entailed(added, a, b) && Together(nodes, toNode, a, b)
      ensures SameShape(a, b) && old(PartsDerivable(ActiveCodes(), nodes, toNode, a, b)) ==> res
      decreases a, 1
    {
      hide Entailed, Grows, Sound, Indexed, AllTogether, PartsDerivable;
      ghost var f, m, keys0 := nodes, toNode, keys;
      res := CompareParts(a, b);
      if res {
        ghost var f' := nodes;
        Compared(f, m, keys0, a, b, r1, r2);
        Merge(r1, r2);
        MergedTerms(f', a, b, r1, r2);
        GrowsTransitive(f, m, f', toNode, nodes, toNode);
      }
    }

    // After a successful comparison the nodes have equal terms, and still represent a and b
    lemma {:induction false} Compared(f: Forest, m: map<Expr, nat>, keys0: seq<Expr>, a: Expr, b: Expr, r1: nat,
                                      r2: nat)
      requires Valid() && Grows(f, m, nodes, toNode) && Indexed(m, keys0) && |keys0| == |f| && r1 < |f| && r2 < |f|
      requires Erase(a) in m && m[Erase(a)] < |f| && Root(f, m[Erase(a)]) == Root(f, r1)
      requires Erase(b) in m && m[Erase(b)] < |f| && Root(f, m[Erase(b)]) == Root(f, r2)
      requires Entailed(added, a, keys0[r1]) && Entailed(added, b, keys0[r2]) && Entailed(added, a, b)
      ensures r1 < |nodes| && r2 < |nodes| && |keys| == |nodes| && Entailed(added, keys[r1], keys[r2])
      ensures InClass(a, r1) && InClass(b, r2)
    {
      hide Entailed;
      KeysKept(m, toNode, keys0, keys);
      EntailedSymmetric(added, a, keys0[r1]);
      EntailedTransitive(added, keys0[r1], a, b);
      EntailedTransitive(added, keys0[r1], b, keys0[r2]);
    }

    lemma {:induction false} MergedTerms(f: Forest, a: Expr, b: Expr, r1: nat, r2: nat)
      requires Sound(nodes, keys, added) && Grows(f, toNode, nodes, toNode) && AllTogether(f, toNode, added)
      requires r1 < |f| && r2 < |f| && |nodes| == |f| && Root(nodes, r1) == Root(nodes, r2)
      requires Erase(a) in toNode && toNode[Erase(a)] < |f| && Root(f, toNode[Erase(a)]) == Root(f, r1)
      requires Erase(b) in toNode && toNode[Erase(b)] < |f| && Root(f, toNode[Erase(b)]) == Root(f, r2)
      ensures AllTogether(nodes, toNode, added) && Together(nodes, toNode, a, b)
    {
      GrowsTogether(f, toNode, nodes, toNode, added);
    }

    // Node r holds a term that is equal to e
    ghost predicate Represents(r: nat, e: Expr)
      reads this
    {
      r < |nodes| && |keys| == |nodes| && Entailed(added, e, keys[r])
    }

    method CompareParts(a: Expr, b: Expr) returns (res: bool)
      requires Valid()
      modifies `nodes, `toNode, `keys
      ensures Valid() && Grows(old(nodes), old(toNode), nodes, toNode)
      ensures res ==> Entailed(added, a, b)
      ensures SameShape(a, b) && old(PartsDerivable(ActiveCodes(), nodes, toNode, a, b)) ==> res
      decreases a, 0
    {
      hide Grows, Entailed, Derivable, Erase, Sound, Indexed, AllTogether, Together, Ranked, Root;
      Unchanged();
      res := false;
      match a {
        case BVar(_) =>
        case Const(n, ls) =>
          res := b.Const? && n == b.id && ls == b.levels;
        case Sort(l) =>
          res := b.Sort? && l == b.level;
        case Lit(l) =>
          res := b.Lit? && l == b.lit;
        case FVar(n) =>
          res := b.FVar? && n == b.id;
        case MVar(n, t) =>
          if b.MVar? && n == b.id {
            res := IsEquivCore(t, b.mtype);
          }
        case App(g, x) =>
          if b.App? {
            res := CompareTwo(g, b.fn, x, b.arg, a);
          }
        case Binding(k, _, t, x, _) =>
          if b.Binding? && k == b.kind {
            res := CompareTwo(t, b.dom, x, b.body, a);
          }
        case Let(_, t, v, x) =>
          if b.Let? {
            res := CompareThree(t, b.ltype, v, b.val, x, b.body, a);
          }
        case MData(_, x) =>
          if b.MData? {
            res := IsEquivCore(x, b.e);
          }
        case Proj(_, i, x) =>
          if b.Proj? {
            res := IsEquivCore(x, b.e);
            res := res && i == b.field;
          }
      }
      if res {
        EntailedParts(added, a, b);
      }
    }

    method CompareTwo(x: Expr, x': Expr, y: Expr, y': Expr, ghost a: Expr) returns (res: bool)
      requires Valid() && x < a && y < a
      modifies `nodes, `toNode, `keys
      ensures Valid() && Grows(old(nodes), old(toNode), nodes, toNode)
      ensures res ==> Entailed(added, x, x') && Entailed(added, y, y')
      ensures old(Derivable(ActiveCodes(), nodes, toNode, x, x')) ==>
        old(Derivable(ActiveCodes(), nodes, toNode, y, y')) ==> res
      decreases a, 0, 0
    {
      hide Grows, Entailed, Sound, Indexed, AllTogether, Derivable, Erase;
      res := IsEquivCore(x, x');
      if res {
        ghost var f, m := nodes, toNode;
        if old(Derivable(ActiveCodes(), nodes, toNode, y, y')) {
          DerivableMore(ActiveCodes(), old(nodes), old(toNode), f, m, y, y');
        }
        res := IsEquivCore(y, y');
        GrowsTransitive(old(nodes), old(toNode), f, m, nodes, toNode);
      }
    }

    method CompareThree(x: Expr, x': Expr, y: Expr, y': Expr, z: Expr, z': Expr, ghost a: Expr) returns (res: bool)
      requires Valid() && x < a && y < a && z < a
      modifies `nodes, `toNode, `keys
      ensures Valid() && Grows(old(nodes), old(toNode), nodes, toNode)
      ensures res ==> Entailed(added, x, x') && Entailed(added, y, y') && Entailed(added, z, z')
      ensures old(Derivable(ActiveCodes(), nodes, toNode, x, x')) ==>
        old(Derivable(ActiveCodes(), nodes, toNode, y, y')) ==>
        old(Derivable(ActiveCodes(), nodes, toNode, z, z')) ==> res
      decreases a, 0, 1
    {
      hide Grows, Entailed, Sound, Indexed, AllTogether, Derivable, Erase;
      res := CompareTwo(x, x', y, y', a);
      if res {
        ghost var f, m := nodes, toNode;
        if old(Derivable(ActiveCodes(), nodes, toNode, z, z')) {
          DerivableMore(ActiveCodes(), old(nodes), old(toNode), f, m, z, z');
        }
        res := IsEquivCore(z, z');
        GrowsTransitive(old(nodes), old(toNode), f, m, nodes, toNode);
      }
    }

    // is_equiv: a true answer follows from the added pairs by congruence; everything is
    // reported that comparing the structure finds, as long as the hash codes agree
    method IsEquiv(a: Expr, b: Expr, withHash: bool) returns (res: bool)
      requires Valid()
      modifies this
      ensures Valid() && added == old(added) && useHash == old(useHash)
      ensures Grows(old(nodes), old(toNode), nodes, toNode)
      ensures res ==> Entailed(added, a, b)
      ensures old(Derivable(CodesOf(hash, withHash), nodes, toNode, a, b)) ==> res
      ensures Congruent(CodesOf(hash, withHash), added, a, b) ==> res
      ensures Erase(a) == Erase(b) && NamesUnseen(CodesOf(hash, withHash)) ==> res
      ensures withHash && hash(a) != hash(b) ==> !res
      ensures a.BVar? && b.BVar? ==> (res <==> a.idx == b.idx)
      ensures res ==> a == b || Together(nodes, toNode, a, b)
    {
      hide Grows, Entailed, Sound, Indexed, AllTogether, Derivable, Congruent, NamesUnseen, Erase;
      var saved := useHash;
      useHash := withHash;
      Reported(ActiveCodes(), nodes, toNode, added, a, b);
      res := IsEquivCore(a, b);
      useHash := saved;
    }
  }

  // A node keeps its term
  lemma KeysKept(m: map<Expr, nat>, m': map<Expr, nat>, keys: seq<Expr>, keys': seq<Expr>)
    requires Indexed(m, keys) && Indexed(m', keys') && forall e :: e in m ==> e in m' && m'[e] == m[e]
    ensures |keys| <= |keys'| && forall i :: 0 <= i < |keys| ==> keys'[i] == keys[i]
  {
    if keys != [] {
      assert keys[|keys| - 1] in m;
    }
    forall i | 0 <= i < |keys| ensures keys'[i] == keys[i] {
      assert keys[i] in m;
    }
  }

  lemma {:induction false} EntailedTerms(added: Pairs, a: Expr, b: Expr)
    requires Entailed(added, Erase(a), Erase(b))
    ensures Entailed(added, a, b)
  {
    EraseTwice(a);
    EraseTwice(b);
    EntailedErase(added, a, Erase(a));
    EntailedErase(added, Erase(b), b);
    EntailedTransitive(added, a, Erase(a), Erase(b));
    EntailedTransitive(added, a, Erase(b), b);
  }

  lemma {:induction false} SoundAdded(f: Forest, keys: seq<Expr>, added: Pairs, e: Expr)
    requires Sound(f, keys, added)
    ensures Sound(f + [Node(|f|, 0)], keys + [e], added)
  {
    var g := f + [Node(|f|, 0)];
    AddNode(f);
    forall i, j | 0 <= i < |g| && 0 <= j < |g| && Root(g, i) == Root(g, j)
      ensures Entailed(added, (keys + [e])[i], (keys + [e])[j])
    {
      EntailedErase(added, (keys + [e])[i], (keys + [e])[i]);
    }
  }

  lemma {:induction false} NodeAdded(f: Forest, m: map<Expr, nat>, keys: seq<Expr>, added: Pairs, e: Expr)
    requires Sound(f, keys, added) && Indexed(m, keys) && AllTogether(f, m, added) && e !in m
    ensures var f', m' := f + [Node(|f|, 0)], m[e := |f|];
      && Sound(f', keys + [e], added) && Indexed(m', keys + [e]) && AllTogether(f', m', added) && Grows(f, m, f', m')
  {
    hide Entailed;
    var f', m' := f + [Node(|f|, 0)], m[e := |f|];
    SoundAdded(f, keys, added, e);
    AddNode(f);
    GrowsTogether(f, m, f', m', added);
  }

  lemma SoundMore(f: Forest, keys: seq<Expr>, added: Pairs, p: (Expr, Expr))
    requires Sound(f, keys, added)
    ensures Sound(f, keys, added + [p])
  {
    forall i, j | 0 <= i < |f| && 0 <= j < |f| && Root(f, i) == Root(f, j)
      ensures Entailed(added + [p], keys[i], keys[j])
    {
      EntailedMore(added, p, keys[i], keys[j]);
    }
  }

  lemma {:induction false} EraseTwice(e: Expr)
    ensures Erase(Erase(e)) == Erase(e)
  {
    match e
    case MVar(_, t) => EraseTwice(t);
    case App(f, a) =>
      EraseTwice(f);
      EraseTwice(a);
    case Binding(_, _, t, b, _) =>
      EraseTwice(t);
      EraseTwice(b);
    case Let(_, t, v, b) =>
      EraseTwice(t);
      EraseTwice(v);
      EraseTwice(b);
    case MData(_, x) => EraseTwice(x);
    case Proj(_, _, x) => EraseTwice(x);
    case _ =>
  }

  // A pair that was added, seen through the keys
  lemma {:induction false} EntailedKeys(added: Pairs, a: Expr, b: Expr)
    requires Entailed(added, a, b) || (a, b) in added
    ensures Entailed(added, Erase(a), Erase(b))
  {
    if (a, b) in added {
      EntailedAdded(added, (a, b));
    }
    EraseTwice(a);
    EraseTwice(b);
    EntailedErase(added, Erase(a), a);
    EntailedErase(added, b, Erase(b));
    EntailedTransitive(added, Erase(a), a, b);
    EntailedTransitive(added, Erase(a), b, Erase(b));
  }

  // ----- whole runs -----

  datatype Op = Add(a: Expr, b: Expr) | Ask(a: Expr, b: Expr, withHash: bool)

  function AddedBy(ops: seq<Op>): Pairs {
    if ops == [] then [] else
      var n := |ops| - 1;
      AddedBy(ops[..n]) + if ops[n].Add? then [(ops[n].a, ops[n].b)] else []
  }

  // What is certain about the answer to op after the pairs in added
  ghost predicate Right(hash: Codes, added: Pairs, op: Op, answer: bool) {
    op.Ask? ==>
      && (answer ==> Entailed(added, op.a, op.b))
      && (Congruent(CodesOf(hash, op.withHash), added, op.a, op.b) ==> answer)
      && (op.withHash && hash(op.a) != hash(op.b) ==> !answer)
  }

  lemma AddedByNext(ops: seq<Op>, i: nat)
    requires i < |ops|
    ensures AddedBy(ops[..i + 1]) == AddedBy(ops[..i]) + if ops[i].Add? then [(ops[i].a, ops[i].b)] else []
  {
    assert ops[..i + 1][..i] == ops[..i];
  }

  // The first n answers are right, each with respect to the operations before it
  ghost predicate AllRight(hash: Codes, ops: seq<Op>, answers: seq<bool>, n: nat) {
    n <= |answers| && n <= |ops| && forall i :: 0 <= i < n ==> Right(hash, AddedBy(ops[..i]), ops[i], answers[i])
  }

  lemma AllRightNext(hash: Codes, ops: seq<Op>, answers: seq<bool>, n: nat, answer: bool)
    requires |answers| == n < |ops| && AllRight(hash, ops, answers, n) && Right(hash, AddedBy(ops[..n]), ops[n], answer)
    ensures AllRight(hash, ops, answers + [answer], n + 1)
  {
  }

  // One operation
  method Perform(m: EquivManager, op: Op) returns (answer: bool)
    requires m.Valid()
    modifies m
    ensures m.Valid() && m.added == old(m.added) + if op.Add? then [(op.a, op.b)] else []
    ensures Right(m.hash, old(m.added), op, answer)
  {
    answer := false;
    match op {
      case Add(a, b) => m.AddEquiv(a, b);
      case Ask(a, b, h) => answer := m.IsEquiv(a, b, h);
    }
  }

  // Over any run, every answer is right with respect to the pairs added before it
  method Run(m: EquivManager, ops: seq<Op>) returns (answers: seq<bool>)
    requires m.Valid() && m.added == []
    modifies m
    ensures m.Valid() && |answers| == |ops|
    ensures AllRight(m.hash, ops, answers, |ops|)
  {
    answers := [];
    var i := 0;
    while i < |ops|
      invariant 0 <= i <= |ops| && |answers| == i && m.Valid() && m.added == AddedBy(ops[..i])
      invariant AllRight(m.hash, ops, answers, i)
    {
      AddedByNext(ops, i);
      var answer := Perform(m, ops[i]);
      AllRightNext(m.hash, ops, answers, i, answer);
      answers := answers + [answer];
      i := i + 1;
    }
  }
}

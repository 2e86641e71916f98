/** Expressions as nodes in memory: the same subterm may be stored once and used often, or
  * be stored twice. Pointer equality is equality of node numbers.
  */
module Dag {
  import opened Names
  import opened Exprs

  type Ref = nat

  // Leaf: a bound or free variable, constant, sort or literal
  datatype Cell =
    | Leaf(e: Expr)
    | MVarCell(id: Name, mtype: Ref)
    | AppCell(fn: Ref, arg: Ref)
    | BindingCell(kind: BinderKind, name: Name, dom: Ref, body: Ref, info: BinderInfo)
    | LetCell(name: Name, ltype: Ref, val: Ref, body: Ref)
    | MDataCell(data: nat, x: Ref)
    | ProjCell(sname: Name, field: nat, x: Ref)

  type Store = seq<Cell>

  predicate IsLeaf(e: Expr) {
    e.BVar? || e.FVar? || e.Const? || e.Sort? || e.Lit?
  }

  // Nodes are created after their children
  predicate CellOk(c: Cell, i: nat) {
    match c
    case Leaf(e) => IsLeaf(e)
    case MVarCell(_, t) => t < i
    case AppCell(f, a) => f < i && a < i
    case BindingCell(_, _, d, b, _) => d < i && b < i
    case LetCell(_, t, v, b) => t < i && v < i && b < i
    case MDataCell(_, x) => x < i
    case ProjCell(_, _, x) => x < i
  }

  ghost predicate StoreOk(s: Store) {
    forall i: nat {:trigger CellOk(s[i], i)} :: i < |s| ==> CellOk(s[i], i)
  }

  // The expression stored at a node
  function Term(s: Store, i: Ref): Expr
    requires StoreOk(s) && i < |s|
    decreases i
  {
    assert CellOk(s[i], i);
    match s[i]
    case Leaf(e) => e
    case MVarCell(n, t) => MVar(n, Term(s, t))
    case AppCell(f, a) => App(Term(s, f), Term(s, a))
    case BindingCell(k, n, d, b, info) => Binding(k, n, Term(s, d), Term(s, b), info)
    case LetCell(n, t, v, b) => Let(n, Term(s, t), Term(s, v), Term(s, b))
    case MDataCell(m, x) => MData(m, Term(s, x))
    case ProjCell(n, f, x) => Proj(n, f, Term(s, x))
  }

  // The children of a node
  function Kids(c: Cell): set<Ref> {
    match c
    case Leaf(_) => {}
    case MVarCell(_, t) => {t}
    case AppCell(f, a) => {f, a}
    case BindingCell(_, _, d, b, _) => {d, b}
    case LetCell(_, t, v, b) => {t, v, b}
    case MDataCell(_, x) => {x}
    case ProjCell(_, _, x) => {x}
  }

  // Appending nodes changes no term
  lemma {:induction false} TermAppend(s: Store, t: Store, i: Ref)
    requires StoreOk(s) && StoreOk(t) && s <= t && i < |s|
    ensures Term(t, i) == Term(s, i)
    decreases i
  {
    assert CellOk(s[i], i);
    match s[i]
    case Leaf(_) =>
    case MVarCell(_, x) => TermAppend(s, t, x);
    case AppCell(f, a) =>
      TermAppend(s, t, f);
      TermAppend(s, t, a);
    case BindingCell(_, _, d, b, _) =>
      TermAppend(s, t, d);
      TermAppend(s, t, b);
    case LetCell(_, x, v, b) =>
      TermAppend(s, t, x);
      TermAppend(s, t, v);
      TermAppend(s, t, b);
    case MDataCell(_, x) => TermAppend(s, t, x);
    case ProjCell(_, _, x) => TermAppend(s, t, x);
  }
}

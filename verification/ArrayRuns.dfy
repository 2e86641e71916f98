/** Whole runs of persistent arrays: any interleaving of operations on any number of
  * array objects is the same run on independent immutable sequences.
  */
module ArrayRuns {
  import opened VersionGraph
  import opened PersistentArray

  datatype Op<T(!new)> =
    | New(h: Var)
    | NewFilled(h: Var, size: nat, v: T)
    | Read(h: Var, i: nat)
    | Size(h: Var)
    | Set(h: Var, i: nat, v: T)
    | PushBack(h: Var, v: T)
    | PopBack(h: Var)
    | Copy(h: Var, from: Var)
    | Assign(h: Var, from: Var)
    | Unshare(h: Var)
    | Destroy(h: Var)

  datatype Out<T(!new)> = Value(v: T) | Length(n: nat) | Nothing

  type Seqs<T(!new)> = map<Var, seq<T>>

  // The assertions of the source: live handles, indices in range
  predicate Allowed<T(!new)>(s: Seqs<T>, op: Op<T>) {
    match op
    case New(h) => h !in s
    case NewFilled(h, _, _) => h !in s
    case Read(h, i) => h in s && i < |s[h]|
    case Size(h) => h in s
    case Set(h, i, _) => h in s && i < |s[h]|
    case PushBack(h, _) => h in s
    case PopBack(h) => h in s && |s[h]| > 0
    case Copy(h, k) => h !in s && k in s
    case Assign(h, k) => h in s && k in s
    case Unshare(h) => h in s
    case Destroy(h) => h in s
  }

  // The immutable specification: each variable holds its own sequence
  function Next<T(!new)>(s: Seqs<T>, op: Op<T>): Seqs<T>
    requires Allowed(s, op)
  {
    match op
    case New(h) => s[h := []]
    case NewFilled(h, n, v) => s[h := seq(n, _ => v)]
    case Read(_, _) => s
    case Size(_) => s
    case Set(h, i, v) => s[h := s[h][i := v]]
    case PushBack(h, v) => s[h := s[h] + [v]]
    case PopBack(h) => s[h := s[h][..|s[h]| - 1]]
    case Copy(h, k) => s[h := s[k]]
    case Assign(h, k) => s[h := s[k]]
    case Unshare(_) => s
    case Destroy(h) => s - {h}
  }

  function Seen<T(!new)>(s: Seqs<T>, op: Op<T>): Out<T>
    requires Allowed(s, op)
  {
    match op
    case Read(h, i) => Value(s[h][i])
    case Size(h) => Length(|s[h]|)
    case _ => Nothing
  }

  predicate AllAllowed<T(!new)>(s: Seqs<T>, ops: seq<Op<T>>)
    decreases |ops|
  {
    ops == [] || (Allowed(s, ops[0]) && AllAllowed(Next(s, ops[0]), ops[1..]))
  }

  function Final<T(!new)>(s: Seqs<T>, ops: seq<Op<T>>): Seqs<T>
    requires AllAllowed(s, ops)
    decreases |ops|
  {
    if ops == [] then s else Final(Next(s, ops[0]), ops[1..])
  }

  function Trace<T(!new)>(s: Seqs<T>, ops: seq<Op<T>>): seq<Out<T>>
    requires AllAllowed(s, ops)
    decreases |ops|
  {
    if ops == [] then [] else [Seen(s, ops[0])] + Trace(Next(s, ops[0]), ops[1..])
  }

  method Perform<T(!new)>(m: Memory<T>, op: Op<T>) returns (out: Out<T>)
    requires m.Valid() && Allowed(m.Contents(), op)
    modifies m
    ensures m.Valid() && m.Contents() == old(Next(m.Contents(), op))
    ensures out == old(Seen(m.Contents(), op))
  {
    out := Nothing;
    match op {
      case New(h) => m.Create(h);
      case NewFilled(h, n, v) => m.CreateFilled(h, n, v);
      case Read(h, i) =>
        var v := m.Read(h, i);
        out := Value(v);
      case Size(h) =>
        var n := m.Size(h);
        out := Length(n);
      case Set(h, i, v) => m.SetAt(h, i, v);
      case PushBack(h, v) => m.PushBackTo(h, v);
      case PopBack(h) => m.PopBackFrom(h);
      case Copy(h, k) => m.CopyFrom(h, k);
      case Assign(h, k) => m.Assign(h, k);
      case Unshare(h) => m.EnsureUnshared(h);
      case Destroy(h) => m.Destroy(h);
    }
  }

  // Any run on the shared, mutable memory computes what the sequences say
  method Run<T(!new)>(m: Memory<T>, ops: seq<Op<T>>) returns (outs: seq<Out<T>>)
    requires m.Valid() && AllAllowed(m.Contents(), ops)
    modifies m
    ensures m.Valid() && m.Contents() == old(Final(m.Contents(), ops))
    ensures outs == old(Trace(m.Contents(), ops))
    ensures old(Final(m.Contents(), ops)) == map[] ==> m.cells == map[] && m.blocks == map[]
  {
    ghost var s := m.Contents();
    outs := [];
    var rest := ops;
    while rest != []
      invariant m.Valid() && AllAllowed(m.Contents(), rest)
      invariant Final(m.Contents(), rest) == Final(s, ops)
      invariant outs + Trace(m.Contents(), rest) == Trace(s, ops)
      decreases |rest|
    {
      ghost var before := m.Contents();
      var out := Perform(m, rest[0]);
      assert outs + Trace(before, rest) == (outs + [out]) + Trace(m.Contents(), rest[1..]);
      outs := outs + [out];
      rest := rest[1..];
    }
    if m.Contents() == map[] {
      m.NoLeak();
    }
  }
}

/** The infer-only branch of infer_app (src/kernel/type_checker.cpp): substituting the
  * arguments late gives the type that substituting each at once would give.
  */
module InferApp {
  import opened Wrappers
  import opened Exprs
  import opened Instantiate
  import opened Beta

  // whnf is any function, which may fail
  type Whnf = Expr -> Result<Expr>

  // ensure_pi_core
  function EnsurePi(whnf: Whnf, e: Expr): (r: Result<Expr>)
    ensures r.Ok? ==> IsPi(r.result)
  {
    if IsPi(e) then Ok(e) else
      var t :- whnf(e);
      if IsPi(t) then Ok(t) else Err(FunctionExpected)
  }

  // Argument by argument
  function TypeOfApp(whnf: Whnf, t: Expr, args: seq<Expr>): Result<Expr>
    decreases |args|
  {
    if args == [] then Ok(t) else
      var p :- EnsurePi(whnf, t);
      TypeOfApp(whnf, Inst(p.body, 0, [args[0]]), args[1..])
  }

  // A type that is already a Pi: its pending arguments stay pending
  lemma PendingBinder(t: Expr, pending: seq<Expr>, a: Expr)
    requires t.Binding?
    ensures InstRev(t, pending).Binding? && InstRev(t, pending).kind == t.kind
    ensures Inst(InstRev(t, pending).body, 0, [a]) == InstRev(t.body, pending + [a])
  {
    var ts := Reverse(pending);
    InstRevIsReplaced(t, pending);
    InstIsReplaced(InstRev(t, pending).body, 0, [a]);
    ReplacedSplit(t.body, 0, [a], ts);
    ReverseSnoc(pending, a);
    InstRevIsReplaced(t.body, pending + [a]);
  }

  lemma OneArgument(t: Expr, a: Expr)
    ensures InstRev(t, [a]) == Inst(t, 0, [a])
  {
    InstIsReplaced(t, 0, [a]);
    InstRevIsReplaced(t, [a]);
    assert Reverse([a]) == [a];
  }

  method InferTypeOfApp(whnf: Whnf, infer: Expr -> Result<Expr>, e: Expr) returns (r: Result<Expr>)
    ensures r == match infer(Head(e)) case Ok(t) => TypeOfApp(whnf, t, Args(e)) case Err(m) => Err(m)
  {
    hide InstRev, Inst;
    var f, args := GetAppArgs(e);
    var fType :- infer(f);
    ghost var t := fType;
    var j := 0;
    NothingPending(fType);
    assert args[0..0] == [] && args[0..] == args;
    for i := 0 to |args|
      invariant j <= i
      invariant TypeOfApp(whnf, InstRev(fType, args[j..i]), args[i..]) == TypeOfApp(whnf, t, args)
    {
      assert args[i..][0] == args[i] && args[i..][1..] == args[i + 1..];
      assert args[j..i + 1] == args[j..i] + [args[i]];
      if IsPi(fType) {
        PendingBinder(fType, args[j..i], args[i]);
        fType := fType.body;
      } else {
        fType := InstRev(fType, args[j..i]);
        fType :- EnsurePi(whnf, fType);
        fType := fType.body;
        j := i;
        OneArgument(fType, args[i]);
        assert args[i..i + 1] == [args[i]];
      }
    }
    assert args[j..] == args[j..|args|];
    return Ok(InstRev(fType, args[j..]));
  }

  lemma NothingPending(t: Expr)
    ensures InstRev(t, []) == t
  {
    InstRevIsReplaced(t, []);
    ReplacedClosed(t, 0, 0, []);
  }
}

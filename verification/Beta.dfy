/** Applications as a head and its arguments, and beta reduction of several arguments at
  * once (src/kernel/expr.cpp, src/kernel/instantiate.cpp).
  */
module Beta {
  import opened Exprs
  import opened Instantiate

  // ((f a0) a1) ...
  function Apply(f: Expr, args: seq<Expr>): Expr
    decreases |args|
  {
    if args == [] then f else Apply(App(f, args[0]), args[1..])
  }

  lemma {:induction false} ApplyConcat(f: Expr, s: seq<Expr>, t: seq<Expr>)
    ensures Apply(f, s + t) == Apply(Apply(f, s), t)
    decreases |s|
  {
    if s == [] {
      assert s + t == t;
    } else {
      assert (s + t)[1..] == s[1..] + t;
      ApplyConcat(App(f, s[0]), s[1..], t);
    }
  }

  lemma ApplySnoc(f: Expr, s: seq<Expr>, a: Expr)
    ensures Apply(f, s + [a]) == App(Apply(f, s), a)
  {
    ApplyConcat(f, s, [a]);
    assert [a][1..] == [];
    assert Apply(App(Apply(f, s), a), []) == App(Apply(f, s), a);
  }

  // mk_app(f, num_args, args)
  method MkApp(f: Expr, args: seq<Expr>) returns (r: Expr)
    ensures r == Apply(f, args)
  {
    r := f;
    for i := 0 to |args|
      invariant r == Apply(f, args[..i])
    {
      assert args[..i + 1] == args[..i] + [args[i]];
      ApplySnoc(f, args[..i], args[i]);
      r := App(r, args[i]);
    }
    assert args[..|args|] == args;
  }

  // mk_rev_app: the last of the arguments is applied first
  method MkRevApp(f: Expr, args: seq<Expr>) returns (r: Expr)
    ensures r == Apply(f, Reverse(args))
  {
    r := f;
    var i := |args|;
    while i > 0
      invariant 0 <= i <= |args|
      invariant r == Apply(f, Reverse(args)[..|args| - i])
    {
      i := i - 1;
      var n := |args| - 1 - i;
      assert Reverse(args)[..n + 1] == Reverse(args)[..n] + [args[i]];
      ApplySnoc(f, Reverse(args)[..n], args[i]);
      r := App(r, args[i]);
    }
    assert Reverse(args)[..|args|] == Reverse(args);
  }

  function Head(e: Expr): (f: Expr)
    ensures !f.App?
  {
    if e.App? then Head(e.fn) else e
  }

  function Args(e: Expr): seq<Expr> {
    if e.App? then Args(e.fn) + [e.arg] else []
  }

  // Taking an application apart and putting it together again
  lemma {:induction false} ApplyArgs(e: Expr)
    ensures Apply(Head(e), Args(e)) == e
  {
    if e.App? {
      ApplyArgs(e.fn);
      ApplySnoc(Head(e), Args(e.fn), e.arg);
    }
  }

  lemma {:induction false} ArgsApply(f: Expr, args: seq<Expr>)
    ensures Head(Apply(f, args)) == Head(f) && Args(Apply(f, args)) == Args(f) + args
    decreases |args|
  {
    if args != [] {
      ArgsApply(App(f, args[0]), args[1..]);
      assert args == [args[0]] + args[1..];
    }
  }

  // get_app_args
  method GetAppArgs(e: Expr) returns (f: Expr, args: seq<Expr>)
    ensures f == Head(e) && args == Args(e)
  {
    f, args := e, [];
    while f.App?
      invariant Head(f) == Head(e) && Args(f) + Reverse(args) == Args(e)
      decreases f
    {
      ReverseSnoc(args, f.arg);
      assert Args(f) + Reverse(args) == Args(f.fn) + ([f.arg] + Reverse(args));
      f, args := f.fn, args + [f.arg];
    }
    args := Reverse(args);
  }

  lemma ReverseSnoc<T>(s: seq<T>, x: T)
    ensures Reverse(s + [x]) == [x] + Reverse(s)
  {
  }

  // ----- single steps -----

  // The lambdas in front of e
  function Leading(e: Expr): nat {
    if IsLambda(e) then Leading(e.body) + 1 else 0
  }

  function Strip(e: Expr, n: nat): Expr
    requires n <= Leading(e)
  {
    if n == 0 then e else Strip(e.body, n - 1)
  }

  // n single head beta steps
  function BetaSteps(f: Expr, args: seq<Expr>, n: nat): Expr
    requires n <= Leading(f) && n <= |args|
    decreases n
  {
    if n == 0 then Apply(f, args) else
      StepLeading(f, args[0], n - 1);
      BetaSteps(Inst(f.body, 0, [args[0]]), args[1..], n - 1)
  }

  lemma StepLeading(f: Expr, a: Expr, n: nat)
    requires n < Leading(f)
    ensures n <= Leading(Inst(f.body, 0, [a]))
    ensures Strip(Inst(f.body, 0, [a]), n) == Replaced(Strip(f.body, n), n, n, [a])
  {
    hide Inst;
    InstIsReplaced(f.body, 0, [a]);
    StripReplaced(f.body, n, 0, [a]);
  }

  lemma {:induction false} StripReplaced(e: Expr, n: nat, k: nat, ts: Subst)
    requires n <= Leading(e)
    ensures n <= Leading(Replaced(e, k, k, ts))
    ensures Strip(Replaced(e, k, k, ts), n) == Replaced(Strip(e, n), k + n, k + n, ts)
  {
    if n > 0 {
      StripReplaced(e.body, n - 1, k + 1, ts);
    }
  }

  // n single steps are one simultaneous substitution
  lemma {:induction false} StepsAtOnce(f: Expr, args: seq<Expr>, n: nat)
    requires n <= Leading(f) && n <= |args|
    ensures BetaSteps(f, args, n) == Apply(Replaced(Strip(f, n), 0, 0, Reverse(args[..n])), args[n..])
    decreases n
  {
    hide Replaced, Inst;
    if n == 0 {
      ReplacedClosed(f, 0, 0, []);
      assert args[0..] == args && args[..0] == [];
    } else {
      var a := args[0];
      StepLeading(f, a, n - 1);
      StepsAtOnce(Inst(f.body, 0, [a]), args[1..], n - 1);
      assert args[1..][n - 1..] == args[n..];
      assert args[..n][1..] == args[1..][..n - 1];
      ReplacedSplit(Strip(f, n), 0, Reverse(args[1..][..n - 1]), [a]);
    }
  }

  function Smaller(a: nat, b: nat): nat {
    if a <= b then a else b
  }

  // apply_beta: the arguments are given in reverse; as many of them as there are lambdas
  // are substituted at once, with the effect of that many single steps
  method ApplyBeta(fn: Expr, args: seq<Expr>) returns (r: Expr)
    ensures r == BetaSteps(fn, Reverse(args), Smaller(Leading(fn), |args|))
  {
    var n := |args|;
    if n == 0 {
      return fn;
    }
    if !IsLambda(fn) {
      r := MkRevApp(fn, args);
      return;
    }
    var f, m := fn, 1;
    while IsLambda(f.body) && m < n
      invariant 1 <= m <= n && m <= Leading(fn) && IsLambda(f)
      invariant Strip(fn, m) == f.body && Leading(fn) == m + Leading(f.body)
    {
      StripNext(fn, m);
      f := f.body;
      m := m + 1;
    }
    StepsAtOnce(fn, Reverse(args), m);
    InstIsReplaced(f.body, 0, args[n - m..]);
    ReverseTail(args, n - m);
    r := MkRevApp(Inst(f.body, 0, args[n - m..]), args[..n - m]);
  }

  lemma {:induction false} StripNext(e: Expr, n: nat)
    requires n < Leading(e)
    ensures IsLambda(Strip(e, n)) && Strip(e, n + 1) == Strip(e, n).body
  {
    if n > 0 {
      StripNext(e.body, n - 1);
    }
  }

  lemma {:induction false} ReverseTail<T>(s: seq<T>, k: nat)
    requires k <= |s|
    ensures Reverse(Reverse(s)[..|s| - k]) == s[k..]
    ensures Reverse(s)[|s| - k..] == Reverse(s[..k])
  {
    var a, b := s[..k], s[k..];
    assert s == a + b;
    ReverseConcat(a, b);
    assert Reverse(s)[..|b|] == Reverse(b) && Reverse(s)[|b|..] == Reverse(a);
    ReverseTwice(b);
  }

  lemma {:induction false} ReverseConcat<T>(a: seq<T>, b: seq<T>)
    ensures Reverse(a + b) == Reverse(b) + Reverse(a)
  {
    if a == [] {
      assert a + b == b;
    } else {
      assert (a + b)[1..] == a[1..] + b;
      ReverseConcat(a[1..], b);
    }
  }

  lemma {:induction false} ReverseTwice<T>(s: seq<T>)
    ensures Reverse(Reverse(s)) == s
  {
    if s != [] {
      ReverseConcat(Reverse(s[1..]), [s[0]]);
      ReverseTwice(s[1..]);
    }
  }

  // How many lambdas cheap_beta_reduce removes, and the body that it looks at
  function CheapDepth(e: Expr): (n: nat)
    ensures n <= Leading(Head(e)) && n <= |Args(e)|
  {
    Smaller(Leading(Head(e)), |Args(e)|)
  }

  function CheapBody(e: Expr): Expr {
    Strip(Head(e), CheapDepth(e))
  }

  // cheap_beta_reduce: when the body is closed or a bound variable, all beta steps at once;
  // otherwise nothing
  method CheapBetaReduce(e: Expr) returns (r: Expr)
    requires CheapBody(e).BVar? ==> CheapBody(e).idx < CheapDepth(e)
    ensures r ==
      if Range(CheapBody(e)) == 0 || CheapBody(e).BVar? then BetaSteps(Head(e), Args(e), CheapDepth(e)) else e
  {
    ApplyArgs(e);
    if !e.App? {
      return e;
    }
    var fn, args := GetAppArgs(e);
    if !IsLambda(fn) {
      return e;
    }
    ghost var head := fn;
    var i := 0;
    while IsLambda(fn) && i < |args|
      invariant 0 <= i <= |args| && i <= Leading(head)
      invariant Strip(head, i) == fn && Leading(head) == i + Leading(fn)
    {
      StripNext(head, i);
      i := i + 1;
      fn := fn.body;
    }
    StepsAtOnce(head, args, i);
    if Range(fn) == 0 {
      ReplacedClosed(fn, 0, 0, Reverse(args[..i]));
      r := MkApp(fn, args[i..]);
    } else if fn.BVar? {
      ShiftClosed(args[i - fn.idx - 1], 0, 0);
      r := MkApp(args[i - fn.idx - 1], args[i..]);
    } else {
      r := e;
    }
  }

  // The assertion in cheap_beta_reduce holds of closed terms
  lemma ClosedCheap(e: Expr)
    requires Range(e) == 0
    ensures CheapBody(e).BVar? ==> CheapBody(e).idx < CheapDepth(e)
  {
    ApplyArgs(e);
    ApplyRange(Head(e), Args(e));
    StripRange(Head(e), CheapDepth(e));
  }

  lemma {:induction false} ApplyRange(f: Expr, args: seq<Expr>)
    ensures Range(f) <= Range(Apply(f, args))
    decreases |args|
  {
    if args != [] {
      ApplyRange(App(f, args[0]), args[1..]);
    }
  }

  lemma {:induction false} StripRange(e: Expr, n: nat)
    requires n <= Leading(e)
    ensures Range(Strip(e, n)) <= Range(e) + n
  {
    if n > 0 {
      StripRange(e.body, n - 1);
    }
  }
}

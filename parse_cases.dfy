// What `parse` makes of the token runs: a run of dots is a variable counted from the innermost
// open function, a run of colons is one of the three builtins, and the errors a run can raise.

module ParseCases {
  import opened Wrappers
  import opened Terms
  import opened Parser
  import opened Dump
  import opened RoundTrip

  /** `n` function frames. */
  function Binders(n: nat): (frames: seq<Frame>)
    ensures |frames| == n && forall i :: 0 <= i < n ==> frames[i] == LamFrame
  {
    seq(n, _ => LamFrame)
  }

  /** `t` under `n` functions. */
  function Nest(n: nat, t: Term): Term {
    if n == 0 then t else Lam(Nest(n - 1, t))
  }

  lemma {:induction false} BindersCount(n: nat)
    ensures LamCount(Binders(n)) == n
  {
    if n > 0 {
      assert Binders(n)[..n - 1] == Binders(n - 1);
      BindersCount(n - 1);
    }
  }

  lemma {:induction false} FoldBinders(n: nat, t: Term)
    ensures Fold(Binders(n), t) == ([], Some(Nest(n, t)))
  {
    if n > 0 {
      assert Binders(n)[..n - 1] == Binders(n - 1);
      FoldBinders(n - 1, Lam(t));
      NestOut(n - 1, t);
    }
  }

  lemma {:induction false} NestOut(n: nat, t: Term)
    ensures Nest(n, Lam(t)) == Nest(n + 1, t)
  {
    if n > 0 {
      NestOut(n - 1, t);
    }
  }

  /** A run of `c` that goes to the end of the code. */
  lemma {:induction false} RunToEnd(code: string, i: nat, c: char)
    requires i <= |code| && forall k :: i <= k < |code| ==> code[k] == c
    ensures RunEnd(code, i, c) == |code|
    decreases |code| - i
  {
    if i < |code| {
      RunToEnd(code, i + 1, c);
    }
  }

  /** The quotes of `code`, read one after the other, open function frames. */
  lemma {:induction false} OpenBinders(code: string, j: nat, n: nat)
    requires j <= n <= |code| && forall k :: 0 <= k < n ==> code[k] == '\''
    ensures ParseFrom(code, j, 1, j + 1, Binders(j)) == ParseFrom(code, n, 1, n + 1, Binders(n))
    decreases n - j
  {
    if j < n {
      assert Binders(j) + [LamFrame] == Binders(j + 1);
      OpenBinders(code, j + 1, n);
    }
  }

  /** `n` quotes and `k` dots: the variable `k - 1` under `n` functions when some function is
      that far out, otherwise the error at the first dot. */
  lemma ParseVariable(n: nat, k: nat)
    requires 1 <= k
    ensures var code := Repeat('\'', n) + Repeat('.', k);
      Parse(code) ==
        if k <= n then Parsed(Nest(n, Var(k - 1)))
        else Failed(Failure("no corresponding function to the argument", 1, n + 1))
  {
    var code := Repeat('\'', n) + Repeat('.', k);
    OpenBinders(code, 0, n);
    assert Binders(0) == [];
    RunToEnd(code, n, '.');
    BindersCount(n);
    if k <= n {
      FoldBinders(n, Var(k - 1));
    }
  }

  /** `k` colons: `put`, `get` or `random` for one to three, an error for more. */
  lemma ParseBuiltin(k: nat)
    requires 1 <= k
    ensures Parse(Repeat(':', k)) ==
      if k == 1 then Parsed(Put) else if k == 2 then Parsed(Get) else if k == 3 then Parsed(Random)
      else Failed(Failure("no corresponding builtin function", 1, 1))
  {
    var code := Repeat(':', k);
    RunToEnd(code, 0, ':');
    assert code[0] == ':';
    assert Parse(code) == ParseFrom(code, 0, 1, 1, []);
    if k <= 3 {
      var node := if k == 1 then Put else if k == 2 then Get else Random;
      assert Fold([], node) == ([], Some(node));
      assert Trail(code, k, 1, 1 + k) == None;
      assert ParseFrom(code, 0, 1, 1, []) == Complete(code, k, 1, 1 + k, [], node);
    }
  }

  /** Functions that never get a body: the code ends while they wait. */
  lemma ParseUnfinished(n: nat)
    ensures Parse(Repeat('\'', n)) == Failed(Failure("unexpected end of code", 1, n + 1))
  {
    OpenBinders(Repeat('\'', n), 0, n);
    assert Binders(0) == [];
  }

  /** A token after a finished program: the error at that token. The token must not continue the
      run of dots or colons the program ends with, or it would be read as part of that run. */
  lemma ParseLeftover(t: Term, c: char)
    requires ClosedUnder(t, 0) && Surface(t)
    requires c == '\'' || c == ',' || c == '"' || c == '.' || c == ':'
    requires Source(t)[|Source(t)| - 1] in {'.', ':'} ==> c != Source(t)[|Source(t)| - 1]
    ensures Parse(Source(t) + [c]) == Failed(Failure("unexpected token", 1, |Source(t)| + 1))
  {
    var s := Source(t);
    var code := s + [c];
    assert code[|s|] == c;
    Reparse(code, "", t, 1, 1, [], 0, |s|, 1 + |s|);
    assert Fold([], t) == ([], Some(t));
  }
}

// The proof of the in-place substitution: the walk over the body as a path into the term being
// rewritten, what is left to visit, the stack, and one lemma per step of the walk.

module SubstitutionWalk {
  import opened Wrappers
  import opened Terms
  import opened Graph
  import opened HeapPaths
  import opened Cloning

  // The walk over the body, on terms. The walk is at the end of a path `s` into the body; `m` is
  // the body as far as it has been rewritten.

  /** The number of function bodies a path enters: the `nest` of the walk at its end. */
  function Depth(path: seq<Key>): nat
    decreases |path|
  {
    if path == [] then 0 else (if path[0] == Body then 1 else 0) + Depth(path[1..])
  }

  lemma {:induction false} DepthAppend(p: seq<Key>, q: seq<Key>)
    ensures Depth(p + q) == Depth(p) + Depth(q)
    decreases |p|
  {
    if p == [] {
      assert p + q == q;
    } else {
      assert (p + q)[0] == p[0] && (p + q)[1..] == p[1..] + q;
      DepthAppend(p[1..], q);
    }
  }

  /** The substituted body, once the subterm of `m` at `s` has become `u`: the parts of `m`
      visited before `s` are taken as they are, the parts still to be visited are substituted.
      `d` counts the binders above `m`. */
  function Finish(m: Term, s: seq<Key>, u: Term, d: nat, a: Term): Term
    requires ValidPath(m, s)
    decreases s
  {
    if s == [] then u
    else if s[0] == Body then Lam(Finish(m.body, s[1..], u, d + 1, a))
    else if s[0] == Fn then App(Finish(m.fn, s[1..], u, d, a), Subst(m.arg, d, a))
    else App(m.fn, Finish(m.arg, s[1..], u, d, a))
  }

  lemma {:induction false} FinishAppend(m: Term, p: seq<Key>, q: seq<Key>, u: Term, d: nat, a: Term)
    requires ValidPath(m, p + q)
    ensures ValidPath(m, p) && ValidPath(At(m, p), q)
    ensures Finish(m, p + q, u, d, a) == Finish(m, p, Finish(At(m, p), q, u, d + Depth(p), a), d, a)
    decreases p
  {
    ValidPathAppend(m, p, q);
    if p == [] {
      assert p + q == q;
    } else {
      assert (p + q)[0] == p[0] && (p + q)[1..] == p[1..] + q;
      FinishAppend(ChildOf(m, p[0]), p[1..], q, u, if p[0] == Body then d + 1 else d, a);
    }
  }

  /** Along a path without `function` fields nothing is left to substitute. */
  lemma {:induction false} FinishIdentity(m: Term, q: seq<Key>, d: nat, a: Term)
    requires ValidPath(m, q) && Fn !in q
    ensures Finish(m, q, At(m, q), d, a) == m
    decreases q
  {
    if q != [] {
      assert q[0] in q;
      assert forall k :: k in q[1..] ==> k in q;
      FinishIdentity(ChildOf(m, q[0]), q[1..], if q[0] == Body then d + 1 else d, a);
    }
  }

  lemma {:induction false} FinishReplace(m: Term, s: seq<Key>, x: Term, u: Term, d: nat, a: Term)
    requires ValidPath(m, s)
    ensures ValidPath(Replace(m, s, x), s)
    ensures Finish(Replace(m, s, x), s, u, d, a) == Finish(m, s, u, d, a)
    decreases s
  {
    ReplaceAt(m, s, x);
    if s != [] {
      var c := ChildOf(m, s[0]);
      FinishReplace(c, s[1..], x, u, if s[0] == Body then d + 1 else d, a);
      assert Replace(m, s, x) == WithChild(m, s[0], Replace(c, s[1..], x));
    }
  }

  /** The walk is about to visit the subterm at `s`: substituting it completes the result. */
  predicate Todo(m: Term, s: seq<Key>, b: Term, a: Term) {
    ValidPath(m, s) && Finish(m, s, Subst(At(m, s), Depth(s), a), 0, a) == Subst(b, 0, a)
  }

  /** The walk has finished the subterm at `s`. */
  predicate Done(m: Term, s: seq<Key>, b: Term, a: Term) {
    ValidPath(m, s) && Finish(m, s, At(m, s), 0, a) == Subst(b, 0, a)
  }

  /** Entering a function body or the function part of an application. */
  lemma Descend(m: Term, s: seq<Key>, k: Key, b: Term, a: Term)
    requires Todo(m, s, b, a) && k != Arg && HasChild(At(m, s), k)
    ensures Todo(m, s + [k], b, a)
    ensures Depth(s + [k]) == Depth(s) + (if k == Body then 1 else 0)
  {
    ValidPathSnoc(m, s, k);
    DepthAppend(s, [k]);
    assert Depth([k]) == if k == Body then 1 else 0;
    FinishAppend(m, s, [k], Subst(At(m, s + [k]), Depth(s + [k]), a), 0, a);
  }

  /** Substituting a childless node finishes it. */
  lemma Visit(m: Term, s: seq<Key>, b: Term, a: Term)
    requires Todo(m, s, b, a) && At(m, s).IsLeaf()
    ensures Done(Replace(m, s, Subst(At(m, s), Depth(s), a)), s, b, a)
  {
    var x := Subst(At(m, s), Depth(s), a);
    ReplaceAt(m, s, x);
    FinishReplace(m, s, x, x, 0, a);
  }

  /** The last position of a field other than `argument`, or -1: where the walk resumes. */
  function LastOpen(s: seq<Key>): (j: int)
    ensures -1 <= j < |s|
    ensures j >= 0 ==> s[j] != Arg
    ensures forall i :: j < i < |s| ==> s[i] == Arg
    decreases |s|
  {
    if s == [] then -1
    else if s[|s| - 1] != Arg then |s| - 1
    else LastOpen(s[..|s| - 1])
  }

  /** Finishing a function body finishes the function. */
  lemma {:induction false} Ascend(m: Term, s: seq<Key>, j: nat, b: Term, a: Term)
    requires Done(m, s, b, a) && j <= |s| && forall i :: j <= i < |s| ==> s[i] != Fn
    ensures Done(m, s[..j], b, a)
  {
    assert s == s[..j] + s[j..];
    FinishAppend(m, s[..j], s[j..], At(m, s), 0, a);
    ValidPathAppend(m, s[..j], s[j..]);
    assert Fn !in s[j..] by {
      forall i | 0 <= i < |s[j..]| ensures s[j..][i] != Fn { assert s[j..][i] == s[j + i]; }
    }
    FinishIdentity(At(m, s[..j]), s[j..], Depth(s[..j]), a);
  }

  /** Finishing the function part of an application moves the walk to its argument part. */
  lemma {:induction false} Switch(m: Term, s: seq<Key>, j: nat, b: Term, a: Term)
    requires Done(m, s, b, a) && j < |s| && s[j] == Fn && forall i :: j < i < |s| ==> s[i] != Fn
    ensures Todo(m, s[..j] + [Arg], b, a)
    ensures Depth(s[..j] + [Arg]) == Depth(s[..j])
  {
    Ascend(m, s, j + 1, b, a);
    var p := s[..j];
    assert s[..j + 1] == p + [Fn];
    ValidPathAppend(m, p, [Fn]);
    ValidPathSnoc(m, p, Arg);
    DepthAppend(p, [Fn]);
    DepthAppend(p, [Arg]);
    assert Depth([Arg]) == 0 && Depth([Fn]) == 0;
    FinishAppend(m, p, [Fn], At(m, p + [Fn]), 0, a);
    FinishAppend(m, p, [Arg], Subst(At(m, p + [Arg]), Depth(p), a), 0, a);
  }

  // What is left to visit: the subterms the walk has still to come back to.

  /** The size, or the occurrences of the walk's variable, of a subterm at depth `d`. */
  function Weight(t: Term, d: nat, occ: bool): nat {
    if occ then Occurrences(t, d) else Size(t)
  }

  /** The weight of the argument parts of the applications whose function part `s` enters. */
  function Pending(m: Term, s: seq<Key>, d: nat, occ: bool): nat
    requires ValidPath(m, s)
    decreases s
  {
    if s == [] then 0
    else if s[0] == Body then Pending(m.body, s[1..], d + 1, occ)
    else if s[0] == Fn then Weight(m.arg, d, occ) + Pending(m.fn, s[1..], d, occ)
    else Pending(m.arg, s[1..], d, occ)
  }

  lemma {:induction false} PendingAppend(m: Term, p: seq<Key>, q: seq<Key>, d: nat, occ: bool)
    requires ValidPath(m, p + q)
    ensures ValidPath(m, p) && ValidPath(At(m, p), q)
    ensures Pending(m, p + q, d, occ) == Pending(m, p, d, occ) + Pending(At(m, p), q, d + Depth(p), occ)
    decreases p
  {
    ValidPathAppend(m, p, q);
    if p == [] {
      assert p + q == q;
    } else {
      assert (p + q)[0] == p[0] && (p + q)[1..] == p[1..] + q;
      PendingAppend(ChildOf(m, p[0]), p[1..], q, if p[0] == Body then d + 1 else d, occ);
    }
  }

  lemma {:induction false} PendingNone(m: Term, q: seq<Key>, d: nat, occ: bool)
    requires ValidPath(m, q) && forall i :: 0 <= i < |q| ==> q[i] != Fn
    ensures Pending(m, q, d, occ) == 0
    decreases q
  {
    if q != [] {
      assert q[0] != Fn;
      PendingNone(ChildOf(m, q[0]), q[1..], if q[0] == Body then d + 1 else d, occ);
    }
  }

  lemma {:induction false} PendingReplace(m: Term, s: seq<Key>, x: Term, d: nat, occ: bool)
    requires ValidPath(m, s)
    ensures ValidPath(Replace(m, s, x), s)
    ensures Pending(Replace(m, s, x), s, d, occ) == Pending(m, s, d, occ)
    decreases s
  {
    ReplaceAt(m, s, x);
    if s != [] {
      PendingReplace(ChildOf(m, s[0]), s[1..], x, if s[0] == Body then d + 1 else d, occ);
    }
  }

  /** The weight of what is left: the subterm at `s` and what the walk comes back to. */
  function Left(m: Term, s: seq<Key>, occ: bool): nat
    requires ValidPath(m, s)
  {
    Weight(At(m, s), Depth(s), occ) + Pending(m, s, 0, occ)
  }

  /** Entering a child leaves one node less to visit and the same occurrences. */
  lemma LeftDescend(m: Term, s: seq<Key>, k: Key, occ: bool)
    requires ValidPath(m, s) && k != Arg && HasChild(At(m, s), k)
    ensures ValidPath(m, s + [k])
    ensures Left(m, s + [k], occ) == Left(m, s, occ) - (if occ then 0 else 1)
  {
    ValidPathSnoc(m, s, k);
    DepthAppend(s, [k]);
    assert Depth([k]) == if k == Body then 1 else 0;
    PendingAppend(m, s, [k], 0, occ);
  }

  /** Going back up to the argument part of an application. */
  lemma {:induction false} LeftSwitch(m: Term, s: seq<Key>, j: nat, occ: bool)
    requires ValidPath(m, s) && j < |s| && s[j] == Fn && forall i :: j < i < |s| ==> s[i] != Fn
    ensures ValidPath(m, s[..j] + [Arg])
    ensures Left(m, s[..j] + [Arg], occ) == Pending(m, s, 0, occ)
  {
    var p, q := s[..j], s[j + 1..];
    assert s == p + [Fn] + q;
    ValidPathAppend(m, p + [Fn], q);
    PendingAppend(m, p + [Fn], q, 0, occ);
    PendingNone(At(m, p + [Fn]), q, Depth(p + [Fn]), occ);
    PendingSwitch(m, p, occ);
  }

  /** What is pending below the function part of an application is what is left from its
      argument part. */
  lemma PendingSwitch(m: Term, p: seq<Key>, occ: bool)
    requires ValidPath(m, p + [Fn])
    ensures ValidPath(m, p + [Arg])
    ensures Pending(m, p + [Fn], 0, occ) == Left(m, p + [Arg], occ)
  {
    ValidPathAppend(m, p, [Fn]);
    ValidPathSnoc(m, p, Arg);
    PendingAppend(m, p, [Fn], 0, occ);
    PendingAppend(m, p, [Arg], 0, occ);
    DepthAppend(p, [Arg]);
    assert Depth([Arg]) == 0;
  }

  /** Going back up through function bodies. */
  lemma {:induction false} LeftAscend(m: Term, s: seq<Key>, j: nat, occ: bool)
    requires ValidPath(m, s) && j <= |s| && forall i :: j <= i < |s| ==> s[i] != Fn
    ensures ValidPath(m, s[..j]) && Pending(m, s[..j], 0, occ) == Pending(m, s, 0, occ)
  {
    assert s == s[..j] + s[j..];
    PendingAppend(m, s[..j], s[j..], 0, occ);
    PendingNone(At(m, s[..j]), s[j..], Depth(s[..j]), occ);
  }

  // The first occurrence: where the argument node itself goes.

  /** The path to the first variable of `t` bound `d` levels up, in the order of the walk: depth
      first, the function part of an application before its argument part. */
  function FirstPath(t: Term, d: nat): Option<seq<Key>> {
    match t
    case Lam(body) =>
      (match FirstPath(body, d + 1) case Some(q) => Some([Body] + q) case None => None)
    case Var(i) => if i == d then Some([]) else None
    case App(fn, arg) =>
      (match FirstPath(fn, d)
       case Some(q) => Some([Fn] + q)
       case None => (match FirstPath(arg, d) case Some(q) => Some([Arg] + q) case None => None))
    case _ => None
  }

  /** There is a first occurrence exactly when there is an occurrence, and it is one. */
  lemma {:induction false} FirstPathFound(t: Term, d: nat)
    ensures FirstPath(t, d).Some? <==> Occurrences(t, d) > 0
    ensures FirstPath(t, d).Some? ==>
      ValidPath(t, FirstPath(t, d).value) && At(t, FirstPath(t, d).value) == Var(d + Depth(FirstPath(t, d).value))
  {
    match t
    case Lam(body) =>
      FirstPathFound(body, d + 1);
      if FirstPath(body, d + 1).Some? {
        var q := FirstPath(body, d + 1).value;
        assert ([Body] + q)[0] == Body && ([Body] + q)[1..] == q;
      }
    case App(fn, arg) =>
      FirstPathFound(fn, d);
      FirstPathFound(arg, d);
      if FirstPath(fn, d).Some? {
        var q := FirstPath(fn, d).value;
        assert ([Fn] + q)[0] == Fn && ([Fn] + q)[1..] == q;
      } else if FirstPath(arg, d).Some? {
        var q := FirstPath(arg, d).value;
        assert ([Arg] + q)[0] == Arg && ([Arg] + q)[1..] == q;
      }
    case _ =>
  }

  /** The occurrences of `t` include those at `s` and those the walk comes back to. */
  lemma {:induction false} OccurrencesCover(t: Term, s: seq<Key>, d: nat)
    requires ValidPath(t, s)
    ensures Occurrences(t, d) >= Occurrences(At(t, s), d + Depth(s)) + Pending(t, s, d, true)
    decreases s
  {
    if s != [] {
      OccurrencesCover(ChildOf(t, s[0]), s[1..], if s[0] == Body then d + 1 else d);
    }
  }

  /** A variable the walk reaches with every occurrence still ahead of it is the first one. */
  lemma {:induction false} FirstOfWalk(t: Term, s: seq<Key>, d: nat)
    requires ValidPath(t, s) && At(t, s) == Var(d + Depth(s))
    requires Occurrences(t, d) == Occurrences(At(t, s), d + Depth(s)) + Pending(t, s, d, true)
    ensures FirstPath(t, d) == Some(s)
    decreases s
  {
    if s != [] {
      assert s == [s[0]] + s[1..];
      if s[0] == Body {
        FirstOfWalk(t.body, s[1..], d + 1);
      } else if s[0] == Fn {
        FirstOfWalk(t.fn, s[1..], d);
      } else {
        OccurrencesCover(t.arg, s[1..], d);
        FirstPathFound(t.fn, d);
        FirstOfWalk(t.arg, s[1..], d);
      }
    }
  }

  // The stack of the walk.

  /** The nodes the walk has entered at the end of `s` and not yet left: every function node
      whose body `s` enters and every application node whose function part it enters. */
  function StackOf(h: Heap, f: Ref, s: seq<Key>): seq<Ref>
    decreases |s|
  {
    if s == [] then []
    else StackOf(h, f, s[..|s| - 1]) + (if s[|s| - 1] == Arg then [] else [NodeAt(h, f, [Body] + s[..|s| - 1])])
  }

  /** The top of the stack is the node where the walk resumes. */
  lemma {:induction false} StackTop(h: Heap, f: Ref, s: seq<Key>)
    ensures StackOf(h, f, s) == [] <==> LastOpen(s) == -1
    ensures LastOpen(s) >= 0 ==>
      StackOf(h, f, s) == StackOf(h, f, s[..LastOpen(s)]) + [NodeAt(h, f, [Body] + s[..LastOpen(s)])]
    decreases |s|
  {
    if s != [] && s[|s| - 1] == Arg {
      var s' := s[..|s| - 1];
      StackTop(h, f, s');
      if LastOpen(s) >= 0 { assert s'[..LastOpen(s)] == s[..LastOpen(s)]; }
    }
  }

  lemma StackPush(h: Heap, f: Ref, s: seq<Key>, k: Key)
    ensures StackOf(h, f, s + [k]) == StackOf(h, f, s) + (if k == Arg then [] else [NodeAt(h, f, [Body] + s)])
  {
    assert (s + [k])[..|s|] == s;
  }

  /** The stack depends only on the nodes along the path. */
  lemma {:induction false} StackFrame(h: Heap, h': Heap, f: Ref, s: seq<Key>)
    requires forall i :: 0 <= i < |s| ==> NodeAt(h', f, [Body] + s[..i]) == NodeAt(h, f, [Body] + s[..i])
    ensures StackOf(h', f, s) == StackOf(h, f, s)
    decreases |s|
  {
    if s != [] {
      var s' := s[..|s| - 1];
      forall i | 0 <= i < |s'| ensures NodeAt(h', f, [Body] + s'[..i]) == NodeAt(h, f, [Body] + s'[..i]) {
        assert s'[..i] == s[..i];
      }
      StackFrame(h, h', f, s');
    }
  }

  // The walk on the graph.

  /** Paths into the body are paths into the function with `body` in front. */
  lemma InBody(m: Term, s: seq<Key>, x: Term)
    ensures ValidPath(Lam(m), [Body] + s) <==> ValidPath(m, s)
    ensures ValidPath(m, s) ==>
      At(Lam(m), [Body] + s) == At(m, s) && Replace(Lam(m), [Body] + s, x) == Lam(Replace(m, s, x))
  {
    assert ([Body] + s)[0] == Body && ([Body] + s)[1..] == s;
  }

  /** The walk's `node` and `key` at the end of `s`: the field that holds the subterm at `s`. */
  predicate Positioned(h: Heap, f: Ref, s: seq<Key>, node: Ref, key: Key) {
    node == NodeAt(h, f, ([Body] + s)[..|s|]) && key == ([Body] + s)[|s|]
  }

  lemma PositionedSnoc(h: Heap, f: Ref, s: seq<Key>, k: Key)
    ensures Positioned(h, f, s + [k], NodeAt(h, f, [Body] + s), k)
  {
    assert ([Body] + (s + [k]))[..|s| + 1] == [Body] + s;
  }

  /** What the walk reads at `node[key]`: the node at `s`, whose prototype tells the subterm's. */
  lemma Look(h: Heap, f: Ref, m: Term, s: seq<Key>, node: Ref, key: Key)
    requires Tree(h, f, Lam(m)) && ValidPath(m, s) && Positioned(h, f, s, node, key)
    ensures node < |h| && HasSlot(h[node], key)
    ensures var c := Slot(h[node], key);
      c == NodeAt(h, f, [Body] + s) && Tree(h, c, At(m, s)) && c < |h| &&
      (h[c].LamNode? <==> At(m, s).Lam?) && (h[c].AppNode? <==> At(m, s).App?) &&
      (h[c].VarNode? ==> At(m, s) == Var(h[c].index))
  {
    var fs := [Body] + s;
    InBody(m, s, Unit);
    assert fs == fs[..|s|] + [key];
    ValidPathAppend(Lam(m), fs[..|s|], [key]);
    ValidPathSnoc(Lam(m), fs[..|s|], key);
    NodeAtSnoc(h, f, Lam(m), fs[..|s|], key);
    NodeAtReps(h, f, Lam(m), fs);
  }

  /** The node at an open position of `s` is a function node exactly when the position enters a
      body. */
  lemma LookBack(h: Heap, f: Ref, m: Term, s: seq<Key>, j: nat)
    requires Tree(h, f, Lam(m)) && ValidPath(m, s) && j < |s| && s[j] != Arg
    ensures var item := NodeAt(h, f, [Body] + s[..j]);
      item < |h| && (h[item].LamNode? <==> s[j] == Body) && h[item].IsInterior()
  {
    ValidPathPrefix(m, s, j + 1);
    assert s[..j + 1] == s[..j] + [s[j]];
    ValidPathAppend(m, s[..j], [s[j]]);
    ValidPathSnoc(m, s[..j], s[j]);
    InBody(m, s[..j], Unit);
    NodeAtReps(h, f, Lam(m), [Body] + s[..j]);
  }

  /** Leaving the innermost open node: one binder less when it is a function node. */
  lemma PopDepth(s: seq<Key>, j: nat)
    requires j == LastOpen(s)
    ensures Depth(s) == Depth(s[..j]) + (if s[j] == Body then 1 else 0)
  {
    assert s == s[..j] + [s[j]] + s[j + 1..];
    DepthAppend(s[..j] + [s[j]], s[j + 1..]);
    DepthAppend(s[..j], [s[j]]);
    ArgsDepth(s[j + 1..]);
  }

  lemma {:induction false} ArgsDepth(q: seq<Key>)
    requires forall i :: 0 <= i < |q| ==> q[i] == Arg
    ensures Depth(q) == 0
    decreases |q|
  {
    if q != [] {
      assert q[0] == Arg;
      ArgsDepth(q[1..]);
    }
  }

  /** Paths `p` of the first occurrence and `s` of the walk, `p` visited before `s`: they agree up
      to `split`, where `p` took the function part and `s` the argument part. */
  predicate Before(p: seq<Key>, s: seq<Key>, split: nat) {
    split < |p| && split < |s| && p[..split] == s[..split] && p[split] == Fn && s[split] == Arg
  }

  lemma BeforeApart(p: seq<Key>, s: seq<Key>, split: nat)
    requires Before(p, s, split)
    ensures !([Body] + s <= [Body] + p) && !([Body] + p <= [Body] + s)
  {
    assert ([Body] + s)[split + 1] == s[split] && ([Body] + p)[split + 1] == p[split];
  }

  lemma BeforeSnoc(p: seq<Key>, s: seq<Key>, split: nat, k: Key)
    requires Before(p, s, split)
    ensures Before(p, s + [k], split)
  {
    assert (s + [k])[..split] == s[..split];
  }

  /** Leaving an open node keeps the first occurrence behind the walk, or below it. */
  lemma BeforePop(p: seq<Key>, s: seq<Key>, split: nat, j: nat) returns (split': nat)
    requires Before(p, s, split) || s <= p
    requires j == LastOpen(s)
    ensures Before(p, s[..j], split') || s[..j] <= p
    ensures s[j] == Fn ==> Before(p, s[..j] + [Arg], split')
  {
    split' := split;
    if Before(p, s, split) && split < j {
      assert s[..j][..split] == s[..split];
      assert (s[..j] + [Arg])[..split] == s[..split];
    } else {
      split' := j;
      assert p[..j] == s[..j];
      assert (s[..j] + [Arg])[..j] == s[..j];
    }
  }

  /** The heap as the walk leaves it: the function is a tree of the rewritten body `m`; only
      nodes of the function and of the argument have been written; the function's nodes are its
      original ones, the argument's once it has been moved in, and the fresh copies `copies`. */
  ghost predicate Rewriting(h0: Heap, f: Ref, a: Ref, b: Term, x: Term, h: Heap, m: Term, first: bool, copies: set<Ref>) {
    Tree(h0, f, Lam(b)) && Tree(h0, a, x) && Interior(h0, a, x) !! Interior(h0, f, Lam(b)) &&
    Tree(h, f, Lam(m)) &&
    Evolves(h0, h, Interior(h0, f, Lam(b)) + Interior(h0, a, x)) &&
    Spans(copies, |h0|, |h|) &&
    Interior(h, f, Lam(m)) == Interior(h0, f, Lam(b)) + (if first then {} else Interior(h0, a, x)) + copies &&
    (first ==> h == h0 && m == b)
  }

  /** The argument node itself sits at `p`. */
  predicate Moved(h: Heap, f: Ref, a: Ref, x: Term, m: Term, p: seq<Key>) {
    ValidPath(m, p) && At(m, p) == x && NodeAt(h, f, [Body] + p) == a
  }

  /** A write to a node of the tree keeps the writes within the function's and argument's nodes. */
  lemma EvolvesStep(h0: Heap, h: Heap, h': Heap, S: set<Ref>, I: set<Ref>, C: set<Ref>, p: Ref)
    requires Evolves(h0, h, S) && Evolves(h, h', {p}) && p in I && I <= S + C && Spans(C, |h0|, |h|)
    ensures Evolves(h0, h', S)
  {
    EvolvesTrans(h0, h, h', S, {p});
  }

  lemma SpansUnion(A: set<Ref>, B: set<Ref>, lo: nat, mid: nat, hi: nat)
    requires Spans(A, lo, mid) && Spans(B, mid, hi) && lo <= mid <= hi
    ensures Spans(A + B, lo, hi)
  {
  }

  /** A write at the end of `s` leaves the stack of `s` as it was. */
  lemma StackKept(h: Heap, hm: Heap, f: Ref, m: Term, s: seq<Key>, x: Ref)
    requires Tree(h, f, Lam(m)) && ValidPath(m, s)
    requires ValidPath(Lam(m), [Body] + s) && Evolves(h, hm, InteriorAt(h, f, Lam(m), [Body] + s))
    ensures var p, k := NodeAt(h, f, ([Body] + s)[..|s|]), ([Body] + s)[|s|];
      p < |hm| && HasSlot(hm[p], k) && StackOf(SetField(hm, p, k, x), f, s) == StackOf(h, f, s)
  {
    var fs := [Body] + s;
    var p, k := NodeAt(h, f, fs[..|s|]), fs[|s|];
    ParentInside(h, f, Lam(m), fs);
    var h' := SetField(hm, p, k, x);
    forall i | 0 <= i < |s| ensures NodeAt(h', f, [Body] + s[..i]) == NodeAt(h, f, [Body] + s[..i]) {
      assert fs[..i + 1] == [Body] + s[..i];
      NodeAtWriteAbove(h, hm, f, Lam(m), fs, x, fs[..i + 1]);
    }
    StackFrame(h, h', f, s);
  }

  /** Writing the graph `c` of `x`, disjoint from the function, into the field at the end of `s`,
      where a variable sits. */
  lemma WriteInto(h: Heap, hm: Heap, f: Ref, m: Term, s: seq<Key>, node: Ref, key: Key, c: Ref, x: Term)
    requires Tree(h, f, Lam(m)) && ValidPath(m, s) && At(m, s).Var? && Positioned(h, f, s, node, key)
    requires h <= hm && Tree(hm, c, x) && Interior(hm, c, x) !! Interior(h, f, Lam(m))
    ensures node < |hm| && HasSlot(hm[node], key)
    ensures var h', m' := SetField(hm, node, key, c), Replace(m, s, x);
      Tree(h', f, Lam(m')) && Interior(h', f, Lam(m')) == Interior(h, f, Lam(m)) + Interior(hm, c, x) &&
      Evolves(h, h', {node}) && node in Interior(h, f, Lam(m)) &&
      StackOf(h', f, s) == StackOf(h, f, s) && NodeAt(h', f, [Body] + s) == c
  {
    var fs := [Body] + s;
    InBody(m, s, x);
    Look(h, f, m, s, node, key);
    assert InteriorAt(h, f, Lam(m), fs) == {};
    EvolvesPrefix(h, hm);
    WriteAt(h, hm, f, Lam(m), fs, c, x);
    NodeAtWritten(h, hm, f, Lam(m), fs, c);
    ParentInside(h, f, Lam(m), fs);
    StackKept(h, hm, f, m, s, c);
  }

  /** The first occurrence receives the argument node itself. */
  lemma WriteFirst(h0: Heap, f: Ref, a: Ref, b: Term, x: Term, h: Heap, m: Term, copies: set<Ref>,
                   s: seq<Key>, node: Ref, key: Key)
    requires Rewriting(h0, f, a, b, x, h, m, true, copies)
    requires ValidPath(m, s) && At(m, s) == Var(Depth(s)) && Positioned(h, f, s, node, key)
    ensures node < |h| && HasSlot(h[node], key)
    ensures var h', m' := SetField(h, node, key, a), Replace(m, s, x);
      Rewriting(h0, f, a, b, x, h', m', false, copies) && Moved(h', f, a, x, m', s) &&
      StackOf(h', f, s) == StackOf(h, f, s)
  {
    WriteInto(h, h, f, m, s, node, key, a, x);
    ReplaceAt(m, s, x);
  }

  /** Every later occurrence receives a fresh copy of the argument. */
  lemma WriteCopy(h0: Heap, f: Ref, a: Ref, b: Term, x: Term, h: Heap, m: Term, copies: set<Ref>,
                  s: seq<Key>, node: Ref, key: Key, p: seq<Key>, split: nat, h1: Heap, c: Ref)
    requires Rewriting(h0, f, a, b, x, h, m, false, copies) && Moved(h, f, a, x, m, p) && Before(p, s, split)
    requires ValidPath(m, s) && At(m, s) == Var(Depth(s)) && Positioned(h, f, s, node, key)
    requires (h1, c) == CloneSpec(h, a, x)
    ensures Reps(h1, c, x) && node < |h1| && HasSlot(h1[node], key)
    ensures var h', m' := SetField(h1, node, key, c), Replace(m, s, x);
      Rewriting(h0, f, a, b, x, h', m', false, copies + Interior(h1, c, x)) && Moved(h', f, a, x, m', p) &&
      StackOf(h', f, s) == StackOf(h, f, s)
  {
    CopyReady(h, f, a, x, m, p, h1, c);
    WriteInto(h, h1, f, m, s, node, key, c, x);
    var h' := SetField(h1, node, key, c);
    EvolvesStep(h0, h, h', Interior(h0, f, Lam(b)) + Interior(h0, a, x), Interior(h, f, Lam(m)), copies, node);
    SpansUnion(copies, Interior(h1, c, x), |h0|, |h|, |h1|);
    CopyAside(h, h1, f, a, x, m, s, node, key, p, split, c);
  }

  /** The copy is a tree of fresh nodes. */
  lemma CopyReady(h: Heap, f: Ref, a: Ref, x: Term, m: Term, p: seq<Key>, h1: Heap, c: Ref)
    requires Tree(h, f, Lam(m)) && Moved(h, f, a, x, m, p) && (h1, c) == CloneSpec(h, a, x)
    ensures h <= h1 && Tree(h1, c, x) && Interior(h1, c, x) !! Interior(h, f, Lam(m))
    ensures Spans(Interior(h1, c, x), |h|, |h1|)
  {
    InBody(m, p, x);
    NodeAtReps(h, f, Lam(m), [Body] + p);
    CloneSpecCorrect(h, a, x);
    RefsFacts(h, f, Lam(m));
  }

  /** The argument node keeps the graph of the argument. */
  lemma MovedReps(h: Heap, f: Ref, a: Ref, x: Term, m: Term, p: seq<Key>)
    requires Tree(h, f, Lam(m)) && Moved(h, f, a, x, m, p)
    ensures Tree(h, a, x)
  {
    InBody(m, p, x);
    NodeAtReps(h, f, Lam(m), [Body] + p);
  }

  /** Writing a copy leaves the argument node where it was moved to. */
  lemma CopyAside(h: Heap, h1: Heap, f: Ref, a: Ref, x: Term, m: Term, s: seq<Key>, node: Ref, key: Key,
                  p: seq<Key>, split: nat, c: Ref)
    requires Tree(h, f, Lam(m)) && Moved(h, f, a, x, m, p) && Before(p, s, split)
    requires ValidPath(m, s) && At(m, s).Var? && Positioned(h, f, s, node, key) && h <= h1
    ensures node < |h1| && HasSlot(h1[node], key)
    ensures Moved(SetField(h1, node, key, c), f, a, x, Replace(m, s, x), p)
  {
    var fs := [Body] + s;
    InBody(m, s, x);
    InBody(m, p, x);
    Look(h, f, m, s, node, key);
    assert InteriorAt(h, f, Lam(m), fs) == {};
    EvolvesPrefix(h, h1);
    ParentInside(h, f, Lam(m), fs);
    BeforeApart(p, s, split);
    assert !(s <= p) && !(p <= s) by {
      assert s[split] != p[split];
    }
    ReplaceAside(m, s, x, p);
    NodeAtWriteAside(h, h1, f, Lam(m), fs, c, [Body] + p);
  }

  /** When the stack is empty the whole body has been substituted. */
  lemma Finale(h0: Heap, f: Ref, a: Ref, b: Term, x: Term, h: Heap, m: Term, first: bool, copies: set<Ref>,
               s: seq<Key>)
    requires Rewriting(h0, f, a, b, x, h, m, first, copies)
    requires Done(m, s, b, x) && LastOpen(s) == -1
    requires first ==> Occurrences(b, 0) == Pending(b, s, 0, true)
    requires !first ==> Occurrences(b, 0) > 0
    ensures Tree(h, f, Lam(Subst(b, 0, x))) && m == Subst(b, 0, x)
    ensures Occurrences(b, 0) == 0 ==> h == h0
    ensures Occurrences(b, 0) > 0 ==> Interior(h0, a, x) <= Interior(h, f, Lam(Subst(b, 0, x)))
    ensures Spans(Interior(h, f, Lam(Subst(b, 0, x))) - Interior(h0, f, Lam(b)) - Interior(h0, a, x), |h0|, |h|)
  {
    Ascend(m, s, 0, b, x);
    if first {
      PendingNone(b, s, 0, true);
    }
    RefsFacts(h0, f, Lam(b));
    RefsFacts(h0, a, x);
  }

  // The invariants of the two loops of the walk, and one lemma per step.

  /** About to read the field `key` of `node`, at the end of `s`. */
  ghost predicate Ahead(h0: Heap, f: Ref, a: Ref, b: Term, x: Term, h: Heap, m: Term, first: bool,
                        copies: set<Ref>, p: seq<Key>, split: nat, s: seq<Key>, node: Ref, key: Key,
                        nest: nat, stack: seq<Ref>) {
    Rewriting(h0, f, a, b, x, h, m, first, copies) &&
    Todo(m, s, b, x) && Positioned(h, f, s, node, key) &&
    nest == Depth(s) && stack == StackOf(h, f, s) &&
    (first ==> Occurrences(b, 0) == Left(b, s, true)) &&
    (!first ==> Occurrences(b, 0) > 0 && FirstPath(b, 0) == Some(p) && Moved(h, f, a, x, m, p) && Before(p, s, split))
  }

  /** Going back up, the subterm at the end of `s` finished; `w` bounds what is left. */
  ghost predicate Behind(h0: Heap, f: Ref, a: Ref, b: Term, x: Term, h: Heap, m: Term, first: bool,
                         copies: set<Ref>, p: seq<Key>, split: nat, s: seq<Key>, nest: nat,
                         stack: seq<Ref>, w: int) {
    Rewriting(h0, f, a, b, x, h, m, first, copies) &&
    Done(m, s, b, x) && stack == StackOf(h, f, s) && nest == Depth(s) &&
    (first ==> Occurrences(b, 0) == Pending(b, s, 0, true)) &&
    (!first ==> Occurrences(b, 0) > 0 && FirstPath(b, 0) == Some(p) && Moved(h, f, a, x, m, p) &&
                (Before(p, s, split) || s <= p)) &&
    3 * Pending(m, s, 0, false) + |stack| < w
  }

  /** The measure of the walk. */
  ghost function Measure(m: Term, s: seq<Key>, stack: seq<Ref>): int
    requires ValidPath(m, s)
  {
    3 * Left(m, s, false) + |stack|
  }

  /** The walk starts at the body of the function, nothing written. */
  lemma Start(h0: Heap, f: Ref, a: Ref, b: Term, x: Term)
    requires Tree(h0, f, Lam(b)) && Tree(h0, a, x) && Interior(h0, a, x) !! Interior(h0, f, Lam(b))
    ensures Ahead(h0, f, a, b, x, h0, b, true, {}, [], 0, [], f, Body, 0, [])
  {
    assert Positioned(h0, f, [], f, Body);
  }

  lemma ReadStep(h0: Heap, f: Ref, a: Ref, b: Term, x: Term, h: Heap, m: Term, first: bool,
                 copies: set<Ref>, p: seq<Key>, split: nat, s: seq<Key>, node: Ref, key: Key,
                 nest: nat, stack: seq<Ref>)
    requires Ahead(h0, f, a, b, x, h, m, first, copies, p, split, s, node, key, nest, stack)
    ensures node < |h| && HasSlot(h[node], key) && Slot(h[node], key) < |h|
  {
    Look(h, f, m, s, node, key);
  }

  /** Entering a function body or the function part of an application. */
  lemma EnterStep(h0: Heap, f: Ref, a: Ref, b: Term, x: Term, h: Heap, m: Term, first: bool,
                  copies: set<Ref>, p: seq<Key>, split: nat, s: seq<Key>, node: Ref, key: Key,
                  nest: nat, stack: seq<Ref>, k: Key)
    requires Ahead(h0, f, a, b, x, h, m, first, copies, p, split, s, node, key, nest, stack)
    requires node < |h| && HasSlot(h[node], key)
    requires var c := Slot(h[node], key); c < |h| && if k == Body then h[c].LamNode? else k == Fn && h[c].AppNode?
    ensures var c, s' := Slot(h[node], key), s + [k];
      Ahead(h0, f, a, b, x, h, m, first, copies, p, split, s', c, k, nest + (if k == Body then 1 else 0), stack + [c]) &&
      Measure(m, s', stack + [c]) < Measure(m, s, stack)
  {
    Look(h, f, m, s, node, key);
    Descend(m, s, k, b, x);
    LeftDescend(m, s, k, false);
    LeftDescend(m, s, k, true);
    PositionedSnoc(h, f, s, k);
    StackPush(h, f, s, k);
    if !first { BeforeSnoc(p, s, split, k); }
  }

  /** A childless node that is not the walk's variable is left as it is. */
  lemma PassStep(h0: Heap, f: Ref, a: Ref, b: Term, x: Term, h: Heap, m: Term, first: bool,
                 copies: set<Ref>, p: seq<Key>, split: nat, s: seq<Key>, node: Ref, key: Key,
                 nest: nat, stack: seq<Ref>)
    requires Ahead(h0, f, a, b, x, h, m, first, copies, p, split, s, node, key, nest, stack)
    requires node < |h| && HasSlot(h[node], key)
    requires var c := Slot(h[node], key); c < |h| && !h[c].IsInterior() && !(h[c].VarNode? && h[c].index == nest)
    ensures Behind(h0, f, a, b, x, h, m, first, copies, p, split, s, nest, stack, Measure(m, s, stack))
  {
    Look(h, f, m, s, node, key);
    Visit(m, s, b, x);
    ReplaceSame(m, s);
  }

  /** The walk's variable: the argument node itself goes there. */
  lemma MoveStep(h0: Heap, f: Ref, a: Ref, b: Term, x: Term, h: Heap, m: Term,
                 copies: set<Ref>, p: seq<Key>, split: nat, s: seq<Key>, node: Ref, key: Key,
                 nest: nat, stack: seq<Ref>)
    requires Ahead(h0, f, a, b, x, h, m, true, copies, p, split, s, node, key, nest, stack)
    requires node < |h| && HasSlot(h[node], key)
    requires var c := Slot(h[node], key); c < |h| && h[c].VarNode? && h[c].index == nest
    ensures Behind(h0, f, a, b, x, SetField(h, node, key, a), Replace(m, s, x), false, copies, s, split, s,
                   nest, stack, Measure(m, s, stack))
  {
    Look(h, f, m, s, node, key);
    FirstOfWalk(b, s, 0);
    Visit(m, s, b, x);
    PendingReplace(m, s, x, 0, false);
    WriteFirst(h0, f, a, b, x, h, m, copies, s, node, key);
  }

  /** The walk's variable once the argument has been moved: a copy goes there. */
  lemma CopyStep(h0: Heap, f: Ref, a: Ref, b: Term, x: Term, h: Heap, m: Term,
                 copies: set<Ref>, p: seq<Key>, split: nat, s: seq<Key>, node: Ref, key: Key,
                 nest: nat, stack: seq<Ref>, h1: Heap, c: Ref)
    requires Ahead(h0, f, a, b, x, h, m, false, copies, p, split, s, node, key, nest, stack)
    requires node < |h| && HasSlot(h[node], key)
    requires var c := Slot(h[node], key); c < |h| && h[c].VarNode? && h[c].index == nest
    requires (h1, c) == CloneSpec(h, a, x)
    ensures Reps(h1, c, x) && node < |h1| && HasSlot(h1[node], key)
    ensures Behind(h0, f, a, b, x, SetField(h1, node, key, c), Replace(m, s, x), false,
                   copies + Interior(h1, c, x), p, split, s, nest, stack, Measure(m, s, stack))
  {
    Look(h, f, m, s, node, key);
    Visit(m, s, b, x);
    PendingReplace(m, s, x, 0, false);
    WriteCopy(h0, f, a, b, x, h, m, copies, s, node, key, p, split, h1, c);
  }

  lemma ArgReady(h0: Heap, f: Ref, a: Ref, b: Term, x: Term, h: Heap, m: Term,
                 copies: set<Ref>, p: seq<Key>, split: nat, s: seq<Key>, node: Ref, key: Key,
                 nest: nat, stack: seq<Ref>)
    requires Ahead(h0, f, a, b, x, h, m, false, copies, p, split, s, node, key, nest, stack)
    ensures Reps(h, a, x)
  {
    MovedReps(h, f, a, x, m, p);
  }

  /** The node on top of the stack. */
  lemma TopStep(h0: Heap, f: Ref, a: Ref, b: Term, x: Term, h: Heap, m: Term, first: bool,
                copies: set<Ref>, p: seq<Key>, split: nat, s: seq<Key>, nest: nat,
                stack: seq<Ref>, w: int)
    requires Behind(h0, f, a, b, x, h, m, first, copies, p, split, s, nest, stack, w) && stack != []
    ensures stack[|stack| - 1] < |h| && h[stack[|stack| - 1]].IsInterior()
  {
    StackTop(h, f, s);
    LookBack(h, f, m, s, LastOpen(s));
  }

  /** Leaving a function node. */
  lemma LeaveStep(h0: Heap, f: Ref, a: Ref, b: Term, x: Term, h: Heap, m: Term, first: bool,
                  copies: set<Ref>, p: seq<Key>, split: nat, s: seq<Key>, nest: nat,
                  stack: seq<Ref>, w: int) returns (split': nat)
    requires Behind(h0, f, a, b, x, h, m, first, copies, p, split, s, nest, stack, w) && stack != []
    requires stack[|stack| - 1] < |h| && h[stack[|stack| - 1]].LamNode?
    ensures nest >= 1 && LastOpen(s) >= 0
    ensures Behind(h0, f, a, b, x, h, m, first, copies, p, split', s[..LastOpen(s)], nest - 1,
                   stack[..|stack| - 1], w)
  {
    var j := LastOpen(s);
    StackTop(h, f, s);
    LookBack(h, f, m, s, j);
    PopDepth(s, j);
    split' := split;
    if !first { split' := BeforePop(p, s, split, j); }
    Ascend(m, s, j, b, x);
    LeftAscend(m, s, j, false);
    LeftAscend(m, s, j, true);
  }

  /** Leaving the function part of an application for its argument part. */
  lemma SwitchStep(h0: Heap, f: Ref, a: Ref, b: Term, x: Term, h: Heap, m: Term, first: bool,
                   copies: set<Ref>, p: seq<Key>, split: nat, s: seq<Key>, nest: nat,
                   stack: seq<Ref>, w: int) returns (split': nat)
    requires Behind(h0, f, a, b, x, h, m, first, copies, p, split, s, nest, stack, w) && stack != []
    requires stack[|stack| - 1] < |h| && h[stack[|stack| - 1]].AppNode?
    ensures LastOpen(s) >= 0
    ensures var s' := s[..LastOpen(s)] + [Arg];
      Ahead(h0, f, a, b, x, h, m, first, copies, p, split', s', stack[|stack| - 1], Arg, nest,
            stack[..|stack| - 1]) &&
      Measure(m, s', stack[..|stack| - 1]) < w
  {
    var j := LastOpen(s);
    StackTop(h, f, s);
    LookBack(h, f, m, s, j);
    PopDepth(s, j);
    split' := split;
    if !first { split' := BeforePop(p, s, split, j); }
    Switch(m, s, j, b, x);
    LeftSwitch(m, s, j, false);
    LeftSwitch(m, s, j, true);
    PositionedSnoc(h, f, s[..j], Arg);
    StackPush(h, f, s[..j], Arg);
  }

  /** The stack is empty: the walk is over. */
  lemma EndStep(h0: Heap, f: Ref, a: Ref, b: Term, x: Term, h: Heap, m: Term, first: bool,
                copies: set<Ref>, p: seq<Key>, split: nat, s: seq<Key>, nest: nat, w: int)
    requires Behind(h0, f, a, b, x, h, m, first, copies, p, split, s, nest, [], w)
    ensures Tree(h, f, Lam(Subst(b, 0, x)))
    ensures Evolves(h0, h, Interior(h0, f, Lam(b)) + Interior(h0, a, x))
    ensures Interior(h0, f, Lam(b)) <= Interior(h, f, Lam(Subst(b, 0, x)))
    ensures Occurrences(b, 0) == 0 ==> h == h0
    ensures Occurrences(b, 0) > 0 ==> Interior(h0, a, x) <= Interior(h, f, Lam(Subst(b, 0, x)))
    ensures Spans(Interior(h, f, Lam(Subst(b, 0, x))) - Interior(h0, f, Lam(b)) - Interior(h0, a, x), |h0|, |h|)
    ensures Occurrences(b, 0) > 0 ==> FirstPath(b, 0).Some? && NodeAt(h, f, [Body] + FirstPath(b, 0).value) == a
  {
    StackTop(h, f, s);
    Finale(h0, f, a, b, x, h, m, first, copies, s);
    if first {
      PendingNone(b, s, 0, true);
    }
  }
}

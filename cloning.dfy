// `clone`: an iterative deep copy of a graph. Function and application nodes are copied,
// childless nodes are shared.

module Cloning {
  import opened Wrappers
  import opened Terms
  import opened Graph

  /** `S` is exactly the set of references allocated between two heap sizes. */
  ghost predicate Spans(S: set<Ref>, lo: nat, hi: nat) {
    forall q :: q in S <==> lo <= q < hi
  }

  /** The copy as a recursive definition: copy the function side, then the argument side, then
      allocate the node itself. Off the graph of `t` it returns its inputs. */
  function CloneSpec(h: Heap, r: Ref, t: Term): (res: (Heap, Ref))
    ensures h <= res.0
    decreases t
  {
    if !Reps(h, r, t) || t.IsLeaf() then (h, r)
    else if t.Lam? then
      var (h1, c) := CloneSpec(h, h[r].body, t.body);
      (h1 + [LamNode(c)], |h1|)
    else
      var (h1, cf) := CloneSpec(h, h[r].fn, t.fn);
      var (h2, cx) := CloneSpec(h1, h[r].arg, t.arg);
      (h2 + [AppNode(cf, cx)], |h2|)
  }

  /** The copy is a graph of the same term; all of its function and application nodes are the
      nodes just allocated, each reached once; its childless nodes are those of the original, in
      the same order; a childless original is returned itself. */
  lemma {:induction false} CloneSpecCorrect(h: Heap, r: Ref, t: Term)
    requires Reps(h, r, t)
    ensures var (h', c) := CloneSpec(h, r, t);
      Tree(h', c, t) &&
      Spans(Interior(h', c, t), |h|, |h'|) &&
      LeafRefs(h', c, t) == LeafRefs(h, r, t) &&
      (t.IsLeaf() ==> c == r && h' == h)
    decreases t
  {
    match t
    case Lam(b) =>
      CloneSpecCorrect(h, h[r].body, b);
      var (h1, c1) := CloneSpec(h, h[r].body, b);
      CloneLam(h, r, b, h1, c1);
    case App(f, x) =>
      CloneSpecCorrect(h, h[r].fn, f);
      var (h1, cf) := CloneSpec(h, h[r].fn, f);
      FrameGrow(h, h1, h[r].arg, x);
      CloneSpecCorrect(h1, h[r].arg, x);
      var (h2, cx) := CloneSpec(h1, h[r].arg, x);
      CloneApp(h, r, f, x, h1, cf, h2, cx);
    case _ =>
  }

  lemma CloneLam(h: Heap, r: Ref, b: Term, h1: Heap, c1: Ref)
    requires Reps(h, r, Lam(b)) && h <= h1
    requires Tree(h1, c1, b) && Spans(Interior(h1, c1, b), |h|, |h1|)
    requires LeafRefs(h1, c1, b) == LeafRefs(h, h[r].body, b)
    ensures var h' := h1 + [LamNode(c1)];
      Tree(h', |h1|, Lam(b)) &&
      Spans(Interior(h', |h1|, Lam(b)), |h|, |h'|) &&
      LeafRefs(h', |h1|, Lam(b)) == LeafRefs(h, r, Lam(b))
  {
    var h' := h1 + [LamNode(c1)];
    var n := |h1|;
    assert Tree(h', c1, b) && Interior(h', c1, b) == Interior(h1, c1, b)
      && LeafRefs(h', c1, b) == LeafRefs(h, h[r].body, b) by {
      FrameGrow(h1, h', c1, b);
    }
    TreeLam(h', n, b);
  }

  lemma CloneApp(h: Heap, r: Ref, f: Term, x: Term, h1: Heap, cf: Ref, h2: Heap, cx: Ref)
    requires Reps(h, r, App(f, x)) && h <= h1 <= h2
    requires Tree(h1, cf, f) && Spans(Interior(h1, cf, f), |h|, |h1|)
    requires LeafRefs(h1, cf, f) == LeafRefs(h, h[r].fn, f)
    requires Tree(h2, cx, x) && Spans(Interior(h2, cx, x), |h1|, |h2|)
    requires LeafRefs(h2, cx, x) == LeafRefs(h, h[r].arg, x)
    ensures var h' := h2 + [AppNode(cf, cx)];
      Tree(h', |h2|, App(f, x)) &&
      Spans(Interior(h', |h2|, App(f, x)), |h|, |h'|) &&
      LeafRefs(h', |h2|, App(f, x)) == LeafRefs(h, r, App(f, x))
  {
    var h' := h2 + [AppNode(cf, cx)];
    var n := |h2|;
    var A, B := Interior(h1, cf, f), Interior(h2, cx, x);
    assert Tree(h', cf, f) && Interior(h', cf, f) == A
      && LeafRefs(h', cf, f) == LeafRefs(h, h[r].fn, f) by {
      FrameGrow(h1, h', cf, f);
    }
    assert Tree(h', cx, x) && Interior(h', cx, x) == B
      && LeafRefs(h', cx, x) == LeafRefs(h, h[r].arg, x) by {
      FrameGrow(h2, h', cx, x);
    }
    SpansJoin(A, B, |h|, |h1|, n);
    TreeApp(h', n, f, x);
  }

  /** Two adjacent fresh ranges and the node allocated after them. */
  lemma SpansJoin(A: set<Ref>, B: set<Ref>, lo: nat, mid: nat, hi: nat)
    requires Spans(A, lo, mid) && Spans(B, mid, hi) && lo <= mid <= hi
    ensures hi !in A && hi !in B && A !! B
    ensures Spans({hi} + A + B, lo, hi + 1)
  {
  }

  /** Copying keeps every stored reference inside the heap. */
  lemma {:induction false} CloneSpecClosed(h: Heap, r: Ref, t: Term)
    requires Reps(h, r, t) && Closed(h)
    ensures var (h', c) := CloneSpec(h, r, t); Closed(h') && c < |h'|
    decreases t
  {
    match t
    case Lam(b) =>
      CloneSpecClosed(h, h[r].body, b);
      var (h1, c1) := CloneSpec(h, h[r].body, b);
      ClosedSnoc(h1, LamNode(c1));
    case App(f, x) =>
      CloneSpecClosed(h, h[r].fn, f);
      var (h1, cf) := CloneSpec(h, h[r].fn, f);
      FrameGrow(h, h1, h[r].arg, x);
      CloneSpecClosed(h1, h[r].arg, x);
      var (h2, cx) := CloneSpec(h1, h[r].arg, x);
      ClosedSnoc(h2, AppNode(cf, cx));
    case _ =>
  }

  /** A frame of the copying stack: a function node waiting for its body, or an application node
      waiting for its function side (`fn == None`, the argument still to be copied from `arg`) or
      for its argument side. */
  datatype Pending = PendLam | PendApp(fn: Option<Ref>, arg: Ref)

  function Weight(p: Pending, a: Term): nat {
    if p.PendApp? && p.fn.None? then 3 * Size(a) + 2 else 1
  }

  /** What is left to do on the stack, with `terms` the original argument term of each frame. */
  function PendingWeight(stack: seq<Pending>, terms: seq<Term>): nat
    requires |terms| == |stack|
  {
    if stack == [] then 0
    else PendingWeight(stack[..|stack| - 1], terms[..|terms| - 1]) + Weight(stack[|stack| - 1], terms[|terms| - 1])
  }

  lemma PendingWeightSnoc(stack: seq<Pending>, terms: seq<Term>, p: Pending, a: Term)
    requires |terms| == |stack|
    ensures PendingWeight(stack + [p], terms + [a]) == PendingWeight(stack, terms) + Weight(p, a)
  {
    assert (stack + [p])[..|stack|] == stack;
    assert (terms + [a])[..|terms|] == terms;
  }

  /** Finishing the copy from a completed node `c`, frame by frame from the top of the stack. */
  function Resume(h: Heap, stack: seq<Pending>, terms: seq<Term>, c: Ref): (res: (Heap, Ref))
    requires |terms| == |stack|
    decreases PendingWeight(stack, terms)
  {
    if stack == [] then (h, c)
    else
      var rest, trest := stack[..|stack| - 1], terms[..|terms| - 1];
      var a := terms[|terms| - 1];
      match stack[|stack| - 1]
      case PendLam => Resume(h + [LamNode(c)], rest, trest, |h|)
      case PendApp(fn, arg) =>
        if fn.None? then
          var (h1, ca) := CloneSpec(h, arg, a);
          PendingWeightSnoc(rest, trest, PendApp(Some(c), arg), a);
          Resume(h1, rest + [PendApp(Some(c), arg)], trest + [a], ca)
        else Resume(h + [AppNode(fn.value, c)], rest, trest, |h|)
  }

  /** Frames whose argument is still to be copied point at graphs of their terms. */
  ghost predicate PendingOK(h: Heap, stack: seq<Pending>, terms: seq<Term>)
    requires |terms| == |stack|
  {
    forall i :: 0 <= i < |stack| && stack[i].PendApp? && stack[i].fn.None? ==> Reps(h, stack[i].arg, terms[i])
  }

  lemma PendingGrow(h: Heap, h': Heap, stack: seq<Pending>, terms: seq<Term>)
    requires |terms| == |stack| && PendingOK(h, stack, terms) && h <= h'
    ensures PendingOK(h', stack, terms)
  {
    forall i | 0 <= i < |stack| && stack[i].PendApp? && stack[i].fn.None?
      ensures Reps(h', stack[i].arg, terms[i])
    {
      FrameGrow(h, h', stack[i].arg, terms[i]);
    }
  }

  /** Pushing a frame keeps the stack well formed and adds its weight. */
  lemma Push(h: Heap, stack: seq<Pending>, terms: seq<Term>, p: Pending, a: Term)
    requires |terms| == |stack| && PendingOK(h, stack, terms)
    requires p.PendApp? && p.fn.None? ==> Reps(h, p.arg, a)
    ensures PendingOK(h, stack + [p], terms + [a])
    ensures PendingWeight(stack + [p], terms + [a]) == PendingWeight(stack, terms) + Weight(p, a)
  {
    PendingWeightSnoc(stack, terms, p, a);
  }

  /** Descending into a function node pushes a frame that allocates it once its body is copied. */
  lemma DescendLam(h: Heap, node: Ref, T: Term, stack: seq<Pending>, terms: seq<Term>)
    requires |terms| == |stack| && Reps(h, node, T) && T.Lam?
    ensures var (h1, c1) := CloneSpec(h, h[node].body, T.body);
      Resume(h1, stack + [PendLam], terms + [Unit], c1) == Resume(CloneSpec(h, node, T).0, stack, terms, CloneSpec(h, node, T).1)
  {
    assert (stack + [PendLam])[..|stack|] == stack;
    assert (terms + [Unit])[..|terms|] == terms;
  }

  /** Descending into the function side of an application pushes a frame that copies its argument
      side next. */
  lemma DescendApp(h: Heap, node: Ref, T: Term, stack: seq<Pending>, terms: seq<Term>)
    requires |terms| == |stack| && Reps(h, node, T) && T.App?
    ensures var (h1, c1) := CloneSpec(h, h[node].fn, T.fn);
      Resume(h1, stack + [PendApp(None, h[node].arg)], terms + [T.arg], c1) == Resume(CloneSpec(h, node, T).0, stack, terms, CloneSpec(h, node, T).1)
  {
    var (h1, c1) := CloneSpec(h, h[node].fn, T.fn);
    ResumeArg(h1, stack, terms, c1, h[node].arg, T.arg);
  }

  /** A frame waiting for its argument side copies it, then allocates the application. */
  lemma ResumeArg(h: Heap, stack: seq<Pending>, terms: seq<Term>, c: Ref, arg: Ref, a: Term)
    requires |terms| == |stack|
    ensures var (h2, c2) := CloneSpec(h, arg, a);
      Resume(h, stack + [PendApp(None, arg)], terms + [a], c) == Resume(h2 + [AppNode(c, c2)], stack, terms, |h2|)
  {
    var (h2, c2) := CloneSpec(h, arg, a);
    assert (stack + [PendApp(None, arg)])[..|stack|] == stack;
    assert (terms + [a])[..|terms|] == terms;
    assert (stack + [PendApp(Some(c), arg)])[..|stack|] == stack;
  }

  /** Popping the top frame: what it leaves on the stack, and the step of `Resume` it performs. */
  lemma Pop(h: Heap, stack: seq<Pending>, terms: seq<Term>, c: Ref)
    requires |terms| == |stack| > 0 && PendingOK(h, stack, terms)
    ensures var n := |stack| - 1;
      PendingOK(h, stack[..n], terms[..n]) &&
      PendingWeight(stack, terms) == PendingWeight(stack[..n], terms[..n]) + Weight(stack[n], terms[n])
    ensures var n := |stack| - 1; var p := stack[n];
      p.PendLam? ==> Resume(h, stack, terms, c) == Resume(h + [LamNode(c)], stack[..n], terms[..n], |h|)
    ensures var n := |stack| - 1; var p := stack[n];
      p.PendApp? && p.fn.Some? ==>
        Resume(h, stack, terms, c) == Resume(h + [AppNode(p.fn.value, c)], stack[..n], terms[..n], |h|)
    ensures var n := |stack| - 1; var p := stack[n];
      p.PendApp? && p.fn.None? ==>
        Reps(h, p.arg, terms[n]) && stack[..n] + [PendApp(Some(c), p.arg)] == stack[n := PendApp(Some(c), p.arg)] &&
        Resume(h, stack, terms, c) ==
        Resume(CloneSpec(h, p.arg, terms[n]).0, stack[n := PendApp(Some(c), p.arg)], terms, CloneSpec(h, p.arg, terms[n]).1)
  {
    var n := |stack| - 1;
    forall i | 0 <= i < n && stack[..n][i].PendApp? && stack[..n][i].fn.None?
      ensures Reps(h, stack[..n][i].arg, terms[..n][i])
    {
      assert stack[..n][i] == stack[i];
    }
    assert terms[..n] + [terms[n]] == terms;
  }

  /** `clone(node)`: the source's two nested loops over an explicit stack. Nodes are allocated
      when they are complete. */
  method Clone(h0: Heap, r: Ref, ghost t: Term) returns (h: Heap, c: Ref)
    requires Reps(h0, r, t)
    ensures (h, c) == CloneSpec(h0, r, t)
  {
    h := h0;
    var stack: seq<Pending> := [];
    ghost var terms: seq<Term> := [];
    var node: Ref := r;
    ghost var T := t;
    while true
      invariant h0 <= h && |terms| == |stack|
      invariant Reps(h, node, T) && PendingOK(h, stack, terms)
      invariant Resume(CloneSpec(h, node, T).0, stack, terms, CloneSpec(h, node, T).1) == CloneSpec(h0, r, t)
      decreases 3 * Size(T) + PendingWeight(stack, terms)
    {
      if h[node].LamNode? {
        DescendLam(h, node, T, stack, terms);
        Push(h, stack, terms, PendLam, Unit);
        stack, terms := stack + [PendLam], terms + [Unit];
        node, T := h[node].body, T.body;
        continue;
      }
      if h[node].AppNode? {
        DescendApp(h, node, T, stack, terms);
        Push(h, stack, terms, PendApp(None, h[node].arg), T.arg);
        stack, terms := stack + [PendApp(None, h[node].arg)], terms + [T.arg];
        node, T := h[node].fn, T.fn;
        continue;
      }
      assert CloneSpec(h, node, T) == (h, node);
      ghost var bound := PendingWeight(stack, terms);
      while true
        invariant h0 <= h && |terms| == |stack| && node < |h|
        invariant PendingOK(h, stack, terms)
        invariant Resume(h, stack, terms, node) == CloneSpec(h0, r, t)
        invariant PendingWeight(stack, terms) <= bound
        decreases PendingWeight(stack, terms)
      {
        if stack == [] {
          return h, node;
        }
        var item := stack[|stack| - 1];
        ghost var a := terms[|terms| - 1];
        Pop(h, stack, terms, node);
        stack, terms := stack[..|stack| - 1], terms[..|terms| - 1];
        match item
        case PendLam =>
          PendingGrow(h, h + [LamNode(node)], stack, terms);
          h, node := h + [LamNode(node)], |h|;
        case PendApp(fn, arg) =>
          if fn.None? {
            Push(h, stack, terms, PendApp(Some(node), arg), a);
            stack, terms := stack + [PendApp(Some(node), arg)], terms + [a];
            node, T := arg, a;
            break;
          } else {
            PendingGrow(h, h + [AppNode(fn.value, node)], stack, terms);
            h, node := h + [AppNode(fn.value, node)], |h|;
          }
      }
    }
  }
}

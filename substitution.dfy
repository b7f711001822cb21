// Applying a function node to an argument node in place: every variable of the body that refers
// to the function's own binder is overwritten with the argument, the first one with the argument
// node itself and every later one with a fresh copy of it.

module Substitution {
  import opened Terms
  import opened Graph
  import opened HeapPaths
  import opened Cloning
  import opened SubstitutionWalk

  /** Applies the function node `f`, of body `b`, to the argument node `a`, of term `x`: the body
      becomes the substitution of `x` for the function's variable. The first variable found in a
      depth-first walk of the body receives `a` itself, every later one a fresh copy; nothing
      outside the function's and the argument's nodes is written; every node of the result is an
      original node of the function, a node of the argument (when the variable occurs) or a new
      one. */
  method SubstituteArg(h0: Heap, f: Ref, a: Ref, ghost b: Term, ghost x: Term) returns (h: Heap)
    requires Tree(h0, f, Lam(b)) && Tree(h0, a, x)
    requires Interior(h0, a, x) !! Interior(h0, f, Lam(b))
    ensures Tree(h, f, Lam(Subst(b, 0, x)))
    ensures Evolves(h0, h, Interior(h0, f, Lam(b)) + Interior(h0, a, x))
    ensures Interior(h0, f, Lam(b)) <= Interior(h, f, Lam(Subst(b, 0, x)))
    ensures Occurrences(b, 0) == 0 ==> h == h0
    ensures Occurrences(b, 0) > 0 ==> Interior(h0, a, x) <= Interior(h, f, Lam(Subst(b, 0, x)))
    ensures Spans(Interior(h, f, Lam(Subst(b, 0, x))) - Interior(h0, f, Lam(b)) - Interior(h0, a, x), |h0|, |h|)
    ensures Occurrences(b, 0) > 0 ==> FirstPath(b, 0).Some? && NodeAt(h, f, [Body] + FirstPath(b, 0).value) == a
  {
    Start(h0, f, a, b, x);
    var first, nest;
    ghost var m, copies, p, split, s, w;
    h, m, first, copies, p, split, s, nest, w := Walk(h0, f, a, b, x, h0, b, true, {}, [], 0, [], f, Body, 0, []);
    EndStep(h0, f, a, b, x, h, m, first, copies, p, split, s, nest, w);
  }

  /** The walk of `substituteArg` over the body of `f`, from the field `key` of `node` to the
      point where the stack runs out. */
  method Walk(ghost h0: Heap, f: Ref, a: Ref, ghost b: Term, ghost x: Term, h1: Heap, ghost m1: Term, first1: bool,
              ghost copies1: set<Ref>, ghost p1: seq<Key>, ghost split1: nat, ghost s1: seq<Key>, node1: Ref, key1: Key,
              nest1: nat, stack1: seq<Ref>)
    returns (h: Heap, ghost m: Term, first: bool, ghost copies: set<Ref>, ghost p: seq<Key>, ghost split: nat,
             ghost s: seq<Key>, nest: nat, ghost w: int)
    requires Ahead(h0, f, a, b, x, h1, m1, first1, copies1, p1, split1, s1, node1, key1, nest1, stack1)
    ensures Behind(h0, f, a, b, x, h, m, first, copies, p, split, s, nest, [], w)
  {
    h, m, first, copies, p, split, s, nest := h1, m1, first1, copies1, p1, split1, s1, nest1;
    var node, key, stack := node1, key1, stack1;
    while true
      invariant Ahead(h0, f, a, b, x, h, m, first, copies, p, split, s, node, key, nest, stack)
      decreases Measure(m, s, stack)
    {
      w := Measure(m, s, stack);
      var done;
      done, h, first, node, key, nest, stack, m, copies, p, split, s :=
        Advance(h0, f, a, b, x, h, m, first, copies, p, split, s, node, key, nest, stack);
      if done {
        return;
      }
    }
  }

  /** One round of the walk: reads `node[key]`; enters a function or application node; otherwise
      handles the childless node and goes back up to the next argument part, `done` when there is
      none. */
  method Advance(ghost h0: Heap, f: Ref, a: Ref, ghost b: Term, ghost x: Term, h: Heap, ghost m: Term,
                 first: bool, ghost copies: set<Ref>, ghost p: seq<Key>, ghost split: nat, ghost s: seq<Key>,
                 node: Ref, key: Key, nest: nat, stack: seq<Ref>)
    returns (done: bool, h': Heap, first': bool, node': Ref, key': Key, nest': nat, stack': seq<Ref>,
             ghost m': Term, ghost copies': set<Ref>, ghost p': seq<Key>, ghost split': nat, ghost s': seq<Key>)
    requires Ahead(h0, f, a, b, x, h, m, first, copies, p, split, s, node, key, nest, stack)
    ensures done ==>
      stack' == [] && Behind(h0, f, a, b, x, h', m', first', copies', p', split', s', nest', [], Measure(m, s, stack))
    ensures !done ==>
      Ahead(h0, f, a, b, x, h', m', first', copies', p', split', s', node', key', nest', stack') &&
      Measure(m', s', stack') < Measure(m, s, stack)
  {
    ReadStep(h0, f, a, b, x, h, m, first, copies, p, split, s, node, key, nest, stack);
    var child := Slot(h[node], key);
    if h[child].IsInterior() {
      // a function node is entered at its body, one binder deeper; an application at its
      // function part
      var k := if h[child].LamNode? then Body else Fn;
      EnterStep(h0, f, a, b, x, h, m, first, copies, p, split, s, node, key, nest, stack, k);
      done, h', first', node', key' := false, h, first, child, k;
      nest' := if k == Body then nest + 1 else nest;
      stack', m', copies', p', split', s' := stack + [child], m, copies, p, split, s + [k];
    } else {
      h', first', m', copies', p' := Fill(h0, f, a, b, x, h, m, first, copies, p, split, s, node, key, nest, stack, child);
      done, node', key', nest', stack', split', s' :=
        Backtrack(h0, f, a, b, x, h', m', first', copies', p', split, s, nest, stack, Measure(m, s, stack));
    }
  }

  /** The second loop of the walk: pops the stack up to the innermost application whose function
      part is finished, and moves to its argument part; `done` when the stack runs out. */
  method Backtrack(ghost h0: Heap, f: Ref, ghost a: Ref, ghost b: Term, ghost x: Term, h: Heap, ghost m: Term,
                   ghost first: bool, ghost copies: set<Ref>, ghost p: seq<Key>, ghost split: nat,
                   ghost s: seq<Key>, nest: nat, stack: seq<Ref>, ghost w: int)
    returns (done: bool, node: Ref, key: Key, nest': nat, stack': seq<Ref>, ghost split': nat, ghost s': seq<Key>)
    requires Behind(h0, f, a, b, x, h, m, first, copies, p, split, s, nest, stack, w)
    ensures done ==> stack' == [] && Behind(h0, f, a, b, x, h, m, first, copies, p, split', s', nest', [], w)
    ensures !done ==>
      Ahead(h0, f, a, b, x, h, m, first, copies, p, split', s', node, key, nest', stack') &&
      Measure(m, s', stack') < w
  {
    nest', stack', split', s' := nest, stack, split, s;
    while true
      invariant Behind(h0, f, a, b, x, h, m, first, copies, p, split', s', nest', stack', w)
      decreases |stack'|
    {
      if stack' == [] {
        return true, f, Body, nest', stack', split', s';
      }
      TopStep(h0, f, a, b, x, h, m, first, copies, p, split', s', nest', stack', w);
      var item := stack'[|stack'| - 1];
      if h[item].LamNode? {
        split' := LeaveStep(h0, f, a, b, x, h, m, first, copies, p, split', s', nest', stack', w);
        nest' := nest' - 1;
        stack' := stack'[..|stack'| - 1];
        s' := s'[..LastOpen(s')];
      } else {
        split' := SwitchStep(h0, f, a, b, x, h, m, first, copies, p, split', s', nest', stack', w);
        stack' := stack'[..|stack'| - 1];
        s' := s'[..LastOpen(s')] + [Arg];
        return false, item, Arg, nest', stack', split', s';
      }
    }
  }

  /** The variable case of the walk: a variable of the function's binder is overwritten with the
      argument node the first time and with a fresh copy of it afterwards; every other childless
      node is left as it is. */
  method Fill(ghost h0: Heap, f: Ref, a: Ref, ghost b: Term, ghost x: Term, h: Heap, ghost m: Term,
              first: bool, ghost copies: set<Ref>, ghost p: seq<Key>, ghost split: nat, ghost s: seq<Key>,
              node: Ref, key: Key, nest: nat, ghost stack: seq<Ref>, child: Ref)
    returns (h': Heap, first': bool, ghost m': Term, ghost copies': set<Ref>, ghost p': seq<Key>)
    requires Ahead(h0, f, a, b, x, h, m, first, copies, p, split, s, node, key, nest, stack)
    requires node < |h| && HasSlot(h[node], key) && child == Slot(h[node], key)
    requires child < |h| && !h[child].IsInterior()
    ensures Behind(h0, f, a, b, x, h', m', first', copies', p', split, s, nest, stack, Measure(m, s, stack))
  {
    h', first', m', copies', p' := h, first, m, copies, p;
    if h[child].VarNode? && h[child].index == nest {
      if first {
        MoveStep(h0, f, a, b, x, h, m, copies, p, split, s, node, key, nest, stack);
        h' := SetField(h, node, key, a);
        first' := false;
        p' := s;
      } else {
        ArgReady(h0, f, a, b, x, h, m, copies, p, split, s, node, key, nest, stack);
        var h1, c := Clone(h, a, x);
        CopyStep(h0, f, a, b, x, h, m, copies, p, split, s, node, key, nest, stack, h1, c);
        copies' := copies + Interior(h1, c, x);
        h' := SetField(h1, node, key, c);
      }
      m' := Replace(m, s, x);
    } else {
      PassStep(h0, f, a, b, x, h, m, first, copies, p, split, s, node, key, nest, stack);
    }
  }
}

// The graph operations shared by the numeral decoder and the executor at the current
// application: the beta step, splicing an application result in, and writing a finished value
// back into the parent.

module Reduction {
  import opened Terms
  import opened Graph
  import opened HeapPaths
  import opened Cloning
  import opened Substitution
  import opened Machine

  /** `substituteArg(func, arg); result = func.body` at the current application, whose function
      side is a function node: the result is a tree of the substituted body, made of nodes of the
      current subtree and nodes allocated by the step, and only the current subtree was written. */
  method Apply(h: Heap, ghost root: Ref, ghost t: Term, ghost p: seq<Key>, ghost stack: seq<Ref>, cur: Ref)
    returns (h': Heap, r: Ref, ghost R: Term)
    requires OnPath(h, root, t, p, stack, cur) && At(t, p).fn.Lam?
    ensures R == Subst(At(t, p).fn.body, 0, At(t, p).arg)
    ensures Tree(h', r, R) && |h| <= |h'| && Evolves(h, h', InteriorAt(h, root, t, p))
    ensures Interior(h', r, R) !! Interior(h, root, t) - InteriorAt(h, root, t, p)
    ensures forall q :: q in Interior(h', r, R) ==> q in InteriorAt(h, root, t, p) || |h| <= q < |h'|
    ensures h'[r].AppNode? <==> R.App?
    ensures R.Int? <==> h'[r].IntNode?
    ensures R.Int? ==> h'[r].value == R.value
  {
    Look(h, root, t, p, stack, cur);
    var f, a := h[cur].fn, h[cur].arg;
    R := Subst(At(t, p).fn.body, 0, At(t, p).arg);
    h' := SubstituteArg(h, f, a, At(t, p).fn.body, At(t, p).arg);
    Beta(h, h', root, t, p, stack, cur);
    r := h'[f].body;
  }

  /** The writes of a run stay inside the nodes it started from and the nodes it allocated. */
  lemma EvolvesWithin(h0: Heap, h: Heap, h': Heap, I: set<Ref>, S: set<Ref>)
    requires Evolves(h0, h, I) && Evolves(h, h', S)
    requires forall q :: q in S ==> q in I || |h0| <= q
    ensures Evolves(h0, h', I)
  {
  }

  /** An application result put where the reduction stands (`current = stack.top[keys.top] =
      result`, or `current = root = result` at the root): the reduction goes on at the same
      position, now at the result. */
  method SpliceIn(h: Heap, hm: Heap, root: Ref, ghost t: Term, ghost p: seq<Key>, stack: seq<Ref>, cur: Ref, key: Key,
                  r: Ref, ghost R: Term)
    returns (h': Heap, root': Ref, ghost t': Term)
    requires OnPath(h, root, t, p, stack, cur) && R.App? && (p != [] ==> key == p[|p| - 1])
    requires |h| <= |hm| && Evolves(h, hm, InteriorAt(h, root, t, p))
    requires Tree(hm, r, R) && Interior(hm, r, R) !! Interior(h, root, t) - InteriorAt(h, root, t, p)
    requires forall q :: q in Interior(hm, r, R) ==> q in InteriorAt(h, root, t, p) || |h| <= q < |hm|
    ensures t' == Replace(t, p, R) && OnPath(h', root', t', p, stack, r)
    ensures root' == if p == [] then r else root
    ensures |h| <= |h'| && Evolves(h, h', Interior(h, root, t))
    ensures forall q :: q in Interior(h', root', t') ==> q in Interior(h, root, t) || |h| <= q < |h'|
  {
    Look(h, root, t, p, stack, cur);
    if stack == [] {
      return hm, r, R;
    }
    Splice(h, hm, root, t, p, stack, cur, r, R);
    ParentInside(h, root, t, p);
    h' := SetField(hm, stack[|stack| - 1], key, r);
    return h', root, Replace(t, p, R);
  }

  /** A finished value written into the parent (`stack.pop()[keys.pop()] = result`): the
      reduction stands at the parent. */
  method WriteBack(h: Heap, hm: Heap, root: Ref, ghost t: Term, ghost p: seq<Key>, stack: seq<Ref>, cur: Ref, key: Key,
                   r: Ref, ghost R: Term)
    returns (h': Heap)
    requires OnPath(h, root, t, p, stack, cur) && p != [] && key == p[|p| - 1]
    requires |h| <= |hm| && Evolves(h, hm, InteriorAt(h, root, t, p))
    requires Tree(hm, r, R) && Interior(hm, r, R) !! Interior(h, root, t) - InteriorAt(h, root, t, p)
    requires forall q :: q in Interior(hm, r, R) ==> q in InteriorAt(h, root, t, p) || |h| <= q < |hm|
    ensures OnPath(h', root, Replace(t, p, R), Parent(p), stack[..|p| - 1], stack[|p| - 1])
    ensures |h| <= |h'| && Evolves(h, h', Interior(h, root, t))
    ensures forall q :: q in Interior(h', root, Replace(t, p, R)) ==> q in Interior(h, root, t) || |h| <= q < |h'|
    ensures Interior(h', root, Replace(t, p, R)) == Interior(h, root, t) - InteriorAt(h, root, t, p) + Interior(hm, r, R)
  {
    Look(h, root, t, p, stack, cur);
    Machine.Pop(h, hm, root, t, p, stack, cur, r, R);
    ParentInside(h, root, t, p);
    h' := SetField(hm, stack[|stack| - 1], key, r);
  }
}

// The reduction machine shared by the numeral decoder and the executor: a position in a tree,
// reached from the root through application fields only, with the stack of the nodes passed on
// the way; descending, splicing a new application in, and writing a finished value back.

module Machine {
  import opened Terms
  import opened Graph
  import opened HeapPaths
  import opened Cloning

  /** A path through application fields only: the reduction never enters a function body. */
  predicate AppPath(p: seq<Key>) {
    forall i :: 0 <= i < |p| ==> p[i] != Body
  }

  /** The reduction stands at an application of `t`. */
  predicate Focus(t: Term, p: seq<Key>) {
    ValidPath(t, p) && AppPath(p) && At(t, p).App?
  }

  function Parent(p: seq<Key>): seq<Key>
    requires p != []
  {
    p[..|p| - 1]
  }

  lemma FocusDescend(t: Term, p: seq<Key>, k: Key)
    requires Focus(t, p) && k != Body && ChildOf(At(t, p), k).App?
    ensures Focus(t, p + [k]) && At(t, p + [k]) == ChildOf(At(t, p), k)
  {
    ValidPathSnoc(t, p, k);
  }

  /** An application put where the reduction stands keeps it standing there. */
  lemma FocusSplice(t: Term, p: seq<Key>, r: Term)
    requires Focus(t, p) && r.App?
    ensures Focus(Replace(t, p, r), p) && At(Replace(t, p, r), p) == r
  {
    ReplaceAt(t, p, r);
  }

  /** A value written where the reduction stands: the reduction goes back to the parent
      application, which now holds the value in that field. */
  lemma FocusPop(t: Term, p: seq<Key>, r: Term)
    requires Focus(t, p) && p != []
    ensures Focus(Replace(t, p, r), Parent(p))
    ensures ValidPath(t, Parent(p)) && HasChild(At(t, Parent(p)), p[|p| - 1])
    ensures At(Replace(t, p, r), Parent(p)) == WithChild(At(t, Parent(p)), p[|p| - 1], r)
  {
    var q, k := Parent(p), p[|p| - 1];
    assert p == q + [k];
    ValidPathPrefix(t, p, |p| - 1);
    ValidPathSnoc(t, q, k);
    ReplaceSnoc(t, q, k, r);
    ReplaceAt(t, q, WithChild(At(t, q), k, r));
  }

  /** The stack holds the nodes along the path from the root, `cur` the node at its end. */
  ghost predicate OnPath(h: Heap, root: Ref, t: Term, p: seq<Key>, stack: seq<Ref>, cur: Ref) {
    Tree(h, root, t) && Focus(t, p) && |stack| == |p| &&
    (forall i :: 0 <= i < |p| ==> stack[i] == NodeAt(h, root, p[..i])) &&
    cur == NodeAt(h, root, p)
  }

  /** The two parts of the current application: disjoint trees inside the current subtree. */
  lemma Look(h: Heap, root: Ref, t: Term, p: seq<Key>, stack: seq<Ref>, cur: Ref)
    requires OnPath(h, root, t, p, stack, cur)
    ensures cur < |h| && h[cur].AppNode? && cur in InteriorAt(h, root, t, p)
    ensures var n, f, a := At(t, p), h[cur].fn, h[cur].arg;
      Tree(h, f, n.fn) && Tree(h, a, n.arg) &&
      Interior(h, f, n.fn) !! Interior(h, a, n.arg) &&
      Interior(h, f, n.fn) + Interior(h, a, n.arg) <= InteriorAt(h, root, t, p) &&
      InteriorAt(h, root, t, p) <= Interior(h, root, t) &&
      f < |h| && a < |h| &&
      (h[f].AppNode? <==> n.fn.App?) && (h[f].LamNode? <==> n.fn.Lam?) &&
      (h[a].AppNode? <==> n.arg.App?) && (n.fn.IsLeaf() ==> h[f] == LeafNode(n.fn)) &&
      (n.arg.IsLeaf() ==> h[a] == LeafNode(n.arg))
  {
    NodeAtReps(h, root, t, p);
  }

  lemma Descend(h: Heap, root: Ref, t: Term, p: seq<Key>, stack: seq<Ref>, cur: Ref, k: Key)
    requires OnPath(h, root, t, p, stack, cur) && k != Body && ChildOf(At(t, p), k).App?
    ensures cur < |h| && HasSlot(h[cur], k)
    ensures OnPath(h, root, t, p + [k], stack + [cur], Slot(h[cur], k))
  {
    NodeAtReps(h, root, t, p);
    NodeAtSnoc(h, root, t, p, k);
    FocusDescend(t, p, k);
    forall i | 0 <= i < |p| + 1
      ensures (stack + [cur])[i] == NodeAt(h, root, (p + [k])[..i])
    {
      if i < |p| {
        assert (p + [k])[..i] == p[..i];
      } else {
        assert (p + [k])[..i] == p;
      }
    }
  }

  /** `stack.top[keys.top] = r` after the current subtree was rewritten in place into `hm`: the
      tree holds the tree at `r` where the reduction stands, the nodes above are reached as
      before, and the written position now reaches `r`. */
  lemma Write(h: Heap, hm: Heap, root: Ref, t: Term, p: seq<Key>, stack: seq<Ref>, cur: Ref, r: Ref, R: Term)
    requires OnPath(h, root, t, p, stack, cur) && p != []
    requires Evolves(h, hm, InteriorAt(h, root, t, p))
    requires Tree(hm, r, R) && Interior(hm, r, R) !! Interior(h, root, t) - InteriorAt(h, root, t, p)
    ensures var top, k := stack[|p| - 1], p[|p| - 1];
      top < |hm| && HasSlot(hm[top], k) &&
      var h' := SetField(hm, top, k, r);
      Tree(h', root, Replace(t, p, R)) &&
      Interior(h', root, Replace(t, p, R)) == Interior(h, root, t) - InteriorAt(h, root, t, p) + Interior(hm, r, R) &&
      (forall i :: 0 <= i < |p| ==> stack[i] == NodeAt(h', root, p[..i])) &&
      NodeAt(h', root, p) == r
  {
    WriteAt(h, hm, root, t, p, r, R);
    var h' := SetField(hm, stack[|p| - 1], p[|p| - 1], r);
    forall i | 0 <= i < |p|
      ensures stack[i] == NodeAt(h', root, p[..i])
    {
      NodeAtWriteAbove(h, hm, root, t, p, r, p[..i]);
    }
    NodeAtWritten(h, hm, root, t, p, r);
  }

  /** An application result spliced in where the reduction stands (`stack.top[keys.top] =
      result`, no pop): the reduction goes on at the same position, now at the result. */
  lemma Splice(h: Heap, hm: Heap, root: Ref, t: Term, p: seq<Key>, stack: seq<Ref>, cur: Ref, r: Ref, R: Term)
    requires OnPath(h, root, t, p, stack, cur) && p != [] && R.App?
    requires Evolves(h, hm, InteriorAt(h, root, t, p))
    requires Tree(hm, r, R) && Interior(hm, r, R) !! Interior(h, root, t) - InteriorAt(h, root, t, p)
    ensures var top, k := stack[|p| - 1], p[|p| - 1];
      top < |hm| && HasSlot(hm[top], k) &&
      var h' := SetField(hm, top, k, r);
      OnPath(h', root, Replace(t, p, R), p, stack, r) &&
      Interior(h', root, Replace(t, p, R)) == Interior(h, root, t) - InteriorAt(h, root, t, p) + Interior(hm, r, R)
  {
    Write(h, hm, root, t, p, stack, cur, r, R);
    FocusSplice(t, p, R);
  }

  /** A value written back (`stack.pop()[keys.pop()] = result`): the reduction goes back to the
      parent application. */
  lemma Pop(h: Heap, hm: Heap, root: Ref, t: Term, p: seq<Key>, stack: seq<Ref>, cur: Ref, r: Ref, R: Term)
    requires OnPath(h, root, t, p, stack, cur) && p != []
    requires Evolves(h, hm, InteriorAt(h, root, t, p))
    requires Tree(hm, r, R) && Interior(hm, r, R) !! Interior(h, root, t) - InteriorAt(h, root, t, p)
    ensures var top, k := stack[|p| - 1], p[|p| - 1];
      top < |hm| && HasSlot(hm[top], k) &&
      var h' := SetField(hm, top, k, r);
      OnPath(h', root, Replace(t, p, R), Parent(p), stack[..|p| - 1], top) &&
      Interior(h', root, Replace(t, p, R)) == Interior(h, root, t) - InteriorAt(h, root, t, p) + Interior(hm, r, R)
  {
    Write(h, hm, root, t, p, stack, cur, r, R);
    FocusPop(t, p, R);
    var h' := SetField(hm, stack[|p| - 1], p[|p| - 1], r);
    assert Parent(p) == p[..|p| - 1];
    forall i | 0 <= i < |p| - 1
      ensures stack[..|p| - 1][i] == NodeAt(h', root, Parent(p)[..i])
    {
      assert Parent(p)[..i] == p[..i];
    }
  }

  /** The beta step at the current application: `substituteArg(func, arg)` rewrote the function
      and argument nodes into `hm`; the function's new body `r` is a tree of the substituted body,
      made of nodes of the current subtree and nodes allocated by the step. */
  lemma Beta(h: Heap, hm: Heap, root: Ref, t: Term, p: seq<Key>, stack: seq<Ref>, cur: Ref)
    requires OnPath(h, root, t, p, stack, cur) && At(t, p).fn.Lam?
    requires cur < |h| && h[cur].AppNode?
    requires var f, b, x := h[cur].fn, At(t, p).fn.body, At(t, p).arg;
      Tree(h, f, Lam(b)) && Tree(h, h[cur].arg, x) &&
      Tree(hm, f, Lam(Subst(b, 0, x))) &&
      Evolves(h, hm, Interior(h, f, Lam(b)) + Interior(h, h[cur].arg, x)) &&
      Spans(Interior(hm, f, Lam(Subst(b, 0, x))) - Interior(h, f, Lam(b)) - Interior(h, h[cur].arg, x), |h|, |hm|)
    ensures var f, R := h[cur].fn, Subst(At(t, p).fn.body, 0, At(t, p).arg);
      f < |hm| && hm[f].LamNode? &&
      Evolves(h, hm, InteriorAt(h, root, t, p)) &&
      Tree(hm, hm[f].body, R) &&
      Interior(hm, hm[f].body, R) !! Interior(h, root, t) - InteriorAt(h, root, t, p) &&
      (forall q :: q in Interior(hm, hm[f].body, R) ==> q in InteriorAt(h, root, t, p) || |h| <= q < |hm|)
  {
    Look(h, root, t, p, stack, cur);
    var f, b, x := h[cur].fn, At(t, p).fn.body, At(t, p).arg;
    var R := Subst(b, 0, x);
    var I, W := InteriorAt(h, root, t, p), Interior(h, f, Lam(b)) + Interior(h, h[cur].arg, x);
    assert W <= I;
    RefsFacts(h, root, t);
    var N := Interior(hm, hm[f].body, R);
    assert N <= Interior(hm, f, Lam(R));
    forall q | q in N
      ensures q in I || |h| <= q < |hm|
    {
      if q !in W {
        assert q in Interior(hm, f, Lam(R)) - Interior(h, f, Lam(b)) - Interior(h, h[cur].arg, x);
      }
    }
    forall q | q in N && q in Interior(h, root, t)
      ensures q in I
    {
    }
  }
}

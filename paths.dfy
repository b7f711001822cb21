// Paths through the node graph: the node reached by following a sequence of fields from a root,
// and what writing one field does to the tree around it.

module HeapPaths {
  import opened Terms
  import opened Graph

  /** The node reached from `r` by following the fields in `path`. */
  function NodeAt(h: Heap, r: Ref, path: seq<Key>): Ref
    decreases |path|
  {
    if path == [] || r >= |h| || !HasSlot(h[r], path[0]) then r
    else NodeAt(h, Slot(h[r], path[0]), path[1..])
  }

  /** Following a path of the term through its graph reaches a graph of the subterm there, inside
      the original tree. */
  lemma {:induction false} NodeAtReps(h: Heap, r: Ref, t: Term, path: seq<Key>)
    requires Reps(h, r, t) && ValidPath(t, path)
    ensures Reps(h, NodeAt(h, r, path), At(t, path))
    ensures Interior(h, NodeAt(h, r, path), At(t, path)) <= Interior(h, r, t)
    ensures Tree(h, r, t) ==> Tree(h, NodeAt(h, r, path), At(t, path))
    decreases path
  {
    if path != [] {
      NodeAtReps(h, Slot(h[r], path[0]), ChildOf(t, path[0]), path[1..]);
    }
  }

  /** The function and application nodes of the subtree at `path`. */
  function InteriorAt(h: Heap, r: Ref, t: Term, path: seq<Key>): set<Ref>
    requires Reps(h, r, t) && ValidPath(t, path)
  {
    NodeAtReps(h, r, t, path);
    Interior(h, NodeAt(h, r, path), At(t, path))
  }

  /** One more field. */
  lemma {:induction false} NodeAtSnoc(h: Heap, r: Ref, t: Term, path: seq<Key>, k: Key)
    requires Reps(h, r, t) && ValidPath(t, path) && HasChild(At(t, path), k)
    ensures NodeAt(h, r, path) < |h| && HasSlot(h[NodeAt(h, r, path)], k)
    ensures ValidPath(t, path + [k]) && NodeAt(h, r, path + [k]) == Slot(h[NodeAt(h, r, path)], k)
    decreases path
  {
    ValidPathSnoc(t, path, k);
    NodeAtReps(h, r, t, path);
    if path != [] {
      assert (path + [k])[1..] == path[1..] + [k];
      NodeAtSnoc(h, Slot(h[r], path[0]), ChildOf(t, path[0]), path[1..], k);
    }
  }

  /** The other field of an application. */
  function Other(k: Key): Key {
    if k == Fn then Arg else Fn
  }

  /** A node whose field `k` now holds a tree `t'`, its other field and its kind unchanged, is a
      tree again provided the new subtree does not meet the node or its other subtree. */
  lemma Reassemble(h: Heap, h': Heap, W: set<Ref>, r: Ref, t: Term, k: Key, c': Ref, t': Term)
    requires Tree(h, r, t) && HasChild(t, k)
    requires r < |h'| && h'[r] == SetSlot(h[r], k, c')
    requires Evolves(h, h', W)
    requires t.App? ==> Interior(h, Slot(h[r], Other(k)), ChildOf(t, Other(k))) !! W
    requires Tree(h', c', t') && r !in Interior(h', c', t')
    requires t.App? ==> Interior(h', c', t') !! Interior(h, Slot(h[r], Other(k)), ChildOf(t, Other(k)))
    ensures Tree(h', r, WithChild(t, k, t'))
    ensures Interior(h', r, WithChild(t, k, t')) ==
      Interior(h, r, t) - Interior(h, Slot(h[r], k), ChildOf(t, k)) + Interior(h', c', t')
  {
    if t.Lam? {
      TreeLam(h', r, t');
    } else {
      var o := Other(k);
      var s, ts := Slot(h[r], o), ChildOf(t, o);
      FrameEvolves(h, h', W, s, ts);
      if k == Fn {
        TreeApp(h', r, t', t.arg);
      } else {
        TreeApp(h', r, t.fn, t');
      }
    }
  }

  /** `node[key] = x` where `node` is the parent of the position `path` of the tree at `r`, after
      the subtree that was there has been rewritten in place into `hm` (its own nodes may have
      changed, nothing else has). The tree now holds `X` at `path`: the old subtree's nodes have
      left it and the new subtree's have joined it. */
  lemma {:induction false} WriteAt(h: Heap, hm: Heap, r: Ref, t: Term, path: seq<Key>, x: Ref, X: Term)
    requires Tree(h, r, t) && ValidPath(t, path) && path != []
    requires Evolves(h, hm, InteriorAt(h, r, t, path))
    requires Tree(hm, x, X)
    requires Interior(hm, x, X) !! Interior(h, r, t) - InteriorAt(h, r, t, path)
    ensures var p, k := NodeAt(h, r, path[..|path| - 1]), path[|path| - 1];
      p < |hm| && HasSlot(hm[p], k) &&
      var h' := SetField(hm, p, k, x);
      Tree(h', r, Replace(t, path, X)) &&
      Interior(h', r, Replace(t, path, X)) ==
        Interior(h, r, t) - InteriorAt(h, r, t, path) + Interior(hm, x, X)
    decreases path
  {
    var k0, rest := path[0], path[1..];
    var c, tc := Slot(h[r], k0), ChildOf(t, k0);
    assert NodeAt(h, r, path) == NodeAt(h, c, rest);
    assert InteriorAt(h, r, t, path) == InteriorAt(h, c, tc, rest);
    NodeAtReps(h, c, tc, rest);
    if rest == [] {
      assert path[..|path| - 1] == [];
      WriteAtRoot(h, hm, r, t, k0, x, X);
    } else {
      assert path[..|path| - 1] == [k0] + rest[..|rest| - 1];
      assert NodeAt(h, r, path[..|path| - 1]) == NodeAt(h, c, rest[..|rest| - 1]);
      WriteAt(h, hm, c, tc, rest, x, X);
      WriteAtStep(h, hm, r, t, path, x, X);
    }
  }

  lemma WriteAtStep(h: Heap, hm: Heap, r: Ref, t: Term, path: seq<Key>, x: Ref, X: Term)
    requires Tree(h, r, t) && ValidPath(t, path) && |path| > 1
    requires Evolves(h, hm, InteriorAt(h, r, t, path))
    requires Reps(hm, x, X) && Interior(hm, x, X) !! Interior(h, r, t) - InteriorAt(h, r, t, path)
    requires var c, tc, rest := Slot(h[r], path[0]), ChildOf(t, path[0]), path[1..];
      InteriorAt(h, r, t, path) == InteriorAt(h, c, tc, rest) && InteriorAt(h, c, tc, rest) <= Interior(h, c, tc) &&
      var p, k := NodeAt(h, c, rest[..|rest| - 1]), rest[|rest| - 1];
      p < |hm| && HasSlot(hm[p], k) &&
      var h' := SetField(hm, p, k, x);
      Tree(h', c, Replace(tc, rest, X)) &&
      Interior(h', c, Replace(tc, rest, X)) == Interior(h, c, tc) - InteriorAt(h, c, tc, rest) + Interior(hm, x, X)
    ensures var c, tc, rest := Slot(h[r], path[0]), ChildOf(t, path[0]), path[1..];
      var p, k := NodeAt(h, c, rest[..|rest| - 1]), rest[|rest| - 1];
      var h' := SetField(hm, p, k, x);
      Tree(h', r, Replace(t, path, X)) &&
      Interior(h', r, Replace(t, path, X)) == Interior(h, r, t) - InteriorAt(h, r, t, path) + Interior(hm, x, X)
  {
    var c, tc, rest := Slot(h[r], path[0]), ChildOf(t, path[0]), path[1..];
    var q, k := rest[..|rest| - 1], rest[|rest| - 1];
    ParentInside(h, c, tc, rest);
    var p := NodeAt(h, c, q);
    var h' := SetField(hm, p, k, x);
    assert Evolves(hm, h', {p});
    WriteAtRebuild(h, hm, h', r, t, path[0], InteriorAt(h, r, t, path), p, Interior(hm, x, X), Replace(tc, rest, X));
  }

  lemma WriteAtRoot(h: Heap, hm: Heap, r: Ref, t: Term, k: Key, x: Ref, X: Term)
    requires Tree(h, r, t) && HasChild(t, k)
    requires Evolves(h, hm, Interior(h, Slot(h[r], k), ChildOf(t, k)))
    requires Tree(hm, x, X)
    requires Interior(hm, x, X) !! Interior(h, r, t) - Interior(h, Slot(h[r], k), ChildOf(t, k))
    ensures r < |hm| && HasSlot(hm[r], k)
    ensures var h' := SetField(hm, r, k, x);
      Tree(h', r, WithChild(t, k, X)) &&
      Interior(h', r, WithChild(t, k, X)) ==
        Interior(h, r, t) - Interior(h, Slot(h[r], k), ChildOf(t, k)) + Interior(hm, x, X)
  {
    var Ic := Interior(h, Slot(h[r], k), ChildOf(t, k));
    assert hm[r] == h[r];
    var h' := SetField(hm, r, k, x);
    assert Evolves(hm, h', {r});
    EvolvesTrans(h, hm, h', Ic, {r});
    FrameEvolves(hm, h', {r}, x, X);
    Reassemble(h, h', Ic + {r}, r, t, k, x, X);
  }

  lemma WriteAtRebuild(h: Heap, hm: Heap, h': Heap, r: Ref, t: Term, k: Key, Isub: set<Ref>, p: Ref,
                    Ix: set<Ref>, t': Term)
    requires Tree(h, r, t) && HasChild(t, k)
    requires Isub <= Interior(h, Slot(h[r], k), ChildOf(t, k)) && p in Interior(h, Slot(h[r], k), ChildOf(t, k))
    requires Evolves(h, hm, Isub) && Evolves(hm, h', {p})
    requires Ix !! Interior(h, r, t) - Isub
    requires Tree(h', Slot(h[r], k), t')
    requires Interior(h', Slot(h[r], k), t') == Interior(h, Slot(h[r], k), ChildOf(t, k)) - Isub + Ix
    ensures Tree(h', r, WithChild(t, k, t'))
    ensures Interior(h', r, WithChild(t, k, t')) == Interior(h, r, t) - Isub + Ix
  {
    assert h'[r] == h[r];
    EvolvesTrans(h, hm, h', Isub, {p});
    Reassemble(h, h', Isub + {p}, r, t, k, Slot(h[r], k), t');
  }

  /** The parent of a non-empty position is a function or application node of the tree. */
  lemma ParentInside(h: Heap, r: Ref, t: Term, path: seq<Key>)
    requires Reps(h, r, t) && ValidPath(t, path) && path != []
    ensures var p := NodeAt(h, r, path[..|path| - 1]);
      p in Interior(h, r, t) && p < |h| && HasSlot(h[p], path[|path| - 1])
  {
    var q, k := path[..|path| - 1], path[|path| - 1];
    assert path == q + [k];
    ValidPathPrefix(t, path, |path| - 1);
    ValidPathSnoc(t, q, k);
    NodeAtReps(h, r, t, q);
    NodeAtSnoc(h, r, t, q, k);
  }

  /** Positions outside a tree's rewritten part are reached as before. */
  lemma {:induction false} NodeAtFrame(h: Heap, h': Heap, W: set<Ref>, r: Ref, t: Term, q: seq<Key>)
    requires Reps(h, r, t) && Evolves(h, h', W) && Interior(h, r, t) !! W && ValidPath(t, q)
    ensures NodeAt(h', r, q) == NodeAt(h, r, q)
    decreases q
  {
    if q != [] {
      assert r in Interior(h, r, t);
      NodeAtFrame(h, h', W, Slot(h[r], q[0]), ChildOf(t, q[0]), q[1..]);
    }
  }

  /** After the write of `WriteAt`, the positions above the written field are reached as before. */
  lemma {:induction false} NodeAtWriteAbove(h: Heap, hm: Heap, r: Ref, t: Term, path: seq<Key>, x: Ref, q: seq<Key>)
    requires Tree(h, r, t) && ValidPath(t, path) && path != []
    requires Evolves(h, hm, InteriorAt(h, r, t, path))
    requires |q| < |path| && q == path[..|q|]
    ensures var p, k := NodeAt(h, r, path[..|path| - 1]), path[|path| - 1];
      p < |hm| && HasSlot(hm[p], k) && NodeAt(SetField(hm, p, k, x), r, q) == NodeAt(h, r, q)
    decreases path
  {
    ParentInside(h, r, t, path);
    var c, tc, rest := Slot(h[r], path[0]), ChildOf(t, path[0]), path[1..];
    NodeAtReps(h, c, tc, rest);
    assert InteriorAt(h, r, t, path) == InteriorAt(h, c, tc, rest);
    if q != [] {
      assert path[..|path| - 1] == [path[0]] + rest[..|rest| - 1];
      assert NodeAt(h, r, path[..|path| - 1]) == NodeAt(h, c, rest[..|rest| - 1]);
      ParentInside(h, c, tc, rest);
      assert q[1..] == rest[..|q| - 1];
      NodeAtWriteAbove(h, hm, c, tc, rest, x, q[1..]);
    }
  }

  /** After the write of `WriteAt`, positions beside the written one are reached as before. */
  lemma {:induction false} NodeAtWriteAside(h: Heap, hm: Heap, r: Ref, t: Term, path: seq<Key>, x: Ref, q: seq<Key>)
    requires Tree(h, r, t) && ValidPath(t, path) && path != []
    requires Evolves(h, hm, InteriorAt(h, r, t, path))
    requires ValidPath(t, q) && !(path <= q) && !(q <= path)
    ensures var p, k := NodeAt(h, r, path[..|path| - 1]), path[|path| - 1];
      p < |hm| && HasSlot(hm[p], k) && NodeAt(SetField(hm, p, k, x), r, q) == NodeAt(h, r, q)
    decreases path
  {
    ParentInside(h, r, t, path);
    var c, tc, rest := Slot(h[r], path[0]), ChildOf(t, path[0]), path[1..];
    NodeAtReps(h, c, tc, rest);
    assert InteriorAt(h, r, t, path) == InteriorAt(h, c, tc, rest);
    if q[0] == path[0] {
      assert path == [path[0]] + rest && q == [q[0]] + q[1..];
      assert |path| > 1 && |q| > 1;
      assert path[..|path| - 1] == [path[0]] + rest[..|rest| - 1];
      assert NodeAt(h, r, path[..|path| - 1]) == NodeAt(h, c, rest[..|rest| - 1]);
      ParentInside(h, c, tc, rest);
      assert !(rest <= q[1..]) && !(q[1..] <= rest);
      NodeAtWriteAside(h, hm, c, tc, rest, x, q[1..]);
    } else {
      var p, k := NodeAt(h, r, path[..|path| - 1]), path[|path| - 1];
      if |path| > 1 {
        assert path[..|path| - 1] == [path[0]] + rest[..|rest| - 1];
        assert p == NodeAt(h, c, rest[..|rest| - 1]);
        ParentInside(h, c, tc, rest);
      }
      Beside(h, hm, r, t, path[0], InteriorAt(h, r, t, path), p, k, x, q);
    }
  }

  lemma Beside(h: Heap, hm: Heap, r: Ref, t: Term, k0: Key, Isub: set<Ref>, p: Ref, k: Key, x: Ref, q: seq<Key>)
    requires Tree(h, r, t) && HasChild(t, k0) && Isub <= Interior(h, Slot(h[r], k0), ChildOf(t, k0))
    requires p == r || p in Interior(h, Slot(h[r], k0), ChildOf(t, k0))
    requires p == r ==> k == k0
    requires Evolves(h, hm, Isub) && p < |hm| && HasSlot(hm[p], k)
    requires ValidPath(t, q) && q != [] && q[0] != k0
    ensures NodeAt(SetField(hm, p, k, x), r, q) == NodeAt(h, r, q)
  {
    var h' := SetField(hm, p, k, x);
    var s, ts := Slot(h[r], q[0]), ChildOf(t, q[0]);
    assert hm[r] == h[r];
    assert Slot(h'[r], q[0]) == s;
    assert Evolves(hm, h', {p});
    EvolvesTrans(h, hm, h', Isub, {p});
    NodeAtFrame(h, h', Isub + {p}, s, ts, q[1..]);
  }

  /** After the write of `WriteAt`, the written position holds the new subtree. */
  lemma {:induction false} NodeAtWritten(h: Heap, hm: Heap, r: Ref, t: Term, path: seq<Key>, x: Ref)
    requires Tree(h, r, t) && ValidPath(t, path) && path != []
    requires Evolves(h, hm, InteriorAt(h, r, t, path))
    ensures var p, k := NodeAt(h, r, path[..|path| - 1]), path[|path| - 1];
      p < |hm| && HasSlot(hm[p], k) && NodeAt(SetField(hm, p, k, x), r, path) == x
    decreases path
  {
    ParentInside(h, r, t, path);
    var c, tc, rest := Slot(h[r], path[0]), ChildOf(t, path[0]), path[1..];
    NodeAtReps(h, c, tc, rest);
    assert InteriorAt(h, r, t, path) == InteriorAt(h, c, tc, rest);
    if rest != [] {
      assert path[..|path| - 1] == [path[0]] + rest[..|rest| - 1];
      assert NodeAt(h, r, path[..|path| - 1]) == NodeAt(h, c, rest[..|rest| - 1]);
      ParentInside(h, c, tc, rest);
      NodeAtWritten(h, hm, c, tc, rest, x);
      NodeAtWriteAbove(h, hm, r, t, path, x, [path[0]]);
    }
  }
}

// The node graph of the engine. JavaScript objects live in an arena: a node is an index into a
// sequence of node records, so reference identity is equality of indices, writing a field is
// replacing one record, and allocating is appending one.

module Graph {
  import opened Terms

  type Ref = nat

  datatype Node =
    | LamNode(body: Ref)
    | UnitNode
    | VarNode(index: nat)
    | AppNode(fn: Ref, arg: Ref)
    | PutNode
    | PutNNode(number: Number)
    | GetNode
    | RandomNode
    | IncNode
    | IntNode(value: nat)
  {
    /** Nodes with fields that hold other nodes: the only nodes the engine ever writes to. */
    predicate IsInterior() { LamNode? || AppNode? }
  }

  type Heap = seq<Node>

  /** The record of a childless term. */
  function LeafNode(t: Term): (n: Node)
    requires t.IsLeaf()
    ensures !n.IsInterior()
  {
    match t
    case Unit => UnitNode
    case Var(i) => VarNode(i)
    case Put => PutNode
    case PutN(n) => PutNNode(n)
    case Get => GetNode
    case Random => RandomNode
    case Inc => IncNode
    case Int(v) => IntNode(v)
  }

  predicate HasSlot(n: Node, k: Key) {
    match k
    case Body => n.LamNode?
    case Fn => n.AppNode?
    case Arg => n.AppNode?
  }

  /** `node[key]` */
  function Slot(n: Node, k: Key): Ref
    requires HasSlot(n, k)
  {
    match k
    case Body => n.body
    case Fn => n.fn
    case Arg => n.arg
  }

  /** `node[key] = c` */
  function SetSlot(n: Node, k: Key, c: Ref): (m: Node)
    requires HasSlot(n, k)
    ensures HasSlot(m, k) && Slot(m, k) == c
    ensures SameKind(n, m)
    ensures forall k' :: k' != k && HasSlot(n, k') ==> HasSlot(m, k') && Slot(m, k') == Slot(n, k')
  {
    match k
    case Body => LamNode(c)
    case Fn => AppNode(c, n.arg)
    case Arg => AppNode(n.fn, c)
  }

  /** `node[key] = c` on the heap. */
  function SetField(h: Heap, p: Ref, k: Key, c: Ref): Heap
    requires p < |h| && HasSlot(h[p], k)
  {
    h[p := SetSlot(h[p], k, c)]
  }

  /** A write may change the fields of a function or application node, never its prototype, and
      never a childless node. */
  predicate SameKind(n: Node, m: Node) {
    (n.LamNode? <==> m.LamNode?) && (n.AppNode? <==> m.AppNode?) && (!n.IsInterior() ==> n == m)
  }

  predicate Within(n: Node, bound: nat) {
    (n.LamNode? ==> n.body < bound) && (n.AppNode? ==> n.fn < bound && n.arg < bound)
  }

  /** Every reference stored in the heap points into the heap. */
  predicate Closed(h: Heap) {
    forall q :: 0 <= q < |h| ==> Within(h[q], |h|)
  }

  lemma ClosedSnoc(h: Heap, n: Node)
    requires Closed(h) && Within(n, |h|)
    ensures Closed(h + [n])
  {
    forall q | 0 <= q < |h| + 1
      ensures Within((h + [n])[q], |h| + 1)
    {
      if q < |h| { assert (h + [n])[q] == h[q]; }
    }
  }

  lemma ClosedSet(h: Heap, p: Ref, k: Key, c: Ref)
    requires Closed(h) && p < |h| && HasSlot(h[p], k) && c < |h|
    ensures Closed(h[p := SetSlot(h[p], k, c)])
  {
  }

  /** `r` is the root of a graph whose shape is the term `t`. Childless nodes are compared by
      value; function and application nodes by their fields. */
  predicate Reps(h: Heap, r: Ref, t: Term)
    decreases t
  {
    r < |h| &&
    if t.Lam? then h[r].LamNode? && Reps(h, h[r].body, t.body)
    else if t.App? then h[r].AppNode? && Reps(h, h[r].fn, t.fn) && Reps(h, h[r].arg, t.arg)
    else h[r] == LeafNode(t)
  }

  /** The function and application nodes of the graph at `r`. */
  function Interior(h: Heap, r: Ref, t: Term): set<Ref>
    requires Reps(h, r, t)
    decreases t
  {
    if t.Lam? then {r} + Interior(h, h[r].body, t.body)
    else if t.App? then {r} + Interior(h, h[r].fn, t.fn) + Interior(h, h[r].arg, t.arg)
    else {}
  }

  /** The childless nodes of the graph at `r`, left to right. */
  function LeafRefs(h: Heap, r: Ref, t: Term): seq<Ref>
    requires Reps(h, r, t)
    decreases t
  {
    if t.Lam? then LeafRefs(h, h[r].body, t.body)
    else if t.App? then LeafRefs(h, h[r].fn, t.fn) + LeafRefs(h, h[r].arg, t.arg)
    else [r]
  }

  function Refs(h: Heap, r: Ref, t: Term): set<Ref>
    requires Reps(h, r, t)
  {
    Interior(h, r, t) + set q | q in LeafRefs(h, r, t)
  }

  /** No function or application node is reachable twice: what the engine writes in place is
      owned by one parent. Childless nodes may be shared. */
  predicate Tree(h: Heap, r: Ref, t: Term)
    decreases t
  {
    Reps(h, r, t) &&
    if t.Lam? then
      Tree(h, h[r].body, t.body) && r !in Interior(h, h[r].body, t.body)
    else if t.App? then
      Tree(h, h[r].fn, t.fn) && Tree(h, h[r].arg, t.arg) &&
      r !in Interior(h, h[r].fn, t.fn) && r !in Interior(h, h[r].arg, t.arg) &&
      Interior(h, h[r].fn, t.fn) !! Interior(h, h[r].arg, t.arg)
    else true
  }

  /** An application node over two disjoint trees that do not contain it is a tree. */
  lemma TreeApp(h: Heap, n: Ref, f: Term, x: Term)
    requires n < |h| && h[n].AppNode?
    requires Tree(h, h[n].fn, f) && Tree(h, h[n].arg, x)
    requires n !in Interior(h, h[n].fn, f) && n !in Interior(h, h[n].arg, x)
    requires Interior(h, h[n].fn, f) !! Interior(h, h[n].arg, x)
    ensures Tree(h, n, App(f, x))
    ensures Interior(h, n, App(f, x)) == {n} + Interior(h, h[n].fn, f) + Interior(h, h[n].arg, x)
    ensures LeafRefs(h, n, App(f, x)) == LeafRefs(h, h[n].fn, f) + LeafRefs(h, h[n].arg, x)
  {
  }

  /** A function node over a tree that does not contain it is a tree. */
  lemma TreeLam(h: Heap, n: Ref, b: Term)
    requires n < |h| && h[n].LamNode?
    requires Tree(h, h[n].body, b) && n !in Interior(h, h[n].body, b)
    ensures Tree(h, n, Lam(b))
    ensures Interior(h, n, Lam(b)) == {n} + Interior(h, h[n].body, b)
    ensures LeafRefs(h, n, Lam(b)) == LeafRefs(h, h[n].body, b)
  {
  }

  lemma {:induction false} RefsFacts(h: Heap, r: Ref, t: Term)
    requires Reps(h, r, t)
    ensures forall q :: q in Interior(h, r, t) ==> q < |h| && h[q].IsInterior()
    ensures forall q :: q in LeafRefs(h, r, t) ==> q < |h| && !h[q].IsInterior()
    ensures t.IsLeaf() <==> r !in Interior(h, r, t)
    decreases t
  {
    match t
    case Lam(b) => RefsFacts(h, h[r].body, b);
    case App(f, x) => RefsFacts(h, h[r].fn, f); RefsFacts(h, h[r].arg, x);
    case _ =>
  }

  /** A graph is determined by the records of its nodes. */
  lemma {:induction false} Frame(h: Heap, h': Heap, r: Ref, t: Term)
    requires Reps(h, r, t)
    requires forall q :: q in Refs(h, r, t) && q < |h| ==> q < |h'| && h'[q] == h[q]
    ensures Reps(h', r, t)
    ensures Interior(h', r, t) == Interior(h, r, t) && LeafRefs(h', r, t) == LeafRefs(h, r, t)
    ensures Tree(h', r, t) == Tree(h, r, t)
    decreases t
  {
    match t
    case Lam(b) =>
      assert r in Refs(h, r, t);
      Frame(h, h', h[r].body, b);
    case App(f, x) =>
      assert r in Refs(h, r, t);
      forall q | q in Refs(h, h[r].fn, f) ensures q in Refs(h, r, t) {
        if q in LeafRefs(h, h[r].fn, f) { assert q in LeafRefs(h, r, t); }
      }
      forall q | q in Refs(h, h[r].arg, x) ensures q in Refs(h, r, t) {
        if q in LeafRefs(h, h[r].arg, x) { assert q in LeafRefs(h, r, t); }
      }
      Frame(h, h', h[r].fn, f);
      Frame(h, h', h[r].arg, x);
    case _ =>
      assert r in LeafRefs(h, r, t);
  }

  /** What a run of writes and allocations may do: grow the heap, rewrite fields of the nodes in
      `S`, and nothing else. */
  predicate Evolves(h: Heap, h': Heap, S: set<Ref>) {
    |h| <= |h'| &&
    (forall q :: 0 <= q < |h| ==> SameKind(h[q], h'[q])) &&
    (forall q :: 0 <= q < |h| && q !in S ==> h'[q] == h[q])
  }

  lemma EvolvesTrans(h1: Heap, h2: Heap, h3: Heap, S1: set<Ref>, S2: set<Ref>)
    requires Evolves(h1, h2, S1) && Evolves(h2, h3, S2)
    ensures Evolves(h1, h3, S1 + S2)
  {
  }

  lemma EvolvesPrefix(h: Heap, h': Heap)
    requires h <= h'
    ensures Evolves(h, h', {})
  {
  }

  /** A graph none of whose function or application nodes was written keeps its shape. */
  lemma {:induction false} FrameEvolves(h: Heap, h': Heap, S: set<Ref>, r: Ref, t: Term)
    requires Reps(h, r, t) && Evolves(h, h', S) && Interior(h, r, t) !! S
    ensures Reps(h', r, t)
    ensures Interior(h', r, t) == Interior(h, r, t) && LeafRefs(h', r, t) == LeafRefs(h, r, t)
    ensures Tree(h', r, t) == Tree(h, r, t)
  {
    RefsFacts(h, r, t);
    forall q | q in Refs(h, r, t)
      ensures q < |h'| && h'[q] == h[q]
    {
      if q !in Interior(h, r, t) {
        assert q in LeafRefs(h, r, t);
        assert SameKind(h[q], h'[q]);
      }
    }
    Frame(h, h', r, t);
  }

  lemma FrameGrow(h: Heap, h': Heap, r: Ref, t: Term)
    requires Reps(h, r, t) && h <= h'
    ensures Reps(h', r, t)
    ensures Interior(h', r, t) == Interior(h, r, t) && LeafRefs(h', r, t) == LeafRefs(h, r, t)
    ensures Tree(h', r, t) == Tree(h, r, t)
  {
    FrameEvolves(h, h', {}, r, t);
  }

  /** A graph is the graph of at most one term. */
  lemma {:induction false} RepsUnique(h: Heap, r: Ref, t: Term, u: Term)
    requires Reps(h, r, t) && Reps(h, r, u)
    ensures t == u
    decreases t
  {
    match t
    case Lam(b) => RepsUnique(h, h[r].body, b, u.body);
    case App(f, x) => RepsUnique(h, h[r].fn, f, u.fn); RepsUnique(h, h[r].arg, x, u.arg);
    case _ =>
      match u
      case Lam(_) =>
      case App(_, _) =>
      case _ =>
  }
}

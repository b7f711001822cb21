// `toChurch` and `toNumber`: Church numerals built as graphs, and decoded by reducing the
// numeral applied to the `increment` builtin and the native integer 0.

module Numerals {
  import opened Wrappers
  import opened Terms
  import opened Graph
  import opened HeapPaths
  import opened Cloning
  import opened Machine
  import opened Reduction

  // ----- toChurch -----

  /** `toChurch(n)`: a graph of the numeral n made of nodes allocated for it. The chain of
      applications is built from its innermost application outwards. */
  method ToChurch(h0: Heap, n: nat) returns (h: Heap, c: Ref)
    ensures h0 <= h && Tree(h, c, Church(n))
    ensures forall q :: q in Interior(h, c, Church(n)) ==> |h0| <= q < |h|
  {
    h := h0 + [VarNode(0)];
    var b: Ref := |h0|;
    var i := 0;
    while i < n
      invariant i <= n && h0 <= h
      invariant Tree(h, b, ChurchBody(i))
      invariant forall q :: q in Interior(h, b, ChurchBody(i)) ==> |h0| <= q < |h|
    {
      var h1 := h + [VarNode(1), AppNode(|h|, b)];
      FrameGrow(h, h1, b, ChurchBody(i));
      TreeApp(h1, |h| + 1, Var(1), ChurchBody(i));
      h, b, i := h1, |h| + 1, i + 1;
    }
    var h1 := h + [LamNode(b), LamNode(|h|)];
    FrameGrow(h, h1, b, ChurchBody(n));
    TreeLam(h1, |h|, ChurchBody(n));
    TreeLam(h1, |h| + 1, Lam(ChurchBody(n)));
    h, c := h1, |h| + 1;
  }

  // ----- toNumber on terms -----

  /** What `toNumber` returns: a count or NaN; `Unfinished` when the reduction did not end within
      the steps it was given. */
  datatype Decoding = Decoded(number: Number) | Unfinished

  /** The graph `toNumber` reduces: the numeral applied to `increment` and to 0. */
  function Start(t: Term): Term {
    App(App(t, Inc), Int(0))
  }

  /** One turn of `toNumber`'s loop: where the reduction goes next, or the value it returns. */
  datatype NumNext = Continue(t: Term, p: seq<Key>) | Stop(number: Number)

  /** A finished value at the current position: written into the parent, which becomes current,
      or returned as a number (`+result`) at the root. */
  function Deliver(t: Term, p: seq<Key>, r: Term): (s: NumNext)
    requires Focus(t, p)
    ensures s.Continue? ==> Focus(s.t, s.p) && |s.p| == |p| - 1
    ensures s.Stop? <==> p == []
  {
    if p == [] then Stop(if r.Int? then Count(r.value) else NaN)
    else
      FocusPop(t, p, r);
      Continue(Replace(t, p, r), Parent(p))
  }

  /** One turn of `toNumber`'s loop at the application at `p`: into the function side if it is an
      application, else into the argument side if that is one; otherwise a beta step, whose
      application result replaces the current one, or `increment` of a native integer; any other
      head gives NaN. */
  function NumStep(t: Term, p: seq<Key>): (s: NumNext)
    requires Focus(t, p)
    ensures s.Continue? ==> Focus(s.t, s.p)
  {
    var n := At(t, p);
    if n.fn.App? then
      FocusDescend(t, p, Fn);
      Continue(t, p + [Fn])
    else if n.arg.App? then
      FocusDescend(t, p, Arg);
      Continue(t, p + [Arg])
    else if n.fn.Lam? then
      var r := Subst(n.fn.body, 0, n.arg);
      if r.App? then
        FocusSplice(t, p, r);
        Continue(Replace(t, p, r), p)
      else
        Deliver(t, p, r)
    else if n.fn.Inc? && n.arg.Int? then
      Deliver(t, p, Int(n.arg.value + 1))
    else
      Stop(NaN)
  }

  /** At most `fuel` turns of the loop from position `p`. */
  function NumRun(t: Term, p: seq<Key>, fuel: nat): Decoding
    requires Focus(t, p)
    decreases fuel
  {
    if fuel == 0 then Unfinished
    else
      match NumStep(t, p)
      case Stop(x) => Decoded(x)
      case Continue(t', p') => NumRun(t', p', fuel - 1)
  }

  /** `toNumber(t)`, given at most `fuel` turns of its loop. */
  function Decode(t: Term, fuel: nat): Decoding {
    NumRun(Start(t), [], fuel)
  }

  /** More turns do not change a finished decoding. */
  lemma {:induction false} NumRunMore(t: Term, p: seq<Key>, fuel: nat, more: nat)
    requires Focus(t, p) && fuel <= more && NumRun(t, p, fuel).Decoded?
    ensures NumRun(t, p, more) == NumRun(t, p, fuel)
    decreases fuel
  {
    if NumStep(t, p).Continue? {
      var s := NumStep(t, p);
      NumRunMore(s.t, s.p, fuel - 1, more - 1);
    }
  }

  /** The numeral's body once `increment` is substituted for its outer variable. */
  function IncBody(n: nat): Term {
    if n == 0 then Var(0) else App(Inc, IncBody(n - 1))
  }

  /** `increment` applied `k` times to the native integer `v`. */
  function IncChain(k: nat, v: nat): Term {
    if k == 0 then Int(v) else App(Inc, IncChain(k - 1, v))
  }

  lemma {:induction false} SubstChurchBody(n: nat)
    ensures Subst(ChurchBody(n), 1, Inc) == IncBody(n)
  {
    if n > 0 { SubstChurchBody(n - 1); }
  }

  lemma {:induction false} SubstIncBody(n: nat, v: nat)
    ensures Subst(IncBody(n), 0, Int(v)) == IncChain(n, v)
  {
    if n > 0 { SubstIncBody(n - 1, v); }
  }

  /** Where the loop goes once the value `r` is finished at `p`. */
  function After(t: Term, p: seq<Key>, r: Term, fuel: nat): Decoding
    requires Focus(t, p)
  {
    match Deliver(t, p, r)
    case Stop(x) => Decoded(x)
    case Continue(t', p') => NumRun(t', p', fuel)
  }

  /** A chain of `k` increments over `v` takes 2k - 1 turns and finishes as v + k. */
  lemma {:induction false} ChainRun(t: Term, p: seq<Key>, k: nat, v: nat, fuel: nat)
    requires Focus(t, p) && 1 <= k && At(t, p) == IncChain(k, v) && 2 * k - 1 <= fuel
    ensures NumRun(t, p, fuel) == After(t, p, Int(v + k), fuel - (2 * k - 1))
    decreases k
  {
    if k == 1 {
      ChainLast(t, p, v, fuel);
    } else {
      FocusDescend(t, p, Arg);
      var x := Int(v + k - 1);
      var t1 := Replace(t, p + [Arg], x);
      var f := fuel - 2 * k + 2;
      assert Parent(p + [Arg]) == p;
      ReplaceSnoc(t, p, Arg, x);
      ReplaceAt(t, p, App(Inc, x));
      ReplaceTwice(t, p, App(Inc, x), Int(v + k));
      calc {
        NumRun(t, p, fuel);
        NumRun(t, p + [Arg], fuel - 1);
        { ChainRun(t, p + [Arg], k - 1, v, fuel - 1); }
        After(t, p + [Arg], x, f);
        NumRun(t1, p, f);
        { ChainLast(t1, p, v + k - 1, f); }
        After(t1, p, Int(v + k), f - 1);
        After(t, p, Int(v + k), f - 1);
      }
    }
  }

  /** The innermost increment: one turn finishes it. */
  lemma ChainLast(t: Term, p: seq<Key>, v: nat, fuel: nat)
    requires Focus(t, p) && At(t, p) == App(Inc, Int(v)) && 1 <= fuel
    ensures NumRun(t, p, fuel) == After(t, p, Int(v + 1), fuel - 1)
  {
    assert NumStep(t, p) == Deliver(t, p, Int(v + 1));
  }

  /** `toNumber(toChurch(n)) == n`, within 2n + 3 turns. */
  lemma DecodeChurch(n: nat, fuel: nat)
    requires 2 * n + 3 <= fuel
    ensures Decode(Church(n), fuel) == Decoded(Count(n))
  {
    var t0 := Start(Church(n));
    FocusDescend(t0, [], Fn);
    SubstChurchBody(n);
    var t1 := App(Lam(IncBody(n)), Int(0));
    assert Replace(t0, [Fn], Lam(IncBody(n))) == t1;
    assert NumRun(t0, [], fuel) == NumRun(t1, [], fuel - 2);
    SubstIncBody(n, 0);
    if n > 0 {
      ChainRun(IncChain(n, 0), [], n, 0, fuel - 3);
    }
  }

  /** A term without children is not a numeral: `toNumber` gives NaN. */
  lemma DecodeLeaf(t: Term, fuel: nat)
    requires t.IsLeaf() && 2 <= fuel
    ensures Decode(t, fuel) == Decoded(NaN)
  {
    var t0 := Start(t);
    FocusDescend(t0, [], Fn);
    assert NumRun(t0, [], fuel) == NumRun(t0, [Fn], fuel - 1);
  }

  // ----- toNumber on the graph -----

  /** One turn of `toNumber`'s loop on the graph, against `NumStep`: the new stack and position
      are those of the next state, and only the tree being reduced was written. */
  method NumAdvance(h: Heap, root: Ref, stack: seq<Ref>, keys: seq<Key>, cur: Ref, ghost t: Term)
    returns (h': Heap, root': Ref, stack': seq<Ref>, keys': seq<Key>, cur': Ref, ghost t': Term, stop: Option<Number>)
    requires OnPath(h, root, t, keys, stack, cur)
    ensures |h| <= |h'| && Evolves(h, h', Interior(h, root, t))
    ensures stop.Some? <==> NumStep(t, keys).Stop?
    ensures stop.Some? ==> stop.value == NumStep(t, keys).number
    ensures stop.None? ==> t' == NumStep(t, keys).t && keys' == NumStep(t, keys).p
    ensures stop.None? ==> OnPath(h', root', t', keys', stack', cur')
    ensures stop.None? ==> forall q :: q in Interior(h', root', t') ==> q in Interior(h, root, t) || |h| <= q < |h'|
  {
    Look(h, root, t, keys, stack, cur);
    var f, a := h[cur].fn, h[cur].arg;
    if h[f].AppNode? {
      Descend(h, root, t, keys, stack, cur, Fn);
      return h, root, stack + [cur], keys + [Fn], f, t, None;
    }
    if h[a].AppNode? {
      Descend(h, root, t, keys, stack, cur, Arg);
      return h, root, stack + [cur], keys + [Arg], a, t, None;
    }
    h', root', stack', keys', cur', t', stop := NumReduce(h, root, stack, keys, cur, t);
  }

  /** The turns that reduce the current application, whose two sides are not applications. */
  method NumReduce(h: Heap, root: Ref, stack: seq<Ref>, keys: seq<Key>, cur: Ref, ghost t: Term)
    returns (h': Heap, root': Ref, stack': seq<Ref>, keys': seq<Key>, cur': Ref, ghost t': Term, stop: Option<Number>)
    requires OnPath(h, root, t, keys, stack, cur) && !At(t, keys).fn.App? && !At(t, keys).arg.App?
    ensures |h| <= |h'| && Evolves(h, h', Interior(h, root, t))
    ensures stop.Some? <==> NumStep(t, keys).Stop?
    ensures stop.Some? ==> stop.value == NumStep(t, keys).number
    ensures stop.None? ==> t' == NumStep(t, keys).t && keys' == NumStep(t, keys).p
    ensures stop.None? ==> OnPath(h', root', t', keys', stack', cur')
    ensures stop.None? ==> forall q :: q in Interior(h', root', t') ==> q in Interior(h, root, t) || |h| <= q < |h'|
  {
    Look(h, root, t, keys, stack, cur);
    var f, a := h[cur].fn, h[cur].arg;
    var hm: Heap, r: Ref;
    ghost var R: Term;
    if h[f].LamNode? {
      hm, r, R := Apply(h, root, t, keys, stack, cur);
      if hm[r].AppNode? {
        h', root', t' := SpliceIn(h, hm, root, t, keys, stack, cur, if stack == [] then Fn else keys[|keys| - 1], r, R);
        return h', root', stack, keys, r, t', None;
      }
    } else if h[f] == IncNode && h[a].IntNode? {
      hm := h + [IntNode(h[a].value + 1)];
      r := |h|;
      R := Int(h[a].value + 1);
    } else {
      return h, root, stack, keys, cur, t, Some(NaN);
    }
    if stack == [] {
      return hm, root, stack, keys, cur, t, Some(if hm[r].IntNode? then Count(hm[r].value) else NaN);
    }
    h' := WriteBack(h, hm, root, t, keys, stack, cur, keys[|keys| - 1], r, R);
    return h', root, stack[..|stack| - 1], keys[..|keys| - 1], stack[|stack| - 1], Replace(t, keys, R), None;
  }

  /** The graph `toNumber` starts from: the numeral's graph below two new applications. */
  method Prepare(h0: Heap, church: Ref, ghost t: Term) returns (h: Heap, root: Ref)
    requires Tree(h0, church, t)
    ensures h0 <= h && Tree(h, root, Start(t))
    ensures forall q :: q in Interior(h, root, Start(t)) ==> q in Interior(h0, church, t) || |h0| <= q < |h|
  {
    var inc: Ref := |h0|;
    h := h0 + [IncNode, AppNode(church, inc), IntNode(0), AppNode(inc + 1, inc + 2)];
    root := inc + 3;
    FrameGrow(h0, h, church, t);
    RefsFacts(h0, church, t);
    TreeApp(h, inc + 1, t, Inc);
    TreeApp(h, root, App(t, Inc), Int(0));
  }

  lemma NumRunStep(t: Term, p: seq<Key>, fuel: nat, t': Term, p': seq<Key>)
    requires Focus(t, p) && 0 < fuel && NumStep(t, p) == Continue(t', p')
    ensures Focus(t', p') && NumRun(t, p, fuel) == NumRun(t', p', fuel - 1)
  {
  }

  /** The loop invariant of `toNumber`: the stack is the path to the current application, `k`
      more turns give the decoding `goal`, and the writes so far stayed inside the numeral's nodes
      `I` and the nodes allocated since `h0`. */
  ghost predicate Decoder(h0: Heap, I: set<Ref>, goal: Decoding, h: Heap, root: Ref, t: Term, keys: seq<Key>,
                           stack: seq<Ref>, cur: Ref, k: nat)
  {
    OnPath(h, root, t, keys, stack, cur) && NumRun(t, keys, k) == goal && Evolves(h0, h, I) &&
    forall q :: q in Interior(h, root, t) ==> q in I || |h0| <= q < |h|
  }

  /** One turn of the loop, keeping its invariant. */
  method Turn(ghost h0: Heap, ghost I: set<Ref>, ghost goal: Decoding, h: Heap, root: Ref, ghost t: Term, keys: seq<Key>,
              stack: seq<Ref>, cur: Ref, k: nat)
    returns (h': Heap, root': Ref, ghost t': Term, keys': seq<Key>, stack': seq<Ref>, cur': Ref, k': nat,
             stop: Option<Number>)
    requires 0 < k && Decoder(h0, I, goal, h, root, t, keys, stack, cur, k)
    ensures k' < k
    ensures stop.Some? ==> goal == Decoded(stop.value) && Evolves(h0, h', I)
    ensures stop.None? ==> Decoder(h0, I, goal, h', root', t', keys', stack', cur', k')
  {
    k' := k - 1;
    h', root', stack', keys', cur', t', stop := NumAdvance(h, root, stack, keys, cur, t);
    EvolvesWithin(h0, h, h', I, Interior(h, root, t));
    if stop.None? {
      NumRunStep(t, keys, k, t', keys');
    }
  }

  /** `toNumber(church)`: builds the application of the numeral to `increment` and 0 and runs the
      reduction loop, here for at most `fuel` turns. It rewrites the numeral's own nodes. */
  method ToNumber(h0: Heap, church: Ref, ghost t: Term, fuel: nat) returns (h: Heap, d: Decoding)
    requires Tree(h0, church, t)
    ensures d == Decode(t, fuel)
    ensures Evolves(h0, h, Interior(h0, church, t))
  {
    var root;
    h, root := Prepare(h0, church, t);
    var stack: seq<Ref>, keys: seq<Key>, cur: Ref := [], [], root;
    ghost var T, I, goal := Start(t), Interior(h0, church, t), Decode(t, fuel);
    var k := fuel;
    while k > 0
      invariant Decoder(h0, I, goal, h, root, T, keys, stack, cur, k)
      decreases k
    {
      var stop;
      h, root, T, keys, stack, cur, k, stop := Turn(h0, I, goal, h, root, T, keys, stack, cur, k);
      if stop.Some? {
        return h, Decoded(stop.value);
      }
    }
    d := Unfinished;
  }
}

// The runtime: the compiled program as a graph, the application to reduce next and the path to
// it, and the operations `load`, `exec`, `run`, `dump`, `ended` and `unload` on them.

module Runtime {
  import opened Wrappers
  import opened Terms
  import opened Graph
  import opened HeapPaths
  import opened Machine
  import opened Reduction
  import opened Numerals
  import opened Utf8
  import opened Parser
  import opened Dump
  import opened Execution

  /** What `exec()` returned: nothing, an error message, or no answer at all (`toNumber` did not
      finish within the turns given, or `putChar` raised). */
  datatype Outcome = Stepped | Error(message: string) | Looping | Raised

  function OutcomeOf(s: Step): Outcome {
    match s
    case Moved(_, _) => Stepped
    case Halted(_) => Stepped
    case Fault(m, _, _) => Error(m)
    case Diverged => Looping
    case Thrown => Raised
  }

  /** `dump()` of a tree with `current` at the application at the path `mark`, or at a node
      outside the tree, prints the term with that application bracketed. */
  lemma ShowsEmit(h: Heap, root: Ref, t: Term, current: Option<Ref>, mark: Option<seq<Key>>)
    requires Tree(h, root, t)
    requires mark.Some? ==>
      ValidPath(t, mark.value) && At(t, mark.value).App? && current == Some(NodeAt(h, root, mark.value))
    requires mark.None? && current.Some? ==> current.value !in Interior(h, root, t)
    ensures Show(h, root, t, "", current) == Emit("", t, mark)
  {
    if mark.Some? {
      ShowMarked(h, root, t, "", mark.value);
    } else {
      ShowPlain(h, root, t, "", current);
    }
  }

  /** The graph of a parsed term, in new nodes. */
  method Build(h0: Heap, t: Term) returns (h: Heap, r: Ref)
    ensures h0 <= h && Tree(h, r, t)
    ensures forall q :: q in Interior(h, r, t) ==> |h0| <= q < |h|
    decreases t
  {
    match t
    case Lam(b) =>
      var h1, c := Build(h0, b);
      h, r := h1 + [LamNode(c)], |h1|;
      FrameGrow(h1, h, c, b);
      TreeLam(h, r, b);
    case App(f, x) =>
      var h1, cf := Build(h0, f);
      var h2, cx := Build(h1, x);
      FrameGrow(h1, h2, cf, f);
      h, r := h2 + [AppNode(cf, cx)], |h2|;
      FrameGrow(h2, h, cf, f);
      FrameGrow(h2, h, cx, x);
      TreeApp(h, r, f, x);
    case _ =>
      h, r := h0 + [LeafNode(t)], |h0|;
  }

  // ----- the executor's state, as values -----

  /** The codec registers and streams as values. */
  ghost function IoOf(codec: Codec): Io
    reads codec
  {
    Io(codec.putCode, codec.putState, codec.getCode, codec.getState, codec.input, codec.output)
  }

  /** The stack and keys trace the path `at` from the root to `cur`, an application of the tree
      at `root` that represents `t`; with no current application the stack is empty. Only the
      last `|stack|` keys pair with the stack. */
  ghost predicate Coherent(h: Heap, root: Option<Ref>, t: Term, at: Option<seq<Key>>, stack: seq<Ref>, keys: seq<Key>,
                           cur: Option<Ref>)
  {
    |stack| <= |keys| && (cur.Some? <==> at.Some?) &&
    (cur.Some? ==>
      root.Some? && OnPath(h, root.value, t, at.value, stack, cur.value) && keys[|keys| - |stack|..] == at.value) &&
    (cur.None? ==> stack == [] && (root.Some? ==> Tree(h, root.value, t)))
  }

  /** After an error: the tree at `root` represents `t`, and `cur` is the application at `mark`
      or, with no mark, a node that has left the tree. */
  ghost predicate Shown(h: Heap, root: Ref, cur: Option<Ref>, t: Term, mark: Option<seq<Key>>) {
    cur.Some? && Tree(h, root, t) &&
    (mark.Some? ==> ValidPath(t, mark.value) && At(t, mark.value).App? && cur == Some(NodeAt(h, root, mark.value))) &&
    (mark.None? ==> cur.value !in Interior(h, root, t))
  }

  /** The state a step `s` leaves. A step that did not return leaves nothing to describe. */
  ghost predicate Lands(s: Step, h: Heap, root: Ref, stack: seq<Ref>, keys: seq<Key>, cur: Option<Ref>) {
    (s.Moved? || s.Halted? ==> Coherent(h, Some(root), s.t, Where(s), stack, keys, cur)) &&
    (s.Fault? ==> Shown(h, root, cur, s.t, s.mark))
  }

  // ----- exec, on the graph -----

  /** `exec()` at the application `cur`, as `ExecStep` says. */
  method ExecAt(h: Heap, root: Ref, ghost t: Term, ghost p: seq<Key>, stack: seq<Ref>, keys: seq<Key>, cur: Ref,
                codec: Codec, fuel: nat, rand: nat)
    returns (h': Heap, root': Ref, stack': seq<Ref>, keys': seq<Key>, cur': Option<Ref>, r: Outcome)
    requires Coherent(h, Some(root), t, Some(p), stack, keys, Some(cur)) && codec.Valid()
    modifies codec
    ensures codec.Valid()
    ensures var (s, io) := ExecStep(t, p, fuel, old(IoOf(codec)), rand);
      r == OutcomeOf(s) && IoOf(codec) == io && Lands(s, h', root', stack', keys', cur')
  {
    Look(h, root, t, p, stack, cur);
    if h[h[cur].fn].AppNode? {
      stack', keys', cur' := Enter(h, root, t, p, stack, keys, cur, Fn);
      return h, root, stack', keys', cur', Stepped;
    }
    if h[h[cur].arg].AppNode? {
      stack', keys', cur' := Enter(h, root, t, p, stack, keys, cur, Arg);
      return h, root, stack', keys', cur', Stepped;
    }
    match h[h[cur].fn]
    case LamNode(_) =>
      h', root', stack', keys', cur', r := Beta(h, root, t, p, stack, keys, cur, IoOf(codec), fuel, rand);
    case PutNode =>
      h', root', stack', keys', cur', r := PutNumber(h, root, t, p, stack, keys, cur, IoOf(codec), fuel, rand);
    case PutNNode(x) =>
      h', root', stack', keys', cur', r := PutByte(h, root, t, p, stack, keys, cur, x, codec, fuel, rand);
    case GetNode =>
      h', root', stack', keys', cur', r := GetByte(h, root, t, p, stack, keys, cur, codec, fuel, rand);
    case RandomNode =>
      h', root', stack', keys', cur', r := Draw(h, root, t, p, stack, keys, cur, IoOf(codec), fuel, rand);
    case _ =>
      return h, root, stack, keys, Some(cur), Error(NotFunction);
  }

  /** `stack.push(current); keys.push(key); current = current[key]` */
  method Enter(h: Heap, root: Ref, ghost t: Term, ghost p: seq<Key>, stack: seq<Ref>, keys: seq<Key>, cur: Ref, k: Key)
    returns (stack': seq<Ref>, keys': seq<Key>, cur': Option<Ref>)
    requires Coherent(h, Some(root), t, Some(p), stack, keys, Some(cur))
    requires k != Body && ChildOf(At(t, p), k).App?
    ensures Coherent(h, Some(root), t, Some(p + [k]), stack', keys', cur')
  {
    Descend(h, root, t, p, stack, cur, k);
    assert (keys + [k])[|keys| + 1 - (|stack| + 1)..] == keys[|keys| - |stack|..] + [k];
    return stack + [cur], keys + [k], Some(Slot(h[cur], k));
  }

  /** Whether the argument of the current application is `null_`. */
  method NullArgument(h: Heap, root: Ref, ghost t: Term, ghost p: seq<Key>, ghost stack: seq<Ref>, cur: Ref)
    returns (b: bool)
    requires OnPath(h, root, t, p, stack, cur) && !At(t, p).arg.App?
    ensures b <==> At(t, p).arg.Unit?
  {
    Look(h, root, t, p, stack, cur);
    var a := h[cur].arg;
    assert At(t, p).arg.Lam? ==> h[a].LamNode?;
    b := h[a] == UnitNode;
  }

  /** `substituteArg(func, arg); result = func.body`: an application result takes the place of
      the current one and stays current; any other result is written back. */
  method Beta(h: Heap, root: Ref, ghost t: Term, ghost p: seq<Key>, stack: seq<Ref>, keys: seq<Key>, cur: Ref,
              ghost io: Io, ghost fuel: nat, ghost rand: nat)
    returns (h': Heap, root': Ref, stack': seq<Ref>, keys': seq<Key>, cur': Option<Ref>, r: Outcome)
    requires Coherent(h, Some(root), t, Some(p), stack, keys, Some(cur))
    requires At(t, p).fn.Lam? && !At(t, p).arg.App?
    ensures var (s, io') := ExecStep(t, p, fuel, io, rand);
      r == OutcomeOf(s) && io' == io && Lands(s, h', root', stack', keys', cur')
  {
    Look(h, root, t, p, stack, cur);
    var hm, res, R := Apply(h, root, t, p, stack, cur);
    if hm[res].AppNode? {
      var key := Fn;
      if stack != [] {
        key := keys[|keys| - 1];
        assert key == keys[|keys| - |stack|..][|stack| - 1];
      }
      ghost var t';
      h', root', t' := SpliceIn(h, hm, root, t, p, stack, cur, key, res, R);
      return h', root', stack, keys, Some(res), Stepped;
    }
    h', root', stack', keys', cur' := Settled(h, hm, root, t, p, stack, keys, cur, res, R);
    r := Stepped;
  }

  /** `put` applied to a numeral: `toNumber` decodes it and a `putN` of the count is the result.
      NaN is written in all the same and reported as an error, with `current` left on the
      application that has just left the tree. */
  method PutNumber(h: Heap, root: Ref, ghost t: Term, ghost p: seq<Key>, stack: seq<Ref>, keys: seq<Key>, cur: Ref,
                   ghost io: Io, fuel: nat, ghost rand: nat)
    returns (h': Heap, root': Ref, stack': seq<Ref>, keys': seq<Key>, cur': Option<Ref>, r: Outcome)
    requires Coherent(h, Some(root), t, Some(p), stack, keys, Some(cur))
    requires At(t, p).fn.Put? && !At(t, p).arg.App?
    ensures var (s, io') := ExecStep(t, p, fuel, io, rand);
      r == OutcomeOf(s) && io' == io && Lands(s, h', root', stack', keys', cur')
  {
    Look(h, root, t, p, stack, cur);
    var h2, d := ToNumber(h, h[cur].arg, At(t, p).arg, fuel);
    if d.Unfinished? {
      return h, root, stack, keys, Some(cur), Looping;
    }
    EvolvesPrefix(h2, h2 + [PutNNode(d.number)]);
    EvolvesTrans(h, h2, h2 + [PutNNode(d.number)], Interior(h, h[cur].arg, At(t, p).arg), {});
    h', root', stack', keys', cur', r := PutResult(h, h2 + [PutNNode(d.number)], root, t, p, stack, keys, cur, |h2|, d.number);
  }

  /** The `putN` that `put` made, at `res` in `hm`: written in; NaN is an error. */
  method PutResult(h: Heap, hm: Heap, root: Ref, ghost t: Term, ghost p: seq<Key>, stack: seq<Ref>, keys: seq<Key>,
                   cur: Ref, res: Ref, x: Number)
    returns (h': Heap, root': Ref, stack': seq<Ref>, keys': seq<Key>, cur': Option<Ref>, r: Outcome)
    requires Coherent(h, Some(root), t, Some(p), stack, keys, Some(cur))
    requires |h| <= |hm| && Evolves(h, hm, InteriorAt(h, root, t, p))
    requires res < |hm| && hm[res] == PutNNode(x)
    ensures r == (if x.NaN? then Error(NotNumeral) else Stepped)
    ensures x.NaN? ==> Shown(h', root', cur', Replace(t, p, PutN(NaN)), None)
    ensures !x.NaN? ==> var s := Settle(t, p, PutN(x)); Coherent(h', Some(root'), s.t, Where(s), stack', keys', cur')
  {
    assert Tree(hm, res, PutN(x)) && Interior(hm, res, PutN(x)) == {};
    if x.NaN? {
      h', root', stack', keys' := Fail(h, hm, root, t, p, stack, keys, cur, res);
      return h', root', stack', keys', Some(cur), Error(NotNumeral);
    }
    h', root', stack', keys', cur' := Settled(h, hm, root, t, p, stack, keys, cur, res, PutN(x));
    r := Stepped;
  }

  /** The NaN of `put` written where the reduction stands (`stack.pop()[keys.pop()] = result`,
      or `root = result`); `current` is not moved. */
  method Fail(h: Heap, hm: Heap, root: Ref, ghost t: Term, ghost p: seq<Key>, stack: seq<Ref>, keys: seq<Key>,
              cur: Ref, res: Ref)
    returns (h': Heap, root': Ref, stack': seq<Ref>, keys': seq<Key>)
    requires Coherent(h, Some(root), t, Some(p), stack, keys, Some(cur))
    requires |h| <= |hm| && Evolves(h, hm, InteriorAt(h, root, t, p))
    requires Tree(hm, res, PutN(NaN)) && Interior(hm, res, PutN(NaN)) == {}
    ensures Shown(h', root', Some(cur), Replace(t, p, PutN(NaN)), None)
  {
    Look(h, root, t, p, stack, cur);
    if stack != [] {
      h' := WriteBack(h, hm, root, t, p, stack, cur, keys[|keys| - 1], res, PutN(NaN));
      return h', root, stack[..|stack| - 1], keys[..|keys| - 1];
    }
    return hm, res, stack, keys;
  }

  /** `putN` applied to null: the byte goes to `put_`. */
  method PutByte(h: Heap, root: Ref, ghost t: Term, ghost p: seq<Key>, stack: seq<Ref>, keys: seq<Key>, cur: Ref,
                 x: Number, codec: Codec, ghost fuel: nat, ghost rand: nat)
    returns (h': Heap, root': Ref, stack': seq<Ref>, keys': seq<Key>, cur': Option<Ref>, r: Outcome)
    requires Coherent(h, Some(root), t, Some(p), stack, keys, Some(cur)) && codec.Valid()
    requires At(t, p).fn == PutN(x) && !At(t, p).arg.App?
    modifies codec
    ensures codec.Valid()
    ensures var (s, io) := ExecStep(t, p, fuel, old(IoOf(codec)), rand);
      r == OutcomeOf(s) && IoOf(codec) == io && Lands(s, h', root', stack', keys', cur')
  {
    h', root', stack', keys', cur' := h, root, stack, keys, Some(cur);
    var isNull := NullArgument(h, root, t, p, stack, cur);
    if !isNull {
      return h', root', stack', keys', cur', Error(NotNull);
    }
    if x.NaN? {
      if codec.putState == 0 {
        return h', root', stack', keys', cur', Raised;
      }
      return h', root', stack', keys', cur', Error(BadSequence);
    }
    var ok := codec.Put(x.n);
    if !ok {
      return h', root', stack', keys', cur', Error(BadSequence);
    }
    EvolvesPrefix(h, h + [UnitNode]);
    h', root', stack', keys', cur' := Settled(h, h + [UnitNode], root, t, p, stack, keys, cur, |h|, Unit);
    r := Stepped;
  }

  /** `get` applied to null: the byte from `get_` as a numeral, or an abort at the end of the
      input. */
  method GetByte(h: Heap, root: Ref, ghost t: Term, ghost p: seq<Key>, stack: seq<Ref>, keys: seq<Key>, cur: Ref,
                 codec: Codec, ghost fuel: nat, ghost rand: nat)
    returns (h': Heap, root': Ref, stack': seq<Ref>, keys': seq<Key>, cur': Option<Ref>, r: Outcome)
    requires Coherent(h, Some(root), t, Some(p), stack, keys, Some(cur)) && codec.Valid()
    requires At(t, p).fn.Get? && !At(t, p).arg.App?
    modifies codec
    ensures codec.Valid()
    ensures var (s, io) := ExecStep(t, p, fuel, old(IoOf(codec)), rand);
      r == OutcomeOf(s) && IoOf(codec) == io && Lands(s, h', root', stack', keys', cur')
  {
    h', root', stack', keys', cur' := h, root, stack, keys, Some(cur);
    var isNull := NullArgument(h, root, t, p, stack, cur);
    if !isNull {
      return h', root', stack', keys', cur', Error(NotNull);
    }
    var v := codec.Get();
    if v.None? {
      return h', root', stack', keys', cur', Error(Aborted);
    }
    var hm, c := ToChurch(h, v.value);
    EvolvesPrefix(h, hm);
    RefsFacts(h, root, t);
    h', root', stack', keys', cur' := Settled(h, hm, root, t, p, stack, keys, cur, c, Church(v.value));
    r := Stepped;
  }

  /** `random` applied to null: the host's byte as a numeral. */
  method Draw(h: Heap, root: Ref, ghost t: Term, ghost p: seq<Key>, stack: seq<Ref>, keys: seq<Key>, cur: Ref,
              ghost io: Io, ghost fuel: nat, rand: nat)
    returns (h': Heap, root': Ref, stack': seq<Ref>, keys': seq<Key>, cur': Option<Ref>, r: Outcome)
    requires Coherent(h, Some(root), t, Some(p), stack, keys, Some(cur))
    requires At(t, p).fn.Random? && !At(t, p).arg.App?
    ensures var (s, io') := ExecStep(t, p, fuel, io, rand);
      r == OutcomeOf(s) && io' == io && Lands(s, h', root', stack', keys', cur')
  {
    var isNull := NullArgument(h, root, t, p, stack, cur);
    if !isNull {
      return h, root, stack, keys, Some(cur), Error(NotNull);
    }
    var hm, c := ToChurch(h, rand);
    EvolvesPrefix(h, hm);
    RefsFacts(h, root, t);
    h', root', stack', keys', cur' := Settled(h, hm, root, t, p, stack, keys, cur, c, Church(rand));
    r := Stepped;
  }

  /** A finished value: written into the parent, which becomes current
      (`item = stack.pop(); item[keys.pop()] = result; current = item`), or made the root, which
      ends the program (`root = result; current = null`). */
  method Settled(h: Heap, hm: Heap, root: Ref, ghost t: Term, ghost p: seq<Key>, stack: seq<Ref>, keys: seq<Key>,
                 cur: Ref, res: Ref, ghost R: Term)
    returns (h': Heap, root': Ref, stack': seq<Ref>, keys': seq<Key>, cur': Option<Ref>)
    requires Coherent(h, Some(root), t, Some(p), stack, keys, Some(cur))
    requires |h| <= |hm| && Evolves(h, hm, InteriorAt(h, root, t, p))
    requires Tree(hm, res, R) && Interior(hm, res, R) !! Interior(h, root, t) - InteriorAt(h, root, t, p)
    requires forall q :: q in Interior(hm, res, R) ==> q in InteriorAt(h, root, t, p) || |h| <= q < |hm|
    ensures var s := Settle(t, p, R); Coherent(h', Some(root'), s.t, Where(s), stack', keys', cur')
  {
    if stack != [] {
      h' := WriteBack(h, hm, root, t, p, stack, cur, keys[|keys| - 1], res, R);
      assert keys[..|keys| - 1][|keys| - 1 - (|stack| - 1)..] == Parent(p);
      return h', root, stack[..|stack| - 1], keys[..|keys| - 1], Some(stack[|stack| - 1]);
    }
    return hm, res, stack, keys, None;
  }

  class Runtime {
    var heap: Heap
    /** The program graph; none before `load` and after `unload`. */
    var root: Option<Ref>
    /** The application to reduce next; none once the program has ended. */
    var current: Option<Ref>
    /** The applications passed on the way from the root to `current`. */
    var stack: seq<Ref>
    /** The field taken at each of them. `unload` empties `stack` but not `keys`. */
    var keys: seq<Key>
    const codec: Codec
    /** The term the graph at `root` represents, and the path to `current` in it. */
    ghost var program: Term
    ghost var path: seq<Key>

    ghost function Position(): Option<seq<Key>>
      reads this
    {
      if current.Some? then Some(path) else None
    }

    ghost predicate Valid()
      reads this, codec
    {
      codec.Valid() && Coherent(heap, root, program, Position(), stack, keys, current)
    }

    /** The state `exec` leaves after the step `s`, with the registers and streams `io`. */
    ghost predicate After(s: Step, io: Io)
      reads this, codec
    {
      IoOf(codec) == io && codec.Valid() && root.Some? &&
      (s.Moved? || s.Halted? || s.Fault? ==> program == s.t) &&
      (s.Moved? || s.Halted? ==> Valid() && Position() == Where(s)) &&
      (s.Fault? ==> Shown(heap, root.value, current, s.t, s.mark))
    }

    constructor (input: seq<nat>)
      ensures Valid() && root.None? && current.None? && stack == [] && keys == []
      ensures IoOf(codec) == Io(0, 0, 0, 0, input, [])
    {
      heap, root, current, stack, keys := [], None, None, [], [];
      codec := new Codec(input);
      program, path := Unit, [];
    }

    /** `load(code)`: a syntax error leaves everything as it was; otherwise the parsed program is
        the new graph, and it becomes current when it is an application. The stack, the keys and
        (for a program that is not an application) `current` are left as they were. */
    method Load(code: string) returns (error: Option<Failure>)
      requires Valid()
      modifies this
      ensures Parse(code).Failed? ==> error == Some(Parse(code).failure) && unchanged(this)
      ensures Parse(code).Parsed? ==>
        error.None? && root.Some? && program == Parse(code).term && Tree(heap, root.value, program) &&
        old(heap) <= heap && stack == old(stack) && keys == old(keys)
      ensures Parse(code).Parsed? ==>
        (program.App? ==> current == root && path == []) && (!program.App? ==> current == old(current))
      ensures Parse(code).Parsed? && (old(current).None? || (old(stack) == [] && program.App?)) ==> Valid()
    {
      var parsed := ParseCode(code);
      if parsed.Failed? {
        return Some(parsed.failure);
      }
      var h, r := Build(heap, parsed.term);
      heap, root, program := h, Some(r), parsed.term;
      if heap[r].AppNode? {
        current, path := root, [];
      }
      return None;
    }

    /** `ended()` */
    method Ended() returns (b: bool)
      ensures b <==> current.None?
    {
      return current.None?;
    }

    /** `unload()`: no program, no current application, an empty stack and idle codec
        registers; the keys stay. */
    method Unload()
      modifies this, codec
      ensures Valid() && root.None? && current.None? && stack == [] && keys == old(keys)
      ensures IoOf(codec) == old(IoOf(codec)).(putCode := 0, putState := 0, getCode := 0, getState := 0)
    {
      root, current := None, None;
      stack := [];
      codec.Reset();
    }

    /** `dump()` of a loaded program. */
    method DumpProgram() returns (text: string)
      requires Valid() && root.Some?
      ensures text == Emit("", program, Position())
    {
      text := DumpGraph(heap, root.value, program, current);
      ShowsEmit(heap, root.value, program, current, Position());
    }

    /** `exec()`: one step at the current application, as `ExecStep` says. */
    method Exec(fuel: nat, rand: nat) returns (r: Outcome)
      requires Valid() && current.Some?
      modifies this, codec
      ensures var (s, io) := ExecStep(old(program), old(path), fuel, old(IoOf(codec)), rand);
        r == OutcomeOf(s) && After(s, io)
    {
      ghost var s := ExecStep(program, path, fuel, IoOf(codec), rand).0;
      var h', root', stack', keys', cur';
      h', root', stack', keys', cur', r := ExecAt(heap, root.value, program, path, stack, keys, current.value, codec, fuel, rand);
      heap, root, stack, keys, current := h', Some(root'), stack', keys', cur';
      if s.Moved? || s.Halted? || s.Fault? {
        program := s.t;
      }
      if s.Moved? {
        path := s.p;
      }
    }

    /** What `run` comes to from here, by `RunFrom`, with `count` steps to go, at most `left`
        calls of `exec` and `n` calls made. */
    ghost function Outcome(count: int, left: nat, n: nat, fuel: nat, rand: nat -> nat): (RunStatus, Term, Option<seq<Key>>, Io)
      requires Valid()
      reads this, codec
    {
      RunFrom(program, Position(), IoOf(codec), count, left, fuel, rand, n)
    }

    /** The state `run` leaves with the result `RunFrom` gives: the registers and streams, and
        the program and position when it stopped, or an unloaded executor after an error. */
    ghost predicate Finished(outcome: (RunStatus, Term, Option<seq<Key>>, Io))
      reads this, codec
    {
      var (st, t, at, io) := outcome;
      IoOf(codec) == io &&
      (st.Stopped? || st.OutOfBudget? ==> Valid() && Position() == at && program == t) &&
      (st.Crashed? ==> Valid() && root.None? && current.None?)
    }

    /** An error: the program is dumped for the report and unloaded. */
    method Report(m: string, ghost mark: Option<seq<Key>>) returns (status: RunStatus)
      requires codec.Valid() && root.Some? && Shown(heap, root.value, current, program, mark)
      modifies this, codec
      ensures status == Crashed(m, Emit("", old(program), mark))
      ensures Valid() && root.None? && current.None?
      ensures IoOf(codec) == old(IoOf(codec)).(putCode := 0, putState := 0, getCode := 0, getState := 0)
    {
      var log := DumpGraph(heap, root.value, program, current);
      ShowsEmit(heap, root.value, program, current, mark);
      Unload();
      return Crashed(m, log);
    }

    /** One round of `run`: a call of `exec`, then the count. `done` is the status when `run`
        returns here; otherwise it goes on with the count and the budget one lower. */
    method Advance(count: int, left: nat, n: nat, fuel: nat, rand: nat -> nat) returns (done: Option<RunStatus>)
      requires Valid() && current.Some? && left > 0
      modifies this, codec
      ensures var outcome := old(Outcome(count, left, n, fuel, rand));
        done.Some? ==> done.value == outcome.0 && Finished(outcome)
      ensures done.None? ==>
        Valid() &&
        Outcome(count - 1, left - 1, n + 1, fuel, rand) == old(Outcome(count, left, n, fuel, rand))
    {
      ghost var s := ExecStep(program, path, fuel, IoOf(codec), rand(n)).0;
      var r := Exec(fuel, rand(n));
      match r
      case Error(m) =>
        var status := Report(m, s.mark);
        return Some(status);
      case Looping => return Some(Hung);
      case Raised => return Some(Threw);
      case Stepped =>
        if count - 1 == 0 {
          return Some(Stopped);
        }
        return None;
    }

    /** `run(step)`, for at most `budget` calls of `exec`, the `i`-th of them given the byte
        `rand(i)`: steps until the program ends or the count reaches 0; an error is reported with
        the dump of the program and unloads it. */
    method Run(step: int, budget: nat, fuel: nat, rand: nat -> nat) returns (status: RunStatus)
      requires Valid()
      modifies this, codec
      ensures var outcome := old(Outcome(step, budget, 0, fuel, rand));
        status == outcome.0 && Finished(outcome)
    {
      ghost var outcome := Outcome(step, budget, 0, fuel, rand);
      var count, left, n := step, budget, 0;
      while current.Some?
        invariant Valid()
        invariant Outcome(count, left, n, fuel, rand) == outcome
        decreases left
      {
        if left == 0 {
          return OutOfBudget;
        }
        var done := Advance(count, left, n, fuel, rand);
        if done.Some? {
          return done.value;
        }
        count, left, n := count - 1, left - 1, n + 1;
      }
      return Stopped;
    }
  }
}

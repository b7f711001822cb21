// `dump`: the program graph printed back as Nuts source. The walk goes down function bodies and
// function sides of applications, keeps the applications on a stack and prints their argument
// sides when it comes back; the current application is printed between `[` and `]`.

module Dump {
  import opened Wrappers
  import opened Terms
  import opened Graph
  import opened HeapPaths

  /** The decimal digits of a count, as `String(n)` prints it: digits that spell `n`, without a
      leading zero. */
  function Decimal(n: nat): (s: string)
    ensures |s| >= 1
    ensures forall k :: 0 <= k < |s| ==> '0' <= s[k] <= '9'
    ensures DigitsValue(s) == n
    ensures |s| > 1 ==> s[0] != '0'
  {
    var d := ('0' as int + n % 10) as char;
    if n < 10 then [d] else Decimal(n / 10) + [d]
  }

  /** The number a string of decimal digits stands for, read from left to right. */
  function DigitsValue(s: string): nat
    requires forall k :: 0 <= k < |s| ==> '0' <= s[k] <= '9'
  {
    if s == [] then 0 else 10 * DigitsValue(s[..|s| - 1]) + (s[|s| - 1] as int - '0' as int)
  }

  /** `text`, followed by a space when it ends with `c`, so that two runs of `c` stay apart. */
  function Spaced(text: string, c: char): string {
    if |text| > 0 && text[|text| - 1] == c then text + " " else text
  }

  /** `n` copies of the character `c`. */
  function Repeat(c: char, n: nat): (s: string)
    ensures |s| == n && forall k :: 0 <= k < n ==> s[k] == c
  {
    seq(n, _ => c)
  }

  /** A childless node appended to `text`. Anything that is not a source token prints its
      `number` field between braces: a `putN` its count or `NaN`; `increment` and the decoder's
      native integers have none, and print `{undefined}`. */
  function LeafText(text: string, n: Node): string {
    match n
    case UnitNode => text + "\""
    case VarNode(i) => Spaced(text, '.') + Repeat('.', i + 1)
    case PutNode => Spaced(text, ':') + ":"
    case GetNode => Spaced(text, ':') + "::"
    case RandomNode => Spaced(text, ':') + ":::"
    case PutNNode(Count(k)) => text + "{" + Decimal(k) + "}"
    case PutNNode(NaN) => text + "{NaN}"
    case _ => text + "{undefined}"
  }

  /** The graph at `r` appended to `text`, the node `current` (when it is an application of the
      graph) printed as `[,` function argument `]`. */
  function Show(h: Heap, r: Ref, t: Term, text: string, current: Option<Ref>): string
    requires Reps(h, r, t)
    decreases t
  {
    match t
    case Lam(b) => Show(h, h[r].body, b, text + "'", current)
    case App(f, x) =>
      var marked := current == Some(r);
      var s := Show(h, h[r].arg, x, Show(h, h[r].fn, f, text + (if marked then "[," else ","), current), current);
      if marked then s + "]" else s
    case _ => LeafText(text, h[r])
  }

  // ----- the printed form of a term -----

  /** The part of a marked path below the field `k`, if the path goes that way. */
  function Below(mark: Option<seq<Key>>, k: Key): Option<seq<Key>> {
    if mark.Some? && mark.value != [] && mark.value[0] == k then Some(mark.value[1..]) else None
  }

  /** The printed form of `t` appended to `text`; the application at the path `mark`, if any, is
      printed between `[` and `]`. */
  function Emit(text: string, t: Term, mark: Option<seq<Key>>): (s: string)
    ensures text <= s && |s| > |text|
    decreases t
  {
    match t
    case Lam(b) => Emit(text + "'", b, Below(mark, Body))
    case App(f, x) =>
      var marked := mark == Some([]);
      var s := Emit(Emit(text + (if marked then "[," else ","), f, Below(mark, Fn)), x, Below(mark, Arg));
      if marked then s + "]" else s
    case _ => LeafText(text, LeafNode(t))
  }

  /** `dump()` of a program without a current application. */
  function Source(t: Term): string {
    Emit("", t, None)
  }

  /** A graph whose applications are not the current node prints as its term, without brackets. */
  lemma {:induction false} ShowPlain(h: Heap, r: Ref, t: Term, text: string, current: Option<Ref>)
    requires Reps(h, r, t)
    requires current.Some? ==> current.value !in Interior(h, r, t)
    ensures Show(h, r, t, text, current) == Emit(text, t, None)
    decreases t
  {
    match t
    case Lam(b) =>
      ShowPlain(h, h[r].body, b, text + "'", current);
    case App(f, x) =>
      var s1 := Show(h, h[r].fn, f, text + ",", current);
      ShowPlain(h, h[r].fn, f, text + ",", current);
      ShowPlain(h, h[r].arg, x, s1, current);
    case _ =>
  }

  /** With the current node at the application reached by `path`, a tree prints as its term with
      that application bracketed: the node test of the walk is a path test, because every
      application of a tree is reached once. */
  lemma {:induction false} ShowMarked(h: Heap, r: Ref, t: Term, text: string, path: seq<Key>)
    requires Tree(h, r, t) && ValidPath(t, path) && At(t, path).App?
    ensures Show(h, r, t, text, Some(NodeAt(h, r, path))) == Emit(text, t, Some(path))
    decreases t
  {
    var c := NodeAt(h, r, path);
    if path == [] {
      var s1 := Show(h, h[r].fn, t.fn, text + "[,", Some(c));
      ShowPlain(h, h[r].fn, t.fn, text + "[,", Some(c));
      ShowPlain(h, h[r].arg, t.arg, s1, Some(c));
    } else {
      var k := path[0];
      var child := Slot(h[r], k);
      MarkBelow(h, r, t, path);
      match t
      case Lam(b) =>
        ShowMarked(h, child, b, text + "'", path[1..]);
      case App(f, x) =>
        if k == Fn {
          ShowMarked(h, child, f, text + ",", path[1..]);
          ShowPlain(h, h[r].arg, x, Show(h, h[r].fn, f, text + ",", Some(c)), Some(c));
        } else {
          ShowPlain(h, h[r].fn, f, text + ",", Some(c));
          ShowMarked(h, child, x, Emit(text + ",", f, None), path[1..]);
        }
    }
  }

  /** An application below the root of a tree lies in the subtree of the first field of its path,
      and neither is the root nor lies in the other subtree. */
  lemma MarkBelow(h: Heap, r: Ref, t: Term, path: seq<Key>)
    requires Tree(h, r, t) && ValidPath(t, path) && At(t, path).App? && path != []
    ensures var c, k := NodeAt(h, r, path), path[0];
      HasSlot(h[r], k) && c == NodeAt(h, Slot(h[r], k), path[1..]) &&
      c in Interior(h, Slot(h[r], k), ChildOf(t, k)) && c != r &&
      (t.App? ==> c !in Interior(h, Slot(h[r], Other(k)), ChildOf(t, Other(k))))
  {
    var k := path[0];
    var child := Slot(h[r], k);
    var c := NodeAt(h, child, path[1..]);
    NodeAtReps(h, child, ChildOf(t, k), path[1..]);
    RefsFacts(h, c, At(t, path));
  }

  // ----- the walk -----

  /** What is left after the current node: for each application on the stack its argument side,
      then `]` if it is the current node; a `null` entry is a `]` still to print. `args` holds the
      term of each argument side. */
  ghost predicate StackOK(h: Heap, stack: seq<Option<Ref>>, args: seq<Term>) {
    |args| == |stack| &&
    forall i :: 0 <= i < |stack| && stack[i].Some? ==>
      stack[i].value < |h| && h[stack[i].value].AppNode? && Reps(h, h[stack[i].value].arg, args[i])
  }

  function Finish(h: Heap, text: string, stack: seq<Option<Ref>>, args: seq<Term>, current: Option<Ref>): string
    requires StackOK(h, stack, args)
    decreases |stack|
  {
    if stack == [] then text
    else
      var n := |stack| - 1;
      match stack[n]
      case None => Finish(h, text + "]", stack[..n], args[..n], current)
      case Some(a) =>
        var s := Show(h, h[a].arg, args[n], text, current);
        Finish(h, if current == Some(a) then s + "]" else s, stack[..n], args[..n], current)
  }

  /** The size of the argument sides still to print. */
  function Weight(stack: seq<Option<Ref>>, args: seq<Term>): nat
    requires |args| == |stack|
  {
    if stack == [] then 0
    else
      var n := |stack| - 1;
      Weight(stack[..n], args[..n]) + (if stack[n].Some? then Size(args[n]) else 0)
  }

  lemma WeightSnoc(stack: seq<Option<Ref>>, args: seq<Term>, e: Option<Ref>, a: Term)
    requires |args| == |stack|
    ensures Weight(stack + [e], args + [a]) == Weight(stack, args) + (if e.Some? then Size(a) else 0)
  {
    assert (stack + [e])[..|stack|] == stack;
    assert (args + [a])[..|args|] == args;
  }

  /** The inner loop: pops the stack, printing `]` for each `null`, up to an application whose
      argument side is next; a current one leaves a `null` behind it. */
  method Unwind(h: Heap, text0: string, stack0: seq<Option<Ref>>, ghost args0: seq<Term>, current: Option<Ref>)
    returns (finished: bool, text: string, stack: seq<Option<Ref>>, ghost args: seq<Term>, node: Ref, ghost t: Term)
    requires StackOK(h, stack0, args0)
    ensures finished ==> text == Finish(h, text0, stack0, args0, current)
    ensures !finished ==> StackOK(h, stack, args) && Reps(h, node, t)
    ensures !finished ==> Finish(h, Show(h, node, t, text, current), stack, args, current) == Finish(h, text0, stack0, args0, current)
    ensures !finished ==> Size(t) + Weight(stack, args) <= Weight(stack0, args0)
  {
    text, stack, args := text0, stack0, args0;
    while stack != []
      invariant StackOK(h, stack, args)
      invariant Finish(h, text, stack, args, current) == Finish(h, text0, stack0, args0, current)
      invariant Weight(stack, args) <= Weight(stack0, args0)
      decreases |stack|
    {
      var n := |stack| - 1;
      var item := stack[n];
      ghost var a := args[n];
      stack, args := stack[..n], args[..n];
      if item.Some? {
        if current == item {
          WeightSnoc(stack, args, None, Unit);
          stack, args := stack + [None], args + [Unit];
        }
        return false, text, stack, args, h[item.value].arg, a;
      } else {
        text := text + "]";
      }
    }
    return true, text, stack, args, 0, Unit;
  }

  /** `dump()`: the program graph at `root` printed as source. */
  method DumpGraph(h: Heap, root: Ref, ghost t: Term, current: Option<Ref>) returns (text: string)
    requires Reps(h, root, t)
    ensures text == Show(h, root, t, "", current)
  {
    var stack: seq<Option<Ref>> := [];
    ghost var args: seq<Term> := [];
    var node := root;
    ghost var u := t;
    text := "";
    while true
      invariant StackOK(h, stack, args) && Reps(h, node, u)
      invariant Finish(h, Show(h, node, u, text, current), stack, args, current) == Show(h, root, t, "", current)
      decreases Size(u) + Weight(stack, args)
    {
      var n := h[node];
      if n.LamNode? {
        text := text + "'";
        node, u := n.body, u.body;
      } else if n.AppNode? {
        text := text + if Some(node) == current then "[," else ",";
        WeightSnoc(stack, args, Some(node), u.arg);
        stack, args := stack + [Some(node)], args + [u.arg];
        node, u := n.fn, u.fn;
      } else {
        text := LeafText(text, n);
        var finished;
        finished, text, stack, args, node, u := Unwind(h, text, stack, args, current);
        if finished {
          return;
        }
      }
    }
  }
}

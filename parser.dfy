// `parse`: a single pass over the source text with an explicit stack of frames waiting for
// children. Each finished node is folded into the pending frames; once none is left, the rest of
// the text may hold only blanks, line breaks and comments.

module Parser {
  import opened Wrappers
  import opened Terms

  /** A node waiting for children: a function waiting for its body, or an application waiting
      for its function side (`fn == None`) or for its argument side. */
  datatype Frame = LamFrame | AppFrame(fn: Option<Term>)

  /** An error of `parse`: the message and the line and column where the offending token starts. */
  datatype Failure = Failure(message: string, line: nat, column: nat)

  datatype Parsed = Parsed(term: Term) | Failed(failure: Failure)

  /** The number of function frames, the `nest` of the parser. */
  function LamCount(frames: seq<Frame>): nat {
    if frames == [] then 0
    else LamCount(frames[..|frames| - 1]) + (if frames[|frames| - 1].LamFrame? then 1 else 0)
  }

  /** The end of the run of `c` starting at `i`. */
  function RunEnd(code: string, i: nat, c: char): (j: nat)
    requires i <= |code|
    ensures i <= j <= |code|
    ensures forall k :: i <= k < j ==> code[k] == c
    ensures j < |code| ==> code[j] != c
    decreases |code| - i
  {
    if i < |code| && code[i] == c then RunEnd(code, i + 1, c) else i
  }

  /** Where a comment whose text starts at `j` ends: just after its line break (CR LF, CR or LF),
      or at the end of the code. */
  function LineEnd(code: string, j: nat): (k: nat)
    requires j <= |code|
    ensures j <= k <= |code|
    decreases |code| - j
  {
    if j == |code| then j
    else if code[j] == '\r' then NewlineEnd(code, j)
    else if code[j] == '\n' then j + 1
    else LineEnd(code, j + 1)
  }

  /** Just after the line break at `i`: a CR followed by LF counts as one line break. */
  function NewlineEnd(code: string, i: nat): (k: nat)
    requires i < |code|
    ensures i < k <= |code|
  {
    if code[i] == '\r' && i + 1 < |code| && code[i + 1] == '\n' then i + 2 else i + 1
  }

  /** The node folded into the frames, innermost first: a function frame takes it as its body and
      is itself finished; an application frame without its function side takes it there and
      waits; an application frame with it takes it as its argument and is finished. Returns the
      remaining frames and, when no frame is left, the finished tree. */
  function Fold(frames: seq<Frame>, node: Term): (r: (seq<Frame>, Option<Term>))
    decreases |frames|
  {
    if frames == [] then ([], Some(node))
    else
      var rest, top := frames[..|frames| - 1], frames[|frames| - 1];
      match top
      case LamFrame => Fold(rest, Lam(node))
      case AppFrame(None) => (rest + [AppFrame(Some(node))], None)
      case AppFrame(Some(f)) => Fold(rest, App(f, node))
  }

  /** The scan after the tree is finished: blanks, line breaks and comments only. */
  function Trail(code: string, i: nat, line: nat, column: nat): Option<Failure>
    requires i <= |code|
    decreases |code| - i
  {
    if i == |code| then None
    else
      var c := code[i];
      if c == '\'' || c == '"' || c == '.' || c == ',' || c == ':' then
        Some(Failure("unexpected token", line, column))
      else if c == ';' then Trail(code, LineEnd(code, i + 1), line + 1, 1)
      else if c == ' ' || c == '\t' then Trail(code, i + 1, line, column + 1)
      else if c == '\r' || c == '\n' then Trail(code, NewlineEnd(code, i), line + 1, 1)
      else Some(Failure("unexpected character", line, column))
  }

  /** The parse from index `i` with the pending `frames`. */
  function ParseFrom(code: string, i: nat, line: nat, column: nat, frames: seq<Frame>): Parsed
    requires i <= |code|
    decreases |code| - i, 0
  {
    if i == |code| then Failed(Failure("unexpected end of code", line, column))
    else
      var c := code[i];
      if c == '\'' then ParseFrom(code, i + 1, line, column + 1, frames + [LamFrame])
      else if c == ',' then ParseFrom(code, i + 1, line, column + 1, frames + [AppFrame(None)])
      else if c == '"' then Complete(code, i + 1, line, column + 1, frames, Unit)
      else if c == '.' then
        var count := RunEnd(code, i, '.') - i;
        if count > LamCount(frames) then
          Failed(Failure("no corresponding function to the argument", line, column))
        else
          Complete(code, i + count, line, column + count, frames, Var(count - 1))
      else if c == ':' then
        var count := RunEnd(code, i, ':') - i;
        if count > 3 then Failed(Failure("no corresponding builtin function", line, column))
        else
          Complete(code, i + count, line, column + count, frames,
                   if count == 1 then Put else if count == 2 then Get else Random)
      else if c == ';' then ParseFrom(code, LineEnd(code, i + 1), line + 1, 1, frames)
      else if c == ' ' || c == '\t' then ParseFrom(code, i + 1, line, column + 1, frames)
      else if c == '\r' || c == '\n' then ParseFrom(code, NewlineEnd(code, i), line + 1, 1, frames)
      else Failed(Failure("unexpected character", line, column))
  }

  /** A finished node at index `i`: folded into the frames; a finished tree is the result if the
      rest of the code is blank. */
  function Complete(code: string, i: nat, line: nat, column: nat, frames: seq<Frame>, node: Term): Parsed
    requires i <= |code|
    decreases |code| - i, 1
  {
    var (frames', done) := Fold(frames, node);
    if done.Some? then
      match Trail(code, i, line, column)
      case None => Parsed(done.value)
      case Some(e) => Failed(e)
    else ParseFrom(code, i, line, column, frames')
  }

  /** `parse(code)`. */
  function Parse(code: string): Parsed {
    ParseFrom(code, 0, 1, 1, [])
  }

  // ----- what a parse produces -----

  /** Each application frame holding its function side holds a parsed tree, closed under the
      function frames below it. */
  predicate FramesOK(frames: seq<Frame>) {
    frames == [] ||
    var n := |frames| - 1;
    FramesOK(frames[..n]) &&
    (frames[n].AppFrame? && frames[n].fn.Some? ==>
      Surface(frames[n].fn.value) && ClosedUnder(frames[n].fn.value, LamCount(frames[..n])))
  }

  lemma PushFrame(frames: seq<Frame>, f: Frame)
    requires FramesOK(frames)
    requires f.AppFrame? && f.fn.Some? ==> Surface(f.fn.value) && ClosedUnder(f.fn.value, LamCount(frames))
    ensures FramesOK(frames + [f])
    ensures LamCount(frames + [f]) == LamCount(frames) + (if f.LamFrame? then 1 else 0)
  {
    assert (frames + [f])[..|frames|] == frames;
  }

  /** Folding a parsed node closed under the open functions keeps the frames well formed, and a
      finished tree is closed. */
  lemma {:induction false} FoldClosed(frames: seq<Frame>, node: Term)
    requires FramesOK(frames) && Surface(node) && ClosedUnder(node, LamCount(frames))
    ensures FramesOK(Fold(frames, node).0)
    ensures Fold(frames, node).1.Some? ==>
      Surface(Fold(frames, node).1.value) && ClosedUnder(Fold(frames, node).1.value, 0)
    decreases |frames|
  {
    if frames != [] {
      var n := |frames| - 1;
      var rest := frames[..n];
      match frames[n]
      case LamFrame => FoldClosed(rest, Lam(node));
      case AppFrame(None) => PushFrame(rest, AppFrame(Some(node)));
      case AppFrame(Some(f)) => FoldClosed(rest, App(f, node));
    }
  }

  /** The program parse produces is closed and made of source tokens only. */
  lemma {:induction false} ParseFromClosed(code: string, i: nat, line: nat, column: nat, frames: seq<Frame>)
    requires i <= |code| && FramesOK(frames)
    ensures ParseFrom(code, i, line, column, frames).Parsed? ==>
      ClosedUnder(ParseFrom(code, i, line, column, frames).term, 0) &&
      Surface(ParseFrom(code, i, line, column, frames).term)
    decreases |code| - i, 0
  {
    if i < |code| {
      var c := code[i];
      if c == '\'' {
        PushFrame(frames, LamFrame);
        ParseFromClosed(code, i + 1, line, column + 1, frames + [LamFrame]);
      } else if c == ',' {
        PushFrame(frames, AppFrame(None));
        ParseFromClosed(code, i + 1, line, column + 1, frames + [AppFrame(None)]);
      } else if c == '"' {
        CompleteClosed(code, i + 1, line, column + 1, frames, Unit);
      } else if c == '.' {
        var count := RunEnd(code, i, '.') - i;
        if count <= LamCount(frames) {
          CompleteClosed(code, i + count, line, column + count, frames, Var(count - 1));
        }
      } else if c == ':' {
        var count := RunEnd(code, i, ':') - i;
        if count <= 3 {
          CompleteClosed(code, i + count, line, column + count, frames,
                         if count == 1 then Put else if count == 2 then Get else Random);
        }
      } else if c == ';' {
        ParseFromClosed(code, LineEnd(code, i + 1), line + 1, 1, frames);
      } else if c == ' ' || c == '\t' {
        ParseFromClosed(code, i + 1, line, column + 1, frames);
      } else if c == '\r' || c == '\n' {
        ParseFromClosed(code, NewlineEnd(code, i), line + 1, 1, frames);
      }
    }
  }

  lemma {:induction false} CompleteClosed(code: string, i: nat, line: nat, column: nat, frames: seq<Frame>, node: Term)
    requires i <= |code| && FramesOK(frames) && Surface(node) && ClosedUnder(node, LamCount(frames))
    ensures Complete(code, i, line, column, frames, node).Parsed? ==>
      ClosedUnder(Complete(code, i, line, column, frames, node).term, 0) &&
      Surface(Complete(code, i, line, column, frames, node).term)
    decreases |code| - i, 1
  {
    FoldClosed(frames, node);
    var (frames', done) := Fold(frames, node);
    if done.None? {
      ParseFromClosed(code, i, line, column, frames');
    }
  }

  /** Every program `parse` accepts is closed: each variable refers to an enclosing function. */
  lemma ParseClosed(code: string)
    ensures Parse(code).Parsed? ==> ClosedUnder(Parse(code).term, 0) && Surface(Parse(code).term)
  {
    ParseFromClosed(code, 0, 1, 1, []);
  }

  // ----- the single pass -----

  /** The inner loop over a run of dots or colons. */
  method SkipRun(code: string, i: nat, c: char) returns (j: nat)
    requires i < |code| && code[i] == c
    ensures j == RunEnd(code, i, c)
  {
    j := i + 1;
    while j < |code| && code[j] == c
      invariant i < j <= |code| && RunEnd(code, j, c) == RunEnd(code, i, c)
      decreases |code| - j
    {
      j := j + 1;
    }
  }

  /** The inner loop over the text of a comment, through its line break. */
  method SkipComment(code: string, j0: nat) returns (k: nat)
    requires j0 <= |code|
    ensures k == LineEnd(code, j0)
  {
    var j := j0;
    while j < |code| && code[j] != '\r' && code[j] != '\n'
      invariant j0 <= j <= |code| && LineEnd(code, j) == LineEnd(code, j0)
      decreases |code| - j
    {
      j := j + 1;
    }
    if j == |code| {
      return j;
    }
    if code[j] == '\r' && j + 1 < |code| && code[j + 1] == '\n' {
      j := j + 1;
    }
    return j + 1;
  }

  /** The fold loop: pops finished frames until an application frame takes the node as its
      function side or no frame is left. */
  method FoldIn(stack0: seq<Frame>, nest0: nat, node0: Term) returns (stack: seq<Frame>, nest: nat, done: Option<Term>)
    requires nest0 == LamCount(stack0)
    ensures (stack, done) == Fold(stack0, node0) && nest == LamCount(stack)
  {
    stack, nest := stack0, nest0;
    var node := node0;
    while stack != []
      invariant nest == LamCount(stack) && Fold(stack, node) == Fold(stack0, node0)
      decreases |stack|
    {
      var item := stack[|stack| - 1];
      stack := stack[..|stack| - 1];
      if item.LamFrame? {
        node := Lam(node);
        nest := nest - 1;
      } else if item.fn.None? {
        stack := stack + [AppFrame(Some(node))];
        return stack, nest, None;
      } else {
        node := App(item.fn.value, node);
      }
    }
    return [], nest, Some(node);
  }

  /** The scan of the rest of the code once the tree is finished. */
  method ScanTrail(code: string, i0: nat, line0: nat, column0: nat) returns (e: Option<Failure>)
    requires i0 <= |code|
    ensures e == Trail(code, i0, line0, column0)
  {
    var i, line, column := i0, line0, column0;
    while i < |code|
      invariant i <= |code| && Trail(code, i, line, column) == Trail(code, i0, line0, column0)
      decreases |code| - i
    {
      var c := code[i];
      if c == '\'' || c == '"' || c == '.' || c == ',' || c == ':' {
        return Some(Failure("unexpected token", line, column));
      } else if c == ';' {
        i := SkipComment(code, i + 1);
        line, column := line + 1, 1;
      } else if c == ' ' || c == '\t' {
        i, column := i + 1, column + 1;
      } else if c == '\r' || c == '\n' {
        if c == '\r' && i + 1 < |code| && code[i + 1] == '\n' {
          i := i + 1;
        }
        i, line, column := i + 1, line + 1, 1;
      } else {
        return Some(Failure("unexpected character", line, column));
      }
    }
    return None;
  }

  /** A token that is a whole node: `"`, a run of dots or a run of colons. It either fails, or
      ends at `j` with the node, which the fold then takes. */
  method Leaf(code: string, i: nat, line: nat, column: nat, stack: seq<Frame>, nest: nat)
    returns (j: nat, node: Term, err: Option<Failure>)
    requires i < |code| && code[i] in {'"', '.', ':'} && nest == LamCount(stack)
    ensures err.Some? ==> ParseFrom(code, i, line, column, stack) == Failed(err.value)
    ensures err.None? ==> i < j <= |code|
    ensures err.None? ==>
      ParseFrom(code, i, line, column, stack) == Complete(code, j, line, column + (j - i), stack, node)
  {
    var c := code[i];
    if c == '"' {
      return i + 1, Unit, None;
    }
    j := SkipRun(code, i, c);
    var count := j - i;
    if c == '.' {
      if count > nest {
        return j, Unit, Some(Failure("no corresponding function to the argument", line, column));
      }
      node := Var(count - 1);
    } else if count == 1 {
      node := Put;
    } else if count == 2 {
      node := Get;
    } else if count == 3 {
      node := Random;
    } else {
      return j, Unit, Some(Failure("no corresponding builtin function", line, column));
    }
    err := None;
  }

  /** `parse(code)`, with the resulting tree as a value. */
  method ParseCode(code: string) returns (r: Parsed)
    ensures r == Parse(code)
  {
    var stack: seq<Frame> := [];
    var line: nat, column: nat := 1, 1;
    var i: nat, nest: nat := 0, 0;
    while i < |code|
      invariant i <= |code| && nest == LamCount(stack)
      invariant ParseFrom(code, i, line, column, stack) == Parse(code)
      decreases |code| - i
    {
      var c := code[i];
      if c == '\'' {
        nest := nest + 1;
        stack := stack + [LamFrame];
        i, column := i + 1, column + 1;
      } else if c == ',' {
        stack := stack + [AppFrame(None)];
        i, column := i + 1, column + 1;
      } else if c == '"' || c == '.' || c == ':' {
        var j, node, err := Leaf(code, i, line, column, stack, nest);
        if err.Some? {
          return Failed(err.value);
        }
        i, column := j, column + (j - i);
        var done;
        stack, nest, done := FoldIn(stack, nest, node);
        if done.Some? {
          var e := ScanTrail(code, i, line, column);
          if e.Some? {
            return Failed(e.value);
          }
          return Parsed(done.value);
        }
      } else if c == ';' {
        i := SkipComment(code, i + 1);
        line, column := line + 1, 1;
      } else if c == ' ' || c == '\t' {
        i, column := i + 1, column + 1;
      } else if c == '\r' || c == '\n' {
        if c == '\r' && i + 1 < |code| && code[i + 1] == '\n' {
          i := i + 1;
        }
        i, line, column := i + 1, line + 1, 1;
      } else {
        return Failed(Failure("unexpected character", line, column));
      }
    }
    return Failed(Failure("unexpected end of code", line, column));
  }
}

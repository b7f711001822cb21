// `parse` and `dump` are inverse on the programs `parse` produces: a closed program of source
// tokens, printed without a current application, parses back to itself, and only such programs
// do.

module RoundTrip {
  import opened Wrappers
  import opened Terms
  import opened Parser
  import opened Dump

  /** What follows a printed part does not continue its last run of dots or colons. */
  predicate Apart(s: string, code: string) {
    |s| < |code| && |s| > 0 && s[|s| - 1] in {'.', ':'} ==> code[|s|] != s[|s| - 1]
  }

  /** A run of `n` copies of `c` at `i`, followed by something else, ends at `i + n`. */
  lemma {:induction false} RunEndAt(code: string, i: nat, n: nat, c: char)
    requires i + n <= |code| && n >= 1
    requires forall k :: i <= k < i + n ==> code[k] == c
    requires i + n < |code| ==> code[i + n] != c
    ensures RunEnd(code, i, c) == i + n
    decreases n
  {
    if n > 1 {
      RunEndAt(code, i + 1, n - 1, c);
    }
  }

  /** A printed term never starts by continuing the run that ends the text before it. */
  lemma EmitStart(text: string, t: Term)
    requires Surface(t)
    ensures var s := Emit(text, t, None);
      |text| > 0 && text[|text| - 1] in {'.', ':'} ==> s[|text|] != text[|text| - 1]
  {
    match t
    case Lam(b) => assert (text + "'")[|text|] == '\'';
    case App(f, x) =>
      var s1 := Emit(text + ",", f, None);
      assert s1[|text|] == (text + ",")[|text|] == ',';
    case _ =>
  }

  /** A function frame on top takes the node as its body. */
  lemma CompleteLam(code: string, i: nat, line: nat, column: nat, frames: seq<Frame>, b: Term)
    requires i <= |code|
    ensures Complete(code, i, line, column, frames + [LamFrame], b) == Complete(code, i, line, column, frames, Lam(b))
    ensures LamCount(frames + [LamFrame]) == LamCount(frames) + 1
  {
    assert (frames + [LamFrame])[..|frames|] == frames;
  }

  /** An application frame on top takes the node as its function side, then as its argument. */
  lemma CompleteApp(code: string, i: nat, j: nat, line: nat, column: nat, frames: seq<Frame>, f: Term, x: Term)
    requires i <= |code| && j <= |code|
    ensures Complete(code, i, line, column, frames + [AppFrame(None)], f) ==
      ParseFrom(code, i, line, column, frames + [AppFrame(Some(f))])
    ensures Complete(code, j, line, column, frames + [AppFrame(Some(f))], x) == Complete(code, j, line, column, frames, App(f, x))
    ensures LamCount(frames + [AppFrame(None)]) == LamCount(frames)
    ensures LamCount(frames + [AppFrame(Some(f))]) == LamCount(frames)
  {
    assert (frames + [AppFrame(None)])[..|frames|] == frames;
    assert (frames + [AppFrame(Some(f))])[..|frames|] == frames;
  }

  // One step of the parse at a known character.

  lemma StepLam(code: string, i: nat, line: nat, column: nat, frames: seq<Frame>)
    requires i < |code| && code[i] == '\''
    ensures ParseFrom(code, i, line, column, frames) == ParseFrom(code, i + 1, line, column + 1, frames + [LamFrame])
  {
  }

  lemma StepApp(code: string, i: nat, line: nat, column: nat, frames: seq<Frame>)
    requires i < |code| && code[i] == ','
    ensures ParseFrom(code, i, line, column, frames) == ParseFrom(code, i + 1, line, column + 1, frames + [AppFrame(None)])
  {
  }

  lemma StepUnit(code: string, i: nat, line: nat, column: nat, frames: seq<Frame>)
    requires i < |code| && code[i] == '"'
    ensures ParseFrom(code, i, line, column, frames) == Complete(code, i + 1, line, column + 1, frames, Unit)
  {
  }

  lemma StepBlank(code: string, i: nat, line: nat, column: nat, frames: seq<Frame>)
    requires i < |code| && code[i] == ' '
    ensures ParseFrom(code, i, line, column, frames) == ParseFrom(code, i + 1, line, column + 1, frames)
  {
  }

  lemma StepDots(code: string, i: nat, n: nat, line: nat, column: nat, frames: seq<Frame>)
    requires i < |code| && code[i] == '.' && 1 <= n <= LamCount(frames) && RunEnd(code, i, '.') == i + n
    ensures ParseFrom(code, i, line, column, frames) == Complete(code, i + n, line, column + n, frames, Var(n - 1))
  {
  }

  lemma StepColons(code: string, i: nat, n: nat, line: nat, column: nat, frames: seq<Frame>)
    requires i < |code| && code[i] == ':' && 1 <= n <= 3 && RunEnd(code, i, ':') == i + n
    ensures ParseFrom(code, i, line, column, frames) ==
      Complete(code, i + n, line, column + n, frames, if n == 1 then Put else if n == 2 then Get else Random)
  {
  }

  /** A run of `n` copies of `c`, printed after a separating space where the text needs one,
      is read as one run. */
  lemma ReadRun(code: string, text: string, c: char, n: nat)
    requires c in {'.', ':'} && n >= 1
    requires var s := Spaced(text, c) + Repeat(c, n); s <= code && Apart(s, code)
    ensures var s := Spaced(text, c);
      |s| < |code| && code[|s|] == c && RunEnd(code, |s|, c) == |s| + n &&
      (s != text ==> |s| == |text| + 1 && code[|text|] == ' ')
  {
    var s := Spaced(text, c);
    var e := s + Repeat(c, n);
    assert code[|s|] == e[|s|] == c;
    forall k | |s| <= k < |s| + n
      ensures code[k] == c
    {
      assert code[k] == e[k];
    }
    assert e[|e| - 1] == c;
    RunEndAt(code, |s|, n, c);
    if s != text {
      assert code[|text|] == e[|text|] == ' ';
    }
  }

  /** The printed form of `t`, from index `i` to index `e` of code that goes on apart from it,
      parses as `t`: the parse goes from its start to its end on the same line, from column
      `column` to column `ec`, with the node `t` finished there. */
  lemma {:induction false} Reparse(code: string, text: string, t: Term, line: nat, column: nat, frames: seq<Frame>,
                                   i: nat, e: nat, ec: nat)
    requires Surface(t) && ClosedUnder(t, LamCount(frames))
    requires Emit(text, t, None) <= code && Apart(Emit(text, t, None), code)
    requires i == |text| && e == |Emit(text, t, None)| && ec == column + e - i
    ensures ParseFrom(code, i, line, column, frames) == Complete(code, e, line, ec, frames, t)
    decreases t, 1
  {
    if t.Lam? {
      ReparseLam(code, text, t, line, column, frames, i, e, ec);
    } else if t.App? {
      ReparseApp(code, text, t, line, column, frames, i, e, ec);
    } else {
      ReparseLeaf(code, text, t, line, column, frames, i, e, ec);
    }
  }

  lemma {:induction false} ReparseLam(code: string, text: string, t: Term, line: nat, column: nat, frames: seq<Frame>,
                                      i: nat, e: nat, ec: nat)
    requires t.Lam? && Surface(t) && ClosedUnder(t, LamCount(frames))
    requires Emit(text, t, None) <= code && Apart(Emit(text, t, None), code)
    requires i == |text| && e == |Emit(text, t, None)| && ec == column + e - i
    ensures ParseFrom(code, i, line, column, frames) == Complete(code, e, line, ec, frames, t)
    decreases t, 0
  {
    LamLayout(code, text, t);
    StepLam(code, i, line, column, frames);
    CompleteLam(code, e, line, ec, frames, t.body);
    Reparse(code, text + "'", t.body, line, column + 1, frames + [LamFrame], i + 1, e, ec);
  }

  /** Where the body of a printed function lies. */
  lemma LamLayout(code: string, text: string, t: Term)
    requires t.Lam?
    requires Emit(text, t, None) <= code && Apart(Emit(text, t, None), code)
    ensures var s1 := Emit(text + "'", t.body, None);
      |text| < |code| && code[|text|] == '\'' && |text + "'"| == |text| + 1 &&
      s1 == Emit(text, t, None) && s1 <= code && Apart(s1, code)
  {
    var s := Emit(text, t, None);
    assert code[|text|] == s[|text|] == (text + "'")[|text|];
  }

  lemma {:induction false} ReparseApp(code: string, text: string, t: Term, line: nat, column: nat, frames: seq<Frame>,
                                      i: nat, e: nat, ec: nat)
    requires t.App? && Surface(t) && ClosedUnder(t, LamCount(frames))
    requires Emit(text, t, None) <= code && Apart(Emit(text, t, None), code)
    requires i == |text| && e == |Emit(text, t, None)| && ec == column + e - i
    ensures ParseFrom(code, i, line, column, frames) == Complete(code, e, line, ec, frames, t)
    decreases t, 0
  {
    var s1 := Emit(text + ",", t.fn, None);
    var j := |s1|;
    var jc := column + j - i;
    AppLayout(code, text, t);
    CompleteApp(code, j, e, line, column, frames, t.fn, t.arg);
    Reparse(code, text + ",", t.fn, line, column + 1, frames + [AppFrame(None)], i + 1, j, jc);
    Reparse(code, s1, t.arg, line, jc, frames + [AppFrame(Some(t.fn))], j, e, ec);
    ChainApp(code, i, j, e, line, column, jc, ec, frames, t.fn, t.arg);
  }

  /** Where the parts of a printed application lie. */
  lemma AppLayout(code: string, text: string, t: Term)
    requires t.App? && Surface(t)
    requires Emit(text, t, None) <= code && Apart(Emit(text, t, None), code)
    ensures var s1 := Emit(text + ",", t.fn, None);
      |text| < |code| && code[|text|] == ',' && |text + ","| == |text| + 1 &&
      s1 <= code && Apart(s1, code) && |text| < |s1| <= |Emit(text, t, None)| &&
      Emit(s1, t.arg, None) == Emit(text, t, None)
  {
    var s := Emit(text, t, None);
    var s1 := Emit(text + ",", t.fn, None);
    assert code[|text|] == s[|text|] == (text + ",")[|text|] == ',';
    EmitStart(s1, t.arg);
    assert code[|s1|] == s[|s1|];
  }

  /** The parse of an application: the comma, the function side, the argument side. */
  lemma ChainApp(code: string, i: nat, j: nat, k: nat, line: nat, column: nat, jc: nat, kc: nat,
                 frames: seq<Frame>, f: Term, x: Term)
    requires i < j <= k <= |code| && code[i] == ','
    requires ParseFrom(code, i + 1, line, column + 1, frames + [AppFrame(None)]) ==
      Complete(code, j, line, jc, frames + [AppFrame(None)], f)
    requires ParseFrom(code, j, line, jc, frames + [AppFrame(Some(f))]) ==
      Complete(code, k, line, kc, frames + [AppFrame(Some(f))], x)
    ensures ParseFrom(code, i, line, column, frames) == Complete(code, k, line, kc, frames, App(f, x))
  {
    StepApp(code, i, line, column, frames);
    CompleteApp(code, j, k, line, jc, frames, f, x);
    CompleteApp(code, j, k, line, kc, frames, f, x);
  }

  lemma ReparseLeaf(code: string, text: string, t: Term, line: nat, column: nat, frames: seq<Frame>,
                    i: nat, e: nat, ec: nat)
    requires !t.Lam? && !t.App? && Surface(t) && ClosedUnder(t, LamCount(frames))
    requires Emit(text, t, None) <= code && Apart(Emit(text, t, None), code)
    requires i == |text| && e == |Emit(text, t, None)| && ec == column + e - i
    ensures ParseFrom(code, i, line, column, frames) == Complete(code, e, line, ec, frames, t)
  {
    if t.Unit? {
      assert code[|text|] == Emit(text, t, None)[|text|] == '"';
      StepUnit(code, i, line, column, frames);
    } else {
      var c, n := if t.Var? then '.' else ':', if t.Var? then t.index + 1 else if t.Put? then 1 else if t.Get? then 2 else 3;
      EmitRun(text, t, c, n);
      ReadRun(code, text, c, n);
      ReadRunParses(code, i, |Spaced(text, c)|, c, n, line, column, frames, e, ec);
    }
  }

  /** A variable or a builtin prints as one run of dots or colons. */
  lemma EmitRun(text: string, t: Term, c: char, n: nat)
    requires Surface(t) && !t.Lam? && !t.App? && !t.Unit?
    requires c == (if t.Var? then '.' else ':')
    requires n == if t.Var? then t.index + 1 else if t.Put? then 1 else if t.Get? then 2 else 3
    ensures n >= 1 && t == RunNode(c, n)
    ensures Emit(text, t, None) == Spaced(text, c) + Repeat(c, n)
  {
  }

  /** The node a run of `n` dots or colons stands for. */
  function RunNode(c: char, n: nat): Term
    requires n >= 1
  {
    if c == '.' then Var(n - 1) else if n == 1 then Put else if n == 2 then Get else Random
  }

  /** The run at `j`, after a blank at `i` if `j` is one further, is read as one token. */
  lemma ReadRunParses(code: string, i: nat, j: nat, c: char, n: nat, line: nat, column: nat, frames: seq<Frame>,
                      e: nat, ec: nat)
    requires c == '.' ==> 1 <= n <= LamCount(frames)
    requires c == ':' ==> 1 <= n <= 3
    requires c in {'.', ':'}
    requires j < |code| && code[j] == c && RunEnd(code, j, c) == j + n
    requires j == i || (j == i + 1 && code[i] == ' ')
    requires e == j + n && ec == column + e - i
    ensures ParseFrom(code, i, line, column, frames) == Complete(code, e, line, ec, frames, RunNode(c, n))
  {
    if j != i {
      StepBlank(code, i, line, column, frames);
    }
    if c == '.' {
      StepDots(code, j, n, line, column + j - i, frames);
    } else {
      StepColons(code, j, n, line, column + j - i, frames);
    }
  }

  /** A closed program of source tokens, dumped without a current application, parses back to
      itself. */
  lemma ParseSource(t: Term)
    requires ClosedUnder(t, 0) && Surface(t)
    ensures Parse(Source(t)) == Parsed(t)
  {
    var code := Source(t);
    Reparse(code, "", t, 1, 1, [], 0, |code|, 1 + |code|);
  }

  /** The round trip holds exactly for the programs `parse` can produce. */
  lemma SourceParsesBack(t: Term)
    ensures Parse(Source(t)) == Parsed(t) <==> ClosedUnder(t, 0) && Surface(t)
  {
    if ClosedUnder(t, 0) && Surface(t) {
      ParseSource(t);
    } else {
      ParseClosed(Source(t));
    }
  }

  /** Whatever `parse` accepts, `dump` prints in a form that parses to the same program. */
  lemma DumpOfParse(code: string)
    requires Parse(code).Parsed?
    ensures Parse(Source(Parse(code).term)) == Parse(code)
  {
    ParseClosed(code);
    ParseSource(Parse(code).term);
  }
}

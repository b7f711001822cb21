// One step of the executor on terms: what `exec` does at the current application, the messages
// it fails with, and the loop of `run` over it. The graph-level class is in runtime.dfy.

module Execution {
  import opened Wrappers
  import opened Terms
  import opened Machine
  import opened Numerals
  import opened Utf8
  import opened Parser
  import opened Dump

  // ----- the messages `exec` returns -----

  const NotNumeral := "the argument was not a Church numeral"
  const NotNull := "the argument was not null"
  const BadSequence := "invalid UTF-8 sequence"
  const Aborted := "program aborted"
  const NotFunction := "null is not a function"

  /** The registers of the UTF-8 codec and the two host streams, as values. */
  datatype Io = Io(putCode: nat, putState: nat, getCode: nat, getState: nat, input: seq<nat>, output: seq<nat>)

  /** What one `exec()` did to the program. */
  datatype Step =
      /** The program is `t` and the current application the one at `p`. */
    | Moved(t: Term, p: seq<Key>)
      /** The program reduced to the value `t` at the root; `current` is null. */
    | Halted(t: Term)
      /** An error; the program is `t`, and `mark` is where `current` stands when it is still an
          application of `t`. */
    | Fault(message: string, t: Term, mark: Option<seq<Key>>)
      /** `toNumber` did not return within the turns it was given. */
    | Diverged
      /** `putChar` raised: `put_` of NaN assembles no code point. */
    | Thrown

  /** A finished value written where the reduction stands: into the parent, which becomes
      current, or as the new root, which ends the run. */
  function Settle(t: Term, p: seq<Key>, r: Term): (s: Step)
    requires Focus(t, p)
    ensures s.Moved? ==> Focus(s.t, s.p) && |s.p| + 1 == |p|
    ensures s.Halted? <==> p == []
    ensures s.Moved? || s.Halted?
  {
    if p == [] then Halted(r)
    else
      FocusPop(t, p, r);
      Moved(Replace(t, p, r), Parent(p))
  }

  /** Where the current application is after a step that moved or halted. */
  function Where(s: Step): Option<seq<Key>>
    requires s.Moved? || s.Halted?
  {
    if s.Moved? then Some(s.p) else None
  }

  function Emitted(o: Option<nat>): seq<nat> {
    if o.Some? then [o.value] else []
  }

  /** `put_(number)` on the registers: whether it accepted the byte, and the registers and output
      after it. */
  function PutIo(io: Io, number: nat): (bool, Io) {
    var o := PutStep(io.putCode, io.putState, number);
    (o.ok, io.(putCode := o.code, putState := o.state, output := io.output + Emitted(o.emitted)))
  }

  /** `get_()` on the registers: `getChar` is asked for the next code point only when idle. */
  function GetIo(io: Io): (Option<nat>, Io) {
    var asks := io.getState == 0 && io.input != [];
    var o := GetStep(io.getCode, io.getState, if asks then Some(io.input[0]) else None);
    (o.value, io.(getCode := o.code, getState := o.state, input := if asks then io.input[1..] else io.input))
  }

  /** `exec()` at the application at `p`: into its function side if that is an application, else
      into its argument side if that is one; otherwise the head acts. A beta step whose result is
      an application puts it in place and ends the step there; `put` decodes its argument with
      `toNumber` (given `fuel` turns); `putN`, `get` and `random` want the null argument; every
      other head fails. `rand` is the byte `randByte` returns. */
  function ExecStep(t: Term, p: seq<Key>, fuel: nat, io: Io, rand: nat): (r: (Step, Io))
    requires Focus(t, p)
    ensures r.0.Moved? ==> Focus(r.0.t, r.0.p)
    ensures r.0.Halted? ==> p == [] && !r.0.t.App?
  {
    var n := At(t, p);
    if n.fn.App? then
      FocusDescend(t, p, Fn);
      (Moved(t, p + [Fn]), io)
    else if n.arg.App? then
      FocusDescend(t, p, Arg);
      (Moved(t, p + [Arg]), io)
    else
      match n.fn
      case Lam(b) =>
        var r := Subst(b, 0, n.arg);
        if r.App? then
          FocusSplice(t, p, r);
          (Moved(Replace(t, p, r), p), io)
        else (Settle(t, p, r), io)
      case Put =>
        var d := Decode(n.arg, fuel);
        if d.Unfinished? then (Diverged, io)
        else if d.number.NaN? then (Fault(NotNumeral, Replace(t, p, PutN(NaN)), None), io)
        else (Settle(t, p, PutN(d.number)), io)
      case PutN(x) =>
        if !n.arg.Unit? then (Fault(NotNull, t, Some(p)), io)
        else if x.NaN? then (if io.putState == 0 then Thrown else Fault(BadSequence, t, Some(p)), io)
        else
          var (ok, io') := PutIo(io, x.n);
          (if ok then Settle(t, p, Unit) else Fault(BadSequence, t, Some(p)), io')
      case Get =>
        if !n.arg.Unit? then (Fault(NotNull, t, Some(p)), io)
        else
          var (v, io') := GetIo(io);
          (if v.None? then Fault(Aborted, t, Some(p)) else Settle(t, p, Church(v.value)), io')
      case Random =>
        if !n.arg.Unit? then (Fault(NotNull, t, Some(p)), io)
        else (Settle(t, p, Church(rand)), io)
      case _ => (Fault(NotFunction, t, Some(p)), io)
  }

  // ----- what exec keeps -----

  /** No `putN` of NaN, no `increment` and no native integer: those are made only by a failing
      `put` and inside `toNumber`. */
  predicate Clean(t: Term) {
    match t
    case Lam(b) => Clean(b)
    case App(f, x) => Clean(f) && Clean(x)
    case PutN(x) => x.Count?
    case Inc => false
    case Int(_) => false
    case _ => true
  }

  /** The programs `exec` runs: closed and clean. */
  predicate Runnable(t: Term) {
    ClosedUnder(t, 0) && Clean(t)
  }

  lemma {:induction false} SurfaceClean(t: Term)
    requires Surface(t)
    ensures Clean(t)
  {
    match t
    case Lam(b) => SurfaceClean(b);
    case App(f, x) => SurfaceClean(f); SurfaceClean(x);
    case _ =>
  }

  lemma {:induction false} SubstClean(t: Term, nest: nat, a: Term)
    requires Clean(t) && Clean(a)
    ensures Clean(Subst(t, nest, a))
  {
    match t
    case Lam(b) => SubstClean(b, nest + 1, a);
    case App(f, x) => SubstClean(f, nest, a); SubstClean(x, nest, a);
    case _ =>
  }

  lemma ChurchRunnable(n: nat)
    ensures Runnable(Church(n))
  {
    ChurchClosed(n);
    SurfaceClean(Church(n));
  }

  /** Every program `load` installs is runnable. */
  lemma LoadRunnable(code: string)
    requires Parse(code).Parsed?
    ensures Runnable(Parse(code).term)
  {
    ParseClosed(code);
    SurfaceClean(Parse(code).term);
  }

  /** Below application fields only, a closed term has closed parts: no binder is crossed. */
  lemma {:induction false} AtRunnable(t: Term, p: seq<Key>)
    requires Runnable(t) && ValidPath(t, p) && AppPath(p)
    ensures Runnable(At(t, p))
    decreases p
  {
    if p != [] {
      assert AppPath(p[1..]) by {
        forall i | 0 <= i < |p[1..]|
          ensures p[1..][i] != Body
        {
          assert p[1..][i] == p[i + 1];
        }
      }
      AtRunnable(ChildOf(t, p[0]), p[1..]);
    }
  }

  lemma {:induction false} ReplaceRunnable(t: Term, p: seq<Key>, s: Term)
    requires Runnable(t) && ValidPath(t, p) && AppPath(p) && Runnable(s)
    ensures Runnable(Replace(t, p, s))
    decreases p
  {
    if p != [] {
      assert AppPath(p[1..]) by {
        forall i | 0 <= i < |p[1..]|
          ensures p[1..][i] != Body
        {
          assert p[1..][i] == p[i + 1];
        }
      }
      ReplaceRunnable(ChildOf(t, p[0]), p[1..], s);
    }
  }

  /** `exec` keeps a runnable program runnable, and never reaches `put_(NaN)` in one. A code point
      above 0x10FFFF is printed here, where `String.fromCodePoint` would raise. */
  lemma ExecKeepsRunnable(t: Term, p: seq<Key>, fuel: nat, io: Io, rand: nat)
    requires Focus(t, p) && Runnable(t)
    ensures var s := ExecStep(t, p, fuel, io, rand).0;
      !s.Thrown? && (s.Moved? || s.Halted? ==> Runnable(s.t))
  {
    var n := At(t, p);
    AtRunnable(t, p);
    assert Runnable(n.fn) && Runnable(n.arg);
    if !n.fn.App? && !n.arg.App? {
      match n.fn
      case Lam(b) =>
        SubstKeepsClosed(b, 0, n.arg);
        SubstClean(b, 0, n.arg);
        ReplaceRunnable(t, p, Subst(b, 0, n.arg));
      case Put =>
        var d := Decode(n.arg, fuel);
        if d.Decoded? && d.number.Count? {
          ReplaceRunnable(t, p, PutN(d.number));
        }
      case PutN(x) =>
        ReplaceRunnable(t, p, Unit);
      case Get =>
        var (v, _) := GetIo(io);
        if v.Some? {
          ChurchRunnable(v.value);
          ReplaceRunnable(t, p, Church(v.value));
        }
      case Random =>
        ChurchRunnable(rand);
        ReplaceRunnable(t, p, Church(rand));
      case _ =>
    }
  }

  /** The two messages about the head: a non-null argument to `putN`, `get` or `random`, and a
      head that is not a function or a builtin. */
  lemma ExecFaults(t: Term, p: seq<Key>, fuel: nat, io: Io, rand: nat)
    requires Focus(t, p)
    ensures var n, s := At(t, p), ExecStep(t, p, fuel, io, rand).0;
      var acts := !n.fn.App? && !n.arg.App?;
      (s == Fault(NotNull, t, Some(p)) <==>
        acts && (n.fn.PutN? || n.fn.Get? || n.fn.Random?) && !n.arg.Unit?) &&
      (s == Fault(NotFunction, t, Some(p)) <==>
        acts && !(n.fn.Lam? || n.fn.Put? || n.fn.PutN? || n.fn.Get? || n.fn.Random?))
  {
    assert NotNull != BadSequence && NotNull != Aborted && NotNull != NotFunction;
    assert NotFunction != BadSequence && NotFunction != Aborted;
  }

  /** `put` of a numeral writes `putN` of its count where the application stood. */
  lemma PutChurch(t: Term, p: seq<Key>, k: nat, fuel: nat, io: Io, rand: nat)
    requires Focus(t, p) && At(t, p) == App(Put, Church(k)) && 2 * k + 3 <= fuel
    ensures ExecStep(t, p, fuel, io, rand) == (Settle(t, p, PutN(Count(k))), io)
  {
    DecodeChurch(k, fuel);
  }

  /** `get` with the null argument: the next byte of the input becomes a numeral, or the program
      is aborted when the input is used up. */
  lemma GetChurch(t: Term, p: seq<Key>, fuel: nat, io: Io, rand: nat)
    requires Focus(t, p) && At(t, p) == App(Get, Unit)
    ensures var (s, io') := ExecStep(t, p, fuel, io, rand);
      var (v, io'') := GetIo(io);
      io' == io'' &&
      (io.getState == 0 && io.input == [] <==> s == Fault(Aborted, t, Some(p))) &&
      (v.Some? ==> s == Settle(t, p, Church(v.value)))
  {
  }

  // ----- run -----

  /** How `run` ended: its loop stopped (the program ended or the step count ran out), an error
      was reported with the dump of the program, the turns the model gives it ran out, or a step
      did not return (`toNumber` did not finish, or `putChar` raised). */
  datatype RunStatus = Stopped | Crashed(message: string, log: string) | OutOfBudget | Hung | Threw

  /** `run(step)` from the program `t`, with the current application at `at` (none when it has
      ended), for at most `budget` calls of `exec`; `rand(i)` is the byte `randByte` gives during
      the `i`-th call. The count is decremented after each call and the loop stops when it reaches
      0, so a count of 0 or less never stops it. After an error the runtime is unloaded: the
      codec registers are 0. */
  function RunFrom(t: Term, at: Option<seq<Key>>, io: Io, step: int, budget: nat, fuel: nat,
                   rand: nat -> nat, n: nat): (RunStatus, Term, Option<seq<Key>>, Io)
    requires at.Some? ==> Focus(t, at.value)
    decreases budget
  {
    if at.None? then (Stopped, t, at, io)
    else if budget == 0 then (OutOfBudget, t, at, io)
    else
      var (s, io') := ExecStep(t, at.value, fuel, io, rand(n));
      match s
      case Moved(t', p') =>
        if step - 1 == 0 then (Stopped, t', Some(p'), io')
        else RunFrom(t', Some(p'), io', step - 1, budget - 1, fuel, rand, n + 1)
      case Halted(t') =>
        if step - 1 == 0 then (Stopped, t', None, io')
        else RunFrom(t', None, io', step - 1, budget - 1, fuel, rand, n + 1)
      case Fault(m, t', mark) =>
        (Crashed(m, Emit("", t', mark)), t', None, io'.(putCode := 0, putState := 0, getCode := 0, getState := 0))
      case Diverged => (Hung, t, at, io)
      case Thrown => (Threw, t, at, io)
  }

  /** A runnable program stays runnable through `run` and never reaches `put_(NaN)`. A code point
      above 0x10FFFF is printed here, where `String.fromCodePoint` would raise. */
  lemma {:induction false} RunKeepsRunnable(t: Term, at: Option<seq<Key>>, io: Io, step: int, budget: nat,
                                            fuel: nat, rand: nat -> nat, n: nat)
    requires (at.Some? ==> Focus(t, at.value)) && Runnable(t)
    ensures var r := RunFrom(t, at, io, step, budget, fuel, rand, n);
      !r.0.Threw? && (r.0.Stopped? || r.0.OutOfBudget? ==> Runnable(r.1))
    decreases budget
  {
    if at.Some? && budget > 0 {
      ExecKeepsRunnable(t, at.value, fuel, io, rand(n));
      var (s, io') := ExecStep(t, at.value, fuel, io, rand(n));
      if s.Moved? && step - 1 != 0 {
        RunKeepsRunnable(s.t, Some(s.p), io', step - 1, budget - 1, fuel, rand, n + 1);
      } else if s.Halted? && step - 1 != 0 {
        RunKeepsRunnable(s.t, None, io', step - 1, budget - 1, fuel, rand, n + 1);
      }
    }
  }
}

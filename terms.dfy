// Nuts terms as values: the abstraction of the node graph, the substitution the engine
// performs, closedness, Church numerals and paths into a term.

module Wrappers {
  datatype Option<T> = None | Some(value: T)
}

module Terms {

  /** The `number` field of a `putN` node: the count a numeral decoded to, or NaN. */
  datatype Number = Count(n: nat) | NaN

  /** One constructor per node prototype of the engine. `Int` is the native integer that the
      numeral decoder threads through its private graph; `Inc` is its `increment` builtin. */
  datatype Term =
    | Lam(body: Term)
    | Unit
    | Var(index: nat)
    | App(fn: Term, arg: Term)
    | Put
    | PutN(number: Number)
    | Get
    | Random
    | Inc
    | Int(value: nat)
  {
    /** Every node without children. */
    predicate IsLeaf() { !Lam? && !App? }
  }

  /** The field names of the engine: `body` of a function, `function` and `argument` of an
      application. */
  datatype Key = Body | Fn | Arg

  function Size(t: Term): (n: nat)
    ensures n >= 1
  {
    match t
    case Lam(b) => 1 + Size(b)
    case App(f, x) => 1 + Size(f) + Size(x)
    case _ => 1
  }

  /** The substitution performed when `t` sits under `nest` binders inside the body of the applied
      function: every variable whose index equals the number of binders crossed is replaced by
      `a`. No index is shifted. */
  function Subst(t: Term, nest: nat, a: Term): Term {
    match t
    case Lam(b) => Lam(Subst(b, nest + 1, a))
    case Var(i) => if i == nest then a else t
    case App(f, x) => App(Subst(f, nest, a), Subst(x, nest, a))
    case _ => t
  }

  /** How many variables of `t` refer to the binder `nest` levels up. */
  function Occurrences(t: Term, nest: nat): nat {
    match t
    case Lam(b) => Occurrences(b, nest + 1)
    case Var(i) => if i == nest then 1 else 0
    case App(f, x) => Occurrences(f, nest) + Occurrences(x, nest)
    case _ => 0
  }

  /** Every variable of `t` refers to one of the `depth` binders around `t` or to one inside it. */
  predicate ClosedUnder(t: Term, depth: nat) {
    match t
    case Lam(b) => ClosedUnder(b, depth + 1)
    case Var(i) => i < depth
    case App(f, x) => ClosedUnder(f, depth) && ClosedUnder(x, depth)
    case _ => true
  }

  /** The terms the parser can produce: no `putN`, `increment` or native integer. */
  predicate Surface(t: Term) {
    match t
    case Lam(b) => Surface(b)
    case App(f, x) => Surface(f) && Surface(x)
    case PutN(_) => false
    case Inc => false
    case Int(_) => false
    case _ => true
  }

  lemma {:induction false} ClosedUnderMono(t: Term, d: nat, e: nat)
    requires ClosedUnder(t, d) && d <= e
    ensures ClosedUnder(t, e)
  {
    match t
    case Lam(b) => ClosedUnderMono(b, d + 1, e + 1);
    case App(f, x) => ClosedUnderMono(f, d, e); ClosedUnderMono(x, d, e);
    case _ =>
  }

  /** Substitution without shifting cannot capture: a closed argument put into a body that is
      closed under its binder leaves a closed result. */
  lemma {:induction false} SubstKeepsClosed(t: Term, nest: nat, a: Term)
    requires ClosedUnder(t, nest + 1) && ClosedUnder(a, 0)
    ensures ClosedUnder(Subst(t, nest, a), nest)
  {
    match t
    case Lam(b) => SubstKeepsClosed(b, nest + 1, a);
    case Var(i) => if i == nest { ClosedUnderMono(a, 0, nest); }
    case App(f, x) => SubstKeepsClosed(f, nest, a); SubstKeepsClosed(x, nest, a);
    case _ =>
  }

  /** A body without occurrences of its binder is left as it is. */
  lemma {:induction false} SubstWithoutOccurrence(t: Term, nest: nat, a: Term)
    requires Occurrences(t, nest) == 0
    ensures Subst(t, nest, a) == t
  {
    match t
    case Lam(b) => SubstWithoutOccurrence(b, nest + 1, a);
    case App(f, x) => SubstWithoutOccurrence(f, nest, a); SubstWithoutOccurrence(x, nest, a);
    case _ =>
  }

  /** The body of the numeral: n applications of variable 1 around variable 0. */
  function ChurchBody(n: nat): Term {
    if n == 0 then Var(0) else App(Var(1), ChurchBody(n - 1))
  }

  function Church(n: nat): Term {
    Lam(Lam(ChurchBody(n)))
  }

  lemma {:induction false} ChurchClosed(n: nat)
    ensures ClosedUnder(Church(n), 0) && Surface(Church(n))
    ensures Size(Church(n)) == 2 * n + 3
  {
    ChurchBodyFacts(n);
  }

  lemma {:induction false} ChurchBodyFacts(n: nat)
    ensures ClosedUnder(ChurchBody(n), 2) && Surface(ChurchBody(n))
    ensures Size(ChurchBody(n)) == 2 * n + 1
  {
    if n > 0 { ChurchBodyFacts(n - 1); }
  }

  // Paths: the sequence of fields followed from a node.

  predicate ValidPath(t: Term, path: seq<Key>)
    decreases path
  {
    path == [] ||
    match path[0]
    case Body => t.Lam? && ValidPath(t.body, path[1..])
    case Fn => t.App? && ValidPath(t.fn, path[1..])
    case Arg => t.App? && ValidPath(t.arg, path[1..])
  }

  predicate HasChild(t: Term, k: Key) {
    match k
    case Body => t.Lam?
    case Fn => t.App?
    case Arg => t.App?
  }

  function ChildOf(t: Term, k: Key): Term
    requires HasChild(t, k)
  {
    match k
    case Body => t.body
    case Fn => t.fn
    case Arg => t.arg
  }

  function WithChild(t: Term, k: Key, s: Term): (r: Term)
    requires HasChild(t, k)
    ensures HasChild(r, k) && ChildOf(r, k) == s
  {
    match k
    case Body => Lam(s)
    case Fn => App(s, t.arg)
    case Arg => App(t.fn, s)
  }

  /** The subterm reached by following `path`. */
  function At(t: Term, path: seq<Key>): Term
    requires ValidPath(t, path)
    decreases path
  {
    if path == [] then t else At(ChildOf(t, path[0]), path[1..])
  }

  /** `t` with the subterm at `path` replaced by `s`. */
  function Replace(t: Term, path: seq<Key>, s: Term): Term
    requires ValidPath(t, path)
    decreases path
  {
    if path == [] then s else WithChild(t, path[0], Replace(ChildOf(t, path[0]), path[1..], s))
  }

  lemma {:induction false} ValidPathSnoc(t: Term, path: seq<Key>, k: Key)
    requires ValidPath(t, path)
    ensures ValidPath(t, path + [k]) <==> HasChild(At(t, path), k)
    ensures ValidPath(t, path + [k]) ==> At(t, path + [k]) == ChildOf(At(t, path), k)
    decreases path
  {
    if path != [] {
      assert (path + [k])[1..] == path[1..] + [k];
      ValidPathSnoc(ChildOf(t, path[0]), path[1..], k);
    }
  }

  /** Replacing at a path leaves the path valid and puts `s` there. */
  lemma {:induction false} ReplaceAt(t: Term, path: seq<Key>, s: Term)
    requires ValidPath(t, path)
    ensures ValidPath(Replace(t, path, s), path) && At(Replace(t, path, s), path) == s
    decreases path
  {
    if path != [] {
      ReplaceAt(ChildOf(t, path[0]), path[1..], s);
    }
  }

  /** Replacing the child `k` of the node at `path` is replacing at `path + [k]`. */
  lemma {:induction false} ReplaceSnoc(t: Term, path: seq<Key>, k: Key, s: Term)
    requires ValidPath(t, path) && HasChild(At(t, path), k)
    ensures ValidPath(t, path + [k])
    ensures Replace(t, path + [k], s) == Replace(t, path, WithChild(At(t, path), k, s))
    decreases path
  {
    ValidPathSnoc(t, path, k);
    if path != [] {
      assert (path + [k])[1..] == path[1..] + [k];
      ReplaceSnoc(ChildOf(t, path[0]), path[1..], k, s);
    }
  }

  /** Putting back what is already there changes nothing. */
  lemma {:induction false} ReplaceSame(t: Term, path: seq<Key>)
    requires ValidPath(t, path)
    ensures Replace(t, path, At(t, path)) == t
    decreases path
  {
    if path != [] {
      ReplaceSame(ChildOf(t, path[0]), path[1..]);
    }
  }

  /** A path is valid when its first part is and its second part is valid from where the first
      part ends. */
  lemma {:induction false} ValidPathAppend(t: Term, p: seq<Key>, q: seq<Key>)
    ensures ValidPath(t, p + q) <==> ValidPath(t, p) && ValidPath(At(t, p), q)
    ensures ValidPath(t, p + q) ==> At(t, p + q) == At(At(t, p), q)
    decreases p
  {
    if p != [] {
      assert (p + q)[0] == p[0] && (p + q)[1..] == p[1..] + q;
      if HasChild(t, p[0]) {
        ValidPathAppend(ChildOf(t, p[0]), p[1..], q);
      }
    } else {
      assert p + q == q;
    }
  }

  lemma ValidPathPrefix(t: Term, path: seq<Key>, n: nat)
    requires ValidPath(t, path) && n <= |path|
    ensures ValidPath(t, path[..n])
  {
    assert path == path[..n] + path[n..];
    ValidPathAppend(t, path[..n], path[n..]);
  }

  /** Replacing at one path leaves every path that neither extends it nor is extended by it as it
      was. */
  lemma {:induction false} ReplaceAside(t: Term, p: seq<Key>, s: Term, q: seq<Key>)
    requires ValidPath(t, p) && ValidPath(t, q) && !(p <= q) && !(q <= p)
    ensures ValidPath(Replace(t, p, s), q) && At(Replace(t, p, s), q) == At(t, q)
    decreases p
  {
    if p[0] == q[0] {
      ReplaceAside(ChildOf(t, p[0]), p[1..], s, q[1..]);
    } else {
      assert HasChild(Replace(t, p, s), q[0]);
      assert ChildOf(Replace(t, p, s), q[0]) == ChildOf(t, q[0]);
    }
  }

  /** A second replacement at the same path overrides the first. */
  lemma {:induction false} ReplaceTwice(t: Term, path: seq<Key>, s1: Term, s2: Term)
    requires ValidPath(t, path)
    ensures ValidPath(Replace(t, path, s1), path)
    ensures Replace(Replace(t, path, s1), path, s2) == Replace(t, path, s2)
    decreases path
  {
    ReplaceAt(t, path, s1);
    if path != [] {
      ReplaceTwice(ChildOf(t, path[0]), path[1..], s1, s2);
    }
  }
}

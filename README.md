# Nuts runtime, modelled in Dafny

Nuts is a lambda calculus written with five kinds of token. `'` opens a function. `,` applies what
follows to what comes after it. `"` is the null value. A run of n dots is the variable of the n-th
enclosing function. One, two or three colons are the builtins `put`, `get` and `random`.

`src/nuts.js` turns a program into a graph of token objects (`parse`) and reduces that graph one
step at a time (`exec`). Its reduction overwrites variables in place (`substituteArg`) and copies
arguments that are used more than once (`clone`). `put` decodes a Church numeral by running it on
an `increment` builtin (`toNumber`) and sends the bytes it collects through a UTF-8 encoder
(`put_`). `get` and `random` turn bytes back into numerals (`get_`, `toChurch`). `dump` prints the
graph back as source, with the current application between brackets. The public class wraps all
of this: `load`, `run`, `ended` and `unload`.

The model keeps the engine's own shape.

- **Heap:** JavaScript objects live in an arena, `Heap = seq<Node>`, and references are indices.
- **Term:** each graph is tied to the `Term` it stands for. `Reps` says the graph at a node stands
  for a term. `Tree` adds that no function or application node is reached twice.
- **Methods and loops:** `parse`, `clone`, `substituteArg`, `toNumber`, `toChurch`, `exec` and
  `dump` keep their loops and explicit stacks.
- **Proofs:** each of those methods is proved equal to a recursive definition on terms. That
  definition is `Parse`, `CloneSpec`, `Subst`, `Decode`, `Church`, `ExecStep` or `Emit`.
- **Mutable state:** the module state `root`, `current`, `stack`, `keys` and the codec registers
  are fields of two classes, `Runtime.Runtime` and `Utf8.Codec`.

Several behaviours are modelled as the code does them, not as its comments describe them:

- `get_` does not mask its continuation bytes. U+0080 to U+00BF still come out right, but every
  character from U+00C0 up comes out as bytes that `put_` refuses.
- A beta step whose result is an application puts that result in place and ends the step there.
- `put` writes `putN(NaN)` into the graph before it reports its error.
- `unload` empties `stack` but not `keys`.
- `parse` makes the root current only when the root is an application.
- `put_` accepts surrogates and the lead bytes F5 to F7. Above 0x10FFFF the model then prints the code point, where `String.fromCodePoint` raises.
- `toNumber` writes into the numeral it decodes, because `substituteArg` rewrites it in place.

## Model

| member | source | states |
|---|---|---|
| Utf8.Codec.constructor | src/nuts.js:43-46 | all four codec registers start at 0, with the given input and no output |
| Utf8.Codec.Put | src/nuts.js:56-97 | `put_(number)` changes the put registers and the output as `PutStep` says, and leaves the get side alone |
| Utf8.Codec.Get | src/nuts.js:105-132 | `get_()` asks `getChar` for a code point only when its state is 0, and changes only the get registers and the input |
| Utf8.Codec.Reset | src/nuts.js:836 | the four registers become 0; the input and output are untouched |
| Utf8.PutKeeps | src/nuts.js:56-97 | the encoder's registers stay consistent: a pending state always goes with a partial code of the right size |
| Utf8.PutRejects | src/nuts.js:56-97 | `put_` returns false exactly for bytes above 0xFF, a bad lead byte, a missing continuation byte or an overlong 3- or 4-byte form. A refused byte changes no state and prints nothing. A character is printed exactly when a sequence completes |
| Utf8.PutIdle | src/nuts.js:58-72 | in the idle state only 0x80–0xC1 and 0xF8–0xFF are refused |
| Utf8.PutOwed | src/nuts.js:73-92 | while bytes are owed, a byte is refused exactly when it is not a continuation byte or it makes an overlong form |
| Utf8.Overlong3 | src/nuts.js:78-81 | the `0xf800` test fails exactly when a 3-byte sequence would encode a code point below 0x800 |
| Utf8.Overlong4 | src/nuts.js:87-90 | the `0x1f0000` test fails exactly when a 4-byte sequence would encode a code point below 0x10000 |
| Utf8.PutEncode | src/nuts.js:56-97 | feeding the UTF-8 encoding of any code point below 0x200000 to an idle encoder prints exactly that code point and leaves it idle |
| Utf8.PutCanonical | src/nuts.js:56-97 | a byte string that leaves the encoder idle after printing exactly one character is that character's canonical encoding |
| Utf8.PutAcceptsOutsideUnicode | src/nuts.js:65-70 | the byte machine accepts surrogates (ED A0 80) and lead bytes above F4 (F5 80 80 80) and assembles the code points D800 and 0x140000. The model prints both; for 0x140000 the source's `String.fromCodePoint` raises a RangeError instead (see Left out) |
| Utf8.GetReadsOnlyIdle | src/nuts.js:106-111 | `get_` asks for input only in state 0, and an empty answer yields no byte |
| Utf8.GetLeadEncodes | src/nuts.js:112-121 | the first byte of a character is the first byte of its UTF-8 encoding, and the state counts the bytes still to come |
| Utf8.GetCountsDown | src/nuts.js:122-131 | each later call yields a byte and lowers the state by one |
| Utf8.GetCharShape | src/nuts.js:105-132 | `get_` yields as many bytes as the UTF-8 encoding has, with the same first byte; ASCII comes out unchanged |
| Utf8.GetUnmasked | src/nuts.js:122-124 | for U+00E9, `get_` yields C3 E9 where UTF-8 says C3 A9, and `put_` refuses that pair |
| Utf8.GetLatin1 | src/nuts.js:105-132 | for U+0080 to U+00BF the unmasked continuation byte is the right one: `get_` yields the UTF-8 encoding C2 xx, and `put_` prints the character back |
| Utf8.GetRefused | src/nuts.js:105-132 | for every character from U+00C0 up, `put_` refuses the bytes `get_` yields for it |
| Parser.RunEnd | src/nuts.js:280-287 | the end of a run of one character: every character before it belongs to the run, and the one at it does not |
| Parser.ParseCode | src/nuts.js:259-440 | the imperative parser, with its frame stack and its `nest` counter, gives exactly `Parse(code)` |
| Parser.SkipRun | src/nuts.js:280-287 | the counting loop over a run of dots or colons stops where `RunEnd` says |
| Parser.SkipComment | src/nuts.js:328-341 | a comment is skipped up to the end of its line |
| Parser.FoldIn | src/nuts.js:363-379 | folding a finished node into the pending functions and applications keeps `nest` equal to the number of open functions |
| Parser.ScanTrail | src/nuts.js:380-425 | after the root is complete only blanks, line breaks and comments may follow; a token gives "unexpected token" and anything else "unexpected character", at its line and column |
| Parser.Leaf | src/nuts.js:275-327 | a null, variable or builtin token either gives the error `parse` returns at that point or continues the parse after the token |
| Parser.ParseClosed | src/nuts.js:279-327 | every parsed program is closed (each variable refers to an enclosing function) and contains only source tokens |
| ParseCases.ParseVariable | src/nuts.js:279-295 | n quotes and k dots parse to variable k-1 under n functions when k ≤ n, else to "no corresponding function to the argument" at the first dot |
| ParseCases.ParseBuiltin | src/nuts.js:301-326 | one, two or three colons are `put`, `get` and `random`; more give "no corresponding builtin function" |
| ParseCases.ParseUnfinished | src/nuts.js:435-439 | functions whose body never comes give "unexpected end of code" after the last character |
| ParseCases.ParseLeftover | src/nuts.js:381-390 | for every closed program of source tokens, a token after its printed form gives "unexpected token" at that token's column, unless the token would continue the program's last run of dots or colons |
| Dump.DumpGraph | src/nuts.js:703-761 | the imperative `dump` walk, with its stack of pending applications and `null` markers, prints exactly `Show` of the graph |
| Dump.Unwind | src/nuts.js:746-759 | the inner pop loop prints one `]` per `null` and moves to the next argument side; the text still to come is unchanged |
| Dump.ShowPlain | src/nuts.js:703-761 | a graph whose current node lies outside it prints as its term, without brackets |
| Dump.ShowMarked | src/nuts.js:720-724 | with `current` at the application reached by a path, a tree prints as its term with exactly that application bracketed |
| Dump.Emit | src/nuts.js:703-761 | printing a term only appends to the text |
| Dump.Decimal | src/nuts.js:743-744 | the `{n}` of a `putN` prints decimal digits whose value, read from left to right, is `n`, with no leading zero |
| RoundTrip.ParseSource | src/nuts.js:259-440 | the printed form of a closed program made of source tokens parses back to that program |
| RoundTrip.SourceParsesBack | src/nuts.js:703-761 | the printed form of a term parses back to it if and only if the term is closed and made of source tokens |
| RoundTrip.DumpOfParse | src/nuts.js:259-440 | re-parsing the dump of any parsed program gives the same program |
| RoundTrip.Reparse | src/nuts.js:363-379 | the printed form of a term, read from any point with any open frames, gives back that term and stops at the end of its text |
| Terms.SubstKeepsClosed | src/nuts.js:488-528 | substituting without renumbering cannot capture: a closed argument in a body closed under its binder gives a closed result |
| Terms.SubstWithoutOccurrence | src/nuts.js:499-508 | a body that never uses its variable is left as it is |
| Terms.ChurchClosed | src/nuts.js:589-602 | the numeral n is closed, made of source tokens, and has 2n+3 nodes |
| Cloning.Clone | src/nuts.js:447-483 | the imperative `clone`, with its two loops and explicit stack, gives exactly `CloneSpec` |
| Cloning.CloneSpecCorrect | src/nuts.js:447-483 | a copy represents the same term. Its function and application nodes are exactly the new nodes, each reached once. Its childless nodes are the original's, in order. A childless node is returned itself |
| Cloning.CloneSpecClosed | src/nuts.js:447-483 | copying stores no reference outside the heap |
| Substitution.SubstituteArg | src/nuts.js:488-528 | applying a function node rewrites its body into the substitution of the argument for its variable. Only the function's and the argument's nodes are written. A body without the variable is untouched. Otherwise the argument's nodes become part of the body, the argument node itself sits at the first occurrence of the variable in depth-first order (`FirstPath`), and all other nodes of the result are new |
| Substitution.Advance | src/nuts.js:490-514 | one round of the walk keeps the walk's invariant and strictly lowers its measure |
| Substitution.Fill | src/nuts.js:499-508 | the first variable of the function receives the argument node itself and every later one a fresh copy |
| SubstitutionWalk.FirstPathFound | src/nuts.js:499-508 | the walk's first occurrence (depth first, function side before argument side) exists exactly when the variable occurs, and it is an occurrence of the variable |
| SubstitutionWalk.FirstOfWalk | src/nuts.js:490-508 | a variable the walk reaches while every occurrence is still ahead of it is the first occurrence: the one that receives the argument node itself |
| Substitution.Backtrack | src/nuts.js:515-526 | the pop loop leaves every finished function and moves to the argument side of the innermost open application, or ends the walk |
| HeapPaths.WriteAt | src/nuts.js:635 | writing a node into its parent's field at a path replaces the subterm at that path, and the nodes of the tree change by exactly the replaced and the written nodes |
| Machine.Look | src/nuts.js:612-621 | the current node is an application whose two sides are disjoint trees of the subterm's two sides |
| Machine.Descend | src/nuts.js:614-627 | pushing the current node and its key and moving into an application side keeps stack, keys and current on the path |
| Machine.Splice | src/nuts.js:633-639 | writing an application result into the parent's field keeps it current at the same path |
| Machine.Pop | src/nuts.js:688-691 | writing a result into the popped parent makes the parent current one level up |
| Machine.Beta | src/nuts.js:630-632 | after `substituteArg` the function's body is a tree of the substituted term, disjoint from the rest of the program |
| Reduction.Apply | src/nuts.js:630-632 | `substituteArg(func, arg); result = func.body` gives a tree of the substituted body; only the current subtree is written |
| Reduction.SpliceIn | src/nuts.js:633-639 | an application result replaces the current one, as the new root when the stack is empty, and stays current |
| Reduction.WriteBack | src/nuts.js:688-691 | a finished result replaces the subterm at the path, and the parent becomes current |
| Numerals.ToChurch | src/nuts.js:589-602 | `toChurch(n)` builds a tree of the numeral n from new nodes only |
| Numerals.Prepare | src/nuts.js:531-537 | the decoder's graph is `((church increment) 0)` over the numeral's own nodes and new ones |
| Numerals.NumAdvance | src/nuts.js:541-586 | one turn of the decoder loop is the step `NumStep`: descend, beta-reduce, increment, or stop with a number |
| Numerals.ToNumber | src/nuts.js:530-587 | the imperative `toNumber` gives `Decode(t, fuel)` and writes only inside the numeral |
| Numerals.NumRunMore | src/nuts.js:541-586 | a decoding that finishes within some number of turns gives the same answer with more turns |
| Numerals.ChainRun | src/nuts.js:573-577 | k increments of a native integer v reduce to v+k in 2k-1 turns |
| Numerals.DecodeChurch | src/nuts.js:530-587 | `toNumber` of the numeral n returns n, given 2n+3 turns |
| Numerals.DecodeLeaf | src/nuts.js:578-579 | a childless term is not a numeral: `toNumber` returns NaN |
| Execution.Settle | src/nuts.js:688-695 | a finished result goes into the parent, which becomes current, or becomes the root and ends the program |
| Execution.ExecStep | src/nuts.js:611-696 | a step keeps the current application at an application-only path, and a halt happens only at the root with a value that is not an application |
| Execution.ExecFaults | src/nuts.js:657-686 | "the argument was not null" exactly when `putN`, `get` or `random` is applied to something other than null. "null is not a function" exactly when the head is not a function or builtin |
| Execution.PutChurch | src/nuts.js:642-655 | `put` of the numeral k gives `putN(k)` in place of the application and touches no register |
| Execution.GetChurch | src/nuts.js:666-676 | `get` of null reports "program aborted" exactly when it is idle and the input has run out; otherwise it gives the numeral of the byte `get_` yields |
| Execution.ExecKeepsRunnable | src/nuts.js:611-696 | from a closed program with no NaN count, no step reaches `put_(NaN)`, and the program stays closed with no NaN count. A step can still print a code point above 0x10FFFF, where the source raises (see Left out) |
| Execution.LoadRunnable | src/nuts.js:259-440 | every parsed program can be run |
| Execution.RunKeepsRunnable | src/nuts.js:788-811 | `run` of a runnable program never reaches `put_(NaN)`, and the program stays runnable. Code points above 0x10FFFF are printed, where the source raises (see Left out) |
| Runtime.Build | src/nuts.js:259-440 | the graph of a parsed program is a tree made only of new nodes |
| Runtime.ShowsEmit | src/nuts.js:703-761 | `dump` of a coherent state prints the program with the current application bracketed |
| Runtime.ExecAt | src/nuts.js:611-696 | `exec` on the graph does what `ExecStep` says: the same outcome, the same registers, and a graph, stack, keys and current that match the new program |
| Runtime.Enter | src/nuts.js:614-627 | moving into an application side keeps the state coherent one level deeper |
| Runtime.NullArgument | src/nuts.js:658 | the argument test succeeds exactly when the argument is null |
| Runtime.Beta | src/nuts.js:630-641 | the function case of `exec` agrees with `ExecStep` |
| Runtime.PutNumber | src/nuts.js:642-655 | the `put` case of `exec` agrees with `ExecStep`, including the NaN write and the decoder running out of turns |
| Runtime.PutResult | src/nuts.js:644-654 | a NaN count reports "the argument was not a Church numeral" with `putN(NaN)` written in and `current` left detached; any other count settles |
| Runtime.Fail | src/nuts.js:646-650 | the NaN `putN` replaces the application, and `current` is no longer in the tree |
| Runtime.PutByte | src/nuts.js:657-665 | the `putN` case of `exec` agrees with `ExecStep` and changes the registers as `put_` does |
| Runtime.GetByte | src/nuts.js:666-676 | the `get` case of `exec` agrees with `ExecStep` and changes the registers as `get_` does |
| Runtime.Draw | src/nuts.js:677-682 | the `random` case of `exec` agrees with `ExecStep` |
| Runtime.Settled | src/nuts.js:688-695 | writing a finished result back leaves the state coherent with `Settle` |
| Runtime.Runtime.constructor | src/nuts.js:238-241 | no program, no current application, empty stack and keys, idle codec |
| Runtime.Runtime.Load | src/nuts.js:771-780 | a syntax error changes nothing and is returned. Otherwise the parsed program becomes the root, and becomes current only if it is an application. Stack, keys and (for a non-application) `current` are untouched |
| Runtime.Runtime.Ended | src/nuts.js:817-819 | true exactly when there is no current application |
| Runtime.Runtime.Unload | src/nuts.js:833-837 | root and current become null, the stack is emptied, the keys are kept, and the codec registers become 0 |
| Runtime.Runtime.DumpProgram | src/nuts.js:703-761 | `dump()` prints the program with the current application bracketed |
| Runtime.Runtime.Exec | src/nuts.js:611-696 | `exec()` returns the outcome of `ExecStep` and leaves the program, position and registers it gives |
| Runtime.Runtime.Report | src/nuts.js:792-796 | an error returns the message with the dump of the program, then unloads |
| Runtime.Runtime.Advance | src/nuts.js:790-798 | one round of `run` either ends with the status `RunFrom` gives, or goes on with one step fewer, keeping the state valid |
| Runtime.Runtime.Run | src/nuts.js:788-811 | `run(step)` ends with the status, program, position and registers of `RunFrom`; after an error the runtime is unloaded |

## Left out

- Asynchrony: `env.getChar` is an input sequence given up front, `env.randByte` a byte parameter per step, and `env.putChar` an output sequence.
- `env.sleep` and its abort between steps are not modelled.
- The `do_dump` flags, `env.log` and the "syntax error"/"runtime error" message formats are left out. `DumpProgram` and the status `Crashed` carry the text they would print.
- `put_` of a NaN count throws in JavaScript. The model records only that the call raised (`Thrown`, `Raised`, `Threw`). It does not model the register state after the throw.
- `Execution.ExecStep`: above 0x10FFFF the model prints the code point where the source raises a RangeError. `put_` assembles such code points from F4 followed by 90 or more, and from the lead bytes F5 to F7, and `String.fromCodePoint` refuses them. `Utf8.PutStep` and `Runtime.Runtime.Exec` do the same as `ExecStep`.
- `Execution.ExecKeepsRunnable` and `Execution.RunKeepsRunnable` say that `put_(NaN)` is never reached, not that no step raises, because the RangeError above 0x10FFFF is not modelled.
- `Numerals.ToNumber`: the decoder loop may never finish on a non-numeral. It is given a number of turns (`fuel`), and running out is reported as `Unfinished` instead of looping forever.
- `Runtime.Runtime.Run`: `run()` with its default of `Infinity` is a step count of 0 or less, and the loop is bounded by a `budget` of `exec` calls. Running out of budget is the status `OutOfBudget`.
- `Numerals.ToChurch` allocates the chain of applications from the innermost one outwards. The source builds it from the outside in. The resulting graph is the same.
- `Cloning.Clone` allocates each node when it is complete, keeping half-built application nodes as stack values, so no partially filled object is ever visible.
- `Runtime.Runtime.Load`: the parser builds a term value, and `Runtime.Build` then allocates its graph. The source allocates as it parses.
- `Runtime.Runtime.Load` is proved to leave a valid state only when no half-run program is replaced. A load over a running program keeps the old stack and `current`, and the model does not describe that state.
- `Substitution.SubstituteArg`: the frame says only that the function's and the argument's nodes may be written. The argument's nodes are in fact never written, but that is not stated.
- `Dump.Decimal` prints counts in plain decimal; JavaScript's exponent form for very large numbers is not modelled.
- `dump()` with no program (a null root) throws in the source; `Runtime.Runtime.DumpProgram` requires a loaded program.
- `Runtime.Runtime.Exec` is specified only from a valid state with a current application. After the `put` NaN error, `current` is left on a detached node, and a further `exec` is not modelled.
- `Runtime.Runtime.Exec` does not describe the state after a step that raised or whose decoder ran out of turns (`Raised`, `Looping`).
- Integer width: codes, counts and bytes are unbounded naturals. Every value the source shifts stays below 2^21, so no 32-bit wrap-around can occur.

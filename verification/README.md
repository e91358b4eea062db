# A Dafny model of the lenar interpreter core

lenar is a small call-based scripting language. Its interpreter is written
in Rust, in a single crate file `src/lib.rs`. This project models the
interpreter's core as pure Dafny functions and proves properties of it. The
core is made of:

- the **parser**. It scans the source text character by character and builds
  an arena of `ParserObject` nodes (blocks, `let`s, calls, literals,
  variable and property references, `fn` literals, `if`s). A stack of open
  blocks says where each new node goes.
- the **value model**. This is `LenarValue` with its `PartialEq` and
  `Display` impls, the `as_*` accessors and `set_integer`.
- the **scope tree**. Each `Scope` has its variables and its child scopes,
  which are addressed by a path of ids. `get_variable`,
  `get_variable_by_path` and `get_function` ask the innermost scope on the
  path first. `define_variable`, `create_scope` and `drop_scope` change the
  tree.
- the **evaluator**. `evaluate_object` handles every node kind. It uses the
  pure builtins of `setup_globals`: `print`, `println`, `isEqual`, `list`,
  `iter`, `Ok`, `Err`, `isOk`, `unwrap`, `unwrapErr`, `ref`, `add`,
  `toString`, `openFile`, `sleep`, `wait`, `thread` (only when reached
  through an alias) and the `Lenar` instance with its `version` property.

The files are:

- `common.dfy` (module `Common`): `Option`, bytes, ASCII, decimal digits and
  UTF-8 well-formedness.
- `values.dfy` (module `Values`): the values, their equality, refs and result
  enums.
- `parser.dfy` (module `Parser`): the parser, and the scanner lemmas about
  string literals and `=`.
- `parser_examples.dfy` (module `ParserExamples`): a concrete parse worked
  through step by step.
- `scopes.dfy` (module `Scopes`): the scope tree and the global bindings.
- `builtins.dfy` (module `Builtins`): the builtins that only compute a value.
- `render.dfy` (module `Render`): `Display`, and the bytes `print` writes.
- `eval.dfy` (module `Evaluator`): `evaluate_object`, the calls and the
  builtins that call back into the program.
- `semantics.dfy` (module `Semantics`): properties that relate several
  evaluation steps.

The model works as follows:

- **Objects shared through `Rc<RefCell<..>>`.** `Ref` cells are indices into
  a heap of cells. Function objects carry an identity. A set of *active*
  identities stands for the functions whose `RefCell` is mutably borrowed
  at the moment. Calling one of them is the source's `BorrowMutError`
  panic (`borrow_mut`). Printing one is its `BorrowError` panic, because
  `Display` takes `borrow()`.
- **Halts.** An evaluation either goes on (`Next`, with its result, scope
  and heap) or halts. It halts as `Panicked` for a Rust panic. These are
  the panics the model has:
  - an `unwrap` of a missing arena key;
  - `var_path.next().unwrap()` on an empty property path;
  - `args.remove(0)` with too few arguments;
  - `args[0]` on an empty argument list (`toString`, `openFile`);
  - in `openFile`, `as_bytes().unwrap()` on a value that is not bytes and
    `from_utf8(..).unwrap()` on bytes that are not UTF-8;
  - the slab lookup of a file or thread id (`toString`, `iter`, `wait`
    on a number; no such id exists in a run that goes on);
  - `Display` of a list, and `from_utf8(..).unwrap()` when printing bytes
    that are not UTF-8;
  - the borrow conflicts above, and `add(r, r)`.

  It halts as `OutOfFuel` when the evaluation budget runs out. It halts as
  `Unmodelled` for threads and files.
- **Bytes written to standard output** accumulate in the heap.

Behaviour of the code worth knowing:

- `add(r, k)` stores `k` in the integer `r` leads to; it does not add `k`
  to it. Two `add(r, 5)` calls leave `5`, not `10` (`Builtins.AddAssigns`).
- `isEqual` is reflexive only on values that contain no function,
  instance, byte, enum or ref. A list holding a function is not equal to
  itself (`Values.EqReflexiveIffPlain`).
- `iter` passes the pair `(item, index)` for each list item and a single
  `Byte` for each byte, never the item alone. It stops at the first error
  the callback returns.
- `drop_scope(path + [id], id)`, as the evaluator calls it, looks for a
  child `id` inside the child `id` itself. It removes nothing, so the child
  scopes of finished blocks stay in the tree (`Evaluator.NestedDropIsNoOp`).
- `fn(..) { .. }` without a capture list puts the body into the capture
  block, as the parser is written.

## Model

| member | source | states |
|---|---|---|
| Common.ParseUsize | src/lib.rs:401-416 | `str::parse::<usize>` of a number token: a non-empty run of digits, optionally after one `+`, is accepted with its value exactly when that value is at most 2^64-1 (leading zeros allowed); empty input and anything else give `None` |
| Common.DecimalRoundTrip | src/lib.rs:551-571 | the decimal text a `Usize` is displayed as parses back to the same number |
| Common.EncodeUtf8Valid | src/lib.rs:551-571 | the UTF-8 encoding of any Rust string is well-formed UTF-8 |
| Values.LenarProp | src/lib.rs:752-758 | `LenarGlobal::get_prop` gives a non-`Void` value exactly for `version` |
| Values.EqReflexiveIffPlain | src/lib.rs:573-588 | a value equals itself exactly when it contains no function, instance, byte, enum or ref |
| Values.EqSound | src/lib.rs:573-588 | values that `PartialEq` calls equal are identical and contain no handle |
| Values.EqSymmetric | src/lib.rs:573-588 | `PartialEq` is symmetric |
| Values.EqTransitive | src/lib.rs:573-588 | `PartialEq` is transitive |
| Values.HandlesNeverEqual | src/lib.rs:573-588 | a function, instance, byte, enum or ref is unequal to every value, itself included |
| Render.AsBytesIsWritten | src/lib.rs:595-601 | the bytes `as_bytes` gives for a value are exactly the bytes `print` writes for it |
| Values.AsInteger | src/lib.rs:603-609 | `as_integer` is the number of a `Usize`, the number of a `Usize` a ref's cell holds, and whenever it succeeds the number the ref chain ends in; it fails on any value that is neither a `Usize` nor a ref |
| Values.AsFunc | src/lib.rs:611-617 | `as_func` is the function of a `Function`, the function a ref's cell holds (a ref to a function is callable), and whenever it succeeds the function the ref chain ends in; it fails on any value that is neither a function nor a ref |
| Values.SetIntegerInCell | src/lib.rs:619-625 | `set_integer` through a ref: when the chain ends in a `Usize`, reading the chain afterwards gives the new integer; otherwise nothing changes. Only cells on the chain that held a `Usize` are written |
| Values.VariantRoundTrip | src/lib.rs:520-536 | an enum made by `new_with_variant(t, v)` gives `v` from `peek_variant(t)` and nothing for any other tag |
| Parser.FindFrom | src/lib.rs:73-75 | `slice_until` stops at the first occurrence of the character, or at the end |
| Parser.DelimEnd | src/lib.rs:78-85 | `slice_until_delimeter` stops at the first of `, ; ) } ] space newline`, or at the end |
| Parser.Split | src/lib.rs:384-400 | splitting a property path at `.` gives segments free of `.` that join back to the path |
| Parser.StepPunctuation | src/lib.rs:180-267 | `=` panics exactly when the previous action was not a `let`, and that is the only panic among the punctuation characters |
| Parser.StepPunctuationStack | src/lib.rs:180-267 | `)` and `]` close the current block, `;` closes it only when it is a `let` value block, `}` closes it and then a function or `if` body directly around it, and none of them changes the arena; `{` appends an empty block to the current one and opens it; `[` changes nothing |
| Parser.StepLetAppends | src/lib.rs:270-292 | a `let` appends an empty value block and a `VarDef` naming it with the text up to the next space, makes the `VarDef` the current block's newest child, opens the value block, and keeps every other node |
| Parser.StepInString | src/lib.rs:294-297 | inside a string any character other than `"` only extends the string |
| Parser.StepCallAppends | src/lib.rs:301-383 | `if(` appends a condition block, a body block and an `IfDef`; `fn(` an argument, body and capture block and an `FnDef`; any other `name(` an argument block and a `FunctionCall`. The statement becomes the current block's newest child, the blocks open in the source's order, and every other node is kept |
| Parser.StepWord | src/lib.rs:384-431 | a property path, number or variable token ends at the next delimiter |
| Parser.StepWordAppends | src/lib.rs:384-431 | a dotted word appends a `PropertyRef` of its segments, a word starting with a digit a `NumberVal` of its value when it parses as a `usize` and nothing when it does not, and any other word a `VarRef`; each becomes the current block's newest child and no block opens |
| Parser.Step | src/lib.rs:170-431 | one character of the loop. An empty block stack is the only non-syntax panic; `=` outside a string with an open block panics exactly when no `let` preceded it |
| Parser.Run | src/lib.rs:145-435 | the loop keeps every arena key valid and only appends to the blocks on the stack |
| Parser.Parse | src/lib.rs:145-435 | parsing only appends: earlier nodes are kept and the root block's children grow by appending |
| Parser.New | src/lib.rs:121-137 | a new parser's root block is node 0 and the arena is well formed |
| Parser.StringLiteral | src/lib.rs:206-230 | a closed string literal appends exactly one `BytesVal` holding its text to the current block |
| Parser.EqualsOutsideLet | src/lib.rs:187-194 | `=` not preceded by a `let` ends the parse with the syntax error |
| Parser.EqualsAfterLet | src/lib.rs:187-194 | `=` right after a `let` is consumed and recorded as the operator |
| ParserExamples.EqExample | src/lib.rs:187-194 | `x = 1` fails with the `=` syntax error |
| Scopes.SetupGlobals | src/lib.rs:1212-1289 | the globals bind exactly the 17 builtin names and `Lenar`, each builtin to its function and `Lenar` to its instance |
| Scopes.DefineVariable | src/lib.rs:1345-1353 | `define_variable` writes the name into the scope at the path and changes no other scope's variables or children |
| Scopes.CreateScope | src/lib.rs:1421-1426 | `create_scope` adds an empty child under the path; the variables there, the other children and every scope off the path are unchanged |
| Scopes.DropScope | src/lib.rs:1429-1432 | `drop_scope` removes the child id under the path; the variables there, the other children and every scope off the path are unchanged |
| Scopes.DropAbsent | src/lib.rs:1429-1432 | dropping an id that is not there changes nothing |
| Scopes.GetVariableIsInnermost | src/lib.rs:1356-1388 | `get_variable` gives the innermost non-`Void` binding on the path; when there is none, the root scope's own binding (possibly `Void`), else `VariableNotFound` |
| Scopes.GetVariableByPathIsInnermost | src/lib.rs:1390-1418 | `get_variable_by_path` gives the innermost non-`Void` instance property on the path, only the first segment naming the holder |
| Scopes.GetFunctionIsInnermost | src/lib.rs:1304-1323 | `get_function` gives the innermost callable binding, skipping bindings that are not callable |
| Scopes.LookupReadsChain | src/lib.rs:1356-1388 | a lookup reads only the variables of the scopes on its path |
| Builtins.IsEqual | src/lib.rs:858-869 | `isEqual` is `true` exactly when there are two arguments, they are identical and contain no handle; with fewer than two it is `false` |
| Builtins.IsOk | src/lib.rs:1083-1097 | `isOk` is `true` exactly for an enum tagged `Ok` |
| Builtins.Unwrap | src/lib.rs:1108-1122 | `unwrap` gives the payload of `Ok`, a `WrongValue("Ok")` error for any other enum, and `Void` for a value that is not an enum |
| Builtins.UnwrapErr | src/lib.rs:1133-1147 | `unwrapErr` mirrors `unwrap` for `Err` |
| Builtins.ResultLaws | src/lib.rs:1039-1147 | `unwrap` undoes `Ok`, `unwrapErr` undoes `Err`, each rejects the other tag, and `isOk` tells them apart |
| Builtins.IsOkIffUnwrapSucceeds | src/lib.rs:1083-1122 | on an enum, `isOk` holds exactly when `unwrap` succeeds |
| Builtins.RefNew | src/lib.rs:1158-1166 | `ref(v)` is a new cell holding `v`, and dereferencing it reads `v` |
| Builtins.Add | src/lib.rs:1177-1205 | `add` panics exactly when its ref is dangling or the increment's ref chain reaches the borrowed cell. It writes only cells on the target's chain, assigns to a `Usize` cell, and does nothing for a target that is not a ref |
| Builtins.AddAssigns | src/lib.rs:1177-1205 | two `add`s through one ref leave the second value, not the sum |
| Builtins.AddThroughAlias | src/lib.rs:1177-1205 | `add` through a ref to a ref writes the inner cell, which every holder then reads |
| Builtins.AddSelfPanics | src/lib.rs:1177-1205 | `add(r, r)` is a borrow conflict |
| Render.Display | src/lib.rs:551-571 | `Display` output is UTF-8; a list panics, bytes and a byte panic exactly when they are not UTF-8, and a function panics exactly when it is borrowed |
| Render.PrintLnIsPrintOfNewline | src/lib.rs:835-846 | `println(..)` writes exactly what `print` writes with a further `"\n"` argument, and panics exactly when it does |
| Render.WriteAgreesWithDisplay | src/lib.rs:770-809 | where `to_string()` succeeds, `PrintFunc::write` writes exactly those bytes |
| Render.WriteListConcat | src/lib.rs:770-809 | a list is written as its elements one after another |
| Render.PrintedNumberReadsBack | src/lib.rs:770-809 | a printed number is its ASCII decimal digits, which parse back to it |
| Evaluator.Eval | src/lib.rs:1436-1630 | evaluating a node changes no scope off its path, only adds child ids above the last block id there, only adds cells and function ids, and only appends output |
| Evaluator.EvalNested | src/lib.rs:1443-1473 | a nested block runs in a fresh child scope; the variables of every scope from the root to the enclosing path are unchanged, and nothing off the path changes |
| Evaluator.NestedDropIsNoOp | src/lib.rs:1429-1473 | the evaluator's `drop_scope(path + [id], id)` changes nothing |
| Evaluator.BindParamsBinds | src/lib.rs:1579-1588 | parameters bind exactly when there is an argument for each. They add the parameter names, each bound to the argument at its position (the last, for a repeated name), and leave other names alone |
| Evaluator.CaptureAllCopies | src/lib.rs:1539-1557 | capturing gives exactly the `VarRef` names of the block, each a new cell holding the name's value where the closure is defined; a failure names an unbound `VarRef` |
| Evaluator.EvalFnDef | src/lib.rs:1534-1611 | a `fn` literal leaves the scope alone and gets a fresh identity, its parameter block and its body |
| Evaluator.ClosureScopeDefined | src/lib.rs:1579-1588 | a closure call has its scope exactly when every parameter key is in the arena and there is an argument for each parameter; otherwise it panics |
| Evaluator.ClosureEnvironment | src/lib.rs:1567-1600 | a closure's body runs in a root scope without children whose names are exactly its captures, its parameters and the globals of a fresh `setup_globals`; nothing of the caller's scope is visible |
| Evaluator.ClosureBindings | src/lib.rs:1567-1600 | in a closure call, captures win over parameters and parameters over globals: each name holds its cell, its argument or its global value |
| Evaluator.CallFunction | src/lib.rs:1326-1342 | calling a name that resolves to no function is a `VariableNotFound` error and changes nothing |
| Evaluator.Invoke | src/lib.rs:1326-1342 | calling a function that is already borrowed panics |
| Semantics.IterOverList | src/lib.rs:908-952 | `iter(list(a, ..), f)` calls `f` with `(a_k, k)` for each argument of `list`, in order, with `f` borrowed; a borrowed `f` panics |
| Semantics.IterOverBytes | src/lib.rs:908-952 | `iter` over a byte string calls the callback with one `Byte` for each byte, in order |
| Evaluator.CallEach | src/lib.rs:908-952 | an `iter` loop that succeeds gives `Void` |
| Evaluator.CallIter | src/lib.rs:908-952 | `iter` with a callback that is not a function does nothing |
| Evaluator.Evaluate | src/lib.rs:476-487 | running a program from the root block only adds to the heap (the entry point; what evaluation does is stated by `Evaluator.Eval` and the `Semantics` lemmas) |
| Semantics.NestedBlockIsolation | src/lib.rs:1443-1473 | after a nested block, every name means at the enclosing path what it meant before |
| Semantics.BlockResultIsLastChild | src/lib.rs:1443-1473 | an empty block is `Void`; otherwise the earlier children run in turn with their results (errors too) dropped, the k-th nested block getting id `Base(path) + k`, and the block's outcome is the last child's, run in the state they left |
| Semantics.FnDefCaptures | src/lib.rs:1539-1557 | a `fn` literal's captures are the `VarRef`s of its capture block, each a new cell holding the value the name has at definition; the literal fails exactly when one of them is unbound, with the `VariableNotFound` of the first unbound one in block order |
| Semantics.IfRunsBodyOnlyOnTrue | src/lib.rs:1612-1627 | the body runs exactly when the condition is `true`, otherwise the result is `Void`; the condition's errors and halts pass through |
| Semantics.CallEachError | src/lib.rs:908-952 | `iter` stops at the first error: every call before it replied `Ok` and the failing call ran from the heap they left; when every call replies `Ok` the result is `Void` with the last call's heap |
| Semantics.LenarVersion | src/lib.rs:752-758 | `Lenar.version` is `"1.0.0"`, also with more segments after it |
| Semantics.LenarOtherIsVoid | src/lib.rs:630-637 | `Lenar`, and any property of it other than `version`, read as `Void` |

## Left out

- Threads: the `thread` call by name (src/lib.rs:1485-1510) spawns an OS thread that runs on a fresh scope. It halts as `Unmodelled`. The `thread_locks` table and `wait` on a real handle are left out too.
- Files: `openFile` and reading a file with `toString` or `iter` need the file system. A successful `openFile` halts as `Unmodelled`. No file can be open in a run that goes on, so `toString` and `iter` on a file id panic, as they do for an unknown id.
- `sleep` returns `Void` without the delay.
- Host extension traits (`RuntimeFunction` and `RuntimeInstance` implemented outside the crate): only the built-in implementations are modelled.
- `main.rs`, the examples and the benches: they are not part of the core.
- Parser.Run: the input must be ASCII, so a character index is also a byte offset. Non-ASCII text is not modelled.
- Common.ParseUsize: `usize` is taken to be 64 bits wide.
- Values.Deref: a ref chain is followed for at most as many steps as there are cells; acyclicity of chains is not proved.
- Evaluator.Eval: evaluation takes a fuel budget; a run that exhausts it halts as `OutOfFuel` instead of running on (or overflowing the Rust stack).
- Evaluator.Eval: bytes written before a panic are not kept in the halted outcome.
- Parser.Parse: that parsing two pieces one after the other equals parsing their concatenation is not proved; only that a parse appends to the arena.

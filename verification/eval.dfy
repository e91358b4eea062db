/** `evaluate_object` and the function calls it makes: a tree-walking
    evaluator over the parser's arena, threading the scope tree, the store of
    shared cells, the stream of bytes written to standard output, and the
    set of function objects that are currently mutably borrowed.

    The evaluator is a family of mutually recursive functions bounded by
    `fuel`; a run that needs more stops with `OutOfFuel`. */
module Evaluator {
  import opened Common
  import opened Values
  import opened Scopes
  import opened Builtins
  import opened Render
  import P = Parser

  /** The mutable world apart from the scope tree: the contents of every
      `Rc<RefCell<LenarValue>>` created so far, the identity the next
      function object will get, and the bytes written to standard output. */
  datatype Heap = Heap(cells: seq<Value>, nextId: nat, out: seq<byte>)

  /** Why a run stopped without a result: a Rust panic, the fuel bound, or
      an effect the model does not follow (spawning a thread, opening a
      file). */
  datatype Halt = Panicked | OutOfFuel | Unmodelled

  datatype Outcome = Next(res: LResult, scope: Scope, heap: Heap) | Halted(why: Halt)

  /** What a call of a function object gives back (the callee's own scope
      does not outlive the call). */
  datatype Reply = Replied(res: LResult, heap: Heap) | Stopped(why: Halt)

  /** Evaluating the arguments of a call, with `?` on each. */
  datatype Args =
    | Evaluated(vals: seq<Value>, scope: Scope, heap: Heap)
    | ArgFailed(error: LenarError, scope: Scope, heap: Heap)
    | ArgsHalted(why: Halt)

  /** Building a closure's capture map. */
  datatype Captures =
    | Captured(caps: map<string, nat>, cells: seq<Value>)
    | CaptureFailed(error: LenarError, cells: seq<Value>)

  // ---------------------------------------------------------------------
  // What evaluation keeps

  /** `scope_path.last().unwrap_or(0)`: where nested block ids start. */
  function Base(path: seq<nat>): nat {
    if |path| == 0 then 0 else path[|path| - 1]
  }

  /** Evaluating at `path` changes nothing outside the subtree at `path`,
      and the only child scopes it adds at `path` have ids above
      `Base(path)`. */
  ghost predicate Kept(s: Scope, t: Scope, path: seq<nat>) {
    HasPath(s, path) && HasPath(t, path) &&
    (forall q :: !PathPrefix(path, q) ==> ShapeAt(t, q) == ShapeAt(s, q)) &&
    (forall id :: id in At(t, path).scopes && id !in At(s, path).scopes ==> id > Base(path))
  }

  /** Cells are only ever added, function identities only handed out once,
      and output only appended. */
  predicate Grows(h: Heap, h': Heap) {
    |h.cells| <= |h'.cells| && h.nextId <= h'.nextId && P.IsPrefix(h.out, h'.out)
  }

  lemma KeptRefl(s: Scope, path: seq<nat>)
    requires HasPath(s, path)
    ensures Kept(s, s, path)
  {
  }

  lemma KeptTrans(s1: Scope, s2: Scope, s3: Scope, path: seq<nat>)
    requires Kept(s1, s2, path) && Kept(s2, s3, path)
    ensures Kept(s1, s3, path)
  {
  }

  lemma GrowsTrans(h1: Heap, h2: Heap, h3: Heap)
    requires Grows(h1, h2) && Grows(h2, h3)
    ensures Grows(h1, h3)
  {
    assert h3.out[..|h1.out|] == h2.out[..|h2.out|][..|h1.out|];
  }

  lemma KeptDefine(s: Scope, path: seq<nat>, name: string, v: Value)
    requires HasPath(s, path)
    ensures Kept(s, DefineVariable(s, path, name, v), path)
  {
  }

  lemma HasPathPrefix(s: Scope, path: seq<nat>, id: nat)
    requires HasPath(s, path + [id])
    ensures HasPath(s, path) && id in At(s, path).scopes
  {
    DescendAppend(s, path, [id]);
  }

  /** A nested block: create child `id`, evaluate under it, drop it. What
      the outer path sees is the new child id and nothing else. */
  lemma KeptNested(s: Scope, path: seq<nat>, id: nat, t: Scope)
    requires HasPath(s, path) && id > Base(path)
    requires Kept(CreateScope(s, path, id), t, path + [id])
    ensures Kept(s, DropScope(t, path + [id], id), path)
  {
    var s1 := CreateScope(s, path, id);
    var child := path + [id];
    HasPathPrefix(t, path, id);
    assert !PathPrefix(child, path);
    assert ShapeAt(t, path) == ShapeAt(s1, path);
    var t' := DropScope(t, child, id);
    assert forall q :: !PathPrefix(path, q) ==> !PathPrefix(child, q);
    assert Kept(t, t', path) by {
      assert !PathPrefix(child, path);
      assert ShapeAt(t', path) == ShapeAt(t, path);
      HasPathPrefix(t, path, id);
    }
    assert Kept(s, s1, path);
    assert Kept(s1, t, path) by {
      forall q | !PathPrefix(path, q) ensures ShapeAt(t, q) == ShapeAt(s1, q) {
        assert !PathPrefix(child, q);
      }
    }
    KeptTrans(s, s1, t, path);
    KeptTrans(s, t, t', path);
  }

  /** `drop_scope` after a nested block removes nothing: it is asked to
      remove child `id` of the nested scope itself (the shadowed
      `scope_path`), and that scope only ever gets children above `id`. */
  lemma NestedDropIsNoOp(s: Scope, path: seq<nat>, id: nat, t: Scope)
    requires HasPath(s, path)
    requires Kept(CreateScope(s, path, id), t, path + [id])
    ensures DropScope(t, path + [id], id) == t
  {
    var s1 := CreateScope(s, path, id);
    assert At(s1, path + [id]) == EMPTY;
    assert Base(path + [id]) == id;
    DropAbsent(t, path + [id], id);
  }

  /** After a nested block the variables of every scope on the chain from
      the root to `path` are as they were: the block's `let`s went into the
      child scope, which is not on that chain. */
  lemma NestedKeepsChain(s: Scope, path: seq<nat>, id: nat, t: Scope)
    requires HasPath(s, path)
    requires Kept(CreateScope(s, path, id), t, path + [id])
    ensures forall j :: 0 <= j <= |path| ==> VarsAt(DropScope(t, path + [id], id), path[..j]) == VarsAt(s, path[..j])
  {
    var s1 := CreateScope(s, path, id);
    NestedDropIsNoOp(s, path, id, t);
    HasPathPrefix(t, path, id);
    forall j | 0 <= j <= |path| ensures VarsAt(t, path[..j]) == VarsAt(s, path[..j]) {
      assert !PathPrefix(path + [id], path[..j]);
      assert ShapeAt(t, path[..j]) == ShapeAt(s1, path[..j]);
      if j < |path| {
        assert !PathPrefix(path, path[..j]);
        assert ShapeAt(s1, path[..j]) == ShapeAt(s, path[..j]);
      } else {
        assert path[..j] == path;
      }
    }
  }

  // ---------------------------------------------------------------------
  // Small pieces of the evaluator

  /** The argument keys of a call: the children of its arguments block. */
  function ChildKeys(n: P.Node): seq<nat> {
    if n.Block? then n.objects else []
  }

  /** The captured cells of a closure, as the variables its call defines. */
  function CaptureVars(caps: map<string, nat>): (m: map<string, Value>)
    ensures m.Keys == caps.Keys
    ensures forall n :: n in caps ==> m[n] == Ref(caps[n])
  {
    map n | n in caps :: Ref(caps[n])
  }

  /** The parameter names of a closure: the `VarRef` nodes of its
      parameter block, in order. */
  function ParamNames(ar: seq<P.Node>, keys: seq<nat>): (r: seq<string>)
    ensures |r| <= |keys|
  {
    if |keys| == 0 then []
    else if keys[0] < |ar| && ar[keys[0]].VarRef? then [ar[keys[0]].varName] + ParamNames(ar, keys[1..])
    else ParamNames(ar, keys[1..])
  }

  predicate KeysIn(ar: seq<P.Node>, keys: seq<nat>) {
    forall j :: 0 <= j < |keys| ==> keys[j] < |ar|
  }

  /** Occurrence `j` of `names` is its last one. */
  predicate LastOf(names: seq<string>, j: nat)
    requires j < |names|
  {
    forall m :: j < m < |names| ==> names[m] != names[j]
  }

  /** Binds the parameters of a closure, each `VarRef` of the parameter
      block taking the next argument; `None` when an arena key is missing
      or the arguments run out (`args.remove(0)` panics). */
  function BindParams(ar: seq<P.Node>, keys: seq<nat>, args: seq<Value>, vars: map<string, Value>): Option<map<string, Value>>
    decreases |keys|
  {
    if |keys| == 0 then Some(vars)
    else if keys[0] >= |ar| then None
    else match ar[keys[0]]
      case VarRef(name) =>
        if |args| == 0 then None
        else BindParams(ar, keys[1..], args[1..], vars[name := args[0]])
      case _ => BindParams(ar, keys[1..], args, vars)
  }

  /** Parameter binding succeeds exactly when every key is in the arena and
      there is an argument for every parameter; it then adds the parameter
      names and nothing else, a parameter taking the argument at its
      position (the last one, when a name repeats), extra arguments being
      ignored and other names keeping their binding. */
  lemma {:induction false} BindParamsBinds(ar: seq<P.Node>, keys: seq<nat>, args: seq<Value>, vars: map<string, Value>)
    ensures BindParams(ar, keys, args, vars).Some? <==> KeysIn(ar, keys) && |ParamNames(ar, keys)| <= |args|
    ensures BindParams(ar, keys, args, vars).Some? ==> forall n ::
              n in BindParams(ar, keys, args, vars).value <==> n in vars || n in ParamNames(ar, keys)
    ensures BindParams(ar, keys, args, vars).Some? ==> forall n :: n in vars && n !in ParamNames(ar, keys) ==>
              BindParams(ar, keys, args, vars).value[n] == vars[n]
    ensures BindParams(ar, keys, args, vars).Some? ==> forall j ::
              0 <= j < |ParamNames(ar, keys)| && LastOf(ParamNames(ar, keys), j) ==>
              BindParams(ar, keys, args, vars).value[ParamNames(ar, keys)[j]] == args[j]
    decreases |keys|
  {
    if |keys| == 0 {
    } else if keys[0] >= |ar| {
      assert !KeysIn(ar, keys);
    } else if ar[keys[0]].VarRef? {
      var name := ar[keys[0]].varName;
      assert ParamNames(ar, keys) == [name] + ParamNames(ar, keys[1..]);
      if |args| > 0 {
        BindParamsBinds(ar, keys[1..], args[1..], vars[name := args[0]]);
        BindParamsStep(ar, keys, args, vars, BindParams(ar, keys[1..], args[1..], vars[name := args[0]]));
      }
    } else {
      BindParamsBinds(ar, keys[1..], args, vars);
      BindParamsSkip(ar, keys);
    }
  }

  lemma BindParamsSkip(ar: seq<P.Node>, keys: seq<nat>)
    requires |keys| > 0 && keys[0] < |ar| && !ar[keys[0]].VarRef?
    ensures ParamNames(ar, keys) == ParamNames(ar, keys[1..])
    ensures KeysIn(ar, keys) <==> KeysIn(ar, keys[1..])
  {
  }

  lemma BindParamsStep(ar: seq<P.Node>, keys: seq<nat>, args: seq<Value>, vars: map<string, Value>, r: Option<map<string, Value>>)
    requires |keys| > 0 && keys[0] < |ar| && ar[keys[0]].VarRef? && |args| > 0
    requires var name := ar[keys[0]].varName;
             var names' := ParamNames(ar, keys[1..]);
             var vars' := vars[name := args[0]];
             (r.Some? <==> KeysIn(ar, keys[1..]) && |names'| <= |args| - 1) &&
             (r.Some? ==> forall n :: n in r.value <==> n in vars' || n in names') &&
             (r.Some? ==> forall n :: n in vars' && n !in names' ==> r.value[n] == vars'[n]) &&
             (r.Some? ==> forall j :: 0 <= j < |names'| && LastOf(names', j) ==> r.value[names'[j]] == args[1..][j])
    ensures r.Some? <==> KeysIn(ar, keys) && |ParamNames(ar, keys)| <= |args|
    ensures r.Some? ==> forall n :: n in r.value <==> n in vars || n in ParamNames(ar, keys)
    ensures r.Some? ==> forall n :: n in vars && n !in ParamNames(ar, keys) ==> r.value[n] == vars[n]
    ensures r.Some? ==> forall j :: 0 <= j < |ParamNames(ar, keys)| && LastOf(ParamNames(ar, keys), j) ==>
              r.value[ParamNames(ar, keys)[j]] == args[j]
  {
    var name := ar[keys[0]].varName;
    var names' := ParamNames(ar, keys[1..]);
    assert ParamNames(ar, keys) == [name] + names';
    assert KeysIn(ar, keys) <==> KeysIn(ar, keys[1..]);
    if r.Some? {
      BindParamsStepDomain(name, names', args[0], vars, r.value);
      assert name !in names' ==> r.value[name] == args[0] by {
        assert name in vars[name := args[0]];
      }
      assert forall j :: 0 <= j < |names'| && LastOf(names', j) ==> r.value[names'[j]] == args[j + 1] by {
        forall j | 0 <= j < |names'| && LastOf(names', j) ensures r.value[names'[j]] == args[j + 1] {
          assert args[1..][j] == args[j + 1];
        }
      }
      BindParamsStepValues(name, names', args, vars, r.value);
    }
  }

  /** The domain half of `BindParamsStep`, stated on the name lists. */
  lemma BindParamsStepDomain(name: string, names': seq<string>, a: Value, vars: map<string, Value>, m: map<string, Value>)
    requires forall n :: n in m <==> n in vars[name := a] || n in names'
    requires forall n :: n in vars[name := a] && n !in names' ==> m[n] == vars[name := a][n]
    ensures forall n :: n in m <==> n in vars || n in [name] + names'
    ensures forall n :: n in vars && n !in [name] + names' ==> m[n] == vars[n]
  {
    forall n ensures n in [name] + names' <==> n == name || n in names' {
    }
  }

  /** The positional half of `BindParamsStep`, stated on the name lists. */
  lemma BindParamsStepValues(name: string, names': seq<string>, args: seq<Value>, vars: map<string, Value>, m: map<string, Value>)
    requires 0 < 1 + |names'| <= |args|
    requires name !in names' ==> name in m && m[name] == args[0]
    requires forall j :: 0 <= j < |names'| && LastOf(names', j) ==> names'[j] in m && m[names'[j]] == args[j + 1]
    ensures forall j :: 0 <= j < |[name] + names'| && LastOf([name] + names', j) ==>
              ([name] + names')[j] in m && m[([name] + names')[j]] == args[j]
  {
    var names := [name] + names';
    forall j | 0 <= j < |names| && LastOf(names, j) ensures names[j] in m && m[names[j]] == args[j] {
      if j == 0 {
        assert name !in names' by {
          forall k | 0 <= k < |names'| ensures names'[k] != name {
            assert names[k + 1] == names'[k];
          }
        }
      } else {
        assert names[j] == names'[j - 1];
        assert LastOf(names', j - 1) by {
          forall k | j - 1 < k < |names'| ensures names'[k] != names'[j - 1] {
            assert names[k + 1] == names'[k];
          }
        }
      }
    }
  }

  /** A name the capture block captures: one of its `VarRef` nodes. */
  predicate CapturedBy(ar: seq<P.Node>, keys: seq<nat>, name: string) {
    exists j :: 0 <= j < |keys| && keys[j] < |ar| && ar[keys[j]] == P.VarRef(name)
  }

  /** Evaluates the captures of a `fn`: every `VarRef` in the capture block
      is looked up in the defining scope and its value copied into a new
      cell; the first name that is not bound makes the whole definition
      fail. Other nodes of the block, and missing keys, are skipped. */
  function CaptureAll(ar: seq<P.Node>, keys: seq<nat>, scope: Scope, path: seq<nat>,
                      caps: map<string, nat>, cells: seq<Value>): (r: Captures)
    requires HasPath(scope, path)
    ensures |cells| <= |r.cells|
    decreases |keys|
  {
    if |keys| == 0 then Captured(caps, cells)
    else if keys[0] < |ar| && ar[keys[0]].VarRef? then
      match GetVariable(scope, ar[keys[0]].varName, path)
      case Err(e) => CaptureFailed(e, cells)
      case Ok(v) => CaptureAll(ar, keys[1..], scope, path, caps[ar[keys[0]].varName := |cells|], cells + [v])
    else CaptureAll(ar, keys[1..], scope, path, caps, cells)
  }

  /** What capturing promises: the cells only grow; the captured names are
      exactly the `VarRef`s of the block; each captured name refers to a new
      cell holding the value the name had in the defining scope; a failure
      names a `VarRef` of the block that is not bound there. */
  lemma {:induction false} CaptureAllCopies(ar: seq<P.Node>, keys: seq<nat>, scope: Scope, path: seq<nat>,
                                            caps: map<string, nat>, cells: seq<Value>)
    requires HasPath(scope, path)
    requires forall n :: n in caps ==> caps[n] < |cells|
    ensures var r := CaptureAll(ar, keys, scope, path, caps, cells);
      r.cells[..|cells|] == cells &&
      (r.Captured? ==> forall n :: n in r.caps <==> n in caps || CapturedBy(ar, keys, n)) &&
      (r.Captured? ==> forall n :: n in r.caps ==> r.caps[n] < |r.cells|) &&
      (r.Captured? ==> forall n :: n in caps ==> r.caps[n] == caps[n] || r.caps[n] >= |cells|) &&
      (r.Captured? ==> forall n :: n in r.caps && n !in caps ==> r.caps[n] >= |cells|) &&
      (r.Captured? ==> forall n :: n in r.caps && r.caps[n] >= |cells| ==>
         GetVariable(scope, n, path) == Ok(r.cells[r.caps[n]])) &&
      (r.CaptureFailed? ==>
         exists n :: CapturedBy(ar, keys, n) && r.error == VariableNotFound(n) && GetVariable(scope, n, path).Err?)
    decreases |keys|
  {
    var r := CaptureAll(ar, keys, scope, path, caps, cells);
    if |keys| == 0 {
      assert cells[..|cells|] == cells;
    } else {
      var rest := keys[1..];
      CapturesTail(ar, keys);
      if keys[0] < |ar| && ar[keys[0]].VarRef? {
        var name := ar[keys[0]].varName;
        match GetVariable(scope, name, path)
        case Err(e) =>
          assert cells[..|cells|] == cells;
          assert CapturedBy(ar, keys, name);
        case Ok(v) =>
          var caps' := caps[name := |cells|];
          var cells' := cells + [v];
          CaptureAllCopies(ar, rest, scope, path, caps', cells');
          assert r == CaptureAll(ar, rest, scope, path, caps', cells');
          assert r.cells[..|cells|] == r.cells[..|cells'|][..|cells|];
          assert r.cells[|cells|] == r.cells[..|cells'|][|cells|];
      } else {
        CaptureAllCopies(ar, rest, scope, path, caps, cells);
      }
    }
  }

  /** The `j`-th node of the capture block is a `VarRef` to a name that is
      not bound where the closure is defined. */
  predicate UnboundAt(ar: seq<P.Node>, keys: seq<nat>, scope: Scope, path: seq<nat>, j: int)
    requires HasPath(scope, path)
  {
    0 <= j < |keys| && keys[j] < |ar| && ar[keys[j]].VarRef? &&
    GetVariable(scope, ar[keys[j]].varName, path).Err?
  }

  /** The `j`-th node is the first unbound `VarRef` of the capture block. */
  predicate FirstUnbound(ar: seq<P.Node>, keys: seq<nat>, scope: Scope, path: seq<nat>, j: int)
    requires HasPath(scope, path)
  {
    UnboundAt(ar, keys, scope, path, j) && forall m :: 0 <= m < j ==> !UnboundAt(ar, keys, scope, path, m)
  }

  /** Capturing fails exactly when some `VarRef` of the block is unbound,
      and then with the error of the first one, as the `?` inside the loop
      over the block's keys does. */
  lemma {:induction false} CaptureFailsAtFirst(ar: seq<P.Node>, keys: seq<nat>, scope: Scope, path: seq<nat>,
                                               caps: map<string, nat>, cells: seq<Value>)
    requires HasPath(scope, path)
    ensures CaptureAll(ar, keys, scope, path, caps, cells).CaptureFailed? <==>
      exists j :: UnboundAt(ar, keys, scope, path, j)
    ensures forall j :: FirstUnbound(ar, keys, scope, path, j) ==>
      CaptureAll(ar, keys, scope, path, caps, cells).CaptureFailed? &&
      CaptureAll(ar, keys, scope, path, caps, cells).error == VariableNotFound(ar[keys[j]].varName)
    decreases |keys|
  {
    if |keys| > 0 {
      var rest := keys[1..];
      forall j | 1 <= j < |keys|
        ensures UnboundAt(ar, keys, scope, path, j) == UnboundAt(ar, rest, scope, path, j - 1)
      {
        assert keys[j] == rest[j - 1];
      }
      var first := keys[0] < |ar| && ar[keys[0]].VarRef?;
      if first && GetVariable(scope, ar[keys[0]].varName, path).Err? {
        assert UnboundAt(ar, keys, scope, path, 0);
        forall j | FirstUnbound(ar, keys, scope, path, j) ensures j == 0 {
        }
      } else {
        assert !UnboundAt(ar, keys, scope, path, 0);
        var caps' := if first then caps[ar[keys[0]].varName := |cells|] else caps;
        var cells' := if first then cells + [GetVariable(scope, ar[keys[0]].varName, path).value] else cells;
        assert CaptureAll(ar, keys, scope, path, caps, cells) == CaptureAll(ar, rest, scope, path, caps', cells');
        CaptureFailsAtFirst(ar, rest, scope, path, caps', cells');
        if exists j :: UnboundAt(ar, keys, scope, path, j) {
          var j :| UnboundAt(ar, keys, scope, path, j);
          assert UnboundAt(ar, rest, scope, path, j - 1);
        }
        if exists j :: UnboundAt(ar, rest, scope, path, j) {
          var j :| UnboundAt(ar, rest, scope, path, j);
          assert UnboundAt(ar, keys, scope, path, j + 1);
        }
        forall j | FirstUnbound(ar, keys, scope, path, j)
          ensures FirstUnbound(ar, rest, scope, path, j - 1)
        {
          forall m | 0 <= m < j - 1 ensures !UnboundAt(ar, rest, scope, path, m) {
            assert !UnboundAt(ar, keys, scope, path, m + 1);
          }
        }
      }
    }
  }

  /** A name captured by a block is its first node's or one of the rest's. */
  lemma CapturesTail(ar: seq<P.Node>, keys: seq<nat>)
    requires |keys| > 0
    ensures forall n :: CapturedBy(ar, keys, n) <==>
      (keys[0] < |ar| && ar[keys[0]] == P.VarRef(n)) || CapturedBy(ar, keys[1..], n)
  {
    forall n ensures CapturedBy(ar, keys, n) ==>
      (keys[0] < |ar| && ar[keys[0]] == P.VarRef(n)) || CapturedBy(ar, keys[1..], n) {
      if CapturedBy(ar, keys, n) && !(keys[0] < |ar| && ar[keys[0]] == P.VarRef(n)) {
        var j :| 0 <= j < |keys| && keys[j] < |ar| && ar[keys[j]] == P.VarRef(n);
        assert keys[1..][j - 1] == keys[j];
      }
    }
    forall n | CapturedBy(ar, keys[1..], n) ensures CapturedBy(ar, keys, n) {
      var j :| 0 <= j < |keys[1..]| && keys[1..][j] < |ar| && ar[keys[1..][j]] == P.VarRef(n);
      assert keys[j + 1] == keys[1..][j];
    }
  }

  /** The argument lists `iter` passes to its callback: `(item, index)` for
      each item of a list, `(byte)` for each byte of a byte string. */
  function IterArgs(v: Value): seq<seq<Value>>
    requires v.List? || v.Bytes? || v.OwnedBytes?
  {
    if v.List? then seq(|v.items|, i requires 0 <= i < |v.items| => [v.items[i], Usize(i)])
    else seq(|v.bytes|, i requires 0 <= i < |v.bytes| => [Byte(v.bytes[i])])
  }

  // ---------------------------------------------------------------------
  // The evaluator

  /** `evaluate_object` on arena key `k` in the scope at `path`. */
  function Eval(ar: seq<P.Node>, k: nat, scope: Scope, path: seq<nat>, heap: Heap, active: set<nat>, fuel: nat): (r: Outcome)
    requires HasPath(scope, path)
    ensures r.Next? ==> Kept(scope, r.scope, path) && Grows(heap, r.heap)
    decreases fuel, 0, 0
  {
    if fuel == 0 then Halted(OutOfFuel)
    else if k >= |ar| then Halted(Panicked)
    else
      KeptRefl(scope, path);
      match ar[k]
      case Block(objs) => EvalChildren(ar, objs, 0, Base(path), scope, path, heap, active, fuel - 1)
      case VarDef(b, name) => EvalVarDef(ar, b, name, scope, path, heap, active, fuel - 1)
      case FunctionCall(name, a) =>
        if name == "thread" then Halted(Unmodelled)
        else EvalCall(ar, name, a, scope, path, heap, active, fuel - 1)
      case StringVal(t) => Next(Ok(Str(t)), scope, heap)
      case BytesVal(b) => Next(Ok(Bytes(b)), scope, heap)
      case VarRef(name) => Next(GetVariable(scope, name, path), scope, heap)
      case PropertyRef(pp) =>
        if |pp| == 0 then Halted(Panicked)
        else Next(GetVariableByPath(scope, pp, path), scope, heap)
      case FnDef(a, b, c) => EvalFnDef(ar, a, b, c, scope, path, heap)
      case IfDef(c, b) => EvalIf(ar, c, b, scope, path, heap, active, fuel - 1)
      case NumberVal(n) => Next(Ok(Usize(n)), scope, heap)
  }

  /** The children of a block, from child `i` on. `next` is the id the
      previous nested block got. A nested block runs in a new child scope;
      the last child's result is the block's; a non-last child's error is
      dropped; an empty block is `Void`. */
  function EvalChildren(ar: seq<P.Node>, objs: seq<nat>, i: nat, next: nat, scope: Scope, path: seq<nat>,
                        heap: Heap, active: set<nat>, fuel: nat): (r: Outcome)
    requires HasPath(scope, path) && i <= |objs| && next >= Base(path)
    ensures r.Next? ==> Kept(scope, r.scope, path) && Grows(heap, r.heap)
    decreases fuel, 1, |objs| - i
  {
    if i == |objs| then
      KeptRefl(scope, path);
      Next(Ok(Void), scope, heap)
    else if objs[i] >= |ar| then Halted(Panicked)
    else
      var k := objs[i];
      var nested := ar[k].Block?;
      var id := if nested then next + 1 else next;
      var step := if nested then EvalNested(ar, k, id, scope, path, heap, active, fuel)
                  else Eval(ar, k, scope, path, heap, active, fuel);
      match step
      case Halted(w) => Halted(w)
      case Next(res, s, h) =>
        if i == |objs| - 1 then step
        else
          var rest := EvalChildren(ar, objs, i + 1, id, s, path, h, active, fuel);
          if rest.Next? then
            KeptTrans(scope, s, rest.scope, path);
            GrowsTrans(heap, h, rest.heap);
            rest
          else rest
  }

  /** A block that is a child of a block: `create_scope(path, id)`, evaluate
      at `path + [id]`, then `drop_scope(path + [id], id)`. */
  function EvalNested(ar: seq<P.Node>, k: nat, id: nat, scope: Scope, path: seq<nat>,
                      heap: Heap, active: set<nat>, fuel: nat): (r: Outcome)
    requires HasPath(scope, path) && id > Base(path)
    ensures r.Next? ==> Kept(scope, r.scope, path) && Grows(heap, r.heap)
    ensures r.Next? ==> forall j :: 0 <= j <= |path| ==> VarsAt(r.scope, path[..j]) == VarsAt(scope, path[..j])
    decreases fuel, 1, 0
  {
    var s1 := CreateScope(scope, path, id);
    match Eval(ar, k, s1, path + [id], heap, active, fuel)
    case Halted(w) => Halted(w)
    case Next(res, t, h) =>
      KeptNested(scope, path, id, t);
      NestedKeepsChain(scope, path, id, t);
      Next(res, DropScope(t, path + [id], id), h)
  }

  /** `let name = value`: evaluate, then define in the current scope. */
  function EvalVarDef(ar: seq<P.Node>, b: nat, name: string, scope: Scope, path: seq<nat>,
                      heap: Heap, active: set<nat>, fuel: nat): (r: Outcome)
    requires HasPath(scope, path)
    ensures r.Next? ==> Kept(scope, r.scope, path) && Grows(heap, r.heap)
    decreases fuel, 1, 0
  {
    match Eval(ar, b, scope, path, heap, active, fuel)
    case Halted(w) => Halted(w)
    case Next(Err(e), s, h) => Next(Err(e), s, h)
    case Next(Ok(v), s, h) =>
      KeptDefine(s, path, name, v);
      KeptTrans(scope, s, DefineVariable(s, path, name, v), path);
      Next(Ok(Void), DefineVariable(s, path, name, v), h)
  }

  /** `name(args..)`: evaluate the arguments in order, stopping at the first
      error, then `call_function`. */
  function EvalCall(ar: seq<P.Node>, name: string, a: nat, scope: Scope, path: seq<nat>,
                    heap: Heap, active: set<nat>, fuel: nat): (r: Outcome)
    requires HasPath(scope, path)
    ensures r.Next? ==> Kept(scope, r.scope, path) && Grows(heap, r.heap)
    decreases fuel, 3, 0
  {
    if a >= |ar| then Halted(Panicked)
    else match EvalArgs(ar, ChildKeys(ar[a]), 0, [], scope, path, heap, active, fuel)
      case ArgsHalted(w) => Halted(w)
      case ArgFailed(e, s, h) => Next(Err(e), s, h)
      case Evaluated(vals, s, h) =>
        match CallFunction(ar, s, name, path, vals, h, active, fuel)
        case Stopped(w) => Halted(w)
        case Replied(res, h') =>
          GrowsTrans(heap, h, h');
          Next(res, s, h')
  }

  /** The arguments from key `i` on, appended to `done`. */
  function EvalArgs(ar: seq<P.Node>, keys: seq<nat>, i: nat, done: seq<Value>, scope: Scope, path: seq<nat>,
                    heap: Heap, active: set<nat>, fuel: nat): (r: Args)
    requires HasPath(scope, path) && i <= |keys|
    ensures r.Evaluated? ==> (Kept(scope, r.scope, path) && Grows(heap, r.heap) &&
      |r.vals| == |done| + |keys| - i && r.vals[..|done|] == done)
    ensures r.ArgFailed? ==> Kept(scope, r.scope, path) && Grows(heap, r.heap)
    decreases fuel, 1, |keys| - i
  {
    if i == |keys| then
      KeptRefl(scope, path);
      Evaluated(done, scope, heap)
    else match Eval(ar, keys[i], scope, path, heap, active, fuel)
      case Halted(w) => ArgsHalted(w)
      case Next(Err(e), s, h) => ArgFailed(e, s, h)
      case Next(Ok(v), s, h) =>
        var rest := EvalArgs(ar, keys, i + 1, done + [v], s, path, h, active, fuel);
        match rest
        case ArgsHalted(w) => rest
        case ArgFailed(e, s', h') =>
          KeptTrans(scope, s, s', path);
          GrowsTrans(heap, h, h');
          rest
        case Evaluated(vals, s', h') =>
          KeptTrans(scope, s, s', path);
          GrowsTrans(heap, h, h');
          assert vals[..|done|] == vals[..|done| + 1][..|done|];
          rest
  }

  /** A `fn` literal: capture, then a new closure object. */
  function EvalFnDef(ar: seq<P.Node>, a: nat, b: nat, c: nat, scope: Scope, path: seq<nat>, heap: Heap): (r: Outcome)
    requires HasPath(scope, path)
    ensures r.Next? ==> Kept(scope, r.scope, path) && Grows(heap, r.heap)
    ensures r.Next? ==> r.scope == scope
    ensures r.Next? && r.res.Ok? ==> (r.res.value.Function? && r.res.value.func.Closure? &&
      r.res.value.func.id == heap.nextId && r.heap.nextId == heap.nextId + 1 &&
      r.res.value.func.argumentsBlock == a && r.res.value.func.blockValue == b)
  {
    KeptRefl(scope, path);
    var keys := if c < |ar| then ChildKeys(ar[c]) else [];
    match CaptureAll(ar, keys, scope, path, map[], heap.cells)
    case CaptureFailed(e, cells) => Next(Err(e), scope, heap.(cells := cells))
    case Captured(caps, cells) =>
      Next(Ok(Function(Closure(heap.nextId, caps, a, b))), scope, heap.(cells := cells, nextId := heap.nextId + 1))
  }

  /** `if (cond) { body }`: the body runs exactly when the condition is
      equal to `true`; otherwise the result is `Void`. */
  function EvalIf(ar: seq<P.Node>, c: nat, b: nat, scope: Scope, path: seq<nat>,
                  heap: Heap, active: set<nat>, fuel: nat): (r: Outcome)
    requires HasPath(scope, path)
    ensures r.Next? ==> Kept(scope, r.scope, path) && Grows(heap, r.heap)
    decreases fuel, 1, 0
  {
    match Eval(ar, c, scope, path, heap, active, fuel)
    case Halted(w) => Halted(w)
    case Next(Err(e), s, h) => Next(Err(e), s, h)
    case Next(Ok(v), s, h) =>
      if ValueEq(Bool(true), v) then
        var body := Eval(ar, b, s, path, h, active, fuel);
        if body.Next? then
          KeptTrans(scope, s, body.scope, path);
          GrowsTrans(heap, h, body.heap);
          body
        else body
      else Next(Ok(Void), s, h)
  }

  // ---------------------------------------------------------------------
  // Calls

  /** `Scope::call_function`: look the callee up, then borrow and call it. */
  function CallFunction(ar: seq<P.Node>, scope: Scope, name: string, path: seq<nat>, args: seq<Value>,
                        heap: Heap, active: set<nat>, fuel: nat): (r: Reply)
    requires HasPath(scope, path)
    ensures r.Replied? ==> Grows(heap, r.heap)
    ensures GetFunction(scope, name, path, heap.cells).None? ==> r == Replied(Err(VariableNotFound(name)), heap)
    decreases fuel, 2, 0
  {
    match GetFunction(scope, name, path, heap.cells)
    case None => Replied(Err(VariableNotFound(name)), heap)
    case Some(f) => Invoke(ar, f, args, heap, active, fuel)
  }

  /** `borrow_mut()` on a function object, then its `call`: a function that
      is already borrowed (it is calling, directly or not, itself) panics. */
  function Invoke(ar: seq<P.Node>, f: FuncVal, args: seq<Value>, heap: Heap, active: set<nat>, fuel: nat): (r: Reply)
    ensures r.Replied? ==> Grows(heap, r.heap)
    ensures f.id in active ==> r == Stopped(Panicked)
    decreases fuel, 1, 0
  {
    if f.id in active then Stopped(Panicked)
    else Call(ar, f, args, heap, active + {f.id}, fuel)
  }

  /** `RuntimeFunction::call` on an object already borrowed. */
  function Call(ar: seq<P.Node>, f: FuncVal, args: seq<Value>, heap: Heap, active: set<nat>, fuel: nat): (r: Reply)
    ensures r.Replied? ==> Grows(heap, r.heap)
    decreases fuel, 0, 0
  {
    if fuel == 0 then Stopped(OutOfFuel)
    else match f
      case Builtin(_, tag) => CallBuiltin(ar, tag, args, heap, active, fuel - 1)
      case Closure(_, _, _, _) => CallClosure(ar, f, args, heap, active, fuel - 1)
  }

  /** The call of a closure: a fresh root scope with the globals, the
      parameters bound in order, the captured cells on top, and the body
      evaluated there. Nothing of the caller's scope is visible. */
  function CallClosure(ar: seq<P.Node>, f: FuncVal, args: seq<Value>, heap: Heap, active: set<nat>, fuel: nat): (r: Reply)
    requires f.Closure?
    ensures r.Replied? ==> Grows(heap, r.heap) && r.heap.nextId >= heap.nextId + BUILTIN_COUNT
    decreases fuel, 1, 0
  {
    var h1 := heap.(nextId := heap.nextId + BUILTIN_COUNT);
    match ClosureScope(ar, f, args, SetupGlobals(heap.nextId).vars)
    case None => Stopped(Panicked)
    case Some(local) =>
      match Eval(ar, f.blockValue, local, [], h1, active, fuel)
      case Halted(w) => Stopped(w)
      case Next(res, _, h) =>
        GrowsTrans(heap, h1, h);
        Replied(res, h)
  }

  /** The root scope a closure's body runs in: the `globals` (a fresh
      `setup_globals`), the parameters, then the captured cells. `None` is a
      panic: a missing arena key or too few arguments. */
  function ClosureScope(ar: seq<P.Node>, f: FuncVal, args: seq<Value>, globals: map<string, Value>): Option<Scope>
    requires f.Closure?
  {
    if f.argumentsBlock >= |ar| then None
    else match BindParams(ar, ChildKeys(ar[f.argumentsBlock]), args, globals)
      case None => None
      case Some(vars) => Some(Scope(vars + CaptureVars(f.captures), map[]))
  }

  /** A closure call gets its scope exactly when the parameter block's keys
      are in the arena and there is an argument for every parameter. */
  lemma ClosureScopeDefined(ar: seq<P.Node>, f: FuncVal, args: seq<Value>, globals: map<string, Value>)
    requires f.Closure? && f.argumentsBlock < |ar|
    ensures ClosureScope(ar, f, args, globals).Some? <==>
      KeysIn(ar, ChildKeys(ar[f.argumentsBlock])) && |ParamNames(ar, ChildKeys(ar[f.argumentsBlock]))| <= |args|
  {
    BindParamsBinds(ar, ChildKeys(ar[f.argumentsBlock]), args, globals);
  }

  /** The environment of a closure call: a root scope without children
      whose names are exactly the captures, the parameters and the globals.
      Nothing of the caller's scope is visible. */
  lemma ClosureEnvironment(ar: seq<P.Node>, f: FuncVal, args: seq<Value>, globals: map<string, Value>, n: string)
    requires f.Closure? && f.argumentsBlock < |ar|
    ensures ClosureScope(ar, f, args, globals).Some? ==> ClosureScope(ar, f, args, globals).value.scopes == map[]
    ensures ClosureScope(ar, f, args, globals).Some? ==>
      (n in ClosureScope(ar, f, args, globals).value.vars <==>
       n in f.captures || n in ParamNames(ar, ChildKeys(ar[f.argumentsBlock])) || n in globals)
  {
    BindParamsBinds(ar, ChildKeys(ar[f.argumentsBlock]), args, globals);
  }

  /** What the names of a closure call hold: a capture is its cell, whatever
      else has its name; a parameter is its argument; a global that is
      neither keeps its value. */
  lemma ClosureBindings(ar: seq<P.Node>, f: FuncVal, args: seq<Value>, globals: map<string, Value>)
    requires f.Closure? && f.argumentsBlock < |ar|
    ensures var r := ClosureScope(ar, f, args, globals);
      r.Some? ==> forall n :: n in f.captures ==> n in r.value.vars && r.value.vars[n] == Ref(f.captures[n])
    ensures var r := ClosureScope(ar, f, args, globals);
      var names := ParamNames(ar, ChildKeys(ar[f.argumentsBlock]));
      r.Some? ==> forall j :: 0 <= j < |names| && LastOf(names, j) && names[j] !in f.captures ==>
        names[j] in r.value.vars && j < |args| && r.value.vars[names[j]] == args[j]
    ensures var r := ClosureScope(ar, f, args, globals);
      var names := ParamNames(ar, ChildKeys(ar[f.argumentsBlock]));
      r.Some? ==> forall n :: n in globals && n !in names && n !in f.captures ==>
        n in r.value.vars && r.value.vars[n] == globals[n]
  {
    var keys := ChildKeys(ar[f.argumentsBlock]);
    var names := ParamNames(ar, keys);
    BindParamsBinds(ar, keys, args, globals);
    if ClosureScope(ar, f, args, globals).Some? {
      var bound := BindParams(ar, keys, args, globals).value;
      var all := ClosureScope(ar, f, args, globals).value.vars;
      assert all == bound + CaptureVars(f.captures);
      forall j | 0 <= j < |names| && LastOf(names, j) && names[j] !in f.captures
        ensures names[j] in all && j < |args| && all[names[j]] == args[j]
      {
        assert bound[names[j]] == args[j];
      }
    }
  }

  /** Calls the borrowed function `f` with each argument list from `i` on;
      the first error ends the loop and is the result. */
  function CallEach(ar: seq<P.Node>, f: FuncVal, lists: seq<seq<Value>>, i: nat, heap: Heap, active: set<nat>, fuel: nat): (r: Reply)
    requires i <= |lists|
    ensures r.Replied? ==> Grows(heap, r.heap)
    ensures r.Replied? && r.res.Ok? ==> r.res.value == Void
    decreases fuel, 1, |lists| - i
  {
    if i == |lists| then Replied(Ok(Void), heap)
    else match Call(ar, f, lists[i], heap, active, fuel)
      case Stopped(w) => Stopped(w)
      case Replied(Err(e), h) => Replied(Err(e), h)
      case Replied(Ok(_), h) =>
        var rest := CallEach(ar, f, lists, i + 1, h, active, fuel);
        if rest.Replied? then
          GrowsTrans(heap, h, rest.heap);
          rest
        else rest
  }

  /** The builtins. Too few arguments for an `args.remove(0)` panics. */
  function CallBuiltin(ar: seq<P.Node>, tag: BuiltinTag, args: seq<Value>, heap: Heap, active: set<nat>, fuel: nat): (r: Reply)
    ensures r.Replied? ==> Grows(heap, r.heap)
    decreases fuel, 4, 0
  {
    match tag
    case IsEqualFn => Replied(Ok(IsEqual(args)), heap)
    case ListFn => Replied(Ok(NewList(args)), heap)
    case PrintFn =>
      (match PrintOutput(args, heap.cells, active)
       case None => Stopped(Panicked)
       case Some(b) => Replied(Ok(Void), heap.(out := heap.out + b)))
    case PrintLnFn =>
      (match PrintLnOutput(args, heap.cells, active)
       case None => Stopped(Panicked)
       case Some(b) => Replied(Ok(Void), heap.(out := heap.out + b)))
    case ToStringFn =>
      if |args| == 0 || args[0].Usize? then Stopped(Panicked) else Replied(Ok(Void), heap)
    case OpenFileFn =>
      if |args| == 0 || AsBytes(args[0]).None? || !ValidUtf8(AsBytes(args[0]).value) then Stopped(Panicked)
      else Stopped(Unmodelled)
    case _ =>
      if |args| == 0 then Stopped(Panicked)
      else CallBuiltinWithArg(ar, tag, args, heap, active, fuel)
  }

  /** The builtins that take at least one argument. */
  function CallBuiltinWithArg(ar: seq<P.Node>, tag: BuiltinTag, args: seq<Value>, heap: Heap, active: set<nat>, fuel: nat): (r: Reply)
    requires |args| > 0
    ensures r.Replied? ==> Grows(heap, r.heap)
    decreases fuel, 3, 0
  {
    match tag
    case OkFn => Replied(Ok(MakeOk(args[0])), heap)
    case ErrFn => Replied(Ok(MakeErr(args[0])), heap)
    case IsOkFn => Replied(Ok(IsOk(args[0])), heap)
    case UnwrapFn => Replied(Unwrap(args[0]), heap)
    case UnwrapErrFn => Replied(UnwrapErr(args[0]), heap)
    case RefFn =>
      var (v, cells) := RefNew(args[0], heap.cells);
      Replied(Ok(v), heap.(cells := cells))
    case SleepFn => Replied(Ok(Void), heap)
    case WaitFn =>
      // No thread handle can exist in a run that goes on, so every id is invalid.
      if args[0].Usize? then Stopped(Panicked) else Replied(Ok(Void), heap)
    case ThreadFn =>
      // Called under another name, the thread builtin runs its function
      // at once, in the same thread.
      if args[0].Function? then
        match Invoke(ar, args[0].func, args[1..], heap, active, fuel)
        case Stopped(w) => Stopped(w)
        case Replied(Err(e), h) => Replied(Err(e), h)
        case Replied(Ok(_), h) => Replied(Ok(Void), h)
      else Replied(Ok(Void), heap)
    case AddFn =>
      if |args| < 2 then Stopped(Panicked)
      else
        (match Add(args[0], args[1], heap.cells)
         case None => Stopped(Panicked)
         case Some((v, cells)) => Replied(Ok(v), heap.(cells := cells)))
    case IterFn =>
      if |args| < 2 then Stopped(Panicked)
      else CallIter(ar, args[0], args[1], heap, active, fuel)
    case _ => Replied(Ok(Void), heap)
  }

  /** `iter(iterable, f)`: `f` is borrowed once for the whole loop and called
      per element. A file id panics (no file is open in a run that goes
      on); a callback that is not a function value does nothing. */
  function CallIter(ar: seq<P.Node>, iterable: Value, fun: Value, heap: Heap, active: set<nat>, fuel: nat): (r: Reply)
    ensures r.Replied? ==> Grows(heap, r.heap)
    ensures !fun.Function? ==> r == Replied(Ok(Void), heap)
    decreases fuel, 2, 0
  {
    if !fun.Function? then Replied(Ok(Void), heap)
    else if fun.func.id in active then Stopped(Panicked)
    else match iterable
      case Usize(_) => Stopped(Panicked)
      case List(_) => CallEach(ar, fun.func, IterArgs(iterable), 0, heap, active + {fun.func.id}, fuel)
      case Bytes(_) => CallEach(ar, fun.func, IterArgs(iterable), 0, heap, active + {fun.func.id}, fuel)
      case OwnedBytes(_) => CallEach(ar, fun.func, IterArgs(iterable), 0, heap, active + {fun.func.id}, fuel)
      case _ => Replied(Ok(Void), heap)
  }

  /** `Runtime::evaluate`: a root scope with the globals (function
      identities 0 to 16), then the global block at the empty path. This
      is only the entry point; what evaluation does is stated by `Eval`'s
      contract and by the lemmas of the `Semantics` module. */
  function Evaluate(p: P.Parser, fuel: nat): (r: Outcome)
    ensures r.Next? ==> Grows(Heap([], BUILTIN_COUNT, []), r.heap)
  {
    Eval(p.objects, p.globalBlock, SetupGlobals(0), [], Heap([], BUILTIN_COUNT, []), {}, fuel)
  }
}

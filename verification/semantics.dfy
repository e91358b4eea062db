/** Properties of the evaluator that relate several of its steps: what a
    nested block can change, what a `fn` literal captures, when an `if`
    runs its body, how `iter` stops, and what the `Lenar` global holds. */
module Semantics {
  import opened Common
  import opened Values
  import opened Scopes
  import opened Evaluator
  import Builtins
  import P = Parser

  /** A nested block cannot change what any name means at the enclosing
      path: its `let`s go into the child scope, which is left in place
      (`drop_scope` does nothing) but is not on the lookup chain. */
  lemma NestedBlockIsolation(ar: seq<P.Node>, k: nat, id: nat, scope: Scope, path: seq<nat>,
                             heap: Heap, active: set<nat>, fuel: nat, name: string)
    requires HasPath(scope, path) && id > Base(path)
    requires EvalNested(ar, k, id, scope, path, heap, active, fuel).Next?
    ensures GetVariable(EvalNested(ar, k, id, scope, path, heap, active, fuel).scope, name, path) ==
            GetVariable(scope, name, path)
  {
    var r := EvalNested(ar, k, id, scope, path, heap, active, fuel);
    LookupReadsChain(r.scope, scope, name, path);
  }

  /** How many of the keys name a block node: the nested scopes a block
      opens for those children. */
  function BlockCount(ar: seq<P.Node>, ks: seq<nat>): nat {
    if |ks| == 0 then 0
    else BlockCount(ar, ks[..|ks| - 1]) + (if ks[|ks| - 1] < |ar| && ar[ks[|ks| - 1]].Block? then 1 else 0)
  }

  /** One child of a block run on its own: a block child gets the child
      scope numbered `next + 1`, any other child runs at `path`. */
  function ChildStep(ar: seq<P.Node>, k: nat, next: nat, scope: Scope, path: seq<nat>,
                     heap: Heap, active: set<nat>, fuel: nat): (r: Outcome)
    requires HasPath(scope, path) && next >= Base(path)
    ensures r.Next? ==> HasPath(r.scope, path)
  {
    if k >= |ar| then Halted(Panicked)
    else if ar[k].Block? then EvalNested(ar, k, next + 1, scope, path, heap, active, fuel)
    else Eval(ar, k, scope, path, heap, active, fuel)
  }

  /** Where the children before a block's last one leave the run. */
  datatype Progress = Stop(why: Halt) | Reached(next: nat, scope: Scope, heap: Heap)

  /** Runs the children from `i` up to, not including, the last one, and
      throws their results away; a halt stops the run. */
  function Before(ar: seq<P.Node>, objs: seq<nat>, i: nat, next: nat, scope: Scope, path: seq<nat>,
                  heap: Heap, active: set<nat>, fuel: nat): (r: Progress)
    requires HasPath(scope, path) && i < |objs| && next >= Base(path)
    ensures r.Reached? ==> HasPath(r.scope, path) && r.next == next + BlockCount(ar, objs[i..|objs| - 1])
    decreases |objs| - i
  {
    if i == |objs| - 1 then
      assert objs[i..|objs| - 1] == [];
      Reached(next, scope, heap)
    else
      var k := objs[i];
      var id := if k < |ar| && ar[k].Block? then next + 1 else next;
      match ChildStep(ar, k, next, scope, path, heap, active, fuel)
      case Halted(w) => Stop(w)
      case Next(_, s, h) =>
        var r := Before(ar, objs, i + 1, id, s, path, h, active, fuel);
        if r.Reached? then
          BlockCountCons(ar, objs[i..|objs| - 1]);
          assert objs[i..|objs| - 1][1..] == objs[i + 1..|objs| - 1];
          r
        else r
  }

  /** Counting blocks from the front. */
  lemma {:induction false} BlockCountCons(ar: seq<P.Node>, ks: seq<nat>)
    requires |ks| > 0
    ensures BlockCount(ar, ks) == (if ks[0] < |ar| && ar[ks[0]].Block? then 1 else 0) + BlockCount(ar, ks[1..])
    decreases |ks|
  {
    if |ks| > 1 {
      assert ks[..|ks| - 1][0] == ks[0];
      assert ks[..|ks| - 1][1..] == ks[1..][..|ks| - 2];
      BlockCountCons(ar, ks[..|ks| - 1]);
    }
  }

  /** A block's outcome: an empty block is `Void` with nothing changed;
      otherwise the children before the last run in turn, each in the
      state the previous one left, with their results (errors included)
      dropped, the k-th nested block among them getting the scope id
      `Base(path) + k`; then the block's outcome is the last child's,
      run in the state they left. */
  lemma {:induction false} BlockResultIsLastChild(ar: seq<P.Node>, objs: seq<nat>, i: nat, next: nat,
                                                  scope: Scope, path: seq<nat>, heap: Heap,
                                                  active: set<nat>, fuel: nat)
    requires HasPath(scope, path) && i <= |objs| && next >= Base(path)
    ensures i == |objs| ==> EvalChildren(ar, objs, i, next, scope, path, heap, active, fuel) == Next(Ok(Void), scope, heap)
    ensures i < |objs| ==>
      EvalChildren(ar, objs, i, next, scope, path, heap, active, fuel) ==
        match Before(ar, objs, i, next, scope, path, heap, active, fuel)
        case Stop(w) => Halted(w)
        case Reached(n, s, h) => ChildStep(ar, objs[|objs| - 1], n, s, path, h, active, fuel)
    decreases |objs| - i
  {
    if i < |objs| {
      var k := objs[i];
      var id := if k < |ar| && ar[k].Block? then next + 1 else next;
      var step := ChildStep(ar, k, next, scope, path, heap, active, fuel);
      ChildrenStep(ar, objs, i, next, scope, path, heap, active, fuel);
      if i < |objs| - 1 && step.Next? {
        BlockResultIsLastChild(ar, objs, i + 1, id, step.scope, path, step.heap, active, fuel);
      }
    }
  }

  /** One child of `EvalChildren`, in terms of `ChildStep`. */
  lemma ChildrenStep(ar: seq<P.Node>, objs: seq<nat>, i: nat, next: nat,
                     scope: Scope, path: seq<nat>, heap: Heap, active: set<nat>, fuel: nat)
    requires HasPath(scope, path) && i < |objs| && next >= Base(path)
    ensures var k := objs[i];
      var id := if k < |ar| && ar[k].Block? then next + 1 else next;
      var step := ChildStep(ar, k, next, scope, path, heap, active, fuel);
      EvalChildren(ar, objs, i, next, scope, path, heap, active, fuel) ==
        if step.Halted? || i == |objs| - 1 then step
        else EvalChildren(ar, objs, i + 1, id, step.scope, path, step.heap, active, fuel)
  {
  }

  /** The capture keys of a `fn` literal: the children of its capture block. */
  function CaptureKeys(ar: seq<P.Node>, c: nat): seq<nat> {
    if c < |ar| then ChildKeys(ar[c]) else []
  }

  /** A `fn` literal captures exactly the `VarRef`s of its capture block,
      each into a new cell holding the value the name has where the closure
      is defined; the cells that were there are not touched. When a name is
      not bound, the literal evaluates to the `VariableNotFound` error of
      the first such name in the block. */
  lemma FnDefCaptures(ar: seq<P.Node>, a: nat, b: nat, c: nat, scope: Scope, path: seq<nat>, heap: Heap)
    requires HasPath(scope, path)
    ensures var r := EvalFnDef(ar, a, b, c, scope, path, heap);
      r.Next? && r.heap.cells[..|heap.cells|] == heap.cells
    ensures var r := EvalFnDef(ar, a, b, c, scope, path, heap);
      r.res.Ok? ==> forall n :: n in r.res.value.func.captures <==> CapturedBy(ar, CaptureKeys(ar, c), n)
    ensures var r := EvalFnDef(ar, a, b, c, scope, path, heap);
      r.res.Ok? ==> forall n :: n in r.res.value.func.captures ==>
        |heap.cells| <= r.res.value.func.captures[n] < |r.heap.cells| &&
        GetVariable(scope, n, path) == Ok(r.heap.cells[r.res.value.func.captures[n]])
    ensures var r := EvalFnDef(ar, a, b, c, scope, path, heap);
      r.res.Err? ==>
        exists n :: CapturedBy(ar, CaptureKeys(ar, c), n) && r.res.error == VariableNotFound(n) &&
          GetVariable(scope, n, path).Err?
    ensures EvalFnDef(ar, a, b, c, scope, path, heap).res.Err? <==>
      exists j :: UnboundAt(ar, CaptureKeys(ar, c), scope, path, j)
    ensures forall j :: FirstUnbound(ar, CaptureKeys(ar, c), scope, path, j) ==>
      EvalFnDef(ar, a, b, c, scope, path, heap).res == Err(VariableNotFound(ar[CaptureKeys(ar, c)[j]].varName))
  {
    CaptureAllCopies(ar, CaptureKeys(ar, c), scope, path, map[], heap.cells);
    CaptureFailsAtFirst(ar, CaptureKeys(ar, c), scope, path, map[], heap.cells);
  }

  /** `if`: an error or a halt of the condition is the result; otherwise the
      body runs, in the state the condition left, exactly when the
      condition is `true`, and the result is `Void` when it is not. */
  lemma IfRunsBodyOnlyOnTrue(ar: seq<P.Node>, c: nat, b: nat, scope: Scope, path: seq<nat>,
                             heap: Heap, active: set<nat>, fuel: nat)
    requires HasPath(scope, path)
    ensures var cond := Eval(ar, c, scope, path, heap, active, fuel);
      var r := EvalIf(ar, c, b, scope, path, heap, active, fuel);
      (cond.Halted? ==> r == cond) &&
      (cond.Next? && cond.res.Err? ==> r == cond) &&
      (cond.Next? && cond.res == Ok(Bool(true)) ==> r == Eval(ar, b, cond.scope, path, cond.heap, active, fuel)) &&
      (cond.Next? && cond.res.Ok? && cond.res.value != Bool(true) ==> r == Next(Ok(Void), cond.scope, cond.heap))
  {
  }

  /** The calls of `f` on `lists[i..j]` in turn, each from the heap the
      previous one left: the final heap when every one replied `Ok`. */
  function CallsOk(ar: seq<P.Node>, f: FuncVal, lists: seq<seq<Value>>, i: nat, j: nat,
                   heap: Heap, active: set<nat>, fuel: nat): Option<Heap>
    requires i <= j <= |lists|
    decreases j - i
  {
    if i == j then Some(heap)
    else match Call(ar, f, lists[i], heap, active, fuel)
      case Replied(Ok(_), h) => CallsOk(ar, f, lists, i + 1, j, h, active, fuel)
      case _ => None
  }

  /** The loop of `iter` stops at the first error: when it replies with an
      error, every call before the `j`-th replied `Ok` and the `j`-th call,
      from the heap they left, gave that error. When every call replies
      `Ok`, the loop is `Void` with the heap the last call left. */
  lemma {:induction false} CallEachError(ar: seq<P.Node>, f: FuncVal, lists: seq<seq<Value>>, i: nat,
                                         heap: Heap, active: set<nat>, fuel: nat)
    requires i <= |lists|
    ensures var r := CallEach(ar, f, lists, i, heap, active, fuel);
      r.Replied? && r.res.Err? ==>
        exists j :: i <= j < |lists| && CallsOk(ar, f, lists, i, j, heap, active, fuel).Some? &&
          Call(ar, f, lists[j], CallsOk(ar, f, lists, i, j, heap, active, fuel).value, active, fuel) == r
    ensures var all := CallsOk(ar, f, lists, i, |lists|, heap, active, fuel);
      all.Some? ==> CallEach(ar, f, lists, i, heap, active, fuel) == Replied(Ok(Void), all.value)
    decreases |lists| - i
  {
    if i < |lists| {
      match Call(ar, f, lists[i], heap, active, fuel)
      case Stopped(_) =>
      case Replied(Err(e), h) =>
        assert CallsOk(ar, f, lists, i, i, heap, active, fuel) == Some(heap);
      case Replied(Ok(_), h) =>
        CallEachError(ar, f, lists, i + 1, h, active, fuel);
        var r := CallEach(ar, f, lists, i + 1, h, active, fuel);
        if r.Replied? && r.res.Err? {
          var j :| i + 1 <= j < |lists| && CallsOk(ar, f, lists, i + 1, j, h, active, fuel).Some? &&
            Call(ar, f, lists[j], CallsOk(ar, f, lists, i + 1, j, h, active, fuel).value, active, fuel) == r;
          assert CallsOk(ar, f, lists, i, j, heap, active, fuel) == CallsOk(ar, f, lists, i + 1, j, h, active, fuel);
        }
    }
  }

  /** `iter(list(..), f)` with a function that is not borrowed calls `f`
      once per argument of `list`, in order, with the argument and its
      index; a borrowed `f` is the borrow panic. */
  lemma IterOverList(ar: seq<P.Node>, args: seq<Value>, f: FuncVal, heap: Heap, active: set<nat>, fuel: nat)
    ensures f.id !in active ==>
      CallIter(ar, Builtins.NewList(args), Function(f), heap, active, fuel) ==
        CallEach(ar, f, seq(|args|, k requires 0 <= k < |args| => [args[k], Usize(k)]), 0, heap, active + {f.id}, fuel)
    ensures f.id in active ==> CallIter(ar, Builtins.NewList(args), Function(f), heap, active, fuel) == Stopped(Panicked)
  {
    var lists := seq(|args|, k requires 0 <= k < |args| => [args[k], Usize(k)]);
    assert IterArgs(List(args)) == lists;
  }

  /** `iter` over a byte string calls `f` once per byte, in order, with that
      byte alone. */
  lemma IterOverBytes(ar: seq<P.Node>, bs: seq<byte>, f: FuncVal, heap: Heap, active: set<nat>, fuel: nat)
    requires f.id !in active
    ensures var lists := seq(|bs|, k requires 0 <= k < |bs| => [Byte(bs[k])]);
      CallIter(ar, Bytes(bs), Function(f), heap, active, fuel) == CallEach(ar, f, lists, 0, heap, active + {f.id}, fuel) &&
      CallIter(ar, OwnedBytes(bs), Function(f), heap, active, fuel) == CallEach(ar, f, lists, 0, heap, active + {f.id}, fuel)
  {
    var lists := seq(|bs|, k requires 0 <= k < |bs| => [Byte(bs[k])]);
    assert IterArgs(Bytes(bs)) == lists;
    assert IterArgs(OwnedBytes(bs)) == lists;
  }

  /** A property path that starts at `Lenar`, looked up in a root scope
      holding the globals, reads the instance's properties. */
  lemma LenarLookup(first: nat, varPath: seq<string>)
    requires |varPath| > 0 && varPath[0] == "Lenar"
    ensures GetVariableByPath(SetupGlobals(first), varPath, []) == Ok(GetProps(LenarGlobal, varPath[1..]))
  {
    var g := SetupGlobals(first);
    assert "Lenar" in g.vars && g.vars["Lenar"] == Instance(LenarGlobal);
  }

  /** `Lenar.version` is `"1.0.0"`; only the first segment after `Lenar` is
      looked at, so `Lenar.version.x` is the same string. */
  lemma LenarVersion(first: nat, rest: seq<string>)
    ensures GetVariableByPath(SetupGlobals(first), ["Lenar", "version"] + rest, []) == Ok(Str("1.0.0"))
  {
    var vp := ["Lenar", "version"] + rest;
    assert vp[0] == "Lenar" && vp[1..] == ["version"] + rest;
    LenarLookup(first, vp);
    assert GetProps(LenarGlobal, vp[1..]) == LenarProp("version");
  }

  /** `Lenar` itself, read as a property path, and any property of it other
      than `version`, are `Void`. */
  lemma LenarOtherIsVoid(first: nat, rest: seq<string>)
    requires |rest| == 0 || rest[0] != "version"
    ensures GetVariableByPath(SetupGlobals(first), ["Lenar"] + rest, []) == Ok(Void)
  {
    var vp := ["Lenar"] + rest;
    assert vp[0] == "Lenar" && vp[1..] == rest;
    LenarLookup(first, vp);
  }
}

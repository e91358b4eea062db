/** The scope tree (`Scope`): every node holds a variable map and a map of
    child scopes, and a scope is addressed by the path of child ids from the
    root. Lookups walk the path and prefer the innermost scope that answers. */
module Scopes {
  import opened Common
  import opened Values

  datatype Scope = Scope(vars: map<string, Value>, scopes: map<nat, Scope>)

  /** `Scope::default()`. */
  const EMPTY: Scope := Scope(map[], map[])

  /** How many function objects `setup_globals` creates. */
  const BUILTIN_COUNT: nat := 17

  /** The position of each builtin in the order `setup_globals` registers it. */
  function BuiltinIndex(t: BuiltinTag): (k: nat)
    ensures k < BUILTIN_COUNT
  {
    match t
    case AddFn => 0
    case RefFn => 1
    case UnwrapErrFn => 2
    case UnwrapFn => 3
    case ErrFn => 4
    case IsOkFn => 5
    case OkFn => 6
    case WaitFn => 7
    case SleepFn => 8
    case ThreadFn => 9
    case ListFn => 10
    case IterFn => 11
    case ToStringFn => 12
    case OpenFileFn => 13
    case PrintFn => 14
    case PrintLnFn => 15
    case IsEqualFn => 16
  }

  /** The global binding of builtin `t` when the fresh function objects get
      the identities `first`, `first + 1`, .... */
  function GlobalFn(t: BuiltinTag, first: nat): Value {
    Function(Builtin(first + BuiltinIndex(t), t))
  }

  const GLOBAL_NAMES: set<string> :=
    {"add", "ref", "unwrapErr", "unwrap", "Err", "isOk", "Ok", "wait", "sleep", "thread",
     "list", "iter", "toString", "openFile", "print", "println", "Lenar", "isEqual"}

  /** The builtin a name could denote, told apart by its length and first
      two letters. `NameTag` confirms the guess with one string comparison;
      this keeps the proof that names and tags are inverse small, where a
      chain of eighteen string comparisons is costly for the solver. */
  function Candidate(name: string): Option<BuiltinTag> {
    if |name| < 2 then None
    else if |name| == 2 then (if name[0] == 'O' then Some(OkFn) else None)
    else if |name| == 3 then
      (if name[0] == 'a' then Some(AddFn) else if name[0] == 'r' then Some(RefFn)
       else if name[0] == 'E' then Some(ErrFn) else None)
    else if |name| == 4 then
      (if name[0] == 'w' then Some(WaitFn) else if name[0] == 'l' then Some(ListFn)
       else if name[0] == 'i' then (if name[1] == 's' then Some(IsOkFn) else Some(IterFn))
       else None)
    else if |name| == 5 then
      (if name[0] == 's' then Some(SleepFn) else if name[0] == 'p' then Some(PrintFn) else None)
    else if |name| == 6 then
      (if name[0] == 'u' then Some(UnwrapFn) else if name[0] == 't' then Some(ThreadFn) else None)
    else if |name| == 7 then
      (if name[0] == 'p' then Some(PrintLnFn) else if name[0] == 'i' then Some(IsEqualFn) else None)
    else if |name| == 8 then
      (if name[0] == 't' then Some(ToStringFn) else if name[0] == 'o' then Some(OpenFileFn) else None)
    else if |name| == 9 then (if name[0] == 'u' then Some(UnwrapErrFn) else None)
    else None
  }

  /** The builtin registered under `name`, if any. */
  function NameTag(name: string): (r: Option<BuiltinTag>)
    ensures r.Some? ==> BuiltinName(r.value) == name
  {
    match Candidate(name)
    case Some(t) => if BuiltinName(t) == name then Some(t) else None
    case None => None
  }

  lemma NameTagInverse(t: BuiltinTag)
    ensures NameTag(BuiltinName(t)) == Some(t)
  {
    match t
    case AddFn =>
    case RefFn =>
    case UnwrapErrFn =>
    case UnwrapFn =>
    case ErrFn =>
    case IsOkFn =>
    case OkFn =>
    case WaitFn =>
    case SleepFn =>
    case ThreadFn =>
    case ListFn =>
    case IterFn =>
    case ToStringFn =>
    case OpenFileFn =>
    case PrintFn =>
    case PrintLnFn =>
    case IsEqualFn =>
  }

  /** Different builtins are registered under different names. */
  lemma BuiltinNamesDistinct(a: BuiltinTag, b: BuiltinTag)
    ensures BuiltinName(a) == BuiltinName(b) ==> a == b
  {
    NameTagInverse(a);
    NameTagInverse(b);
  }

  /** What `setup_globals` binds a global name to. */
  function GlobalBinding(name: string, first: nat): Value {
    match NameTag(name)
    case Some(t) => GlobalFn(t, first)
    case None => Instance(LenarGlobal)
  }

  /** The variables `setup_globals` defines in the root scope. */
  function GlobalVars(first: nat): map<string, Value> {
    map name | name in GLOBAL_NAMES :: GlobalBinding(name, first)
  }

  lemma GlobalVarsBindBuiltins(first: nat, t: BuiltinTag)
    ensures BuiltinName(t) in GlobalVars(first)
    ensures GlobalVars(first)[BuiltinName(t)] == GlobalFn(t, first)
  {
    NameTagInverse(t);
    match t
    case AddFn =>
    case RefFn =>
    case UnwrapErrFn =>
    case UnwrapFn =>
    case ErrFn =>
    case IsOkFn =>
    case OkFn =>
    case WaitFn =>
    case SleepFn =>
    case ThreadFn =>
    case ListFn =>
    case IterFn =>
    case ToStringFn =>
    case OpenFileFn =>
    case PrintFn =>
    case PrintLnFn =>
    case IsEqualFn =>
  }

  /** `Scope::default()` followed by `setup_globals`: a root scope binding
      every builtin to a new function object and `Lenar` to the global
      instance. */
  function SetupGlobals(first: nat): (s: Scope)
    ensures s.scopes == map[] && s.vars.Keys == GLOBAL_NAMES
    ensures "Lenar" in s.vars && s.vars["Lenar"] == Instance(LenarGlobal)
    ensures forall t: BuiltinTag :: BuiltinName(t) in s.vars && s.vars[BuiltinName(t)] == GlobalFn(t, first)
  {
    forall t: BuiltinTag
      ensures BuiltinName(t) in GlobalVars(first) && GlobalVars(first)[BuiltinName(t)] == GlobalFn(t, first)
    {
      GlobalVarsBindBuiltins(first, t);
    }
    assert NameTag("Lenar") == None;
    Scope(GlobalVars(first), map[])
  }

  // ---------------------------------------------------------------------
  // Addressing scopes by path

  predicate PathPrefix(p: seq<nat>, q: seq<nat>) {
    |p| <= |q| && q[..|p|] == p
  }

  /** `Scope::get_scope`, with `None` where the source unwraps a missing id. */
  function Descend(s: Scope, path: seq<nat>): Option<Scope>
    decreases |path|
  {
    if |path| == 0 then Some(s)
    else if path[0] in s.scopes then Descend(s.scopes[path[0]], path[1..])
    else None
  }

  predicate HasPath(s: Scope, path: seq<nat>) {
    Descend(s, path).Some?
  }

  function At(s: Scope, path: seq<nat>): Scope
    requires HasPath(s, path)
  {
    Descend(s, path).value
  }

  /** The variables at a path, `None` when the path does not exist. */
  function VarsAt(s: Scope, path: seq<nat>): Option<map<string, Value>> {
    match Descend(s, path)
    case Some(sc) => Some(sc.vars)
    case None => None
  }

  /** The variables and the child ids at a path. */
  function ShapeAt(s: Scope, path: seq<nat>): Option<(map<string, Value>, set<nat>)> {
    match Descend(s, path)
    case Some(sc) => Some((sc.vars, sc.scopes.Keys))
    case None => None
  }

  /** The scope tree with the scope at `path` replaced by `sub`. */
  function Replace(s: Scope, path: seq<nat>, sub: Scope): Scope
    requires HasPath(s, path)
    decreases |path|
  {
    if |path| == 0 then sub
    else s.(scopes := s.scopes[path[0] := Replace(s.scopes[path[0]], path[1..], sub)])
  }

  lemma {:induction false} DescendAppend(s: Scope, p: seq<nat>, r: seq<nat>)
    ensures Descend(s, p + r) == if HasPath(s, p) then Descend(At(s, p), r) else None
    decreases |p|
  {
    if |p| > 0 {
      assert (p + r)[0] == p[0] && (p + r)[1..] == p[1..] + r;
      if p[0] in s.scopes {
        DescendAppend(s.scopes[p[0]], p[1..], r);
      }
    } else {
      assert p + r == r;
    }
  }

  lemma {:induction false} ReplaceAt(s: Scope, p: seq<nat>, sub: Scope)
    requires HasPath(s, p)
    ensures Descend(Replace(s, p, sub), p) == Some(sub)
    decreases |p|
  {
    if |p| > 0 {
      ReplaceAt(s.scopes[p[0]], p[1..], sub);
    }
  }

  /** Replacing the scope at `p` leaves the variables and child ids of every
      scope whose path does not extend `p` as they were. */
  lemma {:induction false} ReplaceElsewhere(s: Scope, p: seq<nat>, sub: Scope, q: seq<nat>)
    requires HasPath(s, p) && !PathPrefix(p, q)
    ensures ShapeAt(Replace(s, p, sub), q) == ShapeAt(s, q)
    decreases |p|
  {
    assert |p| > 0;
    var s' := Replace(s, p, sub);
    assert s'.scopes.Keys == s.scopes.Keys;
    if |q| > 0 && q[0] != p[0] {
      assert q[0] in s.scopes ==> s'.scopes[q[0]] == s.scopes[q[0]];
    } else if |q| > 0 {
      ReplaceElsewhere(s.scopes[p[0]], p[1..], sub, q[1..]);
    }
  }

  /** Replacing the scope at `p` by one with the same children changes no
      variables except those at `p`. */
  lemma ReplaceVars(s: Scope, p: seq<nat>, sub: Scope, q: seq<nat>)
    requires HasPath(s, p) && sub.scopes == At(s, p).scopes
    ensures VarsAt(Replace(s, p, sub), q) == if q == p then Some(sub.vars) else VarsAt(s, q)
  {
    var s' := Replace(s, p, sub);
    ReplaceAt(s, p, sub);
    if q != p {
      if PathPrefix(p, q) {
        var r := q[|p|..];
        assert q == p + r;
        DescendAppend(s', p, r);
        DescendAppend(s, p, r);
        assert |r| > 0;
        assert Descend(sub, r) == Descend(At(s, p), r);
      } else {
        ReplaceElsewhere(s, p, sub, q);
      }
    }
  }

  // ---------------------------------------------------------------------
  // Defining, creating and dropping

  /** `Scope::define_variable`: writes `name` into the scope at `path` only. */
  function DefineVariable(s: Scope, path: seq<nat>, name: string, v: Value): (r: Scope)
    requires HasPath(s, path)
    ensures HasPath(r, path) && At(r, path).vars == At(s, path).vars[name := v]
    ensures forall q :: VarsAt(r, q) == if q == path then Some(At(s, path).vars[name := v]) else VarsAt(s, q)
    ensures forall q :: !PathPrefix(path, q) ==> ShapeAt(r, q) == ShapeAt(s, q)
    ensures At(r, path).scopes.Keys == At(s, path).scopes.Keys
  {
    var sub := At(s, path);
    var sub' := sub.(vars := sub.vars[name := v]);
    ReplaceAt(s, path, sub');
    forall q ensures VarsAt(Replace(s, path, sub'), q) == if q == path then Some(sub'.vars) else VarsAt(s, q) {
      ReplaceVars(s, path, sub', q);
    }
    forall q | !PathPrefix(path, q) ensures ShapeAt(Replace(s, path, sub'), q) == ShapeAt(s, q) {
      ReplaceElsewhere(s, path, sub', q);
    }
    Replace(s, path, sub')
  }

  /** `Scope::create_scope`: a fresh empty child `id` under `path`,
      overwriting any previous child with that id. */
  function CreateScope(s: Scope, path: seq<nat>, id: nat): (r: Scope)
    requires HasPath(s, path)
    ensures Descend(r, path + [id]) == Some(EMPTY)
    ensures HasPath(r, path) && At(r, path).vars == At(s, path).vars
    ensures At(r, path).scopes.Keys == At(s, path).scopes.Keys + {id}
    ensures forall j :: j != id && j in At(s, path).scopes ==> At(r, path).scopes[j] == At(s, path).scopes[j]
    ensures forall q :: !PathPrefix(path, q) ==> ShapeAt(r, q) == ShapeAt(s, q)
  {
    var sub := At(s, path);
    var sub' := sub.(scopes := sub.scopes[id := EMPTY]);
    ReplaceAt(s, path, sub');
    DescendAppend(Replace(s, path, sub'), path, [id]);
    forall q | !PathPrefix(path, q) ensures ShapeAt(Replace(s, path, sub'), q) == ShapeAt(s, q) {
      ReplaceElsewhere(s, path, sub', q);
    }
    Replace(s, path, sub')
  }

  /** `Scope::drop_scope`: removes child `id` of the scope at `path`. */
  function DropScope(s: Scope, path: seq<nat>, id: nat): (r: Scope)
    requires HasPath(s, path)
    ensures HasPath(r, path) && At(r, path).vars == At(s, path).vars
    ensures At(r, path).scopes.Keys == At(s, path).scopes.Keys - {id}
    ensures forall j :: j != id && j in At(s, path).scopes ==> At(r, path).scopes[j] == At(s, path).scopes[j]
    ensures forall q :: !PathPrefix(path, q) ==> ShapeAt(r, q) == ShapeAt(s, q)
  {
    var sub := At(s, path);
    var sub' := sub.(scopes := sub.scopes - {id});
    ReplaceAt(s, path, sub');
    forall q | !PathPrefix(path, q) ensures ShapeAt(Replace(s, path, sub'), q) == ShapeAt(s, q) {
      ReplaceElsewhere(s, path, sub', q);
    }
    Replace(s, path, sub')
  }

  /** Dropping a child id the scope does not have changes nothing. */
  lemma {:induction false} DropAbsent(s: Scope, path: seq<nat>, id: nat)
    requires HasPath(s, path) && id !in At(s, path).scopes
    ensures DropScope(s, path, id) == s
    decreases |path|
  {
    var sub := At(s, path);
    assert sub.(scopes := sub.scopes - {id}) == sub;
    ReplaceSame(s, path);
  }

  /** Putting back the scope that is already at `path` changes nothing. */
  lemma {:induction false} ReplaceSame(s: Scope, path: seq<nat>)
    requires HasPath(s, path)
    ensures Replace(s, path, At(s, path)) == s
    decreases |path|
  {
    if |path| > 0 {
      ReplaceSame(s.scopes[path[0]], path[1..]);
    }
  }

  // ---------------------------------------------------------------------
  // Lookups, as the source writes them

  /** `Scope::get_variable`: the child's answer when it is a non-void value,
      otherwise this scope's own binding. */
  function GetVariable(s: Scope, name: string, path: seq<nat>): (r: LResult)
    requires HasPath(s, path)
    ensures r.Err? ==> r.error == VariableNotFound(name)
    decreases |path|
  {
    var inner := if |path| > 0 then Some(GetVariable(s.scopes[path[0]], name, path[1..])) else None;
    if inner.Some? && inner.value.Ok? && !IsVoid(inner.value.value) then inner.value
    else if name in s.vars then Ok(s.vars[name])
    else Err(VariableNotFound(name))
  }

  /** `Scope::get_variable_by_path`: like `get_variable`, but the holder must
      be bound to an instance, which answers for the rest of the path. */
  function GetVariableByPath(s: Scope, varPath: seq<string>, path: seq<nat>): (r: LResult)
    requires HasPath(s, path) && |varPath| > 0
    ensures r.Err? ==> r.error == VariableNotFound(varPath[0])
    decreases |path|
  {
    var inner := if |path| > 0 then Some(GetVariableByPath(s.scopes[path[0]], varPath, path[1..])) else None;
    if inner.Some? && inner.value.Ok? && !IsVoid(inner.value.value) then inner.value
    else if varPath[0] in s.vars && s.vars[varPath[0]].Instance? then
      Ok(GetProps(s.vars[varPath[0]].instance, varPath[1..]))
    else Err(VariableNotFound(varPath[0]))
  }

  /** `Scope::get_function`: the child's answer if it has one, otherwise
      this scope's binding when it is callable (also through a `Ref`). */
  function GetFunction(s: Scope, name: string, path: seq<nat>, cells: seq<Value>): Option<FuncVal>
    requires HasPath(s, path)
    decreases |path|
  {
    var inner := if |path| > 0 then GetFunction(s.scopes[path[0]], name, path[1..], cells) else None;
    if inner.Some? then inner
    else if name in s.vars then AsFunc(s.vars[name], cells)
    else None
  }

  // ---------------------------------------------------------------------
  // Lookups, stated over the chain of scopes from the root

  /** The scopes along `path`, the root first. */
  function Chain(s: Scope, path: seq<nat>): (r: seq<Scope>)
    requires HasPath(s, path)
    ensures |r| == |path| + 1 && r[0] == s
    decreases |path|
  {
    if |path| == 0 then [s] else [s] + Chain(s.scopes[path[0]], path[1..])
  }

  /** What one scope answers on its own. */
  function VarProbe(name: string): Scope -> LResult {
    (sc: Scope) => if name in sc.vars then Ok(sc.vars[name]) else Err(VariableNotFound(name))
  }

  function PropProbe(varPath: seq<string>): Scope -> LResult
    requires |varPath| > 0
  {
    (sc: Scope) =>
      if varPath[0] in sc.vars && sc.vars[varPath[0]].Instance? then
        Ok(GetProps(sc.vars[varPath[0]].instance, varPath[1..]))
      else Err(VariableNotFound(varPath[0]))
  }

  predicate Answers(probe: Scope -> LResult, sc: Scope) {
    probe(sc).Ok? && !IsVoid(probe(sc).value)
  }

  /** The innermost scope of the chain whose own answer is a non-void value. */
  function Innermost(chain: seq<Scope>, probe: Scope -> LResult): Option<Value>
    decreases |chain|
  {
    if |chain| == 0 then None
    else if Answers(probe, chain[|chain| - 1]) then Some(probe(chain[|chain| - 1]).value)
    else Innermost(chain[..|chain| - 1], probe)
  }

  lemma {:induction false} InnermostAnswers(chain: seq<Scope>, probe: Scope -> LResult)
    ensures Innermost(chain, probe).None? ==> forall j :: 0 <= j < |chain| ==> !Answers(probe, chain[j])
    ensures Innermost(chain, probe).Some? ==> exists j :: 0 <= j < |chain| && Answers(probe, chain[j]) && probe(chain[j]).value == Innermost(chain, probe).value
    decreases |chain|
  {
    if |chain| > 0 {
      var init := chain[..|chain| - 1];
      InnermostAnswers(init, probe);
      if Innermost(chain, probe).Some? && !Answers(probe, chain[|chain| - 1]) {
        var j :| 0 <= j < |init| && Answers(probe, init[j]) && probe(init[j]).value == Innermost(init, probe).value;
        assert chain[j] == init[j];
      }
    }
  }

  /** Innermost-first lookup: the innermost non-void answer, and when no
      scope has one, whatever the root answers. */
  function LookupSpec(chain: seq<Scope>, probe: Scope -> LResult): LResult
    requires |chain| > 0
  {
    match Innermost(chain, probe)
    case Some(v) => Ok(v)
    case None => probe(chain[0])
  }

  lemma {:induction false} InnermostAppend(a: seq<Scope>, b: seq<Scope>, probe: Scope -> LResult)
    ensures Innermost(a + b, probe) == if Innermost(b, probe).Some? then Innermost(b, probe) else Innermost(a, probe)
    decreases |b|
  {
    if |b| == 0 {
      assert a + b == a;
    } else {
      assert (a + b)[..|a + b| - 1] == a + b[..|b| - 1];
      InnermostAppend(a, b[..|b| - 1], probe);
    }
  }

  /** `get_variable` walks the path innermost-first: it returns the
      innermost non-void binding, skipping void bindings; failing that, the
      root's own binding (void included) or `VariableNotFound(name)`. */
  lemma {:induction false} GetVariableIsInnermost(s: Scope, name: string, path: seq<nat>)
    requires HasPath(s, path)
    ensures GetVariable(s, name, path) == LookupSpec(Chain(s, path), VarProbe(name))
    decreases |path|
  {
    var probe := VarProbe(name);
    assert Innermost([s], probe) == if Answers(probe, s) then Some(probe(s).value) else None by {
      assert [s][..0] == [];
    }
    if |path| > 0 {
      var child := s.scopes[path[0]];
      GetVariableIsInnermost(child, name, path[1..]);
      InnermostAppend([s], Chain(child, path[1..]), probe);
      var c := Chain(child, path[1..]);
      InnermostAnswers(c, probe);
      assert [s] + c == Chain(s, path);
    }
  }

  /** The same innermost-first walk for a dotted property path. */
  lemma {:induction false} GetVariableByPathIsInnermost(s: Scope, varPath: seq<string>, path: seq<nat>)
    requires HasPath(s, path) && |varPath| > 0
    ensures GetVariableByPath(s, varPath, path) == LookupSpec(Chain(s, path), PropProbe(varPath))
    decreases |path|
  {
    var probe := PropProbe(varPath);
    assert Innermost([s], probe) == if Answers(probe, s) then Some(probe(s).value) else None by {
      assert [s][..0] == [];
    }
    if |path| > 0 {
      var child := s.scopes[path[0]];
      GetVariableByPathIsInnermost(child, varPath, path[1..]);
      InnermostAppend([s], Chain(child, path[1..]), probe);
      var c := Chain(child, path[1..]);
      InnermostAnswers(c, probe);
      assert [s] + c == Chain(s, path);
    }
  }

  /** The innermost scope of the chain binding `name` to something callable. */
  function InnermostCallable(chain: seq<Scope>, name: string, cells: seq<Value>): Option<FuncVal>
    decreases |chain|
  {
    if |chain| == 0 then None
    else
      var sc := chain[|chain| - 1];
      if name in sc.vars && AsFunc(sc.vars[name], cells).Some? then AsFunc(sc.vars[name], cells)
      else InnermostCallable(chain[..|chain| - 1], name, cells)
  }

  lemma {:induction false} CallableAppend(a: seq<Scope>, b: seq<Scope>, name: string, cells: seq<Value>)
    ensures InnermostCallable(a + b, name, cells) ==
            if InnermostCallable(b, name, cells).Some? then InnermostCallable(b, name, cells)
            else InnermostCallable(a, name, cells)
    decreases |b|
  {
    if |b| == 0 {
      assert a + b == a;
    } else {
      assert (a + b)[..|a + b| - 1] == a + b[..|b| - 1];
      CallableAppend(a, b[..|b| - 1], name, cells);
    }
  }

  /** `get_function` returns the innermost callable binding: a binding that
      is not callable (and not a `Ref` to a function) is skipped and the
      search goes on outward. */
  lemma {:induction false} GetFunctionIsInnermost(s: Scope, name: string, path: seq<nat>, cells: seq<Value>)
    requires HasPath(s, path)
    ensures GetFunction(s, name, path, cells) == InnermostCallable(Chain(s, path), name, cells)
    decreases |path|
  {
    assert [s][..0] == [];
    if |path| > 0 {
      var child := s.scopes[path[0]];
      GetFunctionIsInnermost(child, name, path[1..], cells);
      CallableAppend([s], Chain(child, path[1..]), name, cells);
    }
  }

  /** A lookup depends only on the variables of the scopes along its path. */
  lemma {:induction false} LookupReadsChain(s: Scope, t: Scope, name: string, path: seq<nat>)
    requires HasPath(s, path) && HasPath(t, path)
    requires forall j :: 0 <= j <= |path| ==> VarsAt(s, path[..j]) == VarsAt(t, path[..j])
    ensures GetVariable(s, name, path) == GetVariable(t, name, path)
    decreases |path|
  {
    assert VarsAt(s, path[..0]) == VarsAt(t, path[..0]);
    assert path[..0] == [];
    if |path| > 0 {
      var p0 := path[0];
      forall j | 0 <= j <= |path| - 1
        ensures VarsAt(s.scopes[p0], path[1..][..j]) == VarsAt(t.scopes[p0], path[1..][..j])
      {
        assert path[..j + 1] == [p0] + path[1..][..j];
        assert VarsAt(s, path[..j + 1]) == VarsAt(t, path[..j + 1]);
      }
      LookupReadsChain(s.scopes[p0], t.scopes[p0], name, path[1..]);
    }
  }
}

/** The runtime value model: `LenarValue`, its equality, its accessors, the
    single-tag `LenarEnum`, and the cells behind `Ref` values.

    `Rc<RefCell<..>>` sharing is modelled with identities: a `Ref` names a
    cell of the heap's cell store, and every function value carries the
    identity of the shared object it points to, so that two copies of one
    closure are recognisably the same object. */
module Values {
  import opened Common

  /** The closed set of host functions `setup_globals` registers. */
  datatype BuiltinTag =
    | AddFn | RefFn | UnwrapErrFn | UnwrapFn | ErrFn | IsOkFn | OkFn
    | WaitFn | SleepFn | ThreadFn | ListFn | IterFn | ToStringFn
    | OpenFileFn | PrintFn | PrintLnFn | IsEqualFn

  /** A function object: a host builtin, or a closure created by a `fn`
      literal with its capture map (name to cell) and the arena keys of its
      parameter block and body block. */
  datatype FuncVal =
    | Builtin(id: nat, tag: BuiltinTag)
    | Closure(id: nat, captures: map<string, nat>, argumentsBlock: nat, blockValue: nat)

  /** The only host object: the `Lenar` global. */
  datatype InstanceKind = LenarGlobal

  datatype Value =
    | Usize(n: nat)
    | List(items: seq<Value>)
    | Str(text: string)
    | Byte(b: byte)
    | Bytes(bytes: seq<byte>)
    | OwnedBytes(bytes: seq<byte>)
    | Void
    | Bool(flag: bool)
    | Instance(instance: InstanceKind)
    | Function(func: FuncVal)
    | Enum(tag: string, payload: Value)
    | Ref(cell: nat)

  datatype LenarError = VariableNotFound(name: string) | WrongValue(what: string)

  /** `LenarResult<LenarValue>`. */
  datatype LResult = Ok(value: Value) | Err(error: LenarError)

  function BuiltinName(t: BuiltinTag): string {
    match t
    case AddFn => "add"
    case RefFn => "ref"
    case UnwrapErrFn => "unwrapErr"
    case UnwrapFn => "unwrap"
    case ErrFn => "Err"
    case IsOkFn => "isOk"
    case OkFn => "Ok"
    case WaitFn => "wait"
    case SleepFn => "sleep"
    case ThreadFn => "thread"
    case ListFn => "list"
    case IterFn => "iter"
    case ToStringFn => "toString"
    case OpenFileFn => "openFile"
    case PrintFn => "print"
    case PrintLnFn => "println"
    case IsEqualFn => "isEqual"
  }

  /** `RuntimeFunction::get_name`. */
  function FuncName(f: FuncVal): string {
    match f
    case Builtin(_, t) => BuiltinName(t)
    case Closure(_, _, _, _) => "Anonymous"
  }

  /** `RuntimeInstance::get_name`. */
  function InstanceName(i: InstanceKind): string {
    "Lenar"
  }

  /** `LenarGlobal::get_prop`. */
  function LenarProp(prop: string): (r: Value)
    ensures r != Void <==> prop == "version"
  {
    if prop == "version" then Str("1.0.0") else Void
  }

  /** The default `RuntimeInstance::get_props`: only the first segment after
      the holder is looked at. */
  function GetProps(i: InstanceKind, rest: seq<string>): (r: Value)
    ensures r != Void <==> |rest| > 0 && rest[0] == "version"
    ensures r != Void ==> r == Str("1.0.0")
  {
    if |rest| == 0 then Void else LenarProp(rest[0])
  }

  // ---------------------------------------------------------------------
  // Equality

  /** `impl PartialEq for LenarValue`. Lists compare element-wise with this
      same equality; every pair not listed, including a function, instance,
      byte, enum or ref compared with itself, is unequal. */
  predicate ValueEq(a: Value, b: Value)
    decreases a
  {
    match (a, b)
    case (Usize(x), Usize(y)) => x == y
    case (List(xs), List(ys)) =>
      |xs| == |ys| && forall i :: 0 <= i < |xs| ==> ValueEq(xs[i], ys[i])
    case (Str(x), Str(y)) => x == y
    case (Bytes(x), Bytes(y)) => x == y
    case (OwnedBytes(x), OwnedBytes(y)) => x == y
    case (Bool(x), Bool(y)) => x == y
    case (Void, Void) => true
    case _ => false
  }

  /** The values equality treats structurally all the way down. */
  predicate Plain(v: Value)
    decreases v
  {
    match v
    case Usize(_) => true
    case Str(_) => true
    case Bytes(_) => true
    case OwnedBytes(_) => true
    case Bool(_) => true
    case Void => true
    case List(xs) => forall i :: 0 <= i < |xs| ==> Plain(xs[i])
    case _ => false
  }

  /** Equality is reflexive exactly on plain values. */
  lemma {:induction false} EqReflexiveIffPlain(v: Value)
    ensures ValueEq(v, v) <==> Plain(v)
    decreases v
  {
    if v.List? {
      forall i | 0 <= i < |v.items| {
        EqReflexiveIffPlain(v.items[i]);
      }
    }
  }

  /** Equal values are plain and structurally identical. */
  lemma {:induction false} EqSound(a: Value, b: Value)
    requires ValueEq(a, b)
    ensures a == b && Plain(a)
    decreases a
  {
    if a.List? {
      forall i | 0 <= i < |a.items| ensures a.items[i] == b.items[i] && Plain(a.items[i]) {
        EqSound(a.items[i], b.items[i]);
      }
    }
  }

  /** Equality is symmetric. */
  lemma EqSymmetric(a: Value, b: Value)
    ensures ValueEq(a, b) <==> ValueEq(b, a)
  {
    if ValueEq(a, b) {
      EqSound(a, b);
    }
    if ValueEq(b, a) {
      EqSound(b, a);
    }
  }

  /** Equality is transitive. */
  lemma EqTransitive(a: Value, b: Value, c: Value)
    requires ValueEq(a, b) && ValueEq(b, c)
    ensures ValueEq(a, c)
  {
    EqSound(a, b);
    EqSound(b, c);
  }

  /** Function and instance handles are never equal to anything, even to
      themselves; so are bytes, enums and refs. */
  lemma HandlesNeverEqual(a: Value, b: Value)
    requires a.Function? || a.Instance? || a.Byte? || a.Enum? || a.Ref?
    ensures !ValueEq(a, b) && !ValueEq(b, a)
  {
    EqSymmetric(a, b);
    if ValueEq(a, b) {
      EqSound(a, b);
    }
  }

  // ---------------------------------------------------------------------
  // Accessors

  predicate IsVoid(v: Value) {
    v.Void?
  }

  /** `LenarValue::as_bytes`. */
  function AsBytes(v: Value): (r: Option<seq<byte>>)
    ensures r.Some? <==> v.Bytes? || v.OwnedBytes?
    ensures r.Some? ==> r.value == v.bytes
  {
    match v
    case OwnedBytes(b) => Some(b)
    case Bytes(b) => Some(b)
    case _ => None
  }

  /** Follows a chain of `Ref` cells, at most `steps` hops, to the first
      value that is not a `Ref`. A chain in a store built by the evaluator
      never revisits a cell, so `|cells|` hops always suffice. */
  function Deref(v: Value, cells: seq<Value>, steps: nat): (r: Option<Value>)
    ensures r.Some? ==> !r.value.Ref?
    ensures !v.Ref? ==> r == Some(v)
    decreases steps
  {
    if !v.Ref? then Some(v)
    else if steps == 0 || v.cell >= |cells| then None
    else Deref(cells[v.cell], cells, steps - 1)
  }

  /** The cells a chain of `Ref`s visits (each is borrowed on the way). */
  function RefChain(v: Value, cells: seq<Value>, steps: nat): (r: set<nat>)
    ensures v.Ref? && steps > 0 ==> v.cell in r
    ensures !v.Ref? ==> r == {}
    decreases steps
  {
    if !v.Ref? || steps == 0 then {}
    else if v.cell >= |cells| then {v.cell}
    else {v.cell} + RefChain(cells[v.cell], cells, steps - 1)
  }

  /** `LenarValue::as_integer`: an integer, also through refs. */
  function AsInteger(v: Value, cells: seq<Value>): (r: Option<nat>)
    ensures v.Usize? ==> r == Some(v.n)
    ensures !v.Usize? && !v.Ref? ==> r == None
    ensures v.Ref? && v.cell < |cells| && cells[v.cell].Usize? ==> r == Some(cells[v.cell].n)
    ensures r.Some? ==> Deref(v, cells, |cells|) == Some(Usize(r.value))
  {
    match Deref(v, cells, |cells|)
    case Some(Usize(n)) => Some(n)
    case _ => None
  }

  /** `LenarValue::as_func`: a function, also through refs. */
  function AsFunc(v: Value, cells: seq<Value>): (r: Option<FuncVal>)
    ensures v.Function? ==> r == Some(v.func)
    ensures !v.Function? && !v.Ref? ==> r == None
    ensures v.Ref? && v.cell < |cells| && cells[v.cell].Function? ==> r == Some(cells[v.cell].func)
    ensures r.Some? ==> Deref(v, cells, |cells|) == Some(Function(r.value))
  {
    match Deref(v, cells, |cells|)
    case Some(Function(f)) => Some(f)
    case _ => None
  }

  /** `LenarValue::set_integer` applied to the contents of cell `c`: an
      integer there is overwritten, a ref there is followed, anything else
      is left alone. */
  function SetIntegerInCell(cells: seq<Value>, c: nat, k: nat, steps: nat): (r: seq<Value>)
    ensures |r| == |cells|
    ensures c < |cells| && cells[c].Usize? ==> r == cells[c := Usize(k)]
    ensures c < |cells| && !cells[c].Usize? && !cells[c].Ref? ==> r == cells
    ensures forall i :: 0 <= i < |cells| && i !in RefChain(Ref(c), cells, steps + 1) ==> r[i] == cells[i]
    ensures forall i :: 0 <= i < |cells| && r[i] != cells[i] ==> r[i] == Usize(k) && cells[i].Usize?
    ensures var d := Deref(Ref(c), cells, steps + 1);
      d.Some? && d.value.Usize? ==> Deref(Ref(c), r, steps + 1) == Some(Usize(k))
    ensures var d := Deref(Ref(c), cells, steps + 1);
      !(d.Some? && d.value.Usize?) ==> r == cells
    decreases steps
  {
    if c >= |cells| then cells
    else match cells[c]
      case Usize(_) => cells[c := Usize(k)]
      case Ref(d) => if steps == 0 then cells else SetIntegerInCell(cells, d, k, steps - 1)
      case _ => cells
  }

  // ---------------------------------------------------------------------
  // LenarEnum

  /** `LenarEnum::new_with_variant`. */
  function NewWithVariant(name: string, v: Value): (r: Value)
    ensures r.Enum? && r.tag == name && r.payload == v
  {
    Enum(name, v)
  }

  /** `LenarEnum::peek_variant` / `get_variant`: the payload when the only
      tag is the one asked for. */
  function PeekVariant(e: Value, name: string): (r: Option<Value>)
    requires e.Enum?
    ensures r.Some? <==> e.tag == name
    ensures r.Some? ==> r.value == e.payload
  {
    if e.tag == name then Some(e.payload) else None
  }

  /** An enum built with one tag shows its payload under that tag and
      nothing under any other. */
  lemma VariantRoundTrip(t: string, u: string, v: Value)
    ensures PeekVariant(NewWithVariant(t, v), t) == Some(v)
    ensures u != t ==> PeekVariant(NewWithVariant(t, v), u) == None
  {
  }
}

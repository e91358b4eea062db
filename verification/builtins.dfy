/** The host functions of `setup_globals` that compute a value without
    calling back into the program: `isEqual`, `list`, the `Ok`/`Err`
    result helpers, and the shared cells behind `ref` and `add`.
    A builtin's arguments arrive as the sequence of evaluated argument values;
    the evaluator checks the arity these functions require (the source's
    `args.remove(0)` panics when there are too few). */
module Builtins {
  import opened Common
  import opened Values

  /** `isEqual(a, b)`: whether the first two arguments are equal; `false`
      when there are fewer than two. */
  function IsEqual(args: seq<Value>): (r: Value)
    ensures r.Bool?
    ensures r.flag ==> |args| >= 2 && args[0] == args[1] && Plain(args[0])
    ensures |args| >= 2 && args[0] == args[1] && Plain(args[0]) ==> r.flag
  {
    if |args| >= 2 then
      if ValueEq(args[0], args[1]) then
        EqSound(args[0], args[1]);
        Bool(true)
      else
        EqReflexiveIffPlain(args[0]);
        Bool(false)
    else Bool(false)
  }

  /** `list(..)`: the arguments, in order, as a list. Such a list is equal
      to itself exactly when none of its arguments holds a function,
      instance, byte, enum or ref. */
  function NewList(args: seq<Value>): (r: Value)
    ensures ValueEq(r, r) <==> forall i :: 0 <= i < |args| ==> Plain(args[i])
  {
    EqReflexiveIffPlain(List(args));
    List(args)
  }

  /** `Ok(v)`. */
  function MakeOk(v: Value): (r: Value)
    ensures r.Enum? && PeekVariant(r, "Ok") == Some(v) && PeekVariant(r, "Err") == None
  {
    NewWithVariant("Ok", v)
  }

  /** `Err(v)`. */
  function MakeErr(v: Value): (r: Value)
    ensures r.Enum? && PeekVariant(r, "Err") == Some(v) && PeekVariant(r, "Ok") == None
  {
    NewWithVariant("Err", v)
  }

  /** `isOk(v)`: `true` exactly for an enum whose tag is `Ok`. */
  function IsOk(v: Value): (r: Value)
    ensures r.Bool? && (r.flag <==> v.Enum? && v.tag == "Ok")
  {
    match v
    case Enum(_, _) => Bool(PeekVariant(v, "Ok").Some?)
    case _ => Bool(false)
  }

  /** `unwrap(v)`: the payload of an `Ok` enum; a `WrongValue("Ok")` error
      for any other enum; `Void` for a value that is not an enum. */
  function Unwrap(v: Value): (r: LResult)
    ensures v.Enum? && v.tag == "Ok" ==> r == Ok(v.payload)
    ensures v.Enum? && v.tag != "Ok" ==> r == Err(WrongValue("Ok"))
    ensures !v.Enum? ==> r == Ok(Void)
  {
    match v
    case Enum(_, _) =>
      (match PeekVariant(v, "Ok")
       case Some(p) => Ok(p)
       case None => Err(WrongValue("Ok")))
    case _ => Ok(Void)
  }

  /** `unwrapErr(v)`: the mirror image of `unwrap` for the `Err` tag. */
  function UnwrapErr(v: Value): (r: LResult)
    ensures v.Enum? && v.tag == "Err" ==> r == Ok(v.payload)
    ensures v.Enum? && v.tag != "Err" ==> r == Err(WrongValue("Err"))
    ensures !v.Enum? ==> r == Ok(Void)
  {
    match v
    case Enum(_, _) =>
      (match PeekVariant(v, "Err")
       case Some(p) => Ok(p)
       case None => Err(WrongValue("Err")))
    case _ => Ok(Void)
  }

  /** The result helpers: `unwrap` undoes `Ok`, `unwrapErr` undoes `Err`,
      each rejects the other tag, and `isOk` tells them apart. */
  lemma ResultLaws(v: Value)
    ensures Unwrap(MakeOk(v)) == Ok(v) && UnwrapErr(MakeErr(v)) == Ok(v)
    ensures Unwrap(MakeErr(v)) == Err(WrongValue("Ok"))
    ensures UnwrapErr(MakeOk(v)) == Err(WrongValue("Err"))
    ensures IsOk(MakeOk(v)) == Bool(true) && IsOk(MakeErr(v)) == Bool(false)
  {
  }

  /** For any value, `isOk` says `true` exactly when `unwrap` succeeds with
      a payload taken from an enum. */
  lemma IsOkIffUnwrapSucceeds(v: Value)
    requires v.Enum?
    ensures IsOk(v) == Bool(true) <==> Unwrap(v).Ok?
    ensures IsOk(v) == Bool(true) ==> UnwrapErr(v).Err?
  {
  }

  /** `ref(v)`: a new shared cell holding `v`. */
  function RefNew(v: Value, cells: seq<Value>): (r: (Value, seq<Value>))
    ensures r.0 == Ref(|cells|) && r.1 == cells + [v]
    ensures Deref(r.0, r.1, |r.1|) == Deref(v, r.1, |cells|)
  {
    (Ref(|cells|), cells + [v])
  }

  /** `add(target, increment)`. When the target is a `Ref`, its cell is
      borrowed mutably; the increment is then read as an integer (also
      through refs, which panics if the chain reaches the borrowed cell) and
      ASSIGNED to the integer the cell leads to. The result is that integer,
      or `Void`. `None` is a panic. */
  function Add(target: Value, increment: Value, cells: seq<Value>): (r: Option<(Value, seq<Value>)>)
    ensures !target.Ref? ==> r == Some((Void, cells))
    ensures r.None? <==> target.Ref? && (target.cell >= |cells| || target.cell in RefChain(increment, cells, |cells|))
    ensures r.Some? ==> |r.value.1| == |cells|
    ensures r.Some? && target.Ref? ==>
      forall i :: 0 <= i < |cells| && i !in RefChain(target, cells, |cells| + 1) ==> r.value.1[i] == cells[i]
    ensures r.Some? && AsInteger(increment, cells).None? ==> r.value == (Void, cells)
    ensures target.Ref? && target.cell < |cells| && cells[target.cell].Usize? && increment.Usize? ==>
      r == Some((increment, cells[target.cell := increment]))
  {
    if !target.Ref? then Some((Void, cells))
    else
      var c := target.cell;
      if c >= |cells| || c in RefChain(increment, cells, |cells|) then None
      else match AsInteger(increment, cells)
        case None => Some((Void, cells))
        case Some(k) =>
          var cells' := SetIntegerInCell(cells, c, k, |cells|);
          match AsInteger(cells'[c], cells')
          case Some(n) => Some((Usize(n), cells'))
          case None => Some((Void, cells'))
  }

  /** `add` assigns: adding twice through the same ref leaves the second
      increment in the cell, not the sum. */
  lemma AddAssigns(c: nat, cells: seq<Value>, a: nat, b: nat)
    requires c < |cells| && cells[c].Usize?
    ensures Add(Ref(c), Usize(a), cells).Some?
    ensures Add(Ref(c), Usize(b), Add(Ref(c), Usize(a), cells).value.1) == Some((Usize(b), cells[c := Usize(b)]))
  {
    var cells1 := cells[c := Usize(a)];
    assert Add(Ref(c), Usize(a), cells) == Some((Usize(a), cells1));
    assert cells1[c := Usize(b)] == cells[c := Usize(b)];
  }

  /** A ref to a ref: adding through the outer cell writes the integer in
      the inner cell, where every other holder of the inner ref sees it. */
  lemma AddThroughAlias(outer: nat, inner: nat, cells: seq<Value>, k: nat)
    requires outer < |cells| && inner < |cells| && outer != inner
    requires cells[outer] == Ref(inner) && cells[inner].Usize?
    ensures Add(Ref(outer), Usize(k), cells) == Some((Usize(k), cells[inner := Usize(k)]))
    ensures AsInteger(Ref(inner), cells[inner := Usize(k)]) == Some(k)
  {
    var cells' := cells[inner := Usize(k)];
    assert SetIntegerInCell(cells, outer, k, |cells|) == cells';
    assert Deref(cells'[outer], cells', |cells'|) == Some(Usize(k)) by {
      assert Deref(cells'[outer], cells', |cells'|) == Deref(cells'[inner], cells', |cells'| - 1);
    }
    assert Deref(Ref(inner), cells', |cells'|) == Some(Usize(k));
  }

  /** Adding a ref to itself (directly) is a borrow conflict. */
  lemma AddSelfPanics(c: nat, cells: seq<Value>)
    requires c < |cells|
    ensures Add(Ref(c), Ref(c), cells).None?
  {
  }
}

/** How values become bytes on standard output: `impl Display for
    LenarValue` (which must produce a `String`) and `PrintFunc::write`,
    which `print` and `println` apply to each argument. Writing to the
    stream is modelled as returning the bytes; `None` is a panic. */
module Render {
  import opened Common
  import opened Values

  /** Concatenating well-formed UTF-8 keeps it well-formed. */
  lemma {:induction false} Utf8Append(a: seq<byte>, b: seq<byte>)
    requires ValidUtf8(a) && ValidUtf8(b)
    ensures ValidUtf8(a + b)
    decreases |a|
  {
    if |a| == 0 {
      assert a + b == b;
    } else {
      var k := Width(a[0]);
      assert (a + b)[k..] == a[k..] + b;
      Utf8Append(a[k..], b);
    }
  }

  function Text(s: string): (r: seq<byte>)
    ensures ValidUtf8(r)
  {
    EncodeUtf8Valid(s);
    EncodeUtf8(s)
  }

  /** `Display for LenarValue`, following refs at most `steps` times. A list
      panics (its `debug_map` writes a value without a key), a byte or byte
      string that is not UTF-8 panics, and so does a function that is
      currently mutably borrowed (a member of `active`). */
  function Display(v: Value, cells: seq<Value>, active: set<nat>, steps: nat): (r: Option<seq<byte>>)
    ensures r.Some? ==> ValidUtf8(r.value)
    ensures v.List? ==> r.None?
    ensures v.Bytes? || v.OwnedBytes? ==> (r.Some? <==> ValidUtf8(v.bytes))
    ensures v.Byte? ==> (r.Some? <==> v.b < 0x80)
    ensures v.Function? ==> (r.None? <==> v.func.id in active)
    decreases steps, v
  {
    match v
    case Usize(n) => Some(Text(Decimal(n)))
    case List(_) => None
    case Str(s) => Some(Text(s))
    case Byte(b) =>
      if b < 0x80 then
        AsciiIsUtf8([b]);
        Some([b])
      else None
    case Bytes(b) => if ValidUtf8(b) then Some(b) else None
    case OwnedBytes(b) => if ValidUtf8(b) then Some(b) else None
    case Void => Some(Text("Void"))
    case Bool(b) => Some(Text(if b then "true" else "false"))
    case Instance(i) => Some(Text(InstanceName(i)))
    case Function(f) => if f.id in active then None else Some(Text(FuncName(f)))
    case Enum(tag, payload) =>
      (match Display(payload, cells, active, steps)
       case Some(inner) =>
         Utf8Append(Text(tag), Text("("));
         Utf8Append(Text(tag) + Text("("), inner);
         Utf8Append(Text(tag) + Text("(") + inner, Text(")"));
         Some(Text(tag) + Text("(") + inner + Text(")"))
       case None => None)
    case Ref(c) =>
      if steps == 0 || c >= |cells| then None
      else Display(cells[c], cells, active, steps - 1)
  }

  /** `to_string()` of a value, with enough steps for any acyclic ref chain. */
  function Shown(v: Value, cells: seq<Value>, active: set<nat>): Option<seq<byte>> {
    Display(v, cells, active, |cells| + 1)
  }

  /** `PrintFunc::write`: raw bytes for bytes, element after element for a
      list, the `Display` form for enums and the contents of refs. */
  function Write(v: Value, cells: seq<Value>, active: set<nat>): (r: Option<seq<byte>>)
    decreases v
  {
    match v
    case OwnedBytes(b) => Some(b)
    case Byte(b) => Some([b])
    case Bytes(b) => Some(b)
    case Function(f) => if f.id in active then None else Some(Text(FuncName(f)))
    case Instance(i) => Some(Text(InstanceName(i)))
    case Bool(b) => Some(Text(if b then "true" else "false"))
    case Usize(n) => Some(Text(Decimal(n)))
    case Str(s) => Some(Text(s))
    case List(items) => WriteAll(items, cells, active)
    case Void => Some(Text("Void"))
    case Enum(_, _) => Shown(v, cells, active)
    case Ref(c) => if c < |cells| then Display(cells[c], cells, active, |cells|) else None
  }

  /** Each value written in turn; a panic part-way stops the whole. */
  function WriteAll(vs: seq<Value>, cells: seq<Value>, active: set<nat>): (r: Option<seq<byte>>)
    ensures |vs| == 0 ==> r == Some([])
    decreases vs, 0
  {
    if |vs| == 0 then Some([])
    else match Write(vs[0], cells, active)
      case None => None
      case Some(first) =>
        match WriteAll(vs[1..], cells, active)
        case None => None
        case Some(rest) => Some(first + rest)
  }

  /** What `print(..)` writes. */
  function PrintOutput(args: seq<Value>, cells: seq<Value>, active: set<nat>): Option<seq<byte>> {
    WriteAll(args, cells, active)
  }

  /** What `println(..)` writes: the same, then a newline. */
  function PrintLnOutput(args: seq<Value>, cells: seq<Value>, active: set<nat>): (r: Option<seq<byte>>)
    ensures r.Some? <==> PrintOutput(args, cells, active).Some?
    ensures r.Some? ==> r.value == PrintOutput(args, cells, active).value + [10]
  {
    match WriteAll(args, cells, active)
    case Some(b) => Some(b + [10])
    case None => None
  }

  /** A panic part-way through the first values is a panic of the whole. */
  lemma {:induction false} WriteAllFailsEarly(a: seq<Value>, b: seq<Value>, cells: seq<Value>, active: set<nat>)
    requires WriteAll(a, cells, active).None?
    ensures WriteAll(a + b, cells, active).None?
    decreases |a|
  {
    var ab := a + b;
    assert ab[0] == a[0] && ab[1..] == a[1..] + b;
    if Write(a[0], cells, active).Some? {
      WriteAllFailsEarly(a[1..], b, cells, active);
    }
  }

  /** `println(..)` writes exactly what `print` would write with one more
      argument, the string `"\n"`. */
  lemma PrintLnIsPrintOfNewline(args: seq<Value>, cells: seq<Value>, active: set<nat>)
    ensures PrintLnOutput(args, cells, active) == PrintOutput(args + [Str("\n")], cells, active)
  {
    var nl := [Str("\n")];
    assert Text("\n") == [10];
    assert WriteAll(nl, cells, active) == Some([10]) by {
      assert nl[1..] == [];
    }
    if WriteAll(args, cells, active).Some? {
      WriteListConcat(args, nl, cells, active);
    } else {
      WriteAllFailsEarly(args, nl, cells, active);
    }
  }

  /** What `as_bytes` gives is exactly what `print` writes for the value. */
  lemma AsBytesIsWritten(v: Value, cells: seq<Value>, active: set<nat>)
    requires AsBytes(v).Some?
    ensures Write(v, cells, active) == AsBytes(v)
  {
  }

  /** Wherever `to_string()` succeeds, `print` writes exactly the same bytes;
      they differ only where `Display` panics (lists, bytes that are not
      UTF-8). */
  lemma WriteAgreesWithDisplay(v: Value, cells: seq<Value>, active: set<nat>)
    requires Shown(v, cells, active).Some?
    ensures Write(v, cells, active) == Shown(v, cells, active)
  {
  }

  /** A list is written as its elements one after another. */
  lemma {:induction false} WriteListConcat(a: seq<Value>, b: seq<Value>, cells: seq<Value>, active: set<nat>)
    requires WriteAll(a, cells, active).Some? && WriteAll(b, cells, active).Some?
    ensures WriteAll(a + b, cells, active) == Some(WriteAll(a, cells, active).value + WriteAll(b, cells, active).value)
    decreases |a|
  {
    if |a| == 0 {
      assert a + b == b;
      assert [] + WriteAll(b, cells, active).value == WriteAll(b, cells, active).value;
    } else {
      var ab := a + b;
      assert ab[0] == a[0] && ab[1..] == a[1..] + b;
      var first := Write(a[0], cells, active).value;
      var restA := WriteAll(a[1..], cells, active).value;
      var restB := WriteAll(b, cells, active).value;
      assert WriteAll(a, cells, active) == Some(first + restA);
      WriteListConcat(a[1..], b, cells, active);
      assert WriteAll(ab[1..], cells, active) == Some(restA + restB);
      assert WriteAll(ab, cells, active) == Some(first + (restA + restB));
      assert first + (restA + restB) == (first + restA) + restB;
    }
  }

  /** A number is printed as decimal digits that parse back to the number. */
  lemma PrintedNumberReadsBack(n: nat, cells: seq<Value>, active: set<nat>)
    requires n <= USIZE_MAX
    ensures Write(Usize(n), cells, active) == Some(AsciiBytes(Decimal(n)))
    ensures ParseUsize(Decimal(n)) == Some(n)
  {
    DecimalRoundTrip(n);
    assert IsAscii(Decimal(n));
  }
}

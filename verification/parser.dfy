/** The fused lexer/parser (`Parser::new`, `Parser::parse`): one left-to-right
    pass over the characters that appends `ParserObject` nodes to an arena.
    The slab never frees a key, so the arena is a sequence and a new node's
    key is the sequence's length before it was appended.

    The source slices the text with byte offsets while walking it character
    by character; the model takes ASCII input, where the two coincide. */
module Parser {
  import opened Common

  datatype Node =
    | Block(objects: seq<nat>)
    | VarDef(blockValue: nat, varName: string)
    | FnDef(argumentsBlock: nat, blockValue: nat, captureValue: nat)
    | IfDef(conditionBlock: nat, blockValue: nat)
    | NumberVal(value: nat)
    | StringVal(text: string)
    | BytesVal(bytes: seq<byte>)
    | FunctionCall(fnName: string, arguments: nat)
    | VarRef(varName: string)
    | PropertyRef(path: seq<string>)

  /** Which token closes an open block. */
  datatype BlockType = Generic | FuncCall | Value | FuncValue | FuncCapture

  /** `PerfomedAction`: what the previous token did. */
  datatype Action =
    | EnteredGlobalScope | DefinedVariable | OpenedBlock | ClosedBlock
    | ClosedStatement | OpenedString | ClosedString | FoundOperator(op: char)
    | CalledFunction | ReferencedVariable | FoundNumber

  /** The two ways `parse` panics: `=` outside `let NAME =`, and reading the
      current block when `)`, `}` or `]` have emptied the block stack. */
  datatype ParseError = SyntaxError(message: string) | EmptyBlockStack

  const EQUALS_MESSAGE: string := "Syntax error: Operator '=' is used to define initial values to variables."

  datatype Parser = Parser(objects: seq<Node>, globalBlock: nat)

  datatype Frame = Frame(key: nat, kind: BlockType)

  /** The loop state of `parse`: the arena, the block stack, the string
      counter and the last action. */
  datatype Scan = Scan(objects: seq<Node>, stack: seq<Frame>, stringCount: nat, last: Action)

  datatype StepResult = Advance(scan: Scan, next: nat) | Panic(error: ParseError)

  datatype ParseResult<T> = Parsed(value: T) | Failed(error: ParseError)

  // ---------------------------------------------------------------------
  // Well-formedness of the arena and of the block stack

  /** Every key a node refers to exists in an arena of `size` nodes. */
  predicate NodeRefsIn(n: Node, size: nat) {
    match n
    case Block(ks) => forall j :: 0 <= j < |ks| ==> ks[j] < size
    case VarDef(b, _) => b < size
    case FnDef(a, b, c) => a < size && b < size && c < size
    case IfDef(c, b) => c < size && b < size
    case FunctionCall(_, a) => a < size
    case _ => true
  }

  predicate ArenaWf(objs: seq<Node>) {
    forall k :: 0 <= k < |objs| ==> NodeRefsIn(objs[k], |objs|)
  }

  /** Every open block is a `Block` node of the arena. */
  predicate StackWf(objs: seq<Node>, stack: seq<Frame>) {
    forall j :: 0 <= j < |stack| ==> stack[j].key < |objs| && objs[stack[j].key].Block?
  }

  /** The loop invariant: a well-formed arena and stack, and a string counter
      that never reaches back before the start of the text. */
  predicate ScanWf(i: nat, st: Scan) {
    ArenaWf(st.objects) && StackWf(st.objects, st.stack) && st.stringCount <= i
  }

  predicate ParserWf(p: Parser) {
    ArenaWf(p.objects) && p.globalBlock < |p.objects| && p.objects[p.globalBlock].Block?
  }

  function Top(st: Scan): nat
    requires |st.stack| > 0
  {
    st.stack[|st.stack| - 1].key
  }

  function StackKeys(stack: seq<Frame>): set<nat> {
    set j | 0 <= j < |stack| :: stack[j].key
  }

  predicate IsPrefix<T(==)>(a: seq<T>, b: seq<T>) {
    |a| <= |b| && b[..|a|] == a
  }

  /** The stack `b` keeps the entries of `a` it has and adds only blocks
      created after the arena had `size` nodes. */
  predicate StackFrom(a: seq<Frame>, b: seq<Frame>, size: nat) {
    forall j :: 0 <= j < |b| ==> (j < |a| && b[j] == a[j]) || b[j].key >= size
  }

  /** One step changes no existing node except the current block, whose
      child list it may extend. */
  predicate StepFrame(a: Scan, b: Scan) {
    && |a.objects| <= |b.objects|
    && (forall k :: 0 <= k < |a.objects| ==>
          b.objects[k] == a.objects[k]
          || (|a.stack| > 0 && k == Top(a) && a.objects[k].Block? && b.objects[k].Block?
              && IsPrefix(a.objects[k].objects, b.objects[k].objects)))
    && StackFrom(a.stack, b.stack, |a.objects|)
  }

  /** A run changes no existing node except blocks that were open at its
      start, whose child lists it may extend. */
  predicate RunFrame(a: Scan, objs: seq<Node>) {
    && |a.objects| <= |objs|
    && (forall k :: 0 <= k < |a.objects| ==>
          objs[k] == a.objects[k]
          || (k in StackKeys(a.stack) && a.objects[k].Block? && objs[k].Block?
              && IsPrefix(a.objects[k].objects, objs[k].objects)))
  }

  // ---------------------------------------------------------------------
  // Character classes and lookahead

  /** `char::is_whitespace` (the Unicode White_Space property). */
  predicate IsWhitespace(c: char) {
    ('\t' <= c <= '\r') || c == ' ' || c == '\U{0085}' || c == '\U{00A0}' || c == '\U{1680}'
    || ('\U{2000}' <= c <= '\U{200A}') || c == '\U{2028}' || c == '\U{2029}' || c == '\U{202F}'
    || c == '\U{205F}' || c == '\U{3000}'
  }

  /** What `count_unexpected_between` counts. */
  predicate Unexpected(c: char) {
    IsWhitespace(c) || c == ';' || c == ')'
  }

  /** The characters that end `slice_until_delimeter`. */
  predicate IsDelimiter(c: char) {
    c == ',' || c == ';' || c == ')' || c == '}' || c == ' ' || c == '\n' || c == ']'
  }

  /** The index of the first `c` at or after `j`, or the length. */
  function FindFrom(s: string, j: nat, c: char): (k: nat)
    requires j <= |s|
    ensures j <= k <= |s|
    ensures k < |s| ==> s[k] == c
    ensures forall m :: j <= m < k ==> s[m] != c
    decreases |s| - j
  {
    if j == |s| || s[j] == c then j else FindFrom(s, j + 1, c)
  }

  /** The index of the first delimiter at or after `j`, or the length. */
  function DelimEnd(s: string, j: nat): (k: nat)
    requires j <= |s|
    ensures j <= k <= |s|
    ensures k < |s| ==> IsDelimiter(s[k])
    ensures forall m :: j <= m < k ==> !IsDelimiter(s[m])
    decreases |s| - j
  {
    if j == |s| || IsDelimiter(s[j]) then j else DelimEnd(s, j + 1)
  }

  /** `count_unexpected_between(i, until, code) == 0`: no whitespace, `;` or
      `)` from `i` up to the next `until` (or the end of the text). */
  predicate NoUnexpectedBefore(s: string, i: nat, until: char)
    requires i <= |s|
  {
    forall m :: i <= m < FindFrom(s, i, until) ==> !Unexpected(s[m])
  }

  /** `str::split`: the pieces between separators, always at least one. */
  function Split(s: string, sep: char): (r: seq<string>)
    ensures |r| >= 1
    ensures forall j :: 0 <= j < |r| ==> sep !in r[j]
    ensures Join(r, sep) == s
    decreases |s|
  {
    var k := FindFrom(s, 0, sep);
    if k == |s| then [s] else [s[..k]] + Split(s[k + 1..], sep)
  }

  /** The inverse of `Split`. */
  function Join(parts: seq<string>, sep: char): string
    requires |parts| >= 1
  {
    if |parts| == 1 then parts[0] else parts[0] + [sep] + Join(parts[1..], sep)
  }

  // ---------------------------------------------------------------------
  // Arena updates

  /** `ParserObject::add_object` on the block `parent`. */
  function AddChild(objs: seq<Node>, parent: nat, child: nat): (r: seq<Node>)
    requires parent < |objs| && objs[parent].Block?
    ensures |r| == |objs|
    ensures r[parent] == Block(objs[parent].objects + [child])
    ensures forall k :: 0 <= k < |objs| && k != parent ==> r[k] == objs[k]
  {
    objs[parent := Block(objs[parent].objects + [child])]
  }

  /** The new nodes refer only to keys of the arena they are appended to. */
  predicate NodesFit(nodes: seq<Node>, size: nat) {
    forall j :: 0 <= j < |nodes| ==> NodeRefsIn(nodes[j], size)
  }

  /** The pushed blocks are among the new nodes. */
  predicate PushFits(push: seq<Frame>, nodes: seq<Node>, base: nat) {
    forall j :: 0 <= j < |push| ==>
      base <= push[j].key < base + |nodes| && nodes[push[j].key - base].Block?
  }

  /** Appends `nodes` (whose last one is the statement), makes the statement
      a child of the current block and pushes `push`. */
  function Emit(st: Scan, nodes: seq<Node>, push: seq<Frame>, action: Action): (r: Scan)
    requires |st.stack| > 0 && ArenaWf(st.objects) && StackWf(st.objects, st.stack) && |nodes| > 0
    requires NodesFit(nodes, |st.objects| + |nodes|) && PushFits(push, nodes, |st.objects|)
    ensures |r.objects| == |st.objects| + |nodes|
    ensures r.objects[Top(st)] == Block(st.objects[Top(st)].objects + [|st.objects| + |nodes| - 1])
    ensures forall k :: 0 <= k < |st.objects| && k != Top(st) ==> r.objects[k] == st.objects[k]
    ensures r.objects[|st.objects|..] == nodes
    ensures r.stack == st.stack + push
    ensures r.stringCount == st.stringCount && r.last == action
    ensures ArenaWf(r.objects) && StackWf(r.objects, r.stack) && StepFrame(st, r)
  {
    var all := st.objects + nodes;
    var objs := AddChild(all, Top(st), |all| - 1);
    var r := st.(objects := objs, stack := st.stack + push, last := action);
    assert forall k :: |st.objects| <= k < |objs| ==> objs[k] == nodes[k - |st.objects|];
    assert StackWf(r.objects, r.stack) by {
      forall j | 0 <= j < |r.stack|
        ensures r.stack[j].key < |objs| && objs[r.stack[j].key].Block?
      {
        if j >= |st.stack| {
          assert r.stack[j] == push[j - |st.stack|];
        }
      }
    }
    r
  }

  /** Closes blocks: the stack shrinks to one of its prefixes. */
  function Close(st: Scan, keep: nat, action: Action): (r: Scan)
    requires keep <= |st.stack| && StackWf(st.objects, st.stack)
    ensures r.stack == st.stack[..keep] && r.objects == st.objects && r.last == action
    ensures r.stringCount == st.stringCount
    ensures StackWf(r.objects, r.stack) && StepFrame(st, r)
  {
    st.(stack := st.stack[..keep], last := action)
  }

  /** The bytes of `code[a..b]`. */
  function SliceBytes(code: string, a: nat, b: nat): (r: seq<byte>)
    requires IsAscii(code) && a <= b <= |code|
    ensures |r| == b - a
    ensures forall j :: 0 <= j < b - a ==> r[j] == code[a + j] as int
  {
    seq(b - a, j requires 0 <= j < b - a => code[a + j] as int)
  }

  // ---------------------------------------------------------------------
  // The scanner

  /** A step that advances moves forward, keeps the invariant and changes no
      existing node except the current block's child list. */
  predicate StepOk(code: string, i: nat, st: Scan, r: StepResult) {
    r.Advance? ==> i < r.next <= |code| && ScanWf(r.next, r.scan) && StepFrame(st, r.scan)
  }

  /** Inside a string every character but `"` only extends the literal;
      the closing `"` appends one `BytesVal` node holding the characters
      between the quotes. */
  function StepInString(code: string, i: nat, st: Scan): (r: StepResult)
    requires i < |code| && IsAscii(code) && ScanWf(i, st)
    requires st.stringCount > 0 && |st.stack| > 0
    ensures StepOk(code, i, st, r) && r.Advance?
    ensures code[i] != '"' ==> r == Advance(st.(stringCount := st.stringCount + 1), i + 1)
  {
    var sc := st.stringCount;
    if code[i] == '"' then
      var text := SliceBytes(code, i - sc + 1, i);
      Advance(Emit(st, [BytesVal(text)], [], ClosedString).(stringCount := 0), i + 1)
    else
      Advance(st.(stringCount := sc + 1), i + 1)
  }

  predicate IsPunctuation(c: char) {
    c == ')' || c == '=' || c == ';' || c == '"' || c == '{' || c == '}' || c == '[' || c == ']'
  }

  /** The single-character tokens outside a string. */
  function StepPunctuation(code: string, i: nat, st: Scan): (r: StepResult)
    requires i < |code| && IsAscii(code) && ScanWf(i, st)
    requires st.stringCount == 0 && |st.stack| > 0 && IsPunctuation(code[i])
    ensures StepOk(code, i, st, r)
    ensures code[i] == '=' ==> (r.Panic? <==> st.last != DefinedVariable)
    ensures r.Panic? ==> code[i] == '=' && r.error == SyntaxError(EQUALS_MESSAGE)
  {
    var c := code[i];
    var kind := st.stack[|st.stack| - 1].kind;
    var n := |st.objects|;
    if c == ')' then
      Advance(Close(st, |st.stack| - 1, ClosedStatement), i + 1)
    else if c == '=' then
      if st.last == DefinedVariable then Advance(st.(last := FoundOperator('=')), i + 1)
      else Panic(SyntaxError(EQUALS_MESSAGE))
    else if c == ';' then
      Advance(Close(st, if kind == Value then |st.stack| - 1 else |st.stack|, ClosedStatement), i + 1)
    else if c == '"' then
      Advance(st.(last := OpenedString, stringCount := 1), i + 1)
    else if c == '{' then
      Advance(Emit(st, [Block([])], [Frame(n, Generic)], OpenedBlock), i + 1)
    else if c == '}' then
      // Closing a block also closes a function or `if` body around it.
      var keep := |st.stack| - 1;
      var keep' := if keep > 0 && st.stack[keep - 1].kind == FuncValue then keep - 1 else keep;
      Advance(Close(st, keep', ClosedBlock), i + 1)
    else if c == '[' then
      Advance(st, i + 1)
    else
      Advance(Close(st, |st.stack| - 1, ClosedBlock), i + 1)
  }

  /** `r` is `st` with `nodes` appended to the arena, the last of them made
      the newest child of the current block, every other node kept, and
      `push` opened on top of the block stack. */
  predicate Appends(st: Scan, r: Scan, nodes: seq<Node>, push: seq<Frame>)
    requires |st.stack| > 0 && Top(st) < |st.objects| && st.objects[Top(st)].Block?
  {
    var n := |st.objects|;
    |r.objects| == n + |nodes| && r.objects[n..] == nodes &&
    r.objects[Top(st)] == Block(st.objects[Top(st)].objects + [n + |nodes| - 1]) &&
    (forall k :: 0 <= k < n && k != Top(st) ==> r.objects[k] == st.objects[k]) &&
    r.stack == st.stack + push
  }

  /** `let` matched as a 3-character substring. */
  predicate StartsLet(code: string, i: nat) {
    i + 3 <= |code| && code[i..i + 3] == "let"
  }

  /** `let NAME`: a value block and a `VarDef` naming it. `advance_by(3)`
      after the `l` also swallows the character after `let`; the name runs
      to the next space, which is consumed as well. */
  function StepLet(code: string, i: nat, st: Scan): (r: StepResult)
    requires i < |code| && IsAscii(code) && ScanWf(i, st)
    requires st.stringCount == 0 && |st.stack| > 0 && StartsLet(code, i)
    ensures StepOk(code, i, st, r) && r.Advance? && r.scan.last == DefinedVariable
  {
    var n := |st.objects|;
    var stop := FindFrom(code, LetNameStart(code, i), ' ');
    var next := if stop < |code| then stop + 1 else |code|;
    Advance(Emit(st, [Block([]), VarDef(n, LetName(code, i))], [Frame(n, Value)], DefinedVariable), next)
  }

  /** Where the name of a `let` starts: four characters after the `l`. */
  function LetNameStart(code: string, i: nat): (k: nat)
    ensures k <= |code|
  {
    if i + 4 <= |code| then i + 4 else |code|
  }

  /** The name of a `let`: from its start up to the next space. */
  function LetName(code: string, i: nat): string {
    code[LetNameStart(code, i)..FindFrom(code, LetNameStart(code, i), ' ')]
  }

  /** A call `name(`: `if` and `fn` get their own node shapes and open
      their blocks (the innermost one first to be filled). */
  function StepCall(code: string, i: nat, st: Scan): (r: StepResult)
    requires i < |code| && IsAscii(code) && ScanWf(i, st)
    requires st.stringCount == 0 && |st.stack| > 0
    ensures StepOk(code, i, st, r) && r.Advance? && r.scan.last == CalledFunction
  {
    var n := |st.objects|;
    var stop := FindFrom(code, i + 1, '(');
    var name := [code[i]] + code[i + 1..stop];
    var next := if stop < |code| then stop + 1 else |code|;
    if name == "if" then
      Advance(Emit(st, [Block([]), Block([]), IfDef(n, n + 1)],
                   [Frame(n + 1, FuncValue), Frame(n, FuncCall)], CalledFunction), next)
    else if name == "fn" then
      Advance(Emit(st, [Block([]), Block([]), Block([]), FnDef(n, n + 1, n + 2)],
                   [Frame(n + 1, FuncValue), Frame(n + 2, FuncCapture), Frame(n, FuncCall)],
                   CalledFunction), next)
    else
      Advance(Emit(st, [Block([]), FunctionCall(name, n)], [Frame(n, FuncCall)], CalledFunction), next)
  }

  /** `let NAME` appends an empty value block and a `VarDef` naming it,
      makes the `VarDef` the current block's newest child and opens the
      value block; the name is the text after `let ` up to the next space. */
  lemma StepLetAppends(code: string, i: nat, st: Scan)
    requires i < |code| && IsAscii(code) && ScanWf(i, st)
    requires st.stringCount == 0 && |st.stack| > 0 && StartsLet(code, i)
    ensures var n := |st.objects|;
      Appends(st, StepLet(code, i, st).scan, [Block([]), VarDef(n, LetName(code, i))], [Frame(n, Value)])
  {
    var n := |st.objects|;
    var nodes := [Block([]), VarDef(n, LetName(code, i))];
    assert StepLet(code, i, st).scan == Emit(st, nodes, [Frame(n, Value)], DefinedVariable);
    EmitAppends(st, nodes, [Frame(n, Value)], DefinedVariable);
  }

  /** `if(` appends its condition block, its body block and the `IfDef`;
      `fn(` its argument, body and capture blocks and the `FnDef`; any other
      `name(` its argument block and the `FunctionCall`. The statement
      becomes the current block's newest child and the blocks open with the
      one to be filled first on top. */
  lemma StepCallAppends(code: string, i: nat, st: Scan)
    requires i < |code| && IsAscii(code) && ScanWf(i, st)
    requires st.stringCount == 0 && |st.stack| > 0
    ensures var n := |st.objects|;
      var r := StepCall(code, i, st).scan;
      var name := [code[i]] + code[i + 1..FindFrom(code, i + 1, '(')];
      (name == "if" ==>
         Appends(st, r, [Block([]), Block([]), IfDef(n, n + 1)], [Frame(n + 1, FuncValue), Frame(n, FuncCall)])) &&
      (name == "fn" ==>
         Appends(st, r, [Block([]), Block([]), Block([]), FnDef(n, n + 1, n + 2)],
                 [Frame(n + 1, FuncValue), Frame(n + 2, FuncCapture), Frame(n, FuncCall)])) &&
      (name != "if" && name != "fn" ==>
         Appends(st, r, [Block([]), FunctionCall(name, n)], [Frame(n, FuncCall)]))
  {
  }

  /** The block stack under the punctuation characters: `)` and `]` close
      the current block, `;` closes it only when it is a `let` value block,
      `}` closes it and then a function or `if` body directly around it;
      none of them touches the arena. `{` appends an empty block to the
      current one and opens it, and `[` does nothing. */
  lemma StepPunctuationStack(code: string, i: nat, st: Scan)
    requires i < |code| && IsAscii(code) && ScanWf(i, st)
    requires st.stringCount == 0 && |st.stack| > 0 && IsPunctuation(code[i])
    ensures code[i] != '=' ==>
      var k := |st.stack|;
      var r := StepPunctuation(code, i, st).scan;
      (code[i] == ')' || code[i] == ']' ==> r.stack == st.stack[..k - 1]) &&
      (code[i] == ';' ==> r.stack == if st.stack[k - 1].kind == Value then st.stack[..k - 1] else st.stack) &&
      (code[i] == '}' ==>
         r.stack == st.stack[..if k >= 2 && st.stack[k - 2].kind == FuncValue then k - 2 else k - 1]) &&
      (code[i] in ");}]" ==> r.objects == st.objects) &&
      (code[i] == '[' ==> r == st)
    ensures code[i] == '{' ==>
      Appends(st, StepPunctuation(code, i, st).scan, [Block([])], [Frame(|st.objects|, Generic)])
  {
    var k := |st.stack|;
    var c := code[i];
    var r := StepPunctuation(code, i, st);
    if c == '{' {
      var n := |st.objects|;
      assert r.scan == Emit(st, [Block([])], [Frame(n, Generic)], OpenedBlock);
    } else if c == '}' {
      var keep := k - 1;
      var keep' := if keep > 0 && st.stack[keep - 1].kind == FuncValue then keep - 1 else keep;
      assert r.scan == Close(st, keep', ClosedBlock);
    } else if c == ';' {
      var keep := if st.stack[k - 1].kind == Value then k - 1 else k;
      assert r.scan == Close(st, keep, ClosedStatement);
      assert st.stack[..k] == st.stack;
    }
  }

  /** The word a word token spans: its first character and the rest up to
      the next delimiter. */
  function Word(code: string, i: nat): string
    requires i < |code|
  {
    [code[i]] + code[i + 1..DelimEnd(code, i + 1)]
  }

  /** The node a word appends: a dotted word is a `PropertyRef` of its
      segments, a word starting with a digit a `NumberVal` when it parses
      as a `usize` and nothing at all when it does not, and any other word
      a `VarRef`. No block is opened. */
  lemma StepWordAppends(code: string, i: nat, st: Scan)
    requires i < |code| && IsAscii(code) && ScanWf(i, st)
    requires st.stringCount == 0 && |st.stack| > 0
    ensures var r := StepWord(code, i, st).scan;
      (NoUnexpectedBefore(code, i, '.') ==> Appends(st, r, [PropertyRef(Split(Word(code, i), '.'))], [])) &&
      (!NoUnexpectedBefore(code, i, '.') && IsDigit(code[i]) && ParseUsize(Word(code, i)).Some? ==>
         Appends(st, r, [NumberVal(ParseUsize(Word(code, i)).value)], [])) &&
      (!NoUnexpectedBefore(code, i, '.') && IsDigit(code[i]) && ParseUsize(Word(code, i)).None? ==> r == st) &&
      (!NoUnexpectedBefore(code, i, '.') && !IsDigit(code[i]) ==> Appends(st, r, [VarRef(Word(code, i))], []))
  {
    if NoUnexpectedBefore(code, i, '.') {
      StepWordPath(code, i, st);
    } else if IsDigit(code[i]) {
      StepWordNumber(code, i, st);
    } else {
      StepWordName(code, i, st);
    }
  }

  lemma StepWordPath(code: string, i: nat, st: Scan)
    requires i < |code| && IsAscii(code) && ScanWf(i, st)
    requires st.stringCount == 0 && |st.stack| > 0 && NoUnexpectedBefore(code, i, '.')
    ensures Appends(st, StepWord(code, i, st).scan, [PropertyRef(Split(Word(code, i), '.'))], [])
  {
    var nodes := [PropertyRef(Split(Word(code, i), '.'))];
    assert StepWord(code, i, st).scan == Emit(st, nodes, [], ReferencedVariable);
    EmitAppends(st, nodes, [], ReferencedVariable);
  }

  lemma StepWordNumber(code: string, i: nat, st: Scan)
    requires i < |code| && IsAscii(code) && ScanWf(i, st)
    requires st.stringCount == 0 && |st.stack| > 0 && !NoUnexpectedBefore(code, i, '.') && IsDigit(code[i])
    ensures ParseUsize(Word(code, i)).Some? ==>
      Appends(st, StepWord(code, i, st).scan, [NumberVal(ParseUsize(Word(code, i)).value)], [])
    ensures ParseUsize(Word(code, i)).None? ==> StepWord(code, i, st).scan == st
  {
    var p := ParseUsize(Word(code, i));
    if p.Some? {
      var nodes := [NumberVal(p.value)];
      assert StepWord(code, i, st).scan == Emit(st, nodes, [], FoundNumber);
      EmitAppends(st, nodes, [], FoundNumber);
    }
  }

  lemma StepWordName(code: string, i: nat, st: Scan)
    requires i < |code| && IsAscii(code) && ScanWf(i, st)
    requires st.stringCount == 0 && |st.stack| > 0 && !NoUnexpectedBefore(code, i, '.') && !IsDigit(code[i])
    ensures Appends(st, StepWord(code, i, st).scan, [VarRef(Word(code, i))], [])
  {
    var nodes := [VarRef(Word(code, i))];
    assert StepWord(code, i, st).scan == Emit(st, nodes, [], ReferencedVariable);
    EmitAppends(st, nodes, [], ReferencedVariable);
  }

  /** `Emit` appends in the sense of `Appends`. */
  lemma EmitAppends(st: Scan, nodes: seq<Node>, push: seq<Frame>, action: Action)
    requires |st.stack| > 0 && ArenaWf(st.objects) && StackWf(st.objects, st.stack) && |nodes| > 0
    requires NodesFit(nodes, |st.objects| + |nodes|) && PushFits(push, nodes, |st.objects|)
    ensures Appends(st, Emit(st, nodes, push, action), nodes, push)
  {
  }

  /** A word that is not a call: a dotted property path, a number, or a
      variable reference, each running to the next delimiter. */
  function StepWord(code: string, i: nat, st: Scan): (r: StepResult)
    requires i < |code| && IsAscii(code) && ScanWf(i, st)
    requires st.stringCount == 0 && |st.stack| > 0
    ensures StepOk(code, i, st, r) && r.Advance?
    ensures r.next == DelimEnd(code, i + 1)
  {
    var c := code[i];
    var stop := DelimEnd(code, i + 1);
    var word := Word(code, i);
    if NoUnexpectedBefore(code, i, '.') then
      Advance(Emit(st, [PropertyRef(Split(word, '.'))], [], ReferencedVariable), stop)
    else if IsDigit(c) then
      match ParseUsize(word)
      case Some(v) => Advance(Emit(st, [NumberVal(v)], [], FoundNumber), stop)
      case None => Advance(st, stop)
    else
      Advance(Emit(st, [VarRef(word)], [], ReferencedVariable), stop)
  }

  /** One iteration of the loop in `parse`, reading the character at `i`. */
  function Step(code: string, i: nat, st: Scan): (r: StepResult)
    requires i < |code| && IsAscii(code) && ScanWf(i, st)
    ensures StepOk(code, i, st, r)
    ensures st.stringCount == 0 && code[i] == '=' && |st.stack| > 0 ==>
              (r.Panic? <==> st.last != DefinedVariable)
    ensures r.Panic? && r.error.SyntaxError? ==>
              code[i] == '=' && st.stringCount == 0 && st.last != DefinedVariable
    ensures r.Panic? && r.error.EmptyBlockStack? ==> |st.stack| == 0
  {
    var c := code[i];
    if st.stringCount == 0 && (c == ' ' || c == '\n') then Advance(st, i + 1)
    else if |st.stack| == 0 then Panic(EmptyBlockStack)
    else if st.stringCount > 0 then StepInString(code, i, st)
    else if IsPunctuation(c) then StepPunctuation(code, i, st)
    else if StartsLet(code, i) then StepLet(code, i, st)
    else if NoUnexpectedBefore(code, i, '(') then StepCall(code, i, st)
    else StepWord(code, i, st)
  }

  /** The loop of `parse` from position `i` to the end of the text. */
  function Run(code: string, i: nat, st: Scan): (r: ParseResult<Scan>)
    requires i <= |code| && IsAscii(code) && ScanWf(i, st)
    ensures r.Parsed? ==> ArenaWf(r.value.objects) && RunFrame(st, r.value.objects)
    decreases |code| - i
  {
    if i == |code| then Parsed(st)
    else match Step(code, i, st)
      case Panic(e) => Failed(e)
      case Advance(st', next) =>
        var r := Run(code, next, st');
        RunFrameStep(st, st', r);
        r
  }

  /** A step followed by a run changes no more than a run from the start. */
  lemma RunFrameStep(st: Scan, st': Scan, r: ParseResult<Scan>)
    requires StepFrame(st, st') && StackWf(st.objects, st.stack)
    requires r.Parsed? ==> RunFrame(st', r.value.objects)
    ensures r.Parsed? ==> RunFrame(st, r.value.objects)
  {
    if r.Parsed? {
      var objs := r.value.objects;
      forall k | 0 <= k < |st.objects|
        ensures objs[k] == st.objects[k]
          || (k in StackKeys(st.stack) && st.objects[k].Block? && objs[k].Block?
              && IsPrefix(st.objects[k].objects, objs[k].objects))
      {
        if |st.stack| > 0 && k == Top(st) {
          assert st.stack[|st.stack| - 1].key == k;
        }
        if k in StackKeys(st'.stack) {
          var j :| 0 <= j < |st'.stack| && st'.stack[j].key == k;
          assert j < |st.stack| && st'.stack[j] == st.stack[j];
        }
      }
    }
  }

  /** `Parser::parse`: parses more code into the arena. The block stack
      restarts as just the global block, so new top-level statements are
      appended to it. */
  function Parse(p: Parser, code: string): (r: ParseResult<Parser>)
    requires ParserWf(p) && IsAscii(code)
    ensures r.Parsed? ==> ParserWf(r.value) && r.value.globalBlock == p.globalBlock
    ensures r.Parsed? ==> |p.objects| <= |r.value.objects|
    ensures r.Parsed? ==> forall k :: 0 <= k < |p.objects| && k != p.globalBlock ==>
              r.value.objects[k] == p.objects[k]
    ensures r.Parsed? ==> IsPrefix(p.objects[p.globalBlock].objects,
                                   r.value.objects[p.globalBlock].objects)
  {
    var st := Scan(p.objects, [Frame(p.globalBlock, Generic)], 0, EnteredGlobalScope);
    assert st.stack[0].key == p.globalBlock;
    assert forall k :: k in StackKeys(st.stack) ==> k == p.globalBlock;
    match Run(code, 0, st)
    case Failed(e) => Failed(e)
    case Parsed(fin) => Parsed(Parser(fin.objects, p.globalBlock))
  }

  /** `Parser::new`: an arena holding only the empty global block, then
      `parse`. */
  function New(code: string): (r: ParseResult<Parser>)
    requires IsAscii(code)
    ensures r.Parsed? ==> ParserWf(r.value) && r.value.globalBlock == 0
  {
    Parse(Parser([Block([])], 0), code)
  }
  // ---------------------------------------------------------------------
  // Properties of the scanner

  /** The state after a string literal holding `bytes` closes: one
      `BytesVal` node appended as a child of the block that was current when
      the literal opened, and the block stack as it was. */
  function AfterString(st: Scan, bytes: seq<byte>): Scan
    requires |st.stack| > 0 && StackWf(st.objects, st.stack)
  {
    Scan(AddChild(st.objects + [BytesVal(bytes)], Top(st), |st.objects|), st.stack, 0, ClosedString)
  }

  /** Inside a string, each character up to the closing quote only counts. */
  lemma {:induction false} StringBody(code: string, i: nat, k: nat, j: nat, st: Scan)
    requires IsAscii(code) && i < k <= j < |code| && code[j] == '"'
    requires forall m :: i < m < j ==> code[m] != '"'
    requires ScanWf(k, st) && |st.stack| > 0 && st.stringCount == k - i
    ensures Run(code, k, st) == Run(code, j + 1, AfterString(st, SliceBytes(code, i + 1, j)))
    decreases j - k
  {
    if k < j {
      var st' := st.(stringCount := st.stringCount + 1);
      assert StepInString(code, k, st) == Advance(st', k + 1);
      assert Step(code, k, st) == Advance(st', k + 1);
      StringBody(code, i, k + 1, j, st');
    } else {
      var e := Emit(st, [BytesVal(SliceBytes(code, i + 1, j))], [], ClosedString).(stringCount := 0);
      assert e.objects == AddChild(st.objects + [BytesVal(SliceBytes(code, i + 1, j))], Top(st), |st.objects|);
      assert StepInString(code, k, st) == Advance(e, j + 1);
      assert Step(code, k, st) == Advance(e, j + 1);
      assert e == AfterString(st, SliceBytes(code, i + 1, j));
      assert Run(code, k, st) == Run(code, j + 1, e);
    }
  }

  /** An opening `"` only starts counting the literal. */
  lemma StringOpen(code: string, i: nat, st: Scan)
    requires IsAscii(code) && i < |code| && code[i] == '"'
    requires ScanWf(i, st) && st.stringCount == 0 && |st.stack| > 0
    ensures Run(code, i, st) == Run(code, i + 1, st.(last := OpenedString, stringCount := 1))
  {
    assert StepPunctuation(code, i, st) == Advance(st.(last := OpenedString, stringCount := 1), i + 1);
  }

  /** A double-quoted literal appends exactly one `BytesVal` node, holding
      the characters between the quotes, to the current block; spaces,
      braces, `;`, `=`, parentheses, brackets and `let` inside it create no
      nodes and leave the block stack as it was. */
  lemma StringLiteral(code: string, i: nat, j: nat, st: Scan)
    requires IsAscii(code) && i < j < |code| && code[i] == '"' && code[j] == '"'
    requires forall m :: i < m < j ==> code[m] != '"'
    requires ScanWf(i, st) && st.stringCount == 0 && |st.stack| > 0
    ensures Run(code, i, st) == Run(code, j + 1, AfterString(st, AsciiBytes(code[i + 1..j])))
    ensures AfterString(st, AsciiBytes(code[i + 1..j])).objects[|st.objects|] == BytesVal(AsciiBytes(code[i + 1..j]))
  {
    var st1 := st.(last := OpenedString, stringCount := 1);
    StringOpen(code, i, st);
    SliceIsAscii(code, i + 1, j);
    StringBody(code, i, i + 1, j, st1);
    AfterStringShape(st, st1, AsciiBytes(code[i + 1..j]));
  }

  /** The state after a string ends with the literal's node and depends
      only on the arena and the stack it started from. */
  lemma AfterStringShape(st: Scan, st': Scan, b: seq<byte>)
    requires |st.stack| > 0 && StackWf(st.objects, st.stack)
    requires st'.objects == st.objects && st'.stack == st.stack
    ensures AfterString(st', b) == AfterString(st, b)
    ensures AfterString(st, b).objects[|st.objects|] == BytesVal(b)
  {
  }

  lemma SliceIsAscii(code: string, a: nat, b: nat)
    requires IsAscii(code) && a <= b <= |code|
    ensures SliceBytes(code, a, b) == AsciiBytes(code[a..b])
  {
  }

  /** Outside a string, `=` right after anything but `let NAME` makes the
      whole parse panic with the syntax error. */
  lemma EqualsOutsideLet(code: string, i: nat, st: Scan)
    requires IsAscii(code) && i < |code| && ScanWf(i, st)
    requires code[i] == '=' && st.stringCount == 0 && |st.stack| > 0 && st.last != DefinedVariable
    ensures Run(code, i, st) == Failed(SyntaxError(EQUALS_MESSAGE))
  {
  }

  /** Right after `let NAME`, `=` is accepted and the parse goes on. */
  lemma EqualsAfterLet(code: string, i: nat, st: Scan)
    requires IsAscii(code) && i < |code| && ScanWf(i, st)
    requires code[i] == '=' && st.stringCount == 0 && |st.stack| > 0 && st.last == DefinedVariable
    ensures Run(code, i, st) == Run(code, i + 1, st.(last := FoundOperator('=')))
  {
  }
}

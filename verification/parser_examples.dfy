/** Concrete parses, worked step by step. */
module ParserExamples {
  import opened Common
  import opened Parser

  const EQ_CODE: string := "x = 1"

  /** The scan when the parser starts: the global block only. */
  function Start(): Scan {
    Scan([Block([])], [Frame(0, Generic)], 0, EnteredGlobalScope)
  }

  /** The scan after `x`: a reference to `x` in the global block. */
  function AfterX(): Scan {
    Scan([Block([1]), VarRef("x")], [Frame(0, Generic)], 0, ReferencedVariable)
  }

  lemma EqFirstWord()
    ensures Step(EQ_CODE, 0, Start()) == Advance(AfterX(), 1)
  {
    var code := EQ_CODE;
    assert Unexpected(code[1]);
    assert !NoUnexpectedBefore(code, 0, '(');
    assert !NoUnexpectedBefore(code, 0, '.');
    assert DelimEnd(code, 1) == 1;
    assert !StartsLet(code, 0);
    assert [code[0]] + code[1..1] == "x";
    assert Emit(Start(), [VarRef("x")], [], ReferencedVariable) == AfterX();
    assert StepWord(code, 0, Start()) == Advance(AfterX(), 1);
  }

  lemma EqRest()
    ensures Run(EQ_CODE, 1, AfterX()) == Failed(SyntaxError(EQUALS_MESSAGE))
  {
    assert Step(EQ_CODE, 1, AfterX()) == Advance(AfterX(), 2);
    assert Run(EQ_CODE, 2, AfterX()) == Failed(SyntaxError(EQUALS_MESSAGE));
  }

  lemma EqRun()
    ensures Run(EQ_CODE, 0, Start()) == Failed(SyntaxError(EQUALS_MESSAGE))
  {
    EqFirstWord();
    EqRest();
  }

  /** `x = 1` is rejected: an `=` that does not follow a `let` is the
      parser's one syntax error. */
  lemma EqExample()
    ensures New(EQ_CODE) == Failed(SyntaxError(EQUALS_MESSAGE))
  {
    EqRun();
  }
}

/**
 * The template test cases for static text, substitutions and escapes, as
 * lemmas: each template compiles to the stated program, and the program
 * renders the expected text over the test's input.
 */
module RenderExamples {
  import opened Results
  import opened Bytecode
  import opened Scan
  import opened Compiler
  import opened Binding
  import opened Substitutions
  import opened SubstitutionRendering
  import Vm

  // Static text.

  /** `Expressionless :|` compiles to one Copy and prints itself. */
  lemma StaticExample<S>(cb: Vm.Callbacks<S>, init: S)
    ensures CompileSpec("Expressionless :|") == Success(Program(["Expressionless :|"], [], [], [Encode(Copy, 0), HaltWord]))
    ensures Vm.Run(["Expressionless :|"], [Encode(Copy, 0), HaltWord], cb, init, 1) == Success("Expressionless :|")
  {
    NoDollarNoOpener("Expressionless :|");
    StaticCompiles("Expressionless :|");
    CopyRenders("Expressionless :|", cb, init, 1);
  }

  // Substitution.

  /** The test templates, written out. */
  lemma TestTexts()
    ensures SubstText("someVal: ", "someVal") == "someVal: $(someVal)"
    ensures EscapeText("", 1, "val") == "\\$(val)" && EscapeText("2+3=", 1, "val") == "2+3=\\$(val)"
    ensures EscapeText("", 2, "val") == "\\\\$(val)" && EscapeText("2+3=", 2, "val") == "2+3=\\\\$(val)"
    ensures EscapeText("", 3, "val") == "\\\\\\$(val)" && EscapeText("2+3=", 3, "val") == "2+3=\\\\\\$(val)"
  {
    assert Backslashes(1) == "\\" && Backslashes(2) == "\\\\" && Backslashes(3) == "\\\\\\";
  }

  /** The program of `someVal: $(someVal)`. */
  function SomeValProgram(): (prog: Program) {
    Program(["someVal: "], ["someVal"], [], [Encode(Copy, 0), Encode(Substitute, 0), HaltWord])
  }

  /** `someVal: $(someVal)` compiles to a Copy of the prefix and a substitution of someVal. */
  lemma SomeValCompiles()
    ensures CompileSpec(SubstText("someVal: ", "someVal")) == Success(SomeValProgram())
  {
    assert IsIdentifier("someVal");
    NoDollarNoOpener("someVal: ");
    KeptSubstitutionCompiles("someVal: ", "someVal");
  }

  /** The program of `someVal: $(someVal)` over one input. */
  function SomeValRun(input: Input, inc: nat -> string): (run: Result<string, Vm.VmError>) {
    var p := SomeValProgram();
    Vm.Run(p.fragments, p.code, InputCallbacks(input, p.varNames, inc), map[], 2)
  }

  /** The program of `someVal: $(someVal)` prints the prefix and then the value. */
  lemma SomeValRenders(input: Input, inc: nat -> string)
    ensures SomeValRun(input, inc) == Success("someVal: " + Bound(input, "someVal"))
  {
    CopySubstRenders("someVal: ", "someVal", input, inc, 2);
  }

  /** An int prints in decimal. */
  lemma SomeValInt(inc: nat -> string)
    ensures SomeValRun(map["someVal" := Int(123)], inc) == Success("someVal: 123")
  {
    SomeValRenders(map["someVal" := Int(123)], inc);
    assert NatText(123) == "123" by {
      assert NatText(1) == "1";
      assert NatText(12) == "12";
    }
    assert "someVal: " + "123" == "someVal: 123";
  }

  /** A bool prints as `true` or `false`. */
  lemma SomeValBool(inc: nat -> string)
    ensures SomeValRun(map["someVal" := Bool(true)], inc) == Success("someVal: true")
  {
    SomeValRenders(map["someVal" := Bool(true)], inc);
    assert "someVal: " + "true" == "someVal: true";
  }

  /** A string prints as itself. */
  lemma SomeValString(inc: nat -> string)
    ensures SomeValRun(map["someVal" := Str("indeed")], inc) == Success("someVal: indeed")
  {
    SomeValRenders(map["someVal" := Str("indeed")], inc);
    assert "someVal: " + "indeed" == "someVal: indeed";
  }

  /** A missing name prints nothing. */
  lemma SomeValMissing(inc: nat -> string)
    ensures SomeValRun(map[], inc) == Success("someVal: ")
  {
    SomeValRenders(map[], inc);
    assert "someVal: " + "" == "someVal: ";
  }

  // Escapes, over the input val = 5.

  /** `\$(val)` compiles to two Copies: `$` and `(val)`. */
  lemma EscapedExpressionCompiles()
    ensures CompileSpec(EscapeText("", 1, "val")) == Success(Program(["$", "(val)"], [], [], [Encode(Copy, 0), Encode(Copy, 1), HaltWord]))
  {
    assert IsIdentifier("val");
    EscapeCompiles("", "val");
    assert "" + "$" == "$" && "(" + "val" + ")" == "(val)";
  }

  /** `2+3=\$(val)` compiles to two Copies: `2+3=$` and `(val)`. */
  lemma EscapedExpressionAfterTextCompiles()
    ensures CompileSpec(EscapeText("2+3=", 1, "val")) == Success(Program(["2+3=$", "(val)"], [], [], [Encode(Copy, 0), Encode(Copy, 1), HaltWord]))
  {
    assert IsIdentifier("val");
    NoDollarNoOpener("2+3=");
    EscapeCompiles("2+3=", "val");
    assert "2+3=" + "$" == "2+3=$" && "(" + "val" + ")" == "(val)";
  }

  /** `\\$(val)` compiles to a Copy of `\` and the substitution of val. */
  lemma EscapedEscapeCompilesExample()
    ensures CompileSpec(EscapeText("", 2, "val")) == Success(Program(["\\"], ["val"], [], [Encode(Copy, 0), Encode(Substitute, 0), HaltWord]))
  {
    assert IsIdentifier("val");
    EscapedEscapeCompiles("", 2, "val");
    assert "" + Backslashes(1) == "\\";
  }

  /** `\\\$(val)` compiles to a Copy of `\\` and the substitution of val. */
  lemma BackslashBeforeEscapedExpressionCompiles()
    ensures CompileSpec(EscapeText("", 3, "val")) == Success(Program(["\\\\"], ["val"], [], [Encode(Copy, 0), Encode(Substitute, 0), HaltWord]))
  {
    assert IsIdentifier("val");
    EscapedEscapeCompiles("", 3, "val");
    assert "" + Backslashes(2) == "\\\\";
  }

  /** `2+3=\\$(val)` compiles to a Copy of `2+3=\` and the substitution of val. */
  lemma EscapedEscapeAfterTextCompiles()
    ensures CompileSpec(EscapeText("2+3=", 2, "val")) == Success(Program(["2+3=\\"], ["val"], [], [Encode(Copy, 0), Encode(Substitute, 0), HaltWord]))
  {
    assert IsIdentifier("val");
    NoDollarNoOpener("2+3=");
    EscapedEscapeCompiles("2+3=", 2, "val");
    assert "2+3=" + Backslashes(1) == "2+3=\\";
  }

  /** `2+3=\\\$(val)` compiles to a Copy of `2+3=\\` and the substitution of val. */
  lemma BackslashBeforeEscapedExpressionAfterTextCompiles()
    ensures CompileSpec(EscapeText("2+3=", 3, "val")) == Success(Program(["2+3=\\\\"], ["val"], [], [Encode(Copy, 0), Encode(Substitute, 0), HaltWord]))
  {
    assert IsIdentifier("val");
    NoDollarNoOpener("2+3=");
    EscapedEscapeCompiles("2+3=", 3, "val");
    assert "2+3=" + Backslashes(2) == "2+3=\\\\";
  }

  /** The input of the escape tests. */
  function ValInput(): (bound: Input) {
    map["val" := Int(5)]
  }

  /** A program's output over that input. */
  function ValRun(p: Program, inc: nat -> string): (run: Result<string, Vm.VmError>) {
    Vm.Run(p.fragments, p.code, InputCallbacks(ValInput(), p.varNames, inc), map[], 2)
  }

  /** Copying w and substituting val prints w and then 5. */
  lemma ValRenders(w: string, inc: nat -> string)
    ensures ValRun(Program([w], ["val"], [], [Encode(Copy, 0), Encode(Substitute, 0), HaltWord]), inc) == Success(w + "5")
  {
    CopySubstRenders(w, "val", ValInput(), inc, 2);
    assert NatText(5) == "5";
  }

  /** Copying `w$` and `(val)` prints `w$(val)`. */
  lemma ValEscapeRenders(w: string, inc: nat -> string)
    ensures ValRun(Program([w + "$", "(val)"], [], [], [Encode(Copy, 0), Encode(Copy, 1), HaltWord]), inc) == Success(w + "$(val)")
  {
    EscapedProgramRenders(w, "val", InputCallbacks(ValInput(), [], inc), map[], 2);
    assert "(" + "val" + ")" == "(val)";
    assert w + "$(" + "val" + ")" == w + "$(val)";
  }

  /** The escaped expressions' programs print `$(val)` and `2+3=$(val)`. */
  lemma EscapedExpressionRenders(inc: nat -> string)
    ensures ValRun(Program(["$", "(val)"], [], [], [Encode(Copy, 0), Encode(Copy, 1), HaltWord]), inc) == Success("$(val)")
    ensures ValRun(Program(["2+3=$", "(val)"], [], [], [Encode(Copy, 0), Encode(Copy, 1), HaltWord]), inc) == Success("2+3=$(val)")
  {
    var w, w' := "", "2+3=";
    assert w + "$" == "$" && w + "$(val)" == "$(val)";
    assert w' + "$" == "2+3=$" && w' + "$(val)" == "2+3=$(val)";
    ValEscapeRendersAs(w, "$", "$(val)", inc);
    ValEscapeRendersAs(w', "2+3=$", "2+3=$(val)", inc);
  }

  /** The escape program for prefix w, with its fragment and its output spelled out. */
  lemma ValEscapeRendersAs(w: string, fragment: string, out: string, inc: nat -> string)
    requires fragment == w + "$" && out == w + "$(val)"
    ensures ValRun(Program([fragment, "(val)"], [], [], [Encode(Copy, 0), Encode(Copy, 1), HaltWord]), inc) == Success(out)
  {
    ValEscapeRenders(w, inc);
  }

  /** The escaped escapes' programs print `\5`, `\\5`, `2+3=\5` and `2+3=\\5`. */
  lemma EscapedEscapeRenders(inc: nat -> string)
    ensures ValRun(Program(["\\"], ["val"], [], [Encode(Copy, 0), Encode(Substitute, 0), HaltWord]), inc) == Success("\\5")
    ensures ValRun(Program(["\\\\"], ["val"], [], [Encode(Copy, 0), Encode(Substitute, 0), HaltWord]), inc) == Success("\\\\5")
    ensures ValRun(Program(["2+3=\\"], ["val"], [], [Encode(Copy, 0), Encode(Substitute, 0), HaltWord]), inc) == Success("2+3=\\5")
    ensures ValRun(Program(["2+3=\\\\"], ["val"], [], [Encode(Copy, 0), Encode(Substitute, 0), HaltWord]), inc) == Success("2+3=\\\\5")
  {
    ValRenders("\\", inc);
    assert "\\" + "5" == "\\5";
    ValRenders("\\\\", inc);
    assert "\\\\" + "5" == "\\\\5";
    ValRenders("2+3=\\", inc);
    assert "2+3=\\" + "5" == "2+3=\\5";
    ValRenders("2+3=\\\\", inc);
    assert "2+3=\\\\" + "5" == "2+3=\\\\5";
  }

  // The one-character literal.

  /** `a$(x)` compiles as `$(x)`: the one-character literal before a directive is dropped. */
  lemma OneCharacterLiteralDropped(c: char, x: string)
    requires c != '$' && c != '\\' && IsIdentifier(x) && x != "end"
    ensures CompileSpec([c] + "$(" + x + ")") == Success(Program([], [x], [], [Encode(Substitute, 0), HaltWord]))
    ensures CompileSpec([c] + "$(" + x + ")") == CompileSpec("$(" + x + ")")
  {
    assert SubstText([c], x) == [c] + "$(" + x + ")";
    assert SubstText([], x) == "$(" + x + ")";
    SubstitutionCompiles([c], x);
    SubstitutionCompiles([], x);
    assert Empty.code + [Encode(Substitute, 0)] + [HaltWord] == [Encode(Substitute, 0), HaltWord];
  }
}

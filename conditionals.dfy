/**
 * The conditional `$(if x)body$(end)`: compiled pass by pass to the test of
 * x, a FalseJump past the body, and the body; rendered, it prints the body
 * exactly when x is bound, whatever x is bound to.
 */
module Conditionals {
  import opened Results
  import opened Bytecode
  import opened Scan
  import opened Compiler
  import opened Passes
  import opened Binding
  import Vm

  // The template and its text.

  /** The template `$(if x)body$(end)`. */
  function IfText(x: string, body: string): (text: string) {
    "$(if " + x + ")" + body + "$(end)"
  }

  /** s starts with `$(if x)`. */
  predicate IfHeader(s: string, x: string) {
    var a := 5 + |x|;
    && |s| > a
    && s[0] == '$' && s[1] == '(' && s[2] == 'i' && s[3] == 'f' && s[4..5] == " "
    && s[5..a] == x && s[a] == ')'
  }

  /** s is laid out as `$(if x)body$(end)`, character by character. */
  predicate IfShaped(s: string, x: string, body: string) {
    var a := 5 + |x|; var m := a + 1 + |body|;
    && |s| == m + 6 && IfHeader(s, x) && s[a + 1..m] == body
    && s[m] == '$' && s[m + 1] == '(' && s[m + 2] == 'e' && s[m + 3] == 'n' && s[m + 4] == 'd' && s[m + 5] == ')'
  }

  /** The text of the template has that layout. */
  lemma IfShape(x: string, body: string)
    ensures IfShaped(IfText(x, body), x, body)
  {
    var s := IfText(x, body);
    var m := 6 + |x| + |body|;
    assert s[m..] == "$(end)";
    assert s[m] == s[m..][0] && s[m + 1] == s[m..][1] && s[m + 2] == s[m..][2];
    assert s[m + 3] == s[m..][3] && s[m + 4] == s[m..][4] && s[m + 5] == s[m..][5];
  }

  /** The header of a conditional parses as a test of x. */
  lemma IfParses(s: string, x: string)
    requires IfHeader(s, x) && IsIdentifier(x)
    ensures ParseDirective(s, 2) == Some((If(Group(5, 5 + |x|)), 6 + |x|))
  {
    assert IsSpace(s[4..5][0]);
    ParseIfComplete(s, 2, 5, 6 + |x|);
  }

  // Compilation, pass by pass.

  /** The tables after `$(if x)`. */
  function IfHead(x: string): (prog: Program) {
    Program([], [x], [], [Encode(Immediate, 0), TagValue(FalseJump)])
  }

  /** The tables after the body. */
  function IfBody(x: string, body: string): (prog: Program) {
    Program([body], [x], [], [Encode(Immediate, 0), TagValue(FalseJump), Encode(Copy, 0)])
  }

  /** The tables after `$(end)`: the FalseJump now leaves the block for the word after the body. */
  function IfDone(x: string, body: string): (prog: Program) {
    Program([body], [x], [], [Encode(Immediate, 0), Encode(FalseJump, 3), Encode(Copy, 0)])
  }

  /** The test is an open placeholder until `$(end)` is reached. */
  lemma IfHeadPlaceholder(x: string, body: string)
    ensures Placeholders(IfHead(x).code, [1]) && Placeholders(IfBody(x, body).code, [1])
  {
    DecodeEncode(FalseJump, 0);
  }

  /** Opening a conditional in a fresh template. */
  lemma OpenIfFresh(x: string)
    ensures OpenIf(Empty, [], x) == Success((IfHead(x), [1]))
  {
    assert [] + [x] == [x];
    assert Register([], x) == ([x], 0);
    var p1 := Program([], [x], [], [Encode(Immediate, 0)]);
    assert Empty.code + [Encode(Immediate, 0)] == p1.code;
    assert Emit(Empty.(varNames := [x]), Immediate, 0) == Success(p1);
    assert p1.(code := p1.code + [TagValue(FalseJump)]) == IfHead(x);
    var empty: seq<nat> := [];
    assert empty + [1] == [1];
  }

  /** Closing the conditional patches its test with the address after the body. */
  lemma CloseIf(x: string, body: string)
    ensures Placeholders(IfBody(x, body).code, [1])
    ensures CloseBlock(IfBody(x, body), [1]) == Success((IfDone(x, body), []))
  {
    IfHeadPlaceholder(x, body);
    DecodeEncode(FalseJump, 3);
    assert IfBody(x, body).code[1 := Encode(FalseJump, 3)] == IfDone(x, body).code;
  }

  /** The first pass opens the conditional. */
  lemma IfOpens(s: string, x: string)
    requires IfHeader(s, x) && IsIdentifier(x)
    ensures CompileFrom(s, 0, Empty, []) == CompileFrom(s, 6 + |x|, IfHead(x), [1])
  {
    IfParses(s, x);
    DirectiveHere(s, 0, Empty, [], If(Group(5, 5 + |x|)), 6 + |x|);
    assert Text(s, Group(5, 5 + |x|)) == x;
    OpenIfFresh(x);
    CompileFromStep(s, 0, Empty, [], 6 + |x|, IfHead(x), [1]);
  }

  /** In the second pass, from k, the scan finds the `$(end)` first, at m after the body. */
  lemma IfBodyOpener(s: string, x: string, body: string, k: nat, m: nat)
    requires IfShaped(s, x, body) && NoOpenerFrom(body, 0) && |body| > 1 && body[|body| - 1] != '\\'
    requires k == 6 + |x| && m == k + |body|
    ensures k <= m && m + 6 == |s| && Resumable(s, k) && OpenerAt(s, m) && (forall i :: k <= i < m ==> !OpenerAt(s, i))
    ensures !Escaped(s, m) && MatchEnd(s, m + 2)
    ensures Literal(s, k, m, IfHead(x)) == Success(IfBody(x, body))
  {
    forall i | k <= i < m
      ensures !OpenerAt(s, i)
    {
      if i + 1 < m {
        assert s[i] == body[i - k] && s[i + 1] == body[i - k + 1];
        assert !OpenerAt(body, i - k);
      }
    }
    assert s[m - 1] == body[|body| - 1];
    assert s[k..m] == body;
    assert IfHead(x).fragments + [body] == [body];
    assert IfHead(x).code + [Encode(Copy, 0)] == IfBody(x, body).code;
  }

  /** The `$(end)` after the body closes the conditional and ends the text. */
  lemma IfEndAt(s: string, m: nat, x: string, body: string)
    requires OpenerAt(s, m) && MatchEnd(s, m + 2) && m + 6 == |s|
    ensures Placeholders(IfBody(x, body).code, [1])
    ensures RunDirective(s, m, IfBody(x, body), [1]) == Success((|s|, IfDone(x, body), []))
  {
    CloseIf(x, body);
  }

  /** The second pass copies the body and closes the conditional. */
  lemma IfBodyPass(s: string, x: string, body: string)
    requires IfShaped(s, x, body) && NoOpenerFrom(body, 0) && |body| > 1 && body[|body| - 1] != '\\'
    ensures Placeholders(IfHead(x).code, [1])
    ensures Step(s, 6 + |x|, IfHead(x), [1]) == Success((|s|, IfDone(x, body), []))
  {
    var k := 6 + |x|;
    var m := k + |body|;
    IfBodyOpener(s, x, body, k, m);
    IfBodyStep(s, x, body, k, m);
  }

  /** The pass from k whose first opener is the `$(end)` at m, after the body. */
  lemma IfBodyStep(s: string, x: string, body: string, k: nat, m: nat)
    requires k <= m && m + 6 == |s| && Resumable(s, k) && OpenerAt(s, m) && (forall i :: k <= i < m ==> !OpenerAt(s, i))
    requires !Escaped(s, m) && MatchEnd(s, m + 2)
    requires Literal(s, k, m, IfHead(x)) == Success(IfBody(x, body))
    ensures Placeholders(IfHead(x).code, [1])
    ensures Step(s, k, IfHead(x), [1]) == Success((|s|, IfDone(x, body), []))
  {
    IfHeadPlaceholder(x, body);
    StepAtOpener(s, k, m, IfHead(x), [1]);
    IfEndAt(s, m, x, body);
    assert DirectiveStep(s, k, m, IfHead(x), [1]) == RunDirective(s, m, IfBody(x, body), [1]);
  }

  /** The main loop over `$(if x)body$(end)` closes the block it opens. */
  lemma IfScans(s: string, x: string, body: string)
    requires IfShaped(s, x, body) && IsIdentifier(x) && NoOpenerFrom(body, 0) && |body| > 1 && body[|body| - 1] != '\\'
    ensures CompileFrom(s, 0, Empty, []) == Success((IfDone(x, body), []))
  {
    IfOpens(s, x);
    IfBodyPass(s, x, body);
    CompileFromStep(s, 6 + |x|, IfHead(x), [1], |s|, IfDone(x, body), []);
    CompileFromEnd(s, IfDone(x, body), []);
  }

  /** The code of `$(if x)body$(end)`: the operand word of the test, the test itself (leaving
      the block for the Halt at 3), and the Copy of the body. */
  const IfCode: seq<Word> := [Encode(Immediate, 0), Encode(FalseJump, 3), Encode(Copy, 0), HaltWord]

  /** `$(if x)body$(end)` compiles to the test of x and the Copy of the body, for a body of two
      or more characters without an opener that does not end in a backslash. */
  lemma IfCompiles(x: string, body: string)
    requires IsIdentifier(x) && NoOpenerFrom(body, 0) && |body| > 1 && body[|body| - 1] != '\\'
    ensures CompileSpec(IfText(x, body)) == Success(Program([body], [x], [], IfCode))
  {
    IfShape(x, body);
    IfScans(IfText(x, body), x, body);
    assert IfDone(x, body).code + [HaltWord] == IfCode;
  }

  // Rendering.

  /** The instructions of the conditional's code, decoded. */
  lemma IfCodeFacts()
    ensures OpcodeOf(IfCode[0]) == Immediate && OperandOf(IfCode[0]) == 0
    ensures OpcodeOf(IfCode[1]) == FalseJump && OperandOf(IfCode[1]) == 3
    ensures OpcodeOf(IfCode[2]) == Copy && OperandOf(IfCode[2]) == 0
  {
    DecodeEncode(Immediate, 0);
    DecodeEncode(FalseJump, 3);
    DecodeEncode(Copy, 0);
  }

  /** The conditional's code prints the body when x is bound, and nothing otherwise. */
  lemma IfCodeRenders(x: string, body: string, input: Input, inc: nat -> string, fuel: nat)
    requires fuel >= 3
    ensures Vm.Run([body], IfCode, InputCallbacks(input, [x], inc), map[], fuel)
         == Success(if x in input then body else "")
  {
    var cb := InputCallbacks(input, [x], inc);
    var it: Iterators := map[];
    IfCodeFacts();
    Vm.ExecContinue([body], IfCode, cb, Vm.Machine(0, it, ""), Vm.Machine(1, it, ""), fuel);
    assert VarExists(input, [x], it, 0) == (x in input);
    if x in input {
      Vm.ExecContinue([body], IfCode, cb, Vm.Machine(1, it, ""), Vm.Machine(2, it, ""), fuel - 1);
      assert "" + body == body;
      Vm.ExecContinue([body], IfCode, cb, Vm.Machine(2, it, ""), Vm.Machine(3, it, body), fuel - 2);
    } else {
      Vm.ExecContinue([body], IfCode, cb, Vm.Machine(1, it, ""), Vm.Machine(3, it, ""), fuel - 1);
    }
  }

  /** `$(if x)body$(end)` prints the body exactly when x is bound in the input. */
  lemma IfRenders(x: string, body: string, input: Input, inc: nat -> string, fuel: nat)
    requires IsIdentifier(x) && NoOpenerFrom(body, 0) && |body| > 1 && body[|body| - 1] != '\\' && fuel >= 3
    ensures CompileSpec(IfText(x, body)).Success?
    ensures var p := CompileSpec(IfText(x, body)).value;
      Vm.Run(p.fragments, p.code, InputCallbacks(input, p.varNames, inc), map[], fuel)
        == Success(if x in input then body else "")
  {
    IfCompiles(x, body);
    IfCodeRenders(x, body, input, inc, fuel);
  }

  /** Only presence counts: rebinding x to any value, false, zero or the empty string among them,
      prints the body all the same. */
  lemma IfIgnoresValue(x: string, body: string, input: Input, v: Value, inc: nat -> string, fuel: nat)
    requires fuel >= 3
    ensures Vm.Run([body], IfCode, InputCallbacks(input[x := v], [x], inc), map[], fuel) == Success(body)
  {
    IfCodeRenders(x, body, input[x := v], inc, fuel);
  }

  // The test cases.

  /** `$(if x)found$(end)` compiles to the test of x and the Copy of `found`. */
  lemma FoundCompiles(x: string)
    requires IsIdentifier(x)
    ensures CompileSpec(IfText(x, "found")) == Success(Program(["found"], [x], [], IfCode))
  {
    NoDollarNoOpener("found");
    IfCompiles(x, "found");
  }

  /** The input of the conditional tests. */
  function IfInput(): (bound: Input) {
    map["bTrue" := Bool(true), "bFalse" := Bool(false), "i0" := Int(0), "i5" := Int(5),
        "sEmpty" := Str(""), "sFull" := Str("full")]
  }

  /** The program of `$(if x)found$(end)` over that input. */
  function FoundRun(x: string, inc: nat -> string): (run: Result<string, Vm.VmError>) {
    Vm.Run(["found"], IfCode, InputCallbacks(IfInput(), [x], inc), map[], 3)
  }

  /** A missing name prints nothing; a bound one prints `found`, whether it is bound to true,
      false, 0, 5, the empty string or a full one. */
  lemma FoundExamples(inc: nat -> string)
    ensures FoundRun("iDontExist", inc) == Success("")
    ensures FoundRun("bTrue", inc) == Success("found")
    ensures FoundRun("bFalse", inc) == Success("found")
    ensures FoundRun("i0", inc) == Success("found")
    ensures FoundRun("i5", inc) == Success("found")
    ensures FoundRun("sEmpty", inc) == Success("found")
    ensures FoundRun("sFull", inc) == Success("found")
  {
    var input := IfInput();
    assert "iDontExist" !in input;
    IfCodeRenders("iDontExist", "found", input, inc, 3);
    IfCodeRenders("bTrue", "found", input, inc, 3);
    IfCodeRenders("bFalse", "found", input, inc, 3);
    IfCodeRenders("i0", "found", input, inc, 3);
    IfCodeRenders("i5", "found", input, inc, 3);
    IfCodeRenders("sEmpty", "found", input, inc, 3);
    IfCodeRenders("sFull", "found", input, inc, 3);
  }
}

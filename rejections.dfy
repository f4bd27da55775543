/**
 * Templates the compiler rejects: a directive that matches none of the five
 * shapes, an opener never closed by `)`, an `$(end)` with no open block, and
 * a block still open at the end of the text. The last is also shown as the
 * compiler's own code has it, which does not look at its block stack when
 * the text ends.
 */
module Rejections {
  import opened Results
  import opened Bytecode
  import opened Scan
  import opened Compiler
  import opened Passes
  import opened Binding
  import opened Conditionals
  import Vm

  // The first pass fails.

  /** A failing pass makes the whole main loop fail with its error. */
  lemma CompileFromFails(buf: string, k: nat, p: Program, stack: seq<nat>)
    requires k < |buf| && Resumable(buf, k) && Placeholders(p.code, stack)
    requires Step(buf, k, p, stack).Failure?
    ensures CompileFrom(buf, k, p, stack) == Failure(Step(buf, k, p, stack).error)
  {
  }

  /** A directive at the scan position that does not parse fails the pass. */
  lemma DirectiveNotParsed(s: string, k: nat, p: Program, stack: seq<nat>)
    requires OpenerAt(s, k) && Resumable(s, k) && Placeholders(p.code, stack) && ParseDirective(s, k + 2) == None
    ensures Step(s, k, p, stack) == Failure(InvalidTemplate)
  {
    assert FindOpener(s, k) == Some(k);
  }

  /** A template that opens with a directive matching none of the five shapes is invalid. */
  lemma InvalidFirstDirective(s: string)
    requires OpenerAt(s, 0) && ParseDirective(s, 2) == None
    ensures CompileSpec(s) == Failure(InvalidTemplate)
  {
    DirectiveNotParsed(s, 0, Empty, []);
    CompileFromFails(s, 0, Empty, []);
  }

  // Directive bodies that match no shape. Each shape demands a `)` right after its last name.

  /** A name followed by a character that can neither continue it nor close the directive, where
      the name does not start like one of the keywords, matches no shape. */
  lemma NameNotClosed(x: string, rest: string)
    requires IsIdentifier(x) && x[0] != 'e' && x[0] != 'i' && x[0] != 'f'
    requires rest != [] && rest[0] != ')' && !IsIdentChar(rest[0])
    ensures ParseDirective("$(" + x + rest, 2) == None
  {
    var s := "$(" + x + rest;
    var j := 2 + |x|;
    assert s[2] == x[0] && s[j] == rest[0];
    forall k | 2 <= k < j
      ensures IsIdentChar(s[k])
    {
      assert s[k] == x[k - 2];
    }
    RunEndAt(s, 2, |x|, IsIdentChar);
    if |s| >= 10 {
      assert s[2..10][0] == s[2];
    }
  }

  /** `if`, one space, a name and then a character other than `)` that cannot continue the name
      matches no shape: the conditional wants its `)` right after the name. */
  lemma IfNameNotClosed(x: string, rest: string)
    requires IsIdentifier(x) && rest != [] && rest[0] != ')' && !IsIdentChar(rest[0])
    ensures ParseDirective("$(if " + x + rest, 2) == None
  {
    var s := "$(if " + x + rest;
    var j := 5 + |x|;
    assert s[2] == 'i' && s[3] == 'f' && s[4] == ' ' && s[j] == rest[0];
    forall k | 5 <= k < j
      ensures IsIdentChar(s[k])
    {
      assert s[k] == x[k - 5];
    }
    RunEndAt(s, 2, 2, IsIdentChar);
    RunEndAt(s, 4, 1, IsSpace);
    RunEndAt(s, 5, |x|, IsIdentChar);
    if |s| >= 10 {
      assert s[2..10][1] == s[3];
    }
  }

  /** The loop text `for x in xs` followed by rest, with the spaces and names at fixed places. */
  predicate ForListLayout(s: string, x: string, xs: string, rest: string) {
    var a' := 6 + |x|; var c := a' + 4; var j := c + |xs|;
    && |x| > 0 && |xs| > 0 && |s| == j + |rest| && |rest| > 0
    && s[2] == 'f' && s[3] == 'o' && s[4] == 'r' && s[5] == ' '
    && (forall k :: 6 <= k < a' ==> IsIdentChar(s[k]))
    && s[a'] == ' ' && s[a' + 1] == 'i' && s[a' + 2] == 'n' && s[a' + 3] == ' '
    && (forall k :: c <= k < j ==> IsIdentChar(s[k]))
    && s[6] == x[0] && s[c] == xs[0] && s[j] == rest[0]
  }

  /** `$(for x in xs` then rest has that layout. */
  lemma ForListLaidOut(x: string, xs: string, rest: string)
    requires IsIdentifier(x) && IsIdentifier(xs) && rest != []
    ensures ForListLayout("$(for " + x + " in " + xs + rest, x, xs, rest)
  {
    var s := "$(for " + x + " in " + xs + rest;
    var a' := 6 + |x|;
    var c := a' + 4;
    forall k | 6 <= k < a'
      ensures IsIdentChar(s[k])
    {
      assert s[k] == x[k - 6];
    }
    forall k | c <= k < c + |xs|
      ensures IsIdentChar(s[k])
    {
      assert s[k] == xs[k - c];
    }
  }

  /** The loop matcher wants its `)` right after the list name. */
  lemma ForListNotMatched(s: string, x: string, xs: string, rest: string)
    requires ForListLayout(s, x, xs, rest) && IsIdentifier(x) && IsIdentifier(xs)
    requires rest[0] != ')' && !IsIdentChar(rest[0])
    ensures MatchFor(s, 2) == None
  {
    var a' := 6 + |x|;
    var c := a' + 4;
    RunEndAt(s, 5, 1, IsSpace);
    RunEndAt(s, 6, |x|, IsIdentChar);
    RunEndAt(s, a', 1, IsSpace);
    RunEndAt(s, a' + 3, 1, IsSpace);
    RunEndAt(s, c, |xs|, IsIdentChar);
  }

  /** `for`, a name, `in`, a list name and then a character other than `)` that cannot continue
      the name matches no shape: the loop wants its `)` right after the list name. */
  lemma ForListNotClosed(x: string, xs: string, rest: string)
    requires IsIdentifier(x) && IsIdentifier(xs) && rest != [] && rest[0] != ')' && !IsIdentChar(rest[0])
    ensures ParseDirective("$(for " + x + " in " + xs + rest, 2) == None
  {
    var s := "$(for " + x + " in " + xs + rest;
    ForListLaidOut(x, xs, rest);
    ForListNotMatched(s, x, xs, rest);
    RunEndAt(s, 2, 3, IsIdentChar);
    if |s| >= 10 {
      assert s[2..10][0] == s[2];
    }
  }

  /** A template opening with such a name is invalid. */
  lemma NameNotClosedInvalid(x: string, rest: string)
    requires IsIdentifier(x) && x[0] != 'e' && x[0] != 'i' && x[0] != 'f'
    requires rest != [] && rest[0] != ')' && !IsIdentChar(rest[0])
    ensures CompileSpec("$(" + x + rest) == Failure(InvalidTemplate)
  {
    NameNotClosed(x, rest);
    InvalidFirstDirective("$(" + x + rest);
  }

  /** A template opening with such a conditional is invalid. */
  lemma IfNameNotClosedInvalid(x: string, rest: string)
    requires IsIdentifier(x) && rest != [] && rest[0] != ')' && !IsIdentChar(rest[0])
    ensures CompileSpec("$(if " + x + rest) == Failure(InvalidTemplate)
  {
    IfNameNotClosed(x, rest);
    InvalidFirstDirective("$(if " + x + rest);
  }

  /** A template opening with such a loop is invalid. */
  lemma ForListNotClosedInvalid(x: string, xs: string, rest: string)
    requires IsIdentifier(x) && IsIdentifier(xs) && rest != [] && rest[0] != ')' && !IsIdentChar(rest[0])
    ensures CompileSpec("$(for " + x + " in " + xs + rest) == Failure(InvalidTemplate)
  {
    ForListNotClosed(x, xs, rest);
    InvalidFirstDirective("$(for " + x + " in " + xs + rest);
  }

  // The invalid templates of the template tests.

  /** The malformed conditionals of the tests, written out. */
  lemma InvalidIfTexts()
    ensures "$(if " + "spaceAfter" + " )" == "$(if spaceAfter )"
    ensures "$(if " + "word" + " anotherWord)" == "$(if word anotherWord)"
  {
  }

  /** The malformed loops of the tests, written out. */
  lemma InvalidForTexts()
    ensures "$(for " + "n" + " in " + "spaceAfter" + " )" == "$(for n in spaceAfter )"
    ensures "$(for " + "n" + " in " + "word" + " anotherWord)" == "$(for n in word anotherWord)"
  {
  }

  /** The malformed substitutions of the tests, written out. */
  lemma InvalidNameTexts()
    ensures "$(" + "not" + "-a-valid-variable-name)" == "$(not-a-valid-variable-name)"
    ensures "I'm " + "$(" + "invalid" == "I'm $(invalid"
  {
  }

  /** `$()`: an empty directive. */
  lemma EmptyDirectiveInvalid()
    ensures CompileSpec("$()") == Failure(InvalidTemplate)
  {
    InvalidFirstDirective("$()");
  }

  /** `$(if spaceAfter )`: a space before the `)` of a conditional. */
  lemma IfSpaceAfterInvalid()
    ensures CompileSpec("$(if spaceAfter )") == Failure(InvalidTemplate)
  {
    assert IsIdentifier("spaceAfter");
    IfNameNotClosedInvalid("spaceAfter", " )");
    InvalidIfTexts();
  }

  /** `$(if word anotherWord)`: two names in a conditional. */
  lemma IfTwoWordsInvalid()
    ensures CompileSpec("$(if word anotherWord)") == Failure(InvalidTemplate)
  {
    assert IsIdentifier("word");
    IfNameNotClosedInvalid("word", " anotherWord)");
    InvalidIfTexts();
  }

  /** `$(not-a-valid-variable-name)`: a name with dashes. */
  lemma DashedNameInvalid()
    ensures CompileSpec("$(not-a-valid-variable-name)") == Failure(InvalidTemplate)
  {
    assert IsIdentifier("not");
    NameNotClosedInvalid("not", "-a-valid-variable-name)");
    InvalidNameTexts();
  }

  /** `$(for n)`: a loop without `in`. */
  lemma ForWithoutInInvalid()
    ensures CompileSpec("$(for n)") == Failure(InvalidTemplate)
  {
    InvalidFirstDirective("$(for n)");
  }

  /** `$(for n in)`: a loop without a list. */
  lemma ForWithoutListInvalid()
    ensures CompileSpec("$(for n in)") == Failure(InvalidTemplate)
  {
    InvalidFirstDirective("$(for n in)");
  }

  /** `$(for n in spaceAfter )`: a space before the `)` of a loop. */
  lemma ForSpaceAfterInvalid()
    ensures CompileSpec("$(for n in spaceAfter )") == Failure(InvalidTemplate)
  {
    assert IsIdentifier("n") && IsIdentifier("spaceAfter");
    ForListNotClosedInvalid("n", "spaceAfter", " )");
    InvalidForTexts();
  }

  /** `$(for n in word anotherWord)`: two list names in a loop. */
  lemma ForTwoWordsInvalid()
    ensures CompileSpec("$(for n in word anotherWord)") == Failure(InvalidTemplate)
  {
    assert IsIdentifier("n") && IsIdentifier("word");
    ForListNotClosedInvalid("n", "word", " anotherWord)");
    InvalidForTexts();
  }

  // An opener never closed.

  /** Literal text, then an opener with no `)` anywhere after it: the template is invalid. */
  lemma UnterminatedAfterText(w: string, rest: string)
    requires NoOpenerFrom(w, 0) && (w == [] || w[|w| - 1] != '\\') && ')' !in rest
    ensures CompileSpec(w + "$(" + rest) == Failure(InvalidTemplate)
  {
    var s := w + "$(" + rest;
    var e := |w|;
    assert s[..e] == w && s[e] == '$' && s[e + 1] == '(';
    NoOpenerInPrefix(s, w);
    StepAtOpener(s, 0, e, Empty, []);
    assert !Escaped(s, e) by {
      if e > 0 {
        assert s[e - 1] == w[e - 1];
      }
    }
    forall k | e + 2 <= k < |s|
      ensures s[k] != ')'
    {
      assert s[k] == rest[k - e - 2];
    }
    UnterminatedDirective(s, e + 2);
    CompileFromFails(s, 0, Empty, []);
  }

  /** `I'm $(invalid`, the malformed template of the library tests. */
  lemma UnterminatedExample()
    ensures CompileSpec("I'm $(invalid") == Failure(InvalidTemplate)
  {
    NoDollarNoOpener("I'm ");
    assert ')' !in "invalid";
    UnterminatedAfterText("I'm ", "invalid");
    InvalidNameTexts();
  }

  // Unbalanced blocks.

  /** A template that opens with `$(end)` closes a block that was never opened. */
  lemma EndWithoutBlock(s: string)
    requires OpenerAt(s, 0) && MatchEnd(s, 2)
    ensures CompileSpec(s) == Failure(UnmatchedEnd)
  {
    EndHere(s, 0, Empty, []);
    CompileFromFails(s, 0, Empty, []);
  }

  /** The template `$(end)`. */
  lemma EndExample()
    ensures CompileSpec("$(end)") == Failure(UnmatchedEnd)
  {
    EndWithoutBlock("$(end)");
  }

  /** The text `$(if x)`: a conditional without its `$(end)`. */
  function OpenIfText(x: string): (text: string) {
    "$(if " + x + ")"
  }

  /** The main loop over `$(if x)` ends with the test's placeholder still open. */
  lemma OpenIfScans(x: string)
    requires IsIdentifier(x)
    ensures CompileFrom(OpenIfText(x), 0, Empty, []) == Success((IfHead(x), [1]))
  {
    var s := OpenIfText(x);
    assert s[5..5 + |x|] == x;
    IfHeadPlaceholder(x, "");
    IfOpens(s, x);
    CompileFromEnd(s, IfHead(x), [1]);
  }

  /** A conditional left open at the end of the text is rejected. */
  lemma UnterminatedIf(x: string)
    requires IsIdentifier(x)
    ensures CompileSpec(OpenIfText(x)) == Failure(UnterminatedBlock)
  {
    OpenIfScans(x);
  }

  // The end of the text as the compiler's code has it.

  /** The end of compilation as written: Halt is appended whatever blocks are still open. */
  function FinishAsWritten(p: Program, stack: seq<nat>): (r: Program)
    ensures r.code == p.code + [HaltWord] && r.fragments == p.fragments && r.varNames == p.varNames
  {
    p.(code := p.code + [HaltWord])
  }

  /** Compiling into a fresh template as written. */
  function CompileAsWritten(buf: string): (r: Result<Program, CompileError>)
    ensures CompileSpec(buf).Success? ==> r == CompileSpec(buf)
  {
    var s :- CompileFrom(buf, 0, Empty, []);
    Success(FinishAsWritten(s.0, s.1))
  }

  /** As written, `$(if x)` compiles: a test whose FalseJump still has the placeholder 0 as its
      target, then Halt. */
  lemma OpenIfCompilesAsWritten(x: string)
    requires IsIdentifier(x)
    ensures CompileAsWritten(OpenIfText(x)) == Success(Program([], [x], [], [Encode(Immediate, 0), TagValue(FalseJump), HaltWord]))
  {
    OpenIfScans(x);
    assert IfHead(x).code + [HaltWord] == [Encode(Immediate, 0), TagValue(FalseJump), HaltWord];
  }

  /** The test then jumps to its own operand word whenever the name is absent, so the machine
      never halts: every fuel bound runs out. */
  lemma {:induction false} OpenIfLoops<S>(fragments: seq<string>, cb: Vm.Callbacks<S>, init: S, fuel: nat)
    requires !cb.keyExists(init, 0)
    ensures Vm.Run(fragments, [Encode(Immediate, 0), TagValue(FalseJump), HaltWord], cb, init, fuel) == Failure(Vm.OutOfFuel)
    decreases fuel
  {
    var code := [Encode(Immediate, 0), TagValue(FalseJump), HaltWord];
    DecodeEncode(Immediate, 0);
    DecodeEncode(FalseJump, 0);
    var m0 := Vm.Machine(0, init, "");
    var m1 := Vm.Machine(1, init, "");
    assert Vm.Step(fragments, code, cb, m0) == Vm.Continue(m1);
    assert Vm.Step(fragments, code, cb, m1) == Vm.Continue(m0);
    if fuel >= 2 {
      Vm.ExecContinue(fragments, code, cb, m0, m1, fuel);
      Vm.ExecContinue(fragments, code, cb, m1, m0, fuel - 1);
      OpenIfLoops(fragments, cb, init, fuel - 2);
    } else if fuel == 1 {
      Vm.ExecContinue(fragments, code, cb, m0, m1, fuel);
    }
  }

  /** As written, rendering `$(if x)` over an input without x never finishes. */
  lemma OpenIfHangsAsWritten(x: string, input: Input, inc: nat -> string, fuel: nat)
    requires IsIdentifier(x) && x !in input
    ensures CompileAsWritten(OpenIfText(x)).Success?
    ensures var p := CompileAsWritten(OpenIfText(x)).value;
      Vm.Run(p.fragments, p.code, InputCallbacks(input, p.varNames, inc), map[], fuel) == Failure(Vm.OutOfFuel)
  {
    OpenIfCompilesAsWritten(x);
    assert !VarExists(input, [x], map[], 0);
    OpenIfLoops([], InputCallbacks(input, [x], inc), map[], fuel);
  }
}

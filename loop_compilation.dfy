/**
 * The loop `$(for x in xs)$(x)$(end)` compiled pass by pass: the loop test
 * with its two operand words, the substitution of the loop variable, and the
 * `$(end)` that emits the jump back and patches the test's exit target.
 */
module LoopCompilation {
  import opened Results
  import opened Bytecode
  import opened Scan
  import opened Compiler
  import opened Passes

  // The template and its text.

  /** The template `$(for x in xs)$(x)$(end)`. */
  function ForEachText(x: string, xs: string): (text: string) {
    "$(for " + x + " in " + xs + ")$(" + x + ")$(end)"
  }

  /** s is laid out as `$(for x in xs)$(x)$(end)`, character by character. */
  predicate LoopShaped(s: string, x: string, xs: string) {
    var a' := 6 + |x|; var n := a' + 4 + |xs| + 1;
    && |s| == n + 3 + |x| + 6
    && s[0] == '$' && s[1] == '(' && s[2] == 'f' && s[3] == 'o' && s[4] == 'r' && s[5..6] == " "
    && s[6..a'] == x && s[a'..a' + 1] == " " && s[a' + 1] == 'i' && s[a' + 2] == 'n' && s[a' + 3..a' + 4] == " "
    && s[a' + 4..n - 1] == xs && s[n - 1] == ')'
    && s[n] == '$' && s[n + 1] == '(' && s[n + 2..n + 2 + |x|] == x && s[n + 2 + |x|] == ')'
    && s[n + 3 + |x|..] == "$(end)"
  }

  /** The text of the template has that layout. */
  lemma ForEachShape(x: string, xs: string)
    ensures LoopShaped(ForEachText(x, xs), x, xs)
  {
  }

  /** A loop header whose pieces are separated by single spaces parses as a loop. */
  lemma ForParse(s: string, i: nat, a': nat, n: nat)
    requires i + 4 < a' && a' + 6 <= n <= |s|
    requires s[i] == 'f' && s[i + 1] == 'o' && s[i + 2] == 'r' && s[i + 3..i + 4] == " "
    requires IsIdentifier(s[i + 4..a']) && s[a'..a' + 1] == " " && s[a' + 1] == 'i' && s[a' + 2] == 'n' && s[a' + 3..a' + 4] == " "
    requires IsIdentifier(s[a' + 4..n - 1]) && s[n - 1] == ')'
    ensures ParseDirective(s, i) == Some((For(Group(i + 4, a'), Group(a' + 4, n - 1)), n))
  {
    ParseForComplete(s, i, i + 4, a', a' + 1, a' + 4, n);
  }

  /** The loop header parses as a loop over x and xs. */
  lemma ForEachParses(s: string, x: string, xs: string)
    requires LoopShaped(s, x, xs) && IsIdentifier(x) && IsIdentifier(xs)
    ensures var a' := 6 + |x|; var n := a' + 4 + |xs| + 1;
      ParseDirective(s, 2) == Some((For(Group(6, a'), Group(a' + 4, n - 1)), n))
  {
    ForParse(s, 2, 6 + |x|, 6 + |x| + 4 + |xs| + 1);
  }

  // Compilation, pass by pass.

  /** The tables after the loop header of `$(for x in xs)`. */
  function LoopHead(x: string, xs: string): (prog: Program) {
    Program([], [x, xs], [], [Encode(Immediate, 0), Encode(Immediate, 1), TagValue(ListEndJump)])
  }

  /** The tables after the loop body `$(x)`. */
  function LoopBody(x: string, xs: string): (prog: Program) {
    Program([], [x, xs], [], [Encode(Immediate, 0), Encode(Immediate, 1), TagValue(ListEndJump), Encode(Substitute, 0)])
  }

  /** The tables after `$(end)` closes the loop. */
  function LoopDone(x: string, xs: string): (prog: Program) {
    Program([], [x, xs], [], [Encode(Immediate, 0), Encode(Immediate, 1), Encode(ListEndJump, 5), Encode(Substitute, 0), Encode(Jump, 2)])
  }

  /** The loop test is an open placeholder until `$(end)` is reached. */
  lemma LoopHeadPlaceholder(x: string, xs: string)
    ensures Placeholders(LoopHead(x, xs).code, [2]) && Placeholders(LoopBody(x, xs).code, [2])
  {
    DecodeEncode(ListEndJump, 0);
  }

  /** Opening a loop over two distinct names in a fresh template. */
  lemma OpenForFresh(x: string, xs: string)
    requires x != xs
    ensures OpenFor(Empty, [], x, xs) == Success((LoopHead(x, xs), [2]))
  {
    assert [] + [x] == [x];
    assert Register([], x) == ([x], 0);
    assert [x] + [xs] == [x, xs];
    assert Register([x], xs) == ([x, xs], 1);
    var p1 := Program([], [x], [], [Encode(Immediate, 0)]);
    assert Empty.code == [] && Empty.fragments == [] && Empty.includeNames == [];
    assert Empty.code + [Encode(Immediate, 0)] == p1.code;
    assert Emit(Empty.(varNames := [x]), Immediate, 0) == Success(p1);
    var p2 := Program([], [x, xs], [], [Encode(Immediate, 0), Encode(Immediate, 1)]);
    assert p1.code + [Encode(Immediate, 1)] == p2.code;
    assert Emit(p1.(varNames := [x, xs]), Immediate, 1) == Success(p2);
    assert p2.(code := p2.code + [TagValue(ListEndJump)]) == LoopHead(x, xs);
    var empty: seq<nat> := [];
    assert empty + [2] == [2];
  }

  /** Printing the loop variable inside the loop. */
  lemma SubstituteLoopVariable(x: string, xs: string)
    ensures Substitution(LoopHead(x, xs), x) == Success(LoopBody(x, xs))
  {
    assert Register([x, xs], x) == ([x, xs], 0);
    assert LoopHead(x, xs).code + [Encode(Substitute, 0)] == LoopBody(x, xs).code;
  }

  /** Closing the loop. */
  lemma CloseLoop(x: string, xs: string)
    ensures Placeholders(LoopBody(x, xs).code, [2])
    ensures CloseBlock(LoopBody(x, xs), [2]) == Success((LoopDone(x, xs), []))
  {
    LoopHeadPlaceholder(x, xs);
    DecodeEncode(ListEndJump, 0);
    DecodeEncode(ListEndJump, 5);
    var c := LoopBody(x, xs).code + [Encode(Jump, 2)];
    assert c[2 := Encode(ListEndJump, 5)] == LoopDone(x, xs).code;
  }

  /** The loop directive over x and xs opens the loop in a fresh template. */
  lemma ApplyFor(buf: string, x: string, xs: string, d: Directive)
    requires d.For? && GroupsIn(d, 0, |buf|) && Text(buf, d.elem) == x && Text(buf, d.list) == xs && x != xs
    ensures Placeholders(Empty.code, [])
    ensures Apply(buf, Empty, [], d) == Success((LoopHead(x, xs), [2]))
  {
    OpenForFresh(x, xs);
  }

  /** The loop header at the start of a text. */
  lemma OpensAt(buf: string, x: string, xs: string, a': nat, n: nat)
    requires OpenerAt(buf, 0) && x != xs
    requires 6 <= a' && a' + 4 < n <= |buf| && buf[6..a'] == x && buf[a' + 4..n - 1] == xs
    requires ParseDirective(buf, 2) == Some((For(Group(6, a'), Group(a' + 4, n - 1)), n))
    ensures CompileFrom(buf, 0, Empty, []) == CompileFrom(buf, n, LoopHead(x, xs), [2])
  {
    var d := For(Group(6, a'), Group(a' + 4, n - 1));
    DirectiveHere(buf, 0, Empty, [], d, n);
    ApplyFor(buf, x, xs, d);
    assert Step(buf, 0, Empty, []) == Success((n, LoopHead(x, xs), [2]));
    CompileFromStep(buf, 0, Empty, [], n, LoopHead(x, xs), [2]);
  }

  /** The loop body `$(x)` at index n. */
  lemma BodyAt(buf: string, x: string, xs: string, n: nat, m: nat)
    requires OpenerAt(buf, n) && Resumable(buf, n) && m == n + 3 + |x| && m <= |buf|
    requires buf[n + 2..n + 2 + |x|] == x && buf[n + 2 + |x|] == ')' && IsIdentifier(x) && x != "end"
    ensures CompileFrom(buf, n, LoopHead(x, xs), [2]) == CompileFrom(buf, m, LoopBody(x, xs), [2])
  {
    LoopHeadPlaceholder(x, xs);
    assert buf[n + 2..m - 1] == x;
    VarHere(buf, n, LoopHead(x, xs), [2], m);
    SubstituteLoopVariable(x, xs);
    assert Step(buf, n, LoopHead(x, xs), [2]) == Success((m, LoopBody(x, xs), [2]));
    CompileFromStep(buf, n, LoopHead(x, xs), [2], m, LoopBody(x, xs), [2]);
  }

  /** The `$(end)` of the loop at index m. */
  lemma CloseAt(buf: string, x: string, xs: string, m: nat)
    requires OpenerAt(buf, m) && Resumable(buf, m) && MatchEnd(buf, m + 2) && m + 6 == |buf|
    ensures CompileFrom(buf, m, LoopBody(x, xs), [2]) == Success((LoopDone(x, xs), []))
  {
    CloseLoop(x, xs);
    EndHere(buf, m, LoopBody(x, xs), [2]);
    CompileFromStep(buf, m, LoopBody(x, xs), [2], m + 6, LoopDone(x, xs), []);
    CompileFromEnd(buf, LoopDone(x, xs), []);
  }

  /** The first pass opens the loop; the body starts at index n. */
  lemma ForEachOpens(s: string, x: string, xs: string, n: nat)
    requires LoopShaped(s, x, xs) && IsIdentifier(x) && IsIdentifier(xs) && x != xs && n == |x| + |xs| + 11
    ensures CompileFrom(s, 0, Empty, []) == CompileFrom(s, n, LoopHead(x, xs), [2])
  {
    ForEachParses(s, x, xs);
    OpensAt(s, x, xs, 6 + |x|, n);
  }

  /** The loop body `$(x)` runs from index n to index m. */
  lemma BodyLaidOut(s: string, x: string, xs: string, n: nat, m: nat)
    requires LoopShaped(s, x, xs) && n == |x| + |xs| + 11 && m == n + 3 + |x|
    ensures OpenerAt(s, n) && Resumable(s, n) && m <= |s|
    ensures s[n + 2..n + 2 + |x|] == x && s[n + 2 + |x|] == ')'
  {
  }

  /** The third pass, from index m, closes the loop, and the text ends there. */
  lemma ForEachCloses(s: string, x: string, xs: string, m: nat)
    requires LoopShaped(s, x, xs) && m == 2 * |x| + |xs| + 14
    ensures CompileFrom(s, m, LoopBody(x, xs), [2]) == Success((LoopDone(x, xs), []))
  {
    assert s[m..] == "$(end)";
    assert s[m] == s[m..][0] && s[m + 1] == s[m..][1] && s[m + 2] == s[m..][2];
    assert s[m + 3] == s[m..][3] && s[m + 4] == s[m..][4] && s[m + 5] == s[m..][5];
    CloseAt(s, x, xs, m);
  }

  /** The main loop over `$(for x in xs)$(x)$(end)` closes every block it opens: the header opens
      it, the body prints the loop variable, and `$(end)` closes it. */
  lemma LoopScans(s: string, x: string, xs: string)
    requires LoopShaped(s, x, xs) && IsIdentifier(x) && IsIdentifier(xs) && x != "end" && x != xs
    ensures CompileFrom(s, 0, Empty, []) == Success((LoopDone(x, xs), []))
  {
    var n := |x| + |xs| + 11;
    var m := n + 3 + |x|;
    ForEachOpens(s, x, xs, n);
    BodyLaidOut(s, x, xs, n, m);
    BodyAt(s, x, xs, n, m);
    ForEachCloses(s, x, xs, m);
  }

  /** The code `$(for x in xs)$(x)$(end)` compiles to: the two operand words of the loop test, the
      test itself (leaving the loop for the Halt at 5), the substitution, and the jump back to the test. */
  const LoopCode: seq<Word> :=
    [Encode(Immediate, 0), Encode(Immediate, 1), Encode(ListEndJump, 5), Encode(Substitute, 0), Encode(Jump, 2), HaltWord]

  /** `$(for x in xs)$(x)$(end)` compiles to the loop test, the substitution and the jump back. */
  lemma LoopCompiles(s: string, x: string, xs: string)
    requires LoopShaped(s, x, xs) && IsIdentifier(x) && IsIdentifier(xs) && x != "end" && x != xs
    ensures CompileSpec(s) == Success(Program([], [x, xs], [], LoopCode))
  {
    LoopScans(s, x, xs);
    assert LoopDone(x, xs).code + [HaltWord] == LoopCode;
  }
}

/**
 * Literal text, substitutions and escapes: `w$(x)` after a prefix w of plain
 * text, compiled pass by pass. It covers static templates, the one-character
 * literal that the compiler drops before a directive, and the escape rules for
 * a run of backslashes in front of the opener.
 */
module Substitutions {
  import opened Results
  import opened Bytecode
  import opened Scan
  import opened Compiler
  import opened Passes

  // Static templates.

  /** What a template without any opener compiles to: the whole text as one fragment. */
  function StaticProgram(buf: string): (prog: Program) {
    Program([buf], [], [], [Encode(Copy, 0), HaltWord])
  }

  /** A non-empty template without an opener compiles to one Copy of the whole text and Halt. */
  lemma StaticCompiles(buf: string)
    requires buf != [] && NoOpenerFrom(buf, 0)
    ensures CompileSpec(buf) == Success(StaticProgram(buf))
  {
    var p := Program([buf], [], [], [Encode(Copy, 0)]);
    TailHere(buf, 0, Empty, []);
    assert buf[0..] == buf;
    assert Empty.fragments + [buf] == [buf] && Empty.code + [Encode(Copy, 0)] == p.code;
    assert AddFragment(Empty, buf).value == p;
    CompileFromStep(buf, 0, Empty, [], |buf|, p, []);
    CompileFromEnd(buf, p, []);
    assert p.code + [HaltWord] == StaticProgram(buf).code;
  }

  // A substitution after a prefix.

  /** The template `w$(x)`. */
  function SubstText(w: string, x: string): (text: string) {
    w + "$(" + x + ")"
  }

  /** s is laid out as `w$(x)`. */
  predicate SubstShaped(s: string, w: string, x: string) {
    && |s| == |w| + |x| + 3
    && s[..|w|] == w && s[|w|] == '$' && s[|w| + 1] == '('
    && s[|w| + 2..|w| + 2 + |x|] == x && s[|w| + 2 + |x|] == ')'
  }

  /** The text of the template has that layout. */
  lemma SubstShape(w: string, x: string)
    ensures SubstShaped(SubstText(w, x), w, x)
  {
  }

  /** The program after the literal text w in front of a directive: one fragment when w is longer
      than one character, and nothing otherwise. */
  function PrefixProgram(w: string): (prog: Program) {
    if |w| > 1 then Program([w], [], [], [Encode(Copy, 0)]) else Empty
  }

  /** The program after `w$(x)`: the prefix, then x as variable 0 and its substitution. */
  function SubstProgram(w: string, x: string): (prog: Program) {
    var p := PrefixProgram(w);
    p.(varNames := [x], code := p.code + [Encode(Substitute, 0)])
  }

  /** The literal step for a prefix that does not end in a backslash. */
  lemma PrefixLiteral(s: string, w: string)
    requires |w| < |s| && s[..|w|] == w && !Escaped(s, |w|)
    ensures Literal(s, 0, |w|, Empty) == Success(PrefixProgram(w))
  {
    if |w| > 1 {
      assert s[0..|w|] == w;
      assert Empty.fragments + [w] == [w] && Empty.code + [Encode(Copy, 0)] == [Encode(Copy, 0)];
    }
  }

  /** The first variable of a template is variable 0. */
  lemma SubstituteFirst(p: Program, x: string)
    requires p.varNames == []
    ensures Substitution(p, x) == Success(p.(varNames := [x], code := p.code + [Encode(Substitute, 0)]))
  {
    assert [] + [x] == [x];
  }

  /** A substitution directive at e closes the text: the pass after the literal ends at the end. */
  lemma SubstitutionAt(s: string, e: nat, p: Program, x: string)
    requires e + |x| + 3 == |s| && OpenerAt(s, e) && s[e + 2..e + 2 + |x|] == x && s[e + 2 + |x|] == ')'
    requires IsIdentifier(x) && x != "end" && p.varNames == [] && Placeholders(p.code, [])
    ensures RunDirective(s, e, p, []) == Success((|s|, p.(varNames := [x], code := p.code + [Encode(Substitute, 0)]), []))
  {
    ParseVarComplete(s, e + 2, |s|);
    SubstituteFirst(p, x);
    PlaceholdersAppend(p.code, [], [Encode(Substitute, 0)]);
  }

  /** The main loop over `w$(x)`. */
  lemma SubstitutionScans(s: string, w: string, x: string)
    requires SubstShaped(s, w, x) && NoOpenerFrom(w, 0) && (w == [] || w[|w| - 1] != '\\')
    requires IsIdentifier(x) && x != "end"
    ensures CompileFrom(s, 0, Empty, []) == Success((SubstProgram(w, x), []))
  {
    NoOpenerInPrefix(s, w);
    assert !Escaped(s, |w|) by {
      if |w| > 0 {
        assert s[|w| - 1] == w[|w| - 1];
      }
    }
    StepAtOpener(s, 0, |w|, Empty, []);
    PrefixLiteral(s, w);
    SubstitutionAt(s, |w|, PrefixProgram(w), x);
    assert Step(s, 0, Empty, []) == Success((|s|, SubstProgram(w, x), []));
    CompileFromStep(s, 0, Empty, [], |s|, SubstProgram(w, x), []);
    CompileFromEnd(s, SubstProgram(w, x), []);
  }

  /** `w$(x)` compiles to the literal w (dropped when it is a single character) and the
      substitution of x. */
  lemma SubstitutionCompiles(w: string, x: string)
    requires NoOpenerFrom(w, 0) && (w == [] || w[|w| - 1] != '\\')
    requires IsIdentifier(x) && x != "end"
    ensures CompileSpec(SubstText(w, x))
         == Success(SubstProgram(w, x).(code := SubstProgram(w, x).code + [HaltWord]))
  {
    SubstShape(w, x);
    SubstitutionScans(SubstText(w, x), w, x);
  }

  /** `w$(x)` with a literal w of two or more characters compiles to a Copy of w and the
      substitution of x. */
  lemma KeptSubstitutionCompiles(w: string, x: string)
    requires |w| > 1 && NoOpenerFrom(w, 0) && w[|w| - 1] != '\\'
    requires IsIdentifier(x) && x != "end"
    ensures CompileSpec(SubstText(w, x)) == Success(Program([w], [x], [], [Encode(Copy, 0), Encode(Substitute, 0), HaltWord]))
  {
    SubstitutionCompiles(w, x);
    assert SubstProgram(w, x).code + [HaltWord] == [Encode(Copy, 0), Encode(Substitute, 0), HaltWord];
  }

  // Escapes: a run of backslashes in front of the opener.

  /** n backslashes. */
  function Backslashes(n: nat): (b: string)
    ensures |b| == n && forall i :: 0 <= i < n ==> b[i] == '\\'
  {
    seq(n, _ => '\\')
  }

  /** The template `w` followed by n backslashes and `$(x)`. */
  function EscapeText(w: string, n: nat, x: string): (text: string) {
    w + Backslashes(n) + "$(" + x + ")"
  }

  /** Backslashes add no opener to a text. */
  lemma BackslashesNoOpener(w: string, n: nat)
    requires NoOpenerFrom(w, 0)
    ensures NoOpenerFrom(w + Backslashes(n), 0)
  {
    var v := w + Backslashes(n);
    forall i | 0 <= i < |v|
      ensures !OpenerAt(v, i)
    {
      if i + 1 < |w| {
        assert !OpenerAt(w, i);
      } else if i + 1 < |v| {
        assert v[i + 1] == '\\';
      }
    }
  }

  /** No opener follows the `(` of an escaped opener. */
  lemma TailNoOpener(s: string, k: nat, x: string)
    requires k + |x| + 2 == |s| && s[k] == '(' && s[k + 1..k + 1 + |x|] == x && s[k + 1 + |x|] == ')' && IsIdentifier(x)
    ensures NoOpenerFrom(s, k)
  {
    forall i | k <= i < |s|
      ensures !OpenerAt(s, i)
    {
      if k < i < k + 1 + |x| {
        assert s[i] == x[i - k - 1];
        assert IsIdentChar(x[i - k - 1]);
      }
    }
  }

  /** The program after `w\$(x)`: the text before the backslash with a `$`, and the rest as text. */
  function EscapedProgram(w: string, x: string): (prog: Program) {
    Program([w + "$", "(" + x + ")"], [], [], [Encode(Copy, 0), Encode(Copy, 1)])
  }

  /** The program after `w` with n >= 2 backslashes and `$(x)`: the text up to the last backslash,
      and the substitution of x. */
  function EscapedEscapeProgram(w: string, n: nat, x: string): (prog: Program)
    requires n >= 1
  {
    Program([w + Backslashes(n - 1)], [x], [], [Encode(Copy, 0), Encode(Substitute, 0)])
  }

  /** The escape pass: the text before the backslash with a `$`, resuming at the `(`. */
  lemma EscapePass(s: string, w: string, x: string)
    requires SubstShaped(s, w + "\\", x) && NoOpenerFrom(w, 0) && (w == [] || w[|w| - 1] != '\\')
    ensures Step(s, 0, Empty, []) == Success((|w| + 2, Program([w + "$"], [], [], [Encode(Copy, 0)]), []))
  {
    var e := |w| + 1;
    EscapeFound(s, w, x, e);
    EscapeDollar(s, w, e);
  }

  /** The first opener of the escape shape is escaped once, so the pass is an escape. */
  lemma EscapeFound(s: string, w: string, x: string, e: nat)
    requires SubstShaped(s, w + "\\", x) && NoOpenerFrom(w, 0) && (w == [] || w[|w| - 1] != '\\')
    requires e == |w| + 1
    ensures OpenerAt(s, e) && Escaped(s, e) && s[0..e - 1] == w
    ensures Step(s, 0, Empty, []) == EscapeStep(s, 0, e, Empty, [])
  {
    var v := w + "\\";
    assert v == w + Backslashes(1);
    BackslashesNoOpener(w, 1);
    NoOpenerInPrefix(s, v);
    assert s[e - 1] == v[e - 1] == '\\';
    assert !Escaped(s, e - 1) by {
      if |w| > 0 {
        assert s[e - 2] == w[|w| - 1];
      }
    }
    StepAtOpener(s, 0, e, Empty, []);
    assert s[0..e - 1] == w;
  }

  /** An escape pass over the text w before the backslash. */
  lemma EscapeDollar(s: string, w: string, e: nat)
    requires OpenerAt(s, e) && Escaped(s, e) && s[0..e - 1] == w
    ensures EscapeStep(s, 0, e, Empty, []) == Success((e + 1, Program([w + "$"], [], [], [Encode(Copy, 0)]), []))
  {
    var p1 := Program([w], [], [], [Encode(Copy, 0)]);
    assert Empty.fragments + [w] == [w] && Empty.code + [Encode(Copy, 0)] == p1.code;
    assert AddFragment(Empty, w) == Success(p1);
    assert [w][0 := w + "$"] == [w + "$"];
    assert AppendDollar(p1) == Program([w + "$"], [], [], [Encode(Copy, 0)]);
  }

  /** The text after an escaped opener, from its `(`, is the last literal. */
  lemma EscapeTail(s: string, w: string, x: string)
    requires SubstShaped(s, w + "\\", x) && IsIdentifier(x)
    ensures var p := Program([w + "$"], [], [], [Encode(Copy, 0)]);
      CompileFrom(s, |w| + 2, p, []) == Success((EscapedProgram(w, x), []))
  {
    var e := |w| + 1;
    var p := Program([w + "$"], [], [], [Encode(Copy, 0)]);
    assert s[e + 2..e + 2 + |x|] == x;
    TailNoOpener(s, e + 1, x);
    TailHere(s, e + 1, p, []);
    assert s[e + 1..] == "(" + x + ")";
    assert p.fragments + ["(" + x + ")"] == EscapedProgram(w, x).fragments;
    assert p.code + [Encode(Copy, 1)] == EscapedProgram(w, x).code;
    CompileFromStep(s, e + 1, p, [], |s|, EscapedProgram(w, x), []);
    CompileFromEnd(s, EscapedProgram(w, x), []);
  }

  /** The main loop over `w\$(x)`. */
  lemma EscapeScans(s: string, w: string, x: string)
    requires SubstShaped(s, w + "\\", x) && NoOpenerFrom(w, 0) && (w == [] || w[|w| - 1] != '\\') && IsIdentifier(x)
    ensures CompileFrom(s, 0, Empty, []) == Success((EscapedProgram(w, x), []))
  {
    var p := Program([w + "$"], [], [], [Encode(Copy, 0)]);
    EscapePass(s, w, x);
    assert s[|w| + 1] == '$';
    CompileFromStep(s, 0, Empty, [], |w| + 2, p, []);
    EscapeTail(s, w, x);
  }

  /** An opener after one backslash is no directive: the backslash is dropped, `$` becomes literal
      text and scanning resumes at the `(`. */
  lemma EscapeCompiles(w: string, x: string)
    requires NoOpenerFrom(w, 0) && (w == [] || w[|w| - 1] != '\\') && IsIdentifier(x)
    ensures CompileSpec(EscapeText(w, 1, x)) == Success(Program([w + "$", "(" + x + ")"], [], [], [Encode(Copy, 0), Encode(Copy, 1), HaltWord]))
  {
    assert EscapedProgram(w, x).code + [HaltWord] == [Encode(Copy, 0), Encode(Copy, 1), HaltWord];
    assert EscapeText(w, 1, x) == SubstText(w + "\\", x);
    SubstShape(w + "\\", x);
    EscapeScans(EscapeText(w, 1, x), w, x);
  }

  /** The literal of the escaped-escape pass: the text up to the last backslash. */
  lemma EscapedEscapeLiteral(s: string, w: string, n: nat, x: string)
    requires n >= 2 && SubstShaped(s, w + Backslashes(n), x) && NoOpenerFrom(w, 0)
    ensures var e := |w| + n;
      && e + |x| + 3 == |s| && s[e + 2..e + 2 + |x|] == x && s[e + 2 + |x|] == ')'
      && OpenerAt(s, e) && (forall i :: 0 <= i < e ==> !OpenerAt(s, i)) && Escaped(s, e) && Escaped(s, e - 1)
      && Literal(s, 0, e, Empty) == Success(Program([w + Backslashes(n - 1)], [], [], [Encode(Copy, 0)]))
  {
    var v := w + Backslashes(n);
    var e := |v|;
    BackslashesNoOpener(w, n);
    NoOpenerInPrefix(s, v);
    assert s[e - 1] == v[e - 1] == '\\' && s[e - 2] == v[e - 2] == '\\';
    var f := w + Backslashes(n - 1);
    assert s[0..e - 1] == f by {
      assert v[..e - 1] == f;
    }
    assert Empty.fragments + [f] == [f] && Empty.code + [Encode(Copy, 0)] == [Encode(Copy, 0)];
  }

  /** A substitution that ends the text, after an escaped escape whose literal gives p. */
  lemma SubstitutionAfterEscapedEscape(s: string, e: nat, p: Program, x: string)
    requires e + |x| + 3 == |s| && s[e + 2..e + 2 + |x|] == x && s[e + 2 + |x|] == ')'
    requires OpenerAt(s, e) && (forall i :: 0 <= i < e ==> !OpenerAt(s, i)) && Escaped(s, e) && Escaped(s, e - 1)
    requires Literal(s, 0, e, Empty) == Success(p) && p.varNames == [] && Placeholders(p.code, [])
    requires IsIdentifier(x) && x != "end"
    ensures Step(s, 0, Empty, []) == Success((|s|, p.(varNames := [x], code := p.code + [Encode(Substitute, 0)]), []))
  {
    StepAtOpener(s, 0, e, Empty, []);
    assert Step(s, 0, Empty, []) == DirectiveStep(s, 0, e, Empty, []);
    SubstitutionAt(s, e, p, x);
  }

  /** The escaped-escape pass: the literal up to the last backslash, then the directive. */
  lemma EscapedEscapeStep(s: string, w: string, n: nat, x: string)
    requires n >= 2 && SubstShaped(s, w + Backslashes(n), x) && NoOpenerFrom(w, 0)
    requires IsIdentifier(x) && x != "end"
    ensures Step(s, 0, Empty, []) == Success((|s|, EscapedEscapeProgram(w, n, x), []))
  {
    var p1 := Program([w + Backslashes(n - 1)], [], [], [Encode(Copy, 0)]);
    EscapedEscapeLiteral(s, w, n, x);
    assert Placeholders(p1.code, []);
    SubstitutionAfterEscapedEscape(s, |w| + n, p1, x);
    assert p1.code + [Encode(Substitute, 0)] == [Encode(Copy, 0), Encode(Substitute, 0)];
  }

  /** The main loop over `w\\$(x)` with two or more backslashes. */
  lemma EscapedEscapeScans(s: string, w: string, n: nat, x: string)
    requires n >= 2 && SubstShaped(s, w + Backslashes(n), x) && NoOpenerFrom(w, 0)
    requires IsIdentifier(x) && x != "end"
    ensures CompileFrom(s, 0, Empty, []) == Success((EscapedEscapeProgram(w, n, x), []))
  {
    EscapedEscapeStep(s, w, n, x);
    CompileFromStep(s, 0, Empty, [], |s|, EscapedEscapeProgram(w, n, x), []);
    CompileFromEnd(s, EscapedEscapeProgram(w, n, x), []);
  }

  /** After two or more backslashes the opener starts a directive: the last backslash is dropped,
      the others stay literal text, and x is substituted. */
  lemma EscapedEscapeCompiles(w: string, n: nat, x: string)
    requires n >= 2 && NoOpenerFrom(w, 0) && IsIdentifier(x) && x != "end"
    ensures CompileSpec(EscapeText(w, n, x))
         == Success(Program([w + Backslashes(n - 1)], [x], [], [Encode(Copy, 0), Encode(Substitute, 0), HaltWord]))
  {
    assert EscapedEscapeProgram(w, n, x).code + [HaltWord] == [Encode(Copy, 0), Encode(Substitute, 0), HaltWord];
    assert EscapeText(w, n, x) == SubstText(w + Backslashes(n), x);
    SubstShape(w + Backslashes(n), x);
    EscapedEscapeScans(EscapeText(w, n, x), w, n, x);
  }
}

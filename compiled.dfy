/**
 * What every compiled program satisfies: each instruction before the final
 * Halt is well formed (its operand names an existing table entry, a jump test
 * follows the Immediate words it reads, a backward Jump targets a loop test),
 * and Halt occurs only as the last word. Hence the machine never raises an
 * error on a compiled template, whatever the callbacks do.
 */
module Compiled {
  import opened Results
  import opened Bytecode
  import opened Scan
  import opened Compiler
  import Vm

  /** The instruction at j is well formed in p. Halt is not an instruction the compiler emits
      before it finishes. */
  predicate WellFormedAt(p: Program, j: nat)
    requires j < |p.code|
  {
    var x := OperandOf(p.code[j]);
    match OpcodeOf(p.code[j])
    case Halt => false
    case Copy => x < |p.fragments|
    case Substitute => x < |p.varNames|
    case Immediate => x < |p.varNames|
    case FalseJump => j >= 1 && OpcodeOf(p.code[j - 1]) == Immediate
    case ListEndJump => j >= 2 && OpcodeOf(p.code[j - 1]) == Immediate && OpcodeOf(p.code[j - 2]) == Immediate
    case Jump => x < j && OpcodeOf(p.code[x]) == ListEndJump
    case Include => x < |p.includeNames|
  }

  /** Every instruction of p is well formed. */
  predicate WellFormed(p: Program) {
    forall j :: 0 <= j < |p.code| ==> WellFormedAt(p, j)
  }

  /** A jump test: its target is patched when its block closes. */
  predicate JumpTest(w: Word) {
    OpcodeOf(w) == FalseJump || OpcodeOf(w) == ListEndJump
  }

  /** Every jump test that is not still open on the stack jumps forward, to at most the end
      of the code. */
  predicate Resolved(code: seq<Word>, stack: seq<nat>) {
    forall j :: 0 <= j < |code| && JumpTest(code[j]) && j !in stack ==> j < OperandOf(code[j]) <= |code|
  }

  /** A finished program: well-formed instructions whose jump tests all jump forward, followed
      by a single Halt. */
  predicate Finished(p: Program) {
    && |p.code| > 0 && p.code[|p.code| - 1] == HaltWord
    && WellFormed(p.(code := p.code[..|p.code| - 1]))
    && Resolved(p.code[..|p.code| - 1], [])
  }

  /** Two words are the same instruction, except that a jump test may have had its target set. */
  predicate SameInstruction(w: Word, w': Word) {
    OpcodeOf(w) == OpcodeOf(w') && (OpcodeOf(w) != FalseJump && OpcodeOf(w) != ListEndJump ==> w == w')
  }

  /** q is p with entries appended to its tables and code, and jump targets set. */
  predicate Extends(p: Program, q: Program) {
    && |p.fragments| <= |q.fragments|
    && |p.varNames| <= |q.varNames|
    && |p.includeNames| <= |q.includeNames|
    && |p.code| <= |q.code|
    && (forall j :: 0 <= j < |p.code| ==> SameInstruction(p.code[j], q.code[j]))
  }

  /** Extension is transitive. */
  lemma ExtendsTrans(p: Program, q: Program, r: Program)
    requires Extends(p, q) && Extends(q, r)
    ensures Extends(p, r)
  {
    forall j | 0 <= j < |p.code|
      ensures SameInstruction(p.code[j], r.code[j])
    {
      assert SameInstruction(q.code[j], r.code[j]);
    }
  }

  /** A well-formed instruction stays well formed when its program is extended. */
  lemma WellFormedAtExtends(p: Program, q: Program, j: nat)
    requires j < |p.code| && WellFormedAt(p, j) && Extends(p, q)
    ensures WellFormedAt(q, j)
  {
    assert SameInstruction(p.code[j], q.code[j]);
    if j >= 1 {
      assert SameInstruction(p.code[j - 1], q.code[j - 1]);
    }
    if j >= 2 {
      assert SameInstruction(p.code[j - 2], q.code[j - 2]);
    }
    if OpcodeOf(p.code[j]) == Jump {
      assert SameInstruction(p.code[OperandOf(p.code[j])], q.code[OperandOf(p.code[j])]);
    }
  }

  /** Extending a well-formed program with well-formed instructions gives a well-formed program. */
  lemma Grow(p: Program, q: Program)
    requires WellFormed(p) && Extends(p, q)
    requires forall j :: |p.code| <= j < |q.code| ==> WellFormedAt(q, j)
    ensures WellFormed(q)
  {
    forall j | 0 <= j < |p.code|
      ensures WellFormedAt(q, j)
    {
      WellFormedAtExtends(p, q, j);
    }
  }

  /** Appending one word to the code (and growing the tables) extends the program. */
  lemma AppendExtends(p: Program, q: Program)
    requires |p.fragments| <= |q.fragments| && |p.varNames| <= |q.varNames| && |p.includeNames| <= |q.includeNames|
    requires |p.code| <= |q.code| && q.code[..|p.code|] == p.code
    ensures Extends(p, q)
  {
    assert forall j :: 0 <= j < |p.code| ==> q.code[j] == p.code[j];
  }

  /** Appending words that are not jump tests, or that are pushed on the stack, keeps every
      closed jump test resolved. */
  lemma ResolvedGrow(code: seq<Word>, code': seq<Word>, stack: seq<nat>, stack': seq<nat>)
    requires Resolved(code, stack) && |code| <= |code'| && code'[..|code|] == code
    requires stack <= stack'
    requires forall j :: |code| <= j < |code'| && JumpTest(code'[j]) ==> j in stack'
    ensures Resolved(code', stack')
  {
    forall j | 0 <= j < |code'| && JumpTest(code'[j]) && j !in stack'
      ensures j < OperandOf(code'[j]) <= |code'|
    {
      if j < |code| {
        assert code'[j] == code[j];
      }
    }
  }

  /** Appending a word that is not a jump test keeps every closed jump test resolved. */
  lemma AppendOther(code: seq<Word>, code': seq<Word>, stack: seq<nat>)
    requires Resolved(code, stack) && |code'| == |code| + 1 && code'[..|code|] == code
    requires !JumpTest(code'[|code|])
    ensures Resolved(code', stack)
  {
    ResolvedGrow(code, code', stack, stack);
  }

  /** Appending words that are not jump tests and then one that is pushed on the stack keeps
      every closed jump test resolved. */
  lemma PushResolved(code: seq<Word>, code': seq<Word>, stack: seq<nat>)
    requires Resolved(code, stack) && |code| < |code'| && code'[..|code|] == code
    requires forall j :: |code| <= j < |code'| - 1 ==> !JumpTest(code'[j])
    ensures Resolved(code', stack + [|code'| - 1])
  {
    ResolvedGrow(code, code', stack, stack + [|code'| - 1]);
  }

  // Each part of the compiler keeps the program well formed and only extends it, and every
  // jump test it closes jumps forward.

  /** Adding a fragment and its Copy. */
  lemma AddFragmentWellFormed(p: Program, text: string)
    requires WellFormed(p)
    ensures var r := AddFragment(p, text);
      r.Success? ==> WellFormed(r.value) && Extends(p, r.value)
  {
    var r := AddFragment(p, text);
    if r.Success? {
      DecodeEncode(Copy, |p.fragments|);
      AppendExtends(p, r.value);
      Grow(p, r.value);
    }
  }

  /** A fragment's Copy is not a jump test. */
  lemma AddFragmentResolved(p: Program, text: string, stack: seq<nat>)
    requires Resolved(p.code, stack)
    ensures var r := AddFragment(p, text);
      r.Success? ==> Resolved(r.value.code, stack)
  {
    var r := AddFragment(p, text);
    if r.Success? {
      DecodeEncode(Copy, |p.fragments|);
      AppendOther(p.code, r.value.code, stack);
    }
  }

  /** The literal text before a directive. */
  lemma LiteralWellFormed(buf: string, processed: nat, e: nat, p: Program)
    requires processed <= e < |buf| && Resumable(buf, processed) && WellFormed(p)
    ensures var r := Literal(buf, processed, e, p);
      r.Success? ==> WellFormed(r.value) && Extends(p, r.value)
  {
    if Escaped(buf, e) {
      AddFragmentWellFormed(p, buf[processed..e - 1]);
    } else if e - processed > 1 {
      AddFragmentWellFormed(p, buf[processed..e]);
    } else {
      AppendExtends(p, p);
    }
  }

  /** `$(name)`. */
  lemma SubstitutionWellFormed(p: Program, name: string)
    requires WellFormed(p)
    ensures var r := Substitution(p, name);
      r.Success? ==> WellFormed(r.value) && Extends(p, r.value)
  {
    var r := Substitution(p, name);
    if r.Success? {
      var (names, idx) := Register(p.varNames, name);
      DecodeEncode(Substitute, idx);
      AppendExtends(p, r.value);
      Grow(p, r.value);
    }
  }

  /** `$(include target)`. */
  lemma AddIncludeWellFormed(p: Program, target: string)
    requires WellFormed(p)
    ensures var r := AddInclude(p, target);
      r.Success? ==> WellFormed(r.value) && Extends(p, r.value)
  {
    var r := AddInclude(p, target);
    if r.Success? {
      DecodeEncode(Opcode.Include, |p.includeNames|);
      AppendExtends(p, r.value);
      Grow(p, r.value);
    }
  }

  /** `$(if name)`. */
  lemma OpenIfWellFormed(p: Program, stack: seq<nat>, name: string)
    requires WellFormed(p) && Placeholders(p.code, stack) && Resolved(p.code, stack)
    ensures var r := OpenIf(p, stack, name);
      r.Success? ==> WellFormed(r.value.0) && Extends(p, r.value.0) && Resolved(r.value.0.code, r.value.1)
  {
    OpenIfGrows(p, stack, name);
    var r := OpenIf(p, stack, name);
    if r.Success? {
      OpenIfCode(p, stack, name);
      PushResolved(p.code, r.value.0.code, stack);
    }
  }

  /** The words `$(if name)` appends. */
  lemma OpenIfCode(p: Program, stack: seq<nat>, name: string)
    requires Placeholders(p.code, stack)
    ensures var r := OpenIf(p, stack, name);
      r.Success? ==>
        var (names, idx) := Register(p.varNames, name);
        && idx < |names| && r.value.0.varNames == names
        && r.value.0.fragments == p.fragments && r.value.0.includeNames == p.includeNames
        && r.value.0.code == p.code + [Encode(Immediate, idx), TagValue(FalseJump)]
        && r.value.1 == stack + [|p.code| + 1]
  {
  }

  /** `$(if name)` appends well-formed instructions. */
  lemma OpenIfGrows(p: Program, stack: seq<nat>, name: string)
    requires WellFormed(p) && Placeholders(p.code, stack)
    ensures var r := OpenIf(p, stack, name);
      r.Success? ==> WellFormed(r.value.0) && Extends(p, r.value.0)
  {
    var r := OpenIf(p, stack, name);
    if r.Success? {
      var q := r.value.0;
      OpenIfCode(p, stack, name);
      var (names, idx) := Register(p.varNames, name);
      DecodeEncode(Immediate, idx);
      DecodeEncode(FalseJump, 0);
      assert OpcodeOf(q.code[|p.code|]) == Immediate;
      assert OpcodeOf(q.code[|p.code| + 1]) == FalseJump;
      AppendExtends(p, q);
      Grow(p, q);
    }
  }

  /** `$(for elem in list)`. */
  lemma OpenForWellFormed(p: Program, stack: seq<nat>, elem: string, list: string)
    requires WellFormed(p) && Placeholders(p.code, stack) && Resolved(p.code, stack)
    ensures var r := OpenFor(p, stack, elem, list);
      r.Success? ==> WellFormed(r.value.0) && Extends(p, r.value.0) && Resolved(r.value.0.code, r.value.1)
  {
    OpenForGrows(p, stack, elem, list);
    var r := OpenFor(p, stack, elem, list);
    if r.Success? {
      OpenForCode(p, stack, elem, list);
      PushResolved(p.code, r.value.0.code, stack);
    }
  }

  /** The words `$(for elem in list)` appends. */
  lemma OpenForCode(p: Program, stack: seq<nat>, elem: string, list: string)
    requires Placeholders(p.code, stack)
    ensures var r := OpenFor(p, stack, elem, list);
      r.Success? ==>
        var (names, idx) := Register(p.varNames, elem);
        var (names', idx') := Register(names, list);
        && idx < |names'| && idx' < |names'| && r.value.0.varNames == names'
        && r.value.0.fragments == p.fragments && r.value.0.includeNames == p.includeNames
        && r.value.0.code == p.code + [Encode(Immediate, idx), Encode(Immediate, idx'), TagValue(ListEndJump)]
        && r.value.1 == stack + [|p.code| + 2]
  {
  }

  /** `$(for elem in list)` appends well-formed instructions. */
  lemma OpenForGrows(p: Program, stack: seq<nat>, elem: string, list: string)
    requires WellFormed(p) && Placeholders(p.code, stack)
    ensures var r := OpenFor(p, stack, elem, list);
      r.Success? ==> WellFormed(r.value.0) && Extends(p, r.value.0)
  {
    var r := OpenFor(p, stack, elem, list);
    if r.Success? {
      var q := r.value.0;
      OpenForCode(p, stack, elem, list);
      var (names, idx) := Register(p.varNames, elem);
      var (names', idx') := Register(names, list);
      DecodeEncode(Immediate, idx);
      DecodeEncode(Immediate, idx');
      DecodeEncode(ListEndJump, 0);
      var n := |p.code|;
      assert q.code[n] == Encode(Immediate, idx) && q.code[n + 1] == Encode(Immediate, idx');
      assert q.code[n + 2] == TagValue(ListEndJump);
      assert WellFormedAt(q, n) && WellFormedAt(q, n + 1) && WellFormedAt(q, n + 2);
      AppendExtends(p, q);
      forall j | n <= j < |q.code|
        ensures WellFormedAt(q, j)
      {
        assert j == n || j == n + 1 || j == n + 2;
      }
      Grow(p, q);
    }
  }

  /** `$(end)`. */
  lemma CloseBlockWellFormed(p: Program, stack: seq<nat>)
    requires WellFormed(p) && Placeholders(p.code, stack) && Resolved(p.code, stack)
    ensures var r := CloseBlock(p, stack);
      r.Success? ==> WellFormed(r.value.0) && Extends(p, r.value.0) && Resolved(r.value.0.code, r.value.1)
  {
    var r := CloseBlock(p, stack);
    if r.Success? {
      var top := stack[|stack| - 1];
      var p1 := if OpcodeOf(p.code[top]) == ListEndJump then p.(code := p.code + [Encode(Jump, top)]) else p;
      if OpcodeOf(p.code[top]) == ListEndJump {
        DecodeEncode(Jump, top);
        AppendExtends(p, p1);
        Grow(p, p1);
      } else {
        AppendExtends(p, p);
      }
      var p2 := r.value.0;
      assert p2 == p1.(code := p1.code[top := Patch(p1.code[top], |p1.code|)]);
      assert SameInstruction(p1.code[top], p2.code[top]);
      assert Extends(p1, p2);
      Grow(p1, p2);
      ExtendsTrans(p, p1, p2);
      CloseBlockResolved(p, stack);
    }
  }

  /** The block `$(end)` closes gets its target, after its jump test; the others keep theirs. */
  lemma CloseBlockResolved(p: Program, stack: seq<nat>)
    requires Placeholders(p.code, stack) && Resolved(p.code, stack)
    ensures var r := CloseBlock(p, stack);
      r.Success? ==> Resolved(r.value.0.code, r.value.1)
  {
    CloseBlockPatches(p, stack);
    var r := CloseBlock(p, stack);
    if r.Success? {
      var (q, rest, t) := (r.value.0, r.value.1, stack[|stack| - 1]);
      assert stack == rest + [t];
      forall j | 0 <= j < |q.code| && JumpTest(q.code[j]) && j !in rest
        ensures j < OperandOf(q.code[j]) <= |q.code|
      {
        if j != t && j < |p.code| {
          assert q.code[j] == p.code[j];
          assert j !in stack;
        }
      }
    }
  }

  /** Any directive. */
  lemma ApplyWellFormed(buf: string, p: Program, stack: seq<nat>, d: Directive)
    requires GroupsIn(d, 0, |buf|) && Placeholders(p.code, stack) && WellFormed(p) && Resolved(p.code, stack)
    ensures var r := Apply(buf, p, stack, d);
      r.Success? ==> WellFormed(r.value.0) && Extends(p, r.value.0) && Resolved(r.value.0.code, r.value.1)
  {
    var r := Apply(buf, p, stack, d);
    match d
    case End => CloseBlockWellFormed(p, stack);
    case Var(g) =>
      SubstitutionWellFormed(p, Text(buf, g));
      if r.Success? {
        var (names, idx) := Register(p.varNames, Text(buf, g));
        DecodeEncode(Substitute, idx);
        AppendOther(p.code, r.value.0.code, stack);
      }
    case If(g) => OpenIfWellFormed(p, stack, Text(buf, g));
    case For(g, h) => OpenForWellFormed(p, stack, Text(buf, g), Text(buf, h));
    case Include(g) =>
      AddIncludeWellFormed(p, Text(buf, g));
      if r.Success? {
        DecodeEncode(Opcode.Include, |p.includeNames|);
        AppendOther(p.code, r.value.0.code, stack);
      }
  }

  /** A directive with the literal text before it. */
  lemma DirectiveStepWellFormed(buf: string, processed: nat, e: nat, p: Program, stack: seq<nat>)
    requires processed <= e && OpenerAt(buf, e)
    requires Resumable(buf, processed) && Placeholders(p.code, stack) && WellFormed(p) && Resolved(p.code, stack)
    ensures var r := DirectiveStep(buf, processed, e, p, stack);
      r.Success? ==> WellFormed(r.value.1) && Extends(p, r.value.1) && Resolved(r.value.1.code, r.value.2)
  {
    var l := Literal(buf, processed, e, p);
    if l.Success? {
      var p1 := l.value;
      LiteralWellFormed(buf, processed, e, p);
      LiteralResolved(buf, processed, e, p, stack);
      LiteralAppends(buf, processed, e, p);
      PlaceholdersAppend(p.code, stack, p1.code[|p.code|..]);
      match ParseDirective(buf, e + 2)
      case None =>
      case Some((d, n)) =>
        ApplyWellFormed(buf, p1, stack, d);
        var a := Apply(buf, p1, stack, d);
        if a.Success? {
          ExtendsTrans(p, p1, a.value.0);
        }
    }
  }

  /** The literal text before a directive is at most one Copy. */
  lemma LiteralResolved(buf: string, processed: nat, e: nat, p: Program, stack: seq<nat>)
    requires processed <= e < |buf| && Resumable(buf, processed) && Resolved(p.code, stack)
    ensures var r := Literal(buf, processed, e, p);
      r.Success? ==> Resolved(r.value.code, stack)
  {
    var r := Literal(buf, processed, e, p);
    if r.Success? && r.value.code != p.code {
      DecodeEncode(Copy, |p.fragments|);
      AppendOther(p.code, r.value.code, stack);
    }
  }

  /** An escaped opener. */
  lemma EscapeStepWellFormed(buf: string, processed: nat, e: nat, p: Program, stack: seq<nat>)
    requires processed <= e && OpenerAt(buf, e) && Escaped(buf, e)
    requires Resumable(buf, processed) && Placeholders(p.code, stack) && WellFormed(p) && Resolved(p.code, stack)
    ensures var r := EscapeStep(buf, processed, e, p, stack);
      r.Success? ==> WellFormed(r.value.1) && Extends(p, r.value.1) && Resolved(r.value.1.code, r.value.2)
  {
    assert processed < e;
    AddFragmentWellFormed(p, buf[processed..e - 1]);
    var a := AddFragment(p, buf[processed..e - 1]);
    if a.Success? {
      var q := AppendDollar(a.value);
      AppendExtends(a.value, q);
      Grow(a.value, q);
      ExtendsTrans(p, a.value, q);
      DecodeEncode(Copy, |p.fragments|);
      AppendOther(p.code, q.code, stack);
    }
  }

  /** One pass of the main loop. */
  lemma StepWellFormed(buf: string, processed: nat, p: Program, stack: seq<nat>)
    requires processed < |buf| && Resumable(buf, processed) && Placeholders(p.code, stack)
    requires WellFormed(p) && Resolved(p.code, stack)
    ensures var r := Step(buf, processed, p, stack);
      r.Success? ==> WellFormed(r.value.1) && Extends(p, r.value.1) && Resolved(r.value.1.code, r.value.2)
  {
    match FindOpener(buf, processed)
    case None =>
      AddFragmentWellFormed(p, buf[processed..]);
      AddFragmentResolved(p, buf[processed..], stack);
      var a := AddFragment(p, buf[processed..]);
      assert a.Success? ==> Step(buf, processed, p, stack) == Success((|buf|, a.value, stack));
    case Some(e) =>
      if Escaped(buf, e) && !Escaped(buf, e - 1) {
        EscapeStepWellFormed(buf, processed, e, p, stack);
        assert Step(buf, processed, p, stack) == EscapeStep(buf, processed, e, p, stack);
      } else {
        DirectiveStepWellFormed(buf, processed, e, p, stack);
        assert Step(buf, processed, p, stack) == DirectiveStep(buf, processed, e, p, stack);
      }
  }

  /** The whole main loop. */
  lemma {:induction false} CompileFromWellFormed(buf: string, processed: nat, p: Program, stack: seq<nat>)
    requires processed <= |buf| && Resumable(buf, processed) && Placeholders(p.code, stack)
    requires WellFormed(p) && Resolved(p.code, stack)
    ensures var r := CompileFrom(buf, processed, p, stack);
      r.Success? ==> WellFormed(r.value.0) && Resolved(r.value.0.code, r.value.1)
    decreases |buf| - processed
  {
    if processed < |buf| {
      StepWellFormed(buf, processed, p, stack);
      var s := Step(buf, processed, p, stack);
      if s.Success? {
        CompileFromWellFormed(buf, s.value.0, s.value.1, s.value.2);
      }
    }
  }

  /** A compiled template is a finished program: well-formed instructions, then one Halt. */
  lemma CompileFinished(buf: string)
    ensures CompileSpec(buf).Success? ==> Finished(CompileSpec(buf).value)
  {
    CompileFromWellFormed(buf, 0, Empty, []);
    var s := CompileFrom(buf, 0, Empty, []);
    if s.Success? && s.value.1 == [] {
      var p := s.value.0;
      assert CompileSpec(buf).value.(code := p.code) == p;
    }
  }

  /** Halt occurs in a finished program only as its last word. */
  lemma FinishedHaltsOnlyAtEnd(p: Program)
    requires Finished(p)
    ensures p.code[|p.code| - 1] == HaltWord
    ensures forall j :: 0 <= j < |p.code| - 1 ==> p.code[j] != HaltWord
  {
    var c := p.(code := p.code[..|p.code| - 1]);
    forall j | 0 <= j < |p.code| - 1
      ensures p.code[j] != HaltWord
    {
      assert WellFormedAt(c, j);
      assert c.code[j] == p.code[j];
    }
  }

  /** Every jump of a finished program lands inside its code: a jump test jumps forward, at most
      to the final Halt, and a Jump goes back to an earlier loop test. */
  lemma FinishedJumpsInside(p: Program)
    requires Finished(p)
    ensures forall j :: 0 <= j < |p.code| && JumpTest(p.code[j]) ==> j < OperandOf(p.code[j]) < |p.code|
    ensures forall j :: 0 <= j < |p.code| && OpcodeOf(p.code[j]) == Jump ==>
      OperandOf(p.code[j]) < j && OpcodeOf(p.code[OperandOf(p.code[j])]) == ListEndJump
  {
    var c := p.(code := p.code[..|p.code| - 1]);
    forall j | 0 <= j < |p.code| && (JumpTest(p.code[j]) || OpcodeOf(p.code[j]) == Jump)
      ensures j < |c.code| && p.code[j] == c.code[j]
    {
      if j == |p.code| - 1 {
        HaltWordIsZero(p.code[j]);
      }
    }
    forall j | 0 <= j < |p.code| && OpcodeOf(p.code[j]) == Jump
      ensures OperandOf(p.code[j]) < j && OpcodeOf(p.code[OperandOf(p.code[j])]) == ListEndJump
    {
      assert WellFormedAt(c, j);
      assert c.code[OperandOf(c.code[j])] == p.code[OperandOf(p.code[j])];
    }
  }

  /** The machine can execute every instruction of a finished program. */
  lemma FinishedExecutable(p: Program)
    requires Finished(p)
    ensures Vm.Executable(p.fragments, p.code)
  {
    var c := p.(code := p.code[..|p.code| - 1]);
    forall j | 0 <= j < |p.code| && p.code[j] != HaltWord
      ensures Vm.ExecutableAt(p.fragments, p.code, j)
    {
      assert j < |p.code| - 1;
      assert WellFormedAt(c, j);
      assert c.code[j] == p.code[j];
    }
  }

  /** Rendering a compiled template never raises an error, whatever the callbacks: it finishes or
      runs out of fuel. */
  lemma CompiledRendersWithoutFault<S>(buf: string, cb: Vm.Callbacks<S>, init: S, fuel: nat)
    requires CompileSpec(buf).Success?
    ensures var p := CompileSpec(buf).value;
      var r := Vm.Run(p.fragments, p.code, cb, init, fuel);
      r.Success? || r == Failure(Vm.OutOfFuel)
  {
    var p := CompileSpec(buf).value;
    CompileFinished(buf);
    FinishedExecutable(p);
    Vm.ExecNoFault(p.fragments, p.code, cb, Vm.Machine(0, init, ""), fuel);
  }
}

/**
 * The template compiler as a specification: the state it builds (fragments,
 * variable names, include names and bytecode), one scanning step of its main
 * loop, and the whole compilation as a function of the template text.
 */
module Compiler {
  import opened Results
  import opened Bytecode
  import opened Scan

  /** The four tables a compiled template consists of. */
  datatype Program = Program(
    fragments: seq<string>,
    varNames: seq<string>,
    includeNames: seq<string>,
    code: seq<Word>)

  /** The state of a freshly constructed template, before compilation. */
  const Empty: Program := Program([], [], [], [])

  /** Why a template does not compile. InvalidTemplate is the error the compiler raises itself;
      the other three replace behaviour the compiler leaves undefined. */
  datatype CompileError =
    | InvalidTemplate    // a directive matches none of the five shapes
    | UnmatchedEnd       // an `end` with no open block
    | UnterminatedBlock  // an `if` or `for` still open at the end of the text
    | OperandOverflow    // an operand that does not fit in 13 bits

  // Variable registration.

  /** No name occurs twice in names. */
  predicate Distinct(names: seq<string>) {
    forall i, j :: 0 <= i < j < |names| ==> names[i] != names[j]
  }

  /** The index of the first occurrence of name. */
  function IndexOf(names: seq<string>, name: string): (i: nat)
    requires name in names
    ensures i < |names| && names[i] == name
    ensures forall j :: 0 <= j < i ==> names[j] != name
  {
    if names[0] == name then 0 else 1 + IndexOf(names[1..], name)
  }

  /** The table after registering name, and the index it is known by: the index of its first
      occurrence if it is already present, otherwise a new last entry. */
  function Register(names: seq<string>, name: string): (r: (seq<string>, nat))
    ensures r.1 < |r.0| && r.0[r.1] == name
  {
    if name in names then (names, IndexOf(names, name)) else (names + [name], |names|)
  }

  /** Registering a name gives back an index holding that name and only ever appends it. */
  lemma RegisterFacts(names: seq<string>, name: string)
    ensures var (names', i) := Register(names, name);
      && i < |names'| && names'[i] == name
      && (forall j :: 0 <= j < i ==> names'[j] != name)
      && names'[..|names|] == names
      && (name in names ==> names' == names)
      && (name !in names ==> names' == names + [name] && i == |names|)
  {
  }

  /** Registration keeps the table free of duplicates. */
  lemma RegisterKeepsDistinct(names: seq<string>, name: string)
    requires Distinct(names)
    ensures Distinct(Register(names, name).0)
  {
  }

  /** Registering the same name twice gives the same index and leaves the table as the first time. */
  lemma RegisterIdempotent(names: seq<string>, name: string)
    ensures var (names', i) := Register(names, name);
      Register(names', name) == (names', i)
  {
    var (names', i) := Register(names, name);
    RegisterFacts(names, name);
    assert name in names';
  }

  // Emitting instructions.

  /** Append the instruction `op | operand`, which fails when the operand does not fit. */
  function Emit(p: Program, op: Opcode, operand: nat): (r: Result<Program, CompileError>)
    ensures r.Success? <==> operand < OperandLimit
    ensures r.Success? ==> r.value == p.(code := p.code + [Encode(op, operand)])
  {
    if operand < OperandLimit then Success(p.(code := p.code + [Encode(op, operand)]))
    else Failure(OperandOverflow)
  }

  /** Append a literal fragment and the Copy instruction that prints it. */
  function AddFragment(p: Program, text: string): (r: Result<Program, CompileError>)
    ensures r.Success? <==> |p.fragments| < OperandLimit
    ensures r.Success? ==> r.value == p.(fragments := p.fragments + [text],
                                          code := p.code + [Encode(Copy, |p.fragments|)])
  {
    Emit(p.(fragments := p.fragments + [text]), Copy, |p.fragments|)
  }

  /** Append `$` to the last fragment. */
  function AppendDollar(p: Program): (q: Program)
    requires |p.fragments| > 0
    ensures |q.fragments| == |p.fragments|
    ensures q.fragments[|q.fragments| - 1] == p.fragments[|p.fragments| - 1] + "$"
    ensures q.fragments[..|q.fragments| - 1] == p.fragments[..|p.fragments| - 1]
    ensures q.varNames == p.varNames && q.includeNames == p.includeNames && q.code == p.code
  {
    var last := |p.fragments| - 1;
    p.(fragments := p.fragments[last := p.fragments[last] + "$"])
  }

  // The stack of open blocks.

  /** Every open block is a jump placeholder: an increasing list of addresses of FalseJump or
      ListEndJump words whose target operand is still zero. */
  predicate Placeholders(code: seq<Word>, stack: seq<nat>) {
    && (forall i, j :: 0 <= i < j < |stack| ==> stack[i] < stack[j])
    && (forall i :: 0 <= i < |stack| ==>
          && stack[i] < |code|
          && OpcodeOf(code[stack[i]]) in {FalseJump, ListEndJump}
          && OperandOf(code[stack[i]]) == 0)
  }

  /** Fill in the target of a placeholder: `w | target` for a word whose operand bits are zero. */
  function Patch(w: Word, target: nat): (w': Word)
    requires OperandOf(w) == 0 && target < OperandLimit
    ensures OpcodeOf(w') == OpcodeOf(w) && OperandOf(w') == target
  {
    DecodeEncode(OpcodeOf(w), target);
    Encode(OpcodeOf(w), target)
  }

  /** Appending words keeps every placeholder. */
  lemma PlaceholdersAppend(code: seq<Word>, stack: seq<nat>, more: seq<Word>)
    requires Placeholders(code, stack)
    ensures Placeholders(code + more, stack)
  {
    assert forall i :: 0 <= i < |stack| ==> (code + more)[stack[i]] == code[stack[i]];
  }

  /** Pushing a new placeholder at the end of the code keeps the stack in order. */
  lemma PlaceholdersPush(code: seq<Word>, stack: seq<nat>)
    requires |code| > 0 && Placeholders(code[..|code| - 1], stack)
    requires OpcodeOf(code[|code| - 1]) in {FalseJump, ListEndJump} && OperandOf(code[|code| - 1]) == 0
    ensures Placeholders(code, stack + [|code| - 1])
  {
    var c := code[..|code| - 1];
    assert forall i :: 0 <= i < |stack| ==> code[stack[i]] == c[stack[i]];
  }

  // Directives.

  /** The effect of one directive on the program and the stack of open blocks. */
  function Apply(buf: string, p: Program, stack: seq<nat>, d: Directive): (r: Result<(Program, seq<nat>), CompileError>)
    requires GroupsIn(d, 0, |buf|) && Placeholders(p.code, stack)
    ensures r.Success? ==> Placeholders(r.value.0.code, r.value.1)
  {
    match d
    case End => CloseBlock(p, stack)
    case Var(g) =>
      var p1 :- Substitution(p, Text(buf, g));
      PlaceholdersAppend(p.code, stack, p1.code[|p.code|..]);
      assert p1.code == p.code + p1.code[|p.code|..];
      Success((p1, stack))
    case If(g) => OpenIf(p, stack, Text(buf, g))
    case For(g, h) => OpenFor(p, stack, Text(buf, g), Text(buf, h))
    case Include(g) =>
      var p1 :- AddInclude(p, Text(buf, g));
      PlaceholdersAppend(p.code, stack, p1.code[|p.code|..]);
      assert p1.code == p.code + p1.code[|p.code|..];
      Success((p1, stack))
  }

  /** `$(end)`: close the innermost open block. A loop first gets its backward Jump to the loop
      test; then the placeholder on top of the stack is patched with the address of the next
      instruction and popped. */
  function CloseBlock(p: Program, stack: seq<nat>): (r: Result<(Program, seq<nat>), CompileError>)
    requires Placeholders(p.code, stack)
    ensures r.Success? ==> Placeholders(r.value.0.code, r.value.1)
    ensures |stack| == 0 ==> r == Failure(UnmatchedEnd)
  {
    if |stack| == 0 then Failure(UnmatchedEnd)
    else
      var top := stack[|stack| - 1];
      var p1 :- if OpcodeOf(p.code[top]) == ListEndJump then Emit(p, Jump, top) else Success(p);
      var next := |p1.code|;
      if next >= OperandLimit then Failure(OperandOverflow)
      else
        PlaceholdersAppend(p.code, stack, p1.code[|p.code|..]);
        assert p1.code == p.code + p1.code[|p.code|..];
        var p2 := p1.(code := p1.code[top := Patch(p1.code[top], next)]);
        var rest := stack[..|stack| - 1];
        assert forall i :: 0 <= i < |rest| ==> rest[i] < top && p2.code[rest[i]] == p1.code[rest[i]];
        Success((p2, rest))
  }

  /** Closing a block pops the innermost placeholder and patches it with the address where the
      block ends, after the Jump back that a loop gets; nothing else in the code or the tables
      changes. */
  lemma CloseBlockPatches(p: Program, stack: seq<nat>)
    requires Placeholders(p.code, stack)
    ensures var r := CloseBlock(p, stack);
      r.Success? ==>
        var (q, t) := (r.value.0, stack[|stack| - 1]);
        var loop := OpcodeOf(p.code[t]) == ListEndJump;
        && r.value.1 == stack[..|stack| - 1]
        && q.fragments == p.fragments && q.varNames == p.varNames && q.includeNames == p.includeNames
        && |q.code| == |p.code| + (if loop then 1 else 0)
        && (forall j :: 0 <= j < |p.code| && j != t ==> q.code[j] == p.code[j])
        && OpcodeOf(q.code[t]) == OpcodeOf(p.code[t]) && OperandOf(q.code[t]) == |q.code|
        && (loop ==> OpcodeOf(q.code[|p.code|]) == Jump && OperandOf(q.code[|p.code|]) == t)
  {
    var r := CloseBlock(p, stack);
    if r.Success? {
      var top := stack[|stack| - 1];
      if OpcodeOf(p.code[top]) == ListEndJump {
        DecodeEncode(Jump, top);
      }
    }
  }

  /** `$(name)`: register the name and emit `Substitute | index`. */
  function Substitution(p: Program, name: string): (r: Result<Program, CompileError>)
    ensures r.Success? <==> Register(p.varNames, name).1 < OperandLimit
    ensures r.Success? ==> var (names, idx) := Register(p.varNames, name);
      r.value == p.(varNames := names, code := p.code + [Encode(Substitute, idx)])
  {
    var (names, idx) := Register(p.varNames, name);
    Emit(p.(varNames := names), Substitute, idx)
  }

  /** `$(if name)`: emit `Immediate | index` and a FalseJump placeholder, and push its address. */
  function OpenIf(p: Program, stack: seq<nat>, name: string): (r: Result<(Program, seq<nat>), CompileError>)
    requires Placeholders(p.code, stack)
    ensures r.Success? ==> Placeholders(r.value.0.code, r.value.1)
  {
    var (names, idx) := Register(p.varNames, name);
    var p1 :- Emit(p.(varNames := names), Immediate, idx);
    var p2 := p1.(code := p1.code + [TagValue(FalseJump)]);
    PlaceholdersAppend(p.code, stack, [Encode(Immediate, idx)]);
    PlaceholdersPush(p2.code, stack);
    Success((p2, stack + [|p2.code| - 1]))
  }

  /** `$(for elem in list)`: emit `Immediate | index` for each name and a ListEndJump placeholder,
      and push its address. */
  function OpenFor(p: Program, stack: seq<nat>, elem: string, list: string): (r: Result<(Program, seq<nat>), CompileError>)
    requires Placeholders(p.code, stack)
    ensures r.Success? ==> Placeholders(r.value.0.code, r.value.1)
  {
    var (names, idx) := Register(p.varNames, elem);
    var p1 :- Emit(p.(varNames := names), Immediate, idx);
    var (names', idx') := Register(p1.varNames, list);
    var p2 :- Emit(p1.(varNames := names'), Immediate, idx');
    var p3 := p2.(code := p2.code + [TagValue(ListEndJump)]);
    PlaceholdersAppend(p.code, stack, [Encode(Immediate, idx), Encode(Immediate, idx')]);
    assert p3.code[..|p3.code| - 1] == p.code + [Encode(Immediate, idx), Encode(Immediate, idx')];
    PlaceholdersPush(p3.code, stack);
    Success((p3, stack + [|p3.code| - 1]))
  }

  /** `$(include target)`: emit `Include | index` for a new include name. */
  function AddInclude(p: Program, target: string): (r: Result<Program, CompileError>)
    ensures r.Success? <==> |p.includeNames| < OperandLimit
    ensures r.Success? ==>
      r.value == p.(includeNames := p.includeNames + [target],
                    code := p.code + [Encode(Opcode.Include, |p.includeNames|)])
  {
    var p1 :- Emit(p, Opcode.Include, |p.includeNames|);
    Success(p1.(includeNames := p1.includeNames + [target]))
  }

  // Scanning.

  /** The character before index k is a backslash. */
  predicate Escaped(buf: string, k: nat) {
    1 <= k <= |buf| && buf[k - 1] == '\\'
  }

  /** Scanning can resume at index q: it is the start, or the character before it is not a backslash.
      (The compiler only resumes after `$`, after `)` or at the start.) */
  predicate Resumable(buf: string, q: nat) {
    q == 0 || q >= |buf| || buf[q - 1] != '\\'
  }

  /** The literal text between processed and an opener at e that does not start an escape:
      after an escaped escape the text up to the first backslash, otherwise the text before the
      opener when it is longer than one character. A one-character literal directly before a
      directive is dropped, as the compiler does (its length test is `> 1`). */
  function Literal(buf: string, processed: nat, e: nat, p: Program): (r: Result<Program, CompileError>)
    requires processed <= e < |buf| && Resumable(buf, processed)
    ensures r.Failure? ==> r.error == OperandOverflow
    ensures r.Success? ==> r.value.varNames == p.varNames && r.value.includeNames == p.includeNames
    ensures r.Success? ==> |p.code| <= |r.value.code| <= |p.code| + 1
  {
    if Escaped(buf, e) then
      assert processed < e;
      AddFragment(p, buf[processed..e - 1])
    else if e - processed > 1 then AddFragment(p, buf[processed..e])
    else Success(p)
  }

  /** One pass of the compiler's main loop, from index processed: the next index, program and stack. */
  function Step(buf: string, processed: nat, p: Program, stack: seq<nat>): (r: Result<(nat, Program, seq<nat>), CompileError>)
    requires processed < |buf| && Resumable(buf, processed) && Placeholders(p.code, stack)
    ensures r.Success? ==> processed < r.value.0 <= |buf| && Resumable(buf, r.value.0)
    ensures r.Success? ==> Placeholders(r.value.1.code, r.value.2)
  {
    match FindOpener(buf, processed)
    case None =>
      // No opener left: the rest of the text is one literal.
      var p1 :- AddFragment(p, buf[processed..]);
      PlaceholdersAppend(p.code, stack, [Encode(Copy, |p.fragments|)]);
      Success((|buf|, p1, stack))
    case Some(e) =>
      if Escaped(buf, e) && !Escaped(buf, e - 1) then EscapeStep(buf, processed, e, p, stack)
      else DirectiveStep(buf, processed, e, p, stack)
  }

  /** A pass that finds an opener at e: an escape, or the literal before a directive and the
      directive. */
  lemma StepFound(buf: string, processed: nat, p: Program, stack: seq<nat>, e: nat)
    requires processed < |buf| && Resumable(buf, processed) && Placeholders(p.code, stack)
    requires FindOpener(buf, processed) == Some(e)
    ensures processed <= e && OpenerAt(buf, e)
    ensures Step(buf, processed, p, stack)
         == if Escaped(buf, e) && !Escaped(buf, e - 1) then EscapeStep(buf, processed, e, p, stack)
            else DirectiveStep(buf, processed, e, p, stack)
  {
  }

  /** `\$(` at e: the text before the backslash and a literal `$`; scanning resumes at the `(`. */
  function EscapeStep(buf: string, processed: nat, e: nat, p: Program, stack: seq<nat>): (r: Result<(nat, Program, seq<nat>), CompileError>)
    requires processed <= e && OpenerAt(buf, e) && Escaped(buf, e)
    requires Resumable(buf, processed) && Placeholders(p.code, stack)
    ensures r.Success? ==> r.value.0 == e + 1 && r.value.2 == stack && Placeholders(r.value.1.code, r.value.2)
  {
    assert processed < e;
    var p1 :- AddFragment(p, buf[processed..e - 1]);
    PlaceholdersAppend(p.code, stack, [Encode(Copy, |p.fragments|)]);
    Success((e + 1, AppendDollar(p1), stack))
  }

  /** A directive whose opener is at e: the literal before it, then the directive itself. */
  function DirectiveStep(buf: string, processed: nat, e: nat, p: Program, stack: seq<nat>): (r: Result<(nat, Program, seq<nat>), CompileError>)
    requires processed <= e && OpenerAt(buf, e)
    requires Resumable(buf, processed) && Placeholders(p.code, stack)
    ensures r.Success? ==> e + 2 < r.value.0 <= |buf| && buf[r.value.0 - 1] == ')'
    ensures r.Success? ==> Placeholders(r.value.1.code, r.value.2)
  {
    var p1 :- Literal(buf, processed, e, p);
    LiteralAppends(buf, processed, e, p);
    PlaceholdersAppend(p.code, stack, p1.code[|p.code|..]);
    RunDirective(buf, e, p1, stack)
  }

  /** The literal step only appends to the code. */
  lemma LiteralAppends(buf: string, processed: nat, e: nat, p: Program)
    requires processed <= e < |buf| && Resumable(buf, processed)
    ensures var r := Literal(buf, processed, e, p);
      r.Success? ==> r.value.code == p.code + r.value.code[|p.code|..]
  {
  }

  /** The directive whose opener is at e: parse it, apply it, and resume after its `)`. */
  function RunDirective(buf: string, e: nat, p: Program, stack: seq<nat>): (r: Result<(nat, Program, seq<nat>), CompileError>)
    requires OpenerAt(buf, e) && Placeholders(p.code, stack)
    ensures r.Success? ==> e + 2 < r.value.0 <= |buf| && buf[r.value.0 - 1] == ')'
    ensures r.Success? ==> Placeholders(r.value.1.code, r.value.2)
  {
    match ParseDirective(buf, e + 2)
    case None => Failure(InvalidTemplate)
    case Some((d, n)) =>
      var r :- Apply(buf, p, stack, d);
      Success((n, r.0, r.1))
  }

  /** The compiler's main loop from index processed to the end of the text. */
  function CompileFrom(buf: string, processed: nat, p: Program, stack: seq<nat>): (r: Result<(Program, seq<nat>), CompileError>)
    requires processed <= |buf| && Resumable(buf, processed) && Placeholders(p.code, stack)
    ensures r.Success? ==> Placeholders(r.value.0.code, r.value.1)
    decreases |buf| - processed
  {
    if processed == |buf| then Success((p, stack))
    else
      var s :- Step(buf, processed, p, stack);
      CompileFrom(buf, s.0, s.1, s.2)
  }

  /** The end of compilation: every block must be closed, then Halt is appended. */
  function Finish(p: Program, stack: seq<nat>): (r: Result<Program, CompileError>)
    ensures r.Success? <==> stack == []
    ensures r.Success? ==> r.value == p.(code := p.code + [HaltWord])
  {
    if stack != [] then Failure(UnterminatedBlock) else Success(p.(code := p.code + [HaltWord]))
  }

  /** Compiling buf onto the tables of p. */
  function CompileOnto(buf: string, p: Program): (r: Result<Program, CompileError>)
    ensures r.Success? ==> |r.value.code| > 0 && r.value.code[|r.value.code| - 1] == HaltWord
  {
    var s :- CompileFrom(buf, 0, p, []);
    Finish(s.0, s.1)
  }

  /** Compiling buf into a fresh template. */
  function CompileSpec(buf: string): (r: Result<Program, CompileError>)
    ensures r.Success? ==> |r.value.code| > 0 && r.value.code[|r.value.code| - 1] == HaltWord
  {
    CompileOnto(buf, Empty)
  }
}

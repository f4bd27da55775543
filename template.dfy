/**
 * A parsed template: the object whose constructors compile a template text
 * into fragments, variable names, include names and bytecode, and whose
 * render runs that bytecode.
 */
module Fae {
  import opened Results
  import opened Bytecode
  import opened Scan
  import opened Compiler
  import Vm
  import Binding

  class Template {
    /** Raw literal fragments of the template text. */
    var fragments: seq<string>
    /** Indexed variable names. */
    var varNames: seq<string>
    /** Indexed include targets. */
    var includeNames: seq<string>
    /** The bytecode of the template machine. */
    var bytecode: seq<Word>

    /** The four tables as a value. */
    function Contents(): (prog: Program)
      reads this
    {
      Program(fragments, varNames, includeNames, bytecode)
    }

    /** r reports the outcome s of a compiler pass: the same next index and stack of open
        blocks, or the same error; on success this template holds the tables of the pass. */
    predicate PassAgrees(r: Result<(nat, seq<nat>), CompileError>, s: Result<(nat, Program, seq<nat>), CompileError>)
      reads this
    {
      && (r.Success? <==> s.Success?)
      && (r.Success? ==> r.value == (s.value.0, s.value.2) && Contents() == s.value.1)
      && (r.Failure? ==> r.error == s.error)
    }

    /** r reports the effect s of a directive: the same stack of open blocks, or the same
        error; on success this template holds the tables it gives. */
    predicate ApplyAgrees(r: Result<seq<nat>, CompileError>, s: Result<(Program, seq<nat>), CompileError>)
      reads this
    {
      && (r.Success? <==> s.Success?)
      && (r.Success? ==> r.value == s.value.1 && Contents() == s.value.0)
      && (r.Failure? ==> r.error == s.error)
    }

    /** The default constructor compiles the empty text, so the template is a lone Halt. */
    constructor ()
      ensures Contents() == Program([], [], [], [HaltWord])
    {
      fragments, varNames, includeNames, bytecode := [], [], [], [];
      new;
      CompileEmpty();
      var r := Compile("");
    }

    /** A template with empty tables, before compilation. */
    constructor Blank()
      ensures Contents() == Empty
    {
      fragments, varNames, includeNames, bytecode := [], [], [], [];
    }

    /** Parse a template from memory: compile str into fresh tables, or report why it is invalid. */
    static method FromString(str: string) returns (r: Result<Template, CompileError>)
      ensures r.Success? <==> CompileSpec(str).Success?
      ensures r.Success? ==> fresh(r.value) && r.value.Contents() == CompileSpec(str).value
      ensures r.Failure? ==> r.error == CompileSpec(str).error
    {
      var t := new Template.Blank();
      var o := t.Compile(str);
      if o.Fail? {
        return Failure(o.error);
      }
      return Success(t);
    }

    /** Compile buf onto the current tables: the main scanning loop, then the final Halt. */
    method Compile(buf: string) returns (r: Outcome<CompileError>)
      modifies this
      ensures r.Pass? <==> CompileOnto(buf, old(Contents())).Success?
      ensures r.Pass? ==> Contents() == CompileOnto(buf, old(Contents())).value
      ensures r.Fail? ==> r.error == CompileOnto(buf, old(Contents())).error
    {
      ghost var start := Contents();
      var processed := 0;
      var offsetStack: seq<nat> := [];
      while processed < |buf|
        invariant processed <= |buf| && Resumable(buf, processed) && Placeholders(bytecode, offsetStack)
        invariant CompileFrom(buf, processed, Contents(), offsetStack) == CompileFrom(buf, 0, start, [])
        decreases |buf| - processed
      {
        var s := ScanStep(buf, processed, offsetStack);
        if s.Failure? {
          return Fail(s.error);
        }
        processed, offsetStack := s.value.0, s.value.1;
      }
      if offsetStack != [] {
        return Fail(UnterminatedBlock);
      }
      bytecode := bytecode + [HaltWord];
      return Pass;
    }

    /** One pass of the scanning loop from index processed: emit the literal text and the
        directive (or escape) that follows, and give the next index and the new stack. */
    method ScanStep(buf: string, processed: nat, stack: seq<nat>) returns (r: Result<(nat, seq<nat>), CompileError>)
      modifies this
      requires processed < |buf| && Resumable(buf, processed) && Placeholders(bytecode, stack)
      ensures PassAgrees(r, Step(buf, processed, old(Contents()), stack))
    {
      ghost var p := Contents();
      var found := FindOpener(buf, processed);
      if found.None? {
        r := EmitRest(buf, processed, stack);
        return;
      }
      var expStart := found.value;
      StepFound(buf, processed, p, stack, expStart);
      if expStart >= 1 && buf[expStart - 1] == '\\' && !(expStart >= 2 && buf[expStart - 2] == '\\') {
        assert Step(buf, processed, p, stack) == EscapeStep(buf, processed, expStart, p, stack);
        r := EmitEscape(buf, processed, expStart, stack);
      } else {
        assert Step(buf, processed, p, stack) == DirectiveStep(buf, processed, expStart, p, stack);
        r := EmitLiteralAndDirective(buf, processed, expStart, stack);
      }
    }

    /** No opener is left: the rest of the text is one literal. */
    method EmitRest(buf: string, processed: nat, stack: seq<nat>) returns (r: Result<(nat, seq<nat>), CompileError>)
      modifies this
      requires processed < |buf| && Resumable(buf, processed) && Placeholders(bytecode, stack)
      requires FindOpener(buf, processed).None?
      ensures PassAgrees(r, Step(buf, processed, old(Contents()), stack))
    {
      if |fragments| >= OperandLimit {
        return Failure(OperandOverflow);
      }
      AddFragment(buf[processed..]);
      return Success((|buf|, stack));
    }

    /** `\$(` at e: the text before the backslash and a literal `$`; scanning resumes at the `(`. */
    method EmitEscape(buf: string, processed: nat, e: nat, stack: seq<nat>) returns (r: Result<(nat, seq<nat>), CompileError>)
      modifies this
      requires processed <= e && OpenerAt(buf, e) && Escaped(buf, e)
      requires Resumable(buf, processed) && Placeholders(bytecode, stack)
      ensures PassAgrees(r, EscapeStep(buf, processed, e, old(Contents()), stack))
    {
      assert processed < e;
      if |fragments| >= OperandLimit {
        return Failure(OperandOverflow);
      }
      AddFragment(buf[processed..e - 1]);
      fragments := fragments[|fragments| - 1 := fragments[|fragments| - 1] + "$"];
      return Success((e + 1, stack));
    }

    /** An opener at e that starts a directive: emit the literal text before it (after an escaped
        escape, the text up to its second backslash), then the directive. */
    method EmitLiteralAndDirective(buf: string, processed: nat, e: nat, stack: seq<nat>) returns (r: Result<(nat, seq<nat>), CompileError>)
      modifies this
      requires processed <= e && OpenerAt(buf, e)
      requires Resumable(buf, processed) && Placeholders(bytecode, stack)
      ensures PassAgrees(r, DirectiveStep(buf, processed, e, old(Contents()), stack))
    {
      var from := processed;
      if e >= 1 && buf[e - 1] == '\\' {
        // The escape was escaped: the text up to the second backslash, then a live directive.
        assert processed < e;
        if |fragments| >= OperandLimit {
          return Failure(OperandOverflow);
        }
        AddFragment(buf[from..e - 1]);
        from := e;
      }
      // A one-character literal directly before a directive is not emitted.
      if e - from > 1 {
        if |fragments| >= OperandLimit {
          return Failure(OperandOverflow);
        }
        AddFragment(buf[from..e]);
      }
      LiteralAppends(buf, processed, e, old(Contents()));
      PlaceholdersAppend(old(bytecode), stack, bytecode[|old(bytecode)|..]);
      r := CompileDirective(buf, e, stack);
    }

    /** The directive whose opener is at e: parse it and emit its instructions. */
    method CompileDirective(buf: string, e: nat, stack: seq<nat>) returns (r: Result<(nat, seq<nat>), CompileError>)
      modifies this
      requires OpenerAt(buf, e) && Placeholders(bytecode, stack)
      ensures PassAgrees(r, RunDirective(buf, e, old(Contents()), stack))
    {
      var parsed := ParseDirective(buf, e + 2);
      if parsed.None? {
        return Failure(InvalidTemplate);
      }
      var (d, n) := parsed.value;
      var st := EmitDirective(buf, d, stack);
      if st.Failure? {
        return Failure(st.error);
      }
      return Success((n, st.value));
    }

    /** Emit the instructions of directive d and give the new stack of open blocks. */
    method EmitDirective(buf: string, d: Directive, stack: seq<nat>) returns (r: Result<seq<nat>, CompileError>)
      modifies this
      requires GroupsIn(d, 0, |buf|) && Placeholders(bytecode, stack)
      ensures ApplyAgrees(r, Apply(buf, old(Contents()), stack, d))
    {
      match d
      case End =>
        r := CloseInnermost(stack);
      case Var(g) =>
        var idx := AddVariable(Text(buf, g));
        if idx >= OperandLimit {
          return Failure(OperandOverflow);
        }
        bytecode := bytecode + [Encode(Substitute, idx)];
        PlaceholdersAppend(old(bytecode), stack, [Encode(Substitute, idx)]);
        return Success(stack);
      case If(g) =>
        r := OpenConditional(Text(buf, g), stack);
      case For(g, h) =>
        r := OpenLoop(Text(buf, g), Text(buf, h), stack);
      case Include(g) =>
        if |includeNames| >= OperandLimit {
          return Failure(OperandOverflow);
        }
        bytecode := bytecode + [Encode(Opcode.Include, |includeNames|)];
        includeNames := includeNames + [Text(buf, g)];
        PlaceholdersAppend(old(bytecode), stack, [Encode(Opcode.Include, |old(includeNames)|)]);
        return Success(stack);
    }

    /** `$(if name)`: emit `Immediate | index` and a FalseJump placeholder, and push its address. */
    method OpenConditional(name: string, stack: seq<nat>) returns (r: Result<seq<nat>, CompileError>)
      modifies this
      requires Placeholders(bytecode, stack)
      ensures ApplyAgrees(r, OpenIf(old(Contents()), stack, name))
    {
      var idx := AddVariable(name);
      if idx >= OperandLimit {
        return Failure(OperandOverflow);
      }
      bytecode := bytecode + [Encode(Immediate, idx)];
      // Jumps past the block when the variable is absent; the target is set at its `end`.
      bytecode := bytecode + [TagValue(FalseJump)];
      return Success(stack + [|bytecode| - 1]);
    }

    /** `$(for elem in list)`: emit `Immediate | index` for each name and a ListEndJump
        placeholder, and push its address. */
    method OpenLoop(elem: string, list: string, stack: seq<nat>) returns (r: Result<seq<nat>, CompileError>)
      modifies this
      requires Placeholders(bytecode, stack)
      ensures ApplyAgrees(r, OpenFor(old(Contents()), stack, elem, list))
    {
      var idx := AddVariable(elem);
      if idx >= OperandLimit {
        return Failure(OperandOverflow);
      }
      bytecode := bytecode + [Encode(Immediate, idx)];
      idx := AddVariable(list);
      if idx >= OperandLimit {
        return Failure(OperandOverflow);
      }
      bytecode := bytecode + [Encode(Immediate, idx)];
      // Jumps past the block once the list is exhausted; the target is set at its `end`.
      bytecode := bytecode + [TagValue(ListEndJump)];
      return Success(stack + [|bytecode| - 1]);
    }

    /** `$(end)`: close the innermost open block and give the stack without it. */
    method CloseInnermost(stack: seq<nat>) returns (r: Result<seq<nat>, CompileError>)
      modifies this
      requires Placeholders(bytecode, stack)
      ensures ApplyAgrees(r, CloseBlock(old(Contents()), stack))
    {
      if |stack| == 0 {
        return Failure(UnmatchedEnd);
      }
      var top := stack[|stack| - 1];
      if OpcodeOf(bytecode[top]) == ListEndJump {
        // Jump back to the loop test.
        if top >= OperandLimit {
          return Failure(OperandOverflow);
        }
        bytecode := bytecode + [Encode(Jump, top)];
      }
      var nextIndex := |bytecode|;
      if nextIndex >= OperandLimit {
        return Failure(OperandOverflow);
      }
      bytecode := bytecode[top := Patch(bytecode[top], nextIndex)];
      return Success(stack[..|stack| - 1]);
    }

    /** Run the bytecode with the four callbacks from the caller state init, executing at most
        fuel instructions that do not halt. A jump to t sets the counter to t directly. */
    method Render<S>(cb: Vm.Callbacks<S>, init: S, fuel: nat) returns (r: Result<string, Vm.VmError>)
      ensures r == Vm.Run(fragments, bytecode, cb, init, fuel)
    {
      var pc: nat, state, stream, steps := 0, init, "", fuel;
      while pc < |bytecode| && bytecode[pc] != HaltWord
        invariant Vm.Exec(fragments, bytecode, cb, Vm.Machine(pc, state, stream), steps)
               == Vm.Run(fragments, bytecode, cb, init, fuel)
        decreases steps
      {
        var op := bytecode[pc];
        var x := OperandOf(op);
        match OpcodeOf(op) {
          case Copy =>
            if x >= |fragments| {
              return Failure(Vm.MalformedProgram);
            }
            stream, pc := stream + fragments[x], pc + 1;
          case Substitute =>
            stream, pc := stream + cb.printVar(state, x), pc + 1;
          case Immediate =>
            pc := pc + 1;
          case FalseJump =>
            if pc < 1 {
              return Failure(Vm.MalformedProgram);
            }
            pc := if cb.keyExists(state, OperandOf(bytecode[pc - 1])) then pc + 1 else x;
          case ListEndJump =>
            if pc < 2 {
              return Failure(Vm.MalformedProgram);
            }
            var (more, next) := cb.nextListItem(state, OperandOf(bytecode[pc - 2]), OperandOf(bytecode[pc - 1]));
            state, pc := next, if more then pc + 1 else x;
          case Jump =>
            pc := x;
          case Include =>
            stream, pc := stream + cb.renderInclude(x), pc + 1;
          case Halt =>
            return Failure(Vm.UnknownInstruction);
        }
        if steps == 0 {
          return Failure(Vm.OutOfFuel);
        }
        steps := steps - 1;
      }
      return Success(stream);
    }

    /** Render with an input map: the callbacks of the binding protocol over a cursor map that
        starts empty, and the caller's renderer for includes. */
    method RenderInput(input: Binding.Input, renderInclude: nat -> string, fuel: nat) returns (r: Result<string, Vm.VmError>)
      ensures r == Vm.Run(fragments, bytecode, Binding.InputCallbacks(input, varNames, renderInclude), map[], fuel)
    {
      r := Render(Binding.InputCallbacks(input, varNames, renderInclude), map[], fuel);
    }

    /** Register a variable name: the index of its first occurrence, or a new last entry. */
    method AddVariable(name: string) returns (idx: nat)
      modifies this
      ensures (varNames, idx) == Register(old(varNames), name)
      ensures fragments == old(fragments) && includeNames == old(includeNames) && bytecode == old(bytecode)
    {
      var i := 0;
      while i < |varNames|
        invariant i <= |varNames|
        invariant forall j :: 0 <= j < i ==> varNames[j] != name
      {
        if varNames[i] == name {
          IndexOfFirst(varNames, name, i);
          return i;
        }
        i := i + 1;
      }
      varNames := varNames + [name];
      return |varNames| - 1;
    }

    /** Add a fragment and the Copy instruction that prints it. */
    method AddFragment(text: string)
      modifies this
      requires |fragments| < OperandLimit
      ensures fragments == old(fragments) + [text]
      ensures bytecode == old(bytecode) + [Encode(Copy, |old(fragments)|)]
      ensures varNames == old(varNames) && includeNames == old(includeNames)
    {
      fragments := fragments + [text];
      bytecode := bytecode + [Encode(Copy, |fragments| - 1)];
    }
  }

  /** The first index holding name is the one IndexOf finds. */
  lemma IndexOfFirst(names: seq<string>, name: string, i: nat)
    requires i < |names| && names[i] == name
    requires forall j :: 0 <= j < i ==> names[j] != name
    ensures name in names && IndexOf(names, name) == i
  {
  }

  /** The empty text compiles to a lone Halt. */
  lemma CompileEmpty()
    ensures CompileOnto("", Empty) == Success(Program([], [], [], [HaltWord]))
    ensures CompileSpec("") == Success(Program([], [], [], [HaltWord]))
  {
    assert CompileFrom("", 0, Empty, []) == Success((Empty, []));
    assert Empty.(code := Empty.code + [HaltWord]) == Program([], [], [], [HaltWord]);
  }
}

/**
 * The template virtual machine: a program counter walking the bytecode,
 * calling four callbacks supplied by the caller. The callbacks are pure
 * functions threading an explicit state (the state the caller's closures
 * share, such as the active loop cursors).
 */
module Vm {
  import opened Results
  import opened Bytecode

  /** The four callbacks of the machine, over a caller state S. */
  datatype Callbacks<!S> = Callbacks(
    printVar: (S, nat) -> string,            // text for a variable index
    keyExists: (S, nat) -> bool,             // is a variable index present
    nextListItem: (S, nat, nat) -> (bool, S), // advance the loop over (element index, list index)
    renderInclude: nat -> string)            // text for an include index

  /** Why rendering stops without output. The compiler never produces a program that raises the
      first two (see `Compiled.CompiledRendersWithoutFault`). */
  datatype VmError =
    | UnknownInstruction  // a word with the Halt tag and a nonzero operand
    | MalformedProgram    // a Copy past the fragments, or a jump test without its operands before it
    | OutOfFuel           // the step bound ran out

  /** The machine between two instructions. */
  datatype Machine<S> = Machine(pc: nat, state: S, out: string)

  /** What one instruction does. */
  datatype StepResult<S> = Halted | Continue(next: Machine<S>) | Fault(error: VmError)

  /** Execute the instruction at the program counter. The machine halts on the zero word or when
      the counter runs off the end of the code; a jump to t continues at t. */
  function Step<S>(fragments: seq<string>, code: seq<Word>, cb: Callbacks<S>, m: Machine<S>): (r: StepResult<S>)
    ensures r.Halted? <==> m.pc >= |code| || code[m.pc] == HaltWord
    ensures r.Fault? ==> r.error != OutOfFuel
  {
    if m.pc >= |code| || code[m.pc] == HaltWord then Halted
    else
      var x := OperandOf(code[m.pc]);
      match OpcodeOf(code[m.pc])
      case Copy =>
        if x < |fragments| then Continue(m.(pc := m.pc + 1, out := m.out + fragments[x]))
        else Fault(MalformedProgram)
      case Substitute => Continue(m.(pc := m.pc + 1, out := m.out + cb.printVar(m.state, x)))
      case Immediate => Continue(m.(pc := m.pc + 1))
      case FalseJump =>
        if m.pc < 1 then Fault(MalformedProgram)
        else if cb.keyExists(m.state, OperandOf(code[m.pc - 1])) then Continue(m.(pc := m.pc + 1))
        else Continue(m.(pc := x))
      case ListEndJump =>
        if m.pc < 2 then Fault(MalformedProgram)
        else
          var (more, s') := cb.nextListItem(m.state, OperandOf(code[m.pc - 2]), OperandOf(code[m.pc - 1]));
          Continue(m.(pc := if more then m.pc + 1 else x, state := s'))
      case Jump => Continue(m.(pc := x))
      case Include => Continue(m.(pc := m.pc + 1, out := m.out + cb.renderInclude(x)))
      case Halt => Fault(UnknownInstruction)
  }

  /** Run from machine m for at most fuel instructions that do not halt. */
  function Exec<S>(fragments: seq<string>, code: seq<Word>, cb: Callbacks<S>, m: Machine<S>, fuel: nat): (r: Result<string, VmError>)
    decreases fuel
  {
    match Step(fragments, code, cb, m)
    case Halted => Success(m.out)
    case Fault(e) => Failure(e)
    case Continue(m') => if fuel == 0 then Failure(OutOfFuel) else Exec(fragments, code, cb, m', fuel - 1)
  }

  /** Run a program from its first instruction with empty output. A program that is empty or
      starts with Halt renders nothing, whatever the callbacks and the fuel. */
  function Run<S>(fragments: seq<string>, code: seq<Word>, cb: Callbacks<S>, init: S, fuel: nat): (r: Result<string, VmError>)
    ensures |code| == 0 || code[0] == HaltWord ==> r == Success("")
  {
    Exec(fragments, code, cb, Machine(0, init, ""), fuel)
  }

  // Properties of the machine.

  /** An instruction that continues costs one unit of fuel. */
  lemma ExecContinue<S>(fragments: seq<string>, code: seq<Word>, cb: Callbacks<S>, m: Machine<S>, m': Machine<S>, fuel: nat)
    requires Step(fragments, code, cb, m) == Continue(m') && fuel > 0
    ensures Exec(fragments, code, cb, m, fuel) == Exec(fragments, code, cb, m', fuel - 1)
  {
  }

  /** A machine at a Halt word, or past the end of the code, stops with what it has printed. */
  lemma ExecHalted<S>(fragments: seq<string>, code: seq<Word>, cb: Callbacks<S>, m: Machine<S>, fuel: nat)
    requires m.pc >= |code| || code[m.pc] == HaltWord
    ensures Exec(fragments, code, cb, m, fuel) == Success(m.out)
  {
  }

  /** What a run prints extends what the machine had printed when it started. */
  lemma {:induction false} ExecExtendsOutput<S>(fragments: seq<string>, code: seq<Word>, cb: Callbacks<S>, m: Machine<S>, fuel: nat)
    ensures var r := Exec(fragments, code, cb, m, fuel);
      r.Success? ==> |m.out| <= |r.value| && r.value[..|m.out|] == m.out
    decreases fuel
  {
    match Step(fragments, code, cb, m)
    case Halted =>
    case Fault(e) =>
    case Continue(m') =>
      if fuel > 0 {
        StepExtendsOutput(fragments, code, cb, m);
        ExecExtendsOutput(fragments, code, cb, m', fuel - 1);
        var r := Exec(fragments, code, cb, m', fuel - 1);
        if r.Success? {
          assert r.value[..|m.out|] == r.value[..|m'.out|][..|m.out|];
        }
      }
  }

  /** One instruction only appends to the output. */
  lemma StepExtendsOutput<S>(fragments: seq<string>, code: seq<Word>, cb: Callbacks<S>, m: Machine<S>)
    requires Step(fragments, code, cb, m).Continue?
    ensures var m' := Step(fragments, code, cb, m).next;
      |m.out| <= |m'.out| && m'.out[..|m.out|] == m.out
  {
  }

  /** More fuel never changes a finished run. */
  lemma {:induction false} ExecFuelMonotone<S>(fragments: seq<string>, code: seq<Word>, cb: Callbacks<S>, m: Machine<S>, fuel: nat, more: nat)
    requires fuel <= more
    requires Exec(fragments, code, cb, m, fuel) != Failure(OutOfFuel)
    ensures Exec(fragments, code, cb, m, more) == Exec(fragments, code, cb, m, fuel)
    decreases fuel
  {
    match Step(fragments, code, cb, m)
    case Halted =>
    case Fault(e) =>
    case Continue(m') =>
      ExecFuelMonotone(fragments, code, cb, m', fuel - 1, more - 1);
  }

  /** Every non-zero word of the code is an instruction the machine can execute at its place:
      its tag is not Halt, a Copy names an existing fragment, and a jump test has the operand
      words it reads before it. */
  predicate Executable(fragments: seq<string>, code: seq<Word>) {
    forall j :: 0 <= j < |code| && code[j] != HaltWord ==> ExecutableAt(fragments, code, j)
  }

  /** The word at j is an instruction the machine can execute there. */
  predicate ExecutableAt(fragments: seq<string>, code: seq<Word>, j: nat)
    requires j < |code|
  {
    && OpcodeOf(code[j]) != Halt
    && (OpcodeOf(code[j]) == Copy ==> OperandOf(code[j]) < |fragments|)
    && (OpcodeOf(code[j]) == FalseJump ==> j >= 1)
    && (OpcodeOf(code[j]) == ListEndJump ==> j >= 2)
  }

  /** An executable program never faults in one step. */
  lemma StepNoFault<S>(fragments: seq<string>, code: seq<Word>, cb: Callbacks<S>, m: Machine<S>)
    requires Executable(fragments, code)
    ensures !Step(fragments, code, cb, m).Fault?
  {
    if m.pc < |code| && code[m.pc] != HaltWord {
      assert ExecutableAt(fragments, code, m.pc);
    }
  }

  /** An executable program either renders or runs out of fuel: it never raises an error. */
  lemma {:induction false} ExecNoFault<S>(fragments: seq<string>, code: seq<Word>, cb: Callbacks<S>, m: Machine<S>, fuel: nat)
    requires Executable(fragments, code)
    ensures Exec(fragments, code, cb, m, fuel).Success? || Exec(fragments, code, cb, m, fuel) == Failure(OutOfFuel)
    decreases fuel
  {
    StepNoFault(fragments, code, cb, m);
    match Step(fragments, code, cb, m)
    case Halted =>
    case Continue(m') =>
      if fuel > 0 {
        ExecNoFault(fragments, code, cb, m', fuel - 1);
      }
  }
}

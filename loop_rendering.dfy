/**
 * Rendering the loop `$(for x in xs)$(x)$(end)` over an input: the machine
 * walks the list cursor round by round and prints the elements of the
 * container in order, whatever container the list is bound to.
 */
module LoopRendering {
  import opened Results
  import opened Bytecode
  import opened Scan
  import opened Compiler
  import opened Binding
  import opened LoopCompilation
  import Vm

  // Rendering, round by round.

  /** The concatenated text of the values a loop visits. */
  function ShowAll(xs: seq<Value>): (text: string) {
    if xs == [] then "" else Show(xs[0]) + ShowAll(xs[1..])
  }

  /** The elements the loop over the list named xs visits: those of a bound container, otherwise none. */
  function LoopElements(input: Input, xs: string): (vs: seq<Value>) {
    if xs in input && IsContainer(input[xs]) then Elements(input[xs]) else []
  }

  /** The instructions of the loop code, decoded. */
  lemma LoopCodeFacts()
    ensures |LoopCode| == 6
    ensures OpcodeOf(LoopCode[0]) == Immediate && OperandOf(LoopCode[0]) == 0
    ensures OpcodeOf(LoopCode[1]) == Immediate && OperandOf(LoopCode[1]) == 1
    ensures OpcodeOf(LoopCode[2]) == ListEndJump && OperandOf(LoopCode[2]) == 5
    ensures OpcodeOf(LoopCode[3]) == Substitute && OperandOf(LoopCode[3]) == 0
    ensures OpcodeOf(LoopCode[4]) == Jump && OperandOf(LoopCode[4]) == 2
    ensures LoopCode[5] == HaltWord
    ensures forall j :: 0 <= j < 5 ==> LoopCode[j] != HaltWord
  {
    DecodeEncode(Immediate, 0);
    DecodeEncode(Immediate, 1);
    DecodeEncode(ListEndJump, 5);
    DecodeEncode(Substitute, 0);
    DecodeEncode(Jump, 2);
  }

  /** The cursor map while the loop is on element i. */
  function Active(e: seq<Value>, i: nat): (iters: Iterators) {
    map[0 := Cursor(e, i)]
  }

  /** The loop test with the cursor on element i. */
  lemma LoopTestStep(x: string, xs: string, input: Input, inc: nat -> string, i: nat, out: string)
    requires x != xs && xs in input && IsContainer(input[xs]) && i < |Elements(input[xs])|
    ensures var e := Elements(input[xs]);
      Vm.Step([], LoopCode, InputCallbacks(input, [x, xs], inc), Vm.Machine(2, Active(e, i), out))
        == if i + 1 < |e| then Vm.Continue(Vm.Machine(3, Active(e, i + 1), out))
           else Vm.Continue(Vm.Machine(5, map[], out))
  {
    var e := Elements(input[xs]);
    var it := Active(e, i);
    LoopCodeFacts();
    assert Lookup(input, [x, xs], 1) == Some(input[xs]);
    assert it[0 := Cursor(e, i + 1)] == Active(e, i + 1);
    assert it - {0} == map[];
  }

  /** The loop body with the cursor on element i: print it and jump back to the test. */
  lemma LoopBodySteps(x: string, xs: string, input: Input, inc: nat -> string, e: seq<Value>, i: nat, out: string)
    requires i < |e|
    ensures var cb := InputCallbacks(input, [x, xs], inc); var it := Active(e, i);
      && Vm.Step([], LoopCode, cb, Vm.Machine(3, it, out)) == Vm.Continue(Vm.Machine(4, it, out + Show(e[i])))
      && Vm.Step([], LoopCode, cb, Vm.Machine(4, it, out + Show(e[i]))) == Vm.Continue(Vm.Machine(2, it, out + Show(e[i])))
  {
    LoopCodeFacts();
  }

  /** One round of the loop: test, print element i + 1, jump back to the test. */
  lemma LoopRound(x: string, xs: string, input: Input, inc: nat -> string, cb: Vm.Callbacks<Iterators>, e: seq<Value>, i: nat, out: string, fuel: nat)
    requires x != xs && xs in input && IsContainer(input[xs]) && e == Elements(input[xs])
    requires cb == InputCallbacks(input, [x, xs], inc)
    requires i + 1 < |e| && fuel >= 3
    ensures Vm.Exec([], LoopCode, cb, Vm.Machine(2, Active(e, i), out), fuel)
         == Vm.Exec([], LoopCode, cb, Vm.Machine(2, Active(e, i + 1), out + Show(e[i + 1])), fuel - 3)
  {
    var it' := Active(e, i + 1);
    var out' := out + Show(e[i + 1]);
    LoopTestStep(x, xs, input, inc, i, out);
    LoopBodySteps(x, xs, input, inc, e, i + 1, out);
    Vm.ExecContinue([], LoopCode, cb, Vm.Machine(2, Active(e, i), out), Vm.Machine(3, it', out), fuel);
    Vm.ExecContinue([], LoopCode, cb, Vm.Machine(3, it', out), Vm.Machine(4, it', out'), fuel - 1);
    Vm.ExecContinue([], LoopCode, cb, Vm.Machine(4, it', out'), Vm.Machine(2, it', out'), fuel - 2);
  }

  /** The loop test with the cursor on the last element ends the loop and the program. */
  lemma LoopExit(x: string, xs: string, input: Input, inc: nat -> string, i: nat, out: string, fuel: nat)
    requires x != xs && xs in input && IsContainer(input[xs])
    requires i + 1 == |Elements(input[xs])| && fuel >= 1
    ensures var e := Elements(input[xs]);
      Vm.Exec([], LoopCode, InputCallbacks(input, [x, xs], inc), Vm.Machine(2, Active(e, i), out), fuel)
        == Success(out)
  {
    var e := Elements(input[xs]);
    var cb := InputCallbacks(input, [x, xs], inc);
    LoopTestStep(x, xs, input, inc, i, out);
    Vm.ExecContinue([], LoopCode, cb, Vm.Machine(2, Active(e, i), out), Vm.Machine(5, map[], out), fuel);
    LoopCodeFacts();
    assert Vm.Step([], LoopCode, cb, Vm.Machine(5, map[], out)) == Vm.Halted;
  }

  /** Printing the elements from k on is printing element k, then those after it. */
  lemma ShowAllFrom(e: seq<Value>, k: nat, out: string)
    requires k < |e|
    ensures out + Show(e[k]) + ShowAll(e[k + 1..]) == out + ShowAll(e[k..])
  {
    assert e[k..][1..] == e[k + 1..];
  }

  /** One more round in front of a run that prints the elements after i + 1. */
  lemma LoopFromMore(x: string, xs: string, input: Input, inc: nat -> string, cb: Vm.Callbacks<Iterators>, e: seq<Value>, i: nat, out: string, out': string, fuel: nat)
    requires x != xs && xs in input && IsContainer(input[xs]) && e == Elements(input[xs])
    requires cb == InputCallbacks(input, [x, xs], inc)
    requires i + 1 < |e| && fuel >= 3
    requires out' == out + Show(e[i + 1])
    requires Vm.Exec([], LoopCode, cb, Vm.Machine(2, Active(e, i + 1), out'), fuel - 3) == Success(out' + ShowAll(e[i + 1 + 1..]))
    ensures Vm.Exec([], LoopCode, cb, Vm.Machine(2, Active(e, i), out), fuel) == Success(out + ShowAll(e[i + 1..]))
  {
    LoopRound(x, xs, input, inc, cb, e, i, out, fuel);
    ShowAllFrom(e, i + 1, out);
  }

  /** The loop test at index 2 with the cursor on element i: the rest of the elements are printed. */
  lemma {:induction false} LoopFrom(x: string, xs: string, input: Input, inc: nat -> string, cb: Vm.Callbacks<Iterators>, e: seq<Value>, i: nat, out: string, fuel: nat)
    requires x != xs && xs in input && IsContainer(input[xs]) && e == Elements(input[xs])
    requires cb == InputCallbacks(input, [x, xs], inc)
    requires i < |e| && fuel >= 3 * (|e| - 1 - i) + 1
    ensures Vm.Exec([], LoopCode, cb, Vm.Machine(2, Active(e, i), out), fuel) == Success(out + ShowAll(e[i + 1..]))
    decreases |e| - i
  {
    if i + 1 < |e| {
      var out' := out + Show(e[i + 1]);
      LoopFrom(x, xs, input, inc, cb, e, i + 1, out', fuel - 3);
      assert cb == InputCallbacks(input, [x, xs], inc);
      assert e == Elements(input[xs]);
      assert Vm.Exec([], LoopCode, cb, Vm.Machine(2, Active(e, i + 1), out'), fuel - 3) == Success(out' + ShowAll(e[i + 1 + 1..]));
      LoopFromMore(x, xs, input, inc, cb, e, i, out, out', fuel);
    } else {
      LoopExit(x, xs, input, inc, i, out, fuel);
      assert e[i + 1..] == [];
      assert out + ShowAll(e[i + 1..]) == out;
    }
  }

  /** Lookup of the list variable, the second name of the loop. */
  lemma LookupList(x: string, xs: string, input: Input)
    requires x != xs
    ensures Lookup(input, [x, xs], 1) == if xs in input then Some(input[xs]) else None
  {
  }

  /** The loop test with no cursor yet: start at the first element, or skip the loop. */
  lemma LoopEnterStep(x: string, xs: string, input: Input, inc: nat -> string, out: string)
    requires x != xs
    ensures var e := LoopElements(input, xs); var it: Iterators := map[];
      Vm.Step([], LoopCode, InputCallbacks(input, [x, xs], inc), Vm.Machine(2, it, out))
        == if e == [] then Vm.Continue(Vm.Machine(5, it, out)) else Vm.Continue(Vm.Machine(3, Active(e, 0), out))
  {
    LoopCodeFacts();
    LookupList(x, xs, input);
    var it: Iterators := map[];
    assert it[0 := Cursor(LoopElements(input, xs), 0)] == Active(LoopElements(input, xs), 0);
  }

  /** The two operand words in front of the loop test. */
  lemma LoopOperandSteps(x: string, xs: string, input: Input, inc: nat -> string, fuel: nat)
    requires fuel >= 2
    ensures var cb := InputCallbacks(input, [x, xs], inc); var it: Iterators := map[];
      Vm.Run([], LoopCode, cb, it, fuel) == Vm.Exec([], LoopCode, cb, Vm.Machine(2, it, ""), fuel - 2)
  {
    LoopCodeFacts();
    var cb := InputCallbacks(input, [x, xs], inc);
    var it: Iterators := map[];
    Vm.ExecContinue([], LoopCode, cb, Vm.Machine(0, it, ""), Vm.Machine(1, it, ""), fuel);
    Vm.ExecContinue([], LoopCode, cb, Vm.Machine(1, it, ""), Vm.Machine(2, it, ""), fuel - 1);
  }

  /** A loop over nothing renders nothing. */
  lemma LoopSkips(x: string, xs: string, input: Input, inc: nat -> string, fuel: nat)
    requires x != xs && LoopElements(input, xs) == [] && fuel >= 3
    ensures Vm.Run([], LoopCode, InputCallbacks(input, [x, xs], inc), map[], fuel) == Success("")
  {
    var cb := InputCallbacks(input, [x, xs], inc);
    var it: Iterators := map[];
    LoopOperandSteps(x, xs, input, inc, fuel);
    LoopEnterStep(x, xs, input, inc, "");
    Vm.ExecContinue([], LoopCode, cb, Vm.Machine(2, it, ""), Vm.Machine(5, it, ""), fuel - 2);
    LoopCodeFacts();
    assert Vm.Step([], LoopCode, cb, Vm.Machine(5, it, "")) == Vm.Halted;
  }

  /** The first round of a loop over a non-empty container: start, print the first element,
      jump back to the test. */
  lemma LoopFirstRound(x: string, xs: string, input: Input, inc: nat -> string, fuel: nat)
    requires x != xs && LoopElements(input, xs) != [] && fuel >= 3
    ensures var cb := InputCallbacks(input, [x, xs], inc); var e := LoopElements(input, xs); var it: Iterators := map[];
      Vm.Exec([], LoopCode, cb, Vm.Machine(2, it, ""), fuel)
        == Vm.Exec([], LoopCode, cb, Vm.Machine(2, Active(e, 0), Show(e[0])), fuel - 3)
  {
    var cb := InputCallbacks(input, [x, xs], inc);
    var e := LoopElements(input, xs);
    var it: Iterators := map[];
    var out := Show(e[0]);
    LoopEnterStep(x, xs, input, inc, "");
    Vm.ExecContinue([], LoopCode, cb, Vm.Machine(2, it, ""), Vm.Machine(3, Active(e, 0), ""), fuel);
    LoopBodySteps(x, xs, input, inc, e, 0, "");
    Vm.ExecContinue([], LoopCode, cb, Vm.Machine(3, Active(e, 0), ""), Vm.Machine(4, Active(e, 0), out), fuel - 1);
    Vm.ExecContinue([], LoopCode, cb, Vm.Machine(4, Active(e, 0), out), Vm.Machine(2, Active(e, 0), out), fuel - 2);
  }

  /** Entering a loop over a non-empty container leaves the machine at the test, on the first
      element, with the first element printed. */
  lemma LoopEnter(x: string, xs: string, input: Input, inc: nat -> string, fuel: nat)
    requires x != xs && LoopElements(input, xs) != [] && fuel >= 5
    ensures var cb := InputCallbacks(input, [x, xs], inc); var e := LoopElements(input, xs);
      Vm.Run([], LoopCode, cb, map[], fuel) == Vm.Exec([], LoopCode, cb, Vm.Machine(2, Active(e, 0), Show(e[0])), fuel - 5)
  {
    LoopOperandSteps(x, xs, input, inc, fuel);
    LoopFirstRound(x, xs, input, inc, fuel - 2);
  }

  /** A loop over a non-empty container prints each of its elements in order. */
  lemma LoopVisits(x: string, xs: string, input: Input, inc: nat -> string, fuel: nat)
    requires x != xs && LoopElements(input, xs) != [] && fuel >= 3 * |LoopElements(input, xs)| + 3
    ensures Vm.Run([], LoopCode, InputCallbacks(input, [x, xs], inc), map[], fuel) == Success(ShowAll(LoopElements(input, xs)))
  {
    var e := LoopElements(input, xs);
    LoopEnter(x, xs, input, inc, fuel);
    assert xs in input && IsContainer(input[xs]) && e == Elements(input[xs]);
    LoopFrom(x, xs, input, inc, InputCallbacks(input, [x, xs], inc), e, 0, Show(e[0]), fuel - 5);
    assert ShowAll(e) == Show(e[0]) + ShowAll(e[0 + 1..]);
  }

  /** Rendering a loop prints the elements of the list, whatever it is bound to. */
  lemma LoopRenders(x: string, xs: string, input: Input, inc: nat -> string, fuel: nat)
    requires x != xs && fuel >= 3 * |LoopElements(input, xs)| + 3
    ensures Vm.Run([], LoopCode, InputCallbacks(input, [x, xs], inc), map[], fuel) == Success(ShowAll(LoopElements(input, xs)))
  {
    if LoopElements(input, xs) == [] {
      LoopSkips(x, xs, input, inc, fuel);
    } else {
      LoopVisits(x, xs, input, inc, fuel);
    }
  }

  // The template as a whole.

  /** `$(for x in xs)$(x)$(end)` compiles, and rendering it over any input prints the elements of
      whatever container xs is bound to, in order, and nothing when xs is missing or not a
      container. */
  lemma ForEachRenders(x: string, xs: string, input: Input, inc: nat -> string, fuel: nat)
    requires IsIdentifier(x) && IsIdentifier(xs) && x != "end" && x != xs
    requires fuel >= 3 * |LoopElements(input, xs)| + 3
    ensures CompileSpec(ForEachText(x, xs)).Success?
    ensures var p := CompileSpec(ForEachText(x, xs)).value;
      Vm.Run(p.fragments, p.code, InputCallbacks(input, p.varNames, inc), map[], fuel)
        == Success(ShowAll(LoopElements(input, xs)))
  {
    ForEachShape(x, xs);
    LoopCompiles(ForEachText(x, xs), x, xs);
    LoopRenders(x, xs, input, inc, fuel);
  }

  /** A loop over a string visits its characters: it prints the string back. */
  lemma {:induction false} ShowAllChars(s: string)
    ensures ShowAll(Elements(Str(s))) == s
    decreases |s|
  {
    if s != [] {
      ShowAllChars(s[1..]);
      assert Elements(Str(s))[1..] == Elements(Str(s[1..]));
    }
  }

  /** `$(for n in collection)$(n)$(end)` compiles to the loop code over the names `n` and `collection`. */
  lemma CollectionLoopCompiles()
    ensures CompileSpec(ForEachText("n", "collection")) == Success(Program([], ["n", "collection"], [], LoopCode))
  {
    assert IsIdentifier("n") && IsIdentifier("collection");
    ForEachShape("n", "collection");
    LoopCompiles(ForEachText("n", "collection"), "n", "collection");
  }

  /** The loop code over the numbers 1 to 5 renders `12345`, whatever the include renderer. */
  lemma CollectionInOrder(inc: nat -> string)
    ensures Vm.Run([], LoopCode, InputCallbacks(map["collection" := Seq([Int(1), Int(2), Int(3), Int(4), Int(5)])], ["n", "collection"], inc), map[], 18)
         == Success("12345")
  {
    var input := map["collection" := Seq([Int(1), Int(2), Int(3), Int(4), Int(5)])];
    LoopRenders("n", "collection", input, inc, 18);
    var e := LoopElements(input, "collection");
    assert e == [Int(1), Int(2), Int(3), Int(4), Int(5)];
    assert ShowAll(e) == "12345" by {
      assert ShowAll(e[4..]) == "5";
      assert ShowAll(e[3..]) == "45";
      assert ShowAll(e[2..]) == "345";
      assert ShowAll(e[1..]) == "2345";
    }
  }
}

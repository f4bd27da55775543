/**
 * Rendering static text, substitutions and escapes: what the compiled
 * programs of `w`, `w$(x)` and `w`, backslashes, `$(x)` print over an input.
 */
module SubstitutionRendering {
  import opened Results
  import opened Bytecode
  import opened Scan
  import opened Compiler
  import opened Binding
  import opened Substitutions
  import Vm

  /** What `$(x)` prints over an input outside any loop: the bound value, or nothing when x is
      unbound. */
  function Bound(input: Input, x: string): (text: string) {
    if x in input then Show(input[x]) else ""
  }

  /** What reaches the output of the literal text in front of a directive: dropped when it is a
      single character. */
  function Kept(w: string): (text: string) {
    if |w| > 1 then w else ""
  }

  // The machine over the compiled shapes.

  /** Copy fragment 0, then Halt: the fragment is printed. */
  lemma CopyRenders<S>(f: string, cb: Vm.Callbacks<S>, init: S, fuel: nat)
    requires fuel >= 1
    ensures Vm.Run([f], [Encode(Copy, 0), HaltWord], cb, init, fuel) == Success(f)
  {
    DecodeEncode(Copy, 0);
    assert "" + f == f;
    Vm.ExecContinue([f], [Encode(Copy, 0), HaltWord], cb, Vm.Machine(0, init, ""), Vm.Machine(1, init, f), fuel);
  }

  /** Copy two fragments, then Halt: both are printed, in order. */
  lemma CopyCopyRenders<S>(f: string, g: string, cb: Vm.Callbacks<S>, init: S, fuel: nat)
    requires fuel >= 2
    ensures Vm.Run([f, g], [Encode(Copy, 0), Encode(Copy, 1), HaltWord], cb, init, fuel) == Success(f + g)
  {
    var code := [Encode(Copy, 0), Encode(Copy, 1), HaltWord];
    DecodeEncode(Copy, 0);
    DecodeEncode(Copy, 1);
    assert "" + f == f;
    Vm.ExecContinue([f, g], code, cb, Vm.Machine(0, init, ""), Vm.Machine(1, init, f), fuel);
    Vm.ExecContinue([f, g], code, cb, Vm.Machine(1, init, f), Vm.Machine(2, init, f + g), fuel - 1);
  }

  /** Substitute variable 0, then Halt, with no active loop: the bound value is printed. */
  lemma SubstRenders(fragments: seq<string>, x: string, input: Input, inc: nat -> string, fuel: nat)
    requires fuel >= 1
    ensures Vm.Run(fragments, [Encode(Substitute, 0), HaltWord], InputCallbacks(input, [x], inc), map[], fuel)
         == Success(Bound(input, x))
  {
    var cb := InputCallbacks(input, [x], inc);
    var it: Iterators := map[];
    DecodeEncode(Substitute, 0);
    assert "" + Bound(input, x) == Bound(input, x);
    Vm.ExecContinue(fragments, [Encode(Substitute, 0), HaltWord], cb, Vm.Machine(0, it, ""), Vm.Machine(1, it, Bound(input, x)), fuel);
  }

  /** Copy fragment 0, substitute variable 0, then Halt: the fragment, then the bound value. */
  lemma CopySubstRenders(f: string, x: string, input: Input, inc: nat -> string, fuel: nat)
    requires fuel >= 2
    ensures Vm.Run([f], [Encode(Copy, 0), Encode(Substitute, 0), HaltWord], InputCallbacks(input, [x], inc), map[], fuel)
         == Success(f + Bound(input, x))
  {
    var code := [Encode(Copy, 0), Encode(Substitute, 0), HaltWord];
    var cb := InputCallbacks(input, [x], inc);
    var it: Iterators := map[];
    DecodeEncode(Copy, 0);
    DecodeEncode(Substitute, 0);
    assert "" + f == f;
    Vm.ExecContinue([f], code, cb, Vm.Machine(0, it, ""), Vm.Machine(1, it, f), fuel);
    Vm.ExecContinue([f], code, cb, Vm.Machine(1, it, f), Vm.Machine(2, it, f + Bound(input, x)), fuel - 1);
  }

  // The templates as a whole.

  /** A non-empty template without an opener prints itself, whatever the callbacks. */
  lemma StaticRenders<S>(buf: string, cb: Vm.Callbacks<S>, init: S, fuel: nat)
    requires buf != [] && NoOpenerFrom(buf, 0) && fuel >= 1
    ensures CompileSpec(buf).Success?
    ensures var p := CompileSpec(buf).value; Vm.Run(p.fragments, p.code, cb, init, fuel) == Success(buf)
  {
    StaticCompiles(buf);
    CopyRenders(buf, cb, init, fuel);
  }

  /** The program of `w$(x)` prints the kept literal, then the value of x. */
  lemma SubstProgramRenders(w: string, x: string, input: Input, inc: nat -> string, fuel: nat)
    requires fuel >= 2
    ensures var p := SubstProgram(w, x);
      Vm.Run(p.fragments, p.code + [HaltWord], InputCallbacks(input, [x], inc), map[], fuel) == Success(Kept(w) + Bound(input, x))
  {
    if |w| > 1 {
      assert SubstProgram(w, x).code + [HaltWord] == [Encode(Copy, 0), Encode(Substitute, 0), HaltWord];
      CopySubstRenders(w, x, input, inc, fuel);
    } else {
      assert SubstProgram(w, x).code + [HaltWord] == [Encode(Substitute, 0), HaltWord];
      SubstRenders([], x, input, inc, fuel);
      assert "" + Bound(input, x) == Bound(input, x);
    }
  }

  /** `w$(x)` prints the literal w (nothing when it is one character) and then the value x is
      bound to, or nothing when x is unbound. */
  lemma SubstitutionRenders(w: string, x: string, input: Input, inc: nat -> string, fuel: nat)
    requires NoOpenerFrom(w, 0) && (w == [] || w[|w| - 1] != '\\')
    requires IsIdentifier(x) && x != "end" && fuel >= 2
    ensures CompileSpec(SubstText(w, x)).Success?
    ensures var p := CompileSpec(SubstText(w, x)).value;
      Vm.Run(p.fragments, p.code, InputCallbacks(input, p.varNames, inc), map[], fuel) == Success(Kept(w) + Bound(input, x))
  {
    SubstitutionCompiles(w, x);
    SubstProgramRenders(w, x, input, inc, fuel);
  }

  /** Copying `w$` and `(x)` prints `w$(x)`. */
  lemma EscapedProgramRenders<S>(w: string, x: string, cb: Vm.Callbacks<S>, init: S, fuel: nat)
    requires fuel >= 2
    ensures Vm.Run([w + "$", "(" + x + ")"], [Encode(Copy, 0), Encode(Copy, 1), HaltWord], cb, init, fuel) == Success(w + "$(" + x + ")")
  {
    CopyCopyRenders(w + "$", "(" + x + ")", cb, init, fuel);
    assert w + "$" + ("(" + x + ")") == w + "$(" + x + ")";
  }

  /** `w\$(x)` prints `w$(x)`: one backslash turns the directive into text and is itself dropped. */
  lemma EscapeRenders<S>(w: string, x: string, cb: Vm.Callbacks<S>, init: S, fuel: nat)
    requires NoOpenerFrom(w, 0) && (w == [] || w[|w| - 1] != '\\') && IsIdentifier(x) && fuel >= 2
    ensures CompileSpec(EscapeText(w, 1, x)).Success?
    ensures var p := CompileSpec(EscapeText(w, 1, x)).value;
      Vm.Run(p.fragments, p.code, cb, init, fuel) == Success(w + "$(" + x + ")")
  {
    EscapeCompiles(w, x);
    EscapedProgramRenders(w, x, cb, init, fuel);
  }

  /** w, n >= 2 backslashes and `$(x)` print w, n - 1 backslashes and the value of x: the last
      backslash is dropped and the directive stays a directive. */
  lemma EscapedEscapeRenders(w: string, n: nat, x: string, input: Input, inc: nat -> string, fuel: nat)
    requires n >= 2 && NoOpenerFrom(w, 0) && IsIdentifier(x) && x != "end" && fuel >= 2
    ensures CompileSpec(EscapeText(w, n, x)).Success?
    ensures var p := CompileSpec(EscapeText(w, n, x)).value;
      Vm.Run(p.fragments, p.code, InputCallbacks(input, p.varNames, inc), map[], fuel)
        == Success(w + Backslashes(n - 1) + Bound(input, x))
  {
    EscapedEscapeCompiles(w, n, x);
    CopySubstRenders(w + Backslashes(n - 1), x, input, inc, fuel);
  }
}

/**
 * One pass of the compiler's main loop in the common situations: a directive
 * at the scan position, a directive after literal text, and the literal
 * text that ends a template. These let the scenarios below follow a
 * compilation pass by pass.
 */
module Passes {
  import opened Results
  import opened Bytecode
  import opened Scan
  import opened Compiler

  /** A directive right at the scan position, so no literal text comes before it. */
  lemma DirectiveHere(buf: string, k: nat, p: Program, stack: seq<nat>, d: Directive, n: nat)
    requires OpenerAt(buf, k) && Resumable(buf, k) && Placeholders(p.code, stack)
    requires ParseDirective(buf, k + 2) == Some((d, n))
    ensures GroupsIn(d, 0, |buf|)
    ensures Step(buf, k, p, stack)
         == (var a := Apply(buf, p, stack, d); if a.Success? then Success((n, a.value.0, a.value.1)) else Failure(a.error))
  {
    assert FindOpener(buf, k) == Some(k);
  }

  /** A substitution right at the scan position. */
  lemma VarHere(buf: string, k: nat, p: Program, stack: seq<nat>, n: nat)
    requires OpenerAt(buf, k) && Resumable(buf, k) && Placeholders(p.code, stack)
    requires k + 4 <= n <= |buf| && IsIdentifier(buf[k + 2..n - 1]) && buf[n - 1] == ')' && buf[k + 2..n - 1] != "end"
    ensures Step(buf, k, p, stack)
         == (var q := Substitution(p, buf[k + 2..n - 1]); if q.Success? then Success((n, q.value, stack)) else Failure(q.error))
  {
    ParseVarComplete(buf, k + 2, n);
    DirectiveHere(buf, k, p, stack, Var(Group(k + 2, n - 1)), n);
  }

  /** `$(end)` right at the scan position. */
  lemma EndHere(buf: string, k: nat, p: Program, stack: seq<nat>)
    requires OpenerAt(buf, k) && Resumable(buf, k) && Placeholders(p.code, stack) && MatchEnd(buf, k + 2)
    ensures Step(buf, k, p, stack)
         == (var c := CloseBlock(p, stack); if c.Success? then Success((k + 6, c.value.0, c.value.1)) else Failure(c.error))
  {
    DirectiveHere(buf, k, p, stack, End, k + 6);
  }

  /** The literal text that ends a template: one fragment and its Copy. */
  lemma TailHere(buf: string, k: nat, p: Program, stack: seq<nat>)
    requires k < |buf| && Resumable(buf, k) && Placeholders(p.code, stack) && NoOpenerFrom(buf, k)
    requires |p.fragments| < OperandLimit
    ensures Step(buf, k, p, stack) == Success((|buf|, AddFragment(p, buf[k..]).value, stack))
  {
  }

  /** One pass of the main loop that succeeds is followed by the rest of the loop. */
  lemma CompileFromStep(buf: string, k: nat, p: Program, stack: seq<nat>, k': nat, p': Program, stack': seq<nat>)
    requires k < |buf| && Resumable(buf, k) && Placeholders(p.code, stack)
    requires Step(buf, k, p, stack) == Success((k', p', stack'))
    ensures k' <= |buf| && Resumable(buf, k') && Placeholders(p'.code, stack')
    ensures CompileFrom(buf, k, p, stack) == CompileFrom(buf, k', p', stack')
  {
  }

  /** The main loop at the end of the text returns the tables and the stack unchanged. */
  lemma CompileFromEnd(buf: string, p: Program, stack: seq<nat>)
    requires Placeholders(p.code, stack)
    ensures CompileFrom(buf, |buf|, p, stack) == Success((p, stack))
  {
  }

  /** The opener search stops at the first opener. */
  lemma {:induction false} FindOpenerFirst(buf: string, k: nat, e: nat)
    requires k <= e && OpenerAt(buf, e)
    requires forall i :: k <= i < e ==> !OpenerAt(buf, i)
    ensures FindOpener(buf, k) == Some(e)
    decreases e - k
  {
    if k < e {
      assert !OpenerAt(buf, k);
      FindOpenerFirst(buf, k + 1, e);
    }
  }

  /** A pass whose first opener is at e: an escape, or the literal before a directive and the directive. */
  lemma StepAtOpener(buf: string, k: nat, e: nat, p: Program, stack: seq<nat>)
    requires k <= e && OpenerAt(buf, e) && (forall i :: k <= i < e ==> !OpenerAt(buf, i))
    requires Resumable(buf, k) && Placeholders(p.code, stack)
    ensures Step(buf, k, p, stack)
         == if Escaped(buf, e) && !Escaped(buf, e - 1) then EscapeStep(buf, k, e, p, stack) else DirectiveStep(buf, k, e, p, stack)
  {
    FindOpenerFirst(buf, k, e);
    StepFound(buf, k, p, stack, e);
  }

  /** A prefix without an opener, followed by a character other than `(`, holds no opener. */
  lemma NoOpenerInPrefix(buf: string, w: string)
    requires |w| < |buf| && buf[..|w|] == w && NoOpenerFrom(w, 0) && buf[|w|] != '('
    ensures forall i :: 0 <= i < |w| ==> !OpenerAt(buf, i)
  {
    forall i | 0 <= i < |w|
      ensures !OpenerAt(buf, i)
    {
      if i + 1 < |w| {
        assert buf[i] == w[i] && buf[i + 1] == w[i + 1];
        assert !OpenerAt(w, i);
      }
    }
  }
}

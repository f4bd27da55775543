/**
 * The binding protocol a template is rendered with: a read-only map from
 * variable names to values, and the map of active loop cursors that the
 * three callbacks printVar, varExists and advanceContainer share. The
 * cursor map is the only state that changes while a template renders; it is
 * threaded through the machine as its callback state.
 */
module Binding {
  import opened Results
  import opened Vm

  /** A value a name can be bound to. Int, Bool, Char and Str can be written to a stream;
      Str and Seq are containers that a loop iterates (a string yields its characters);
      Other is any value that is neither. */
  datatype Value =
    | Int(i: int)
    | Bool(b: bool)
    | Char(c: char)
    | Str(s: string)
    | Seq(elems: seq<Value>)
    | Other

  /** The input of a render: variable names to values. */
  type Input = map<string, Value>

  /** Values that can be written to an output stream. */
  predicate IsPrintable(v: Value) {
    v.Int? || v.Bool? || v.Char? || v.Str?
  }

  /** Values with a begin and an end that a loop can walk. */
  predicate IsContainer(v: Value) {
    v.Str? || v.Seq?
  }

  /** The elements a loop over a container visits, in order. */
  function Elements(v: Value): (r: seq<Value>)
    requires IsContainer(v)
    ensures v.Seq? ==> r == v.elems
    ensures v.Str? ==> |r| == |v.s| && forall k :: 0 <= k < |v.s| ==> r[k] == Char(v.s[k])
  {
    if v.Str? then seq(|v.s|, k requires 0 <= k < |v.s| => Char(v.s[k])) else v.elems
  }

  // Writing values to the output stream.

  /** A decimal digit. */
  predicate IsDigit(c: char) {
    '0' <= c <= '9'
  }

  /** The digit character of d. */
  function DigitChar(d: nat): (c: char)
    requires d < 10
    ensures IsDigit(c) && c as int - '0' as int == d
  {
    (d + '0' as int) as char
  }

  /** The decimal text of n, most significant digit first. */
  function NatText(n: nat): (s: string)
    ensures |s| > 0
    ensures forall k :: 0 <= k < |s| ==> IsDigit(s[k])
    decreases n
  {
    if n < 10 then [DigitChar(n)] else NatText(n / 10) + [DigitChar(n % 10)]
  }

  /** The number a string of decimal digits denotes: the reference reading of NatText. A
      leading digit other than 0 makes it positive. */
  function DigitsValue(s: string): (r: nat)
    requires AllDigits(s)
    ensures s != [] && s[0] != '0' ==> r > 0
    decreases |s|
  {
    assert s != [] ==> IsDigit(s[|s| - 1]);
    if s == [] then 0 else 10 * DigitsValue(s[..|s| - 1]) + (s[|s| - 1] as int - '0' as int)
  }

  /** A numeral in canonical form: one or more digits, with no leading zero unless it is `0`. */
  predicate Canonical(s: string) {
    |s| > 0 && AllDigits(s) && (s[0] == '0' ==> s == "0")
  }

  /** s is the decimal text of i: its canonical numeral, after a minus sign when i is negative. */
  predicate IsDecimalOf(s: string, i: int) {
    if i >= 0 then Canonical(s) && DigitsValue(s) == i
    else |s| > 1 && s[0] == '-' && Canonical(s[1..]) && DigitsValue(s[1..]) == -i
  }

  /** Every character of s is a decimal digit. */
  predicate AllDigits(s: string) {
    forall k :: 0 <= k < |s| ==> IsDigit(s[k])
  }

  /** Reading the decimal text of n gives n back. */
  lemma {:induction false} NatTextValue(n: nat)
    ensures DigitsValue(NatText(n)) == n
    decreases n
  {
    if n >= 10 {
      NatTextValue(n / 10);
      var s := NatText(n);
      assert s[..|s| - 1] == NatText(n / 10);
    }
  }

  /** The decimal text of n has no leading zero unless n is zero. */
  lemma {:induction false} NatTextNoLeadingZero(n: nat)
    ensures NatText(n)[0] == '0' <==> n == 0
    decreases n
  {
    if n >= 10 {
      NatTextNoLeadingZero(n / 10);
    }
  }

  /** A canonical numeral is the decimal text of the number it denotes. */
  lemma {:induction false} CanonicalIsNatText(s: string)
    requires Canonical(s)
    ensures NatText(DigitsValue(s)) == s
    decreases |s|
  {
    var n := DigitsValue(s);
    var last := s[|s| - 1];
    if |s| == 1 {
      assert s == [last];
    } else {
      var s' := s[..|s| - 1];
      assert s'[0] == s[0] && s' != "0";
      CanonicalIsNatText(s');
      var v := DigitsValue(s');
      assert n == 10 * v + (last as int - '0' as int) && v > 0;
      assert n / 10 == v && n % 10 == last as int - '0' as int;
      assert s == s' + [last];
    }
  }

  /** What the output stream shows for a value: integers in decimal with a leading minus sign
      when negative, booleans as `true` or `false` (the stream is put in boolalpha mode before
      rendering), characters and strings as themselves, and nothing for other values. */
  function Show(v: Value): (s: string)
    ensures v.Bool? ==> s == (if v.b then "true" else "false")
    ensures v.Str? ==> s == v.s
    ensures v.Char? ==> s == [v.c]
    ensures !IsPrintable(v) ==> s == ""
    ensures v.Int? ==> IsDecimalOf(s, v.i)
  {
    match v
    case Int(i) =>
      NatTextValue(if i < 0 then -i else i);
      NatTextNoLeadingZero(if i < 0 then -i else i);
      if i < 0 then
        assert ("-" + NatText(-i))[1..] == NatText(-i);
        "-" + NatText(-i)
      else NatText(i)
    case Bool(b) => if b then "true" else "false"
    case Char(c) => [c]
    case Str(s) => s
    case _ => ""
  }

  /** An integer has exactly one decimal text, the one the stream shows. */
  lemma ShowIntUnique(i: int, s: string)
    ensures IsDecimalOf(s, i) <==> s == Show(Int(i))
  {
    if IsDecimalOf(s, i) {
      if i >= 0 {
        CanonicalIsNatText(s);
      } else {
        CanonicalIsNatText(s[1..]);
        assert s == "-" + s[1..];
      }
    }
  }

  // The loop cursors.

  /** An active loop: the elements of the container being walked and the current position. */
  datatype Cursor = Cursor(elems: seq<Value>, pos: nat)

  /** The active loops, keyed by the variable index of their induction variable. */
  type Iterators = map<nat, Cursor>

  /** Every active cursor points at an element of its container. */
  predicate CursorsValid(iters: Iterators) {
    forall k :: k in iters ==> iters[k].pos < |iters[k].elems|
  }

  /** The value the variable with index k is bound to in the input, if any. An index without a
      name is treated as unbound. */
  function Lookup(input: Input, varNames: seq<string>, k: nat): (r: Option<Value>)
    ensures r.Some? <==> k < |varNames| && varNames[k] in input
    ensures r.Some? ==> r.value == input[varNames[k]]
  {
    if k < |varNames| && varNames[k] in input then Some(input[varNames[k]]) else None
  }

  /** printVar: the text for variable index k. An active cursor for k shadows the input and
      prints its current element; otherwise a printable bound value is printed; an unbound name
      or a value that cannot be printed prints nothing. */
  function PrintVar(input: Input, varNames: seq<string>, iters: Iterators, k: nat): (out: string)
    ensures k in iters && iters[k].pos < |iters[k].elems| ==> out == Show(iters[k].elems[iters[k].pos])
    ensures k !in iters && Lookup(input, varNames, k).Some? ==> out == Show(Lookup(input, varNames, k).value)
    ensures k !in iters && Lookup(input, varNames, k).None? ==> out == ""
  {
    if k in iters then
      var c := iters[k];
      if c.pos < |c.elems| then Show(c.elems[c.pos]) else ""
    else
      match Lookup(input, varNames, k)
      case Some(v) => Show(v)
      case None => ""
  }

  /** varExists: the variable with index k is bound in the input or is the induction variable of
      an active loop. Only presence counts, not the value. */
  function VarExists(input: Input, varNames: seq<string>, iters: Iterators, k: nat): (b: bool)
    ensures b <==> (k < |varNames| && varNames[k] in input) || k in iters
  {
    Lookup(input, varNames, k).Some? || k in iters
  }

  /** advanceContainer: move the loop with induction variable index single over the list with
      variable index list. It answers whether there is a current element, and gives the new
      cursors. A missing, non-container or empty list answers false and changes nothing; the
      first call starts a cursor at the first element; a later call moves it one element on,
      and at the end of the container erases it and answers false. */
  function Advance(input: Input, varNames: seq<string>, iters: Iterators, single: nat, list: nat): (r: (bool, Iterators))
    ensures forall k :: k != single ==> (k in r.1 <==> k in iters)
    ensures forall k :: k != single && k in iters ==> r.1[k] == iters[k]
    ensures r.0 ==> single in r.1
    ensures !r.0 ==> r.1 == iters || r.1 == iters - {single}
    ensures CursorsValid(iters) ==> CursorsValid(r.1)
  {
    match Lookup(input, varNames, list)
    case None => (false, iters)
    case Some(v) =>
      if !IsContainer(v) || |Elements(v)| == 0 then (false, iters)
      else if single !in iters then (true, iters[single := Cursor(Elements(v), 0)])
      else
        var c := iters[single];
        if c.pos + 1 >= |c.elems| then (false, iters - {single})
        else (true, iters[single := c.(pos := c.pos + 1)])
  }

  /** The three callbacks over an input, with the include renderer supplied by the caller; their
      state is the cursor map. */
  function InputCallbacks(input: Input, varNames: seq<string>, renderInclude: nat -> string): (cb: Callbacks<Iterators>)
  {
    Callbacks(
      (iters: Iterators, k: nat) => PrintVar(input, varNames, iters, k),
      (iters: Iterators, k: nat) => VarExists(input, varNames, iters, k),
      (iters: Iterators, single: nat, list: nat) => Advance(input, varNames, iters, single, list),
      renderInclude)
  }

  // Properties of the protocol.

  /** Presence alone decides varExists: rebinding a name to any other value (false, 0, an empty
      string) does not change the answer. */
  lemma VarExistsIgnoresValue(input: Input, varNames: seq<string>, iters: Iterators, k: nat, name: string, v: Value)
    requires name in input
    ensures VarExists(input[name := v], varNames, iters, k) == VarExists(input, varNames, iters, k)
  {
  }

  /** A loop over a non-empty container starts at its first element. */
  lemma AdvanceStarts(input: Input, varNames: seq<string>, iters: Iterators, single: nat, list: nat)
    requires single !in iters
    requires Lookup(input, varNames, list).Some?
    requires var v := Lookup(input, varNames, list).value; IsContainer(v) && |Elements(v)| > 0
    ensures Advance(input, varNames, iters, single, list)
         == (true, iters[single := Cursor(Elements(Lookup(input, varNames, list).value), 0)])
  {
  }

  /** An active loop moves one element on while elements remain, and is erased after the last. */
  lemma AdvanceMoves(input: Input, varNames: seq<string>, iters: Iterators, single: nat, list: nat)
    requires single in iters
    requires Lookup(input, varNames, list).Some?
    requires var v := Lookup(input, varNames, list).value; IsContainer(v) && |Elements(v)| > 0
    ensures var c := iters[single];
      Advance(input, varNames, iters, single, list)
        == if c.pos + 1 < |c.elems| then (true, iters[single := c.(pos := c.pos + 1)])
           else (false, iters - {single})
  {
  }

  /** Over a missing, non-container or empty list the loop does not run and nothing changes. */
  lemma AdvanceIdle(input: Input, varNames: seq<string>, iters: Iterators, single: nat, list: nat)
    requires var l := Lookup(input, varNames, list); l.None? || !IsContainer(l.value) || |Elements(l.value)| == 0
    ensures Advance(input, varNames, iters, single, list) == (false, iters)
  {
  }
}

/**
 * The lexical part of the template compiler: the search for the directive
 * opener `$(` and the five directive shapes, written as prefix matchers over
 * the text that follows an opener (they replace the anchored regular
 * expressions of the compiler).
 */
module Scan {
  import opened Results

  /** The two-character directive opener `$(` starts at index i of s. */
  predicate OpenerAt(s: string, i: int) {
    0 <= i && i + 1 < |s| && s[i] == '$' && s[i + 1] == '('
  }

  /** s contains no directive opener at or after index from. */
  predicate NoOpenerFrom(s: string, from: nat) {
    forall i :: from <= i < |s| ==> !OpenerAt(s, i)
  }

  /** A text without a `$` holds no opener. */
  lemma NoDollarNoOpener(s: string)
    requires '$' !in s
    ensures NoOpenerFrom(s, 0)
  {
    forall i | 0 <= i < |s|
      ensures s[i] != '$'
    {
      assert s[i] in s;
    }
  }

  /** The first opener at or after `from` (string::find), or None (npos). */
  function FindOpener(s: string, from: nat): (r: Option<nat>)
    ensures r.Some? ==> from <= r.value && OpenerAt(s, r.value)
    ensures r.Some? ==> forall i :: from <= i < r.value ==> !OpenerAt(s, i)
    ensures r.None? <==> NoOpenerFrom(s, from)
    decreases |s| - from
  {
    if from + 1 >= |s| then None
    else if s[from] == '$' && s[from + 1] == '(' then
      assert OpenerAt(s, from);
      Some(from)
    else FindOpener(s, from + 1)
  }

  // Character classes of the directive grammar.

  /** `[a-zA-Z_]` */
  predicate IsIdentStart(c: char) {
    ('a' <= c <= 'z') || ('A' <= c <= 'Z') || c == '_'
  }

  /** `[a-zA-Z0-9_]` */
  predicate IsIdentChar(c: char) {
    IsIdentStart(c) || ('0' <= c <= '9')
  }

  /** `\s` in the "C" locale: space, tab, newline, vertical tab, form feed, carriage return. */
  predicate IsSpace(c: char) {
    c == ' ' || (9 <= c as int <= 13)
  }

  /** `[^)]` */
  predicate NotCloser(c: char) {
    c != ')'
  }

  /** Every character of w is in the class p. */
  predicate All(w: string, p: char -> bool) {
    forall k :: 0 <= k < |w| ==> p(w[k])
  }

  /** A name as the grammar accepts it: `[a-zA-Z_][a-zA-Z0-9_]*`. */
  predicate IsIdentifier(name: string) {
    |name| > 0 && IsIdentStart(name[0]) && All(name, IsIdentChar)
  }

  /** A non-empty run of whitespace: `\s+`. */
  predicate IsSpaces(w: string) {
    |w| > 0 && All(w, IsSpace)
  }

  /** The characters of s[i..j] are in p exactly when every index from i up to j holds one. */
  lemma AllSlice(s: string, i: nat, j: nat, p: char -> bool)
    requires i <= j <= |s|
    ensures All(s[i..j], p) <==> forall k :: i <= k < j ==> p(s[k])
  {
    assert forall k :: i <= k < j ==> s[k] == s[i..j][k - i];
  }

  /** The index just past the longest run of characters satisfying p that starts at index i of s. */
  function RunEnd(s: string, i: nat, p: char -> bool): (j: nat)
    requires i <= |s|
    ensures i <= j <= |s|
    decreases |s| - i
  {
    if i < |s| && p(s[i]) then RunEnd(s, i + 1, p) else i
  }

  /** The run is maximal: every character in it is in p, and the one after it, if any, is not. */
  lemma {:induction false} RunEndFacts(s: string, i: nat, p: char -> bool)
    requires i <= |s|
    ensures forall k :: i <= k < RunEnd(s, i, p) ==> p(s[k])
    ensures RunEnd(s, i, p) < |s| ==> !p(s[RunEnd(s, i, p)])
    decreases |s| - i
  {
    if i < |s| && p(s[i]) {
      RunEndFacts(s, i + 1, p);
    }
  }

  /** A run of n characters satisfying p, followed by one that does not, ends the run at i + n. */
  lemma {:induction false} RunEndAt(s: string, i: nat, n: nat, p: char -> bool)
    requires i + n <= |s|
    requires forall k :: i <= k < i + n ==> p(s[k])
    requires i + n == |s| || !p(s[i + n])
    ensures RunEnd(s, i, p) == i + n
    decreases n
  {
    if n > 0 {
      RunEndAt(s, i + 1, n - 1, p);
    }
  }

  /** A captured group: the characters of the scanned text from index lo up to, not including, hi. */
  datatype Group = Group(lo: nat, hi: nat)

  /** A parsed directive body, with its captured names as groups of the scanned text. */
  datatype Directive =
    | End
    | Var(name: Group)
    | If(name: Group)
    | For(elem: Group, list: Group)
    | Include(target: Group)

  /** The group g lies between indices i and n. */
  predicate GroupIn(g: Group, i: nat, n: nat) {
    i <= g.lo <= g.hi <= n
  }

  /** Every group of d lies between indices i and n. */
  predicate GroupsIn(d: Directive, i: nat, n: nat) {
    match d
    case End => true
    case Var(g) => GroupIn(g, i, n)
    case If(g) => GroupIn(g, i, n)
    case For(g, h) => GroupIn(g, i, n) && GroupIn(h, i, n)
    case Include(g) => GroupIn(g, i, n)
  }

  /** The text a group captured. */
  function Text(s: string, g: Group): (t: string)
    requires g.lo <= g.hi <= |s|
    ensures |t| == g.hi - g.lo
  {
    s[g.lo..g.hi]
  }

  /** `^end\)` at index i. */
  predicate MatchEnd(s: string, i: nat) {
    i + 4 <= |s| && s[i] == 'e' && s[i + 1] == 'n' && s[i + 2] == 'd' && s[i + 3] == ')'
  }

  /** `^([a-zA-Z_][a-zA-Z0-9_]*)\)` at index i: the index just past the `)`. */
  function MatchVar(s: string, i: nat): (r: Option<nat>)
    requires i <= |s|
    ensures r.Some? ==> i + 2 <= r.value <= |s| && s[r.value - 1] == ')'
  {
    var j := RunEnd(s, i, IsIdentChar);
    if j > i && IsIdentStart(s[i]) && j < |s| && s[j] == ')' then Some(j + 1) else None
  }

  /** `\s+` at index i: the index just past the longest run of whitespace there, if the run is non-empty. */
  function SkipSpaces(s: string, i: nat): (j: Option<nat>)
    requires i <= |s|
    ensures j.Some? ==> i < j.value <= |s|
  {
    var n := RunEnd(s, i, IsSpace);
    if n == i then None else Some(n)
  }

  /** `[a-zA-Z_][a-zA-Z0-9_]*` at index i: the index just past the longest identifier there, if any. */
  function SkipIdent(s: string, i: nat): (j: Option<nat>)
    requires i <= |s|
    ensures j.Some? ==> i < j.value <= |s|
  {
    var n := RunEnd(s, i, IsIdentChar);
    if n == i || !IsIdentStart(s[i]) then None else Some(n)
  }

  /** `^if\s+([a-zA-Z_][a-zA-Z0-9_]*)\)` at index i: where the name starts and the index just past the `)`. */
  function MatchIf(s: string, i: nat): (r: Option<(nat, nat)>)
    requires i <= |s|
    ensures r.Some? ==> i + 2 < r.value.0 && r.value.0 + 2 <= r.value.1 <= |s| && s[r.value.1 - 1] == ')'
  {
    if i + 2 <= |s| && s[i] == 'i' && s[i + 1] == 'f' then
      match SkipSpaces(s, i + 2)
      case None => None
      case Some(k) =>
        match MatchVar(s, k)
        case None => None
        case Some(n) => Some((k, n))
    else
      None
  }

  /** `^for\s++([a-zA-Z_][a-zA-Z0-9_]*)\s++in\s++([a-zA-Z_][a-zA-Z0-9_]*)\)` at index i: where the
      induction variable starts and ends, where the list variable starts, and the index just past the `)`.
      The possessive `\s++` cannot give back a character an identifier or `in` could use, so taking
      the longest runs is the only way to match. */
  function MatchFor(s: string, i: nat): (r: Option<(nat, nat, nat, nat)>)
    requires i <= |s|
    ensures r.Some? ==> var (a, a', c, n) := r.value; i + 3 < a < a' && a' + 3 < c && c + 2 <= n <= |s| && s[n - 1] == ')'
  {
    if i + 3 <= |s| && s[i] == 'f' && s[i + 1] == 'o' && s[i + 2] == 'r' then
      match SkipSpaces(s, i + 3)
      case None => None
      case Some(a) =>
        match SkipIdent(s, a)
        case None => None
        case Some(a') =>
          match SkipSpaces(s, a')
          case None => None
          case Some(b) =>
            if b + 2 > |s| || s[b] != 'i' || s[b + 1] != 'n' then None
            else
              match SkipSpaces(s, b + 2)
              case None => None
              case Some(c) =>
                match MatchVar(s, c)
                case None => None
                case Some(n) => Some((a, a', c, n))
    else
      None
  }

  /** `^include ([^)]+)\)` at index i: exactly one space, then a non-empty target without `)`;
      the index just past the `)`. */
  function MatchInclude(s: string, i: nat): (r: Option<nat>)
    requires i <= |s|
    ensures r.Some? ==> i + 10 <= r.value <= |s| && s[r.value - 1] == ')'
  {
    if i + 8 <= |s| && s[i..i + 8] == "include " then
      var n := RunEnd(s, i + 8, NotCloser);
      if n == i + 8 || n >= |s| || s[n] != ')' then None else Some(n + 1)
    else
      None
  }

  /** A directive d was read from index i of s up to, not including, index n, which follows its `)`. */
  predicate Parsed(s: string, i: nat, d: Directive, n: nat) {
    i < n <= |s| && s[n - 1] == ')' && GroupsIn(d, i, n)
  }

  /** The substitution shape at index i, as a directive. */
  function VarDirective(s: string, i: nat): (r: Option<(Directive, nat)>)
    requires i <= |s|
    ensures r.Some? ==> Parsed(s, i, r.value.0, r.value.1)
  {
    match MatchVar(s, i)
    case Some(n) => Some((Var(Group(i, n - 1)), n))
    case None => None
  }

  /** The conditional shape at index i, as a directive. */
  function IfDirective(s: string, i: nat): (r: Option<(Directive, nat)>)
    requires i <= |s|
    ensures r.Some? ==> Parsed(s, i, r.value.0, r.value.1)
  {
    match MatchIf(s, i)
    case Some((k, n)) => Some((If(Group(k, n - 1)), n))
    case None => None
  }

  /** The loop shape at index i, as a directive. */
  function ForDirective(s: string, i: nat): (r: Option<(Directive, nat)>)
    requires i <= |s|
    ensures r.Some? ==> Parsed(s, i, r.value.0, r.value.1)
  {
    match MatchFor(s, i)
    case Some((a, a', c, n)) => Some((For(Group(a, a'), Group(c, n - 1)), n))
    case None => None
  }

  /** The inclusion shape at index i, as a directive. */
  function IncludeDirective(s: string, i: nat): (r: Option<(Directive, nat)>)
    requires i <= |s|
    ensures r.Some? ==> Parsed(s, i, r.value.0, r.value.1)
  {
    match MatchInclude(s, i)
    case Some(n) => Some((Include(Group(i + 8, n - 1)), n))
    case None => None
  }

  /** The directive whose body starts at index i of s (just past its opener): the five shapes are
      tried in order end, variable, if, for, include. Returns the directive and the index just past
      its closing `)`. */
  function ParseDirective(s: string, i: nat): (r: Option<(Directive, nat)>)
    requires i <= |s|
    ensures r.Some? ==> Parsed(s, i, r.value.0, r.value.1)
  {
    if MatchEnd(s, i) then Some((End, i + 4))
    else if VarDirective(s, i).Some? then VarDirective(s, i)
    else if IfDirective(s, i).Some? then IfDirective(s, i)
    else if ForDirective(s, i).Some? then ForDirective(s, i)
    else IncludeDirective(s, i)
  }

  // Soundness: what each accepted directive says about the text.

  /** An accepted substitution captured an identifier and stops at the `)` after it. */
  lemma VarSound(s: string, i: nat)
    requires i <= |s| && MatchVar(s, i).Some?
    ensures IsIdentifier(s[i..MatchVar(s, i).value - 1])
  {
    var n := MatchVar(s, i).value;
    RunEndFacts(s, i, IsIdentChar);
    AllSlice(s, i, n - 1, IsIdentChar);
  }

  /** An accepted conditional is `if`, whitespace, an identifier and `)`. */
  lemma IfSound(s: string, i: nat)
    requires i <= |s| && MatchIf(s, i).Some?
    ensures var (k, n) := MatchIf(s, i).value;
      s[i..i + 2] == "if" && IsSpaces(s[i + 2..k]) && IsIdentifier(s[k..n - 1])
  {
    var (k, n) := MatchIf(s, i).value;
    RunEndFacts(s, i + 2, IsSpace);
    AllSlice(s, i + 2, k, IsSpace);
    VarSound(s, k);
  }

  /** An accepted loop is `for`, whitespace, an identifier, whitespace, `in`, whitespace, an identifier and `)`. */
  lemma ForSound(s: string, i: nat)
    requires i <= |s| && MatchFor(s, i).Some?
    ensures var (a, a', c, n) := MatchFor(s, i).value;
      s[i..i + 3] == "for" && IsSpaces(s[i + 3..a]) && IsIdentifier(s[a..a']) &&
      exists b :: a' < b && b + 2 < c && IsSpaces(s[a'..b]) && s[b..b + 2] == "in" &&
        IsSpaces(s[b + 2..c]) && IsIdentifier(s[c..n - 1])
  {
    var (a, a', c, n) := MatchFor(s, i).value;
    var b := SkipSpaces(s, a').value;
    RunEndFacts(s, i + 3, IsSpace);
    RunEndFacts(s, a, IsIdentChar);
    RunEndFacts(s, a', IsSpace);
    RunEndFacts(s, b + 2, IsSpace);
    AllSlice(s, i + 3, a, IsSpace);
    AllSlice(s, a, a', IsIdentChar);
    AllSlice(s, a', b, IsSpace);
    AllSlice(s, b + 2, c, IsSpace);
    VarSound(s, c);
  }

  /** An accepted inclusion is `include `, a non-empty target without `)`, and `)`. */
  lemma IncludeSound(s: string, i: nat)
    requires i <= |s| && MatchInclude(s, i).Some?
    ensures var n := MatchInclude(s, i).value;
      s[i..i + 8] == "include " && i + 8 < n - 1 && All(s[i + 8..n - 1], NotCloser)
  {
    var n := MatchInclude(s, i).value;
    RunEndFacts(s, i + 8, NotCloser);
    AllSlice(s, i + 8, n - 1, NotCloser);
  }

  /** What ParseDirective accepts, shape by shape. */
  lemma ParseDirectiveSound(s: string, i: nat)
    requires i <= |s| && ParseDirective(s, i).Some?
    ensures var (d, n) := ParseDirective(s, i).value;
      && (d.End? ==> n == i + 4 && s[i..n] == "end)")
      && (d.Var? ==> d.name == Group(i, n - 1) && IsIdentifier(Text(s, d.name)) && Text(s, d.name) != "end")
      && (d.If? ==> d.name.hi == n - 1 && s[i..i + 2] == "if" && IsSpaces(s[i + 2..d.name.lo])
                    && IsIdentifier(Text(s, d.name)))
      && (d.For? ==> d.list.hi == n - 1 && s[i..i + 3] == "for" && IsSpaces(s[i + 3..d.elem.lo])
                     && IsIdentifier(Text(s, d.elem)) && IsIdentifier(Text(s, d.list)))
      && (d.Include? ==> d.target == Group(i + 8, n - 1) && s[i..i + 8] == "include "
                         && |Text(s, d.target)| > 0 && All(Text(s, d.target), NotCloser))
  {
    var (d, n) := ParseDirective(s, i).value;
    if MatchEnd(s, i) {
      assert s[i..n] == "end)";
    } else if VarDirective(s, i).Some? {
      VarSound(s, i);
    } else if IfDirective(s, i).Some? {
      IfSound(s, i);
    } else if ForDirective(s, i).Some? {
      ForSound(s, i);
    } else {
      IncludeSound(s, i);
    }
  }

  /** A directive body with no closing `)` matches no shape: an unterminated directive is invalid. */
  lemma UnterminatedDirective(s: string, i: nat)
    requires i <= |s|
    requires forall k :: i <= k < |s| ==> s[k] != ')'
    ensures ParseDirective(s, i) == None
  {
  }

  // Completeness: every text of a shape is accepted as that shape.

  /** An identifier followed by `)` is accepted by the substitution matcher. */
  lemma VarComplete(s: string, i: nat, n: nat)
    requires i + 2 <= n <= |s| && IsIdentifier(s[i..n - 1]) && s[n - 1] == ')'
    ensures MatchVar(s, i) == Some(n)
  {
    AllSlice(s, i, n - 1, IsIdentChar);
    assert s[i] == s[i..n - 1][0];
    RunEndAt(s, i, n - 1 - i, IsIdentChar);
  }

  /** An identifier other than `end` followed by `)` is a substitution. */
  lemma ParseVarComplete(s: string, i: nat, n: nat)
    requires i + 2 <= n <= |s| && IsIdentifier(s[i..n - 1]) && s[n - 1] == ')'
    requires s[i..n - 1] != "end"
    ensures ParseDirective(s, i) == Some((Var(Group(i, n - 1)), n))
  {
    VarComplete(s, i, n);
  }

  /** `if`, whitespace, an identifier and `)` is a conditional. */
  lemma ParseIfComplete(s: string, i: nat, k: nat, n: nat)
    requires i + 2 < k && k + 2 <= n <= |s|
    requires s[i] == 'i' && s[i + 1] == 'f' && IsSpaces(s[i + 2..k])
    requires IsIdentifier(s[k..n - 1]) && s[n - 1] == ')'
    ensures ParseDirective(s, i) == Some((If(Group(k, n - 1)), n))
  {
    AllSlice(s, i + 2, k, IsSpace);
    assert s[i + 2] == s[i + 2..k][0];
    RunEndAt(s, i, 2, IsIdentChar);
    assert MatchVar(s, i) == None;
    assert !MatchEnd(s, i);
    assert MatchIf(s, i) == Some((k, n)) by {
      IfComplete(s, i, k, n);
    }
  }

  /** The conditional matcher accepts the conditional shape, with the runs ending where the
      pieces do. */
  lemma IfComplete(s: string, i: nat, k: nat, n: nat)
    requires i + 2 < k && k + 2 <= n <= |s|
    requires s[i] == 'i' && s[i + 1] == 'f' && IsSpaces(s[i + 2..k])
    requires IsIdentifier(s[k..n - 1]) && s[n - 1] == ')'
    ensures MatchIf(s, i) == Some((k, n))
  {
    AllSlice(s, i + 2, k, IsSpace);
    assert s[k] == s[k..n - 1][0];
    RunEndAt(s, i + 2, k - i - 2, IsSpace);
    VarComplete(s, k, n);
  }

  /** `for`, whitespace, an identifier, whitespace, `in`, whitespace, an identifier and `)` is a loop. */
  lemma ParseForComplete(s: string, i: nat, a: nat, a': nat, b: nat, c: nat, n: nat)
    requires i + 3 < a < a' < b && b + 2 < c && c + 2 <= n <= |s|
    requires s[i] == 'f' && s[i + 1] == 'o' && s[i + 2] == 'r' && IsSpaces(s[i + 3..a])
    requires IsIdentifier(s[a..a']) && IsSpaces(s[a'..b])
    requires s[b] == 'i' && s[b + 1] == 'n' && IsSpaces(s[b + 2..c])
    requires IsIdentifier(s[c..n - 1]) && s[n - 1] == ')'
    ensures ParseDirective(s, i) == Some((For(Group(a, a'), Group(c, n - 1)), n))
  {
    AllSlice(s, i + 3, a, IsSpace);
    assert s[i + 3] == s[i + 3..a][0];
    RunEndAt(s, i, 3, IsIdentChar);
    assert MatchVar(s, i) == None;
    assert !MatchEnd(s, i) && MatchIf(s, i) == None;
    assert MatchFor(s, i) == Some((a, a', c, n)) by {
      ForComplete(s, i, a, a', b, c, n);
    }
  }

  /** The loop matcher accepts the loop shape, with the runs ending where the pieces do. */
  lemma ForComplete(s: string, i: nat, a: nat, a': nat, b: nat, c: nat, n: nat)
    requires i + 3 < a < a' < b && b + 2 < c && c + 2 <= n <= |s|
    requires s[i] == 'f' && s[i + 1] == 'o' && s[i + 2] == 'r' && IsSpaces(s[i + 3..a])
    requires IsIdentifier(s[a..a']) && IsSpaces(s[a'..b])
    requires s[b] == 'i' && s[b + 1] == 'n' && IsSpaces(s[b + 2..c])
    requires IsIdentifier(s[c..n - 1]) && s[n - 1] == ')'
    ensures MatchFor(s, i) == Some((a, a', c, n))
  {
    assert SkipSpaces(s, i + 3) == Some(a) by {
      SpacesComplete(s, i + 3, a);
      assert s[a] == s[a..a'][0];
    }
    assert SkipIdent(s, a) == Some(a') by {
      AllSlice(s, a, a', IsIdentChar);
      assert s[a] == s[a..a'][0];
      assert s[a'] == s[a'..b][0];
      RunEndAt(s, a, a' - a, IsIdentChar);
    }
    assert SkipSpaces(s, a') == Some(b) by {
      SpacesComplete(s, a', b);
    }
    assert SkipSpaces(s, b + 2) == Some(c) by {
      SpacesComplete(s, b + 2, c);
      assert s[c] == s[c..n - 1][0];
    }
    VarComplete(s, c, n);
  }

  /** A whitespace run from i to j that is not followed by more whitespace is what SkipSpaces skips. */
  lemma SpacesComplete(s: string, i: nat, j: nat)
    requires i < j <= |s| && IsSpaces(s[i..j]) && (j == |s| || !IsSpace(s[j]))
    ensures SkipSpaces(s, i) == Some(j)
  {
    AllSlice(s, i, j, IsSpace);
    RunEndAt(s, i, j - i, IsSpace);
  }

  /** `include `, a non-empty target without `)` and `)` is an inclusion. */
  lemma ParseIncludeComplete(s: string, i: nat, n: nat)
    requires i + 10 <= n <= |s| && s[i..i + 8] == "include "
    requires All(s[i + 8..n - 1], NotCloser) && s[n - 1] == ')'
    ensures ParseDirective(s, i) == Some((Include(Group(i + 8, n - 1)), n))
  {
    assert s[i] == 'i' && s[i + 1] == 'n' && s[i + 7] == ' ';
    RunEndAt(s, i, 7, IsIdentChar);
    assert MatchVar(s, i) == None;
    AllSlice(s, i + 8, n - 1, NotCloser);
    RunEndAt(s, i + 8, n - 1 - i - 8, NotCloser);
  }
}

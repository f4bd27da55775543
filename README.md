# fae: the template compiler and its virtual machine

fae is a small C++ text-template engine. A template is a text with directives
opened by `$(` and closed by `)`. `$(name)` prints a variable.
`$(if name)…$(end)` prints its body only when the name is bound.
`$(for x in xs)…$(end)` repeats its body for every element of a container.
`$(include t)` prints another template. A backslash before `$(` escapes it.

Constructing a `Template` compiles the text into four tables:
- literal fragments;
- variable names;
- include names;
- 16-bit bytecode words, each a 3-bit opcode tag and a 13-bit operand.

Rendering runs a virtual machine over the bytecode. The machine calls four
callbacks: print a variable, test whether a variable exists, advance a loop,
and render an include. Rendering with an input map supplies the first three.
They share a map of active loop cursors (`currentIterators`), which is the
only state that changes during a render.

The model follows that structure:
- `results.dfy`: Result and Outcome.
- `bytecode.dfy`: the opcodes and the word layout.
- `scan.dfy`: the opener search; hand-written prefix matchers that replace the five regular expressions.
- `compiler.dfy`: the compiler as a specification: the tables, one pass of the scanning loop, the stack of open blocks, and the whole compilation.
- `vm.dfy`: the machine as a step function with a fuel bound.
- `binding.dfy`: values, cursors and the three input callbacks.
- `template.dfy`: class `Fae.Template`. Its fields are the four tables. Its constructors are there, and its imperative methods (the compile loop, `addVariable`, `addFragment`, the render loop) are proved against the specification functions.
- `compiled.dfy`: every compiled program is well formed, so the machine never faults on one.
- The remaining files follow the library's test cases scenario by scenario:
  - `passes.dfy`, `substitutions.dfy` and `substitution_rendering.dfy`: static text, substitution and escapes;
  - `render_examples.dfy`: the concrete test templates;
  - `conditionals.dfy`: conditionals;
  - `loop_compilation.dfy` and `loop_rendering.dfy`: loops;
  - `rejections.dfy`: rejected templates.

Each scenario is proved once for all names and texts of its shape. The test
templates are then instances of it.

## Model

| member | source | states |
|---|---|---|
| Bytecode.TagValue | fae.hpp:232-241 | the tag of each opcode is its enumeration value (Include is the remaining tag 0xE000), a multiple of 0x2000 |
| Bytecode.OpcodeOf | fae.cpp:53 | the opcode of a word is the one whose tag is `w & 0xE000` |
| Bytecode.OperandOf | fae.cpp:56 | the operand `w & 0x1FFF` is below 8192 |
| Bytecode.DecodeEncode | fae.cpp:119 | `op \| operand` with an operand below 8192 decodes back to op and operand |
| Bytecode.EncodeDecode | fae.cpp:53-56 | every 16-bit word is its tag plus its operand |
| Bytecode.HaltWordIsZero | fae.cpp:48-51 | the only word whose tag and operand are both zero is Halt = 0 |
| Scan.FindOpener | fae.cpp:114-116 | string::find for `$(`: the first opener at or after the start index, with none before it, or none at all |
| Scan.NoDollarNoOpener | fae.cpp:114-116 | a text without `$` has no opener |
| Scan.RunEndFacts | fae.cpp:101-104 | the greedy run of a character class is maximal: all its characters are in the class, the next is not |
| Scan.RunEndAt | fae.cpp:101-104 | a run of n class characters followed by a non-class character ends exactly there |
| Scan.MatchVar | fae.cpp:101 | an accepted variable ends just past a `)` |
| Scan.MatchIf | fae.cpp:102 | an accepted conditional's name starts after `if` and at least one more character, and the match ends just past a `)` |
| Scan.MatchFor | fae.cpp:104 | an accepted loop's two names come in order after `for`, with room for `in` between them, and the match ends just past a `)` |
| Scan.MatchInclude | fae.cpp:105 | an accepted inclusion along with its target is at least ten characters and ends just past a `)` |
| Scan.ParseDirective | fae.cpp:149-206 | an accepted directive ends just past a `)` and every name it captured lies between its start and its end |
| Scan.VarSound | fae.cpp:101 | an accepted variable is an identifier |
| Scan.IfSound | fae.cpp:102 | an accepted conditional is `if`, whitespace, an identifier, `)` |
| Scan.ForSound | fae.cpp:104 | an accepted loop is `for`, whitespace, identifier, whitespace, `in`, whitespace, identifier, `)` |
| Scan.IncludeSound | fae.cpp:105 | an accepted inclusion is `include `, one space, a non-empty target without `)`, and `)` |
| Scan.ParseDirectiveSound | fae.cpp:149-206 | what each accepted directive says about the text, shape by shape; a variable named `end` is never a variable |
| Scan.UnterminatedDirective | fae.cpp:149-206 | a directive body with no `)` after it matches no shape |
| Scan.VarComplete | fae.cpp:101 | every identifier followed by `)` is accepted by the variable matcher |
| Scan.ParseVarComplete | fae.cpp:149-168 | every identifier other than `end` followed by `)` parses as a substitution |
| Scan.ParseIfComplete | fae.cpp:149-180 | every `if`-whitespace-identifier-`)` parses as a conditional of that name |
| Scan.IfComplete | fae.cpp:102 | the conditional matcher accepts every conditional text, with the runs ending where its pieces end |
| Scan.ForComplete | fae.cpp:104 | the loop matcher accepts every loop text, with the runs ending where its pieces end (possessive `\s++`) |
| Scan.ParseForComplete | fae.cpp:149-196 | every loop text parses as a loop over its two names |
| Scan.SpacesComplete | fae.cpp:102-104 | a maximal whitespace run is exactly what `\s+` skips |
| Scan.ParseIncludeComplete | fae.cpp:149-202 | every `include `-target-`)` parses as an inclusion of that target |
| Compiler.IndexOf | fae.cpp:216-222 | the index found holds the name, and no earlier index does |
| Compiler.Register | fae.cpp:214-226 | the index returned holds the name in the returned table |
| Compiler.RegisterFacts | fae.cpp:214-226 | addVariable returns an index holding the name, the first such; a present name leaves the table unchanged, a new one is appended as the last entry; existing entries never change |
| Compiler.RegisterKeepsDistinct | fae.cpp:214-226 | the variable table never holds a name twice |
| Compiler.RegisterIdempotent | fae.cpp:214-226 | registering a name again gives the same index and the same table |
| Compiler.Emit | fae.cpp:167 | appending `op \| operand` succeeds exactly when the operand fits in 13 bits, and then appends that one word |
| Compiler.AddFragment | fae.cpp:228-232 | exactly one fragment and one Copy of its index are appended, nothing else changes; fails only when the index does not fit |
| Compiler.AppendDollar | fae.cpp:136 | only the last fragment changes, by a trailing `$` |
| Compiler.Patch | fae.cpp:159 | OR-ing the target into a placeholder keeps its opcode and sets its operand |
| Compiler.PlaceholdersAppend | fae.cpp:109 | appending words keeps every open block's placeholder |
| Compiler.PlaceholdersPush | fae.cpp:179 | pushing the address of a fresh jump test, the last word, whose target is still 0, keeps every open block a placeholder |
| Compiler.Apply | fae.cpp:149-202 | each directive keeps every open block a placeholder |
| Compiler.CloseBlock | fae.cpp:149-162 | `end` keeps the remaining open blocks placeholders, and with no open block it fails with UnmatchedEnd |
| Compiler.CloseBlockPatches | fae.cpp:149-162 | `end` pops the innermost block; a loop gets a Jump back to its test at the old end of the code; then the test keeps its opcode and gets the new end of the code as its target; no other word and no table changes |
| Compiler.Substitution | fae.cpp:163-168 | a substitution registers the name and appends `Substitute \| index`, and fails only when the index does not fit |
| Compiler.OpenIf | fae.cpp:169-180 | `if` keeps every open block a placeholder, its own test included |
| Compiler.OpenFor | fae.cpp:181-196 | `for` keeps every open block a placeholder, its own test included |
| Compiler.AddInclude | fae.cpp:197-202 | an inclusion appends its target and `Include \| index`, and fails only when the index does not fit |
| Compiler.Step | fae.cpp:111-209 | one pass moves the scan position forward to a place scanning can resume from and keeps the open blocks placeholders |
| Compiler.StepFound | fae.cpp:114-141 | a pass that finds an opener at e is the escape pass exactly when one backslash, not two, precedes e, and the directive pass otherwise |
| Compiler.EscapeStep | fae.cpp:124-140 | `\$(` resumes scanning at the `(`, with the open blocks unchanged |
| Compiler.DirectiveStep | fae.cpp:124-208 | a directive pass resumes just past the directive's `)` |
| Compiler.RunDirective | fae.cpp:149-208 | a parsed directive resumes just past its `)` |
| Compiler.Literal | fae.cpp:127-147 | the literal before a directive fails only with OperandOverflow, leaves the name tables unchanged and appends at most one word |
| Compiler.LiteralAppends | fae.cpp:130-147 | the literal before a directive keeps the old code as a prefix of the new |
| Compiler.CompileFrom | fae.cpp:111-209 | the main loop keeps the stack of open blocks a list of placeholders |
| Compiler.Finish | fae.cpp:211 | the text compiles exactly when no block is open, and then Halt is the last word appended |
| Compiler.CompileOnto | fae.cpp:97-212 | compiling onto existing tables, when it succeeds, ends the code with Halt |
| Compiler.CompileSpec | fae.cpp:97-212 | a compiled template's code is non-empty and ends with Halt |
| Fae.Template.constructor | fae.cpp:17-24 | the default template is the compilation of the empty text, a lone Halt |
| Fae.Template.Blank | fae.cpp:26-31 | the four tables start empty |
| Fae.Template.FromString | fae.cpp:26-33 | a template text gives a fresh template holding its compilation, or the error that rejects it |
| Fae.Template.Compile | fae.cpp:97-212 | the scanning loop followed by Halt leaves the tables as the specification compiles the text onto them, or reports its error |
| Fae.Template.ScanStep | fae.cpp:111-209 | one iteration of the scanning loop changes the tables as one specification pass |
| Fae.Template.EmitRest | fae.cpp:116-121 | the branch where no opener is left, as the specification's pass: one fragment for the rest of the text, or OperandOverflow |
| Fae.Template.EmitEscape | fae.cpp:124-140 | the escape branch as the specification's escape pass |
| Fae.Template.EmitLiteralAndDirective | fae.cpp:124-208 | the literal text before a directive, then the directive, as the specification's directive pass |
| Fae.Template.CompileDirective | fae.cpp:149-208 | parsing and emitting one directive as the specification does |
| Fae.Template.EmitDirective | fae.cpp:149-202 | the branch for each directive shape as the specification applies it |
| Fae.Template.OpenConditional | fae.cpp:169-180 | `if` as the specification opens it |
| Fae.Template.OpenLoop | fae.cpp:181-196 | `for` as the specification opens it |
| Fae.Template.CloseInnermost | fae.cpp:149-162 | `end`, with the backward Jump for a loop and the patch in place, as the specification closes a block |
| Fae.Template.Render | fae.cpp:35-95 | the counter loop prints exactly what the machine specification prints under the same fuel |
| Fae.Template.RenderInput | fae.hpp:88-190 | rendering an input runs the machine with the three binding callbacks over an empty cursor map |
| Fae.Template.AddVariable | fae.cpp:214-226 | the linear scan returns the registration index and updates only the name table |
| Fae.Template.AddFragment | fae.cpp:228-232 | one fragment and its Copy appended; the other tables unchanged |
| Fae.IndexOfFirst | fae.cpp:216-222 | the first index holding a name is the one found |
| Fae.CompileEmpty | fae.cpp:17-24 | the empty text compiles to a lone Halt |
| Vm.ExecContinue | fae.cpp:44-92 | an instruction that continues costs one step |
| Vm.ExecHalted | fae.cpp:44-51 | the zero word, or the end of the code, stops the machine with what it has printed |
| Vm.ExecExtendsOutput | fae.cpp:40-94 | the output only ever grows: what a run prints extends what it had printed |
| Vm.StepExtendsOutput | fae.cpp:53-91 | one instruction only appends to the output |
| Vm.ExecFuelMonotone | fae.cpp:44-92 | more fuel does not change a run that finished |
| Vm.StepNoFault | fae.cpp:53-91 | an executable program never faults in one step |
| Vm.ExecNoFault | fae.cpp:89-90 | an executable program never raises an error: it finishes or runs out of fuel |
| Vm.Step | fae.cpp:44-91 | the machine halts exactly at the zero word or past the end of the code; a fault is never the fuel running out |
| Vm.Exec | fae.cpp:44-94 | the run loop by fuel; it has no contract of its own, and its properties are the lemmas Vm.ExecHalted, Vm.ExecContinue, Vm.ExecExtendsOutput, Vm.ExecFuelMonotone and Vm.ExecNoFault |
| Vm.Run | test/testTemplate.cpp:16-33 | an empty program, or one starting with Halt, renders the empty text for any callbacks and fuel |
| Binding.DigitChar | fae.hpp:125 | a digit character has the digit's value |
| Binding.NatTextValue | fae.hpp:125 | the decimal text of n is all digits and reads back as n |
| Binding.NatTextNoLeadingZero | fae.hpp:125 | the decimal text of a positive number does not start with 0 |
| Binding.NatText | fae.hpp:125 | the decimal text of a number is one or more digits |
| Binding.DigitsValue | fae.hpp:125 | a numeral whose first digit is not 0 denotes a positive number |
| Binding.CanonicalIsNatText | fae.hpp:125 | a numeral without leading zeros is exactly the decimal text of the number it denotes |
| Binding.ShowIntUnique | fae.hpp:121-127 | the text the stream shows for an integer is its only canonical decimal text |
| Binding.Show | fae.hpp:121-127 | booleans print as `true`/`false` (boolalpha), strings and characters as themselves, integers as their canonical decimal text (no leading zeros, a minus sign when negative), other values as nothing |
| Binding.Lookup | fae.hpp:118-119 | the bound value of a variable index exactly when its name is in the input |
| Binding.PrintVar | fae.hpp:96-130 | an active cursor prints its current element; otherwise a bound value prints as shown; an unbound name prints nothing |
| Binding.VarExists | fae.hpp:132-135 | a variable exists exactly when its name is bound or it has an active cursor |
| Binding.Advance | fae.hpp:137-187 | only the induction variable's cursor changes; true leaves it active; false leaves the map unchanged or without it; cursors stay inside their containers |
| Binding.VarExistsIgnoresValue | fae.hpp:132-135 | presence alone decides existence: rebinding a name to any value gives the same answer |
| Binding.AdvanceStarts | fae.hpp:158-166 | the first call over a non-empty container starts a cursor at its first element and answers true |
| Binding.AdvanceMoves | fae.hpp:168-182 | a later call moves the cursor on and answers true, or after the last element erases it and answers false |
| Binding.AdvanceIdle | fae.hpp:139-156 | a missing, non-container or empty list answers false and changes nothing |
| Binding.Elements | fae.hpp:148-153 | a loop over a sequence visits its elements, over a string its characters, in order |
| Binding.InputCallbacks | fae.hpp:188 | the three input callbacks over a shared cursor map; it has no contract of its own, and its properties are those of Binding.PrintVar, Binding.VarExists and Binding.Advance |
| Compiled.ExtendsTrans | fae.cpp:97-212 | the passes only append to the tables and set jump targets, transitively |
| Compiled.StepWellFormed | fae.cpp:111-209 | every pass keeps every instruction well formed and every closed jump test resolved |
| Compiled.CompileFromWellFormed | fae.cpp:111-209 | the main loop keeps every instruction well formed and every closed jump test resolved |
| Compiled.CompileFinished | fae.cpp:97-212 | a compiled program is well-formed instructions followed by one Halt, and every FalseJump and ListEndJump in it jumps forward, at most to that Halt |
| Compiled.FinishedJumpsInside | fae.cpp:64-85 | in a compiled program every jump test targets an index after itself and inside the code, and every Jump targets an earlier ListEndJump |
| Compiled.ResolvedGrow | fae.cpp:109-209 | appending words keeps every closed jump test's forward target, as long as each new jump test is pushed on the stack of open blocks |
| Compiled.CloseBlockResolved | fae.cpp:149-162 | after `end` the block it closes has a forward target and the other closed blocks keep theirs |
| Compiled.OpenIfWellFormed | fae.cpp:169-180 | `if` appends well-formed words, extends the program and leaves every closed jump test resolved, its own test being open |
| Compiled.OpenForWellFormed | fae.cpp:181-196 | `for` appends well-formed words, extends the program and leaves every closed jump test resolved, its own test being open |
| Compiled.CloseBlockWellFormed | fae.cpp:149-162 | `end` keeps the program well formed, extends it and leaves every closed jump test resolved |
| Compiled.FinishedHaltsOnlyAtEnd | fae.cpp:211 | Halt occurs in a compiled program only as its last word |
| Compiled.FinishedExecutable | fae.cpp:44-91 | the machine can execute every instruction of a compiled program |
| Compiled.CompiledRendersWithoutFault | fae.cpp:44-91 | rendering a compiled template never raises an error, whatever the callbacks: it finishes or runs out of fuel |
| Passes.StepAtOpener | fae.cpp:114-141 | a pass whose first opener is at e is the escape pass or the literal-and-directive pass |
| Passes.TailHere | fae.cpp:116-121 | text without an opener becomes one fragment and its Copy, ending the scan |
| Substitutions.StaticCompiles | fae.cpp:114-121 | a non-empty text without an opener compiles to one Copy and Halt |
| Substitutions.SubstitutionCompiles | fae.cpp:143-168 | `w$(x)` compiles to the Copy of w when it is longer than one character, then `Substitute \| 0`, then Halt |
| Substitutions.KeptSubstitutionCompiles | fae.cpp:143-168 | `w$(x)` with w longer than a character compiles to `Copy 0; Substitute 0; Halt` |
| Substitutions.EscapeCompiles | fae.cpp:124-140 | `w\$(x)` compiles to fragments `w$` and `(x)` and two Copies: the backslash is dropped and the directive is text |
| Substitutions.EscapedEscapeCompiles | fae.cpp:124-132 | w, n >= 2 backslashes, `$(x)` compiles to the text with one backslash less, then a live substitution |
| SubstitutionRendering.StaticRenders | test/testTemplate.cpp:35-42 | text without an opener renders back verbatim for any callbacks |
| SubstitutionRendering.SubstitutionRenders | fae.cpp:143-168 | `w$(x)` renders w (dropped when one character) and then the value of x, or nothing when x is unbound |
| SubstitutionRendering.EscapeRenders | fae.cpp:124-140 | `w\$(x)` renders `w$(x)` |
| SubstitutionRendering.EscapedEscapeRenders | fae.cpp:124-132 | w, n >= 2 backslashes and `$(x)` render w, n - 1 backslashes and the value of x |
| RenderExamples.StaticExample | test/testTemplate.cpp:35-42 | `Expressionless :\|` compiles to one Copy and renders itself |
| RenderExamples.SomeValCompiles | test/testTemplate.cpp:44-48 | `someVal: $(someVal)` compiles to the Copy of the prefix and the substitution |
| RenderExamples.SomeValInt | test/testTemplate.cpp:50-55 | 123 renders `someVal: 123` |
| RenderExamples.SomeValBool | test/testTemplate.cpp:57-62 | true renders `someVal: true` |
| RenderExamples.SomeValString | test/testTemplate.cpp:64-69 | `indeed` renders `someVal: indeed` |
| RenderExamples.SomeValMissing | test/testTemplate.cpp:71-74 | a missing name renders `someVal: ` |
| RenderExamples.EscapedExpressionCompiles | test/testTemplate.cpp:81-86 | `\$(val)` compiles to Copies of `$` and `(val)` |
| RenderExamples.EscapedExpressionAfterTextCompiles | test/testTemplate.cpp:102-107 | `2+3=\$(val)` compiles to Copies of `2+3=$` and `(val)` |
| RenderExamples.EscapedExpressionRenders | test/testTemplate.cpp:81-107 | those programs render `$(val)` and `2+3=$(val)` |
| RenderExamples.EscapedEscapeCompilesExample | test/testTemplate.cpp:88-93 | `\\$(val)` compiles to a Copy of one backslash and the substitution of val |
| RenderExamples.BackslashBeforeEscapedExpressionCompiles | test/testTemplate.cpp:95-100 | `\\\$(val)` compiles to a Copy of two backslashes and the substitution of val |
| RenderExamples.EscapedEscapeAfterTextCompiles | test/testTemplate.cpp:109-114 | `2+3=\\$(val)` compiles to a Copy of `2+3=\` and the substitution |
| RenderExamples.BackslashBeforeEscapedExpressionAfterTextCompiles | test/testTemplate.cpp:116-121 | `2+3=\\\$(val)` compiles to a Copy of `2+3=\\` and the substitution |
| RenderExamples.EscapedEscapeRenders | test/testTemplate.cpp:88-121 | with val = 5 those programs render `\5`, `\\5`, `2+3=\5` and `2+3=\\5` |
| RenderExamples.OneCharacterLiteralDropped | fae.cpp:143-147 | a single character before a directive is dropped: `c$(x)` compiles exactly as `$(x)` |
| Conditionals.IfCompiles | fae.cpp:169-180 | `$(if x)body$(end)` compiles to `Immediate 0; FalseJump 3; Copy 0; Halt`, the test patched past the body |
| Conditionals.IfCodeRenders | fae.cpp:64-71 | that program prints the body exactly when x is bound |
| Conditionals.IfRenders | fae.hpp:132-135 | `$(if x)body$(end)` renders the body when x is bound and nothing otherwise |
| Conditionals.IfIgnoresValue | fae.hpp:132-135 | whatever x is bound to, false, 0 or the empty string among them, the body is printed |
| Conditionals.FoundCompiles | test/testTemplate.cpp:124-133 | `$(if x)found$(end)` compiles to the test of x and the Copy of `found` |
| Conditionals.FoundExamples | test/testTemplate.cpp:135-183 | a missing name prints nothing; true, false, 0, 5, the empty and a full string print `found` |
| LoopCompilation.CloseLoop | fae.cpp:149-162 | `end` on a loop appends the Jump back to the test, then patches the test with the address after it |
| LoopCompilation.LoopCompiles | fae.cpp:181-196 | `$(for x in xs)$(x)$(end)` compiles to `Immediate 0; Immediate 1; ListEndJump 5; Substitute 0; Jump 2; Halt` |
| LoopRendering.LoopFrom | fae.cpp:73-85 | with the cursor on element i, the machine at the loop test prints the elements after i in order and halts |
| LoopRendering.LoopRenders | fae.cpp:73-85 | the loop program prints the list's elements in order, nothing for a missing or non-container list |
| LoopRendering.ForEachRenders | fae.hpp:137-187 | `$(for x in xs)$(x)$(end)` renders the elements of whatever container xs is bound to, in order |
| LoopRendering.ShowAllChars | fae.hpp:148-153 | a loop over a string prints its characters, that is the string |
| LoopRendering.CollectionLoopCompiles | test/testTemplate.cpp:185-189 | `$(for n in collection)$(n)$(end)` compiles to the loop program over n and collection |
| LoopRendering.CollectionInOrder | test/testTemplate.cpp:191-211 | over the numbers 1 to 5 it renders `12345` |
| Rejections.InvalidFirstDirective | fae.cpp:203-206 | a template opening with a directive of no known shape is invalid |
| Rejections.NameNotClosed | fae.cpp:101 | a name followed by a character that neither continues it nor closes the directive matches no shape |
| Rejections.IfNameNotClosed | fae.cpp:102 | a conditional name not followed at once by `)` matches no shape |
| Rejections.ForListNotClosed | fae.cpp:104 | a loop list name not followed at once by `)` matches no shape |
| Rejections.NameNotClosedInvalid | fae.cpp:163-206 | such a directive at the start makes the template invalid |
| Rejections.IfNameNotClosedInvalid | fae.cpp:169-206 | `$(if x` followed by anything but `)` makes the template invalid |
| Rejections.ForListNotClosedInvalid | fae.cpp:181-206 | `$(for x in xs` followed by anything but `)` makes the template invalid |
| Rejections.DirectiveNotParsed | fae.cpp:203-206 | an opener whose body matches no shape fails the pass with "Invalid template" |
| Rejections.CompileFromFails | fae.cpp:111-209 | a failing pass ends the whole compilation with its error |
| Rejections.EmptyDirectiveInvalid | test/testTemplate.cpp:215 | `$()` is invalid |
| Rejections.IfSpaceAfterInvalid | test/testTemplate.cpp:217 | `$(if spaceAfter )` is invalid |
| Rejections.IfTwoWordsInvalid | test/testTemplate.cpp:219 | `$(if word anotherWord)` is invalid |
| Rejections.DashedNameInvalid | test/testTemplate.cpp:221 | `$(not-a-valid-variable-name)` is invalid |
| Rejections.ForWithoutInInvalid | test/testTemplate.cpp:223 | `$(for n)` is invalid |
| Rejections.ForWithoutListInvalid | test/testTemplate.cpp:225 | `$(for n in)` is invalid |
| Rejections.ForSpaceAfterInvalid | test/testTemplate.cpp:227 | `$(for n in spaceAfter )` is invalid |
| Rejections.ForTwoWordsInvalid | test/testTemplate.cpp:229 | `$(for n in word anotherWord)` is invalid |
| Rejections.UnterminatedAfterText | fae.cpp:143-206 | literal text then an opener never closed by `)` is invalid |
| Rejections.UnterminatedExample | test/testLibrary.cpp:24 | `I'm $(invalid` is invalid |
| Rejections.EndWithoutBlock | fae.cpp:149-152 | an `end` before any block opens is rejected |
| Rejections.EndExample | fae.cpp:149-152 | `$(end)` is rejected |
| Rejections.OpenIfScans | fae.cpp:169-180 | the scan of `$(if x)` ends with the conditional still open, its test on the stack |
| Rejections.UnterminatedIf | fae.cpp:211 | `$(if x)` with no `$(end)` is rejected |
| Rejections.CompileAsWritten | fae.cpp:211 | the compiler as written agrees with the model on every text the model accepts |
| Rejections.FinishAsWritten | fae.cpp:211 | as written, the end of compilation appends Halt whatever blocks are open |
| Rejections.OpenIfCompilesAsWritten | fae.cpp:169-180 | as written, `$(if x)` compiles to `Immediate 0; FalseJump 0; Halt` |
| Rejections.OpenIfLoops | fae.cpp:64-71 | with x absent that program jumps back to its start forever: every fuel bound runs out |
| Rejections.OpenIfHangsAsWritten | fae.cpp:211 | as written, rendering `$(if x)` over an input without x never finishes |

## Left out

- The `Library` class (directory walking, file reading, the policy for templates that fail) is filesystem I/O and is not part of this model. The include callback is a parameter `nat -> string`.
- The regular expressions are replaced by prefix matchers. The possessive `\s++` takes the longest whitespace run, as `\s+` does.
- Compile-time type probing and `std::variant`/`std::any` are replaced by the `Value` datatype and the predicates `IsPrintable` and `IsContainer`. `std::string` is a container, so a loop over a string visits its characters.
- Stream formatting is written out only for integers (decimal), booleans (boolalpha), characters and strings. Floating point values are not modelled.
- The render loop has no termination argument of its own. Both the machine specification and `Fae.Template.Render` take a fuel bound, and a run that exhausts it reports `OutOfFuel`.
- The callbacks are pure functions that thread an explicit state, the cursor map. Aliasing of the captured `currentIterators` by the closures is not modelled.
- Binding.Advance: a cursor stores the elements of its container and a position. The end test uses the cursor's own elements. The source re-looks up the container, which differs only if a loop reuses an active induction variable over another list.
- Binding.Lookup: a variable index outside the name table reads out of bounds in the source. The model treats such an index as unbound.
- Fae.Template.Compile: behaviour the compiler leaves undefined becomes an explicit error. An `end` with no open block is `UnmatchedEnd`, where the source calls `top()` on an empty stack. An operand of 8192 or more is `OperandOverflow`, where the source ORs it into the tag. A block open at the end of the text is `UnterminatedBlock` (see Findings).
- Compiler.Step: at an opener in position 0 or 1 the source reads before the text (`expStart - 1` on an unsigned index). The model tests for a backslash only where one can be, which is what the escape tests expect.
- Compiler.Literal: a single character of literal text directly before a directive is dropped, as the code's `> 1` test does. The model keeps this behaviour; see `RenderExamples.OneCharacterLiteralDropped`.
- `\\\$(val)` renders `\\5`, as the code and its test do. The first backslash pair counts as an escaped escape, and the third backslash stays text.
- Rejections.NameNotClosed: stated only for names that start with a letter other than `e`, `i` or `f`, so that the text cannot also begin an `end`, `if`, `for` or `include` directive; the test template `$(not-a-valid-variable-name)` is of that kind.
- The header's opcode enumeration has no `Include`; the model gives it the eighth tag, 0xE000, which `fae.cpp` uses.
- Vm.Step: the machine's undefined behaviour becomes the error `MalformedProgram`. The cases are a Copy past the fragments, and a FalseJump (or ListEndJump) without the words it reads before it. A word with tag 0 and a nonzero operand is `UnknownInstruction`. Compiled programs raise neither (`Compiled.CompiledRendersWithoutFault`).
- Integers are unbounded in `Value`. The 16-bit indices of the source appear only as the 13-bit operand limit.

## Findings

| source | as written | input that shows it | evidently intended | confidence | as-written member | corrected member |
|---|---|---|---|---|---|---|
| fae.cpp:211 | compilation appends Halt without checking that every `if`/`for` was closed, so an open conditional keeps the placeholder target 0; at render time its FalseJump jumps to 0 and loops when the name is absent | `$(if x)` rendered over an input without x | a block still open at the end of the text rejects the template | not executed | Rejections.OpenIfHangsAsWritten | Rejections.UnterminatedIf |

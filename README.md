# bool-tool core in Dafny

This project models the Boolean-logic engine of bool-tool, a small GTK program that
simplifies a Boolean function with the Quine–McCluskey method. The user gives either
an expression (`a'b + c`) or a list of minterms plus the variables they range over. The
engine then:

1. turns an expression into its minterms and variables;
2. tabulates the prime implicants;
3. keeps a greedy cover of the minterms;
4. builds the sum-of-products expression of that cover;
5. prints it.

The model follows the C code module by module:

| module (file) | C source | form |
|---|---|---|
| `Bits` (bits.dfy) | `uint64_t` bit operations, `__builtin_popcountll` | functions and lemmas over `nat` below 2^64 |
| `Text` (text.dfy) | `isspace`/`isalpha`/`isdigit` in the "C" locale, `strtol`, `strtoumax`, `strchr`, `%PRIu64` | functions |
| `Environments` (environment.dfy) | `boolean_environment.c` | a datatype holding the 64-bit word |
| `Expressions` (expression.dfy) | tree, arity, precedence, clone and evaluate of `boolean_expression.c` | datatype and functions |
| `ExpressionParser` (parser.dfy) | the recursive-descent parser of `boolean_expression.c` | functions over `seq<char>` with an explicit position |
| `ExpressionPrinter` (printer.dfy) | `boolean_expression_to_string_` | function |
| `GrammarExamples`, `RoundTrip` (grammar.dfy, roundtrip.dfy) | the grammar and the printing rules, with the print/parse round trip | lemmas |
| `Variables` (variables.dfy) | `boolean_variables.c` | methods with loops, proved against recursive functions |
| `Minterms` (minterms.dfy) | `boolean_minterms.c` | methods with loops, proved against recursive functions |
| `Implicants`, `Tables` (implicants.dfy, tables.dfy) | implicant algebra, `boolean_implicants_add`, `struct table` | functions, lemmas, and classes whose methods modify fields |
| `Passes`, `Tabulation`, `PrimeImplicants` (pass.dfy, tabulation.dfy, prime_implicants.dfy) | `boolean_implicants_from_minterms` | specification functions, lemmas, and imperative methods over the two tables |
| `Minimalize` (minimalize.dfy) | `boolean_implicants_minimalize` | specification functions and imperative methods over arrays |
| `Reconstruction` (reconstruction.dfy) | `boolean_expression_from_minterm(s)` and `boolean_expression_from_implicant(s)` | methods with loops, proved against recursive functions |
| `Functions` (function.dfy) | `boolean_function.c` | datatype and functions |
| `Minimizer` (minimizer.dfy) | the pipeline of `simplify_button_clicked` | lemmas and methods |

A few representation choices:

- **Integers.** Values of type `uint64_t` are naturals below 2^64 (`Bits.uint64`). `Bit(x, k)` is bit `k` of `x`. Bit `n - 1 - k` of a minterm or implicant stands for `variables[k]`.
- **Environments.** An environment is a 64-bit word. `set_variable` builds its masks with a 32-bit `1U`, so it also clears bits 32 to 63. The model keeps that behaviour (`Environments.SetWordBits`).
- **Tables.** A `struct table` is a class with the implicants of its terms (`seq<seq<Implicant>>`) and their `combined` flags. Both are updated in place.
- **Minimalize.** `minimalize` works on `array`s of frequencies and selection flags. It compacts the implicant list in place.

The headline result is `Minimizer.SimplifiedMeaning`. Take distinct variables (fewer than 64, each with an environment index below 32) and minterms below 2^n. Then the expression built by the pipeline is true under the assignment of `i < 2^n` exactly when `i` is one of the minterms. `Minimizer.Simplify` states it for both input forms. For an expression input, the result agrees with the input expression under every assignment of its variables.

Where the code and its description differ, the model follows the code:

- **Empty items in `boolean_variables_from_string`.** An empty item that is not the last one does not disappear. The character stored for it is the next comma: `"a,,b"` gives `a` and `,` (`Variables.EmptyItemTakesComma`). It is `strchr(i + 1, ',')` at `boolean_variables.c:52` that skips past the item's first character. Only a blank last item adds nothing (`Variables.BlankLastItem`).
- **The first literal in `boolean_expression_from_minterm`.** The first literal is built twice: once before the loop, and once more in the loop, which starts at index 0. `Reconstruction.MintermExpression` keeps both copies.

## Model

| member | source | states |
|---|---|---|
| Environments.Index | src/bool_tool/boolean_environment.c:7-8 | every letter maps to an index below 52 |
| Environments.NameOf | src/bool_tool/boolean_environment.c:7-8 | every index below 52 is the index of some letter (a–z to 0–25, A–Z to 26–51) |
| Environments.IndexInjective | src/bool_tool/boolean_environment.c:7-8 | two letters have the same index exactly when they are equal |
| Environments.New | src/bool_tool/boolean_environment.c:10-14 | in a new environment every name is false |
| Environments.SetWordBits | src/bool_tool/boolean_environment.c:29-30 | after the 32-bit clear-and-or, bit `i` holds the value, each other bit below 32 is unchanged, and every bit from 32 up is cleared |
| Environments.Set | src/bool_tool/boolean_environment.c:22-31 | after `set(name, v)`, `get(name) == v`; every other name with index below 32 is unchanged; the word stays below 2^32 |
| Environments.HighNamesCleared | src/bool_tool/boolean_environment.c:16-20 | in an environment that `set` produced, a name of index 32 or more reads false |
| Expressions.Arity | src/bool_tool/boolean_expression.c:18-20 | negation has one operand; conjunction and disjunction have two |
| Expressions.OperandsArity | src/bool_tool/boolean_expression.c:80-100 | an operation has exactly as many operands as its arity, each smaller than the node; other expressions have none |
| Expressions.Clone | src/bool_tool/boolean_expression.c:80-100 | the clone is structurally equal to the original |
| Expressions.EvaluateWithoutEnvironment | src/bool_tool/boolean_expression.c:538-544 | evaluating with no environment is the same as evaluating in an environment where every name is false |
| Expressions.EvaluateAgrees | src/bool_tool/boolean_expression.c:530-582 | two environments that agree on the names of an expression give it the same value |
| Expressions.EvaluateConnectives | src/bool_tool/boolean_expression.c:545-579 | negation, conjunction and disjunction have their Boolean meaning; short-circuiting does not change the result |
| ExpressionParser.SkipSpaces | src/bool_tool/boolean_expression.c:109-111 | the cursor moves forward to the first character that is not a space |
| ExpressionParser.ParseConstant | src/bool_tool/boolean_expression.c:133-158 | a constant is true exactly when `strtol` reads a non-zero magnitude; when no digits are read, the result is `false` and nothing is consumed |
| ExpressionParser.ParseAtom | src/bool_tool/boolean_expression.c:104-161 | the cursor never moves back, and moves forward on `(` or a letter |
| ExpressionParser.Postfix | src/bool_tool/boolean_expression.c:182-197 | the postfix loop never moves the cursor back |
| ExpressionParser.ParsePrimary | src/bool_tool/boolean_expression.c:162-200 | the cursor never moves back, and moves forward when the input starts with `!`, `(` or a letter |
| ExpressionParser.FactorRest | src/bool_tool/boolean_expression.c:206-220 | the juxtaposition loop stays within the input and never moves back |
| ExpressionParser.ParseFactor | src/bool_tool/boolean_expression.c:201-223 | the parse stays within the input and never moves back |
| ExpressionParser.TermRest | src/bool_tool/boolean_expression.c:229-247 | the `&`/`*` loop stays within the input and never moves back |
| ExpressionParser.ParseTerm | src/bool_tool/boolean_expression.c:224-248 | the parse stays within the input and never moves back |
| ExpressionParser.ExpressionRest | src/bool_tool/boolean_expression.c:254-272 | the `|`/`+` loop stays within the input and never moves back |
| ExpressionParser.ParseExpression | src/bool_tool/boolean_expression.c:249-273 | the parser is total: it stays within the input and never moves back |
| Text.ScanInteger | src/bool_tool/boolean_expression.c:135 | the scan of `strtol`/`strtoumax` stays in the input; reading nothing gives magnitude 0; a non-empty scan ends on a digit |
| Text.Strtol | src/bool_tool/boolean_expression.c:135-139 | `strtol` clamps to the range of `long`, and it is zero exactly when the magnitude read is zero |
| Text.StrtoumaxValue | src/bool_tool/boolean_minterms.c:48 | `strtoumax` returns the magnitude read, saturates at `UINTMAX_MAX`, and returns 0 when it reads nothing |
| Text.Decimal | src/bool_tool/boolean_minterms.c:99 | the `%PRIu64` text is a non-empty run of digits whose value is the number |
| Text.IndexOf | src/bool_tool/boolean_variables.c:52 | a match that `strchr` finds lies at or after the start and holds the character searched for |
| Text.IndexOfFirst | src/bool_tool/boolean_variables.c:52 | `strchr` finds the first occurrence: no earlier position from the start holds the character, and finding nothing means no position from the start holds it |
| Text.IndexOfAt | src/bool_tool/boolean_minterms.c:58 | a position holding the character with none before it from the start is what `strchr` finds |
| Text.IndexOfNone | src/bool_tool/boolean_minterms.c:58-61 | with no occurrence from the start on, `strchr` finds nothing |
| Text.IndexOfShift | src/bool_tool/boolean_minterms.c:58 | `strchr` on the text with its first `k` characters cut off finds the same occurrence, `k` positions earlier |
| Text.ScanShift | src/bool_tool/boolean_minterms.c:48 | `strtoumax` on the text with its first `k` characters cut off reads the same sign and magnitude and stops `k` positions earlier |
| Text.ScanPrefix | src/bool_tool/boolean_minterms.c:48 | a scan is not changed by cutting the text at a character that is not white space, a sign or a digit, such as a comma |
| Text.SplitJoin | src/bool_tool/boolean_minterms.c:45-62 | the comma-separated items, joined again with commas, give back the text |
| Text.SplitAt | src/bool_tool/boolean_minterms.c:58 | from a position whose first comma is at `i`, the items are the text up to `i` followed by the items after it |
| Text.SplitRest | src/bool_tool/boolean_minterms.c:59-61 | with no comma from a position on, the rest of the text is a single item |
| Text.SplitLast | src/bool_tool/boolean_minterms.c:45 | the last item is empty exactly when the text is empty or ends in a comma |
| GrammarExamples.LetterPrimary | src/bool_tool/boolean_expression.c:127-132 | a letter not followed by `'` is a variable primary one character long |
| GrammarExamples.FactorStop | src/bool_tool/boolean_expression.c:211-219 | juxtaposition stops before anything that is not `!`, `(` or a letter |
| GrammarExamples.FactorStep | src/bool_tool/boolean_expression.c:211-216 | before `!`, `(` or a letter, the factor becomes the left operand of a conjunction with the next primary |
| GrammarExamples.TermStop | src/bool_tool/boolean_expression.c:234-246 | a term stops before anything other than `&` or `*` |
| GrammarExamples.TermStep | src/bool_tool/boolean_expression.c:235-244 | after `&` or `*`, the term becomes the left operand of a conjunction with the next factor |
| GrammarExamples.ExpressionStop | src/bool_tool/boolean_expression.c:259-271 | an expression stops before anything other than `|` or `+` |
| GrammarExamples.ExpressionStep | src/bool_tool/boolean_expression.c:260-269 | after `|` or `+`, the expression becomes the left operand of a disjunction with the next term |
| GrammarExamples.AtEnd | src/bool_tool/boolean_expression.c:186-273 | at the end of the input every loop stops with what it has |
| GrammarExamples.JuxtapositionBindsTighter | src/bool_tool/boolean_expression.c:201-248 | `a&bc` parses as `And(a, And(b, c))` |
| GrammarExamples.DisjunctionNestsLeft | src/bool_tool/boolean_expression.c:249-273 | `a+b+c` parses as `Or(Or(a, b), c)` |
| GrammarExamples.LetterTerm | src/bool_tool/boolean_expression.c:224-248 | a letter followed by `+` or `|` is a whole term |
| GrammarExamples.ConjunctionBindsTighter | src/bool_tool/boolean_expression.c:224-273 | `a|b&c` parses as `Or(a, And(b, c))` |
| GrammarExamples.PrefixTakesPostfix | src/bool_tool/boolean_expression.c:171-197 | `!a'` parses as `Not(Not(a))` |
| GrammarExamples.MissingParenthesis | src/bool_tool/boolean_expression.c:113-126 | `(a+b` parses as `Or(a, b)`: a missing `)` is tolerated |
| GrammarExamples.UnclosedParenthesis | src/bool_tool/boolean_expression.c:113-126 | for any text, an atom opened by `(` is the inner expression whether or not `)` follows, and without `)` the parse resumes after the inner expression and its trailing white space |
| GrammarExamples.NonZeroConstant | src/bool_tool/boolean_expression.c:133-158 | `10` parses as the constant true |
| GrammarExamples.ZeroConstant | src/bool_tool/boolean_expression.c:133-158 | `00` parses as the constant false |
| GrammarExamples.UnreadableConstant | src/bool_tool/boolean_expression.c:136-139 | `?` gives the constant false without consuming input |
| GrammarExamples.AtomAtEnd | src/bool_tool/boolean_expression.c:275-289 | an atom that spans the whole input is the parsed expression |
| RoundTrip.PrintedIsToString | src/bool_tool/boolean_expression.c:320-386 | the printer equals the grammar-directed text: a left or negated operand is bracketed iff its precedence is strictly lower than the parent's; a right operand iff it is lower or equal |
| RoundTrip.PrintShapes | src/bool_tool/boolean_expression.c:320-386 | constants print as `0`/`1` and variables as their letter; negation is a postfix `'`; `" * "` appears iff a conjunct is a constant; disjunction uses `" + "` |
| RoundTrip.ShapeAnd | src/bool_tool/boolean_expression.c:343-367 | a conjunction prints its left term, `" * "` only when a side is a constant, then its right operand as a primary |
| RoundTrip.ShapeOr | src/bool_tool/boolean_expression.c:352 | a disjunction prints its left side, `" + "`, then its right side as a term |
| RoundTrip.ReparsedMeaning | src/bool_tool/boolean_expression.c:201-248 | the left-nested regrouping that reparsing performs does not change the value |
| RoundTrip.PrintParse | src/bool_tool/boolean_expression.c:275-289 | for an expression with no conjunction whose right operand is a negated constant, parsing the printed text gives exactly the regrouped tree |
| RoundTrip.PrintParseMeaning | src/bool_tool/boolean_expression.c:391-410 | for such expressions, parsing the printed text gives an expression with the same value in every environment |
| RoundTrip.PrintedNegatedConstantIsLost | src/bool_tool/boolean_expression.c:345-350 | `And(a, Not(1))` prints as `a1'`, which parses back as `a` and evaluates differently |
| Variables.Clone | src/bool_tool/boolean_variables.c:9-20 | the clone has the same length and elements |
| Variables.Commas | src/bool_tool/boolean_variables.c:29-34 | the comma count is at most the remaining length |
| Variables.Capacity | src/bool_tool/boolean_variables.c:29-34 | the first loop computes the comma count plus one |
| Variables.ParseEmpty | src/bool_tool/boolean_variables.c:42-48 | a blank rest of the input adds no name |
| Variables.ParseNext | src/bool_tool/boolean_variables.c:42-56 | an item stores its first non-space character, and reading resumes after the next comma |
| Variables.ParseLast | src/bool_tool/boolean_variables.c:52-54 | with no comma after the item's first character, that character is the last name |
| Variables.ParseLength | src/bool_tool/boolean_variables.c:42-56 | at most the comma count plus one names are read |
| Variables.FromString | src/bool_tool/boolean_variables.c:28-59 | the loop stores exactly the names the item rule reads, at most commas + 1 of them, with no sorting or removal of duplicates; when no item before the last is blank, name `k` is the first non-space character of item `k` and a blank last item adds nothing |
| Variables.FirstName | src/bool_tool/boolean_variables.c:43-52 | an item that is not blank and ends at a comma gives its first non-space character, and reading resumes after that comma |
| Variables.LastName | src/bool_tool/boolean_variables.c:42-55 | with no comma left, the rest of the text gives its first non-space character, or nothing when it is blank |
| Variables.NamesOfLastItem | src/bool_tool/boolean_variables.c:42-55 | with no comma left, the names read match the one remaining item, and a blank item gives none |
| Variables.NamesOfFirstItem | src/bool_tool/boolean_variables.c:43-52 | when the items after a comma are read item by item, so are the items from a non-blank one before it |
| Variables.ItemNamesFrom | src/bool_tool/boolean_variables.c:42-56 | from any position where no item before the last is blank: one name per item of the rest of the text, less a blank last item |
| Variables.ItemNames | src/bool_tool/boolean_variables.c:42-56 | when no item before the last is blank: one name per item, in order, each the item's first non-space character, and none for a blank last item |
| Variables.EmptyItemTakesComma | src/bool_tool/boolean_variables.c:42-56 | `"a,,b"` gives `a` and `,`: the second item stores the next comma, and `b` is lost |
| Variables.BlankLastItem | src/bool_tool/boolean_variables.c:42-48 | `" ab , c, "` gives `a`, `c`: extra characters are ignored, and a trailing blank item adds nothing |
| Variables.ToString | src/bool_tool/boolean_variables.c:61-118 | the printed text is the names joined by `", "` |
| Variables.RoundTrip | src/bool_tool/boolean_variables.c:89-94 | reading back a printed list gives the list when no name is a space or a comma |
| Variables.Mark | src/bool_tool/boolean_variables.c:120-138 | the walk sets exactly the names of the expression, in addition to those already set |
| Variables.MarkOperands | src/bool_tool/boolean_variables.c:128-136 | walking the operands sets exactly the names of the operation |
| Variables.OrderedNames | src/bool_tool/boolean_variables.c:150-158 | the 52-index loop lists the set names in strictly ascending index order, each exactly once |
| Variables.VariablesOf | src/bool_tool/boolean_variables.c:139-162 | the variables are strictly ascending (a–z, then A–Z), exactly the names of the expression, one per name |
| Variables.FromExpression | src/bool_tool/boolean_variables.c:139-162 | the method returns the ascending list of exactly the names in the expression |
| Minterms.Clone | src/bool_tool/boolean_minterms.c:11-23 | the clone has the same length and values |
| Minterms.UnreadableItem | src/bool_tool/boolean_minterms.c:48-52 | an item `strtoumax` cannot read contributes 0 |
| Minterms.FromString | src/bool_tool/boolean_minterms.c:31-65 | the values the loop stores: value `k` is what `strtoumax` reads from item `k`; one value per comma-separated item, except that an empty last item (the text is empty or ends in a comma) gives none; at most commas + 1 of them |
| Minterms.FirstItem | src/bool_tool/boolean_minterms.c:48-61 | an item that ends at a comma gives what `strtoumax` reads from the item alone, and reading resumes after that comma |
| Minterms.LastItem | src/bool_tool/boolean_minterms.c:45-62 | with no comma left, the rest of the text gives the one value `strtoumax` reads from it, or nothing when it is empty |
| Minterms.ValuesOfLastItem | src/bool_tool/boolean_minterms.c:45-62 | with no comma left, the values read match the one remaining item, and an empty item gives none |
| Minterms.ValuesOfFirstItem | src/bool_tool/boolean_minterms.c:48-61 | when the items after a comma are read item by item, so are the items from the one before it |
| Minterms.ItemValuesFrom | src/bool_tool/boolean_minterms.c:45-62 | from any position: one value per item of the rest of the text, each what `strtoumax` reads from its item, less an empty last item |
| Minterms.ItemValues | src/bool_tool/boolean_minterms.c:45-62 | value `k` is what `strtoumax` reads from item `k` (0 for an empty or unreadable item), one per item, except that an empty last item gives none |
| Minterms.ToString | src/bool_tool/boolean_minterms.c:67-124 | the printed text is the decimals joined by `", "` |
| Minterms.RoundTrip | src/bool_tool/boolean_minterms.c:95-100 | reading back printed minterms gives the same list |
| Minterms.AssignmentValues | src/bool_tool/boolean_minterms.c:138-145 | for distinct variables, the environment of `i` sets `variables[k]` to bit `n-1-k` of `i` and every other name to false |
| Minterms.Assign | src/bool_tool/boolean_minterms.c:138-145 | the inner loop builds the environment of `i` |
| Minterms.TableBounded | src/bool_tool/boolean_minterms.c:137-150 | every recorded minterm is below the loop bound |
| Minterms.TableSorted | src/bool_tool/boolean_minterms.c:137-150 | the recorded minterms are strictly increasing |
| Minterms.TableMembers | src/bool_tool/boolean_minterms.c:137-150 | `x` is recorded iff `x` is below the bound and the expression is true under the environment of `x` |
| Minterms.Tabulate | src/bool_tool/boolean_minterms.c:137-150 | the truth-table loop records exactly the table |
| Minterms.FromExpression | src/bool_tool/boolean_minterms.c:126-155 | strictly ascending, each below 2^n, and `i` is listed iff the expression is true with the first variable as the most significant bit; a variable-free expression gives `[0]` or `[]` |
| Minterms.VariableFree | src/bool_tool/boolean_minterms.c:133-150 | with no variables, the minterms are `[0]` when the expression is true and none otherwise |
| Implicants.CoversBits | src/bool_tool/boolean_implicants.c:240 | `((value ^ m) & mask) == 0` holds iff `m` agrees with the value on every selected bit |
| Implicants.CombinableIff | src/bool_tool/boolean_implicants.c:8-22 | combinable iff the masks are equal and exactly one selected bit of the values differs |
| Implicants.DifferingBit | src/bool_tool/boolean_implicants.c:8-22 | combinable implicants have a differing bit |
| Implicants.CombinableSymmetric | src/bool_tool/boolean_implicants.c:8-22 | combinability is symmetric |
| Implicants.CombineMask | src/bool_tool/boolean_implicants.c:24-34 | the combination keeps the first value and removes exactly the differing bit from the mask, one fewer selected bit |
| Implicants.CombineCovers | src/bool_tool/boolean_implicants.c:24-34 | the combination covers a value iff one of the two implicants does |
| Implicants.CombinableGroups | src/bool_tool/boolean_implicants.c:170-193 | combinable implicants sit in neighbouring population-count groups |
| Implicants.ImplicantList.constructor | src/bool_tool/boolean_implicants.c:42-48 | a new list is empty |
| Implicants.ImplicantList.Add | src/bool_tool/boolean_implicants.c:50-72 | adding appends one element and leaves earlier ones unchanged |
| Tables.Empty | src/bool_tool/boolean_implicants.c:85-100 | `count` groups, all empty |
| Tables.NoFlags | src/bool_tool/boolean_implicants.c:85-100 | `count` groups of flags, all empty |
| Tables.InsertMembers | src/bool_tool/boolean_implicants.c:109-144 | insertion keeps every term in place and adds at most the new term, at the end of its group |
| Tables.InsertKeeps | src/bool_tool/boolean_implicants.c:109-144 | insertion never stores a duplicate `(value, mask)` and puts each term in the group of its population count |
| Tables.Table.constructor | src/bool_tool/boolean_implicants.c:85-100 | `table_new` makes `count` empty groups |
| Tables.Table.AddImplicant | src/bool_tool/boolean_implicants.c:109-144 | the term joins group `popcount(value & mask)` with a clear flag unless it is already there |
| Tables.Table.Reset | src/bool_tool/boolean_implicants.c:208-210 | every group becomes empty |
| Passes.RowOutput | src/bool_tool/boolean_implicants.c:173-193 | the inner loop only adds combinations to the output table, keeping it free of duplicates and grouped |
| Passes.ScanEmitted | src/bool_tool/boolean_implicants.c:196-201 | the terms emitted so far are exactly the earlier terms whose flag stayed clear |
| Passes.ScanNoDuplicates | src/bool_tool/boolean_implicants.c:196-201 | a pass over a table with no duplicates emits no duplicates |
| Passes.PassEmitted | src/bool_tool/boolean_implicants.c:170-203 | a pass emits exactly the terms that combined with no neighbour, each once |
| Passes.PassOutput | src/bool_tool/boolean_implicants.c:170-194 | the output table holds exactly the combinations of neighbouring terms, grouped and without duplicates |
| Passes.PassMinimized | src/bool_tool/boolean_implicants.c:166-183 | `minimized` stays set iff no two neighbouring terms combine |
| Tabulation.Initial | src/bool_tool/boolean_implicants.c:151-162 | the first table has one group more than there are variables |
| Tabulation.InitialTable | src/bool_tool/boolean_implicants.c:151-162 | the first table holds the term of each minterm once, in its group, and nothing else |
| Tabulation.PassLayered | src/bool_tool/boolean_implicants.c:170-194 | if every term of a pass selects `d` bits, every combination selects `d - 1` |
| Tabulation.PassSound | src/bool_tool/boolean_implicants.c:170-203 | a pass neither emits nor produces a term that covers a non-minterm |
| Tabulation.PassCovers | src/bool_tool/boolean_implicants.c:170-203 | a value covered before the pass is covered by the output table or by an emitted term |
| Tabulation.PassPrime | src/bool_tool/boolean_implicants.c:196-201 | an emitted term combines with no term of its pass |
| Tabulation.PassNext | src/bool_tool/boolean_implicants.c:205-211 | after a pass that combined something, the passes go on from its output table, one layer lower |
| Tabulation.MinimizedEmpty | src/bool_tool/boolean_implicants.c:166-211 | a pass that combines nothing leaves an empty output table |
| Tabulation.PassCount | src/bool_tool/boolean_implicants.c:166-211 | the do-while loop runs at most `n + 1` passes |
| Tabulation.PrimesLayers | src/bool_tool/boolean_implicants.c:166-211 | every emitted implicant selects bits below `n` only |
| Tabulation.PrimesSound | src/bool_tool/boolean_implicants.c:166-211 | no emitted implicant covers a value below 2^n that is not a minterm |
| Tabulation.PrimesCover | src/bool_tool/boolean_implicants.c:166-211 | every value covered by the first table is covered by an emitted implicant |
| Tabulation.PrimesNoDuplicates | src/bool_tool/boolean_implicants.c:166-211 | no implicant is emitted twice |
| Tabulation.FromMintermsCorrect | src/bool_tool/boolean_implicants.c:145-217 | for minterms below 2^n, every minterm is covered, every covered value below 2^n is a minterm, masks stay below 2^n, and there are no duplicates |
| PrimeImplicants.CombinePair | src/bool_tool/boolean_implicants.c:175-192 | both terms are flagged, and their combination is added to the output table |
| PrimeImplicants.CombineRow | src/bool_tool/boolean_implicants.c:173-194 | the innermost loop changes the tables as `Passes.Row` says |
| PrimeImplicants.ScanGroup | src/bool_tool/boolean_implicants.c:171-202 | the middle loop changes the tables and the prime list as `Passes.Scan` says |
| PrimeImplicants.Pass | src/bool_tool/boolean_implicants.c:168-204 | one pass appends the emitted terms to the prime list and fills the output table as `Passes.Done` says |
| PrimeImplicants.AddMinterms | src/bool_tool/boolean_implicants.c:154-162 | the input table becomes the table of the minterms, all flags clear |
| PrimeImplicants.Round | src/bool_tool/boolean_implicants.c:168-210 | one round of the do-while moves the remaining emissions onto the prime list or into the next layer |
| PrimeImplicants.Tabulate | src/bool_tool/boolean_implicants.c:166-211 | the do-while loop appends exactly the implicants the passes emit |
| PrimeImplicants.FromMinterms | src/bool_tool/boolean_implicants.c:145-217 | `boolean_implicants_from_minterms` returns a new list holding exactly the prime implicants the tabulation defines |
| Minimalize.Covering | src/bool_tool/boolean_implicants.c:239-244 | the factors of a minterm are exactly the indices of the implicants that cover it |
| Minimalize.CoveringBounds | src/bool_tool/boolean_implicants.c:239-244 | factor indices are in range; a covered minterm has at least one factor |
| Minimalize.CoveringAscending | src/bool_tool/boolean_implicants.c:239-244 | factors are listed in ascending index order |
| Minimalize.Frequencies | src/bool_tool/boolean_implicants.c:231-245 | one frequency per implicant |
| Minimalize.FrequencyMeaning | src/bool_tool/boolean_implicants.c:231-270 | a frequency is the number of minterms not yet processed that the implicant covers |
| Minimalize.BestOf | src/bool_tool/boolean_implicants.c:258-263 | the chosen factor has the greatest frequency among the factors |
| Minimalize.BestOfFirst | src/bool_tool/boolean_implicants.c:258-263 | among factors of equal greatest frequency, the lowest index is chosen |
| Minimalize.Factor | src/bool_tool/boolean_implicants.c:239-244 | the factor loop lists the covering implicants and increments exactly their frequencies |
| Minimalize.Tally | src/bool_tool/boolean_implicants.c:225-245 | the first loop nest computes every minterm's factors and the full frequencies |
| Minimalize.Absorbed | src/bool_tool/boolean_implicants.c:250-256 | `absorbed` holds iff some factor is already selected |
| Minimalize.MostFrequent | src/bool_tool/boolean_implicants.c:258-263 | the loop finds the best factor |
| Minimalize.Decrement | src/bool_tool/boolean_implicants.c:267-269 | decrementing the factors leaves the frequencies of the minterms after this one |
| Minimalize.Choose | src/bool_tool/boolean_implicants.c:249-265 | one step of the greedy loop updates the selection as the greedy rule says |
| Minimalize.Select | src/bool_tool/boolean_implicants.c:247-270 | the greedy loop ends with the selection the greedy rule defines |
| Minimalize.Compact | src/bool_tool/boolean_implicants.c:279-288 | the backward memmove loop keeps exactly the selected implicants, in order |
| Minimalize.Minimalize | src/bool_tool/boolean_implicants.c:219-291 | `minimalize` leaves exactly the implicants that the greedy cover selects |
| Minimalize.SkipRule | src/bool_tool/boolean_implicants.c:250-257 | a minterm already covered by a selected implicant changes nothing |
| Minimalize.ChooseRule | src/bool_tool/boolean_implicants.c:257-265 | otherwise the covering implicant with the greatest remaining frequency is selected, ties going to the lowest index |
| Minimalize.CoversCurrent | src/bool_tool/boolean_implicants.c:249-265 | after its step, a coverable minterm is covered by a selected implicant |
| Minimalize.MinimalCovers | src/bool_tool/boolean_implicants.c:249-270 | every processed minterm is covered by a selected implicant |
| Minimalize.KeepProperties | src/bool_tool/boolean_implicants.c:279-288 | compaction gives an order-preserving subsequence that contains every selected implicant |
| Minimalize.SubsequenceMembers | src/bool_tool/boolean_implicants.c:279-288 | every kept implicant was in the input list |
| Minimalize.ReducedCovers | src/bool_tool/boolean_implicants.c:219-291 | the result is an order-preserving subsequence of the input that still covers every minterm |
| Reconstruction.Literal | src/bool_tool/boolean_expression.c:480-483 | a literal is true iff its variable has the required polarity |
| Reconstruction.FromMinterm | src/bool_tool/boolean_expression.c:412-440 | the loop builds the conjunction of the literals of the minterm, the first one twice |
| Reconstruction.MintermPrefixMeaning | src/bool_tool/boolean_expression.c:418-437 | after `j` steps, the conjunction holds iff the first `j` variables match their bits |
| Reconstruction.MintermMeaning | src/bool_tool/boolean_expression.c:412-440 | for distinct variables, the term is true under the environment of `i` iff `i` and the minterm agree on bits below `n` |
| Reconstruction.MintermExact | src/bool_tool/boolean_expression.c:412-440 | for values below 2^n, the term is true under the environment of `i` iff `i` is the minterm |
| Reconstruction.FromMinterms | src/bool_tool/boolean_expression.c:441-462 | no minterms give `false`; otherwise the terms are joined by a left-nested disjunction in list order |
| Reconstruction.MintermsMeaning | src/bool_tool/boolean_expression.c:441-462 | under the environment of `i < 2^n`, the expression is true iff `i` is in the list |
| Reconstruction.FromImplicant | src/bool_tool/boolean_expression.c:464-506 | the loops build the conjunction of the literals of the selected positions |
| Reconstruction.ImplicantUpToNone | src/bool_tool/boolean_expression.c:470-478 | no literal has been built iff none of the positions seen so far is selected |
| Reconstruction.ImplicantShape | src/bool_tool/boolean_expression.c:464-506 | a zero mask gives `true`, and only then; only selected positions produce literals |
| Reconstruction.ImplicantMeaning | src/bool_tool/boolean_expression.c:464-506 | for distinct variables, true under the environment of `i` iff `((value ^ i) & mask) == 0` |
| Reconstruction.FromImplicants | src/bool_tool/boolean_expression.c:507-528 | no implicants give `false`; otherwise the terms are joined by a left-nested disjunction in list order |
| Reconstruction.ImplicantsMeaning | src/bool_tool/boolean_expression.c:507-528 | true under the environment of `i` iff some implicant of the list covers `i` |
| Functions.NewExpression | src/bool_tool/boolean_function.c:21-26 | tags the value as an expression holding its argument unchanged |
| Functions.NewMinterms | src/bool_tool/boolean_function.c:27-36 | tags the value as minterms holding both lists unchanged |
| Functions.Clone | src/bool_tool/boolean_function.c:5-19 | the clone keeps the representation tag, and its payload is the clone of each part |
| Functions.CloneEqual | src/bool_tool/boolean_function.c:5-19 | a clone equals the original, so cloning twice gives the same value |
| Minimizer.PrimesCover | src/bool_tool/application_window.c:67-69 | the prime implicants cover every minterm, as `minimalize` needs |
| Minimizer.KeptCorrect | src/bool_tool/application_window.c:67-69 | the kept implicants select bits below `n`, cover only minterms, and still cover all of them |
| Minimizer.CoveredListed | src/bool_tool/application_window.c:67-73 | a value below 2^n covered by a kept implicant is a minterm |
| Minimizer.ListedCovered | src/bool_tool/application_window.c:67-73 | every minterm is covered by a kept implicant |
| Minimizer.SimplifiedMeaning | src/bool_tool/application_window.c:67-73 | for distinct variables and minterms below 2^n, the output is true under the environment of `i < 2^n` iff `i` is a minterm |
| Minimizer.SimplifiedAgrees | src/bool_tool/application_window.c:55-73 | for an expression input, the output agrees with the input expression under each environment of its variables |
| Minimizer.SimplifyMinterms | src/bool_tool/application_window.c:67-73 | tabulation, then `minimalize`, then `from_implicants`, compute the simplified expression |
| Minimizer.Simplify | src/bool_tool/application_window.c:51-73 | both input forms give an expression with the meaning stated by the two lemmas above |

## Left out

- The GTK shell is user interface and not part of this model: `application.c`, `main.c`, the window code, and `boolean_function_input.c`. The model keeps only the composition at `application_window.c:51-73`. The label text, `boolean_expression_to_string` of the result, and the `drop` calls are left out.
- Memory management is left out because it is not behaviour: `malloc`, `realloc`, `free`, capacity doubling, every `*_drop` function, and the measure-then-write `snprintf` pattern. Printing is string concatenation.
- `stderr` diagnostics and the `errno` checks are side effects only, and they are dropped.
- Locale-dependent `ctype` behaviour is left out; everything assumes the "C" locale.
- Running time is not modelled.
- `boolean_status.h` is not part of this model: it has declarations only.
- Environments.Set: requires a name of index below 32 (a–z, A–F). Shifting the 32-bit `1U` by 32 or more is undefined behaviour in C.
- Variables.Mark, Variables.FromExpression: require names of index below 32, for the same reason.
- Variables.FromString: the item-by-item description holds only when no item before the last is blank. A blank inner item stores the comma that ends it, and the search for the next comma starts after that one, so the item that follows is skipped; for such texts the model states the loop's result through `Variables.Parse` and the worked example `Variables.EmptyItemTakesComma`, not item by item.
- Minterms.FromExpression: requires fewer than 32 variables, because `1U << n` is a 32-bit shift.
- Minterms.Assign, Minterms.Tabulate: require variable names of index below 32, because they set variables in an environment.
- Reconstruction.FromMinterm: requires at least one variable, because the source reads `data[0]` and shifts by `length - 1`.
- Reconstruction.FromMinterms: requires at least one variable when the list is not empty, for the same reason.
- Minimalize.Minimalize: requires every minterm to be covered by some implicant. Otherwise the source reads `factors[i].data[0]` past the end. The specification functions stay total and select nothing for such a minterm; that branch has no counterpart in the source.
- Tables.Table.AddImplicant: requires the group to exist, because the source fails its assertion otherwise. The model's `Insert` ignores such a term.
- PrimeImplicants.FromMinterms, Minimizer.SimplifyMinterms: require fewer than 64 variables, because `UINT64_C(1) << 64` is undefined behaviour.
- Tabulation.FromMintermsCorrect, Minimizer.SimplifiedMeaning, Minimizer.SimplifyMinterms: need minterms below 2^n. A larger minterm breaks the assumption, used in deduplication, that a term has no value bits outside its mask.
- Minimizer.Simplify: models variable names as letters only. A non-letter name in the minterm form (as `"a,,b"` can produce) is not modelled, because the environment has no index for it.
- RoundTrip.PrintParse, RoundTrip.PrintParseMeaning: hold only for expressions with no conjunction whose right operand is a negated constant. `RoundTrip.PrintedNegatedConstantIsLost` shows such an expression failing the round trip.
- PrimeImplicants.Round: resets the pass's input table before the two tables are exchanged. The source exchanges them first and then resets the old input. It is the same object in both cases, with the same effect.
- Minimalize.Tally: keeps the per-minterm factor lists as a sequence of sequences rather than an array of `malloc`ed buffers.
- Prime implicants are proved sound, complete, duplicate-free and uncombinable within their own pass. The model does not prove that no emitted implicant is contained in any other implicant of the function.

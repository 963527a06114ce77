# oxidize variable-assignment parser, in Dafny

oxidize is a `make` replacement written in Rust. The parsing logic in `src/parser.rs`
recognises one Makefile variable assignment, such as `foo=bar\n`. It is a chain of nom
parser combinators. Each one is a pure function from a byte slice to either an error or a
pair: the parsed value and the unconsumed rest of the input. This project models that chain
on `seq<byte>`. Every parser returns `Option<(value, rest)>`, where `None` stands for nom's
`Err`. The project also proves how the parsers decompose their input.

Files and modules:

- `options.dfy` (`Options`): the `Option` result and `OrElse`, nom's two-way `alt!`.
- `bytes.dfy` (`Bytes`): the `byte` newtype (0..255), standing for Rust's `u8`.
- `combinators.dfy` (`Combinators`): nom's `tag!`, `take_while1!` and the table form of `alt!`
  used by the operator parser (`FirstMatch`). It also holds the generic proofs about them:
  the run taken is maximal and unique, and a prefix-free table can be tried in any order.
- `parser.dfy` (`Parser`): the `Assignment` and `Variable` types, the six operator spellings,
  and `ParseAssignmentOp`, `LineEnding`, `IsVariableName`, `ParseVariableName`, `ParseToken`
  and `ParseVariable`.
- `parser_lemmas.dfy` (`ParserLemmas`): properties that tie the parsers together. These
  include operator order independence, exact consumption, the round trip of a rendered
  assignment line, and a characterisation of the inputs `ParseVariable` accepts.
- `parser_examples.dfy` (`ParserExamples`): the unit tests of `src/parser.rs`, restated as
  lemmas, and examples that show what the correction under Findings changes.
- `corrected_parser.dfy` (`CorrectedParser`): the variable parser with the correction
  described under Findings.

The code handles only a single-line assignment:

- There is no whitespace around the operator and no backslash continuation.
- A value is a single run of ASCII letters and digits (`parse_token`).
- Operators are tried in the order `=`, `+=`, `?=`, `!=`, `:=`, `::=`.
  `ParserLemmas.AssignmentOpOrderIrrelevant` proves that this order gives the same result as
  any other order.

Complete-input semantics: `tag!` on input shorter than its tag fails, and `take_while1!`
whose run reaches the end of the input succeeds with the whole input. nom's streaming mode
returns `Incomplete` in those cases instead. For `ParseVariable` the difference cannot show:
an operator follows the name and a line ending follows the value, so neither run ever
reaches the end of the input on a successful parse. `Options.Option.OrElse` is nom's two-way
`alt!` under these semantics: the second alternative is tried only when the first fails.

## Model

| member | source | states |
|---|---|---|
| Combinators.Tag | src/parser.rs:33-38 | `tag!` succeeds exactly when the tag starts the input and consumes exactly the tag |
| Parser.Tagged | src/parser.rs:33-38 | one `map!(tag!(text), \|_\| kind)` alternative succeeds exactly when the spelling starts the input, yields its kind and consumes exactly the spelling |
| Parser.ParseAssignmentOp | src/parser.rs:31-39 | succeeds exactly when one of the six operator spellings starts the input; on success the input is a spelling of the returned kind followed by the returned rest |
| ParserLemmas.ParseAssignmentOpExact | src/parser.rs:31-39 | for every spelling and anything after it, the parser returns that spelling's kind and leaves exactly what followed (`=` Recursive, `+=` Append, `?=` Conditional, `!=` Shell, `:=` and `::=` Simple) |
| ParserLemmas.OperatorsPrefixFree | src/parser.rs:33-38 | no operator spelling is a prefix of another one |
| ParserLemmas.ParseAssignmentOpIsFirstMatch | src/parser.rs:32-38 | the operator parser equals the first-match alternation over the operator table |
| ParserLemmas.AssignmentOpOrderIrrelevant | src/parser.rs:32-38 | trying the same six alternatives in any order gives the same result on every input |
| Combinators.FirstMatchUnique | src/parser.rs:32-38 | in a prefix-free table the alternation returns the entry whose text starts the input, wherever that entry stands |
| Combinators.FirstMatchNone | src/parser.rs:32-38 | the alternation fails when no entry's text starts the input |
| Combinators.OrderIrrelevant | src/parser.rs:32-38 | two tables with the same entries, one of them prefix-free, agree on every input |
| ParserExamples.AssignmentOpExamples | src/parser.rs:41-65 | the `test_op!` case: each operator followed by `" bar"` yields its kind and leaves `" bar"` |
| ParserExamples.AssignmentOpRejects | src/parser.rs:31-39 | input starting with a space, a lone `+`, or empty input is rejected |
| Parser.LineEnding | src/parser.rs:68-70 | succeeds exactly when the input starts with `"\r\n"` or `"\n"`, returns that ending and leaves the rest |
| ParserLemmas.LineEndingExact | src/parser.rs:68-70 | a line ending followed by anything is consumed exactly; `"\n"` is not mistaken for a failed `"\r\n"` |
| Parser.IsVariableName | src/parser.rs:74-87 | a byte is a name byte exactly when it is none of the nine bytes `:` `#` `=` `!` `?`, space, tab, CR, LF |
| ParserExamples.IsVariableNameExamples | src/parser.rs:89-103 | `?` and `#` are rejected; `2` and `a` are accepted |
| ParserLemmas.OperatorsStartAtNameStop | src/parser.rs:74-87 | every operator spelling starts with a name-ending byte, except `+=` |
| Parser.ParseVariableName | src/parser.rs:106-108 | succeeds exactly when the first byte is a name byte; returns the longest non-empty run of name bytes, and the rest is empty or starts with a name-ending byte |
| Combinators.Span | src/parser.rs:107 | the length of the leading run whose bytes all satisfy the predicate; the next byte, if any, fails it |
| Combinators.TakeWhile1 | src/parser.rs:107 | `take_while1!` succeeds exactly when the first byte satisfies the predicate, and returns a maximal non-empty run and the rest |
| Combinators.MaximalRunUnique | src/parser.rs:107 | any split of the input into a maximal run and the rest is the one `take_while1!` returns |
| ParserLemmas.VariableNameExact | src/parser.rs:106-108 | a name followed by a name-ending byte is returned whole, and the rest starts at that byte |
| ParserExamples.VariableNameExamples | src/parser.rs:128-130 | `"bar#"` leaves `"#"`, `"b?ar"` leaves `"?ar"`, `"b? ar"` leaves `"? ar"` |
| Parser.ParseToken | src/parser.rs:134-136 | succeeds exactly when the first byte is an ASCII letter or digit, and returns the maximal run of them and the rest |
| ParserLemmas.TokenExact | src/parser.rs:134-136 | an alphanumeric value followed by a line ending is taken whole, and the rest starts at the line ending |
| ParserExamples.TokenExample | src/parser.rs:138-152 | the token of `"foo=bar\n"` is `"foo"`, with rest `"=bar\n"` |
| Parser.ParseVariable | src/parser.rs:155-168 | on success the input is name ++ operator spelling ++ value ++ line ending ++ rest; the name has no name-ending byte, the spelling denotes the kind, and the value is non-empty and alphanumeric |
| Parser.AssembleLine | src/parser.rs:155-168 | for any name predicate, when the name run, the operator, the token and the line ending succeed in turn, the input is a line with well-formed parts followed by the rest |
| ParserLemmas.ParseVariableRoundTrip | src/parser.rs:155-168 | parsing a rendered well-formed line, whose operator is not `+=`, gives back the variable and leaves exactly what followed |
| ParserLemmas.AppendNeverParsed | src/parser.rs:155-168 | a parsed variable never has kind `Append` |
| ParserLemmas.ParseVariableCharacterised | src/parser.rs:155-168 | `ParseVariable` returns `(v, rest)` if and only if the input is a well-formed line for `v`, with an operator other than `+=`, followed by `rest` |
| ParserExamples.VariableExample | src/parser.rs:170-185 | `"foo=bar\n"` parses to name `foo`, kind `Recursive`, value `bar`, with nothing left |
| ParserExamples.PlusEqualsExample | src/parser.rs:155-168 | `"foo+=bar\n"` parses to name `foo+`, kind `Recursive`, value `bar` |
| ParserExamples.MissingLineEndingExample | src/parser.rs:155-168 | `"foo=bar"` with no line ending is rejected |
| ParserExamples.InteriorPlusExample | src/parser.rs:155-168 | `"foo+bar=bar\n"` parses to name `foo+bar`, kind `Recursive`, value `bar` |
| CorrectedParser.IsVariableName | src/parser.rs:74-87 | the corrected name predicate also rejects `+` |
| CorrectedParser.ParseVariable | src/parser.rs:155-168 | on success the input is a well-formed line, with no `+` in the name, followed by the rest |
| CorrectedParser.ParseVariableRoundTrip | src/parser.rs:155-168 | with the correction, the round trip holds for all six operators, `+=` included |
| CorrectedParser.ParseVariableCharacterised | src/parser.rs:155-168 | the corrected parser returns `(v, rest)` if and only if the input is a well-formed line for `v` followed by `rest` |
| CorrectedParser.AgreesWithoutPlus | src/parser.rs:155-168 | when the original parse succeeds with a name that has no `+`, the corrected parser gives the same result |
| ParserExamples.CorrectedAppendExample | src/parser.rs:155-168 | with the correction, `"foo+=bar\n"` parses to name `foo`, kind `Append`, value `bar` |
| ParserExamples.CorrectedInteriorPlusExample | src/parser.rs:155-168 | with the correction, `"foo+bar=bar\n"` is rejected |

## Left out

- nom's streaming `Incomplete` result is not modelled. The model uses complete-input semantics, and input that ends inside a token is a plain failure or a completed run, as described above.
- nom's error values (error kind and error position) are not modelled. Every failure is `None`.
- `nom::character::is_alphanumeric` is not part of this model. `Parser.IsAlphanumeric` states what it accepts: the ASCII digits and upper- and lower-case letters.
- Slices into the input buffer are modelled as sequence values. The contracts state that each one equals the corresponding part of the input.
- The `Target` enum in `src/parser.rs:24-28` is not modelled: nothing constructs or uses it.
- `src/types.rs` is not modelled. It only declares types, and nothing here builds its `Rule` or `Makefile`.
- `src/graph.rs` is not modelled. It only returns an empty graph from an external library, so there is no edge insertion or cycle detection to model.
- `src/main.rs` is not modelled. It is command-line handling, file reading and output printing, and it calls a `parse_makefile` entry point that `src/parser.rs` does not define.
- Rule, comment, recipe and whole-makefile parsing, whitespace around operators, continuation lines and multi-fragment values are absent from the code, so they are not modelled.

## Findings

| source | as written | input that shows it | evidently intended | confidence | as-written member | corrected member |
|---|---|---|---|---|---|---|
| src/parser.rs:74-87 | `+` is a variable-name byte, so the name run takes the `+` of `+=`, and the operator parser then sees only `=` | `foo+=bar\n` parses as name `foo+`, kind `Recursive`; no input ever yields `Append` | the predicate already excludes `?` and `!` because they clash with the operators; `+` should be excluded for the same reason, so that `foo+=bar\n` is an `Append` to `foo`. The cost: a name can no longer hold `+` anywhere, so `foo+bar=bar\n`, whose name is `foo+bar` as written, is rejected (`ParserExamples.CorrectedInteriorPlusExample`) | high; not executed | ParserLemmas.AppendNeverParsed | CorrectedParser.ParseVariableRoundTrip |

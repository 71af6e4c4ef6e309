# numeric-lut in Dafny

A model of `lut!`, the procedural macro of the `numeric-lut` crate. The macro
takes a closure-like invocation `|x @ 0..8, y @ 0..=16| -> u32 { body }`. It
checks that every parameter is an identifier with an integer-literal range.
It then emits a `static` nested array that holds the body's value for every
combination of parameter values, the array type of that static, and a closure
`|x: usize, y: usize| __LUT[x][y]` that reads a cell.

Modules, in pipeline order:

- `Wrappers` (wrappers.dfy): `Option` and `Result`.
- `Params` (params.dfy): the pattern shapes, the diagnostics, `Param`, `Param::from_pat` / `from_pat_ident` (`FromPat`, `FromPatIdent`) and the element count of a range.
- `Parser` (parser.dfy): the grammar as a function (`ParseSpec`), the token loop of `Lut::parse` as a method (`Parse`) proved equal to it, and the written form of an invocation (`Render`). Lemmas show that parsing inverts writing, up to the optional trailing comma, which parsing does not keep, and that it accepts exactly the written forms.
- `Tables` (tables.dfy): `generate_array`, the reversed folds that build the table data and its type, and the cell law.
- `Accessor` (accessor.dfy): the closure's parameter list, the forward fold that builds `__LUT[p0][p1]...`, and what evaluating it reads.
- `Macro` (macro.dfy): `lut` end to end (`LutMacro`), calling the emitted closure (`Call`), and the scenarios of tests/simple.rs.

The return type and the body are opaque fragments. The type is a type
parameter `R`. The body is a function from the constants in scope (`Env`, a
map from names to values) to its value. Each `{ const x: usize = n; ... }`
block of the generated table is an update of that map. An inner block, which
belongs to a later parameter, overrides an outer one. A run-time
out-of-bounds panic is `None`.

Three edge cases are settled by the code as written, and the model follows it:

- Equal bounds are accepted. The check at src/lib.rs:153 rejects only `hi < lo`, although its message says "must be less than". So `x @ 5..5` yields a dimension of length 0, and every call of its accessor panics (`Macro.EmptyRangeAlwaysPanics`).
- An empty parameter list `||` is accepted. The table is then the bare body value, its type is the return type, and the closure takes no argument (`Macro.ZeroParameters`).
- A comma after the last parameter is accepted.

## Model

| member | source | states |
|---|---|---|
| `Params.Count` | src/lib.rs:82-86 | the count is exactly the number of values in the Rust range: `v` is in `lo..hi` (or `lo..=hi`) iff `lo <= v < lo + count` |
| `Params.FromPat` | src/lib.rs:114-123 | an accepted pattern yields a `Param` with `lo <= hi <= usize::MAX` whose written form is exactly the pattern, so the identifier, `lo`, `hi` and the range kind are preserved |
| `Params.FromPatIdent` | src/lib.rs:125-190 | on the `name @ subpat` branch, acceptance yields a valid `Param` spelled `name @ subpat` |
| `Params.FromPatToPat` | src/lib.rs:136-165 | every valid parameter is accepted back from `name @ lo..hi` / `name @ lo..=hi` |
| `Params.FromPatExactly` | src/lib.rs:114-190 | `FromPat(pat) == Ok(p)` iff `p` is valid and `pat` is `p` written out |
| `Params.RejectionCases` | src/lib.rs:116-187 | non-identifier pattern, missing `@ range`, non-range sub-pattern, non-literal lower or upper bound, and a lower or upper literal too large for `usize` each give their own diagnostic; with literal `usize` bounds the result is `InvertedRange(lo, hi)` iff `hi < lo`, and otherwise the `Param` with those bounds and range kind |
| `Params.RangeKind` | src/lib.rs:156-159 | `..` gives `exclusive_end = true` and count `hi - lo`; `..=` gives `false` and count `hi - lo + 1` |
| `Parser.ParamList` | src/lib.rs:197-209 | an accepted parameter list ends at a closing `|` and holds only valid parameters |
| `Parser.ParseSpec` | src/lib.rs:194-230 | every parameter of an accepted invocation is valid |
| `Parser.Parse` | src/lib.rs:194-230 | the token loop returns exactly what the grammar `ParseSpec` gives, including which diagnostic comes first |
| `Parser.ValidateAll` | src/lib.rs:202 | validating the patterns in order succeeds iff each pattern is accepted; the parameters are then in pattern order; otherwise the error is that of the first rejected pattern |
| `Parser.ParseRendered` | src/lib.rs:197-211 | parsing `\| p0, ..., pn [,] \| -> T { b }` gives the parameters in source order, with or without a trailing comma, and for an empty list too, or else the first pattern's diagnostic |
| `Parser.ParseSpecExactly` | src/lib.rs:194-230 | an invocation is accepted with result `l` iff it is the written form of patterns that validate to `l.params`, followed by `l`'s type and body |
| `Tables.GenerateArrayEnumerates` | src/lib.rs:98-111 | one dimension has `count` elements in ascending order: element `k` binds the parameter to `lo + k`, which lies in the range; each value `v` of the range sits at position `v - lo` |
| `Tables.TableFoldIsNest` | src/lib.rs:56-62 | the reversed fold over the parameters nests the arrays with the first parameter outermost |
| `Tables.CellLaw` | src/lib.rs:56-62 | indexing the table data with in-bounds indices gives the body evaluated with each parameter bound to `lo_k + idx[k]`; any index at or past its dimension's length panics |
| `Tables.LutTypeDims` | src/lib.rs:77-88 | the folded array type has one level per parameter, outermost first, each as long as the parameter's count |
| `Tables.FoldsAgree` | src/lib.rs:56-88 | the table fold and the type fold advance in step: each stage of the data has the type of the matching stage of the type |
| `Tables.TableHasLutType` | src/lib.rs:91 | `static __LUT: lut_type = table_data` is well typed: every array has its declared length and every cell is at the element type |
| `Accessor.Names` | src/lib.rs:72-75 | the closure takes one argument per parameter, named after it, in declaration order |
| `Accessor.AccessFoldEval` | src/lib.rs:64-70 | `__LUT[p0][p1]...` indexes with the arguments' values in declaration order |
| `Accessor.ArgsAt` | src/lib.rs:92 | with distinct names, each closure parameter holds the argument passed in its position |
| `Accessor.AccessorIndexes` | src/lib.rs:64-75 | calling the closure with `vals` reads `Lookup(table, vals)` |
| `Macro.AccessorLaw` | src/lib.rs:53-96 | the emitted closure returns the body evaluated with each parameter bound to its low bound plus its argument, and panics when an argument is out of its dimension |
| `Macro.LutMacro` | src/lib.rs:53-96 | `lut` fails exactly when parsing fails, with the parser's diagnostic; otherwise its output is well typed, has the dimensions of the parameters, and obeys the accessor law |
| `Macro.SwapOrder` | src/lib.rs:64-70 | declaring `(x, y)` and calling `(a, b)` reads the same value as declaring `(y, x)` and calling `(b, a)` |
| `Macro.ZeroParameters` | src/lib.rs:198-200 | `\|\| -> T { b }` parses to no parameters; the table is the bare body value, its type the return type, and the closure takes no argument |
| `Macro.EmptyRangeAlwaysPanics` | src/lib.rs:153-155 | an exclusive range with equal bounds is accepted and makes every call of the accessor panic |
| `Macro.ScenarioParses` | tests/simple.rs:7 | the test invocations parse to `x @ 0..8, y @ 0..16` and `x @ 0..=8, y @ 0..=16` in that order |
| `Macro.ScenarioCells` | tests/simple.rs:13-41 | the test tables are 8 by 16 and 9 by 17, every in-range cell `(x, y)` holds `x + y`, and every other index panics |
| `Macro.ScenarioTests` | tests/simple.rs:5-48 | `lut(3, 10) == 13`, inclusive `lut(8, 16) == 24`, and `lut(10, 3)` and `lut(8, 0)` panic |
| `Macro.BadRange` | tests/simple.rs:50-56 | `x @ 8..0` is rejected with both bounds before anything is emitted |

## Left out

- Token plumbing of `syn`, `quote` and `proc_macro`: the conversion of `TokenStream`s, spans and the text of the emitted code. Tokens are the abstract `Parser.Token`, and the output is the `Macro.Expansion` datatype.
- The pattern, type and block grammars of `syn`. The model sees one `PatTok` per pattern, one `TypeTok` and one `BlockTok`. Anything else where a pattern is expected is a structural error.
- The commas pushed with `push_punct`. They are not kept, because `lut` only reads the values of the `Punctuated` list.
- Diagnostic texts and spans. Only the kind of each error is modelled.
- `base10_parse`: a literal is given by its decimal value. Suffixes are not modelled. The overflow error of `usize` parsing is modelled as `LiteralOverflow`, for a 64-bit `usize`.
- Params.Count: the count is an unbounded integer. In the source `hi - lo + 1` is a `usize` and overflows for `0..=usize::MAX`, a table far too large to build.
- The evaluation of the body by the Rust compiler. The body is any function of the constants in scope. Its own arithmetic, for example the `u32` addition in the tests, is not modelled; the test values are small.
- Macro hygiene and the `#[allow(non_upper_case_globals)]` attribute. Shadowing is a map update, so a later parameter overrides an earlier one.
- Generated code that the Rust compiler rejects. The source does not check for it, and the model still gives the accessor a value in these cases:
  - Duplicate parameter names. A closure that binds a name twice does not compile, so the accessor lemmas require distinct names.
  - A parameter named `__LUT`. The closure parameter would shadow the static table. In the model the table reference `LutRef` is its own constructor, so no name collides with it.
  - A return type that is not `Copy`. `__LUT[x][y]` would move a value out of a static. The model reads the cell as a value.
- Binding modes. The `ref` and `mut` of an identifier pattern are ignored by the source, and the model has no place for them: `mut x @ 0..8` is the pattern `Ident("x", ...)`.
- Tokens left after the body. `parse_macro_input!` rejects them, and the model reports `TrailingInput`.
- The panic message of an out-of-bounds index. The panic itself is `None`.

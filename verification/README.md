# minigrep line filters in Dafny

A model of the library of `minigrep`, a small command-line tool that prints
the lines of a file containing a query string. The only logic in it is two
line filters and one configuration rule:

- `search` cuts the file contents into lines with Rust's `str::lines` and
  keeps, in order, every line that contains the query as a substring.
- `search_case_insensitive` does the same, but tests containment on
  lowercased copies of both the line and the query. It returns the original
  lines, not the lowercased copies.
- `Config::new` keeps the `-i`/`--ignore-case` flag when it is set. When the
  flag is not set, it turns case-insensitive search on if reading the
  `CASE_INSENSITIVE` environment variable succeeds.
- `run` picks one of the two filters according to that flag.

Modules (one file each):

- `Text` (`text.dfy`): the substring test `Contains`, the ASCII lowercase map
  `Lower`, and the subsequence relation `Subseq`.
- `LineSplit` (`lines.dfy`): `Lines`, the model of `str::lines`. Its inverses
  `Unlines` (every line terminated) and `Join` (no final terminator) come
  with round-trip lemmas.
- `Grep` (`grep.dfy`): one filter `Select`, parameterised by a `Mode`.
  `Search` and `SearchCaseInsensitive` are built on it. The methods
  `SearchLoop` and `SearchCaseInsensitiveLoop` mirror the source's `for`
  loops and are proved equal to the filters.
- `Cli` (`cli.dfy`): the `Config` record, the ignore-case resolution `New`,
  and the choice `run` makes between the filters (`Results`).
- `Scenarios` (`scenarios.dfy`): the two unit tests of `src/lib.rs`, stated
  as lemmas.

The filters are specified without reference to their own bodies. The
result is a subsequence of `Lines(contents)`. Every line that passes the
test occurs in it exactly as often as in the contents, and no other line
occurs in it (`SameHits`). `SelectUnique` proves that these two facts fix
the result completely. So a line with several occurrences of the query
appears once, and two equal matching lines both appear.

## Model

| member | source | states |
|---|---|---|
| Text.Contains | src/lib.rs:52 | a match implies the query is no longer than the line; the empty query is contained in every line |
| Text.ContainsIffOccurs | src/lib.rs:52 | the left-to-right scan succeeds exactly when the query occurs at some index of the line |
| Text.ContainsLower | src/lib.rs:63 | a case-sensitive match is still a match once line and query are both lowercased |
| Text.Lower | src/lib.rs:60-63 | lowercasing keeps the length; each ASCII capital `A`-`Z` becomes its lowercase letter `a`-`z`, no capital is left, and every other character stays where it was |
| Text.LowerNoUpper | src/lib.rs:60 | a lowercased copy has no ASCII `A`-`Z`, and a string is its own lowercase copy exactly when it has none |
| Text.LowerIdempotent | src/lib.rs:60 | lowercasing twice gives the same string as lowercasing once |
| LineSplit.Lines | src/lib.rs:51 | no returned line contains a line feed; empty contents have no lines and non-empty contents have at least one |
| LineSplit.LinesUnlines | src/lib.rs:51 | splitting lines that each end in "\n" gives back the lines, if no line has a line feed inside or a carriage return at its end |
| LineSplit.UnlinesLines | src/lib.rs:51 | re-terminating the lines of text gives the text back, if the text has no carriage return and is empty or ends in a line feed |
| LineSplit.LinesJoin | src/lib.rs:51 | lines joined with single line feeds split back into the same lines, including a last line without a terminator, when the last line is non-empty and no earlier line ends in a carriage return |
| LineSplit.StripCR | src/lib.rs:51 | one carriage return is removed from a cut piece exactly when the piece ends in one; otherwise the piece is unchanged |
| LineSplit.LinesConsCRLF | src/lib.rs:51 | a line followed by "\r\n" is split off without either terminator character, even when the line ends in a carriage return of its own |
| LineSplit.LinesUnlinesCRLF | src/lib.rs:51 | lines each ended by "\r\n" split back into the same lines, for any lines without a line feed |
| LineSplit.FinalNewlineOptional | src/lib.rs:51 | a final line feed after an ordinary last character adds no empty line |
| Grep.Hit | src/lib.rs:52-63 | a line that contains the query passes the test of either mode, and the empty query passes every line (in case-insensitive mode this holds for the ASCII map only, as for Text.ContainsLower) |
| Grep.SelectSound | src/lib.rs:51-55 | the filter keeps the lines in their original order, and every kept line passes the test |
| Grep.SelectCounts | src/lib.rs:51-55 | every line that passes the test is kept as often as it occurs, and every other line is dropped |
| Grep.SelectUnique | src/lib.rs:51-55 | any in-order selection of the lines with those counts is the filter's result |
| Grep.Search | src/lib.rs:49-57 | `search` returns an in-order selection of the lines; each line in it contains the query; each line containing the query is in it as often as in the contents |
| Grep.SearchCaseInsensitive | src/lib.rs:59-68 | the same with the test "lowercased line contains lowercased query"; the returned lines are the original lines of the contents |
| Grep.SearchCharacterised | src/lib.rs:49-57 | a sequence is the result of `search` if and only if it is such an in-order selection with those counts |
| Grep.SearchCaseInsensitiveCharacterised | src/lib.rs:59-68 | the same if-and-only-if for `search_case_insensitive` |
| Grep.SearchLoop | src/lib.rs:49-57 | the imperative loop that pushes each matching line computes `Search` |
| Grep.SearchCaseInsensitiveLoop | src/lib.rs:59-68 | the loop that lowercases the query once, before scanning, computes `SearchCaseInsensitive` |
| Grep.SelectSnoc | src/lib.rs:51-55 | one more line at the end of the input adds that line at the end of the output exactly when it passes the test |
| Grep.EmptyQueryKeepsAll | src/lib.rs:51-52 | an empty query returns every line of the contents, in both modes |
| Grep.EmptyContents | src/lib.rs:51 | empty contents give an empty result for every query, in both modes |
| Grep.SensitiveWithinInsensitive | src/lib.rs:49-68 | the case-sensitive result is a subsequence of the case-insensitive result for the same query and contents |
| Grep.LowercaseInputsAgree | src/lib.rs:49-68 | when the query and every line have no ASCII `A`-`Z`, both searches return the same lines |
| Grep.QueryCaseIrrelevant | src/lib.rs:60-63 | `search_case_insensitive` gives the same result for a query and for its lowercase copy |
| Cli.New | src/lib.rs:22-30 | query and file name are kept; ignore-case is on exactly when the flag is set or reading the variable succeeds |
| Cli.FlagIgnoresEnvironment | src/lib.rs:25-26 | with the flag set, the environment is not consulted: the result is the parsed configuration whatever the variable holds |
| Cli.UnsetVariableKeepsParsed | src/lib.rs:25-26 | with the variable absent, the parsed configuration is returned unchanged |
| Cli.EmptyValueEnables | src/lib.rs:25-26 | with the flag off, a variable set to any value, the empty string included, turns ignore-case on |
| Cli.Results | src/lib.rs:36-40 | the lines `run` prints are the in-order selection of the lines that match in the mode the configuration selects, with their counts |
| Scenarios.CaseSensitiveExample | src/lib.rs:74-80 | "duct" over the four-line poem returns exactly "safe, fast, productive." |
| Scenarios.CaseInsensitiveExample | src/lib.rs:82-87 | "rUsT" over the second poem returns exactly "Rust:" and "Trust me.", with their original capitals |

## Left out

- Argument parsing with `clap::Parser` (src/lib.rs:6-24) is a foreign
  library. The model starts from the parsed `Config` and covers only the
  ignore-case rule applied to it.
- The environment lookup `env::var` (src/lib.rs:26) reads process state.
  Its outcome is passed in as a `VarResult`.
- Reading the file and printing the lines in `run` (src/lib.rs:33-47) are
  I/O, and so is all of `src/main.rs`: the argument echo, the error message
  and the exit status. Only the pure choice of filter in `run` is modelled.
- Text.Lower: the map is ASCII-only (`A`-`Z` to `a`-`z`, one character
  for one character, each independently of its neighbours). Rust's
  `to_lowercase` follows the Unicode tables, also maps letters such as `É`,
  and depends on context: a capital sigma at the end of a word becomes a
  final sigma.
- Text.ContainsLower: holds for the per-character ASCII map only. With
  Rust's `to_lowercase`, `"ΑΣ"` contains `"Σ"`, but `"ας"` does not contain
  `"σ"`.
- Grep.Hit: that a line containing the query passes the case-insensitive
  test is the `Text.ContainsLower` fact, so it too holds for the ASCII map
  only.
- Grep.SensitiveWithinInsensitive: holds for the ASCII map only. For the
  same reason, in the program `search("Σ", "ΑΣ")` returns `["ΑΣ"]` while
  `search_case_insensitive("Σ", "ΑΣ")` returns nothing.
- Grep.LowercaseInputsAgree: its condition rules out only ASCII capitals.
  In the program, the query `"é"` and the line `"É"` still make the two
  searches differ.
- Strings are sequences of Unicode characters. Rust matches `&str` patterns
  on UTF-8 bytes. For valid UTF-8 both give the same answer, so nothing is
  lost.
- The results of `search` borrow slices of `contents`. The model returns
  equal strings and does not model the lifetimes.
- Highlighting of matches does not exist in the source, so it is not
  modelled.

## Notes

- The case-insensitive override tests `env::var("CASE_INSENSITIVE")`
  for an error. `env::var` fails both when the variable is absent and when
  its value is not valid Unicode. A present but non-Unicode value therefore
  leaves the search case-sensitive (`Err(NotUnicode)`).
- `Lines` follows the current `str::lines` of the Rust standard library. It
  cuts after each `'\n'` and then removes that `'\n'` and at most one `'\r'`
  in front of it. A `'\r'` at the very end of text with no `'\n'` after it
  is kept. Older releases of the standard library removed that last `'\r'`
  as well.

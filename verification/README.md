# minigrep, modelled in Dafny

A model of the core of `minigrep`, a small command-line text search. The
program resolves a configuration from its arguments, the `IGNORE_CASE`
environment variable and whether standard input is a terminal: the
arguments give the query and, when standard input is a terminal, the file
to read; the environment variable decides whether case is ignored. It then
reads the text and prints, in order and unchanged, every line that contains
the query (ignoring case when `IGNORE_CASE` is set).

The model covers the two pieces of logic in `src/lib.rs`:

- **Configuration resolution** (`Config::build`, `Config::check_args_count`,
  the `Config` struct and the `TextSource` enum), in `configuration.dfy`.
  With standard input redirected the text comes from standard input and
  two arguments are required; with standard input a terminal the text
  comes from the file named by the third argument and three are required.
  The query is the second argument, and case is ignored exactly when the
  `IGNORE_CASE` environment variable is set to a valid-Unicode value
  (`env::var` succeeds). A short argument list
  fails with `not enough arguments. Required N but got M`; the model
  renders both numbers in decimal (`decimal.dfy`) and proves that both can
  be read back from the message.
- **Line search** (`search`), in `search.dfy`, on top of the string
  primitives in `text.dfy`: Rust's `str::lines`, lowercasing, and substring
  containment. `LineSearch.Search` follows the source loop. The ghost
  function `LineSearch.Select` is the reference result it is proved equal
  to. `LineSearch.IsSelection` characterises that result independently:
  the matching lines, and only those, at strictly increasing positions.

`scenarios.dfy` proves the repository's two unit tests, an example of line
splitting and a few argument resolutions about the model.

The two pieces of process state `Config::build` reads are parameters of
`Configuration.Build`. `stdinIsTty` stands for the negation of
`atty::isnt(Stream::Stdin)`. `ignoreCaseVarPresent` stands for
`env::var("IGNORE_CASE").is_ok()`.

Line splitting follows the documented behaviour of Rust's `str::lines`,
which the source calls. A carriage return is removed only when it comes
directly before a line feed. A carriage return at the very end of an
unterminated last line stays part of that line. A looser reading is "strip
one trailing carriage return from every piece"; it differs from this only
on that last line.

## Model

| member | source | states |
|---|---|---|
| Configuration.CheckArgsCount | src/lib.rs:74-79 | fails exactly when there are fewer arguments than required, and the failure message names both the required and the actual count (they parse back out of it) |
| Decimal.FromNat | src/lib.rs:76 | the `{}` rendering of a count is a non-empty string of decimal digits with no leading zero (its value is stated by `ToNatFromNat`) |
| Configuration.ArgCountMessage | src/lib.rs:76 | the message `not enough arguments. Required {} but got {}` determines both numbers: parsing it returns the required and the actual count |
| Decimal.ToNatFromNat | src/lib.rs:76 | the decimal rendering `{}` of a count reads back as that count |
| Decimal.FromNatToNat | src/lib.rs:76 | a numeral without leading zeros is the rendering `{}` of the number it denotes, so each count has exactly one spelling |
| Configuration.ArgCountMessageExact | src/lib.rs:76 | a string parses to two counts iff it is exactly the message `not enough arguments. Required {} but got {}` of those counts, so the failure contracts of `CheckArgsCount` and `Build` fix the message text |
| Configuration.Build | src/lib.rs:61-72 | succeeds iff there are at least 2 arguments (standard input redirected) or at least 3 (standard input a terminal); on success the query is `args[1]`, case is ignored iff `IGNORE_CASE` is set to a valid-Unicode value (`env::var` succeeds), and the source is `Stdin` iff standard input is redirected, otherwise `File(args[2])`; on failure the message reports the required and the actual count; `args[1]` and `args[2]` are read only after the count check |
| Configuration.BuildIgnoresExtraArguments | src/lib.rs:62-69 | appending further arguments to a successful argument list changes neither success nor the configuration |
| Configuration.BuildFileNeedsMore | src/lib.rs:62-68 | whenever reading a file resolves, reading standard input resolves too, with the same query; with exactly two arguments only standard input resolves |
| Scenarios.BuildScenarios | src/lib.rs:61-72 | `["prog", "query"]` with redirected input gives the `Stdin` configuration; `["prog"]` fails on either branch; a terminal with three arguments reads the named file |
| Text.Lines | src/lib.rs:36 | no line that the text is split into contains a line feed |
| Text.LinesCount | src/lib.rs:36 | a text has one line per line feed, plus one when it is non-empty and does not end with a line feed |
| Text.LinesOfUnlines | src/lib.rs:36 | lines that hold no line feed and do not end in a carriage return, written out each followed by a line feed, split back into the same lines, whatever follows them |
| Text.LinesOfUnlinesCrlf | src/lib.rs:36 | lines without line feeds written out with `\r\n` endings split back into the same lines, whatever follows them, so exactly one carriage return goes with each line feed |
| Scenarios.LineEndingsScenario | src/lib.rs:36 | `foo\r\nbar\n\nbaz\r` splits into `foo`, `bar`, an empty line, and `baz\r`: a carriage return goes only with a following line feed |
| Text.UnlinesOfLines | src/lib.rs:36 | a text in which no carriage return stands right before a line feed is its lines joined back with line feeds, up to one final line feed |
| Text.Lower | src/lib.rs:32-38 | lowercasing keeps the length and maps each character on its own: capitals `A`-`Z` to their lowercase letters, every other character unchanged |
| Text.LowerNormalises | src/lib.rs:37-38 | lowercasing leaves no ASCII capital `A`-`Z`, is idempotent, and leaves a string unchanged iff it has no ASCII capital `A`-`Z` |
| Text.Contains | src/lib.rs:42 | the containment test is true iff the query occurs in the line at some position |
| Text.LowerKeepsSubstring | src/lib.rs:42 | for the per-character lowercase, an occurrence of the query in a line stays an occurrence after both are lowercased |
| LineSearch.Search | src/lib.rs:29-47 | the result is the reference selection of the lines of the text; every line returned is an original line of the text and contains the normalised query once normalised itself; a line of the text is in the result iff it matches, and with case respected iff it contains the query as given |
| LineSearch.SelectMembership | src/lib.rs:36-44 | a line of the input is selected iff it matches the query |
| LineSearch.SelectSound | src/lib.rs:36-44 | every selected line is a line of the input and matches the query |
| LineSearch.SelectIsSelection | src/lib.rs:36-46 | the result picks input lines at strictly increasing positions, and a position is picked iff its line matches (complete, in order, not deduplicated) |
| LineSearch.SelectionIsSelect | src/lib.rs:36-46 | any order-preserving pick of exactly the matching lines equals the result |
| LineSearch.SelectCharacterised | src/lib.rs:29-47 | a sequence is the search result iff it is an order-preserving pick of exactly the matching lines |
| LineSearch.EmptyQueryKeepsAll | src/lib.rs:42 | an empty query keeps every line, in order, in either case mode |
| LineSearch.CaseSensitiveIsPlainSubstring | src/lib.rs:33-42 | with case respected a line is kept iff the raw query is a substring of the raw line |
| LineSearch.IgnoringCaseKeepsMore | src/lib.rs:31-42 | for the per-character lowercase, every line the case-sensitive search keeps, the case-insensitive search keeps as often (multiset inclusion) |
| LineSearch.IgnoringCaseQueryCaseIrrelevant | src/lib.rs:31-32 | when case is ignored, queries with the same lowercase form give the same result |
| LineSearch.SelectAppend | src/lib.rs:36-45 | searching two lists of lines one after the other gives the two results concatenated, so whether a line is kept depends on that line alone |
| Scenarios.CaseSensitiveScenario | src/lib.rs:86-97 | query `duct` with case respected keeps only `safe, fast, productive.` and not `Duct tape.` |
| Scenarios.CaseInsensitiveScenario | src/lib.rs:99-113 | query `rUsT` with case ignored keeps `Rust:` and `Trust me.`, in that order and with their own capitals |
| Scenarios.CaseRespectedScenario | src/lib.rs:31-42 | the same query `rUsT` with case respected keeps none of those four lines |
| Scenarios.SearchScenarios | src/lib.rs:86-113 | running `Search` on the two test texts returns exactly the lines the tests expect |

## Left out

- `run` and `read_from_source` (src/lib.rs:6-26): reading standard input or a file, printing the matches with `println!`, and propagating `Box<dyn Error>` are I/O. So are read failures and invalid UTF-8.
- `atty::isnt(Stream::Stdin)` and `env::var("IGNORE_CASE")` (src/lib.rs:62, 70) query process state. They are the boolean parameters `stdinIsTty` and `ignoreCaseVarPresent` of `Configuration.Build`.
- A present `IGNORE_CASE` whose value is not valid Unicode makes `env::var` fail, so it counts as absent: `ignoreCaseVarPresent` is then false and case is respected. Decoding the environment is not modelled.
- Text.Lower: `to_lowercase` (src/lib.rs:32, 38) uses the full Unicode tables. `Text.Lower` maps only the ASCII capitals `A`-`Z` and keeps every other character. Characters whose lowercase form has a different length are therefore not modelled.
- Text.LowerKeepsSubstring: holds for the per-character lowercase only. Rust's `to_lowercase` applies the context-dependent Final_Sigma rule, so `"Σ"` lowercases to `"σ"` while `"ΑΣ"` lowercases to `"ας"`. An occurrence of `Σ` in `ΑΣ` is then lost.
- LineSearch.IgnoringCaseKeepsMore: holds for the per-character lowercase only. Under Rust's Final_Sigma mapping the program with `IGNORE_CASE` set drops the line `ΑΣ` for the query `Σ`, which the case-respecting search keeps.
- Borrowing: `search` returns `&str` slices of the input buffer. The model returns line values and proves each one equal to a line of `Lines(contents)`.
- Rust's substring algorithm is not modelled. `Text.Contains` is a left-to-right scan, proved equivalent to "occurs at some position", which is all `str::contains` promises.
- Argument counts are unbounded naturals rather than `usize`. The source does no arithmetic on them, so nothing wraps.
- Running `search` twice gives the same result. That holds trivially of a pure function and is not stated separately.

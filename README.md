# minigrep in Dafny

A model of the library half of `minigrep`, a small `grep`.
`Config::new` turns the command line and the `CASE_INSENSITIVE` environment variable into a configuration.
`run` reads the named file and prints every line that contains the query: exactly with `search_case_sensitive`, or after lower-casing both sides with `search_case_insensitive`.

The model is pure: `Config::new`, `run` and both searches are functions, and the properties are lemmas.

- `results.dfy`: `Option` and `Result`.
- `sequences.dfy`: the iterator adaptors the searches use.
  - `filter` and `flat_map` over `Option`, each followed by `collect`.
  - A reference specification of filtering (`IsFiltering`): a subsequence of the input whose elements all pass the test, with every passing value kept as often as the input holds it.
- `text.dfy`: `str::contains` with a string pattern, and the lower-case fold.
- `lines.dfy`: `str::lines`, with its round trips.
- `search.dfy`: the two searches and the two test cases of `src/lib.rs`.
- `minigrep.dfy`: `Config`, `env::var`, `Config::new` and `run`.

The environment is a map from names to values, and a value need not be valid Unicode.
A value is either `Unicode(text)` or `NonUnicode(bytes)`, and `NonUnicode` stands for bytes that are not valid UTF-8. The type does not check this: `NonUnicode` applied to valid UTF-8 describes no real environment.
`env::var("CASE_INSENSITIVE").is_err()` is therefore true in two cases: when the variable is absent, and when it holds bytes that are not valid Unicode.
`NewConfig` follows the code in this: setting `CASE_INSENSITIVE` to a value that is not valid Unicode leaves the search case-sensitive.

## Model

| member | source | states |
|---|---|---|
| Minigrep.Config | src/lib.rs:5-9 | `Config` holds the query, the file name and the `case_sensitive` flag. |
| Minigrep.Var | src/lib.rs:26 | `env::var` succeeds exactly when the variable is present with a Unicode value, and then returns that value. It fails with `NotPresent` exactly when the variable is absent. |
| Minigrep.NewConfig | src/lib.rs:13-33 | No argument after the program name gives "Didn't get a query string". Exactly one gives "Didn't get a file name". Otherwise the result succeeds with `query = args[1]` and `filename = args[2]`. `case_sensitive` is false exactly when `CASE_INSENSITIVE` holds a Unicode value. |
| Minigrep.ExtraArgumentsIgnored | src/lib.rs:14-24 | Once the query and the file name are present, appending more arguments gives the same result. |
| Minigrep.CaseFlagIgnoresValue | src/lib.rs:26 | Any Unicode value of `CASE_INSENSITIVE`, empty or not, gives the same configuration, and that configuration is case-insensitive. |
| Minigrep.Matcher | src/lib.rs:39-43 | The selected line test is containment of the query when `case_sensitive` is true, and folded containment otherwise. Under the per-character fold, in either mode it passes every exact match and only folded matches. |
| Minigrep.SearchFor | src/lib.rs:39-43 | The flag selects the exact search when it is true and the folded search otherwise. Either way the result is the filtering of the text's lines by the selected test. |
| Minigrep.Run | src/lib.rs:36-50 | A failed file read is returned as the error (`?`). Otherwise the result succeeds, and the printed lines are the dispatched search's result: an order-preserving filtering of the file's lines. |
| Minigrep.DefaultIsExact | src/lib.rs:26-43 | With `CASE_INSENSITIVE` absent, `run` prints exactly the case-sensitive matches of `args[1]`. |
| Minigrep.InsensitivePrintsMore | src/lib.rs:39-43 | Under the per-character fold, setting `CASE_INSENSITIVE` never removes or reorders a printed line. The exact output is a subsequence of the folded output. |
| Sequences.Filter | src/lib.rs:55-56 | `filter(..).collect()` keeps an element exactly when it is in the input and passes the test, and is never longer than the input. |
| Sequences.FlatMapOption | src/lib.rs:63-69 | `flat_map(..).collect()` over a closure returning an `Option` is never longer than its input. Its partner Sequences.FlatMapSelectIsFilter equates it with `filter` for the closure shape the source uses. |
| Sequences.FilterIsFiltering | src/lib.rs:55-56 | `Filter` meets the reference specification of filtering: subsequence, only passing elements, and every passing value with its full multiplicity. |
| Sequences.FilteringUnique | src/lib.rs:55-56 | The reference specification determines the result: any sequence that meets it equals `Filter`. |
| Sequences.SubsequenceMultiset | src/lib.rs:55-56 | A subsequence holds no element more often than the sequence it comes from. |
| Sequences.FilterKeepsAll | src/lib.rs:55-56 | A test every element passes keeps the whole input. |
| Sequences.FilterKeepsNone | src/lib.rs:55-56 | A test no element passes leaves nothing. |
| Sequences.FilterMonotone | src/lib.rs:55 | A weaker test keeps a superset of the elements, in the same order: the stricter result is a subsequence of the weaker one. |
| Sequences.FlatMapSelectIsFilter | src/lib.rs:63-69 | `flat_map` with a closure that returns `Some(line)` or `None` is `filter` by the condition under which it returns `Some`. |
| Text.Contains | src/lib.rs:55-64 | `str::contains`: the pattern occurs at some position of the text, so it is no longer than the text. Its partner Text.ContainsIff equates it with a left-to-right scan. |
| Text.ContainsIff | src/lib.rs:55 | Containment at some position agrees with a left-to-right scan for a prefix match. |
| Text.ContainsEmpty | src/lib.rs:55 | Every text contains the empty pattern. |
| Text.AbsentCharNotContained | src/lib.rs:55 | A text that lacks one of the pattern's characters does not contain the pattern. |
| Text.ContainsSkipsPrefix | src/lib.rs:55 | An occurrence of a pattern whose first character is absent from a prefix of the text lies in the rest of the text. |
| Text.LowerChar | src/lib.rs:60 | The fold of one character is never an upper-case letter. It is either the character itself, or the lower-case letter at the same offset from 'a' as the upper-case input has from 'A'. |
| Text.Lower | src/lib.rs:60 | The per-character fold that stands for `to_lowercase` keeps the length, folds each character in place, and leaves no upper-case letter. |
| Text.LowerUnchanged | src/lib.rs:60 | Folding changes nothing in a text without upper-case letters. |
| Text.ContainsLowered | src/lib.rs:64 | Under the per-character fold, exact containment implies containment after both sides are folded. |
| LineSplit.LineEnd | src/lib.rs:54 | The end of the first line is an index within the text. Its partner LineSplit.LineEndSpec says which index. |
| LineSplit.LineEndSpec | src/lib.rs:54 | The first line runs up to the first '\n', or to the end of the text when it has none. |
| LineSplit.LineEndBefore | src/lib.rs:54 | In a line without '\n' followed by '\n', the first line ends at that '\n'. |
| LineSplit.LineEndNone | src/lib.rs:54 | Text without '\n' is a line that runs to its end. |
| LineSplit.StripCr | src/lib.rs:54 | A line ending in '\r' loses exactly that one '\r'. Any other line is unchanged. |
| LineSplit.Lines | src/lib.rs:54 | `lines()` gives no lines exactly for the empty text. |
| LineSplit.LinesHaveNoNewline | src/lib.rs:54 | No line that `lines()` returns contains '\n'. |
| LineSplit.LinesCons | src/lib.rs:54 | A line ending in '\n' is the first element, with one trailing '\r' dropped. The lines after it are the lines of the rest. |
| LineSplit.LinesCrLf | src/lib.rs:54 | "\r\n" ends a line just as "\n" does. |
| LineSplit.LinesLast | src/lib.rs:54 | Non-empty text without '\n' is one line: itself with one trailing '\r' dropped. |
| LineSplit.FinalNewline | src/lib.rs:54 | A '\n' added to non-empty text that does not end in '\n' adds no empty line: the lines are the same. |
| LineSplit.LinesOfUnlines | src/lib.rs:54 | Splitting undoes writing each line followed by '\n', when no line holds '\n' or ends in '\r'. |
| LineSplit.UnlinesOfLines | src/lib.rs:54 | Text that is empty or ends in '\n', with no '\r' directly before a '\n', is rebuilt by writing its lines back with '\n' after each one. |
| LineSplit.LinesOfJoinLines | src/lib.rs:54 | Splitting undoes joining with '\n' when no line holds '\n' or ends in '\r' and the last line is not empty. |
| Search.ExactMatcher | src/lib.rs:55 | The closure `\|line\| line.contains(query)`: a line that passes is at least as long as the query, and it also passes the folded test. |
| Search.FoldedMatcher | src/lib.rs:63-68 | The closure's test `line.to_lowercase().contains(&query)`, with the query folded. Under the per-character fold, every line that contains the query exactly passes it. |
| Search.SearchCaseSensitive | src/lib.rs:52-57 | A line is in the result exactly when it is a line of the text and contains the query. |
| Search.SearchCaseInsensitive | src/lib.rs:59-71 | The result is the filtering of the lines by "the folded line contains the folded query". A line is in the result exactly when it is a line of the text and passes that test. The elements are the original, unfolded lines. |
| Search.SearchCaseSensitiveSpec | src/lib.rs:52-57 | A sequence is the result of the exact search if and only if it is the filtering of the text's lines by containment of the query. |
| Search.SearchCaseInsensitiveSpec | src/lib.rs:59-71 | A sequence is the result of the folded search if and only if it is the filtering of the text's original lines by folded containment. |
| Search.EmptyQueryKeepsEveryLine | src/lib.rs:53-56 | With the empty query, both searches return every line in order. |
| Search.EmptyContentsYieldNothing | src/lib.rs:53-69 | Empty text gives an empty result in both searches. |
| Search.LongQueryMatchesNothing | src/lib.rs:53-69 | Under the per-character fold, a query longer than every line matches nothing in either search. |
| Search.ExactWithinFolded | src/lib.rs:55-64 | Under the per-character fold, the exact result is a subsequence of the folded result. |
| Search.CaseSensitiveLines | src/lib.rs:104-107 | The `case_sensitive` test text has the three lines "Rust:", "safe, fast, productive." and "Pick three.". |
| Search.ExactMatchRust | src/lib.rs:103-105 | "Rust:" does not contain "duct". |
| Search.ExactMatchSafe | src/lib.rs:103-106 | "safe, fast, productive." contains "duct". |
| Search.ExactMatchPick | src/lib.rs:103-107 | "Pick three." does not contain "duct". |
| Search.FilterMiddleOfThree | src/lib.rs:109-112 | Filtering three lines of which only the middle one passes gives just that line. |
| Search.CaseSensitiveExample | src/lib.rs:101-113 | Query "duct" over the three-line text gives exactly ["safe, fast, productive."]. |
| Search.FoldedMatchRust | src/lib.rs:117-119 | "Rust:" matches "RUSt" after folding. |
| Search.LowerSafe | src/lib.rs:120 | "safe, fast, productive." is unchanged by folding. |
| Search.NoRustInSafe | src/lib.rs:117-120 | "safe, fast, productive." does not contain "rust". |
| Search.FoldedMatchSafe | src/lib.rs:117-120 | "safe, fast, productive." does not match "RUSt" after folding. |
| Search.FoldedMatchPick | src/lib.rs:117-121 | "Pick three." does not match "RUSt" after folding. |
| Search.FoldedMatchTrust | src/lib.rs:117-122 | "Trust me." matches "RUSt" after folding. |
| Search.CaseInsensitiveLines | src/lib.rs:118-122 | The `case_insensitive` test text has the four lines "Rust:", "safe, fast, productive.", "Pick three." and "Trust me.". |
| Search.FilterEndsOfFour | src/lib.rs:124-127 | Filtering four lines of which only the first and the last pass gives those two. |
| Search.FoldedFilterExample | src/lib.rs:116-127 | The folded test for "RUSt" keeps "Rust:" and "Trust me." of the four lines. |
| Search.CaseInsensitiveExample | src/lib.rs:115-128 | Query "RUSt" over the four-line text gives exactly ["Rust:", "Trust me."], unfolded. |

## Left out

- `fs::read_to_string` (src/lib.rs:37) is file I/O. `Run` takes its outcome as a parameter, a `Result` holding the text or the error message.
- The `println!` loop (src/lib.rs:45-47) is console output. `Run` returns the lines it would print, in order.
- `env::Args` and the real process environment are process state. They are parameters: a sequence of strings, and a map from names to values.
- `env::Args` panics when an argument is not valid Unicode. This panic is not modelled: the arguments are a sequence of strings, which are always valid.
- `env::var` also panics on a key that is empty or contains '=' or NUL. The only key used is the constant "CASE_INSENSITIVE", so that case does not arise.
- The `it_works` and `it_fails` tests (src/lib.rs:77-99) depend on whether `poem.txt` and `poems.txt` exist on disk.
- Text.Lower: `to_lowercase` is modelled as an ASCII fold, 'A'..'Z' to 'a'..'z'. Unicode case mapping, which is context-dependent and can change a string's length, is not modelled.
- Minigrep.InsensitivePrintsMore: holds for the per-character fold only. With Unicode `to_lowercase`, the query "Σ" folds to "σ", but the line "ΑΣ" folds to "ας" (final sigma), so that line matches exactly but not after folding, and setting `CASE_INSENSITIVE` removes it from the output.
- Search.ExactWithinFolded: holds for the per-character fold only. With Unicode `to_lowercase`, the query "Σ" folds to "σ", but the line "ΑΣ" folds to "ας" (final sigma), so that line matches exactly but not after folding.
- Text.ContainsLowered: holds for the per-character fold only. With Unicode `to_lowercase`, "ΑΣ" contains "Σ" but "ας" does not contain "σ".
- Minigrep.Matcher: "passes every exact match" holds for the per-character fold only. With Unicode `to_lowercase`, the query "Σ" folds to "σ", but the line "ΑΣ" folds to "ας" (final sigma), so that line matches exactly but not after folding.
- Search.FoldedMatcher: "every exact match passes" holds for the per-character fold only. With Unicode `to_lowercase`, the query "Σ" folds to "σ", but the line "ΑΣ" folds to "ας" (final sigma), so that line matches exactly but not after folding.
- Search.LongQueryMatchesNothing: the folded half holds for the length-preserving fold only. Unicode `to_lowercase` turns "İ" (U+0130) into "i\u{307}", so the two-character query "i\u{307}" matches the one-character line "İ".
- Minigrep.Var: nothing ensures that a `NonUnicode` value really is invalid UTF-8. For `NonUnicode([0x61])` it fails with `NotUnicode`, while a real process would read "a".
- Minigrep.NewConfig: for a `CASE_INSENSITIVE` value of `NonUnicode([0x61])` it keeps the search case-sensitive, while a real process would read "a" and search case-insensitively. No real environment holds such a value.
- LineSplit.Lines: one trailing '\r' is dropped from every line, including an unterminated last line. Newer versions of the Rust standard library drop a '\r' only when it comes before a '\n'. The two differ only on text whose final line ends in a lone '\r'.
- Search.CaseSensitiveExample, Search.CaseInsensitiveExample: the test texts are written as their lines joined by '\n' (`JoinLines`), not as one string literal.
- Borrowed slices (`&'a str`) and their lifetimes: the result holds the line strings themselves.
- `Box<dyn Error>`: the error of `run` is the read error's message.

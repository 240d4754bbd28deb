# which-cmd, modelled in Dafny

which-cmd reads a shell history file and reports the commands used most
and least often. It can skip commands that start with an ignore word. It
can also keep only commands that match a search, either exactly or
fuzzily. This project models that pipeline on in-memory lines:

1. **History-path selection**: the supported shells (`/bin/bash`, `/bin/zsh`)
   map to `$HOME/.bash_history` or `$HOME/.zsh_history`. Any other shell is an
   `UnknownShell` error (`History.HistoryFile`).
2. **Normalisation**: for zsh, each line keeps only the text between its first
   and second `;`. A command that itself contains `;` keeps only its part
   before that `;`. Empty lines are then dropped (`History.CleanupZsh`,
   `History.Cleanup`).
3. **Filtering**: lines that start with an ignore word are dropped
   (`History.FilterIgnored`). Lines can then be kept by an exact
   substring search or by a fuzzy score threshold (`History.FilterSearched`).
4. **Aggregation and ranking**: each distinct line is counted in a map, and
   the (command, count) rows are sorted by count, most used first
   (`CommandTable.BuildCommandTable`).
5. **Report**: the indices of the "most used" and "least used" halves of the
   ranked table (`Report`).

Files: `wrappers.dfy` (Option, Result), `seqs.dfy` (the order-preserving
filter and the subsequence relation), `text.dfy` (the `str` operations used:
`split`, `join`, `contains`), `history.dfy` (stages 1-3), `table.dfy` (stage 4)
and `report.dfy` (stage 5).

The source reads the shell identity and the home directory with
compile-time `env!`. Here they are the parameters `shell` and `home`. The
zsh switch of `cleanup` is `shell == "/bin/zsh"`, the same test that
`history_file` makes. The fuzzy matcher is a foreign library, so it is the
parameter `score: (line, pattern) -> Option<int>`. In the model, each filter
is a function over `seq<string>`, except `filter_ignored`, a loop method
(`History.FilterIgnored`) proved equal to the function `WithoutIgnored`. The counting loop updates a
`map<string, nat>`. The map's rows are gathered in an unspecified order: a
`:|` choice stands for the hash map's iteration order. The rows are then
sorted in place in an `array`.

## Model

| member | source | states |
|---|---|---|
| `History.HistoryFile` | src/main.rs:141-150 | bash and zsh get their history file under `home + "/"`; every other shell, and only those, is an `UnknownShell` error |
| `History.ZshCleanupFollowsHistoryFile` | src/main.rs:80-81 | the zsh clean-up runs exactly when the history file is `.zsh_history`, and the two shells never share a history file |
| `History.ZshCommand` | src/main.rs:91-97 | the command taken from a zsh line never contains `;` |
| `History.ZshCommandBetweenSeparators` | src/main.rs:92-97 | a line without `;` gives `""`; otherwise the command is the text after the first `;` up to the next `;` or the end of the line |
| `History.CleanupZsh` | src/main.rs:90-99 | same length as the input; output `k` is the command of input line `k`; no output contains `;` |
| `History.Cleanup` | src/main.rs:78-88 | the zsh clean-up runs when `ZshFormat` holds (`shell == "/bin/zsh"`, src/main.rs:80), and the lines are kept by `NonEmpty` (`!l.is_empty()`, src/main.rs:85): no empty string survives; the result is a subsequence of the (zsh-cleaned when the shell is zsh) lines, and every non-empty line keeps its number of occurrences |
| `History.FilterIgnored` | src/main.rs:101-107 | the pass-per-word loop returns exactly the lines that start with none of the ignore words, in their original order |
| `History.WithoutIgnoredKeeps` | src/main.rs:101-107 | the surviving lines are a subsequence of the input; a line starting with an ignore word occurs 0 times in the result, and any other line as often as in the input |
| `History.WithoutIgnoredNothing` | src/main.rs:102-106 | an empty ignore list returns the lines unchanged |
| `History.WithoutIgnoredIdempotent` | src/main.rs:101-107 | applying the ignore list twice is the same as applying it once |
| `History.EmptyIgnoreWordDropsAll` | src/main.rs:103 | an empty ignore word is a prefix of every line, so it removes every line |
| `History.ChooseSearchMethod` | src/main.rs:51 | the search is exact if and only if `--exact` is given without `--fuzzy` |
| `History.FuzzyIsDefault` | src/main.rs:51 | with neither flag the search is fuzzy, and `--fuzzy` wins over `--exact` |
| `History.SearchPattern` | src/main.rs:121 | the search terms joined by single spaces (`search.join(" ")`): no terms give `""`, one term gives that term, and every term occurs in the pattern |
| `History.FilterExact` | src/main.rs:120-125 | the result is a subsequence of the input; a line occurs in it as often as in the input when it contains the space-joined search terms, and otherwise not at all |
| `History.FilterFuzzy` | src/main.rs:127-139 | the result is a subsequence of the input; a line is kept, with all its occurrences, exactly when the matcher gives it a score of at least `minScore` against the space-joined search terms (`ScorePasses`: `Some(score)` with `score >= min_score`, src/main.rs:132-135) |
| `History.LowerScoreKeepsMore` | src/main.rs:132-135 | lowering `--score` never drops a line: the lines kept at a higher minimum are a subsequence of those kept at a lower one |
| `History.FilterSearched` | src/main.rs:109-118 | no search terms return the input unchanged; otherwise the exact or the fuzzy filter applies. The result is always a subsequence of the input and never longer |
| `Text.Split` | src/main.rs:92 | a split yields at least one piece, and no piece contains the separator |
| `Text.Join` | src/main.rs:121 | `parts.join(sep)`: `""` for no parts, the first part is a prefix of the result and, with two or more parts, is followed by `sep` |
| `Text.Contains` | src/main.rs:122 | `line.contains(needle)`: some position of the line starts with `needle`; a contained needle is no longer than the line, and a prefix is always contained |
| `Text.JoinContainsParts` | src/main.rs:121 | every part occurs in the join |
| `Text.JoinSplit` | src/main.rs:92 | joining the pieces of a split with the separator gives back the original line |
| `Text.SplitJoin` | src/main.rs:92 | splitting a join of separator-free pieces gives back the pieces |
| `Text.SplitFirst` | src/main.rs:92-93 | the first piece of a split is the longest prefix without the separator |
| `Text.ContainsEmpty` | src/main.rs:121-122 | every line contains the empty pattern, so searching for `""` keeps every line |
| `Text.IndexOf` | src/main.rs:92 | the position found holds the first occurrence of the character |
| `Seqs.Filter` | src/main.rs:85 | an `iter().filter().collect()` chain never makes the lines longer; it keeps exactly the elements of the input that satisfy the predicate |
| `Seqs.FilterIsSubsequence` | src/main.rs:85 | a filter only deletes elements and never reorders the rest |
| `Seqs.FilterOccurrences` | src/main.rs:122 | a kept element occurs as often as in the input, and a dropped one not at all |
| `CommandTable.BuildCommandTable` | src/main.rs:65-76 | the result is a frequency table of the lines. There is one row per distinct line and no command appears twice. Each count equals the number of occurrences of its command. Counts are in non-increasing order, and they sum to the number of lines |
| `CommandTable.Entries` | src/main.rs:73 | collecting the map yields one row per key, with that key's count, and no command twice; the order is left open |
| `CommandTable.SortByCount` | src/main.rs:74 | the in-place sort leaves the rows in non-increasing order of count, and permutes them without losing or adding any |
| `CommandTable.PermutationTallies` | src/main.rs:73-74 | reordering the rows of a frequency table (as the sort does) keeps it a frequency table of the same lines |
| `CommandTable.TalliesTotal` | src/main.rs:66-73 | every row counts at least one use; the counts sum to the number of lines; there are never more rows than lines |
| `CommandTable.TalliesAreFrequencies` | src/main.rs:66-73 | a frequency table holds exactly the pairs (distinct line, its occurrence count) and has one row per distinct line, so it is determined up to the order of its rows |
| `Report.MaxCount` | src/main.rs:153 | each half shows at most `count` rows and at most half the table, and the bound is one of the two |
| `Report.SliceAsWritten` | src/main.rs:153-166 | as written: an empty table is an underflow error, and only an empty table is. Otherwise both halves have `max_count` indices, all within the table, and every bottom index is below `len - 1`. The top half is `Ascending(0, max_count)`, the range `0..max_count` (`top[k] == k`), and the bottom half is `Descending(last - max_count, last)`, the range `(last - max_count..last).rev()` (`bottom[k] == len - 2 - k`) |
| `Report.AsWrittenSkipsLastRow` | src/main.rs:165-166 | as written, for a table of two or more rows and `count >= 1`, the bottom half is non-empty but the last (least used) row is printed in neither half |
| `Report.AsWrittenRepeatsMiddleRow` | src/main.rs:153-166 | as written, when the table has an even, non-zero number of rows and `count` reaches half of it, the row at index `len/2 - 1` is printed in both halves |
| `Report.AsWrittenReportsWrongLeast` | src/main.rs:165-168 | as written, a table sorted with counts 3, 2, 1 and `count = 1` reports the row used twice as the least used |
| `Report.Slice` | src/main.rs:153-166 | corrected: the top half is exactly the indices below `max_count`, ascending; the bottom half is exactly the last `max_count` indices, from `len - 1` down. They are built as `Ascending(0, max_count)` (the range `0..max_count`) and `Descending(len - max_count, len)` (the range `(len - max_count..len).rev()`). The halves are disjoint, all indices are in bounds, and an empty table gives two empty halves |
| `Report.TopRowsAreMostUsed` | src/main.rs:155-160 | on a table sorted by count, every row in the top half is used at least as often as every row outside it |
| `Report.BottomRowsAreLeastUsed` | src/main.rs:163-169 | corrected: on a table sorted by count, every row in the bottom half of `Slice` is used at most as often as every row outside it, and that half is printed from the least used row upwards (the source's own bottom loop does not have this property, see Findings) |
| `Report.CommandTableRows` | src/main.rs:152-170 | corrected: the two print loops, with the bottom loop over the corrected range, give the rows at the top- and bottom-half indices of `Slice`, in printing order, and no more rows than the table has |

## Findings

| source | as written | input that shows it | evidently intended | confidence | as-written member | corrected member |
|---|---|---|---|---|---|---|
| src/main.rs:165-166 | the bottom half iterates `((last - max_count)..last).rev()` with `last = table.len() - 1`, which stops one index before the last row | a sorted table with counts 3, 2, 1 and `--count 1`: the "least used" line shows the command used twice, and the command used once is never printed | `((table.len() - max_count)..table.len()).rev()`, the last `max_count` rows | not executed; high | `Report.AsWrittenReportsWrongLeast` | `Report.Slice` |
| src/main.rs:153-166 | because of the same off-by-one, the two halves overlap when the table length is even, non-zero and `count >= len / 2` | a table of two distinct commands with the default `--count 5`: `max_count = 1`, and index 0 is printed as both the most and the least used command | the two halves are disjoint | not executed; high | `Report.AsWrittenRepeatsMiddleRow` | `Report.Slice` |
| src/main.rs:165 | `table.len() - 1` is computed even when the table is empty | a search that matches no history line (or an empty history): the table is empty, and the unsigned subtraction underflows. A debug build panics; a release build wraps and prints the headings and no rows | an empty bottom half | not executed; medium | `Report.SliceAsWritten` | `Report.Slice` |

`Report.CommandTableRows` follows the corrected `Report.Slice`. The
as-written index arithmetic is kept as `Report.SliceAsWritten`.

## Left out

- `read_lines_sorted` (src/main.rs:172-181): opening and reading the file, lossy UTF-8 decoding and splitting into lines are I/O. The model starts from the lines. The function does not sort, despite its name.
- The fuzzy matcher `SkimMatcherV2` (src/main.rs:129-132) is a foreign library. It is the parameter `score` of `History.FilterFuzzy`, and only its use (kept iff a score exists and reaches the minimum) is modelled.
- `Args` and its command-line parsing (src/main.rs:17-42) and the `main` glue (src/main.rs:44-63) are left out. This includes `count` being a `u8` with default 5 and `score` defaulting to 40. The individual stages are modelled; their composition is not.
- The `println!` output of `print_command_table` is left out; the model returns the rows that would be printed.
- `env!("SHELL")` and `env!("HOME")` are compile-time reads of the build environment. They are the parameters `shell` and `home`.
- `CommandTable.BuildCommandTable`: counts are unbounded `nat`. The source's `u32` counter would overflow after 4294967295 equal lines; that is not modelled.
- `CommandTable.BuildCommandTable`: the order among rows with equal counts comes from hash-map iteration and is deliberately left unspecified. `CommandTable.Entries` picks keys in an arbitrary order.
- `CommandTable.SortByCount` is an insertion sort. The source uses the standard library's stable sort; only the result (sorted, a permutation) is claimed, and stability is not.
- Strings are sequences of characters. Rust's `str` is UTF-8; `split(';')`, `starts_with` and `contains` agree on characters and bytes for valid UTF-8, so nothing is lost for these operations.
- The headings printed at src/main.rs:155 and src/main.rs:163 both announce `max_count` most used and `max_count` least used commands, and the top loop at src/main.rs:157 takes the first `max_count` rows. The bottom loop at src/main.rs:165-166 is off by one against that (see Findings). `Report.SliceAsWritten` follows the code, and `Report.Slice` follows the headings: the last `max_count` rows.

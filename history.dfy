/**
 * The front of the which-cmd pipeline: where the history lives, how its
 * lines are normalised, and how they are filtered by the ignore list and
 * the search terms before they are counted.
 *
 * The shell identity and the home directory, which the tool reads from
 * the build environment, are parameters here.
 */
module History {
  import opened Wrappers
  import opened Seqs
  import opened Text

  const BashShell := "/bin/bash"
  const ZshShell := "/bin/zsh"

  datatype HistoryError = UnknownShell

  datatype SearchMethod = Exact | Fuzzy

  // ---------------------------------------------------------------------
  // History-path selection

  /** The history file of a supported shell, under `home`; any other shell is an error. */
  function HistoryFile(shell: string, home: string): (r: Result<string, HistoryError>)
    ensures r.Err? <==> shell != BashShell && shell != ZshShell
    ensures r.Ok? ==> home + "/" <= r.value
    ensures shell == BashShell ==> r == Ok(home + "/.bash_history")
    ensures shell == ZshShell ==> r == Ok(home + "/.zsh_history")
  {
    if shell == BashShell then Ok(home + "/.bash_history")
    else if shell == ZshShell then Ok(home + "/.zsh_history")
    else Err(UnknownShell)
  }

  /** Whether the history lines carry zsh's `: <time>:<duration>;` metadata. */
  predicate ZshFormat(shell: string)
  {
    shell == ZshShell
  }

  /**
   * The zsh clean-up is applied exactly when the history is read from
   * `.zsh_history`, and the two supported shells never share a file.
   */
  lemma ZshCleanupFollowsHistoryFile(shell: string, home: string)
    ensures ZshFormat(shell) <==> HistoryFile(shell, home) == Ok(home + "/.zsh_history")
    ensures HistoryFile(BashShell, home) != HistoryFile(ZshShell, home)
  {
    var b := home + "/.bash_history";
    var z := home + "/.zsh_history";
    assert b[|home| + 2] == 'b' && z[|home| + 2] == 'z';
  }

  // ---------------------------------------------------------------------
  // Normalisation

  /** The command of one zsh history line: its second `;`-separated field, or "" if it has none. */
  function ZshCommand(line: string): (r: string)
    ensures ';' !in r
  {
    var parts := Split(line, ';');
    if |parts| > 1 then parts[1] else ""
  }

  /**
   * Without a `;` there is no command; otherwise the command is the text
   * after the first `;` up to the next `;` or the end of the line.
   */
  lemma ZshCommandBetweenSeparators(line: string)
    ensures ';' !in line ==> ZshCommand(line) == ""
    ensures ';' in line ==>
      var rest := line[IndexOf(line, ';') + 1..];
      var r := ZshCommand(line);
      r <= rest && (|r| == |rest| || rest[|r|] == ';')
  {
    if ';' in line {
      var rest := line[IndexOf(line, ';') + 1..];
      assert Split(line, ';')[1] == Split(rest, ';')[0];
      SplitFirst(rest, ';');
    }
  }

  /** `cleanup_zsh`: one command per history line, in order. */
  function CleanupZsh(lines: seq<string>): (r: seq<string>)
    ensures |r| == |lines|
    ensures forall k :: 0 <= k < |r| ==> r[k] == ZshCommand(lines[k])
    ensures forall k :: 0 <= k < |r| ==> ';' !in r[k]
  {
    seq(|lines|, k requires 0 <= k < |lines| => ZshCommand(lines[k]))
  }

  /** `!line.is_empty()`. */
  predicate NonEmpty(line: string)
  {
    line != ""
  }

  /**
   * `cleanup`: the zsh clean-up when the shell is zsh, then drop the empty
   * lines.  The result is the subsequence of non-empty lines, each with its
   * original number of occurrences.
   */
  function Cleanup(lines: seq<string>, shell: string): (r: seq<string>)
    ensures "" !in r
    ensures IsSubsequence(r, if ZshFormat(shell) then CleanupZsh(lines) else lines)
    ensures forall x :: (multiset(r)[x] ==
        if x == "" then 0 else multiset(if ZshFormat(shell) then CleanupZsh(lines) else lines)[x])
  {
    var source := if ZshFormat(shell) then CleanupZsh(lines) else lines;
    FilterIsSubsequence(source, NonEmpty);
    forall x ensures multiset(Filter(source, NonEmpty))[x] == if x == "" then 0 else multiset(source)[x] {
      FilterOccurrences(source, NonEmpty, x);
    }
    Filter(source, NonEmpty)
  }

  // ---------------------------------------------------------------------
  // Ignore list

  /** `line` starts with one of the ignore words. */
  predicate Ignored(line: string, ignore: seq<string>)
  {
    exists k :: 0 <= k < |ignore| && ignore[k] <= line
  }

  /** The lines that start with none of the ignore words, in their original order. */
  function WithoutIgnored(lines: seq<string>, ignore: seq<string>): seq<string>
  {
    Filter(lines, line => !Ignored(line, ignore))
  }

  /** `filter_ignored`: one filtering pass over the lines per ignore word. */
  method FilterIgnored(lines: seq<string>, ignore: seq<string>) returns (r: seq<string>)
    ensures r == WithoutIgnored(lines, ignore)
  {
    r := lines;
    assert forall line :: !Ignored(line, ignore[..0]);
    FilterAllPass(lines, line => !Ignored(line, ignore[..0]));
    for k := 0 to |ignore|
      invariant r == WithoutIgnored(lines, ignore[..k])
    {
      var word := ignore[k];
      ghost var before := ignore[..k];
      ghost var after := ignore[..k + 1];
      assert after == before + [word];
      forall line ensures !Ignored(line, after) == (!Ignored(line, before) && !(word <= line)) {
        assert forall j :: 0 <= j < k ==> after[j] == before[j];
      }
      FilterTwice(lines, line => !Ignored(line, before), line => !(word <= line), line => !Ignored(line, after));
      r := Filter(r, line => !(word <= line));
    }
    assert ignore[..|ignore|] == ignore;
  }

  /** A line survives the ignore list exactly when no ignore word is a prefix of it. */
  lemma WithoutIgnoredKeeps(lines: seq<string>, ignore: seq<string>)
    ensures IsSubsequence(WithoutIgnored(lines, ignore), lines)
    ensures forall x :: (multiset(WithoutIgnored(lines, ignore))[x] ==
        if Ignored(x, ignore) then 0 else multiset(lines)[x])
  {
    FilterIsSubsequence(lines, line => !Ignored(line, ignore));
    forall x ensures multiset(WithoutIgnored(lines, ignore))[x] ==
      if Ignored(x, ignore) then 0 else multiset(lines)[x]
    {
      FilterOccurrences(lines, line => !Ignored(line, ignore), x);
    }
  }

  /** An empty ignore list leaves the lines alone. */
  lemma WithoutIgnoredNothing(lines: seq<string>)
    ensures WithoutIgnored(lines, []) == lines
  {
    FilterAllPass(lines, line => !Ignored(line, []));
  }

  /** Ignoring twice is ignoring once. */
  lemma WithoutIgnoredIdempotent(lines: seq<string>, ignore: seq<string>)
    ensures WithoutIgnored(WithoutIgnored(lines, ignore), ignore) == WithoutIgnored(lines, ignore)
  {
    FilterIdempotent(lines, line => !Ignored(line, ignore));
  }

  /** Every line starts with the empty word, so an empty ignore word drops everything. */
  lemma EmptyIgnoreWordDropsAll(lines: seq<string>, ignore: seq<string>)
    requires "" in ignore
    ensures WithoutIgnored(lines, ignore) == []
  {
    var k :| 0 <= k < |ignore| && ignore[k] == "";
    forall line ensures Ignored(line, ignore) {
      assert ignore[k] <= line;
    }
    FilterNonePass(lines, line => !Ignored(line, ignore));
  }

  // ---------------------------------------------------------------------
  // Search

  /** Exact matching only when asked for and fuzzy matching is not; fuzzy is the default. */
  function ChooseSearchMethod(exact: bool, fuzzy: bool): (m: SearchMethod)
    ensures m == Exact <==> exact && !fuzzy
  {
    if exact && !fuzzy then Exact else Fuzzy
  }

  /** Without flags the search is fuzzy, and `--fuzzy` wins over `--exact`. */
  lemma FuzzyIsDefault(exact: bool)
    ensures ChooseSearchMethod(false, false) == Fuzzy
    ensures ChooseSearchMethod(exact, true) == Fuzzy
  {
  }

  /** The search terms as one pattern, joined by single spaces. */
  function SearchPattern(search: seq<string>): (pattern: string)
    ensures search == [] ==> pattern == ""
    ensures |search| == 1 ==> pattern == search[0]
    ensures forall k :: 0 <= k < |search| ==> Contains(pattern, search[k])
  {
    forall k | 0 <= k < |search| ensures Contains(Join(search, " "), search[k]) {
      JoinContainsParts(search, " ", k);
    }
    Join(search, " ")
  }

  /** `filter_exact`: the lines that contain the joined search terms. */
  function FilterExact(lines: seq<string>, search: seq<string>): (r: seq<string>)
    ensures IsSubsequence(r, lines)
    ensures forall x :: (multiset(r)[x] ==
        if Contains(x, SearchPattern(search)) then multiset(lines)[x] else 0)
  {
    var pattern := SearchPattern(search);
    FilterIsSubsequence(lines, line => Contains(line, pattern));
    forall x ensures multiset(Filter(lines, line => Contains(line, pattern)))[x] ==
      if Contains(x, pattern) then multiset(lines)[x] else 0
    {
      FilterOccurrences(lines, line => Contains(line, pattern), x);
    }
    Filter(lines, line => Contains(line, pattern))
  }

  /** A fuzzy score passes when there is one and it reaches the minimum. */
  predicate ScorePasses(score: Option<int>, minScore: int)
  {
    score.Some? && score.value >= minScore
  }

  /**
   * `filter_fuzzy`: the lines whose fuzzy score against the joined search
   * terms reaches `minScore`.  The fuzzy matcher is a foreign component; it
   * is the parameter `score`, applied as `score(line, pattern)`.
   */
  function FilterFuzzy(lines: seq<string>, search: seq<string>, minScore: int,
                       score: (string, string) -> Option<int>): (r: seq<string>)
    ensures IsSubsequence(r, lines)
    ensures forall x :: (multiset(r)[x] ==
        if ScorePasses(score(x, SearchPattern(search)), minScore) then multiset(lines)[x] else 0)
  {
    var pattern := SearchPattern(search);
    var passes := line => ScorePasses(score(line, pattern), minScore);
    FilterIsSubsequence(lines, passes);
    forall x ensures multiset(Filter(lines, passes))[x] ==
      if ScorePasses(score(x, pattern), minScore) then multiset(lines)[x] else 0
    {
      FilterOccurrences(lines, passes, x);
    }
    Filter(lines, passes)
  }

  /** Lowering the minimum score never drops a line the higher minimum keeps. */
  lemma LowerScoreKeepsMore(lines: seq<string>, search: seq<string>, lower: int, minScore: int,
                            score: (string, string) -> Option<int>)
    requires lower <= minScore
    ensures IsSubsequence(FilterFuzzy(lines, search, minScore, score), FilterFuzzy(lines, search, lower, score))
  {
    var pattern := SearchPattern(search);
    forall o: Option<int> | ScorePasses(o, minScore) ensures ScorePasses(o, lower) { }
    FilterWeaker(lines, line => ScorePasses(score(line, pattern), minScore),
                 line => ScorePasses(score(line, pattern), lower));
  }

  /**
   * `filter_searched`: no search terms keep every line; otherwise the chosen
   * method decides.  Either way the result is a subsequence of the input.
   */
  function FilterSearched(lines: seq<string>, search: seq<string>, minScore: int,
                          method_: SearchMethod, score: (string, string) -> Option<int>): (r: seq<string>)
    ensures search == [] ==> r == lines
    ensures IsSubsequence(r, lines)
    ensures |r| <= |lines|
    ensures search != [] && method_ == Exact ==> r == FilterExact(lines, search)
    ensures search != [] && method_ == Fuzzy ==> r == FilterFuzzy(lines, search, minScore, score)
  {
    if |search| == 0 then
      SubsequenceReflexive(lines);
      lines
    else
      match method_
      case Exact => FilterExact(lines, search)
      case Fuzzy => FilterFuzzy(lines, search, minScore, score)
  }
}

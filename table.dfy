/**
 * `build_command_table`: count how often each distinct line occurs, then
 * order the (command, count) rows by count, most used first.  The order of
 * rows with equal counts is whatever the hash map's iteration produced and
 * is left unspecified.
 */
module CommandTable {
  import opened Seqs

  /** One row of the table: a command and how many times it was used. */
  datatype CommandUsage = CommandUsage(command: string, count: nat)

  /** Rows in non-increasing order of count. */
  predicate SortedByCount(t: seq<CommandUsage>)
  {
    forall i, j :: 0 <= i < j < |t| ==> t[i].count >= t[j].count
  }

  predicate DistinctCommands(t: seq<CommandUsage>)
  {
    forall i, j :: 0 <= i < j < |t| ==> t[i].command != t[j].command
  }

  /** Some row of `t` is about command `c`. */
  predicate Lists(t: seq<CommandUsage>, c: string)
  {
    exists k :: 0 <= k < |t| && t[k].command == c
  }

  /**
   * `t` is a frequency table of `lines`: one row per distinct line, and
   * each row's count is the number of times its command occurs in `lines`.
   */
  ghost predicate Tallies(t: seq<CommandUsage>, lines: seq<string>)
  {
    && DistinctCommands(t)
    && (forall k :: 0 <= k < |t| ==> t[k].count == multiset(lines)[t[k].command])
    && (forall c :: Lists(t, c) <==> c in lines)
  }

  /** The sum of the counts of a table. */
  function TotalCount(t: seq<CommandUsage>): nat
  {
    if t == [] then 0 else t[0].count + TotalCount(t[1..])
  }

  /** `build_command_table`: the frequency table of `lines`, most used first. */
  method BuildCommandTable(lines: seq<string>) returns (table: seq<CommandUsage>)
    ensures Tallies(table, lines)
    ensures SortedByCount(table)
    ensures TotalCount(table) == |lines|
  {
    var hash: map<string, nat> := map[];
    for i := 0 to |lines|
      invariant forall c :: c in hash <==> c in lines[..i]
      invariant forall c :: c in hash ==> hash[c] == multiset(lines[..i])[c]
    {
      var line := lines[i];
      assert lines[..i + 1] == lines[..i] + [line];
      var count := if line in hash then hash[line] else 0;
      hash := hash[line := count + 1];
    }
    assert lines[..|lines|] == lines;
    var entries := Entries(hash);
    var a := new CommandUsage[|entries|](k requires 0 <= k < |entries| => entries[k]);
    assert a[..] == entries;
    SortByCount(a);
    table := a[..];
    PermutationTallies(entries, table, lines);
    TalliesTotal(table, lines);
  }

  /**
   * The rows of a count map, one per key, in an unspecified order (the
   * source collects them from a hash map's iterator).
   */
  method Entries(hash: map<string, nat>) returns (entries: seq<CommandUsage>)
    ensures DistinctCommands(entries)
    ensures forall k :: 0 <= k < |entries| ==>
      entries[k].command in hash && entries[k].count == hash[entries[k].command]
    ensures forall c :: c in hash ==> Lists(entries, c)
  {
    entries := [];
    var rest := hash.Keys;
    while rest != {}
      invariant rest <= hash.Keys
      invariant forall k :: 0 <= k < |entries| ==>
        entries[k].command in hash.Keys - rest && entries[k].count == hash[entries[k].command]
      invariant forall c :: c in hash.Keys - rest ==> Lists(entries, c)
      invariant DistinctCommands(entries)
      decreases rest
    {
      var c :| c in rest;
      assert forall k :: 0 <= k < |entries| ==> entries[k].command != c;
      ghost var before := entries;
      entries := entries + [CommandUsage(c, hash[c])];
      forall d | d in hash.Keys - (rest - {c}) ensures Lists(entries, d) {
        if d == c {
          assert entries[|entries| - 1].command == d;
        } else {
          assert d in hash.Keys - rest;
          assert Lists(before, d);
          var k :| 0 <= k < |before| && before[k].command == d;
          assert entries[k].command == d;
        }
      }
      rest := rest - {c};
    }
  }

  /** The first `n` rows are in order of count. */
  predicate SortedPrefix(s: seq<CommandUsage>, n: nat)
  {
    forall p, q :: 0 <= p < q < n && q < |s| ==> s[p].count >= s[q].count
  }

  /**
   * The first `n + 1` rows are in order of count, except possibly between
   * the row at `gap` and the rows before it.
   */
  predicate SortedExcept(s: seq<CommandUsage>, n: nat, gap: nat)
  {
    forall p, q :: 0 <= p < q <= n && q < |s| && q != gap ==> s[p].count >= s[q].count
  }

  /** Swapping the row at `j` with its predecessor moves the gap one place down. */
  lemma SwapMovesGap(s: seq<CommandUsage>, i: nat, j: nat)
    requires 0 < j <= i < |s|
    requires SortedExcept(s, i, j)
    requires s[j - 1].count < s[j].count
    ensures SortedExcept(s[j - 1 := s[j]][j := s[j - 1]], i, j - 1)
    ensures multiset(s[j - 1 := s[j]][j := s[j - 1]]) == multiset(s)
  {
  }

  /** Once the row at the gap is in place, one more row is sorted. */
  lemma GapClosed(s: seq<CommandUsage>, i: nat, j: nat)
    requires j <= i < |s|
    requires SortedExcept(s, i, j)
    requires j == 0 || s[j - 1].count >= s[j].count
    ensures SortedPrefix(s, i + 1)
  {
  }

  /** In-place sort by count, most used first (a stable insertion sort). */
  method SortByCount(a: array<CommandUsage>)
    modifies a
    ensures SortedByCount(a[..])
    ensures multiset(a[..]) == old(multiset(a[..]))
  {
    var i := 0;
    while i < a.Length
      invariant 0 <= i <= a.Length
      invariant SortedPrefix(a[..], i)
      invariant multiset(a[..]) == old(multiset(a[..]))
    {
      var j := i;
      while j > 0 && a[j - 1].count < a[j].count
        invariant 0 <= j <= i
        invariant SortedExcept(a[..], i, j)
        invariant multiset(a[..]) == old(multiset(a[..]))
      {
        ghost var before := a[..];
        SwapMovesGap(before, i, j);
        a[j - 1], a[j] := a[j], a[j - 1];
        assert a[..] == before[j - 1 := before[j]][j := before[j - 1]];
        j := j - 1;
      }
      GapClosed(a[..], i, j);
      i := i + 1;
    }
  }

  /** Reordering the rows of a frequency table gives a frequency table of the same lines. */
  lemma PermutationTallies(a: seq<CommandUsage>, b: seq<CommandUsage>, lines: seq<string>)
    requires Tallies(a, lines)
    requires multiset(a) == multiset(b)
    ensures Tallies(b, lines)
  {
    forall k | 0 <= k < |b| ensures b[k] in a {
      assert b[k] in multiset(b);
    }
    forall c | Lists(a, c) ensures Lists(b, c) {
      var i :| 0 <= i < |a| && a[i].command == c;
      assert a[i] in multiset(a);
      var k :| 0 <= k < |b| && b[k] == a[i];
    }
    assert Distinct(a) by {
      forall i, j | 0 <= i < j < |a| ensures a[i] != a[j] {
        assert a[i].command != a[j].command;
      }
    }
    forall x ensures multiset(b)[x] <= 1 {
      DistinctOccursOnce(a, x);
    }
    OccursOnceDistinct(b);
  }

  // ---------------------------------------------------------------------
  // What a frequency table adds up to

  /** The number of rows of `t` about command `c`. */
  function RowsOf(t: seq<CommandUsage>, c: string): nat
  {
    if t == [] then 0 else (if t[0].command == c then 1 else 0) + RowsOf(t[1..], c)
  }

  /** The occurrences in `lines` of the commands of `t`, summed over the rows. */
  function Occurrences(t: seq<CommandUsage>, lines: seq<string>): nat
  {
    if t == [] then 0 else multiset(lines)[t[0].command] + Occurrences(t[1..], lines)
  }

  lemma {:induction false} OccurrencesInNothing(t: seq<CommandUsage>)
    ensures Occurrences(t, []) == 0
  {
    if t != [] {
      OccurrencesInNothing(t[1..]);
    }
  }

  /** One more line adds one occurrence per row about it. */
  lemma {:induction false} OccurrencesCons(t: seq<CommandUsage>, x: string, rest: seq<string>)
    ensures Occurrences(t, [x] + rest) == Occurrences(t, rest) + RowsOf(t, x)
  {
    if t != [] {
      OccurrencesCons(t[1..], x, rest);
      assert multiset([x] + rest) == multiset([x]) + multiset(rest);
    }
  }

  /** With distinct commands, a command has one row if it is listed and none otherwise. */
  lemma {:induction false} RowsOfDistinct(t: seq<CommandUsage>, x: string)
    requires DistinctCommands(t)
    ensures RowsOf(t, x) == if Lists(t, x) then 1 else 0
  {
    if t != [] {
      var tail := t[1..];
      assert DistinctCommands(tail) by {
        forall i, j | 0 <= i < j < |tail| ensures tail[i].command != tail[j].command {
          assert tail[i] == t[i + 1] && tail[j] == t[j + 1];
        }
      }
      RowsOfDistinct(tail, x);
      forall k | 0 <= k < |tail| ensures tail[k].command == x ==> Lists(t, x) {
        assert tail[k] == t[k + 1];
      }
      if t[0].command == x {
        forall k | 0 <= k < |tail| ensures tail[k].command != x {
          assert tail[k] == t[k + 1];
        }
      } else if Lists(t, x) {
        var k :| 0 <= k < |t| && t[k].command == x;
        assert tail[k - 1].command == x;
      }
    }
  }

  /** A table with distinct commands that lists every line accounts for every line once. */
  lemma {:induction false} CoveringOccurrences(t: seq<CommandUsage>, lines: seq<string>)
    requires DistinctCommands(t)
    requires forall k :: 0 <= k < |lines| ==> Lists(t, lines[k])
    ensures Occurrences(t, lines) == |lines|
  {
    if lines == [] {
      OccurrencesInNothing(t);
    } else {
      assert lines == [lines[0]] + lines[1..];
      OccurrencesCons(t, lines[0], lines[1..]);
      RowsOfDistinct(t, lines[0]);
      CoveringOccurrences(t, lines[1..]);
    }
  }

  lemma {:induction false} TotalCountIsOccurrences(t: seq<CommandUsage>, lines: seq<string>)
    requires forall k :: 0 <= k < |t| ==> t[k].count == multiset(lines)[t[k].command]
    ensures TotalCount(t) == Occurrences(t, lines)
  {
    if t != [] {
      TotalCountIsOccurrences(t[1..], lines);
    }
  }

  lemma {:induction false} PositiveCountsBoundLength(t: seq<CommandUsage>)
    requires forall k :: 0 <= k < |t| ==> t[k].count >= 1
    ensures |t| <= TotalCount(t)
  {
    if t != [] {
      PositiveCountsBoundLength(t[1..]);
    }
  }

  /**
   * Every row of a frequency table counts at least one use, the counts add
   * up to the number of lines, so there are never more rows than lines.
   */
  lemma TalliesTotal(t: seq<CommandUsage>, lines: seq<string>)
    requires Tallies(t, lines)
    ensures forall k :: 0 <= k < |t| ==> t[k].count >= 1
    ensures TotalCount(t) == |lines|
    ensures |t| <= |lines|
  {
    forall k | 0 <= k < |t| ensures t[k].count >= 1 {
      assert Lists(t, t[k].command);
    }
    forall k | 0 <= k < |lines| ensures Lists(t, lines[k]) {
      assert lines[k] in lines;
    }
    TotalCountIsOccurrences(t, lines);
    CoveringOccurrences(t, lines);
    PositiveCountsBoundLength(t);
  }

  // ---------------------------------------------------------------------
  // The table as a set of rows

  /** The frequency table of `lines` as a set: one row per distinct line, with its number of occurrences. */
  ghost function Frequencies(lines: seq<string>): set<CommandUsage>
  {
    set l | l in lines :: CommandUsage(l, multiset(lines)[l])
  }

  /** The commands of a table. */
  ghost function CommandSet(t: seq<CommandUsage>): set<string>
  {
    set k | 0 <= k < |t| :: t[k].command
  }

  lemma {:induction false} DistinctCommandsCardinality(t: seq<CommandUsage>)
    requires DistinctCommands(t)
    ensures |CommandSet(t)| == |t|
  {
    if t != [] {
      var tail := t[1..];
      assert DistinctCommands(tail) by {
        forall i, j | 0 <= i < j < |tail| ensures tail[i].command != tail[j].command {
          assert tail[i] == t[i + 1] && tail[j] == t[j + 1];
        }
      }
      DistinctCommandsCardinality(tail);
      assert CommandSet(t) == {t[0].command} + CommandSet(tail) by {
        forall c | c in CommandSet(t) ensures c in {t[0].command} + CommandSet(tail) {
          var k :| 0 <= k < |t| && t[k].command == c;
          if k > 0 {
            assert tail[k - 1].command == c;
          }
        }
        forall c | c in CommandSet(tail) ensures c in CommandSet(t) {
          var k :| 0 <= k < |tail| && tail[k].command == c;
          assert t[k + 1].command == c;
        }
      }
      assert t[0].command !in CommandSet(tail) by {
        forall k | 0 <= k < |tail| ensures tail[k].command != t[0].command {
          assert tail[k] == t[k + 1];
        }
      }
    }
  }

  /**
   * A frequency table holds exactly the rows of `Frequencies`, and has as
   * many rows as there are distinct lines: it is determined up to the order
   * of its rows.
   */
  lemma TalliesAreFrequencies(t: seq<CommandUsage>, lines: seq<string>)
    requires Tallies(t, lines)
    ensures (set k | 0 <= k < |t| :: t[k]) == Frequencies(lines)
    ensures |t| == |set l | l in lines|
  {
    forall k | 0 <= k < |t| ensures t[k] in Frequencies(lines) {
      assert Lists(t, t[k].command);
    }
    forall row | row in Frequencies(lines) ensures exists k :: 0 <= k < |t| && t[k] == row {
      var l :| l in lines && row == CommandUsage(l, multiset(lines)[l]);
      var k :| 0 <= k < |t| && t[k].command == l;
      assert t[k] == row;
    }
    assert CommandSet(t) == set l | l in lines by {
      forall c | c in CommandSet(t) ensures c in lines {
        var k :| 0 <= k < |t| && t[k].command == c;
        assert Lists(t, c);
      }
      forall c | c in lines ensures c in CommandSet(t) {
        var k :| 0 <= k < |t| && t[k].command == c;
      }
    }
    DistinctCommandsCardinality(t);
  }
}

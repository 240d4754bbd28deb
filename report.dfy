/**
 * The index arithmetic of `print_command_table`: how many rows each half of
 * the report shows, and which rows of the ranked table they are.  The text
 * formatting is not modelled; the rows are returned instead of printed.
 */
module Report {
  import opened Wrappers
  import opened CommandTable

  /** The table indices of the "most used" and of the "least used" half, in printing order. */
  datatype Slices = Slices(top: seq<nat>, bottom: seq<nat>)

  /** `table.len() - 1` on an empty table: an unsigned subtraction below zero. */
  datatype SliceError = Underflow

  /** `max_count`: at most `count` rows per half, and never more than half the table. */
  function MaxCount(len: nat, count: nat): (m: nat)
    ensures m <= count && 2 * m <= len
    ensures m == count || m == len / 2
  {
    if len / 2 <= count then len / 2 else count
  }

  /** The range `lo..hi`. */
  function Ascending(lo: nat, hi: nat): (r: seq<nat>)
    requires lo <= hi
  {
    seq(hi - lo, k => lo + k)
  }

  /** The range `(lo..hi).rev()`. */
  function Descending(lo: nat, hi: nat): (r: seq<nat>)
    requires lo <= hi
  {
    seq(hi - lo, k requires 0 <= k < hi - lo => hi - 1 - k)
  }

  /**
   * The indices as the source computes them: the top half is `0..max_count`,
   * the bottom half `(last - max_count)..last` reversed with `last = len - 1`,
   * and an empty table makes `len - 1` underflow.  Every index it yields is
   * within the table, but the bottom half stops one short of the last row.
   */
  function SliceAsWritten(len: nat, count: nat): (r: Result<Slices, SliceError>)
    ensures r.Err? <==> len == 0
    ensures r.Ok? ==> |r.value.top| == |r.value.bottom| == MaxCount(len, count)
    ensures r.Ok? ==> forall i <- r.value.top :: i < len
    ensures r.Ok? ==> forall i <- r.value.bottom :: i < len - 1
    ensures r.Ok? ==> forall k :: 0 <= k < |r.value.top| ==> r.value.top[k] == k
    ensures r.Ok? ==> forall k :: 0 <= k < |r.value.bottom| ==> r.value.bottom[k] == len - 2 - k
  {
    if len == 0 then Err(Underflow)
    else
      var m := MaxCount(len, count);
      var last := len - 1;
      Ok(Slices(Ascending(0, m), Descending(last - m, last)))
  }

  /** As written, the least used row of a table of two or more rows is never reported. */
  lemma AsWrittenSkipsLastRow(len: nat, count: nat)
    requires len >= 2 && count >= 1
    ensures SliceAsWritten(len, count).Ok?
    ensures len - 1 !in SliceAsWritten(len, count).value.top
    ensures len - 1 !in SliceAsWritten(len, count).value.bottom
    ensures |SliceAsWritten(len, count).value.bottom| >= 1
  {
  }

  /**
   * As written, when the table has an even number of rows and `count`
   * reaches half of it, the middle row is reported both as one of the most
   * used and as one of the least used.
   */
  lemma AsWrittenRepeatsMiddleRow(len: nat, count: nat)
    requires len >= 2 && len % 2 == 0 && count >= len / 2
    ensures SliceAsWritten(len, count).Ok?
    ensures len / 2 - 1 in SliceAsWritten(len, count).value.top
    ensures len / 2 - 1 in SliceAsWritten(len, count).value.bottom
  {
    var s := SliceAsWritten(len, count).value;
    assert s.top[len / 2 - 1] == len / 2 - 1;
    assert s.bottom[len / 2 - 1] == len / 2 - 1;
  }

  /**
   * A sorted table whose least used command is missed: with counts 3, 2, 1
   * and one row per half, the "least used" half shows the row used twice.
   */
  lemma AsWrittenReportsWrongLeast()
    ensures var t := [CommandUsage("ls", 3), CommandUsage("cd", 2), CommandUsage("git", 1)];
      && SortedByCount(t)
      && SliceAsWritten(|t|, 1) == Ok(Slices([0], [1]))
      && t[1].count > t[2].count
  {
    var s := SliceAsWritten(3, 1).value;
    assert s.top == [0];
    assert s.bottom == [1];
  }

  /**
   * The indices the report evidently means: the first `max_count` rows, then
   * the last `max_count` rows from the last one backwards.  There is nothing
   * to subtract from on an empty table, every index is within the table, and
   * no row is in both halves.
   */
  function Slice(len: nat, count: nat): (r: Slices)
    ensures |r.top| == |r.bottom| == MaxCount(len, count)
    ensures forall k :: 0 <= k < |r.top| ==> r.top[k] == k
    ensures forall k :: 0 <= k < |r.bottom| ==> r.bottom[k] == len - 1 - k
    ensures forall i <- r.top :: i < len
    ensures forall i <- r.bottom :: i < len
    ensures forall i: nat :: i in r.top <==> i < MaxCount(len, count)
    ensures forall i: nat :: i in r.bottom <==> len - MaxCount(len, count) <= i < len
    ensures forall i <- r.top :: i !in r.bottom
    ensures |r.top| + |r.bottom| <= len
  {
    var m := MaxCount(len, count);
    var top := Ascending(0, m);
    var bottom := Descending(len - m, len);
    assert forall i: nat :: i < m ==> i in top by {
      forall i: nat | i < m ensures i in top {
        assert top[i] == i;
      }
    }
    assert forall i: nat :: len - m <= i < len ==> i in bottom by {
      forall i: nat | len - m <= i < len ensures i in bottom {
        assert bottom[len - 1 - i] == i;
      }
    }
    Slices(top, bottom)
  }

  /** On a table sorted by count, the top half holds the most used rows. */
  lemma TopRowsAreMostUsed(table: seq<CommandUsage>, count: nat)
    requires SortedByCount(table)
    ensures var top := Slice(|table|, count).top;
      forall i, j :: i in top && 0 <= j < |table| && j !in top ==> table[i].count >= table[j].count
  {
    var top := Slice(|table|, count).top;
    forall i, j | i in top && 0 <= j < |table| && j !in top ensures table[i].count >= table[j].count {
    }
  }

  /** On a table sorted by count, the bottom half holds the least used rows, the least used first. */
  lemma BottomRowsAreLeastUsed(table: seq<CommandUsage>, count: nat)
    requires SortedByCount(table)
    ensures var bottom := Slice(|table|, count).bottom;
      forall i, j :: j in bottom && 0 <= i < |table| && i !in bottom ==> table[i].count >= table[j].count
    ensures var bottom := Slice(|table|, count).bottom;
      forall k :: 0 < k < |bottom| ==> table[bottom[k - 1]].count <= table[bottom[k]].count
  {
    var bottom := Slice(|table|, count).bottom;
    var len := |table|;
    forall i, j | j in bottom && 0 <= i < len && i !in bottom ensures table[i].count >= table[j].count {
    }
  }

  /**
   * `print_command_table` without the printing: the rows of the two halves,
   * in the order they are printed, taken at the indices of `Slice`.
   */
  method CommandTableRows(table: seq<CommandUsage>, count: nat)
    returns (most: seq<CommandUsage>, least: seq<CommandUsage>)
    ensures var s := Slice(|table|, count);
      && |most| == |s.top| && (forall k :: 0 <= k < |most| ==> most[k] == table[s.top[k]])
      && |least| == |s.bottom| && (forall k :: 0 <= k < |least| ==> least[k] == table[s.bottom[k]])
    ensures |most| + |least| <= |table|
  {
    var len := |table|;
    var maxCount := MaxCount(len, count);
    most := [];
    for top := 0 to maxCount
      invariant most == table[..top]
    {
      most := most + [table[top]];
    }
    least := [];
    var bottom := len;
    while bottom > len - maxCount
      invariant len - maxCount <= bottom <= len
      invariant |least| == len - bottom
      invariant forall k :: 0 <= k < |least| ==> least[k] == table[len - 1 - k]
    {
      bottom := bottom - 1;
      least := least + [table[bottom]];
    }
  }
}

/**
 * One column of the byte table, built the way the analyzer builds it: the
 * constructor fills the fields one after another, each by a method that loops
 * over the rows or over the gapped column.
 */
module Analyzer {
  import opened Common
  import opened ColumnSpec

  /** The highest polynomial degree the residual fit may choose. */
  const MaxDegree: nat := 1

  class Column {
    const maximumDegree: nat
    const rowCount: nat
    const byteList: Cells
    const entryList: Cells
    var frequencies: map<Option<Byte>, nat>
    var entryCount: nat
    var longestSlice: Slice

    /**
     * Builds column `index` of `sequence`, setting the fields in the order the
     * analyzer does: each later field is computed from `byteList`.
     */
    constructor (sequence: Table, index: nat)
      ensures maximumDegree == MaxDegree
      ensures rowCount == |sequence|
      ensures byteList == GappedColumn(sequence, index)
      ensures entryList == Present(byteList)
      ensures frequencies == Histogram(byteList)
      ensures entryCount == CountPresent(byteList)
      ensures IsLongestSlice(byteList, longestSlice)
      ensures |entryList| == entryCount <= rowCount
    {
      maximumDegree := MaxDegree;
      rowCount := |sequence|;
      var gapped := GetByteList(sequence, index);
      byteList := gapped;
      var entries := GetByteList(sequence, index, false);
      entryList := entries;
      new;
      var counts := GetFrequencies();
      var present := GetEntryCount();
      var run := GetLongestEntrySlice();
      frequencies, entryCount, longestSlice := counts, present, run;
    }

    /**
     * The bytes at `index`, one per row. With `fill` a too-short row gives
     * `None`; without it the row is skipped, leaving the entries in row order.
     */
    static method GetByteList(sequence: Table, index: nat, fill: bool := true) returns (byteList: Cells)
      ensures byteList == ColumnCells(sequence, index, fill)
    {
      byteList := [];
      for i := 0 to |sequence|
        invariant byteList == ColumnCells(sequence[..i], index, fill)
      {
        var row := sequence[i];
        ColumnCellsStep(sequence, i, index, fill);
        ghost var c := Cell(row, index);
        if index > |row| - 1 {
          assert c == None;
          if fill {
            byteList := byteList + [None];
          }
        } else {
          assert c == Some(row[index]);
          byteList := byteList + [Some(row[index])];
        }
      }
      assert sequence[..|sequence|] == sequence;
    }

    /**
     * The longest run of rows that all have a byte at this column, as
     * `slice(start, stop)`; on a tie the earliest run wins.
     */
    method GetLongestEntrySlice() returns (s: Slice)
      requires |byteList| == rowCount
      ensures IsLongestSlice(byteList, s)
    {
      var start := 0;
      var stop := 0;
      var newStart := 0;
      var newStop := newStart;
      while newStart < rowCount
        invariant 0 <= start <= stop <= newStart <= rowCount && newStop == newStart
        invariant stop == start ==> start == 0
        invariant GapFree(byteList, start, stop)
        invariant start == 0 || byteList[start - 1].None?
        invariant stop == start || stop == rowCount || byteList[stop].None?
        invariant newStart > 0 ==> byteList[newStart - 1].None?
        invariant BestUpTo(byteList, start, stop, newStart)
        decreases rowCount - newStart
      {
        var hitGap := false;
        while newStop < rowCount
          invariant 0 <= start <= stop <= newStart <= newStop <= rowCount
          invariant stop == start ==> start == 0
          invariant GapFree(byteList, start, stop)
          invariant start == 0 || byteList[start - 1].None?
          invariant stop == start || stop == rowCount || byteList[stop].None?
          invariant newStart > 0 ==> byteList[newStart - 1].None?
          invariant BestUpTo(byteList, start, stop, newStart)
          invariant GapFree(byteList, newStart, newStop)
          invariant !hitGap
          decreases rowCount - newStop
        {
          if byteList[newStop] == None {
            ExtendBest(byteList, start, stop, newStart, newStop);
            if newStop - newStart > stop - start {
              start := newStart;
              stop := newStop;
            }
            newStart := newStop + 1;
            newStop := newStart;
            hitGap := true;
            break;
          } else {
            newStop := newStop + 1;
          }
        }
        if !hitGap {
          // The scan reached the end of the column without meeting a gap.
          ExtendBest(byteList, start, stop, newStart, newStop);
          if newStop - newStart > stop - start {
            start := newStart;
            stop := newStop;
          }
          break;
        }
      }
      if start == stop && rowCount > 0 {
        assert !GapFree(byteList, 0, 1);
      }
      s := Slice(start, stop);
    }

    /** The frequency dictionary of the gapped column, gaps counted under `None`. */
    method GetFrequencies() returns (frequencies: map<Option<Byte>, nat>)
      ensures frequencies == Histogram(byteList)
    {
      frequencies := map[];
      for i := 0 to |byteList|
        invariant frequencies == Histogram(byteList[..i])
      {
        var b := byteList[i];
        assert byteList[..i + 1] == byteList[..i] + [b];
        HistogramAppend(byteList[..i], b);
        // `frequencies.get(b)` is truthy exactly when `b` is a key with a non-zero count.
        if b in frequencies && frequencies[b] != 0 {
          frequencies := frequencies[b := frequencies[b] + 1];
        } else {
          frequencies := frequencies[b := 1];
        }
      }
      assert byteList[..|byteList|] == byteList;
    }

    /** The number of rows that have a byte at this column. */
    method GetEntryCount() returns (entryCount: nat)
      ensures entryCount == CountPresent(byteList)
      ensures entryCount == |byteList| - multiset(byteList)[None]
    {
      entryCount := 0;
      for i := 0 to |byteList|
        invariant entryCount + CountPresent(byteList[i..]) == CountPresent(byteList)
      {
        var b := byteList[i];
        assert byteList[i..] == [b] + byteList[i + 1..];
        if b != None {
          entryCount := entryCount + 1;
        }
      }
    }
  }
}

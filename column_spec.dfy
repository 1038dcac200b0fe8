/**
 * The value-level meaning of one column of a ragged byte table: the gapped
 * column, its entries, their count, the frequency dictionary and the longest
 * gap-free slice. The class `Analyzer.Column` is proved against these.
 */
module ColumnSpec {
  import opened Common

  type Cells = seq<Option<Byte>>

  /** What row `row` contributes at `index`: its byte, or `None` when it is too short. */
  function Cell(row: Row, index: nat): Option<Byte> {
    if index < |row| then Some(row[index]) else None
  }

  /** The gapped column: exactly one entry per row, in row order. */
  function GappedColumn(t: Table, index: nat): (g: Cells)
    ensures |g| == |t|
  {
    if t == [] then [] else [Cell(t[0], index)] + GappedColumn(t[1..], index)
  }

  /** Row `i` of the table decides entry `i` of the gapped column, and nothing else does. */
  lemma {:induction false} GappedColumnAt(t: Table, index: nat)
    ensures forall i :: 0 <= i < |t| ==> GappedColumn(t, index)[i] == Cell(t[i], index)
  {
    if t != [] {
      GappedColumnAt(t[1..], index);
    }
  }

  /** The number of rows that have a byte at this column. */
  function CountPresent(g: Cells): (n: nat)
    ensures n == |g| - multiset(g)[None]
  {
    if g == [] then 0
    else
      assert g == [g[0]] + g[1..];
      (if g[0].Some? then 1 else 0) + CountPresent(g[1..])
  }

  /** The entry list: the gapped column with every `None` dropped and the bytes kept in order. */
  function Present(g: Cells): (e: Cells)
    ensures |e| == CountPresent(g)
    ensures forall k :: 0 <= k < |e| ==> e[k].Some?
  {
    if g == [] then []
    else
      assert g == [g[0]] + g[1..];
      (if g[0].Some? then [g[0]] else []) + Present(g[1..])
  }

  /** The entries are the column's bytes, each as often as it occurs, and no `None`. */
  lemma {:induction false} PresentMultiset(g: Cells)
    ensures forall v :: multiset(Present(g))[v] == if v.None? then 0 else multiset(g)[v]
  {
    if g != [] {
      assert g == [g[0]] + g[1..];
      PresentMultiset(g[1..]);
    }
  }

  /** Dropping the gaps commutes with concatenation, so the entries keep their row order. */
  lemma {:induction false} PresentConcat(a: Cells, b: Cells)
    ensures Present(a + b) == Present(a) + Present(b)
  {
    if a == [] {
      assert a + b == b;
    } else {
      assert (a + b)[0] == a[0];
      assert (a + b)[1..] == a[1..] + b;
      PresentConcat(a[1..], b);
    }
  }

  /**
   * The frequency dictionary: every value occurring in the gapped column,
   * `None` included, mapped to its number of occurrences.
   */
  function Histogram(g: Cells): (h: map<Option<Byte>, nat>)
    ensures forall v :: v in h <==> v in g
    ensures forall v :: v in h ==> h[v] == multiset(g)[v] >= 1
  {
    map v | v in g :: multiset(g)[v]
  }

  /** Counting one more value: its count goes up by one, starting from an absent key. */
  lemma HistogramAppend(g: Cells, x: Option<Byte>)
    ensures var h := Histogram(g);
            Histogram(g + [x]) == h[x := (if x in h then h[x] else 0) + 1]
  {
    var h, h' := Histogram(g), Histogram(g + [x]);
    var want := h[x := (if x in h then h[x] else 0) + 1];
    assert multiset(g + [x]) == multiset(g) + multiset{x};
    forall v ensures v in h' <==> v in want {
      assert v in g + [x] <==> v in g || v == x;
    }
    forall v | v in h' ensures h'[v] == want[v] {
    }
  }

  /** Sum of the counts the dictionary holds for the byte keys below `k`; absent keys count 0. */
  function ByteCountSum(h: map<Option<Byte>, nat>, k: nat): nat
    requires k <= 256
  {
    if k == 0 then 0
    else ByteCountSum(h, k - 1) + (if Some(k - 1) in h then h[Some(k - 1)] else 0)
  }

  /** Sum of the multiplicities of the byte values below `k`. */
  ghost function MultisetByteSum(m: multiset<Option<Byte>>, k: nat): nat
    requires k <= 256
  {
    if k == 0 then 0 else MultisetByteSum(m, k - 1) + m[Some(k - 1)]
  }

  lemma {:induction false} HistogramByteSumIsMultisetSum(g: Cells, k: nat)
    requires k <= 256
    ensures ByteCountSum(Histogram(g), k) == MultisetByteSum(multiset(g), k)
  {
    if k > 0 {
      HistogramByteSumIsMultisetSum(g, k - 1);
    }
  }

  lemma {:induction false} MultisetByteSumAdd(m: multiset<Option<Byte>>, x: Option<Byte>, k: nat)
    requires k <= 256
    ensures MultisetByteSum(m + multiset{x}, k)
            == MultisetByteSum(m, k) + (if x.Some? && x.value < k then 1 else 0)
  {
    if k > 0 {
      MultisetByteSumAdd(m, x, k - 1);
    }
  }

  lemma {:induction false} MultisetByteSumCountsPresent(g: Cells)
    ensures MultisetByteSum(multiset(g), 256) == CountPresent(g)
  {
    if g == [] {
      assert multiset(g) == multiset{};
      MultisetByteSumEmpty(256);
    } else {
      assert g == [g[0]] + g[1..];
      assert multiset(g) == multiset(g[1..]) + multiset{g[0]};
      MultisetByteSumCountsPresent(g[1..]);
      MultisetByteSumAdd(multiset(g[1..]), g[0], 256);
    }
  }

  lemma {:induction false} MultisetByteSumEmpty(k: nat)
    requires k <= 256
    ensures MultisetByteSum(multiset{}, k) == 0
  {
    if k > 0 {
      MultisetByteSumEmpty(k - 1);
    }
  }

  /**
   * The counts of the 256 byte keys add up to the entry count, and `None` is
   * a key exactly when some row is too short, with the number of such rows.
   * So the counts of all the keys together add up to the number of rows.
   */
  lemma HistogramTotals(g: Cells)
    ensures ByteCountSum(Histogram(g), 256) == CountPresent(g)
    ensures None in Histogram(g) <==> |g| - CountPresent(g) > 0
    ensures None in Histogram(g) ==> Histogram(g)[None] == |g| - CountPresent(g)
    ensures ByteCountSum(Histogram(g), 256) + (if None in Histogram(g) then Histogram(g)[None] else 0) == |g|
  {
    HistogramByteSumIsMultisetSum(g, 256);
    MultisetByteSumCountsPresent(g);
  }

  lemma {:induction false} GappedColumnConcat(a: Table, b: Table, index: nat)
    ensures GappedColumn(a + b, index) == GappedColumn(a, index) + GappedColumn(b, index)
  {
    var l, r := GappedColumn(a + b, index), GappedColumn(a, index) + GappedColumn(b, index);
    assert |l| == |r|;
    GappedColumnAt(a + b, index);
    GappedColumnAt(a, index);
    GappedColumnAt(b, index);
    forall i | 0 <= i < |l| ensures l[i] == r[i] {
      if i < |a| {
        assert (a + b)[i] == a[i];
      } else {
        assert (a + b)[i] == b[i - |a|];
      }
    }
  }

  /**
   * The column as the analyzer collects it: with `fill`, one cell per row;
   * without, only the rows that reach `index`.
   */
  function ColumnCells(t: Table, index: nat, fill: bool): Cells {
    if fill then GappedColumn(t, index) else Present(GappedColumn(t, index))
  }

  /** Collecting one more row appends its cell, unless the row is too short and gaps are not kept. */
  lemma ColumnCellsStep(t: Table, i: nat, index: nat, fill: bool)
    requires i < |t|
    ensures var c := Cell(t[i], index);
            ColumnCells(t[..i + 1], index, fill)
            == ColumnCells(t[..i], index, fill) + (if fill || c.Some? then [c] else [])
  {
    var c := Cell(t[i], index);
    assert t[..i + 1] == t[..i] + [t[i]];
    GappedColumnConcat(t[..i], [t[i]], index);
    assert GappedColumn([t[i]], index) == [c];
    if !fill {
      PresentConcat(GappedColumn(t[..i], index), [c]);
      assert Present([c]) == (if c.Some? then [c] else []) + Present([]);
    }
  }

  /** Reordering the rows reorders the gapped column: the same entries, the same number of times. */
  lemma {:induction false} GappedColumnPermutation(t1: Table, t2: Table, index: nat)
    requires multiset(t1) == multiset(t2)
    ensures multiset(GappedColumn(t1, index)) == multiset(GappedColumn(t2, index))
    decreases |t1|
  {
    if t1 == [] {
      assert |t2| == |multiset(t2)| == 0;
    } else {
      assert t1[0] in multiset(t2);
      var j :| 0 <= j < |t2| && t2[j] == t1[0];
      RemoveRow(t1, t2, j);
      GappedColumnPermutation(t1[1..], t2[..j] + t2[j + 1..], index);
      GappedColumnWithout(t2, j, index);
      assert GappedColumn(t1, index) == [Cell(t1[0], index)] + GappedColumn(t1[1..], index);
    }
  }

  /** The gapped column of a table holds row `j`'s cell plus the gapped column of the other rows. */
  lemma GappedColumnWithout(t: Table, j: nat, index: nat)
    requires j < |t|
    ensures multiset(GappedColumn(t, index))
            == multiset{Cell(t[j], index)} + multiset(GappedColumn(t[..j] + t[j + 1..], index))
  {
    var before, rest, after := t[..j], t[j..], t[j + 1..];
    var c := Cell(t[j], index);
    assert t == before + rest;
    assert rest[1..] == after;
    GappedColumnConcat(before, rest, index);
    GappedColumnConcat(before, after, index);
    assert GappedColumn(rest, index) == [c] + GappedColumn(after, index);
    assert GappedColumn(t, index) == GappedColumn(before, index) + ([c] + GappedColumn(after, index));
  }

  /** Taking the first row off one table and a matching row `j` off its permutation leaves permutations. */
  lemma RemoveRow(t1: Table, t2: Table, j: nat)
    requires multiset(t1) == multiset(t2) && t1 != [] && j < |t2| && t2[j] == t1[0]
    ensures multiset(t1[1..]) == multiset(t2[..j] + t2[j + 1..])
  {
    var x := t1[0];
    assert t1 == [x] + t1[1..];
    assert t2 == t2[..j] + [x] + t2[j + 1..];
    assert multiset(t1[1..]) == multiset(t1) - multiset{x};
    assert multiset(t2) == multiset(t2[..j]) + multiset{x} + multiset(t2[j + 1..]);
    assert multiset(t2[..j] + t2[j + 1..]) == multiset(t2) - multiset{x};
  }

  /** Permuting the rows leaves the frequency dictionary and the entry count unchanged. */
  lemma ColumnPermutationInvariant(t1: Table, t2: Table, index: nat)
    requires multiset(t1) == multiset(t2)
    ensures Histogram(GappedColumn(t1, index)) == Histogram(GappedColumn(t2, index))
    ensures CountPresent(GappedColumn(t1, index)) == CountPresent(GappedColumn(t2, index))
  {
    GappedColumnPermutation(t1, t2, index);
  }

  /** No gap in the positions `[a, b)`. */
  ghost predicate GapFree(g: Cells, a: int, b: int)
    requires 0 <= a <= b <= |g|
  {
    forall k :: a <= k < b ==> g[k].Some?
  }

  /**
   * `[start, stop)` beats every gap-free range ending at or before `bound`:
   * none is longer, and one as long does not start earlier.
   */
  ghost predicate BestUpTo(g: Cells, start: int, stop: int, bound: int)
    requires bound <= |g|
  {
    forall a, b :: 0 <= a <= b <= bound && GapFree(g, a, b) ==>
      b - a <= stop - start && (b - a == stop - start ==> start <= a)
  }

  /**
   * What `get_longest_entry_slice` returns: a gap-free slice bounded by a gap or the
   * column's end on both sides, longer than every other gap-free range and,
   * among ranges as long, the earliest.
   */
  ghost predicate IsLongestSlice(g: Cells, r: Slice) {
    && 0 <= r.start <= r.stop <= |g|
    && GapFree(g, r.start, r.stop)
    && (r.start == 0 || g[r.start - 1].None?)
    && (r.stop == |g| || g[r.stop].None?)
    && BestUpTo(g, r.start, r.stop, |g|)
  }

  /**
   * One step of the scan: the candidate `[s, e)` runs from just after a gap (or
   * the start) to just before a gap (or the end). Keeping whichever of it and the
   * best so far is strictly longer (the best so far on a tie) gives the best of
   * all ranges ending before the next candidate starts.
   */
  lemma ExtendBest(g: Cells, start: int, stop: int, s: int, e: int)
    requires 0 <= start <= stop <= s <= e <= |g|
    requires stop == start ==> start == 0
    requires s > 0 ==> g[s - 1].None?
    requires e < |g| ==> g[e].None?
    requires GapFree(g, s, e)
    requires BestUpTo(g, start, stop, s)
    ensures e - s > stop - start ==> BestUpTo(g, s, e, if e < |g| then e + 1 else e)
    ensures e - s <= stop - start ==> BestUpTo(g, start, stop, if e < |g| then e + 1 else e)
  {
    var bound := if e < |g| then e + 1 else e;
    forall a, b | 0 <= a <= b <= bound && GapFree(g, a, b)
      ensures e - s > stop - start ==> b - a <= e - s && (b - a == e - s ==> s <= a)
      ensures e - s <= stop - start ==> b - a <= stop - start && (b - a == stop - start ==> start <= a)
    {
      if s > 0 {
        RunAvoidsGap(g, a, b, s - 1);
      }
      if e < |g| {
        RunAvoidsGap(g, a, b, e);
      }
      if a < b && b <= s {
        assert b - a <= stop - start && (b - a == stop - start ==> start <= a);
      }
    }
  }

  /** A gap-free range lies wholly before or wholly after any gap. */
  lemma RunAvoidsGap(g: Cells, a: int, b: int, k: int)
    requires 0 <= a <= b <= |g| && GapFree(g, a, b)
    requires 0 <= k < |g| && g[k].None?
    ensures b <= k || k < a
  {
  }

  /** The specification fixes the result: at most one slice is the longest earliest one. */
  lemma LongestSliceUnique(g: Cells, r1: Slice, r2: Slice)
    requires IsLongestSlice(g, r1) && IsLongestSlice(g, r2)
    ensures r1 == r2
  {
    assert GapFree(g, r1.start, r1.stop) && GapFree(g, r2.start, r2.stop);
  }

  /** The slice is empty exactly when the column has no entry, and then it is `slice(0, 0)`. */
  lemma LongestSliceEmpty(g: Cells, r: Slice)
    requires IsLongestSlice(g, r)
    ensures r.start == r.stop <==> forall k :: 0 <= k < |g| ==> g[k].None?
    ensures r.start == r.stop ==> r == Slice(0, 0)
  {
    if r.start == r.stop {
      forall k | 0 <= k < |g| ensures g[k].None? {
        assert !GapFree(g, k, k + 1);
      }
      assert GapFree(g, 0, 0);
    } else {
      assert g[r.start].Some?;
    }
  }

  /** A gap-free range is no longer than the column's entry count. */
  lemma {:induction false} RunWithinEntries(g: Cells, a: int, b: int)
    requires 0 <= a <= b <= |g| && GapFree(g, a, b)
    ensures b - a <= CountPresent(g)
    decreases |g|
  {
    if a < b {
      assert g == [g[0]] + g[1..];
      if a > 0 {
        assert GapFree(g[1..], a - 1, b - 1);
        RunWithinEntries(g[1..], a - 1, b - 1);
      } else {
        assert g[0].Some?;
        assert GapFree(g[1..], 0, b - 1);
        RunWithinEntries(g[1..], 0, b - 1);
      }
    }
  }

  /**
   * A gapped column `[6, None, 6]` has two longest runs of length one; the
   * earlier, `slice(0, 1)`, is the one the slice search must return.
   */
  lemma TieBreakExample()
    ensures IsLongestSlice([Some(6), None, Some(6)], Slice(0, 1))
  {
    var g: Cells := [Some(6), None, Some(6)];
    forall a, b | 0 <= a <= b <= |g| && GapFree(g, a, b)
      ensures b - a <= 1 && (b - a == 1 ==> 0 <= a)
    {
      RunAvoidsGap(g, a, b, 1);
    }
  }
}

/**
 * The hand-written sorting engine of threads_sockets/threading_ed2.py: an
 * optimised bubble sort that works on a copy of the table, a three-way
 * quick sort around the middle row, and the `timeit` decorator that pairs a
 * result with the time the call took.
 */
module Engine {
  import opened Seqs
  import opened Tables

  /** What a call decorated with `timeit` returns: the result and the clock difference. */
  datatype Timed<T> = Timed(result: T, elapsed: real)

  /**
   * The decorator: the wrapped call's result paired with the difference of the
   * clock readings taken just before and just after it. The clock itself is
   * outside the model, so the two readings are parameters.
   */
  function TimeIt<T>(result: T, start: real, end: real): (r: Timed<T>)
    ensures r.result == result
    ensures r.elapsed + start == end
  {
    Timed(result, end - start)
  }

  /** s holds the rows of df, rearranged stably on column c. */
  ghost predicate Rearranged(df: Table, s: Table, c: Column)
    requires HasColumn(df, c)
  {
    HasColumn(s, c) && multiset(s) == multiset(df) && Stable(df, s, c)
  }

  /**
   * After i passes of bubble sort: the last i positions hold the largest keys,
   * in order (every key before position q is no larger than the key at q).
   */
  ghost predicate LargestPlaced(s: Table, i: int, c: Column)
    requires HasColumn(s, c)
  {
    forall p, q :: 0 <= p < q < |s| && |s| - i <= q ==> s[p][c] <= s[q][c]
  }

  /**
   * Bubble sort with early exit. The table is copied into a fresh array (the
   * caller's table is a value and cannot change), then each pass walks the
   * unsorted prefix exchanging neighbours whose keys are strictly out of
   * order; a pass that exchanges nothing ends the sort.
   */
  method BubbleSort(df: Table, column: Column) returns (sorted: Table)
    requires HasColumn(df, column)
    ensures HasColumn(sorted, column)
    ensures Sorted(sorted, column)
    ensures multiset(sorted) == multiset(df)
    ensures Stable(df, sorted, column)
    ensures sorted == QuickSort(df, column)
  {
    var n := |df|;
    var a := new Row[n];
    forall k | 0 <= k < n {
      a[k] := df[k];
    }
    assert a[..] == df;
    var i := 0;
    while i < n
      invariant 0 <= i <= n
      invariant Rearranged(df, a[..], column)
      invariant LargestPlaced(a[..], i, column)
    {
      var swapped := Pass(a, n - i - 1, column, df, i);
      if !swapped {
        break;
      }
      i := i + 1;
    }
    sorted := a[..];
    QuickSortSortsStably(df, column);
    StableSortUnique(df, sorted, QuickSort(df, column), column);
  }

  /**
   * One pass of bubble sort over positions 0..last: neighbours whose keys are
   * strictly out of order are exchanged. The pass carries the largest key of
   * the prefix to position last; when it exchanges nothing, the prefix was
   * already in order.
   */
  method Pass(a: array<Row>, last: int, column: Column, ghost df: Table, ghost i: int) returns (swapped: bool)
    requires HasColumn(df, column) && 0 <= i && last == a.Length - i - 1 && 0 <= last
    requires Rearranged(df, a[..], column) && LargestPlaced(a[..], i, column)
    modifies a
    ensures Rearranged(df, a[..], column) && LargestPlaced(a[..], i + 1, column)
    ensures !swapped ==> Sorted(a[..], column) && a[..] == old(a[..])
    ensures a[last + 1..] == old(a[last + 1..])
  {
    swapped := false;
    var j := 0;
    while j < last
      invariant 0 <= j <= last
      invariant Rearranged(df, a[..], column) && LargestPlaced(a[..], i, column)
      invariant PrefixMax(a[..], j, column)
      invariant !swapped ==> PrefixSorted(a[..], j, column) && a[..] == old(a[..])
      invariant a[last + 1..] == old(a[last + 1..])
    {
      if a[j][column] > a[j + 1][column] {
        ExchangeNeighbours(a, j, column, df, i);
        swapped := true;
      } else {
        WalkOn(a[..], j, column);
      }
      j := j + 1;
    }
    PassEnd(a[..], i, column);
  }

  /** a[j] carries the largest key of positions 0..j. */
  ghost predicate PrefixMax(s: Table, j: int, c: Column)
    requires HasColumn(s, c) && 0 <= j < |s|
  {
    forall p :: 0 <= p < j ==> s[p][c] <= s[j][c]
  }

  /** Positions 0..j are in order. */
  ghost predicate PrefixSorted(s: Table, j: int, c: Column)
    requires HasColumn(s, c) && 0 <= j < |s|
  {
    forall p, q :: 0 <= p < q <= j ==> s[p][c] <= s[q][c]
  }

  /** Helper: walking past an ordered pair keeps both prefix facts. */
  lemma WalkOn(s: Table, j: int, c: Column)
    requires HasColumn(s, c) && 0 <= j && j + 1 < |s| && s[j][c] <= s[j + 1][c]
    requires PrefixMax(s, j, c)
    ensures PrefixMax(s, j + 1, c)
    ensures PrefixSorted(s, j, c) ==> PrefixSorted(s, j + 1, c)
  {
  }

  /** Helper: at the end of a pass, the largest unsorted key sits at the boundary. */
  lemma PassEnd(s: Table, i: int, c: Column)
    requires HasColumn(s, c) && 0 <= i && i < |s|
    requires LargestPlaced(s, i, c) && PrefixMax(s, |s| - i - 1, c)
    ensures LargestPlaced(s, i + 1, c)
    ensures PrefixSorted(s, |s| - i - 1, c) ==> Sorted(s, c)
  {
  }

  /**
   * Exchanges a[j] and a[j + 1], whose keys are strictly out of order, inside
   * the unsorted prefix of a pass: the larger key moves on to j + 1.
   */
  method ExchangeNeighbours(a: array<Row>, j: int, column: Column, ghost df: Table, ghost i: int)
    requires HasColumn(df, column) && 0 <= j && 0 <= i && j + 1 < a.Length - i
    requires Rearranged(df, a[..], column) && LargestPlaced(a[..], i, column)
    requires PrefixMax(a[..], j, column) && a[j][column] > a[j + 1][column]
    modifies a
    ensures Rearranged(df, a[..], column) && LargestPlaced(a[..], i, column)
    ensures PrefixMax(a[..], j + 1, column)
    ensures a[j] == old(a[j + 1]) && a[j + 1] == old(a[j])
    ensures forall k :: 0 <= k < a.Length && k != j && k != j + 1 ==> a[k] == old(a[k])
  {
    ghost var before := a[..];
    RearrangedBySwap(df, before, j, column);
    SwapKeepsOrder(before, i, j, column);
    a[j], a[j + 1] := a[j + 1], a[j];
    assert a[..] == Exchanged(before, j);
  }

  /** s with positions j and j + 1 exchanged. */
  ghost function Exchanged(s: Table, j: int): (r: Table)
    requires 0 <= j && j + 1 < |s|
    ensures |r| == |s| && r[j] == s[j + 1] && r[j + 1] == s[j]
    ensures forall k :: 0 <= k < |s| && k != j && k != j + 1 ==> r[k] == s[k]
  {
    s[j := s[j + 1]][j + 1 := s[j]]
  }

  /** Helper: exchanging two neighbours with different keys keeps a rearrangement. */
  lemma RearrangedBySwap(df: Table, s: Table, j: int, c: Column)
    requires HasColumn(df, c) && Rearranged(df, s, c)
    requires 0 <= j && j + 1 < |s| && s[j][c] != s[j + 1][c]
    ensures Rearranged(df, Exchanged(s, j), c)
  {
    var p, q := s[..j], s[j + 2..];
    assert s == p + [s[j], s[j + 1]] + q;
    assert Exchanged(s, j) == p + [s[j + 1], s[j]] + q;
    assert HasColumn(p, c) && HasColumn(q, c);
    SwapNeighboursStable(p, s[j], s[j + 1], q, c);
  }

  /**
   * Helper: moving the larger of two out-of-order neighbours up keeps the
   * placed suffix and carries the prefix maximum along.
   */
  lemma SwapKeepsOrder(s: Table, i: int, j: int, c: Column)
    requires HasColumn(s, c) && 0 <= j && 0 <= i && j + 1 < |s| - i
    requires LargestPlaced(s, i, c) && PrefixMax(s, j, c) && s[j][c] > s[j + 1][c]
    ensures HasColumn(Exchanged(s, j), c)
    ensures LargestPlaced(Exchanged(s, j), i, c) && PrefixMax(Exchanged(s, j), j + 1, c)
  {
  }

  /**
   * Three-way quick sort around the row in the middle position: the rows
   * below, at and above the pivot key, each kept in input order, with the
   * outer two sorted recursively. The column is passed down to the recursive
   * calls (see QuickSortAsWritten for the code as written, which drops it).
   */
  function QuickSort(df: Table, column: Column): (r: Table)
    requires HasColumn(df, column)
    ensures HasColumn(r, column)
    ensures multiset(r) == multiset(df)
    decreases |df|
  {
    if |df| <= 1 then df
    else
      var pivot := df[|df| / 2][column];
      var left := Select(df, column, pivot, Below);
      var middle := Select(df, column, pivot, At);
      var right := Select(df, column, pivot, Above);
      PivotGroupNonEmpty(df, column, |df| / 2);
      var sl, sr := QuickSort(left, column), QuickSort(right, column);
      HasColumnConcat(sl, middle, sr, column);
      sl + middle + sr
  }

  /**
   * The group equal to the pivot holds at least the pivot row, so both outer
   * groups are strictly shorter than the table: the recursion terminates.
   */
  lemma PivotGroupNonEmpty(df: Table, column: Column, m: nat)
    requires HasColumn(df, column) && m < |df|
    ensures |Select(df, column, df[m][column], Below)| < |df|
    ensures |Select(df, column, df[m][column], Above)| < |df|
    ensures multiset(Select(df, column, df[m][column], Below)) + multiset(Select(df, column, df[m][column], At))
              + multiset(Select(df, column, df[m][column], Above)) == multiset(df)
  {
    var pivot := df[m][column];
    SelectKeeps(df, column, pivot, At, m);
    PartitionSplits(df, column, pivot);
  }

  /** Helper: one step of quick_sort, for a table of two rows or more. */
  lemma QuickSortUnfold(df: Table, column: Column)
    requires HasColumn(df, column) && |df| > 1
    ensures QuickSort(df, column)
              == QuickSort(Select(df, column, df[|df| / 2][column], Below), column)
                 + Select(df, column, df[|df| / 2][column], At)
                 + QuickSort(Select(df, column, df[|df| / 2][column], Above), column)
  {
  }

  /** quick_sort's result is sorted on the column and stable. */
  lemma {:induction false} QuickSortSortsStably(df: Table, column: Column)
    requires HasColumn(df, column)
    ensures Sorted(QuickSort(df, column), column)
    ensures Stable(df, QuickSort(df, column), column)
    decreases |df|
  {
    if |df| > 1 {
      var pivot := df[|df| / 2][column];
      var left := Select(df, column, pivot, Below);
      var middle := Select(df, column, pivot, At);
      var right := Select(df, column, pivot, Above);
      PivotGroupNonEmpty(df, column, |df| / 2);
      var sl, sr := QuickSort(left, column), QuickSort(right, column);
      QuickSortSortsStably(left, column);
      QuickSortSortsStably(right, column);
      PermutationKeepsSide(sl, left, column, pivot, Below);
      PermutationKeepsSide(sr, right, column, pivot, Above);
      SortedAroundPivot(sl, middle, sr, column, pivot);
      forall k ensures Select(sl + middle + sr, column, k, At) == Select(df, column, k, At) {
        RegroupOneKey(df, column, pivot, sl, sr, k);
      }
    }
  }

  /**
   * Helper: for one key, stably rearranged outer groups joined around the
   * pivot group hold the same rows with that key as the whole table.
   */
  lemma RegroupOneKey(df: Table, c: Column, pivot: Value, sl: Table, sr: Table, k: Value)
    requires HasColumn(df, c) && HasColumn(sl, c) && HasColumn(sr, c)
    requires Select(sl, c, k, At) == Select(Select(df, c, pivot, Below), c, k, At)
    requires Select(sr, c, k, At) == Select(Select(df, c, pivot, Above), c, k, At)
    ensures HasColumn(sl + Select(df, c, pivot, At) + sr, c)
    ensures Select(sl + Select(df, c, pivot, At) + sr, c, k, At) == Select(df, c, k, At)
  {
    var middle := Select(df, c, pivot, At);
    SelectAppend3(sl, middle, sr, c, k);
    var whole := Select(df, c, k, At);
    SelectOfSelect(df, c, pivot, Below, k);
    SelectOfSelect(df, c, pivot, At, k);
    SelectOfSelect(df, c, pivot, Above, k);
    OnlyOneNonEmpty(whole);
    match SideOf(k, pivot)
    case Below => assert Select(sl, c, k, At) == whole && Select(middle, c, k, At) == Select(sr, c, k, At) == [];
    case At => assert Select(middle, c, k, At) == whole && Select(sl, c, k, At) == Select(sr, c, k, At) == [];
    case Above => assert Select(sr, c, k, At) == whole && Select(sl, c, k, At) == Select(middle, c, k, At) == [];
  }

  /** Sorted groups below, at and above a pivot concatenate to a sorted table. */
  lemma SortedAroundPivot(l: Table, m: Table, r: Table, c: Column, pivot: Value)
    requires HasColumn(l, c) && HasColumn(m, c) && HasColumn(r, c)
    requires Sorted(l, c) && Sorted(r, c)
    requires forall i :: 0 <= i < |l| ==> SideOf(l[i][c], pivot) == Below
    requires forall i :: 0 <= i < |m| ==> SideOf(m[i][c], pivot) == At
    requires forall i :: 0 <= i < |r| ==> SideOf(r[i][c], pivot) == Above
    ensures HasColumn(l + m + r, c) && Sorted(l + m + r, c)
  {
    var s := l + m + r;
    forall i, j | 0 <= i < j < |s| ensures c in s[i] && c in s[j] && s[i][c] <= s[j][c] {
      if j < |l| {
        assert s[i] == l[i] && s[j] == l[j];
      } else if j < |l| + |m| {
        assert s[j] == m[j - |l|];
        if i < |l| { assert s[i] == l[i]; } else { assert s[i] == m[i - |l|]; }
      } else {
        assert s[j] == r[j - |l| - |m|];
        if i < |l| { assert s[i] == l[i]; }
        else if i < |l| + |m| { assert s[i] == m[i - |l|]; }
        else { assert s[i] == r[i - |l| - |m|]; }
      }
    }
  }

  /** Sorting a sorted table changes nothing, so sorting twice is sorting once. */
  lemma QuickSortFixesSorted(df: Table, column: Column)
    requires HasColumn(df, column) && Sorted(df, column)
    ensures QuickSort(df, column) == df
  {
    QuickSortSortsStably(df, column);
    StableSortUnique(df, QuickSort(df, column), df, column);
  }

  lemma QuickSortIdempotent(df: Table, column: Column)
    requires HasColumn(df, column)
    ensures QuickSort(QuickSort(df, column), column) == QuickSort(df, column)
  {
    QuickSortSortsStably(df, column);
    QuickSortFixesSorted(QuickSort(df, column), column);
  }

  /**
   * quick_sort as written: the top-level call partitions on the requested
   * column, but the recursive calls pass no column and so sort the outer
   * groups on the default column.
   */
  function QuickSortAsWritten(df: Table, column: Column): (r: Table)
    requires HasColumn(df, column) && HasColumn(df, DefaultColumn)
    ensures multiset(r) == multiset(df)
  {
    if |df| <= 1 then df
    else
      var pivot := df[|df| / 2][column];
      var left := Select(df, column, pivot, Below);
      var middle := Select(df, column, pivot, At);
      var right := Select(df, column, pivot, Above);
      PivotGroupNonEmpty(df, column, |df| / 2);
      SubTableHasColumn(left, df, DefaultColumn);
      SubTableHasColumn(right, df, DefaultColumn);
      QuickSort(left, DefaultColumn) + middle + QuickSort(right, DefaultColumn)
  }

  /** Helper: one step of the code as written, for a table of two rows or more. */
  lemma AsWrittenUnfold(df: Table, column: Column)
    requires HasColumn(df, column) && HasColumn(df, DefaultColumn) && |df| > 1
    ensures HasColumn(Select(df, column, df[|df| / 2][column], Below), DefaultColumn)
    ensures HasColumn(Select(df, column, df[|df| / 2][column], Above), DefaultColumn)
    ensures QuickSortAsWritten(df, column)
              == QuickSort(Select(df, column, df[|df| / 2][column], Below), DefaultColumn)
                 + Select(df, column, df[|df| / 2][column], At)
                 + QuickSort(Select(df, column, df[|df| / 2][column], Above), DefaultColumn)
  {
    var pivot := df[|df| / 2][column];
    SubTableHasColumn(Select(df, column, pivot, Below), df, DefaultColumn);
    SubTableHasColumn(Select(df, column, pivot, Above), df, DefaultColumn);
  }

  /** On the default column, the code as written is the corrected sort. */
  lemma AsWrittenAgreesOnDefault(df: Table)
    requires HasColumn(df, DefaultColumn)
    ensures QuickSortAsWritten(df, DefaultColumn) == QuickSort(df, DefaultColumn)
  {
  }

  /**
   * On any other column the code as written can leave the table unsorted.
   * Three rows x, y, z where the middle row y is the pivot and both others
   * lie above it on column c come back as y, z, x when z is dated before x,
   * although x is below z on c.
   */
  lemma {:induction false} AsWrittenMissorts(x: Row, y: Row, z: Row, c: Column)
    requires c in x && c in y && c in z
    requires DefaultColumn in x && DefaultColumn in y && DefaultColumn in z
    requires y[c] < x[c] < z[c] && z[DefaultColumn] < x[DefaultColumn]
    ensures HasColumn([x, y, z], c) && HasColumn([x, y, z], DefaultColumn)
    ensures QuickSortAsWritten([x, y, z], c) == [y, z, x]
    ensures HasColumn([y, z, x], c) && !Sorted([y, z, x], c)
  {
    AsWrittenOnThree(x, y, z, c);
    SortsByDate(x, z);
    ConsOntoPair(y, z, x);
    OutOfOrderUnsorted(y, z, x, c);
  }

  /** Helper: a table whose last two rows are out of order on c is not sorted on c. */
  lemma OutOfOrderUnsorted(y: Row, z: Row, x: Row, c: Column)
    requires c in x && c in y && c in z && x[c] < z[c]
    ensures HasColumn([y, z, x], c) && !Sorted([y, z, x], c)
  {
    assert [y, z, x][1] == z && [y, z, x][2] == x;
  }

  /** Helper: on x, y, z the code as written keeps y first and sorts x, z by sale date. */
  lemma AsWrittenOnThree(x: Row, y: Row, z: Row, c: Column)
    requires c in x && c in y && c in z
    requires DefaultColumn in x && DefaultColumn in y && DefaultColumn in z
    requires y[c] < x[c] && y[c] < z[c]
    ensures HasColumn([x, y, z], c) && HasColumn([x, y, z], DefaultColumn) && HasColumn([x, z], DefaultColumn)
    ensures QuickSortAsWritten([x, y, z], c) == [y] + QuickSort([x, z], DefaultColumn)
  {
    PartitionAroundMiddle(x, y, z, c);
    var t: Table := [x, y, z];
    assert t[|t| / 2] == y;
    AsWrittenUnfold(t, c);
    var none: Table := [];
    assert QuickSort(none, DefaultColumn) == [];
    assert none + [y] == [y];
  }

  /** Helper: the top-level partition of x, y, z around the middle row y. */
  lemma PartitionAroundMiddle(x: Row, y: Row, z: Row, c: Column)
    requires c in x && c in y && c in z && y[c] < x[c] && y[c] < z[c]
    ensures HasColumn([x, y, z], c)
    ensures Select([x, y, z], c, y[c], Below) == []
    ensures Select([x, y, z], c, y[c], At) == [y]
    ensures Select([x, y, z], c, y[c], Above) == [x, z]
  {
    var t: Table := [x, y, z];
    Slices(x, y, z);
    SmallerFirstSplit(y, z, c);
    assert Select(t, c, y[c], Below) == [] by {
      SelectCons(t, c, y[c], Below);
    }
    assert Select(t, c, y[c], At) == [y] by {
      SelectCons(t, c, y[c], At);
    }
    assert Select(t, c, y[c], Above) == [x, z] by {
      SelectCons(t, c, y[c], Above);
    }
  }

  /** Helper: the partition of y, z around the key of y, the smaller one. */
  lemma SmallerFirstSplit(y: Row, z: Row, c: Column)
    requires c in y && c in z && y[c] < z[c]
    ensures HasColumn([y, z], c)
    ensures Select([y, z], c, y[c], Below) == []
    ensures Select([y, z], c, y[c], At) == [y]
    ensures Select([y, z], c, y[c], Above) == [z]
  {
    var t: Table := [y, z];
    Slices(y, y, z);
    SelectLast(z, c, y[c]);
    SelectCons(t, c, y[c], Below);
    SelectCons(t, c, y[c], At);
    SelectCons(t, c, y[c], Above);
  }

  /** Helper: selection from a single row. */
  lemma SelectLast(z: Row, c: Column, pivot: Value)
    requires c in z
    ensures HasColumn([z], c)
    ensures forall side :: Select([z], c, pivot, side) == if SideOf(z[c], pivot) == side then [z] else []
  {
    Slices(z, z, z);
  }

  /** Helper: the recursive call orders two rows by sale date alone. */
  lemma SortsByDate(x: Row, z: Row)
    requires DefaultColumn in x && DefaultColumn in z && z[DefaultColumn] < x[DefaultColumn]
    ensures HasColumn([x, z], DefaultColumn)
    ensures QuickSort([x, z], DefaultColumn) == [z, x]
  {
    var t: Table := [x, z];
    assert t[|t| / 2] == z;
    TwoRowsSplit(x, z, DefaultColumn);
    QuickSortUnfold(t, DefaultColumn);
    var none: Table := [];
    assert QuickSort(none, DefaultColumn) == [];
    assert QuickSort([x], DefaultColumn) == [x];
  }

  /** Helper: the partition of x, z around the key of z, the smaller one. */
  lemma TwoRowsSplit(x: Row, z: Row, c: Column)
    requires c in x && c in z && z[c] < x[c]
    ensures HasColumn([x, z], c)
    ensures Select([x, z], c, z[c], Below) == []
    ensures Select([x, z], c, z[c], At) == [z]
    ensures Select([x, z], c, z[c], Above) == [x]
  {
    var t: Table := [x, z];
    Slices(x, x, z);
    SelectLast(z, c, z[c]);
    SelectCons(t, c, z[c], Below);
    SelectCons(t, c, z[c], At);
    SelectCons(t, c, z[c], Above);
  }

  /**
   * The discrepancy on three sales: sorted by quantity (CANTIDAD) they come
   * back with quantities 1, 3, 2.
   */
  lemma AsWrittenMissortsSales() returns (sales: Table)
    ensures HasColumn(sales, "CANTIDAD") && HasColumn(sales, DefaultColumn)
    ensures |sales| == 3 && sales[0]["CANTIDAD"] == 2 && sales[1]["CANTIDAD"] == 1 && sales[2]["CANTIDAD"] == 3
    ensures QuickSortAsWritten(sales, "CANTIDAD") == [sales[1], sales[2], sales[0]]
  {
    var x: Row := map["CANTIDAD" := 2, DefaultColumn := 9];
    var y: Row := map["CANTIDAD" := 1, DefaultColumn := 1];
    var z: Row := map["CANTIDAD" := 3, DefaultColumn := 0];
    assert "CANTIDAD" != DefaultColumn;
    assert x["CANTIDAD"] == 2 && y["CANTIDAD"] == 1 && z["CANTIDAD"] == 3;
    assert x[DefaultColumn] == 9 && z[DefaultColumn] == 0;
    AsWrittenMissorts(x, y, z, "CANTIDAD");
    sales := [x, y, z];
  }

  /** timeit around bubble_sort: the sorted copy and the clock difference. */
  method TimedBubbleSort(df: Table, column: Column, start: real, end: real) returns (r: Timed<Table>)
    requires HasColumn(df, column)
    ensures HasColumn(r.result, column) && Sorted(r.result, column) && Stable(df, r.result, column)
    ensures multiset(r.result) == multiset(df)
    ensures r.elapsed == end - start
  {
    var sorted := BubbleSort(df, column);
    r := TimeIt(sorted, start, end);
  }

  /** timeit around quick_sort: the sorted table and the clock difference. */
  function TimedQuickSort(df: Table, column: Column, start: real, end: real): (r: Timed<Table>)
    requires HasColumn(df, column)
    ensures HasColumn(r.result, column) && Sorted(r.result, column) && Stable(df, r.result, column)
    ensures multiset(r.result) == multiset(df)
    ensures r.elapsed == end - start
  {
    QuickSortSortsStably(df, column);
    TimeIt(QuickSort(df, column), start, end)
  }
}

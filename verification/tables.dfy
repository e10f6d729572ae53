/**
 * Datasets as the sorting code sees them: a table is an ordered sequence of
 * rows, and a row maps column names to values drawn from a totally ordered
 * type. This module holds the vocabulary shared by the sorting engine and the
 * server: selecting the rows on one side of a pivot, sortedness on a column,
 * and stability (rows with equal keys keep their relative order).
 */
module Tables {
  import opened Seqs

  /** Column values (sale dates, amounts, ids) compared with a total order. */
  type Value = int
  type Column = string
  type Row = map<Column, Value>
  type Table = seq<Row>

  /** The column every sort falls back to when none is passed. */
  const DefaultColumn: Column := "FECHA_VENTA"

  ghost predicate HasColumn(t: Table, c: Column) {
    forall i :: 0 <= i < |t| ==> c in t[i]
  }

  /** Non-decreasing on column c. */
  ghost predicate Sorted(t: Table, c: Column)
    requires HasColumn(t, c)
  {
    forall i, j :: 0 <= i < j < |t| ==> t[i][c] <= t[j][c]
  }

  /** Where a key lies relative to a pivot: the three comparisons `<`, `==`, `>`. */
  datatype Side = Below | At | Above

  function SideOf(v: Value, pivot: Value): (s: Side)
    ensures s == Below <==> v < pivot
    ensures s == At <==> v == pivot
    ensures s == Above <==> v > pivot
  {
    if v < pivot then Below else if v == pivot then At else Above
  }

  /**
   * The rows of t whose key on column c lies on the given side of pivot, in
   * their original order: the boolean-mask selection `df[df[c] < pivot]` and
   * its `==` and `>` variants.
   */
  function Select(t: Table, c: Column, pivot: Value, side: Side): (r: Table)
    requires HasColumn(t, c)
    ensures |r| <= |t|
    ensures HasColumn(r, c)
    ensures forall i :: 0 <= i < |r| ==> SideOf(r[i][c], pivot) == side
    ensures multiset(r) <= multiset(t)
  {
    if t == [] then []
    else
      assert t == [t[0]] + t[1..];
      var rest := Select(t[1..], c, pivot, side);
      if SideOf(t[0][c], pivot) == side then [t[0]] + rest else rest
  }

  /**
   * r is a stable rearrangement of t on column c: for every key, the rows of r
   * carrying that key are exactly those of t, in the same order.
   */
  ghost predicate Stable(t: Table, r: Table, c: Column)
    requires HasColumn(t, c) && HasColumn(r, c)
  {
    forall k :: Select(r, c, k, At) == Select(t, c, k, At)
  }

  /** What every sort in the repository owes its caller. */
  ghost predicate SortedPermutation(t: Table, r: Table, c: Column)
    requires HasColumn(t, c)
  {
    HasColumn(r, c) && Sorted(r, c) && multiset(r) == multiset(t)
  }

  /** Rows of a sub-multiset keep every column the whole table has. */
  lemma SubTableHasColumn(r: Table, t: Table, c: Column)
    requires multiset(r) <= multiset(t) && HasColumn(t, c)
    ensures HasColumn(r, c)
  {
    forall i | 0 <= i < |r| ensures c in r[i] {
      assert r[i] in multiset(r);
      var j :| 0 <= j < |t| && t[j] == r[i];
    }
  }

  /** A permutation of rows that all lie on one side of a pivot lies there too. */
  lemma PermutationKeepsSide(r: Table, t: Table, c: Column, pivot: Value, side: Side)
    requires HasColumn(t, c) && HasColumn(r, c)
    requires multiset(r) == multiset(t)
    requires forall i :: 0 <= i < |t| ==> SideOf(t[i][c], pivot) == side
    ensures forall i :: 0 <= i < |r| ==> SideOf(r[i][c], pivot) == side
  {
    forall i | 0 <= i < |r| ensures SideOf(r[i][c], pivot) == side {
      assert r[i] in multiset(t);
      var j :| 0 <= j < |t| && t[j] == r[i];
    }
  }

  lemma {:induction false} SelectAppend(a: Table, b: Table, c: Column, pivot: Value, side: Side)
    requires HasColumn(a, c) && HasColumn(b, c)
    ensures HasColumn(a + b, c)
    ensures Select(a + b, c, pivot, side) == Select(a, c, pivot, side) + Select(b, c, pivot, side)
  {
    HasColumnAppend(a, b, c);
    if a == [] {
      assert a + b == b && Select(a, c, pivot, side) == [];
    } else {
      var tail := a[1..];
      var head := if SideOf(a[0][c], pivot) == side then [a[0]] else [];
      assert Select(a + b, c, pivot, side) == head + Select(tail + b, c, pivot, side) by {
        assert (a + b)[0] == a[0] && (a + b)[1..] == tail + b;
        SelectCons(a + b, c, pivot, side);
      }
      assert Select(a, c, pivot, side) == head + Select(tail, c, pivot, side) by {
        SelectCons(a, c, pivot, side);
      }
      SelectAppend(tail, b, c, pivot, side);
      Associative(head, Select(tail, c, pivot, side), Select(b, c, pivot, side));
    }
  }

  lemma HasColumnAppend(a: Table, b: Table, c: Column)
    requires HasColumn(a, c) && HasColumn(b, c)
    ensures HasColumn(a + b, c)
  {
  }

  /** The three selections around a pivot split t exactly. */
  lemma {:induction false} PartitionSplits(t: Table, c: Column, pivot: Value)
    requires HasColumn(t, c)
    ensures multiset(Select(t, c, pivot, Below)) + multiset(Select(t, c, pivot, At))
              + multiset(Select(t, c, pivot, Above)) == multiset(t)
    ensures |Select(t, c, pivot, Below)| + |Select(t, c, pivot, At)| + |Select(t, c, pivot, Above)| == |t|
  {
    PartitionSplitsRows(t, c, pivot);
    PartitionSplitsCount(t, c, pivot);
  }

  /** Helper: the multiset half of PartitionSplits. */
  lemma {:induction false} PartitionSplitsRows(t: Table, c: Column, pivot: Value)
    requires HasColumn(t, c)
    ensures multiset(Select(t, c, pivot, Below)) + multiset(Select(t, c, pivot, At))
              + multiset(Select(t, c, pivot, Above)) == multiset(t)
  {
    if t != [] {
      var tail := t[1..];
      PartitionSplitsRows(tail, c, pivot);
      HeadAndTail(t);
      MultisetCons(t[0], tail);
      SelectStep(t, c, pivot, Below);
      SelectStep(t, c, pivot, At);
      SelectStep(t, c, pivot, Above);
      var below, at, above := multiset(Select(tail, c, pivot, Below)), multiset(Select(tail, c, pivot, At)),
                              multiset(Select(tail, c, pivot, Above));
      InsertOne(t[0], below, at, above);
      match SideOf(t[0][c], pivot)
      case Below => assert multiset(Select(t, c, pivot, Below)) == multiset{t[0]} + below;
      case At => assert multiset(Select(t, c, pivot, At)) == multiset{t[0]} + at;
      case Above => assert multiset(Select(t, c, pivot, Above)) == multiset{t[0]} + above;
    }
  }

  /** Helper: the length half of PartitionSplits. */
  lemma {:induction false} PartitionSplitsCount(t: Table, c: Column, pivot: Value)
    requires HasColumn(t, c)
    ensures |Select(t, c, pivot, Below)| + |Select(t, c, pivot, At)| + |Select(t, c, pivot, Above)| == |t|
  {
    if t != [] {
      PartitionSplitsCount(t[1..], c, pivot);
      SelectStep(t, c, pivot, Below);
      SelectStep(t, c, pivot, At);
      SelectStep(t, c, pivot, Above);
    }
  }

  /** Helper: the head row lands in the selection of exactly its own side. */
  lemma SelectStep(t: Table, c: Column, pivot: Value, side: Side)
    requires HasColumn(t, c) && t != []
    ensures HasColumn(t[1..], c)
    ensures multiset(Select(t, c, pivot, side))
              == (if SideOf(t[0][c], pivot) == side then multiset{t[0]} else multiset{})
                 + multiset(Select(t[1..], c, pivot, side))
    ensures |Select(t, c, pivot, side)|
              == (if SideOf(t[0][c], pivot) == side then 1 else 0) + |Select(t[1..], c, pivot, side)|
  {
    SelectCons(t, c, pivot, side);
    MultisetCons(t[0], Select(t[1..], c, pivot, side));
  }

  /** A row whose key lies on a side is kept by the selection of that side. */
  lemma {:induction false} SelectKeeps(t: Table, c: Column, pivot: Value, side: Side, i: nat)
    requires HasColumn(t, c) && i < |t| && SideOf(t[i][c], pivot) == side
    ensures t[i] in Select(t, c, pivot, side)
  {
    if i > 0 {
      SelectKeeps(t[1..], c, pivot, side, i - 1);
    }
  }

  /**
   * Selecting one key from a side selection gives the rows of t with that key
   * when the key lies on that side, and nothing otherwise.
   */
  lemma {:induction false} SelectOfSelect(t: Table, c: Column, pivot: Value, side: Side, k: Value)
    requires HasColumn(t, c)
    ensures Select(Select(t, c, pivot, side), c, k, At)
              == if SideOf(k, pivot) == side then Select(t, c, k, At) else []
  {
    if t != [] {
      SelectOfSelect(t[1..], c, pivot, side, k);
    }
  }

  lemma HasColumnConcat(p: Table, m: Table, q: Table, c: Column)
    requires HasColumn(p, c) && HasColumn(m, c) && HasColumn(q, c)
    ensures HasColumn(p + m + q, c)
  {
    var s := p + m + q;
    forall i | 0 <= i < |s| ensures c in s[i] {
      if i < |p| { assert s[i] == p[i]; }
      else if i < |p| + |m| { assert s[i] == m[i - |p|]; }
      else { assert s[i] == q[i - |p| - |m|]; }
    }
  }

  /** Selection distributes over a table cut in three. */
  lemma SelectAppend3(p: Table, m: Table, q: Table, c: Column, k: Value)
    requires HasColumn(p, c) && HasColumn(m, c) && HasColumn(q, c)
    ensures HasColumn(p + m + q, c)
    ensures Select(p + m + q, c, k, At) == Select(p, c, k, At) + Select(m, c, k, At) + Select(q, c, k, At)
  {
    SelectAppend(p, m, c, k, At);
    SelectAppend(p + m, q, c, k, At);
  }

  /** Two rows with different keys: at most one of them carries any given key. */
  lemma SelectPairSwapped(x: Row, y: Row, c: Column, k: Value)
    requires c in x && c in y && x[c] != y[c]
    ensures HasColumn([x, y], c) && HasColumn([y, x], c)
    ensures Select([y, x], c, k, At) == Select([x, y], c, k, At)
  {
    assert [x, y][1..] == [y];
    assert [y, x][1..] == [x];
  }

  /**
   * Exchanging two neighbours x, y with different keys keeps the rows, and
   * keeps every key's rows in order.
   */
  lemma SwapNeighboursStable(p: Table, x: Row, y: Row, q: Table, c: Column)
    requires HasColumn(p, c) && HasColumn(q, c) && c in x && c in y && x[c] != y[c]
    ensures HasColumn(p + [x, y] + q, c) && HasColumn(p + [y, x] + q, c)
    ensures multiset(p + [y, x] + q) == multiset(p + [x, y] + q)
    ensures forall k :: Select(p + [y, x] + q, c, k, At) == Select(p + [x, y] + q, c, k, At)
  {
    forall k ensures Select(p + [y, x] + q, c, k, At) == Select(p + [x, y] + q, c, k, At) {
      SwapNeighboursOneKey(p, x, y, q, c, k);
    }
    SwapNeighboursSameRows(p, x, y, q);
  }

  /** Helper: the swap seen from one key. */
  lemma SwapNeighboursOneKey(p: Table, x: Row, y: Row, q: Table, c: Column, k: Value)
    requires HasColumn(p, c) && HasColumn(q, c) && c in x && c in y && x[c] != y[c]
    ensures HasColumn(p + [x, y] + q, c) && HasColumn(p + [y, x] + q, c)
    ensures Select(p + [y, x] + q, c, k, At) == Select(p + [x, y] + q, c, k, At)
  {
    SelectPairSwapped(x, y, c, k);
    SelectAppend3(p, [y, x], q, c, k);
    SelectAppend3(p, [x, y], q, c, k);
  }

  /** Helper: the swap keeps the multiset of rows. */
  lemma SwapNeighboursSameRows(p: Table, x: Row, y: Row, q: Table)
    ensures multiset(p + [y, x] + q) == multiset(p + [x, y] + q)
  {
    assert multiset([y, x]) == multiset([x, y]);
  }

  /** Unfolding a selection at the head of a non-empty table. */
  lemma SelectCons(t: Table, c: Column, pivot: Value, side: Side)
    requires HasColumn(t, c) && t != []
    ensures HasColumn(t[1..], c)
    ensures Select(t, c, pivot, side)
              == (if SideOf(t[0][c], pivot) == side then [t[0]] else []) + Select(t[1..], c, pivot, side)
  {
  }

  /** Unfolding a key selection at the head of a non-empty table. */
  lemma SelectHead(a: Table, c: Column, k: Value)
    requires HasColumn(a, c) && a != []
    ensures HasColumn(a[1..], c)
    ensures Select(a, c, k, At)
              == if a[0][c] == k then [a[0]] + Select(a[1..], c, k, At) else Select(a[1..], c, k, At)
  {
  }

  /** A non-empty table has a non-empty selection for the key of its first row. */
  lemma SelectFirstKey(a: Table, c: Column)
    requires HasColumn(a, c) && a != []
    ensures Select(a, c, a[0][c], At) != []
  {
    SelectHead(a, c, a[0][c]);
  }

  /**
   * A sorted table is determined by the rows it holds for each key: two sorted
   * tables with the same per-key subsequences are equal.
   */
  lemma {:induction false} SortedDeterminedBySelections(a: Table, b: Table, c: Column)
    requires HasColumn(a, c) && HasColumn(b, c) && Sorted(a, c) && Sorted(b, c)
    requires forall k :: Select(a, c, k, At) == Select(b, c, k, At)
    ensures a == b
    decreases |a|
  {
    if a == [] || b == [] {
      EmptyBySelections(a, b, c);
    } else {
      LeastKeyAgrees(a, b, c);
      LeastKeyAgrees(b, a, c);
      HeadsAndTailsAgree(a, b, c);
      SortedTail(a, c);
      SortedTail(b, c);
      SortedDeterminedBySelections(a[1..], b[1..], c);
      SameHeadSameTail(a, b);
    }
  }

  lemma SameHeadSameTail(a: Table, b: Table)
    requires a != [] && b != [] && a[0] == b[0] && a[1..] == b[1..]
    ensures a == b
  {
    assert a == [a[0]] + a[1..];
    assert b == [b[0]] + b[1..];
  }

  /** Helper: tables with the same per-key rows are empty together. */
  lemma EmptyBySelections(a: Table, b: Table, c: Column)
    requires HasColumn(a, c) && HasColumn(b, c)
    requires forall k :: Select(a, c, k, At) == Select(b, c, k, At)
    ensures a == [] <==> b == []
  {
    if a != [] {
      SelectFirstKey(a, c);
    }
    if b != [] {
      SelectFirstKey(b, c);
    }
  }

  /** Helper: equal first keys and equal per-key rows give equal heads and equal per-key rows of the tails. */
  lemma HeadsAndTailsAgree(a: Table, b: Table, c: Column)
    requires HasColumn(a, c) && HasColumn(b, c) && a != [] && b != []
    requires a[0][c] == b[0][c]
    requires forall k :: Select(a, c, k, At) == Select(b, c, k, At)
    ensures a[0] == b[0]
    ensures HasColumn(a[1..], c) && HasColumn(b[1..], c)
    ensures forall k :: Select(a[1..], c, k, At) == Select(b[1..], c, k, At)
  {
    var k0 := a[0][c];
    SelectHead(a, c, k0);
    SelectHead(b, c, k0);
    assert Select(a, c, k0, At) == Select(b, c, k0, At);
    forall k ensures Select(a[1..], c, k, At) == Select(b[1..], c, k, At) {
      TailSelectionsAgree(a, b, c, k);
    }
  }

  /** Helper: one key's rows of the tails agree once the heads and that key's rows agree. */
  lemma TailSelectionsAgree(a: Table, b: Table, c: Column, k: Value)
    requires HasColumn(a, c) && HasColumn(b, c) && a != [] && b != [] && a[0] == b[0]
    requires Select(a, c, k, At) == Select(b, c, k, At)
    ensures HasColumn(a[1..], c) && HasColumn(b[1..], c)
    ensures Select(a[1..], c, k, At) == Select(b[1..], c, k, At)
  {
    SelectHead(a, c, k);
    SelectHead(b, c, k);
    var xa, xb := Select(a[1..], c, k, At), Select(b[1..], c, k, At);
    if a[0][c] == k {
      assert xa == ([a[0]] + xa)[1..];
      assert xb == ([b[0]] + xb)[1..];
    }
  }

  /** Helper: with equal per-key rows, the first key of sorted b is no larger than a's. */
  lemma LeastKeyAgrees(a: Table, b: Table, c: Column)
    requires HasColumn(a, c) && HasColumn(b, c) && Sorted(b, c)
    requires a != [] && b != []
    requires forall k :: Select(a, c, k, At) == Select(b, c, k, At)
    ensures b[0][c] <= a[0][c]
  {
    var k0 := a[0][c];
    SelectKeeps(a, c, k0, At, 0);
    var s := Select(b, c, k0, At);
    assert a[0] in s;
    var m :| 0 <= m < |s| && s[m] == a[0];
    assert s[m] in multiset(b);
    var j :| 0 <= j < |b| && b[j] == s[m];
    assert j == 0 || b[0][c] <= b[j][c];
  }

  lemma SortedTail(a: Table, c: Column)
    requires HasColumn(a, c) && Sorted(a, c) && a != []
    ensures HasColumn(a[1..], c) && Sorted(a[1..], c)
  {
    forall i, j | 0 <= i < j < |a| - 1 ensures a[1..][i][c] <= a[1..][j][c] {
      assert a[1..][i] == a[i + 1] && a[1..][j] == a[j + 1];
    }
  }

  /** Stable sorts agree: a sorted, stable rearrangement of a table is unique. */
  lemma StableSortUnique(t: Table, a: Table, b: Table, c: Column)
    requires HasColumn(t, c) && HasColumn(a, c) && HasColumn(b, c)
    requires Sorted(a, c) && Stable(t, a, c)
    requires Sorted(b, c) && Stable(t, b, c)
    ensures a == b
  {
    SortedDeterminedBySelections(a, b, c);
  }
}

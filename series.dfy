/**
 * The three operations on a single column (a pandas Series) that the
 * wrangling code relies on: `dropna()`, `unique()` and selection by a
 * boolean mask (`series[mask]`).
 */
module Series {
  import opened Wrappers

  /** Every cell of the column is missing. */
  predicate AllMissing<V>(cells: seq<Option<V>>) {
    forall k | 0 <= k < |cells| :: cells[k].None?
  }

  /** `v` is the first non-missing value of `cells`, in row order. */
  ghost predicate IsFirstPresent<V>(cells: seq<Option<V>>, v: V) {
    exists k | 0 <= k < |cells| :: cells[k] == Some(v) && forall j | 0 <= j < k :: cells[j].None?
  }

  /** `Series.dropna()`: the non-missing values, in row order. */
  function DropNa<V(==)>(cells: seq<Option<V>>): (r: seq<V>)
    ensures |r| <= |cells|
    ensures forall i | 0 <= i < |r| :: Some(r[i]) in cells
    ensures forall k | 0 <= k < |cells| && cells[k].Some? :: cells[k].value in r
    ensures |r| == 0 <==> AllMissing(cells)
    decreases |cells|
  {
    if |cells| == 0 then []
    else
      var n := |cells| - 1;
      assert cells == cells[..n] + [cells[n]];
      var rest := DropNa(cells[..n]);
      match cells[n]
      case None => rest
      case Some(v) => rest + [v]
  }

  /** The head of `dropna()` is the first non-missing cell. */
  lemma {:induction false} DropNaHeadIsFirstPresent<V>(cells: seq<Option<V>>)
    requires !AllMissing(cells)
    ensures IsFirstPresent(cells, DropNa(cells)[0])
    decreases |cells|
  {
    var n := |cells| - 1;
    var prefix := cells[..n];
    if AllMissing(prefix) {
      assert DropNa(prefix) == [];
      assert cells[n].Some?;
      assert DropNa(cells) == [cells[n].value];
      assert forall j | 0 <= j < n :: cells[j] == prefix[j];
      assert cells[n] == Some(DropNa(cells)[0]) && forall j | 0 <= j < n :: cells[j].None?;
    } else {
      DropNaHeadIsFirstPresent(prefix);
      var v := DropNa(prefix)[0];
      var k :| 0 <= k < |prefix| && prefix[k] == Some(v) && forall j | 0 <= j < k :: prefix[j].None?;
      assert DropNa(cells)[0] == v;
      assert forall j | 0 <= j <= k :: cells[j] == prefix[j];
      assert cells[k] == Some(v) && forall j | 0 <= j < k :: cells[j].None?;
    }
  }

  /** The mask of the cells that hold a value (`series.notna()`). */
  function Present<V>(cells: seq<Option<V>>): (mask: seq<bool>)
    ensures |mask| == |cells|
    ensures forall k | 0 <= k < |cells| :: mask[k] <==> cells[k].Some?
  {
    seq(|cells|, k requires 0 <= k < |cells| => cells[k].Some?)
  }

  /**
   * `dropna()` keeps every present cell once, in row order: its j-th value
   * is the value of the j-th present row, repeated values included.
   */
  lemma {:induction false} DropNaInRowOrder<V>(cells: seq<Option<V>>)
    ensures |DropNa(cells)| == |Rows(Present(cells))|
    ensures forall j | 0 <= j < |DropNa(cells)| :: cells[Rows(Present(cells))[j]] == Some(DropNa(cells)[j])
    decreases |cells|
  {
    if |cells| > 0 {
      var p := cells[..|cells| - 1];
      DropNaInRowOrder(p);
      RowsOfPresentLast(cells);
      DropNaLast(cells);
      AlignedLast(cells, Rows(Present(p)), DropNa(p));
    }
  }

  /** `dropna()` of `cells` is that of all but its last cell, then the last value when it is present. */
  lemma DropNaLast<V>(cells: seq<Option<V>>)
    requires |cells| > 0
    ensures var n := |cells| - 1;
      DropNa(cells) == DropNa(cells[..n]) + (if cells[n].Some? then [cells[n].value] else [])
  {
  }

  /**
   * Row numbers `rows` aligned with values `vs` over all but the last cell
   * stay aligned over `cells` when the last row and value are appended
   * together, exactly when the last cell is present.
   */
  lemma AlignedLast<V>(cells: seq<Option<V>>, rows: seq<nat>, vs: seq<V>)
    requires |cells| > 0 && |rows| == |vs|
    requires forall j | 0 <= j < |vs| :: rows[j] < |cells| - 1 && cells[..|cells| - 1][rows[j]] == Some(vs[j])
    ensures var n := |cells| - 1;
      var rs, d := rows + (if cells[n].Some? then [n] else []), vs + (if cells[n].Some? then [cells[n].value] else []);
      |rs| == |d| && forall j | 0 <= j < |d| :: cells[rs[j]] == Some(d[j])
  {
    var n := |cells| - 1;
    forall j | 0 <= j < |vs| ensures cells[rows[j]] == Some(vs[j]) {
      assert cells[rows[j]] == cells[..n][rows[j]];
    }
  }

  /** The present rows of `cells` are those of all but its last cell, then the last row when it is present. */
  lemma RowsOfPresentLast<V>(cells: seq<Option<V>>)
    requires |cells| > 0
    ensures var n := |cells| - 1;
      Rows(Present(cells)) == Rows(Present(cells[..n])) + (if cells[n].Some? then [n] else [])
  {
    var n := |cells| - 1;
    assert Present(cells)[..n] == Present(cells[..n]);
  }

  /** No value occurs twice. */
  predicate NoDuplicates<V(==)>(xs: seq<V>) {
    forall i, j | 0 <= i < j < |xs| :: xs[i] != xs[j]
  }

  /** Position of the first occurrence of `v` in `xs`. */
  function IndexOf<V(==)>(xs: seq<V>, v: V): (k: nat)
    requires v in xs
    ensures k < |xs| && xs[k] == v
    ensures forall j | 0 <= j < k :: xs[j] != v
  {
    if xs[0] == v then 0 else 1 + IndexOf(xs[1..], v)
  }

  /**
   * `Series.unique()`: the distinct values, in order of first appearance.
   * The first value of a non-empty input stays first.
   */
  function Unique<V(==)>(xs: seq<V>): (r: seq<V>)
    ensures forall i | 0 <= i < |r| :: r[i] in xs
    ensures forall k | 0 <= k < |xs| :: xs[k] in r
    ensures NoDuplicates(r)
    ensures |xs| > 0 ==> |r| > 0 && r[0] == xs[0]
    decreases |xs|
  {
    if |xs| == 0 then []
    else
      var n := |xs| - 1;
      assert xs == xs[..n] + [xs[n]];
      var seen := Unique(xs[..n]);
      if xs[n] in seen then seen else seen + [xs[n]]
  }

  lemma IndexOfPrefix<V>(xs: seq<V>, n: nat, v: V)
    requires n <= |xs| && v in xs[..n]
    ensures IndexOf(xs, v) == IndexOf(xs[..n], v)
  {
    var k1, k2 := IndexOf(xs[..n], v), IndexOf(xs, v);
    assert xs[k1] == v;
    assert k2 <= k1 < n;
    assert xs[..n][k2] == v;
  }

  /** `unique()` lists the values in the order in which they are first seen. */
  lemma {:induction false} UniqueFirstSeenOrder<V>(xs: seq<V>)
    ensures forall i, j | 0 <= i < j < |Unique(xs)| ::
              IndexOf(xs, Unique(xs)[i]) < IndexOf(xs, Unique(xs)[j])
    decreases |xs|
  {
    if |xs| > 0 {
      var n := |xs| - 1;
      var p := xs[..n];
      var seen := Unique(p);
      UniqueFirstSeenOrder(p);
      forall i, j | 0 <= i < j < |Unique(xs)|
        ensures IndexOf(xs, Unique(xs)[i]) < IndexOf(xs, Unique(xs)[j])
      {
        assert Unique(xs)[i] == seen[i];
        IndexOfPrefix(xs, n, seen[i]);
        if j < |seen| {
          assert Unique(xs)[j] == seen[j];
          IndexOfPrefix(xs, n, seen[j]);
        } else {
          assert Unique(xs)[j] == xs[n] && xs[n] !in p;
          assert IndexOf(xs, xs[n]) == n;
        }
      }
    }
  }

  /** The row positions a boolean mask selects, in increasing order. */
  function Rows(mask: seq<bool>): (r: seq<nat>)
    ensures forall j | 0 <= j < |r| :: r[j] < |mask| && mask[r[j]]
    ensures forall k | 0 <= k < |mask| && mask[k] :: k in r
    ensures forall i, j | 0 <= i < j < |r| :: r[i] < r[j]
    decreases |mask|
  {
    if |mask| == 0 then []
    else
      var n := |mask| - 1;
      var before := Rows(mask[..n]);
      RowsStep(mask, before);
      before + (if mask[n] then [n] else [])
  }

  /** Appending the last row, when selected, to the selected rows of the prefix gives the selected rows of `mask`. */
  lemma RowsStep(mask: seq<bool>, before: seq<nat>)
    requires |mask| > 0
    requires forall j | 0 <= j < |before| :: before[j] < |mask| - 1 && mask[..|mask| - 1][before[j]]
    requires forall k | 0 <= k < |mask| - 1 && mask[..|mask| - 1][k] :: k in before
    requires forall i, j | 0 <= i < j < |before| :: before[i] < before[j]
    ensures var n := |mask| - 1;
      var r := before + (if mask[n] then [n] else []);
      && (forall j | 0 <= j < |r| :: r[j] < |mask| && mask[r[j]])
      && (forall k | 0 <= k < |mask| && mask[k] :: k in r)
      && (forall i, j | 0 <= i < j < |r| :: r[i] < r[j])
  {
    var n := |mask| - 1;
    var r := before + (if mask[n] then [n] else []);
    assert forall j | 0 <= j < |before| :: r[j] == before[j] && mask[before[j]] == mask[..n][before[j]];
    assert forall k | 0 <= k < n :: mask[k] == mask[..n][k];
  }

  /** A mask that selects no row selects nothing. */
  lemma {:induction false} RowsOfFalseMask(mask: seq<bool>)
    requires forall k | 0 <= k < |mask| :: !mask[k]
    ensures Rows(mask) == []
    decreases |mask|
  {
    if |mask| > 0 {
      RowsOfFalseMask(mask[..|mask| - 1]);
    }
  }

  /** A mask that selects every row selects them all. */
  lemma {:induction false} RowsOfTrueMask(mask: seq<bool>)
    requires forall k | 0 <= k < |mask| :: mask[k]
    ensures |Rows(mask)| == |mask|
    decreases |mask|
  {
    if |mask| > 0 {
      RowsOfTrueMask(mask[..|mask| - 1]);
    }
  }

  /** `series[mask]`: the cells at the rows the mask selects, in row order. */
  function Where<T>(xs: seq<T>, mask: seq<bool>): (r: seq<T>)
    requires |xs| == |mask|
    decreases |xs|
  {
    if |xs| == 0 then []
    else
      var n := |xs| - 1;
      Where(xs[..n], mask[..n]) + (if mask[n] then [xs[n]] else [])
  }

  /** The j-th selected cell is the cell of the j-th selected row. */
  lemma {:induction false} WhereAt<T>(xs: seq<T>, mask: seq<bool>)
    requires |xs| == |mask|
    ensures |Where(xs, mask)| == |Rows(mask)|
    ensures forall j | 0 <= j < |Where(xs, mask)| :: Rows(mask)[j] < |xs| && Where(xs, mask)[j] == xs[Rows(mask)[j]]
    decreases |xs|
  {
    if |xs| > 0 {
      var n := |xs| - 1;
      WhereAt(xs[..n], mask[..n]);
    }
  }

  /** Selecting every row gives the column back. */
  lemma {:induction false} WhereAll<T>(xs: seq<T>, mask: seq<bool>)
    requires |xs| == |mask| && forall k | 0 <= k < |mask| :: mask[k]
    ensures Where(xs, mask) == xs
    decreases |xs|
  {
    if |xs| > 0 {
      var n := |xs| - 1;
      WhereAll(xs[..n], mask[..n]);
      assert xs == xs[..n] + [xs[n]];
    }
  }

  /** Selecting from two stacked blocks is stacking the two selections. */
  lemma {:induction false} WhereAppend<T>(a: seq<T>, ma: seq<bool>, b: seq<T>, mb: seq<bool>)
    requires |a| == |ma| && |b| == |mb|
    ensures Where(a + b, ma + mb) == Where(a, ma) + Where(b, mb)
    decreases |b|
  {
    if |b| == 0 {
      assert a + b == a && ma + mb == ma;
    } else {
      var n, last := |b| - 1, |a + b| - 1;
      var xs, mask := a + b, ma + mb;
      assert xs[..last] == a + b[..n] && xs[last] == b[n];
      assert mask[..last] == ma + mb[..n] && mask[last] == mb[n];
      var tail := if mb[n] then [b[n]] else [];
      assert Where(xs, mask) == Where(a + b[..n], ma + mb[..n]) + tail;
      WhereAppend(a, ma, b[..n], mb[..n]);
      assert Where(b, mb) == Where(b[..n], mb[..n]) + tail;
    }
  }

  /** A cell inserted at an unselected row is not selected. */
  lemma WhereInsertUnselected<T>(xs: seq<T>, mask: seq<bool>, k: nat, x: T)
    requires |xs| == |mask| && k <= |xs|
    ensures Where(xs[..k] + [x] + xs[k..], mask[..k] + [false] + mask[k..]) == Where(xs, mask)
  {
    var front, back, mf, mb := xs[..k], xs[k..], mask[..k], mask[k..];
    assert front + back == xs;
    assert mf + mb == mask;
    WhereSkipMiddle(front, mf, x, back, mb);
  }

  lemma WhereSkipMiddle<T>(front: seq<T>, mf: seq<bool>, x: T, back: seq<T>, mb: seq<bool>)
    requires |front| == |mf| && |back| == |mb|
    ensures Where(front + [x] + back, mf + [false] + mb) == Where(front + back, mf + mb)
  {
    WhereAppend(front + [x], mf + [false], back, mb);
    WhereSkipLast(front, mf, x);
    WhereAppend(front, mf, back, mb);
  }

  /** An unselected last cell adds nothing. */
  lemma WhereSkipLast<T>(xs: seq<T>, mask: seq<bool>, x: T)
    requires |xs| == |mask|
    ensures Where(xs + [x], mask + [false]) == Where(xs, mask)
  {
    assert (xs + [x])[..|xs|] == xs && (mask + [false])[..|xs|] == mask;
  }

  /** After selection, every cell is missing exactly when every selected row was missing. */
  lemma WhereAllMissing<V>(cells: seq<Option<V>>, mask: seq<bool>)
    requires |cells| == |mask|
    ensures AllMissing(Where(cells, mask)) <==> forall k | 0 <= k < |cells| && mask[k] :: cells[k].None?
  {
    var w, rows := Where(cells, mask), Rows(mask);
    WhereAt(cells, mask);
    if AllMissing(w) {
      forall k | 0 <= k < |cells| && mask[k] ensures cells[k].None? {
        assert k in rows;
        var j :| 0 <= j < |rows| && rows[j] == k;
        assert w[j] == cells[k];
      }
    }
  }

  /** The first non-missing selected value is the first non-missing value among the selected rows. */
  lemma WhereFirstPresent<V>(cells: seq<Option<V>>, mask: seq<bool>, v: V)
    requires |cells| == |mask|
    requires IsFirstPresent(Where(cells, mask), v)
    ensures exists k | 0 <= k < |cells| :: mask[k] && cells[k] == Some(v) &&
              forall j | 0 <= j < k :: mask[j] ==> cells[j].None?
  {
    var w, rows := Where(cells, mask), Rows(mask);
    WhereAt(cells, mask);
    var i :| 0 <= i < |w| && w[i] == Some(v) && forall j | 0 <= j < i :: w[j].None?;
    var k := rows[i];
    assert k in rows;
    assert mask[k] && cells[k] == Some(v);
    forall j | 0 <= j < k && mask[j] ensures cells[j].None? {
      assert j in rows;
      var m :| 0 <= m < |rows| && rows[m] == j;
      RowsBefore(mask, m, i);
      assert w[m] == cells[j];
    }
  }

  /** A smaller selected row comes earlier in the selection. */
  lemma RowsBefore(mask: seq<bool>, m: nat, i: nat)
    requires m < |Rows(mask)| && i < |Rows(mask)| && Rows(mask)[m] < Rows(mask)[i]
    ensures m < i
  {
  }
}

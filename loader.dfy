/**
 * `load_sheet`: after the sheet is read, `df.dropna(axis=1, how='all')`
 * drops every column none of whose cells holds a value.
 */
module Loader {
  import opened Wrappers
  import opened Series
  import opened Frames

  /** The columns that keep at least one value, in their original order. */
  function KeepFilled<V>(cols: seq<Column<V>>): (r: seq<Column<V>>)
    ensures forall i | 0 <= i < |r| :: r[i] in cols && !AllMissing(r[i].cells)
    ensures forall i | 0 <= i < |cols| && !AllMissing(cols[i].cells) :: cols[i] in r
    ensures |r| <= |cols|
    decreases |cols|
  {
    if |cols| == 0 then []
    else
      var n := |cols| - 1;
      assert cols == cols[..n] + [cols[n]];
      KeepFilled(cols[..n]) + (if AllMissing(cols[n].cells) then [] else [cols[n]])
  }

  /** The columns dropped are exactly the all-missing ones; rows are untouched. */
  function LoadSheet<V>(sheet: Table<V>): (r: Table<V>)
    ensures r.height == sheet.height
    ensures forall i | 0 <= i < |r.columns| :: r.columns[i] in sheet.columns && !AllMissing(r.columns[i].cells)
    ensures forall i | 0 <= i < |sheet.columns| && !AllMissing(sheet.columns[i].cells) :: sheet.columns[i] in r.columns
    ensures WellFormed(sheet) ==> WellFormed(r)
  {
    var r := Table(KeepFilled(sheet.columns), sheet.height);
    if WellFormed(sheet) then
      KeepFilledPreservesShape(sheet.columns, sheet.height);
      r
    else r
  }

  /** Filtering keeps the table rectangular and its labels unique. */
  lemma {:induction false} KeepFilledPreservesShape<V>(cols: seq<Column<V>>, height: nat)
    requires Rectangular(cols, height) && DistinctNames(cols)
    ensures Rectangular(KeepFilled(cols), height) && DistinctNames(KeepFilled(cols))
    decreases |cols|
  {
    if |cols| > 0 {
      var n := |cols| - 1;
      var front := cols[..n];
      var kept := KeepFilled(front);
      KeepFilledPreservesShape(front, height);
      if AllMissing(cols[n].cells) {
        assert KeepFilled(cols) == kept;
      } else {
        var r := kept + [cols[n]];
        assert KeepFilled(cols) == r;
        forall i | 0 <= i < |kept| ensures kept[i].name != cols[n].name {
          assert kept[i] in front;
          var k :| 0 <= k < n && front[k] == kept[i];
          assert cols[k] == kept[i];
        }
        assert Rectangular(r, height);
        assert forall i, j | 0 <= i < j < |r| :: r[i].name != r[j].name by {
          forall i, j | 0 <= i < j < |r| ensures r[i].name != r[j].name {
            if j == |kept| {
              assert r[j] == cols[n];
            }
          }
        }
      }
    }
  }

  /** Pruning commutes with splitting the columns in two: relative order is preserved. */
  lemma {:induction false} KeepFilledAppend<V>(a: seq<Column<V>>, b: seq<Column<V>>)
    ensures KeepFilled(a + b) == KeepFilled(a) + KeepFilled(b)
    decreases |b|
  {
    if |b| == 0 {
      assert a + b == a;
    } else {
      var n := |b| - 1;
      assert (a + b)[..|a + b| - 1] == a + b[..n];
      KeepFilledAppend(a, b[..n]);
    }
  }

  /** Loading an already-loaded sheet drops nothing more. */
  lemma {:induction false} LoadSheetIdempotent<V>(sheet: Table<V>)
    ensures LoadSheet(LoadSheet(sheet)) == LoadSheet(sheet)
  {
    KeepFilledNoEmpty(KeepFilled(sheet.columns));
  }

  /** A table with no empty column loses nothing. */
  lemma {:induction false} KeepFilledNoEmpty<V>(cols: seq<Column<V>>)
    requires forall i | 0 <= i < |cols| :: !AllMissing(cols[i].cells)
    ensures KeepFilled(cols) == cols
    decreases |cols|
  {
    if |cols| > 0 {
      var n := |cols| - 1;
      KeepFilledNoEmpty(cols[..n]);
      assert cols == cols[..n] + [cols[n]];
    }
  }
}

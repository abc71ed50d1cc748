/**
 * A worksheet as pandas holds it: named columns of equal length, each cell
 * either a value or missing (NaN). The table is stored column by column, as
 * a DataFrame is.
 */
module Frames {
  import opened Wrappers
  import opened Series

  datatype Column<V> = Column(name: string, cells: seq<Option<V>>)

  datatype Table<V> = Table(columns: seq<Column<V>>, height: nat)

  /** Every column has one cell per row. */
  predicate Rectangular<V>(cols: seq<Column<V>>, height: nat) {
    forall i | 0 <= i < |cols| :: |cols[i].cells| == height
  }

  /** Column labels are unique (the spreadsheet reader renames duplicates). */
  predicate DistinctNames<V>(cols: seq<Column<V>>) {
    forall i, j | 0 <= i < j < |cols| :: cols[i].name != cols[j].name
  }

  /** The shape every DataFrame has. */
  predicate WellFormed<V>(t: Table<V>) {
    Rectangular(t.columns, t.height) && DistinctNames(t.columns)
  }

  /** `name in df.columns`. */
  predicate HasColumn<V>(cols: seq<Column<V>>, name: string) {
    exists i | 0 <= i < |cols| :: cols[i].name == name
  }

  /** `df[name]`: the cells of the column labelled `name`, if there is one. */
  function Lookup<V>(cols: seq<Column<V>>, name: string): (r: Option<seq<Option<V>>>)
    ensures r.Some? <==> HasColumn(cols, name)
    ensures r.Some? ==> exists i | 0 <= i < |cols| :: cols[i].name == name && cols[i].cells == r.value
  {
    if |cols| == 0 then None
    else if cols[0].name == name then Some(cols[0].cells)
    else
      var r := Lookup(cols[1..], name);
      assert HasColumn(cols, name) ==> cols[0].name == name || HasColumn(cols[1..], name) by {
        if HasColumn(cols, name) && cols[0].name != name {
          var i :| 0 <= i < |cols| && cols[i].name == name;
          assert cols[1..][i - 1].name == name;
        }
      }
      assert r.Some? ==> exists i | 0 <= i < |cols| :: cols[i].name == name && cols[i].cells == r.value by {
        if r.Some? {
          var i :| 0 <= i < |cols[1..]| && cols[1..][i].name == name && cols[1..][i].cells == r.value;
          assert cols[i + 1] == cols[1..][i];
        }
      }
      r
  }

  /** With unique labels, `df[name]` is the one column carrying that label. */
  lemma LookupColumn<V>(cols: seq<Column<V>>, i: nat)
    requires DistinctNames(cols) && i < |cols|
    ensures Lookup(cols, cols[i].name) == Some(cols[i].cells)
  {
    var r := Lookup(cols, cols[i].name);
    var j :| 0 <= j < |cols| && cols[j].name == cols[i].name && cols[j].cells == r.value;
    assert i == j;
  }

  /** In a rectangular table, every column found by label has one cell per row. */
  lemma LookupHeight<V>(t: Table<V>, name: string)
    requires Rectangular(t.columns, t.height) && HasColumn(t.columns, name)
    ensures |Lookup(t.columns, name).value| == t.height
  {
  }

  /** `df[mask]`: keep the rows a boolean mask selects, in every column. */
  function SelectRows<V>(t: Table<V>, mask: seq<bool>): (r: Table<V>)
    requires Rectangular(t.columns, t.height) && |mask| == t.height
    ensures |r.columns| == |t.columns| && r.height == |Rows(mask)|
    ensures forall i | 0 <= i < |t.columns| ::
              r.columns[i].name == t.columns[i].name && r.columns[i].cells == Where(t.columns[i].cells, mask)
    ensures WellFormed(t) ==> WellFormed(r)
  {
    var cols := seq(|t.columns|, i requires 0 <= i < |t.columns| =>
                    Column(t.columns[i].name, Where(t.columns[i].cells, mask)));
    forall i | 0 <= i < |cols| ensures |cols[i].cells| == |Rows(mask)| {
      WhereAt(t.columns[i].cells, mask);
    }
    Table(cols, |Rows(mask)|)
  }

  /** The table with one more row inserted before row `k`. */
  function InsertRow<V>(t: Table<V>, k: nat, row: seq<Option<V>>): (r: Table<V>)
    requires Rectangular(t.columns, t.height) && k <= t.height && |row| == |t.columns|
    ensures WellFormed(t) ==> WellFormed(r)
  {
    var cols := seq(|t.columns|, i requires 0 <= i < |t.columns| =>
                    Column(t.columns[i].name, t.columns[i].cells[..k] + [row[i]] + t.columns[i].cells[k..]));
    Table(cols, t.height + 1)
  }

  /**
   * A DataFrame object whose columns are reassigned in place
   * (`df[col] = ...`). `View` is the table it currently holds.
   */
  class Frame<V> {
    var columns: seq<Column<V>>
    var height: nat

    function View(): Table<V>
      reads this
    {
      Table(columns, height)
    }

    constructor (t: Table<V>)
      ensures View() == t
    {
      columns := t.columns;
      height := t.height;
    }
  }
}

/**
 * `convert_dates`: every column whose label contains `Date` is replaced, in
 * place, by `pd.to_datetime(column, errors='coerce')`. The date parser is a
 * parameter `parse`: it maps a cell value to a timestamp, or to `None` when
 * the value cannot be read as a date. A missing cell stays missing.
 */
module Dates {
  import opened Wrappers
  import opened Frames

  /** `'Date' in name`: case-sensitive substring test. */
  predicate MentionsDate(name: string)
    decreases |name|
  {
    |name| >= 4 && (name[..4] == "Date" || MentionsDate(name[1..]))
  }

  /** The four characters of `name` starting at `k`. */
  function Window(name: string, k: nat): string
    requires k + 4 <= |name|
  {
    name[k..k + 4]
  }

  /** `MentionsDate` is the substring test: `Date` occurs at some position, in both directions. */
  lemma {:induction false} MentionsDateIsSubstring(name: string)
    ensures MentionsDate(name) <==> exists k: nat | k + 4 <= |name| :: Window(name, k) == "Date"
    decreases |name|
  {
    if |name| >= 4 {
      var tail := name[1..];
      MentionsDateIsSubstring(tail);
      if MentionsDate(name) {
        if name[..4] == "Date" {
          assert Window(name, 0) == "Date";
        } else {
          var k: nat :| k + 4 <= |tail| && Window(tail, k) == "Date";
          assert Window(name, k + 1) == Window(tail, k);
        }
      }
      if exists k: nat | k + 4 <= |name| :: Window(name, k) == "Date" {
        var k: nat :| k + 4 <= |name| && Window(name, k) == "Date";
        if k > 0 {
          assert Window(tail, k - 1) == Window(name, k);
        } else {
          assert name[..4] == Window(name, 0);
        }
      }
    }
  }

  /** One cell through `to_datetime` with coercion. */
  function ParseCell<V>(parse: V -> Option<V>, cell: Option<V>): Option<V> {
    match cell
    case None => None
    case Some(v) => parse(v)
  }

  function ParseCells<V>(parse: V -> Option<V>, cells: seq<Option<V>>): (r: seq<Option<V>>)
    ensures |r| == |cells|
  {
    seq(|cells|, k requires 0 <= k < |cells| => ParseCell(parse, cells[k]))
  }

  /** What one pass of the loop body does to one column. */
  function NormalizeColumn<V>(parse: V -> Option<V>, c: Column<V>): (r: Column<V>)
    ensures r.name == c.name && |r.cells| == |c.cells|
    ensures !MentionsDate(c.name) ==> r == c
    ensures MentionsDate(c.name) ==>
              forall k | 0 <= k < |c.cells| :: r.cells[k] == (if c.cells[k].None? then None else parse(c.cells[k].value))
  {
    if MentionsDate(c.name) then Column(c.name, ParseCells(parse, c.cells)) else c
  }

  /** The table after every column has been visited. */
  function Normalized<V>(t: Table<V>, parse: V -> Option<V>): (r: Table<V>)
    ensures |r.columns| == |t.columns| && r.height == t.height
  {
    Table(seq(|t.columns|, i requires 0 <= i < |t.columns| => NormalizeColumn(parse, t.columns[i])), t.height)
  }

  /**
   * Only `Date` columns change, each of their cells becomes `parse` of the
   * old cell (missing stays missing), and labels, column order and row
   * count are unchanged.
   */
  lemma NormalizedChangesOnlyDateColumns<V>(t: Table<V>, parse: V -> Option<V>)
    ensures var r := Normalized(t, parse);
      && (forall i | 0 <= i < |t.columns| :: r.columns[i].name == t.columns[i].name)
      && (forall i | 0 <= i < |t.columns| && !MentionsDate(t.columns[i].name) :: r.columns[i] == t.columns[i])
      && (forall i, k | 0 <= i < |t.columns| && MentionsDate(t.columns[i].name) && 0 <= k < |t.columns[i].cells| ::
            |r.columns[i].cells| == |t.columns[i].cells| &&
            r.columns[i].cells[k] == (if t.columns[i].cells[k].None? then None else parse(t.columns[i].cells[k].value)))
      && (WellFormed(t) ==> WellFormed(r))
  {
  }

  /**
   * Normalising twice is normalising once, provided the parser maps a
   * timestamp it produced to itself.
   */
  lemma NormalizedIdempotent<V>(t: Table<V>, parse: V -> Option<V>)
    requires forall v :: parse(v).Some? ==> parse(parse(v).value) == parse(v)
    ensures Normalized(Normalized(t, parse), parse) == Normalized(t, parse)
  {
    var once := Normalized(t, parse);
    var twice := Normalized(once, parse);
    forall i | 0 <= i < |t.columns| ensures twice.columns[i] == once.columns[i] {
      var c := t.columns[i];
      if MentionsDate(c.name) {
        var p := ParseCells(parse, c.cells);
        assert ParseCells(parse, p) == p;
      }
    }
    assert twice.columns == once.columns;
  }

  /** The loop of `convert_dates`, over the columns in order, reassigning `df[col]`. */
  method ConvertDates<V>(df: Frame<V>, parse: V -> Option<V>)
    modifies df
    ensures df.View() == Normalized(old(df.View()), parse)
  {
    ghost var t := df.View();
    var i := 0;
    while i < |df.columns|
      invariant 0 <= i <= |df.columns| == |t.columns|
      invariant df.height == t.height
      invariant forall j | 0 <= j < i :: df.columns[j] == NormalizeColumn(parse, t.columns[j])
      invariant forall j | i <= j < |df.columns| :: df.columns[j] == t.columns[j]
    {
      var col := df.columns[i];
      if MentionsDate(col.name) {
        df.columns := df.columns[i := Column(col.name, ParseCells(parse, col.cells))];
      }
      i := i + 1;
    }
    assert df.columns == Normalized(t, parse).columns;
  }
}

/**
 * `prepare_plot_data(df, address)`: the listing record of one property.
 *
 * The rows whose `Address` equals the selected address are kept. Each of
 * eight descriptive columns yields its first distinct non-missing value.
 * The ten column pairs `Date1/Price1` ... `Date10/Price10` yield the price
 * history: for each pair, in index order, the non-missing dates and the
 * non-missing prices are appended to two running lists, but only when both
 * columns exist and both hold at least one value.
 */
module Extract {
  import opened Wrappers
  import opened Series
  import opened Frames

  /** The number of numbered Date/Price column pairs scanned. */
  const PairCount: nat := 10

  /** The descriptive columns, in the order the record lists them. */
  const ScalarColumns: seq<string> :=
    ["Phone", "Listed By", "Zillow Links", "Bedrooms", "Bathrooms", "Area (sqft)", "Days on Zillow", "Built in"]

  /** The ten values `prepare_plot_data` returns. */
  datatype Record<V> = Record(
    dates: seq<V>,
    prices: seq<V>,
    phone: Option<V>,
    listedBy: Option<V>,
    zillowLink: Option<V>,
    bedrooms: Option<V>,
    bathrooms: Option<V>,
    areaSqft: Option<V>,
    daysOnZillow: Option<V>,
    builtIn: Option<V>)

  /** What is returned when no row matches. */
  function EmptyRecord<V>(): Record<V> {
    Record([], [], None, None, None, None, None, None, None, None)
  }

  /** The field of a record that carries descriptive column `name`. */
  function ScalarOf<V>(r: Record<V>, name: string): Option<V> {
    if name == "Phone" then r.phone
    else if name == "Listed By" then r.listedBy
    else if name == "Zillow Links" then r.zillowLink
    else if name == "Bedrooms" then r.bedrooms
    else if name == "Bathrooms" then r.bathrooms
    else if name == "Area (sqft)" then r.areaSqft
    else if name == "Days on Zillow" then r.daysOnZillow
    else if name == "Built in" then r.builtIn
    else None
  }

  /** Decimal digits of `n`, as an f-string renders it. */
  function Decimal(n: nat): string
    decreases n
  {
    if n < 10 then [('0' as int + n) as char] else Decimal(n / 10) + Decimal(n % 10)
  }

  function DateColumn(i: nat): string { "Date" + Decimal(i) }

  function PriceColumn(i: nat): string { "Price" + Decimal(i) }

  /** `df['Address'] == address`: a missing address never matches. */
  function Matches<V(==)>(addresses: seq<Option<V>>, a: V): (mask: seq<bool>)
    ensures |mask| == |addresses|
    ensures forall k | 0 <= k < |addresses| :: mask[k] <==> addresses[k] == Some(a)
  {
    seq(|addresses|, k requires 0 <= k < |addresses| => addresses[k] == Some(a))
  }

  /** `df[name].dropna().unique()`, then its first entry, or `None`; `None` when the column is absent. */
  function FirstUnique<V(==)>(rows: Table<V>, name: string): (r: Option<V>)
    ensures r.None? <==> !HasColumn(rows.columns, name) || AllMissing(Lookup(rows.columns, name).value)
    ensures r.Some? ==> IsFirstPresent(Lookup(rows.columns, name).value, r.value)
  {
    match Lookup(rows.columns, name)
    case None => None
    case Some(cells) =>
      var u := Unique(DropNa(cells));
      if |u| > 0 then
        DropNaHeadIsFirstPresent(cells);
        Some(u[0])
      else None
  }

  /** What pair `i` adds to the dates and to the prices. */
  function PairValues<V(==)>(rows: Table<V>, i: nat): (r: (seq<V>, seq<V>))
    ensures |r.0| == 0 <==> |r.1| == 0
    ensures |r.0| > 0 ==> HasColumn(rows.columns, DateColumn(i)) && HasColumn(rows.columns, PriceColumn(i))
  {
    match (Lookup(rows.columns, DateColumn(i)), Lookup(rows.columns, PriceColumn(i)))
    case (Some(dateCells), Some(priceCells)) =>
      var dateValues, priceValues := DropNa(dateCells), DropNa(priceCells);
      if |dateValues| > 0 && |priceValues| > 0 then (dateValues, priceValues) else ([], [])
    case _ => ([], [])
  }

  /**
   * The price history over pairs 1..n: the concatenation, in increasing `i`,
   * of what each pair adds. The dates are empty exactly when the prices are,
   * since every pair adds to both or to neither.
   */
  function History<V(==)>(rows: Table<V>, n: nat): (r: (seq<V>, seq<V>))
    ensures |r.0| == 0 <==> |r.1| == 0
    decreases n
  {
    if n == 0 then ([], [])
    else
      var before := History(rows, n - 1);
      var added := PairValues(rows, n);
      (before.0 + added.0, before.1 + added.1)
  }

  /** The record built from the selected rows (the code after the emptiness test). */
  function Assemble<V(==)>(rows: Table<V>): (r: Record<V>)
    ensures |r.dates| == 0 <==> |r.prices| == 0
  {
    var h := History(rows, PairCount);
    Record(h.0, h.1,
           FirstUnique(rows, "Phone"), FirstUnique(rows, "Listed By"), FirstUnique(rows, "Zillow Links"),
           FirstUnique(rows, "Bedrooms"), FirstUnique(rows, "Bathrooms"), FirstUnique(rows, "Area (sqft)"),
           FirstUnique(rows, "Days on Zillow"), FirstUnique(rows, "Built in"))
  }

  /** The rows whose address is `a`, in their original order. */
  function MatchingRows<V(==)>(t: Table<V>, a: V): (rows: Table<V>)
    requires WellFormed(t) && HasColumn(t.columns, "Address")
    ensures WellFormed(rows)
  {
    LookupHeight(t, "Address");
    SelectRows(t, Matches(Lookup(t.columns, "Address").value, a))
  }

  /** The cells of column `name` in the rows whose address is `a`, in row order. */
  function MatchingCells<V(==)>(t: Table<V>, a: V, name: string): seq<Option<V>>
    requires WellFormed(t) && HasColumn(t.columns, "Address") && HasColumn(t.columns, name)
  {
    LookupHeight(t, "Address");
    LookupHeight(t, name);
    Where(Lookup(t.columns, name).value, Matches(Lookup(t.columns, "Address").value, a))
  }

  /** `prepare_plot_data`: `KeyError` without an `Address` column, the empty record when no row matches. */
  function PropertyRecord<V(==)>(t: Table<V>, a: V): (r: Result<Record<V>>)
    requires WellFormed(t)
    ensures r.KeyError? <==> !HasColumn(t.columns, "Address")
    ensures r.KeyError? ==> r.column == "Address"
  {
    if !HasColumn(t.columns, "Address") then KeyError("Address")
    else
      var rows := MatchingRows(t, a);
      if rows.height == 0 then Ok(EmptyRecord()) else Ok(Assemble(rows))
  }

  /** The loop over the pairs: `dates.extend(...)`, `prices.extend(...)` when pair `i` qualifies. */
  method CollectHistory<V(==)>(rows: Table<V>) returns (dates: seq<V>, prices: seq<V>)
    ensures dates == History(rows, PairCount).0 && prices == History(rows, PairCount).1
  {
    dates, prices := [], [];
    for i := 1 to PairCount + 1
      invariant dates == History(rows, i - 1).0 && prices == History(rows, i - 1).1
    {
      ghost var added := PairValues(rows, i);
      var dateCol, priceCol := Lookup(rows.columns, DateColumn(i)), Lookup(rows.columns, PriceColumn(i));
      if dateCol.Some? && priceCol.Some? {
        var dateValues, priceValues := DropNa(dateCol.value), DropNa(priceCol.value);
        if |dateValues| > 0 && |priceValues| > 0 {
          assert added == (dateValues, priceValues);
          dates := dates + dateValues;
          prices := prices + priceValues;
        } else {
          assert added == ([], []);
          assert dates + [] == dates && prices + [] == prices;
        }
      } else {
        assert added == ([], []);
        assert dates + [] == dates && prices + [] == prices;
      }
    }
  }

  /** The function body of `prepare_plot_data`, step by step, with the `extend` loop over the pairs. */
  method PreparePlotData<V(==)>(t: Table<V>, a: V) returns (r: Result<Record<V>>)
    requires WellFormed(t)
    ensures r == PropertyRecord(t, a)
  {
    var addresses := Lookup(t.columns, "Address");
    if addresses.None? {
      return KeyError("Address");
    }
    LookupHeight(t, "Address");
    var rows := SelectRows(t, Matches(addresses.value, a));
    assert rows == MatchingRows(t, a);
    if rows.height == 0 {
      return Ok(EmptyRecord());
    }
    var phone := FirstUnique(rows, "Phone");
    var listedBy := FirstUnique(rows, "Listed By");
    var zillowLink := FirstUnique(rows, "Zillow Links");
    var bedrooms := FirstUnique(rows, "Bedrooms");
    var bathrooms := FirstUnique(rows, "Bathrooms");
    var areaSqft := FirstUnique(rows, "Area (sqft)");
    var daysOnZillow := FirstUnique(rows, "Days on Zillow");
    var builtIn := FirstUnique(rows, "Built in");
    var dates, prices := CollectHistory(rows);
    return Ok(Record(dates, prices, phone, listedBy, zillowLink, bedrooms, bathrooms, areaSqft, daysOnZillow, builtIn));
  }

  /** No row with address `a` holds a value in `cells`. */
  ghost predicate NoValueFor<V>(addresses: seq<Option<V>>, cells: seq<Option<V>>, a: V) {
    forall k | 0 <= k < |cells| && k < |addresses| :: addresses[k] == Some(a) ==> cells[k].None?
  }

  /** `v` is the value in `cells` of the first row with address `a` that holds one. */
  ghost predicate FirstValueFor<V>(addresses: seq<Option<V>>, cells: seq<Option<V>>, a: V, v: V) {
    exists k | 0 <= k < |cells| && k < |addresses| ::
      && addresses[k] == Some(a) && cells[k] == Some(v)
      && forall j | 0 <= j < k :: addresses[j] == Some(a) ==> cells[j].None?
  }

  /** In the selected rows, `df[name]` is the column's cells at the matching rows. */
  lemma LookupMatching<V>(t: Table<V>, a: V, name: string)
    requires WellFormed(t) && HasColumn(t.columns, "Address")
    ensures Lookup(MatchingRows(t, a).columns, name) ==
              if HasColumn(t.columns, name) then Some(MatchingCells(t, a, name)) else None
  {
    var rows := MatchingRows(t, a);
    if HasColumn(t.columns, name) {
      var i :| 0 <= i < |t.columns| && t.columns[i].name == name;
      LookupColumn(t.columns, i);
      LookupColumn(rows.columns, i);
    } else {
      assert forall i | 0 <= i < |rows.columns| :: rows.columns[i].name == t.columns[i].name != name;
    }
  }

  lemma {:induction false} HistoryOfNoRows<V>(rows: Table<V>, n: nat)
    requires WellFormed(rows) && rows.height == 0
    ensures History(rows, n) == ([], [])
    decreases n
  {
    if n > 0 {
      HistoryOfNoRows(rows, n - 1);
      if HasColumn(rows.columns, DateColumn(n)) {
        LookupHeight(rows, DateColumn(n));
      }
    }
  }

  /**
   * The early return when no row matches gives what the rest of the body
   * would give on zero rows: the record is always assembled from the
   * matching rows.
   */
  lemma PropertyRecordIsAssembled<V>(t: Table<V>, a: V)
    requires WellFormed(t) && HasColumn(t.columns, "Address")
    ensures PropertyRecord(t, a) == Ok(Assemble(MatchingRows(t, a)))
  {
    var rows := MatchingRows(t, a);
    if rows.height == 0 {
      AssembleOfNoRows(rows);
    }
  }

  /** Assembling a record from zero rows gives the empty record. */
  lemma AssembleOfNoRows<V>(rows: Table<V>)
    requires WellFormed(rows) && rows.height == 0
    ensures Assemble(rows) == EmptyRecord()
  {
    HistoryOfNoRows(rows, PairCount);
    FirstUniqueOfNoRows(rows, "Phone");
    FirstUniqueOfNoRows(rows, "Listed By");
    FirstUniqueOfNoRows(rows, "Zillow Links");
    FirstUniqueOfNoRows(rows, "Bedrooms");
    FirstUniqueOfNoRows(rows, "Bathrooms");
    FirstUniqueOfNoRows(rows, "Area (sqft)");
    FirstUniqueOfNoRows(rows, "Days on Zillow");
    FirstUniqueOfNoRows(rows, "Built in");
  }

  /** Over zero rows, every column is all missing, so no descriptive field has a value. */
  lemma FirstUniqueOfNoRows<V>(rows: Table<V>, name: string)
    requires WellFormed(rows) && rows.height == 0
    ensures FirstUnique(rows, name) == None
  {
    if HasColumn(rows.columns, name) {
      LookupHeight(rows, name);
      assert AllMissing(Lookup(rows.columns, name).value);
    }
  }

  /** With no row for address `a`, the record is empty. */
  lemma NoMatchingRowGivesEmptyRecord<V>(t: Table<V>, a: V)
    requires WellFormed(t) && HasColumn(t.columns, "Address")
    requires Some(a) !in Lookup(t.columns, "Address").value
    ensures PropertyRecord(t, a) == Ok(EmptyRecord())
  {
    var addresses := Lookup(t.columns, "Address").value;
    var mask := Matches(addresses, a);
    assert forall k | 0 <= k < |mask| :: addresses[k] in addresses && !mask[k];
    RowsOfFalseMask(mask);
  }

  /**
   * Each descriptive field is the value of the first row, in row order,
   * whose address is `a` and whose cell in that column holds a value; it is
   * `None` when the column is absent or no such row holds a value. Later
   * values, equal or conflicting, are ignored.
   */
  lemma ScalarField<V>(t: Table<V>, a: V, name: string)
    requires WellFormed(t) && HasColumn(t.columns, "Address") && name in ScalarColumns
    ensures var f := ScalarOf(PropertyRecord(t, a).value, name);
            var addresses := Lookup(t.columns, "Address").value;
            && (f.None? <==> !HasColumn(t.columns, name) || NoValueFor(addresses, Lookup(t.columns, name).value, a))
            && (f.Some? ==> FirstValueFor(addresses, Lookup(t.columns, name).value, a, f.value))
  {
    PropertyRecordIsAssembled(t, a);
    ScalarOfAssemble(MatchingRows(t, a), name);
    FirstUniqueOfMatchingRows(t, a, name);
  }

  lemma ScalarOfAssemble<V>(rows: Table<V>, name: string)
    requires name in ScalarColumns
    ensures ScalarOf(Assemble(rows), name) == FirstUnique(rows, name)
  {
    var h := History(rows, PairCount);
    var f := n => FirstUnique(rows, n);
    assert Assemble(rows) == Record(h.0, h.1, f("Phone"), f("Listed By"), f("Zillow Links"), f("Bedrooms"),
                                    f("Bathrooms"), f("Area (sqft)"), f("Days on Zillow"), f("Built in"));
    ScalarOfFields(h.0, h.1, f, name);
  }

  /** Reading field `name` of a record whose fields are `f` of their column labels gives `f(name)`. */
  lemma ScalarOfFields<V>(dates: seq<V>, prices: seq<V>, f: string -> Option<V>, name: string)
    requires name in ScalarColumns
    ensures ScalarOf(Record(dates, prices, f("Phone"), f("Listed By"), f("Zillow Links"), f("Bedrooms"),
                            f("Bathrooms"), f("Area (sqft)"), f("Days on Zillow"), f("Built in")), name) == f(name)
  {
  }

  /** `dropna().unique()[0]` on the matching rows is the first matching value. */
  lemma FirstUniqueOfMatchingRows<V>(t: Table<V>, a: V, name: string)
    requires WellFormed(t) && HasColumn(t.columns, "Address")
    ensures var f := FirstUnique(MatchingRows(t, a), name);
            var addresses := Lookup(t.columns, "Address").value;
            && (f.None? <==> !HasColumn(t.columns, name) || NoValueFor(addresses, Lookup(t.columns, name).value, a))
            && (f.Some? ==> FirstValueFor(addresses, Lookup(t.columns, name).value, a, f.value))
  {
    MatchingColumnValues(t, a, name);
    if HasColumn(t.columns, name) {
      var w := MatchingCells(t, a, name);
      if !AllMissing(w) {
        LookupHeight(t, "Address");
        LookupHeight(t, name);
        var cells, mask := Lookup(t.columns, name).value, Matches(Lookup(t.columns, "Address").value, a);
        assert w == Where(cells, mask);
        var v := DropNa(w)[0];
        DropNaHeadIsFirstPresent(w);
        WhereFirstPresent(cells, mask, v);
        assert FirstUnique(MatchingRows(t, a), name) == Some(v);
      }
    }
  }

  /**
   * Pair `i` adds something exactly when both of its columns exist and each
   * holds a value in some matching row; it then adds the non-missing
   * matching dates and the non-missing matching prices, each in row order.
   */
  lemma PairContribution<V>(t: Table<V>, a: V, i: nat)
    requires WellFormed(t) && HasColumn(t.columns, "Address")
    ensures var added := PairValues(MatchingRows(t, a), i);
            var addresses := Lookup(t.columns, "Address").value;
            && (added != ([], []) <==>
                  && HasColumn(t.columns, DateColumn(i)) && HasColumn(t.columns, PriceColumn(i))
                  && !NoValueFor(addresses, Lookup(t.columns, DateColumn(i)).value, a)
                  && !NoValueFor(addresses, Lookup(t.columns, PriceColumn(i)).value, a))
            && (added != ([], []) ==>
                  added == (DropNa(MatchingCells(t, a, DateColumn(i))), DropNa(MatchingCells(t, a, PriceColumn(i)))))
  {
    MatchingColumnValues(t, a, DateColumn(i));
    MatchingColumnValues(t, a, PriceColumn(i));
  }

  /** One column of a pair, seen through the matching rows. */
  lemma MatchingColumnValues<V>(t: Table<V>, a: V, name: string)
    requires WellFormed(t) && HasColumn(t.columns, "Address")
    ensures var col := Lookup(MatchingRows(t, a).columns, name);
            && (col.Some? <==> HasColumn(t.columns, name))
            && (col.Some? ==> col.value == MatchingCells(t, a, name))
            && (col.Some? ==> (|DropNa(col.value)| > 0 <==>
                               !NoValueFor(Lookup(t.columns, "Address").value, Lookup(t.columns, name).value, a)))
  {
    LookupMatching(t, a, name);
    if HasColumn(t.columns, name) {
      LookupHeight(t, "Address");
      LookupHeight(t, name);
      WhereAllMissing(Lookup(t.columns, name).value, Matches(Lookup(t.columns, "Address").value, a));
    }
  }

  /** The dates (`dateSide`) or the prices of a pair of lists. */
  function Side<V>(p: (seq<V>, seq<V>), dateSide: bool): seq<V> {
    if dateSide then p.0 else p.1
  }

  /** `v` is among what some pair `i` in 1..n adds to the dates (`dateSide`) or to the prices. */
  ghost predicate AddedBySomePair<V>(rows: Table<V>, n: nat, v: V, dateSide: bool) {
    exists i: nat | 1 <= i <= n :: v in Side(PairValues(rows, i), dateSide)
  }

  /** Every date and every price in the history was added by some pair `i` in 1..n. */
  lemma HistoryComesFromPairs<V>(rows: Table<V>, n: nat)
    ensures forall j | 0 <= j < |History(rows, n).0| :: AddedBySomePair(rows, n, History(rows, n).0[j], true)
    ensures forall j | 0 <= j < |History(rows, n).1| :: AddedBySomePair(rows, n, History(rows, n).1[j], false)
  {
    forall j | 0 <= j < |History(rows, n).0| ensures AddedBySomePair(rows, n, History(rows, n).0[j], true) {
      var i := EntryFromPair(rows, n, true, j);
    }
    forall j | 0 <= j < |History(rows, n).1| ensures AddedBySomePair(rows, n, History(rows, n).1[j], false) {
      var i := EntryFromPair(rows, n, false, j);
    }
  }

  /** The pair that added entry `j` of one side of the history. */
  lemma {:induction false} EntryFromPair<V>(rows: Table<V>, n: nat, dateSide: bool, j: nat) returns (i: nat)
    requires j < |Side(History(rows, n), dateSide)|
    ensures 1 <= i <= n && Side(History(rows, n), dateSide)[j] in Side(PairValues(rows, i), dateSide)
    decreases n
  {
    var before, added := Side(History(rows, n - 1), dateSide), Side(PairValues(rows, n), dateSide);
    HistorySideStep(rows, n, dateSide);
    if j < |before| {
      i := EntryFromPair(rows, n - 1, dateSide, j);
    } else {
      i := n;
      assert Side(History(rows, n), dateSide)[j] == added[j - |before|];
    }
  }

  lemma HistorySideStep<V>(rows: Table<V>, n: nat, dateSide: bool)
    requires n > 0
    ensures Side(History(rows, n), dateSide) == Side(History(rows, n - 1), dateSide) + Side(PairValues(rows, n), dateSide)
  {
  }

  /** A row whose address is not `a`, inserted anywhere, changes nothing in the record of `a`. */
  lemma NonMatchingRowIgnored<V>(t: Table<V>, a: V, k: nat, row: seq<Option<V>>)
    requires WellFormed(t) && HasColumn(t.columns, "Address") && k <= t.height && |row| == |t.columns|
    requires forall i | 0 <= i < |t.columns| && t.columns[i].name == "Address" :: row[i] != Some(a)
    ensures WellFormed(InsertRow(t, k, row))
    ensures PropertyRecord(InsertRow(t, k, row), a) == PropertyRecord(t, a)
  {
    var t' := InsertRow(t, k, row);
    var ia :| 0 <= ia < |t.columns| && t.columns[ia].name == "Address";
    assert t'.columns[ia].name == "Address";
    MatchingRowsInsert(t, a, k, row, ia);
    PropertyRecordIsAssembled(t, a);
    PropertyRecordIsAssembled(t', a);
  }

  /** The mask of the grown address column has `false` at the inserted row. */
  lemma MatchesInsert<V>(c: seq<Option<V>>, a: V, k: nat, x: Option<V>)
    requires k <= |c| && x != Some(a)
    ensures Matches(c[..k] + [x] + c[k..], a) == Matches(c, a)[..k] + [false] + Matches(c, a)[k..]
  {
  }

  lemma MatchingRowsInsert<V>(t: Table<V>, a: V, k: nat, row: seq<Option<V>>, ia: nat)
    requires WellFormed(t) && k <= t.height && |row| == |t.columns|
    requires ia < |t.columns| && t.columns[ia].name == "Address" && row[ia] != Some(a)
    ensures WellFormed(InsertRow(t, k, row)) && HasColumn(InsertRow(t, k, row).columns, "Address")
    ensures MatchingRows(InsertRow(t, k, row), a) == MatchingRows(t, a)
  {
    var t' := InsertRow(t, k, row);
    var c := t.columns[ia].cells;
    assert t'.columns[ia].name == "Address" && t'.columns[ia].cells == c[..k] + [row[ia]] + c[k..];
    LookupColumn(t.columns, ia);
    LookupColumn(t'.columns, ia);
    var m := Matches(c, a);
    var m' := Matches(t'.columns[ia].cells, a);
    MatchesInsert(c, a, k, row[ia]);
    forall i | 0 <= i < |t.columns|
      ensures Where(t'.columns[i].cells, m') == Where(t.columns[i].cells, m)
    {
      WhereInsertUnselected(t.columns[i].cells, m, k, row[i]);
    }
    var rows, rows' := SelectRows(t, m), SelectRows(t', m');
    WhereAt(c, m);
    WhereAt(t'.columns[ia].cells, m');
    assert rows'.height == |Where(t'.columns[ia].cells, m')| == |Where(c, m)| == rows.height;
    assert rows'.columns == rows.columns;
  }

  /** When every row carries address `a`, the selection keeps the whole table. */
  lemma AllRowsMatch<V>(t: Table<V>, a: V)
    requires WellFormed(t) && HasColumn(t.columns, "Address")
    requires forall k | 0 <= k < |Lookup(t.columns, "Address").value| :: Lookup(t.columns, "Address").value[k] == Some(a)
    ensures MatchingRows(t, a) == t
  {
    LookupHeight(t, "Address");
    var mask := Matches(Lookup(t.columns, "Address").value, a);
    RowsOfTrueMask(mask);
    forall i | 0 <= i < |t.columns| ensures Where(t.columns[i].cells, mask) == t.columns[i].cells {
      WhereAll(t.columns[i].cells, mask);
    }
    assert MatchingRows(t, a).columns == t.columns;
  }

  /** Pairs past `m` that add nothing leave the history as it was after pair `m`. */
  lemma {:induction false} HistoryStable<V>(rows: Table<V>, m: nat, n: nat)
    requires m <= n
    requires forall i | m < i <= n :: PairValues(rows, i) == ([], [])
    ensures History(rows, n) == History(rows, m)
    decreases n
  {
    if m < n {
      HistoryStable(rows, m, n - 1);
      var before, h := History(rows, n - 1), History(rows, n);
      assert h.0 == before.0 + [] && h.1 == before.1 + [];
      assert before.0 + [] == before.0 && before.1 + [] == before.1;
    }
  }
}

/**
 * Small worked tables: the price-history pairing, the first-seen rule for a
 * descriptive field, and how the pair columns line up with `convert_dates`.
 */
module Scenarios {
  import opened Wrappers
  import opened Series
  import opened Frames
  import opened Dates
  import opened Extract

  lemma {:induction false} DecimalDigits(n: nat)
    ensures |Decimal(n)| >= 1 && (n >= 10 ==> |Decimal(n)| >= 2)
    ensures forall k | 0 <= k < |Decimal(n)| :: '0' <= Decimal(n)[k] <= '9'
    decreases n
  {
    if n >= 10 {
      DecimalDigits(n / 10);
      DecimalDigits(n % 10);
    }
  }

  /** A label without a capital `D` cannot contain `Date`. */
  lemma {:induction false} NoCapitalD(name: string)
    requires forall k | 0 <= k < |name| :: name[k] != 'D'
    ensures !MentionsDate(name)
    decreases |name|
  {
    if |name| >= 4 {
      assert name[..4][0] == name[0];
      NoCapitalD(name[1..]);
    }
  }

  /** The date column of every pair is one `convert_dates` rewrites; the price column is not. */
  lemma PairColumnsAndDateConversion(i: nat)
    ensures MentionsDate(DateColumn(i))
    ensures !MentionsDate(PriceColumn(i))
  {
    DecimalDigits(i);
    assert DateColumn(i)[..4] == "Date";
    var p := PriceColumn(i);
    forall k | 0 <= k < |p| ensures p[k] != 'D' {
      if k >= 5 {
        assert p[k] == Decimal(i)[k - 5];
      }
    }
    NoCapitalD(p);
  }

  /** A label outside pair 1 is not the date column of any later pair. */
  lemma LaterDateColumnAbsent(names: set<string>, i: nat)
    requires 1 < i && names == {"Address", "Date1", "Price1", "Phone"}
    ensures DateColumn(i) !in names
  {
    var name := DateColumn(i);
    DecimalDigits(i);
    assert name[0] == 'D' && name[1..4] == "ate";
    if i < 10 {
      assert |name| == 5 && name[4] != '1';
    } else {
      assert |name| > 5;
    }
  }

  /** In a sheet holding pair 1 only, the later pairs add nothing. */
  lemma LaterPairsAddNothing<V>(rows: Table<V>)
    requires forall j | 0 <= j < |rows.columns| :: rows.columns[j].name in {"Address", "Date1", "Price1", "Phone"}
    ensures forall i | 1 < i <= PairCount :: PairValues(rows, i) == ([], [])
  {
    forall i | 1 < i <= PairCount ensures PairValues(rows, i) == ([], []) {
      LaterDateColumnAbsent({"Address", "Date1", "Price1", "Phone"}, i);
      assert !HasColumn(rows.columns, DateColumn(i));
    }
  }

  lemma HistoryOfFirstPair<V>(rows: Table<V>)
    ensures History(rows, 1) == PairValues(rows, 1)
  {
    var p := PairValues(rows, 1);
    assert History(rows, 0) == ([], []);
    assert History(rows, 1) == ([] + p.0, [] + p.1);
    assert [] + p.0 == p.0 && [] + p.1 == p.1;
  }

  /** In a sheet holding pair 1 only, the history is what pair 1 adds. */
  lemma OnlyPairOne<V>(rows: Table<V>)
    requires forall j | 0 <= j < |rows.columns| :: rows.columns[j].name in {"Address", "Date1", "Price1", "Phone"}
    ensures History(rows, PairCount) == PairValues(rows, 1)
  {
    LaterPairsAddNothing(rows);
    HistoryStable(rows, 1, PairCount);
    HistoryOfFirstPair(rows);
  }

  lemma DropNaTwo<V>(x: V, y: V)
    ensures DropNa([Some(x), Some(y)]) == [x, y]
  {
    assert [Some(x), Some(y)][..1] == [Some(x)];
  }

  lemma DropNaSecondMissing<V>(x: V)
    ensures DropNa([Some(x), None]) == [x]
  {
    assert [Some(x), None][..1] == [Some(x)];
  }

  /** A sheet of one property seen twice, with the given `Date1` and `Price1` cells. */
  function TwoObservations(dates: seq<Option<string>>, prices: seq<Option<string>>): Table<string>
    requires |dates| == 2 && |prices| == 2
  {
    Table([Column("Address", [Some("A1"), Some("A1")]),
           Column("Date1", dates),
           Column("Price1", prices)], 2)
  }

  /** The table has none of the descriptive columns, so every descriptive field is `None`. */
  lemma NoDescriptiveColumns(t: Table<string>)
    requires |t.columns| == 3 && t.columns[0].name == "Address" && t.columns[1].name == "Date1" && t.columns[2].name == "Price1"
    ensures forall name | name in ScalarColumns :: FirstUnique(t, name) == None
  {
    forall name | name in ScalarColumns ensures FirstUnique(t, name) == None {
      assert name != "Address" && name != "Date1" && name != "Price1";
      assert !HasColumn(t.columns, name);
    }
  }

  /** The sheet is well formed and every row belongs to `A1`. */
  lemma TwoObservationsShape(dates: seq<Option<string>>, prices: seq<Option<string>>)
    requires |dates| == 2 && |prices| == 2
    ensures var t := TwoObservations(dates, prices);
      WellFormed(t) && HasColumn(t.columns, "Address") && MatchingRows(t, "A1") == t
  {
    var t := TwoObservations(dates, prices);
    assert t.columns[0].name == "Address";
    LookupColumn(t.columns, 0);
    AllRowsMatch(t, "A1");
  }

  /** Only pair 1 contributes to the history of the sheet. */
  lemma TwoObservationsHistory(dates: seq<Option<string>>, prices: seq<Option<string>>)
    requires |dates| == 2 && |prices| == 2
    ensures var t := TwoObservations(dates, prices); History(t, PairCount) == PairValues(t, 1)
  {
    var t := TwoObservations(dates, prices);
    forall j | 0 <= j < |t.columns| ensures t.columns[j].name in {"Address", "Date1", "Price1", "Phone"} {
      assert t.columns[j].name in {"Address", "Date1", "Price1"};
    }
    OnlyPairOne(t);
  }

  /** Without any descriptive value, the record is the price history alone. */
  lemma AssembleHistoryOnly<V>(rows: Table<V>)
    requires forall name | name in ScalarColumns :: FirstUnique(rows, name) == None
    ensures Assemble(rows) == EmptyRecord().(dates := History(rows, PairCount).0, prices := History(rows, PairCount).1)
  {
    var names := ScalarColumns;
    assert names[0] in names && names[1] in names && names[2] in names && names[3] in names;
    assert names[4] in names && names[5] in names && names[6] in names && names[7] in names;
    var h := History(rows, PairCount);
    assert Assemble(rows) == Record(h.0, h.1, None, None, None, None, None, None, None, None);
  }

  /** The record of `A1` is the pair-1 history with no descriptive field. */
  lemma TwoObservationsRecord(dates: seq<Option<string>>, prices: seq<Option<string>>)
    requires |dates| == 2 && |prices| == 2
    ensures var t := TwoObservations(dates, prices);
      WellFormed(t) && PropertyRecord(t, "A1") == Ok(EmptyRecord().(dates := PairValues(t, 1).0, prices := PairValues(t, 1).1))
  {
    var t := TwoObservations(dates, prices);
    TwoObservationsShape(dates, prices);
    PropertyRecordIsAssembled(t, "A1");
    TwoObservationsHistory(dates, prices);
    NoDescriptiveColumns(t);
    AssembleHistoryOnly(t);
  }

  lemma PairOneColumns()
    ensures DateColumn(1) == "Date1" && PriceColumn(1) == "Price1"
  {
  }

  /** `Date1` and `Price1` hold the given cells. */
  lemma TwoObservationsLookup(dates: seq<Option<string>>, prices: seq<Option<string>>)
    requires |dates| == 2 && |prices| == 2
    ensures var t := TwoObservations(dates, prices);
      Lookup(t.columns, "Date1") == Some(dates) && Lookup(t.columns, "Price1") == Some(prices)
  {
    var t := TwoObservations(dates, prices);
    TwoObservationsShape(dates, prices);
    LookupColumn(t.columns, 1);
    LookupColumn(t.columns, 2);
  }

  /** What pair `i` adds once its two columns are known. */
  lemma PairValuesOfColumns<V>(rows: Table<V>, i: nat, d: seq<Option<V>>, p: seq<Option<V>>)
    requires Lookup(rows.columns, DateColumn(i)) == Some(d) && Lookup(rows.columns, PriceColumn(i)) == Some(p)
    ensures PairValues(rows, i) == if |DropNa(d)| > 0 && |DropNa(p)| > 0 then (DropNa(d), DropNa(p)) else ([], [])
  {
  }

  /** Pair 1 of the sheet reads the `Date1` and `Price1` cells. */
  lemma TwoObservationsPairOne(dates: seq<Option<string>>, prices: seq<Option<string>>)
    requires |dates| == 2 && |prices| == 2
    ensures var t := TwoObservations(dates, prices);
      var d, p := DropNa(dates), DropNa(prices);
      PairValues(t, 1) == if |d| > 0 && |p| > 0 then (d, p) else ([], [])
  {
    PairOneColumns();
    TwoObservationsLookup(dates, prices);
    PairValuesOfColumns(TwoObservations(dates, prices), 1, dates, prices);
  }

  /** Both observations carry a date and a price: the history lists both, in row order. */
  lemma TwoSalesHistory()
    ensures var t := TwoObservations([Some("2023-01-01"), Some("2023-02-01")], [Some("100"), Some("150")]);
      WellFormed(t) &&
      PropertyRecord(t, "A1") == Ok(EmptyRecord().(dates := ["2023-01-01", "2023-02-01"], prices := ["100", "150"]))
  {
    var dates, prices := [Some("2023-01-01"), Some("2023-02-01")], [Some("100"), Some("150")];
    TwoObservationsRecord(dates, prices);
    TwoObservationsPairOne(dates, prices);
    DropNaTwo("2023-01-01", "2023-02-01");
    DropNaTwo("100", "150");
  }

  /**
   * A missing date drops only the date: the history then holds one date and
   * two prices, so the two lists are no longer aligned by position.
   */
  lemma MissingDateMisalignsHistory()
    ensures var t := TwoObservations([Some("2023-01-01"), None], [Some("100"), Some("150")]);
      WellFormed(t) && PropertyRecord(t, "A1").Ok? &&
      PropertyRecord(t, "A1").value.dates == ["2023-01-01"] &&
      PropertyRecord(t, "A1").value.prices == ["100", "150"]
  {
    var dates, prices := [Some("2023-01-01"), None], [Some("100"), Some("150")];
    TwoObservationsRecord(dates, prices);
    TwoObservationsPairOne(dates, prices);
    DropNaSecondMissing("2023-01-01");
    DropNaTwo("100", "150");
  }

  /** One property listed twice with two different phone numbers. */
  function TwoPhones(): Table<string> {
    Table([Column("Address", [Some("A1"), Some("A1")]),
           Column("Phone", [Some("555-1111"), Some("555-2222")])], 2)
  }

  /** The first phone number seen is kept; the later, conflicting one is discarded. */
  lemma FirstPhoneWins()
    ensures WellFormed(TwoPhones())
    ensures PropertyRecord(TwoPhones(), "A1").Ok?
    ensures PropertyRecord(TwoPhones(), "A1").value.phone == Some("555-1111")
  {
    var t := TwoPhones();
    assert t.columns[0].name == "Address" && t.columns[1].name == "Phone";
    LookupColumn(t.columns, 0);
    LookupColumn(t.columns, 1);
    AllRowsMatch(t, "A1");
    PropertyRecordIsAssembled(t, "A1");
    ScalarOfAssemble(t, "Phone");
    DropNaTwo("555-1111", "555-2222");
    assert FirstUnique(t, "Phone") == Some("555-1111");
  }
}

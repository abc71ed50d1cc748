/**
 * The address choices offered for a sheet: `df['Address'].dropna().unique()`,
 * computed after the dates are normalised and handed to the address selector.
 */
module Addresses {
  import opened Wrappers
  import opened Series
  import opened Frames
  import opened Extract

  /** The distinct non-missing addresses, in order of first appearance; `KeyError` without the column. */
  function AddressList<V(==)>(t: Table<V>): (r: Result<seq<V>>)
    ensures r.KeyError? <==> !HasColumn(t.columns, "Address")
    ensures r.KeyError? ==> r.column == "Address"
    ensures r.Ok? ==> NoDuplicates(r.value)
    ensures r.Ok? ==> forall i | 0 <= i < |r.value| :: Some(r.value[i]) in Lookup(t.columns, "Address").value
    ensures r.Ok? ==> forall k | 0 <= k < |Lookup(t.columns, "Address").value| ::
                        Lookup(t.columns, "Address").value[k].Some? ==> Lookup(t.columns, "Address").value[k].value in r.value
  {
    match Lookup(t.columns, "Address")
    case None => KeyError("Address")
    case Some(cells) => Ok(Unique(DropNa(cells)))
  }

  /** `dropna()` keeps the relative order of the values it keeps. */
  lemma {:induction false} DropNaKeepsOrder<V>(cells: seq<Option<V>>, v: V, w: V)
    requires v in DropNa(cells) && w in DropNa(cells)
    requires IndexOf(DropNa(cells), v) < IndexOf(DropNa(cells), w)
    ensures Some(v) in cells && Some(w) in cells
    ensures IndexOf(cells, Some(v)) < IndexOf(cells, Some(w))
    decreases |cells|, 1
  {
    var n := |cells| - 1;
    var p := cells[..n];
    assert cells == p + [cells[n]];
    if cells[n].None? {
      assert DropNa(cells) == DropNa(p);
      DropNaKeepsOrder(p, v, w);
      IndexOfPrefix(cells, n, Some(v));
      IndexOfPrefix(cells, n, Some(w));
    } else {
      DropNaKeepsOrderPresentLast(cells, v, w);
    }
  }

  /** The case of `DropNaKeepsOrder` where the last cell holds a value. */
  lemma {:induction false} DropNaKeepsOrderPresentLast<V>(cells: seq<Option<V>>, v: V, w: V)
    requires |cells| > 0 && cells[|cells| - 1].Some?
    requires v in DropNa(cells) && w in DropNa(cells)
    requires IndexOf(DropNa(cells), v) < IndexOf(DropNa(cells), w)
    ensures Some(v) in cells && Some(w) in cells
    ensures IndexOf(cells, Some(v)) < IndexOf(cells, Some(w))
    decreases |cells|, 0
  {
    var n := |cells| - 1;
    var p, d := cells[..n], DropNa(cells[..n]);
    var all := DropNa(cells);
    assert cells == p + [cells[n]];
    assert all == d + [cells[n].value];
    var iv := IndexOf(all, v);
    assert iv < |d| && d[iv] == v;
    assert Some(v) in p;
    IndexOfPrefix(cells, n, Some(v));
    if w in d {
      IndexOfPrefix(all, |d|, v);
      IndexOfPrefix(all, |d|, w);
      assert all[..|d|] == d;
      DropNaKeepsOrder(p, v, w);
      IndexOfPrefix(cells, n, Some(w));
    } else {
      assert Some(w) !in p;
      assert cells[n] == Some(w);
      assert IndexOf(cells, Some(w)) == n;
    }
  }

  /** The list follows the order in which the addresses first appear in the rows. */
  lemma AddressListFirstSeenOrder<V>(t: Table<V>)
    requires AddressList(t).Ok?
    ensures var r, cells := AddressList(t).value, Lookup(t.columns, "Address").value;
            forall i, j | 0 <= i < j < |r| :: IndexOf(cells, Some(r[i])) < IndexOf(cells, Some(r[j]))
  {
    var cells := Lookup(t.columns, "Address").value;
    var present := DropNa(cells);
    var r := Unique(present);
    UniqueFirstSeenOrder(present);
    forall i, j | 0 <= i < j < |r| ensures IndexOf(cells, Some(r[i])) < IndexOf(cells, Some(r[j])) {
      DropNaKeepsOrder(cells, r[i], r[j]);
    }
  }

  /** Every address offered has at least one row, so its record comes from real rows. */
  lemma ListedAddressHasRows<V>(t: Table<V>, a: V)
    requires WellFormed(t) && AddressList(t).Ok? && a in AddressList(t).value
    ensures PropertyRecord(t, a).Ok?
    ensures MatchingRows(t, a).height > 0
  {
    var cells := Lookup(t.columns, "Address").value;
    LookupHeight(t, "Address");
    var i :| 0 <= i < |AddressList(t).value| && AddressList(t).value[i] == a;
    assert Some(a) in cells;
    var k :| 0 <= k < |cells| && cells[k] == Some(a);
    var mask := Matches(cells, a);
    assert mask[k] && k in Rows(mask);
    assert MatchingRows(t, a).height == |Rows(mask)| > 0;
  }
}

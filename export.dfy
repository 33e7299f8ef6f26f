/**
 The rows the program hands to the CSV writer: a fixed header, then one
 row per cart in store order.  ParseTable is the reading side, used to
 state that the rows lose nothing.
 */
module Export {
  import opened Decimal
  import opened CompactTime
  import opened ShoppingCarts

  const Header: seq<string> := ["id", "quantity", "time"]

  /** The record written for one cart: id, decimal count, compact time. */
  function CartRow(c: Cart): seq<string> {
    [c.id, FormatInt(c.count, 0), Compact(c.time)]
  }

  /** Header first, then the carts' rows, each written after those before it. */
  function Table(carts: seq<Cart>): seq<seq<string>> {
    if carts == [] then [Header] else Table(carts[..|carts| - 1]) + [CartRow(carts[|carts| - 1])]
  }

  /** There are |carts| + 1 rows: the header, then row i + 1 for cart i. */
  lemma {:induction false} TableShape(carts: seq<Cart>)
    ensures |Table(carts)| == |carts| + 1
    ensures Table(carts)[0] == Header
    ensures forall i :: 0 <= i < |carts| ==> Table(carts)[i + 1] == CartRow(carts[i])
  {
    if carts != [] {
      var init := carts[..|carts| - 1];
      TableShape(init);
      forall i | 0 <= i < |carts| ensures Table(carts)[i + 1] == CartRow(carts[i]) {
        if i < |init| {
          assert init[i] == carts[i];
        }
      }
    }
  }

  /** Writing the row of cart i extends the table of the first i carts. */
  lemma TablePrefixStep(carts: seq<Cart>, i: nat)
    requires i < |carts|
    ensures Table(carts[..i + 1]) == Table(carts[..i]) + [CartRow(carts[i])]
  {
    assert carts[..i + 1][..i] == carts[..i] && carts[..i + 1][i] == carts[i];
  }

  /** The export loop: writes the header, then one row per cart of the store. */
  method ExportRows(store: Store) returns (rows: seq<seq<string>>)
    ensures rows == Table(store.carts)
    ensures |rows| == |store.carts| + 1 && rows[0] == Header
    ensures forall i :: 0 <= i < |store.carts| ==> rows[i + 1] == CartRow(store.carts[i])
  {
    var carts := store.carts;
    rows := [Header];
    var i := 0;
    while i < |carts|
      invariant 0 <= i <= |carts|
      invariant rows == Table(carts[..i])
    {
      rows := rows + [CartRow(carts[i])];
      TablePrefixStep(carts, i);
      i := i + 1;
    }
    assert carts[..i] == carts;
    TableShape(carts);
  }

  /** Reads one written record back into a cart. */
  function ParseRow(row: seq<string>): (r: Option<Cart>)
    ensures r.Some? ==> |row| == 3 && WellFormed(row[2])
  {
    if |row| != 3 then None
    else match (ParseInt(row[1]), ParseCompact(row[2]))
      case (Some(n), Some(t)) => Some(Cart(row[0], n, t))
      case _ => None
  }

  function ParseRecords(rows: seq<seq<string>>): Option<seq<Cart>> {
    if rows == [] then Some([])
    else match (ParseRecords(rows[..|rows| - 1]), ParseRow(rows[|rows| - 1]))
      case (Some(cs), Some(c)) => Some(cs + [c])
      case _ => None
  }

  /** The reading side: the header, then one cart per record. */
  function ParseTable(rows: seq<seq<string>>): Option<seq<Cart>> {
    if |rows| == 0 || rows[0] != Header then None else ParseRecords(rows[1..])
  }

  lemma RowRoundTrip(c: Cart)
    requires Fits(c.time)
    ensures ParseRow(CartRow(c)) == Some(c)
  {
    DecimalRoundTrip(c.count);
    CompactRoundTrip(c.time);
  }

  /** Reading a table with one more record yields one more cart. */
  lemma ParseTableSnoc(t: seq<seq<string>>, r: seq<string>, cs: seq<Cart>, c: Cart)
    requires ParseTable(t) == Some(cs) && ParseRow(r) == Some(c)
    ensures ParseTable(t + [r]) == Some(cs + [c])
  {
    var records := (t + [r])[1..];
    assert records == t[1..] + [r];
    assert records[..|records| - 1] == t[1..] && records[|records| - 1] == r;
  }

  /** Every cart's time fits the compact format's field widths. */
  predicate AllFit(carts: seq<Cart>) {
    forall i :: 0 <= i < |carts| ==> Fits(carts[i].time)
  }

  lemma {:induction false} TableRoundTrip(carts: seq<Cart>)
    requires AllFit(carts)
    ensures ParseTable(Table(carts)) == Some(carts)
  {
    if carts != [] {
      var init, last := carts[..|carts| - 1], carts[|carts| - 1];
      assert carts == init + [last];
      assert AllFit(init) by {
        assert forall i :: 0 <= i < |init| ==> init[i] == carts[i];
      }
      TableRoundTrip(init);
      RowRoundTrip(last);
      ParseTableSnoc(Table(init), CartRow(last), init, last);
    }
  }

  /**
   Export followed by reading back yields the scanned rows' carts in the same
   order, whenever every timestamp's fields fit their widths.
   */
  lemma RefreshExportRoundTrip(rows: seq<Row>)
    requires forall i :: 0 <= i < |rows| ==> Fits(rows[i].2)
    ensures ParseTable(Table(CartsOf(rows))) == Some(CartsOf(rows))
  {
    CartsOfAt(rows);
    assert AllFit(CartsOf(rows));
    TableRoundTrip(CartsOf(rows));
  }

  /** An empty store exports only the header. */
  lemma EmptyStoreExportsHeader()
    ensures Table([]) == [Header]
  {
  }

  /** The time field written for a cart is the same string its console line ends with. */
  lemma ExportMatchesPrint(c: Cart, weekday: string)
    ensures var line, ts := Describe(c, weekday), CartRow(c)[2];
            |line| >= |ts| + 1 && line[|line| - 1 - |ts|..|line| - 1] == ts
  {
    DescribeEndsWithCompact(c, weekday);
  }
}

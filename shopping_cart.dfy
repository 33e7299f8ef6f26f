/**
 The shopping-cart record, its console line, and the in-memory store that
 ReadStore refills from the rows a database query yields.
 */
module ShoppingCarts {
  import opened Decimal
  import opened CompactTime

  /** One cart observation: identifier, item count, and the time's six fields. */
  datatype Cart = Cart(id: string, count: int, time: Timestamp)

  /** A row as the query iterator scans it: the `id`, `quantity` and `time` columns in that order. */
  type Row = (string, int, Timestamp)

  /** ReadStore counts in an unsigned 64-bit integer. */
  const U64: nat := 0x1_0000_0000_0000_0000

  /** `count++` on a uint64: the successor, wrapping to 0 after the largest value. */
  function Increment(count: nat): (next: nat)
    requires count < U64
    ensures next < U64
    ensures next == (count + 1) % U64
  {
    if count == U64 - 1 then 0 else count + 1
  }

  /** Counting i + 1 rows with wrap-around is one increment after counting i. */
  lemma WrapStep(i: nat)
    ensures (i + 1) % U64 == Increment(i % U64)
  {
  }

  /** The zero value of the scan buffer before the first row (Go's zero time is year 1, January 1). */
  const ZeroCart: Cart := Cart("", 0, Timestamp(1, 1, 1, 0, 0, 0))

  /** The cart decoded from one scanned row. */
  function CartOf(r: Row): Cart {
    Cart(r.0, r.1, r.2)
  }

  /** The store contents after appending the carts of `rows` one by one, in scan order, to an empty store. */
  function CartsOf(rows: seq<Row>): seq<Cart> {
    if rows == [] then [] else CartsOf(rows[..|rows| - 1]) + [CartOf(rows[|rows| - 1])]
  }

  /**
   Appending one value copy per row keeps one cart per row, cart i being
   exactly row i: nothing is dropped, merged, reordered or overwritten by a
   later row.
   */
  lemma {:induction false} CartsOfAt(rows: seq<Row>)
    ensures |CartsOf(rows)| == |rows|
    ensures forall i :: 0 <= i < |rows| ==> CartsOf(rows)[i] == CartOf(rows[i])
  {
    if rows != [] {
      CartsOfAt(rows[..|rows| - 1]);
    }
  }

  /** Scanning row i appends its cart to the carts of the rows before it. */
  lemma CartsOfStep(rows: seq<Row>, i: nat)
    requires i < |rows|
    ensures CartsOf(rows[..i + 1]) == CartsOf(rows[..i]) + [CartOf(rows[i])]
  {
    assert rows[..i + 1][..i] == rows[..i] && rows[..i + 1][i] == rows[i];
  }

  /** A later row never changes the carts already appended for earlier rows. */
  lemma CartsOfPrefix(rows: seq<Row>, more: seq<Row>)
    ensures |CartsOf(rows + more)| == |rows| + |more|
    ensures CartsOf(rows + more)[..|rows|] == CartsOf(rows)
  {
    CartsOfAt(rows + more);
    CartsOfAt(rows);
    assert forall i :: 0 <= i < |rows| ==> (rows + more)[i] == rows[i];
  }

  /**
   The line shoppingCart.Print writes, given the English weekday name of the
   cart's time: id, decimal quantity, weekday, and the compact timestamp,
   ending in a newline.
   */
  function Describe(c: Cart, weekday: string): (line: string)
    ensures |line| >= 43 + |c.id| + |weekday|
    ensures line[..4 + |c.id|] == "id: " + c.id
    ensures line[|line| - 1] == '\n'
  {
    var head := "id: " + c.id;
    var middle := ", quantity: " + FormatInt(c.count, 0) + ", date: " + weekday + ", ";
    LinePieces(head, middle, Compact(c.time));
    head + middle + Compact(c.time) + "\n"
  }

  /** Where the pieces of a console line sit: the head first, the timestamp just before the newline. */
  lemma LinePieces(head: string, middle: string, ts: string)
    ensures var line := head + middle + ts + "\n";
            && |line| == |head| + |middle| + |ts| + 1
            && line[..|head|] == head
            && line[|line| - 1 - |ts|..|line| - 1] == ts
            && line[|line| - 1] == '\n'
  {
    var line := head + middle + ts + "\n";
    assert line == head + (middle + ts + "\n");
    assert line == (head + middle) + ts + "\n";
  }

  /** The line ends with exactly the compact timestamp followed by the newline. */
  lemma DescribeEndsWithCompact(c: Cart, weekday: string)
    ensures var line, ts := Describe(c, weekday), Compact(c.time);
            |line| >= |ts| + 1 && line[|line| - 1 - |ts|..|line| - 1] == ts
  {
    var head := "id: " + c.id;
    var middle := ", quantity: " + FormatInt(c.count, 0) + ", date: " + weekday + ", ";
    LinePieces(head, middle, Compact(c.time));
  }

  /** The in-memory snapshot of carts; the program owns exactly one. */
  class Store {
    var carts: seq<Cart>

    /** A fresh store holds no carts. */
    constructor ()
      ensures carts == []
    {
      carts := [];
    }

    /**
     Refreshes the store from the scanned rows: the old carts are discarded,
     then one cart per row is appended in order.  `rows` are the rows the
     iterator yielded before Scan first returned false.  The count wraps
     like the source's uint64.
     */
    method ReadStore(rows: seq<Row>) returns (count: nat)
      modifies this
      ensures carts == CartsOf(rows)
      ensures |carts| == |rows| && forall i :: 0 <= i < |rows| ==> carts[i] == CartOf(rows[i])
      ensures count == |rows| % U64
      ensures |rows| < U64 ==> count == |carts|
    {
      carts := [];
      var cart := ZeroCart;
      count := 0;
      var i := 0;
      while i < |rows|
        invariant 0 <= i <= |rows|
        invariant carts == CartsOf(rows[..i])
        invariant count == i % U64
      {
        var (id, n, t) := rows[i];
        cart := cart.(id := id, count := n, time := t);
        count := Increment(count);
        WrapStep(i);
        carts := carts + [cart];
        CartsOfStep(rows, i);
        i := i + 1;
      }
      assert rows[..i] == rows;
      CartsOfAt(rows);
    }
  }

  /**
   A caller's view of two refreshes: an empty scan empties the store and
   returns 0, and refreshing twice from the same rows gives the same carts.
   */
  method RefreshTwice(store: Store, rows: seq<Row>) returns (first: nat, second: nat)
    requires |rows| < U64
    modifies store
    ensures first == second == |rows|
    ensures store.carts == CartsOf(rows)
  {
    var zero := store.ReadStore([]);
    assert zero == 0 && store.carts == [];
    first := store.ReadStore(rows);
    var snapshot := store.carts;
    second := store.ReadStore(rows);
    assert store.carts == snapshot;
  }
}

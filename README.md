# Shopping-cart store, export rows and compact timestamps

A Dafny model of the part of `cass-map-go-testing` that has checkable logic. The program reads shopping carts from a Cassandra table into an in-memory store, prints them, and exports them to a CSV file. The model covers four things:

- **Decimal rendering** (`decimal.dfy`, module `Decimal`). This is how Go's `fmt` prints an int under `%d` and `%0<w>d`. The width is a minimum. A negative value's sign counts towards the width, and the zeros come after the sign. `ParseInt` reads `%d` output back.
- **Compact timestamp** (`compact_time.dfy`, module `CompactTime`). This is the `%04d%02d%02d@%02d%02d%02d` rendering of six time fields, used both by the export and by the console line. `ParseCompact` is its inverse. The model proves:
  - The string is well formed (15 characters, `@` at index 8, digits elsewhere) exactly when every field fits its width.
  - Both round trips hold.
- **Carts and the store** (`shopping_cart.dfy`, module `ShoppingCarts`).
  - `Cart` is the `shoppingCart` record.
  - `Describe` is the line that `shoppingCart.Print` writes.
  - `Store` is a class whose `carts` field `ReadStore` refills. It first discards the old carts, then appends one value copy per scanned row and counts in a wrapping uint64.
- **Export rows** (`export.dfy`, module `Export`). These are the string rows handed to the CSV writer: the header `id,quantity,time`, then one `[id, %d count, compact time]` row per cart, in store order. `ParseTable` is the reading side. It is used to prove that nothing is lost between the store and the rows when every timestamp's year lies in 0..9999 (the reader is fixed-width).

Inputs and foreign calls become parameters:
- The query iterator becomes the sequence of rows it yields.
- The weekday name that `Print` shows becomes a string argument of `Describe`.
- A time value becomes its six already-split fields.

Three points where the intended behaviour and the code part ways; the model follows the code:
- **Local time.** The timestamp is meant to be rendered in local time. The code takes year, month and day from the stored time, and only hour, minute and second from `Local()`. The model takes the six fields as given and does not say which zone they come from.
- **Failed refresh.** A refresh is meant to be all or nothing. In the code, `iter.Scan` returning false simply ends the loop, and `iter.Close()` is never called, so any error is dropped. The carts scanned so far stay in the store, and their number is returned. `ReadStore` models exactly that: its input is the rows scanned before `Scan` first returned false.
- **Negative counts.** The item count is meant to be non-negative. The code's `Count` is a Go `int`, so the model renders and parses negative counts too.

## Model

| member | source | states |
|---|---|---|
| Decimal.FormatInt | main.go:75 | `%0<w>d` output is at least `w` characters long. It starts with a digit exactly when the value is non-negative, and is then all digits. A negative value starts with `-`. |
| Decimal.ParseInt | main.go:75 | Reading side of `%d`: it yields a value exactly for a nonempty digit string or a `-` followed by a nonempty digit string, and that value is the digits' value, negated after a `-`. |
| Decimal.ValueOfDigits | main.go:75 | The digits `%d` prints for a non-negative value denote that value. |
| Decimal.DigitsLength | main.go:75 | A non-negative value prints in at most `w` digits exactly when it is below 10^w. |
| Decimal.FieldRendering | main.go:75 | A value in [0, 10^w) prints under `%0<w>d` as exactly `w` digits, which are its last `w` decimal digits, and reading them gives the value back. |
| Decimal.FieldFromDigits | main.go:75 | Any `w` digits are the `%0<w>d` rendering of the value they denote. |
| Decimal.FieldWidthExact | main.go:75 | If a `%0<w>d` rendering is exactly `w` long and starts with a digit, the value lies in [0, 10^w). |
| Decimal.DecimalRoundTrip | main.go:75 | For every int count, reading back its `%d` rendering returns the count. |
| CompactTime.Compact | main.go:75 | The compact rendering of any six fields is at least 15 characters long. |
| CompactTime.ParseCompact | main.go:75 | Parsing succeeds exactly on well-formed strings (15 characters, `@` at 8, digits elsewhere), and the fields it yields fit their widths. |
| CompactTime.CalendarFits | main.go:75 | Years 0 to 9999 with calendar-range month, day, hour, minute and second fit the compact format's widths. |
| CompactTime.CompactShape | main.go:75 | When every field fits its width, the compact timestamp is 15 characters with `@` at index 8 and a digit everywhere else. |
| CompactTime.WellFormedOnlyWhenFits | main.go:75 | Converse of CompactShape: a well-formed rendering implies every field fits, so a 5-digit year or a negative field breaks the fixed width. |
| CompactTime.CompactRoundTrip | main.go:75 | Parsing the 4+2+2 digits before `@` and the 2+2+2 after it recovers all six fields. |
| CompactTime.ParseCompactInverse | main.go:75 | Every well-formed string is the compact rendering of the fields it parses to. |
| CompactTime.CompactExample | main.go:75 | 2024-03-07 09:05:03 renders as `2024` `03` `07` `@` `09` `05` `03`. |
| CompactTime.CompactOfZeroTime | main.go:93 | The fields of Go's zero time read in UTC, year 1 January 1 00:00:00, render as `0001` `01` `01` `@` `00` `00` `00`. |
| ShoppingCarts.Increment | main.go:117 | `count++` on a uint64 gives a value below 2^64 equal to (count + 1) mod 2^64. |
| ShoppingCarts.CartsOfAt | main.go:113-118 | Appending one copy of the scan buffer per row gives one cart per row, and cart i equals row i. |
| ShoppingCarts.CartsOfPrefix | main.go:113-118 | Later rows never change the carts already appended for earlier rows. |
| ShoppingCarts.Describe | main.go:92-94 | The console line of a cart starts with `id: ` and the cart's id, ends in a newline, and is at least 43 characters longer than id and weekday together (27 fixed characters, at least one count digit, and the at least 15-character timestamp). |
| ShoppingCarts.DescribeEndsWithCompact | main.go:93 | The console line ends with exactly the cart's compact timestamp followed by the newline. |
| ShoppingCarts.Store.constructor | main.go:43-45 | A new store holds no carts. |
| ShoppingCarts.Store.ReadStore | main.go:111-121 | The previous carts are gone, and `carts` is exactly the scanned rows in scan order, with no dedup, sort or validation. The count is the row count mod 2^64, so it equals the number of carts held; zero rows gives an empty store and 0. |
| ShoppingCarts.RefreshTwice | main.go:111-121 | A caller refreshing from no rows, then twice from the same rows, gets the same count, the row count, both times and ends with exactly those rows' carts. |
| Export.TableShape | main.go:71-78 | Export yields one row more than there are carts: the header `id,quantity,time` first, then row i+1 = `[id, %d count, compact time]` of cart i. |
| Export.ExportRows | main.go:70-78 | The export loop writes the header, then one row per cart in store order, as TableShape describes. |
| Export.RowRoundTrip | main.go:75 | When its time fits, a cart's exported row reads back to the same cart. |
| Export.TableRoundTrip | main.go:71-78 | When every time fits, reading the exported rows gives back the store's carts in order. |
| Export.RefreshExportRoundTrip | main.go:74-78 | After a refresh, when every row's time fits (years 0..9999, other fields 0..99), export and read-back yield the scanned rows' (id, count, time) in scan order. |
| Export.EmptyStoreExportsHeader | main.go:71-73 | An empty store exports only the header row. |
| Export.ExportMatchesPrint | main.go:75-93 | A cart's exported time field is the same string that its console line ends with. |

## Left out

- Connecting to the cluster, opening and closing the session, and the keyspace and consistency settings (main.go:14-41, 55-59): network I/O through gocql. The model has no connection object; the store is its own class.
- Executing the `SELECT` and driving the iterator (main.go:115-116): the rows it yields are an input sequence. Column decoding and the error that `Scan` swallows are not modelled.
- `InsertCart` (main.go:103-109): it depends on a UUIDv7 generator and `time.Now()`, a foreign and nondeterministic call.
- Creating and closing the file, `csv.Writer` quoting and escaping, and `Flush` (main.go:65-80): file I/O and library encoding. Only the string rows passed to `Write` are modelled, and the panics on write errors are not.
- The `higor` dataframe calls `ReadCSV`, `Head`, `Select` and `WhereGreaterOrEqual` (main.go:82-88): an external library that compares float64 values.
- Time-zone conversion with `Local()` and the `Weekday()` name (main.go:75, 93): calendar arithmetic. The six fields are taken as given, and the weekday is a parameter of `Describe`.
- Console output (main.go:62, 84-88, 96-101): the `Read %d carts` line and the `store.Print` loop with its separator lines are output only. The single cart line is modelled by `Describe`.
- Export.RefreshExportRoundTrip: the round trip is proved only when every row's year lies in 0..9999 (and the other fields in 0..99). A CQL timestamp can hold a year outside that range; Go then prints five or more year digits or a `-`, while the fixed-width `ParseCompact` rejects it (`WellFormedOnlyWhenFits`). A reader for wider years is not modelled.
- Integer widths of `Count`: it is a Go `int` scanned from a CQL `int`. The model treats it as unbounded, since nothing in the core computes with it.

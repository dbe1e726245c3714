# Bookshop inventory: a Dafny model

This project models a small bookshop till. The server keeps two SQLite
tables:

- `books`: id, title, price, quantity. It is seeded with sixteen course books at start-up.
- `transactions`: id, action, book, quantity, total, timestamp.

The server answers five HTTP routes: read both tables, add to or insert a
book, record a transaction, set a book's quantity, and delete a transaction.

The browser client works on snapshots of both tables. It holds the price
list and adds up the totals shown under the two tables. It filters the
ledger by a date prefix and guards a sale with a stock check. It exports
either table as CSV. Behind each button it issues a fixed sequence of
requests.

The model has four modules:

- `Tables` (`tables.dfy`): the two row types and the effect of each SQL statement, as functions on sequences.
  - A new row's id is the largest id so far plus one, or 1 on an empty table. This is SQLite's rowid rule.
  - The store invariant: ids positive and strictly increasing in scan order, and book titles distinct.
- `Server` (`server.dfy`): the `Store` class, whose two fields are the tables.
  - The constructor runs the seeding loop.
  - There is one method per route handler. Each states the new contents of both tables and the reply (status and text), and keeps the invariant.
- `Client` (`client.dfy`): `getPrice` and the fold loops behind the inventory and takings totals (methods proved against recursive sums).
  - Also the date filter, the sell guard, and the request sequences of `addBook`, `sellBook`, `addTransaction`, `editBook` and `deleteTransaction`, as methods that call the `Store`.
  - Each sequence that the source gets wrong exists twice: as written, and corrected (see Findings).
- `Csv` (`csv.dfy`): `convertToCSV`.
  - String values are quoted the way `JSON.stringify` quotes them (section 7 of RFC 8259), and numbers are written in decimal.
  - Each writer has a reader, and the round trips are proved: JSON string decoding, integer parsing, and splitting the export back into lines.

Three behaviours of the code are easy to miss; the model follows them:

- The CSV header line writes each key as a quoted JSON string, like every other string value, not as a bare name.
- `PUT /api/books/:id` answers 200 "Book quantity updated" even when no row has that id. It is not a not-found error.
- Nothing stops a sale from driving stock negative once the client's guard has passed. `Tables.UpsertHasNoLowerBound` states this.

## Model

| member | source | states |
|---|---|---|
| Tables.NextIdIsFresh | server.js:14-28 | a new row's id (largest id + 1, or 1 on an empty table) is larger than every id in the table, and positive when the ids are |
| Tables.UpsertExistingTitle | server.js:83-94 | posting for a title already present adds the delta to that title's quantity and leaves the row count, ids, titles and prices as they were (the request's price is ignored) |
| Tables.UpsertNewTitle | server.js:95-101 | posting for a new title appends exactly one row with the request's title, price and quantity, under an id larger than every existing one |
| Tables.UpsertHasNoLowerBound | server.js:88-94 | a negative delta larger than the stock is applied anyway: the stored quantity goes below zero |
| Tables.UpsertKeepsBooksValid | server.js:79-105 | adding to or inserting a book keeps ids increasing and titles distinct |
| Tables.SetQuantityByIdEffect | server.js:120-129 | setting a quantity by id changes exactly the rows with that id; an id that no row has leaves the table unchanged |
| Tables.SetQuantityByIdKeepsBooksValid | server.js:120-129 | setting a quantity keeps the books invariant |
| Tables.RecordTransactionAppends | server.js:107-118 | recording appends one row with the given fields and an id above every existing id; earlier rows are unchanged |
| Tables.RecordTransactionKeepsValid | server.js:107-118 | recording keeps transaction ids positive and increasing |
| Tables.RemoveAbsentId | server.js:131-139 | deleting an id that no row has leaves the table unchanged |
| Tables.RemovePresentId | server.js:131-139 | deleting row k's id removes exactly row k and keeps the other rows in order |
| Tables.RemoveByIdKeepsOthers | server.js:131-139 | a row survives a delete if and only if it was in the table and has a different id |
| Tables.RemoveByIdKeepsValid | server.js:131-139 | deleting keeps transaction ids positive and increasing |
| Server.Store.constructor | server.js:10-55 | after start-up, `books` is the seeded catalog in order and `transactions` is empty; the store invariant holds |
| Server.Store.GetData | server.js:58-77 | `GET /api/data` returns both tables in full, in scan order |
| Server.Store.PostBook | server.js:79-105 | `POST /api/books` updates or inserts as `Upsert` says, leaves transactions alone, keeps the invariant, and replies 200 with "Book quantity updated" or "Book added" according to whether the title existed |
| Server.Store.PostTransaction | server.js:107-118 | `POST /api/transactions` appends one ledger row, leaves books alone, and replies 200 "Transaction recorded" |
| Server.Store.PutBook | server.js:120-129 | `PUT /api/books/:id` sets the quantity of the row with that id and replies 200 "Book quantity updated" whether or not the id exists |
| Server.Store.DeleteTransaction | server.js:131-139 | `DELETE /api/transactions/:id` removes the row with that id and replies 200 "Transaction deleted" whether or not the id exists |
| Server.SeededBooks | server.js:30-54 | seeding yields 16 books in catalog order with ids 1 to 16, the listed titles and prices, and quantity 0 |
| Server.SeededIsValid | server.js:31-48 | the seeded table meets the store invariant; in particular the sixteen catalog titles are pairwise distinct |
| Server.SeedStep | server.js:50-53 | each run of the prepared insert extends the seeded prefix by the next catalog row, with id n + 1 |
| Client.GetPrice | public/script.js:116-136 | a listed title gets its listed price; an unlisted title gets 0; a price is never negative |
| Client.PriceListMatchesSeedCatalog | public/script.js:117-134 | the client's price list prices every seeded title at the price the server seeds it with |
| Client.UnlistedTitleIsFree | public/script.js:135 | a title outside the catalog is priced 0, so its transactions record a total of 0 |
| Client.TotalUsesSeededPrice | public/script.js:138-139 | a transaction on a catalog title records the seeded unit price times the quantity |
| Client.FindByTitle | public/script.js:95 | `find` returns nothing exactly when no row has the title; otherwise it returns a row of the snapshot with that title |
| Client.FindByTitleIsFirst | public/script.js:95 | `find` returns the first row with the title |
| Client.FindUniqueTitle | public/script.js:95 | on a table with distinct titles, looking up row k's title returns row k |
| Client.SellGuardKeepsStockNonNegative | public/script.js:95-99 | a sale that the guard lets through, on a valid table without negative stock, leaves no negative stock |
| Client.SellAllowedIffEnoughStock | public/script.js:95-96 | for a title the snapshot holds, the guard lets the sale through exactly when the quantity is at most the stock shown |
| Client.UpsertThenFind | public/script.js:74-80 | after posting a delta for a title, the title is present and its stock is the old stock plus the delta |
| Client.AddThenSell | public/script.js:70-114 | after adding q1 copies, selling q2 is allowed exactly when q2 is at most the old stock plus q1; the stock then becomes old + q1 - q2 |
| Client.LoadInventoryTotal | public/script.js:9-17 | the `forEach` total is the sum of price times quantity over all books |
| Client.LoadStatsTotal | public/script.js:37-46 | the `forEach` total is the sum of the transaction totals |
| Client.InventoryValueAppend | public/script.js:9-17 | the inventory total of two tables placed one after the other is the sum of their totals |
| Client.StatsTotalAppend | public/script.js:37-46 | the takings of two ledgers placed one after the other is the sum of their takings |
| Client.InventoryValueAfterUpdate | public/script.js:9-17 | posting a delta for an existing title changes the inventory total by that row's price times the delta |
| Client.InventoryValueAfterInsert | public/script.js:9-17 | posting a new title raises the inventory total by its price times its quantity |
| Client.ZeroStockValue | public/script.js:9-17 | a table with no stock has an inventory total of 0 (as on the freshly seeded store) |
| Client.StatsTotalAfterRecord | public/script.js:37-46 | recording a transaction raises the takings by its total |
| Client.StatsTotalAfterDelete | public/script.js:37-46 | deleting row k by its id lowers the takings by row k's total |
| Client.FilterStatsByDate | public/script.js:197-212 | an empty filter date yields nothing; otherwise a transaction is shown if and only if it is stored and its timestamp starts with the filter |
| Client.FilterKeepsExactlyMatching | public/script.js:210-212 | the filter keeps exactly the rows whose timestamp starts with the prefix |
| Client.FilterPreservesOrder | public/script.js:210-212 | filtering preserves order: filtering a concatenation concatenates the filtered parts |
| Client.FilteredRowIsStored | public/script.js:210-224 | every row of a filtered view is a stored transaction |
| Client.AddTransaction | public/script.js:138-153 | records the action, title and quantity with total price times quantity and the given timestamp; books are unchanged |
| Client.AddBook | public/script.js:70-86 | posts the quantity at the listed price, then records an "Added" transaction of that quantity (corrected chaining) |
| Client.SellBook | public/script.js:88-114 | the sale goes ahead exactly when the snapshot shows the title with enough stock; it then posts the negated quantity and records a "Sold" transaction, and otherwise changes nothing (corrected chaining; as written no "Sold" row is recorded, see `Client.SellBookAsWritten`) |
| Client.EditBook | public/script.js:155-179 | with the right password, display row `index` and only that row gets the new quantity (corrected: the row's id is sent) |
| Client.EditRowById | public/script.js:168 | setting the quantity by row k's id edits row k and no other |
| Client.DeleteTransaction | public/script.js:181-195 | with the right password, exactly the displayed transaction is removed and the others keep their order (corrected: the row's id is sent) |
| Client.HandlerRepliesAreNotJson | public/script.js:81 | none of the four reply texts of the mutating handlers can start a JSON text, so `response.json()` rejects each of them |
| Client.CapitalIsNotJson | public/script.js:81 | a body that begins with a capital letter is not JSON |
| Client.AddBookAsWritten | public/script.js:74-85 | as written, `addBook` posts the book, but the "Added" transaction never happens: transactions stay unchanged |
| Client.SellBookAsWritten | public/script.js:101-112 | as written, `sellBook` applies the guard and the negative post, but records no "Sold" transaction |
| Client.EditBookAsWritten | public/script.js:155-179 | as written, `editBook` sets the quantity of the book whose id equals the display index |
| Client.DeleteTransactionAsWritten | public/script.js:181-195 | as written, `deleteTransaction` deletes the transaction whose id equals the display index |
| Client.EditByIndexHitsWrongRow | public/script.js:168 | on the seeded table, editing display row 0 changes nothing, and editing display row 1 changes "Beginner" but not "Elementary" |
| Client.DeleteByIndexHitsWrongRow | public/script.js:188 | with ids 1 and 2, deleting display row 0 removes nothing and deleting display row 1 removes the first row; in a view filtered to the second row, deleting it removes nothing |
| Client.AddThenSellOnSeededStore | public/script.js:70-114 | with the corrected chaining (`AddBook`, `SellBook`), on the seeded store adding 5 "Beginner" and selling 3 leaves stock 2, an inventory total of 170000 and takings of 680000 |
| Client.AddThenSellAsWrittenOnSeededStore | public/script.js:70-114 | the same session as the source writes it (`AddBookAsWritten`, `SellBookAsWritten`): stock 2 and an inventory total of 170000, but the ledger stays empty and the takings are 0 |
| Csv.JsonQuoteRoundTrip | public/script.js:253 | decoding a JSON-quoted string gives the original string back |
| Csv.UnescapeEscapeChar | public/script.js:253 | each character's escape decodes back to that character, whatever follows |
| Csv.ShortEscapeRoundTrip | public/script.js:253 | quote, backslash, backspace, form feed, line feed, carriage return and tab are written as two-character escapes and decode back |
| Csv.ControlEscapeRoundTrip | public/script.js:253 | any other control character is written `\u00xx` in lower-case hex and decodes back |
| Csv.JsonQuoteHasNoLineFeed | public/script.js:253 | a quoted string contains no raw line feed |
| Csv.PlainQuote | public/script.js:253 | a string without quote, backslash or control characters is quoted as it stands, between double quotes |
| Csv.IntToStringRoundTrip | public/script.js:252-254 | reading a printed integer back gives the same integer, negative or not |
| Csv.NatToStringDigits | public/script.js:252-254 | a non-negative integer prints as a non-empty string of decimal digits that reads back as that integer |
| Csv.FieldRoundTrip | public/script.js:252-254 | every field reads back as the value it was written from: a quoted string as text, a bare number as a number |
| Csv.FieldHasNoLineFeed | public/script.js:252-254 | no field contains a line feed |
| Csv.SplitJoin | public/script.js:254-255 | joining parts that contain no separator and splitting the result at the separator gives the parts back |
| Csv.ConvertToCSV | public/script.js:248-256 | the export is absent (the source throws) exactly when there are no records |
| Csv.ExportLines | public/script.js:248-256 | the export of N records splits into N + 1 lines: the first record's keys, quoted, then record i's values on line i + 1 |
| Csv.HeaderQuotesKeys | public/script.js:249-254 | the header line writes each key as a JSON string, in key order, joined by commas |
| Csv.ExportInventory | public/script.js:230-237 | exporting the inventory fails exactly when the books table is empty |
| Csv.ExportLedger | public/script.js:239-246 | exporting the ledger fails exactly when the transactions table is empty |
| Csv.InventoryHeader | public/script.js:234 | the inventory export's header names the `books` columns in table order: id, title, price, quantity |
| Csv.LedgerHeader | public/script.js:243 | the ledger export's header names the `transactions` columns in table order: id, action, book, quantity, total, timestamp |
| Tables.InsertBook | server.js:96 | definition of the insert statement (also the seeding insert, server.js:50); properties in `Tables.UpsertNewTitle`, `Tables.NextIdIsFresh` |
| Tables.AddToTitle | server.js:89 | definition of the update-by-title statement; properties in `Tables.UpsertExistingTitle` |
| Tables.Upsert | server.js:83-102 | definition of the lookup-then-update-or-insert of `POST /api/books`; properties in `Tables.UpsertExistingTitle`, `Tables.UpsertNewTitle`, `Tables.UpsertKeepsBooksValid` |
| Tables.SetQuantityById | server.js:123 | definition of the update-by-id statement; properties in `Tables.SetQuantityByIdEffect` |
| Tables.RecordTransaction | server.js:109 | definition of the transaction insert; properties in `Tables.RecordTransactionAppends`, `Tables.RecordTransactionKeepsValid` |
| Tables.RemoveById | server.js:133 | definition of the delete-by-id statement; properties in `Tables.RemovePresentId`, `Tables.RemoveAbsentId`, `Tables.RemoveByIdKeepsOthers` |
| Client.SellAllowed | public/script.js:95-96 | definition of the sell guard; properties in `Client.AddThenSell`, `Client.SellGuardKeepsStockNonNegative` |
| Client.InventoryValue | public/script.js:17 | definition of the inventory total; properties in `Client.LoadInventoryTotal`, `Client.InventoryValueAfterUpdate`, `Client.InventoryValueAfterInsert` |
| Client.StatsTotal | public/script.js:46 | definition of the takings total; properties in `Client.LoadStatsTotal`, `Client.StatsTotalAfterRecord`, `Client.StatsTotalAfterDelete` |
| Client.FilterByPrefix | public/script.js:210-212 | definition of the `startsWith` filter; properties in `Client.FilterKeepsExactlyMatching`, `Client.FilterPreservesOrder` |
| Csv.JsonQuote | public/script.js:253 | definition of `JSON.stringify` on a string; properties in `Csv.JsonQuoteRoundTrip`, `Csv.JsonQuoteHasNoLineFeed` |
| Csv.Field | public/script.js:253 | definition of how one value is written; properties in `Csv.FieldRoundTrip`, `Csv.FieldHasNoLineFeed` |
| Csv.Line | public/script.js:252-254 | definition of one line (`Array.toString`, comma-joined); properties in `Csv.ExportLines`, `Csv.SplitJoin` |

## Left out

- Express, body parsing, static file serving and `listen` are not modelled. A request is a method call with typed arguments, and a reply is a status with a text.
- The SQLite error branches (`console.error` and no reply) are not modelled. The in-memory database is taken never to fail.
- `SELECT *` is taken to return rows in insertion (rowid) order.
- A route parameter arrives as a string, which SQLite converts to an integer for the comparison. The model passes the integer directly.
- Concurrency is not modelled: the read-then-write race between two sales, and a table changing between the client's snapshot and its request. Each handler is one atomic step, and each button's requests run one after another.
- Client.SellBook: the guard reads a snapshot equal to the store at that moment. The race that lets two sales pass the same guard is therefore not modelled.
- Client.EditBook: requires the display index to be a row of the current table, which holds when the table has not changed since it was shown.
- Client.DeleteTransaction: requires the displayed row still to be stored, for the same reason.
- The DOM, `fetch`, `alert`, `prompt`, `loadInventory`/`loadTodaysStats` re-rendering and `downloadCSV` are left out. The client's clock (`new Date().toLocaleString()`) is the `timestamp` parameter.
- Client.EditBook: the password prompt is the boolean `passwordOk`, and the `parseInt`/`isNaN` check on the typed quantity is left out. Quantities are integers.
- Client.AddBook: `parseInt` on the form fields is left out, so a non-numeric quantity (sent as `null`) is not modelled.
- `toLocaleString` formatting of prices and totals is left out. It only affects display.
- Client.GetPrice: JavaScript object keys inherited from the prototype (such as "toString") are not modelled. The lookup sees only the sixteen listed titles.
- Numbers are unbounded integers. JavaScript's double precision above 2^53 is not modelled, nor its exponent notation for integers of 1e21 and above in `convertToCSV`.
- Csv.JsonQuoteRoundTrip: Dafny characters are Unicode scalar values. So `JSON.stringify`'s escaping of lone surrogates does not arise, and the decoder refuses `\u` escapes that name surrogates rather than pairing them.
- Csv.ConvertToCSV: values other than strings and integers (`null`, `undefined`) are not modelled. Every column of both tables holds a string or an integer.

## Findings

| source | as written | input that shows it | evidently intended | confidence | as-written member | corrected member |
|---|---|---|---|---|---|---|
| public/script.js:155-179 | `editBook` sends the display row index as the book id | seeded store: row 0 ("Beginner") edits no row, because no id is 0; row 1 ("Elementary") edits "Beginner" (id 1) | send the row's own id, so the row shown is the row edited | high; not executed | Client.EditBookAsWritten, Client.EditByIndexHitsWrongRow | Client.EditBook, Client.EditRowById |
| public/script.js:181-195 | `deleteTransaction` sends the display index, in the full or the filtered list, as the transaction id | ledger with ids 1 and 2: deleting row 0 removes nothing and deleting row 1 removes the first transaction; in a view filtered to the second, deleting its row 0 removes nothing | send the row's own id, so exactly the transaction shown is deleted | high; not executed | Client.DeleteTransactionAsWritten, Client.DeleteByIndexHitsWrongRow | Client.DeleteTransaction |
| public/script.js:70-114 | `addBook` and `sellBook` chain `addTransaction` after `response.json()`, but the handlers reply with plain text ("Book added", "Book quantity updated"), which `response.json()` rejects | any add or sale: the book is posted, but no "Added" or "Sold" transaction is ever recorded | record the transaction once the book post succeeds | high; not executed | Client.AddBookAsWritten, Client.SellBookAsWritten, Client.HandlerRepliesAreNotJson, Client.AddThenSellAsWrittenOnSeededStore | Client.AddBook, Client.SellBook |

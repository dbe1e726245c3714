/**
 * The business rules of the browser client: the price list, the running
 * totals shown under the two tables, the date filter on the ledger, the sell
 * guard, and the sequences of requests behind the add, sell, edit and delete
 * buttons, each request being a call on the server's `Store`.
 *
 * The client's clock is a parameter (`timestamp`), the password prompt is a
 * boolean (`passwordOk`), and the number typed into a form is an `int`.
 */
module Client {
  import opened Options
  import opened Tables
  import opened Server

  // ---------------------------------------------------------------------------
  // Prices

  /** The client's own price list, a title-keyed object literal. */
  const PriceTable: map<string, int> := map[
    "Beginner" := 85000,
    "Elementary" := 85000,
    "Pre-Intermediate" := 85000,
    "Intermediate" := 85000,
    "Kids Level 1" := 60000,
    "Kids Level 2" := 60000,
    "Kids Level 3" := 60000,
    "Kids Level 4" := 60000,
    "Kids Level 5" := 60000,
    "Kids Level 6" := 60000,
    "Kids High Level 1" := 60000,
    "Kids High Level 2" := 60000,
    "Listening Beginner" := 30000,
    "Listening Elementary" := 30000,
    "Listening Pre-Intermediate" := 30000,
    "Listening Intermediate" := 35000
  ]

  /** `prices[title] || 0`: the listed price, or 0 when the title is unlisted (or listed at 0). */
  function GetPrice(title: string): (price: int)
    ensures title in PriceTable ==> price == PriceTable[title]
    ensures title !in PriceTable ==> price == 0
    ensures 0 <= price
  {
    if title in PriceTable && PriceTable[title] != 0 then PriceTable[title] else 0
  }

  /** The total recorded with a transaction: unit price times quantity. */
  function TransactionTotal(title: string, quantity: int): int {
    GetPrice(title) * quantity
  }

  /** The client prices every seeded title at the price the server seeds it with. */
  lemma PriceListMatchesSeedCatalog()
    ensures forall i :: 0 <= i < |SeedCatalog| ==> GetPrice(SeedCatalog[i].0) == SeedCatalog[i].1
  {
  }

  /** A title outside the catalog is priced at 0, so its transactions carry a total of 0. */
  lemma UnlistedTitleIsFree(title: string, quantity: int)
    requires forall i :: 0 <= i < |SeedCatalog| ==> SeedCatalog[i].0 != title
    ensures GetPrice(title) == 0 && TransactionTotal(title, quantity) == 0
  {
    var c := SeedCatalog;
    assert c[0].0 != title && c[1].0 != title && c[2].0 != title && c[3].0 != title;
    assert c[4].0 != title && c[5].0 != title && c[6].0 != title && c[7].0 != title;
    assert c[8].0 != title && c[9].0 != title && c[10].0 != title && c[11].0 != title;
    assert c[12].0 != title && c[13].0 != title && c[14].0 != title && c[15].0 != title;
  }

  /** A transaction on catalog entry i records the seeded unit price times the quantity. */
  lemma TotalUsesSeededPrice(i: int, quantity: int)
    requires 0 <= i < |SeedCatalog|
    ensures TransactionTotal(SeedCatalog[i].0, quantity) == SeedCatalog[i].1 * quantity
  {
    PriceListMatchesSeedCatalog();
  }

  // ---------------------------------------------------------------------------
  // Looking a title up in a snapshot

  /** `books.find(book => book.title === title)`: the first row with that title. */
  function FindByTitle(bs: seq<Book>, title: string): (r: Option<Book>)
    ensures r.None? <==> !HasTitle(bs, title)
    ensures r.Some? ==> r.value in bs && r.value.title == title
  {
    if bs == [] then None
    else if bs[0].title == title then Some(bs[0])
    else
      assert forall i :: 1 <= i < |bs| ==> bs[i] == bs[1..][i - 1];
      FindByTitle(bs[1..], title)
  }

  /** The row `find` returns is the first one with the title. */
  lemma {:induction false} FindByTitleIsFirst(bs: seq<Book>, title: string, k: int)
    requires 0 <= k < |bs| && bs[k].title == title
    requires forall j :: 0 <= j < k ==> bs[j].title != title
    ensures FindByTitle(bs, title) == Some(bs[k])
  {
    if k > 0 {
      FindByTitleIsFirst(bs[1..], title, k - 1);
    }
  }

  /** With unique titles, looking a row's title up finds that row. */
  lemma FindUniqueTitle(bs: seq<Book>, k: int)
    requires TitlesUnique(bs) && 0 <= k < |bs|
    ensures FindByTitle(bs, bs[k].title) == Some(bs[k])
  {
    FindByTitleIsFirst(bs, bs[k].title, k);
  }

  /** The sell guard: a sale goes ahead only if the title is found with at least that much stock. */
  predicate SellAllowed(bs: seq<Book>, title: string, quantity: int) {
    match FindByTitle(bs, title)
    case None => false
    case Some(b) => !(b.quantity < quantity)
  }

  /**
   * On a consistent table with no negative stock, a sale the guard lets
   * through leaves no negative stock.
   */
  lemma SellGuardKeepsStockNonNegative(bs: seq<Book>, title: string, price: int, quantity: int)
    requires BooksValid(bs) && forall i :: 0 <= i < |bs| ==> 0 <= bs[i].quantity
    requires SellAllowed(bs, title, quantity)
    ensures var r := Upsert(bs, title, price, -quantity); forall i :: 0 <= i < |r| ==> 0 <= r[i].quantity
  {
    var k :| 0 <= k < |bs| && bs[k] == FindByTitle(bs, title).value;
    UpsertExistingTitle(bs, title, price, -quantity);
  }

  /** The stock a snapshot shows for a title: the first matching row's quantity, or none. */
  function StockOf(bs: seq<Book>, title: string): int {
    match FindByTitle(bs, title)
    case None => 0
    case Some(b) => b.quantity
  }

  /** After posting a delta for a title, the title is found with its old stock plus the delta. */
  lemma UpsertThenFind(bs: seq<Book>, title: string, price: int, delta: int)
    requires BooksValid(bs)
    ensures var r := Upsert(bs, title, price, delta);
      BooksValid(r) && HasTitle(r, title) && StockOf(r, title) == StockOf(bs, title) + delta
  {
    var r := Upsert(bs, title, price, delta);
    UpsertKeepsBooksValid(bs, title, price, delta);
    if HasTitle(bs, title) {
      var k :| 0 <= k < |bs| && bs[k] == FindByTitle(bs, title).value;
      UpsertExistingTitle(bs, title, price, delta);
      FindUniqueTitle(r, k);
    } else {
      UpsertNewTitle(bs, title, price, delta);
      FindUniqueTitle(r, |bs|);
    }
  }

  /**
   * Adding q1 copies of a title and then selling q2 of it leaves the
   * difference on top of the earlier stock (none for a new title); the guard
   * lets the sale through exactly when that difference is not negative.
   */
  lemma AddThenSell(bs: seq<Book>, title: string, q1: int, q2: int)
    requires BooksValid(bs)
    ensures var added := Upsert(bs, title, GetPrice(title), q1);
      var sold := Upsert(added, title, GetPrice(title), -q2);
      (SellAllowed(added, title, q2) <==> q2 <= StockOf(bs, title) + q1) &&
      HasTitle(sold, title) && StockOf(sold, title) == StockOf(bs, title) + q1 - q2
  {
    AddThenSellAtPrice(bs, title, GetPrice(title), q1, q2);
  }

  lemma AddThenSellAtPrice(bs: seq<Book>, title: string, price: int, q1: int, q2: int)
    requires BooksValid(bs)
    ensures var added := Upsert(bs, title, price, q1);
      var sold := Upsert(added, title, price, -q2);
      (SellAllowed(added, title, q2) <==> q2 <= StockOf(bs, title) + q1) &&
      HasTitle(sold, title) && StockOf(sold, title) == StockOf(bs, title) + q1 - q2
  {
    var added := Upsert(bs, title, price, q1);
    UpsertThenFind(bs, title, price, q1);
    assert BooksValid(added) && HasTitle(added, title);
    assert StockOf(added, title) == StockOf(bs, title) + q1;
    SellAllowedIffEnoughStock(added, title, q2);
    var sold := Upsert(added, title, price, -q2);
    UpsertThenFind(added, title, price, -q2);
    assert StockOf(sold, title) == StockOf(added, title) - q2;
  }

  /** For a title the snapshot holds, the guard passes exactly when its stock covers the sale. */
  lemma SellAllowedIffEnoughStock(bs: seq<Book>, title: string, quantity: int)
    requires HasTitle(bs, title)
    ensures SellAllowed(bs, title, quantity) <==> quantity <= StockOf(bs, title)
  {
    assert FindByTitle(bs, title).Some?;
  }

  // ---------------------------------------------------------------------------
  // Running totals

  /** The inventory value: the sum of price times quantity over the rows. */
  function InventoryValue(bs: seq<Book>): int {
    if bs == [] then 0
    else InventoryValue(bs[..|bs| - 1]) + bs[|bs| - 1].price * bs[|bs| - 1].quantity
  }

  /** The day's takings: the sum of the recorded totals. */
  function StatsTotal(ts: seq<Transaction>): int {
    if ts == [] then 0 else StatsTotal(ts[..|ts| - 1]) + ts[|ts| - 1].total
  }

  /** The `forEach` in `loadInventory` that adds up `totalInventory`. */
  method LoadInventoryTotal(bs: seq<Book>) returns (total: int)
    ensures total == InventoryValue(bs)
  {
    total := 0;
    for i := 0 to |bs|
      invariant total == InventoryValue(bs[..i])
    {
      assert bs[..i + 1][..i] == bs[..i];
      total := total + bs[i].price * bs[i].quantity;
    }
    assert bs[..|bs|] == bs;
  }

  /** The `forEach` in `loadTodaysStats` that adds up `totalStats`. */
  method LoadStatsTotal(ts: seq<Transaction>) returns (total: int)
    ensures total == StatsTotal(ts)
  {
    total := 0;
    for i := 0 to |ts|
      invariant total == StatsTotal(ts[..i])
    {
      assert ts[..i + 1][..i] == ts[..i];
      total := total + ts[i].total;
    }
    assert ts[..|ts|] == ts;
  }

  lemma {:induction false} InventoryValueAppend(a: seq<Book>, b: seq<Book>)
    ensures InventoryValue(a + b) == InventoryValue(a) + InventoryValue(b)
  {
    if b != [] {
      var b' := b[..|b| - 1];
      assert (a + b)[..|a + b| - 1] == a + b';
      InventoryValueAppend(a, b');
    } else {
      assert a + b == a;
    }
  }

  lemma {:induction false} StatsTotalAppend(a: seq<Transaction>, b: seq<Transaction>)
    ensures StatsTotal(a + b) == StatsTotal(a) + StatsTotal(b)
  {
    if b != [] {
      var b' := b[..|b| - 1];
      assert (a + b)[..|a + b| - 1] == a + b';
      StatsTotalAppend(a, b');
    } else {
      assert a + b == a;
    }
  }

  /** Adding d to the quantity of every row titled t raises the value by d times each such row's price. */
  lemma {:induction false} AddToTitleValue(bs: seq<Book>, t: string, d: int)
    ensures InventoryValue(AddToTitle(bs, t, d)) == InventoryValue(bs) + d * TitlePrice(bs, t)
  {
    if bs != [] {
      var init := bs[..|bs| - 1];
      var last := bs[|bs| - 1];
      var r := AddToTitle(bs, t, d);
      assert r[..|bs| - 1] == AddToTitle(init, t, d);
      AddToTitleValue(init, t, d);
      var lastPrice := if last.title == t then last.price else 0;
      assert TitlePrice(bs, t) == TitlePrice(init, t) + lastPrice;
      assert InventoryValue(r) == InventoryValue(AddToTitle(init, t, d)) + r[|bs| - 1].price * r[|bs| - 1].quantity;
      RowValueAfterAdd(last, t, d);
      Distribute(d, TitlePrice(init, t), lastPrice);
    }
  }

  /** One row's price times quantity after adding d to it when it carries title t. */
  lemma RowValueAfterAdd(b: Book, t: string, d: int)
    ensures var b' := if b.title == t then b.(quantity := b.quantity + d) else b;
      b'.price * b'.quantity == b.price * b.quantity + d * (if b.title == t then b.price else 0)
  {
  }

  lemma Distribute(d: int, x: int, y: int)
    ensures d * (x + y) == d * x + d * y
  {
  }

  /** The sum of the prices of the rows titled t. */
  function TitlePrice(bs: seq<Book>, t: string): int {
    if bs == [] then 0
    else TitlePrice(bs[..|bs| - 1], t) + (if bs[|bs| - 1].title == t then bs[|bs| - 1].price else 0)
  }

  lemma {:induction false} TitlePriceOfUniqueRow(bs: seq<Book>, k: int)
    requires TitlesUnique(bs) && 0 <= k < |bs|
    ensures TitlePrice(bs, bs[k].title) == bs[k].price
  {
    var t := bs[k].title;
    var init := bs[..|bs| - 1];
    if k == |bs| - 1 {
      TitlePriceAbsent(init, t);
    } else {
      TitlePriceOfUniqueRow(init, k);
    }
  }

  lemma {:induction false} TitlePriceAbsent(bs: seq<Book>, t: string)
    requires forall i :: 0 <= i < |bs| ==> bs[i].title != t
    ensures TitlePrice(bs, t) == 0
  {
    if bs != [] {
      TitlePriceAbsent(bs[..|bs| - 1], t);
    }
  }

  /** Posting a delta for a title already present changes the inventory value by its row's price times the delta. */
  lemma InventoryValueAfterUpdate(bs: seq<Book>, k: int, price: int, delta: int)
    requires TitlesUnique(bs) && 0 <= k < |bs|
    ensures InventoryValue(Upsert(bs, bs[k].title, price, delta)) == InventoryValue(bs) + bs[k].price * delta
  {
    assert HasTitle(bs, bs[k].title);
    AddToTitleValue(bs, bs[k].title, delta);
    TitlePriceOfUniqueRow(bs, k);
  }

  /** Posting a new title raises the inventory value by the request's price times its quantity. */
  lemma InventoryValueAfterInsert(bs: seq<Book>, title: string, price: int, delta: int)
    requires !HasTitle(bs, title)
    ensures InventoryValue(Upsert(bs, title, price, delta)) == InventoryValue(bs) + price * delta
  {
    var r := Upsert(bs, title, price, delta);
    assert r[..|r| - 1] == bs;
  }

  /** Recording a transaction raises the day's takings by its total. */
  lemma StatsTotalAfterRecord(ts: seq<Transaction>, action: string, book: string, quantity: int,
                              total: int, timestamp: string)
    ensures StatsTotal(RecordTransaction(ts, action, book, quantity, total, timestamp)) == StatsTotal(ts) + total
  {
    var r := RecordTransaction(ts, action, book, quantity, total, timestamp);
    assert r[..|r| - 1] == ts;
  }

  /** Deleting row k by its id lowers the day's takings by that row's total. */
  lemma StatsTotalAfterDelete(ts: seq<Transaction>, k: int)
    requires TransactionsValid(ts) && 0 <= k < |ts|
    ensures StatsTotal(RemoveById(ts, ts[k].id)) == StatsTotal(ts) - ts[k].total
  {
    RemovePresentId(ts, k);
    StatsTotalDropRow(ts, k);
  }

  lemma StatsTotalDropRow(ts: seq<Transaction>, k: int)
    requires 0 <= k < |ts|
    ensures StatsTotal(ts[..k] + ts[k + 1..]) == StatsTotal(ts) - ts[k].total
  {
    var upto := ts[..k + 1];
    assert ts == upto + ts[k + 1..];
    StatsTotalAppend(upto, ts[k + 1..]);
    assert upto[..k] == ts[..k];
    assert StatsTotal(upto) == StatsTotal(ts[..k]) + ts[k].total;
    StatsTotalAppend(ts[..k], ts[k + 1..]);
  }

  // ---------------------------------------------------------------------------
  // The date filter

  /** `transactions.filter(t => t.timestamp.startsWith(prefix))` */
  function FilterByPrefix(ts: seq<Transaction>, prefix: string): seq<Transaction> {
    if ts == [] then []
    else (if prefix <= ts[0].timestamp then [ts[0]] else []) + FilterByPrefix(ts[1..], prefix)
  }

  /** `filterStatsByDate`: an empty filter string issues no fetch; otherwise the matching rows. */
  function FilterStatsByDate(ts: seq<Transaction>, filterDate: string): (r: Option<seq<Transaction>>)
    ensures r.None? <==> filterDate == ""
    ensures r.Some? ==> forall t :: t in r.value <==> t in ts && filterDate <= t.timestamp
  {
    if filterDate == "" then None
    else
      FilterKeepsExactlyMatching(ts, filterDate);
      Some(FilterByPrefix(ts, filterDate))
  }

  /** The filter keeps exactly the rows whose timestamp starts with the prefix. */
  lemma {:induction false} FilterKeepsExactlyMatching(ts: seq<Transaction>, prefix: string)
    ensures forall t :: t in FilterByPrefix(ts, prefix) <==> t in ts && prefix <= t.timestamp
  {
    if ts != [] {
      FilterKeepsExactlyMatching(ts[1..], prefix);
      assert ts == [ts[0]] + ts[1..];
    }
  }

  /**
   * The filter keeps the rows in their original order: filtering a
   * concatenation filters each part and concatenates the results.
   */
  lemma {:induction false} FilterPreservesOrder(a: seq<Transaction>, b: seq<Transaction>, prefix: string)
    ensures FilterByPrefix(a + b, prefix) == FilterByPrefix(a, prefix) + FilterByPrefix(b, prefix)
  {
    if a == [] {
      assert a + b == b;
    } else {
      assert (a + b)[1..] == a[1..] + b;
      FilterPreservesOrder(a[1..], b, prefix);
    }
  }

  // ---------------------------------------------------------------------------
  // The request sequences behind the buttons

  /** `addTransaction`: records the action with its total and the client's timestamp. */
  method AddTransaction(store: Store, action: string, title: string, quantity: int, timestamp: string)
    requires store.Valid()
    modifies store
    ensures store.Valid()
    ensures store.books == old(store.books)
    ensures store.transactions ==
      RecordTransaction(old(store.transactions), action, title, quantity, TransactionTotal(title, quantity), timestamp)
  {
    var _ := store.PostTransaction(action, title, quantity, TransactionTotal(title, quantity), timestamp);
  }

  /** `addBook`: posts the quantity at the listed price, then records an "Added" transaction. */
  method AddBook(store: Store, title: string, quantity: int, timestamp: string)
    requires store.Valid()
    modifies store
    ensures store.Valid()
    ensures store.books == Upsert(old(store.books), title, GetPrice(title), quantity)
    ensures store.transactions ==
      RecordTransaction(old(store.transactions), "Added", title, quantity, TransactionTotal(title, quantity), timestamp)
  {
    var _ := store.PostBook(title, GetPrice(title), quantity);
    AddTransaction(store, "Added", title, quantity, timestamp);
  }

  /**
   * `sellBook`: reads a snapshot, refuses ("Out of stock") when the title is
   * missing or short, and otherwise posts the negated quantity and records a
   * "Sold" transaction.
   */
  method SellBook(store: Store, title: string, quantity: int, timestamp: string) returns (sold: bool)
    requires store.Valid()
    modifies store
    ensures store.Valid()
    ensures sold == SellAllowed(old(store.books), title, quantity)
    ensures sold ==> store.books == Upsert(old(store.books), title, GetPrice(title), -quantity)
    ensures !sold ==> store.books == old(store.books)
    ensures sold ==> store.transactions == RecordTransaction(old(store.transactions), "Sold", title, quantity,
                                                             TransactionTotal(title, quantity), timestamp)
    ensures !sold ==> store.transactions == old(store.transactions)
  {
    var price := GetPrice(title);
    var books, _ := store.GetData();
    var book := FindByTitle(books, title);
    sold := !(book.None? || book.value.quantity < quantity);
    assert sold == SellAllowed(books, title, quantity);
    if !sold {
      return;
    }
    var _ := store.PostBook(title, price, -quantity);
    AddTransaction(store, "Sold", title, quantity, timestamp);
  }

  /**
   * `editBook` on display row `index`, sending that row's id: with the right
   * password the quantity of exactly that row becomes the new quantity.
   */
  method EditBook(store: Store, index: int, newQuantity: int, passwordOk: bool)
    requires store.Valid() && 0 <= index < |store.books|
    modifies store
    ensures store.Valid()
    ensures store.books ==
      if passwordOk then old(store.books)[index := old(store.books)[index].(quantity := newQuantity)]
      else old(store.books)
    ensures store.transactions == old(store.transactions)
  {
    if !passwordOk {
      return;
    }
    EditRowById(store.books, index, newQuantity);
    var _ := store.PutBook(store.books[index].id, newQuantity);
  }

  /**
   * `deleteTransaction` on display row `index` of the shown list `view` (all
   * transactions, or a filtered list), sending that row's id: with the right
   * password exactly that transaction is removed, the others keep their order.
   */
  method DeleteTransaction(store: Store, view: seq<Transaction>, index: int, passwordOk: bool)
    requires store.Valid() && 0 <= index < |view| && view[index] in store.transactions
    modifies store
    ensures store.Valid()
    ensures store.books == old(store.books)
    ensures passwordOk ==>
      exists k :: 0 <= k < |old(store.transactions)| && old(store.transactions)[k] == view[index] &&
        store.transactions == old(store.transactions)[..k] + old(store.transactions)[k + 1..]
    ensures !passwordOk ==> store.transactions == old(store.transactions)
  {
    if !passwordOk {
      return;
    }
    var k :| 0 <= k < |store.transactions| && store.transactions[k] == view[index];
    RemovePresentId(store.transactions, k);
    var _ := store.DeleteTransaction(view[index].id);
  }

  /** Setting the quantity by the id of row k edits row k and no other. */
  lemma EditRowById(bs: seq<Book>, k: int, quantity: int)
    requires BooksValid(bs) && 0 <= k < |bs|
    ensures SetQuantityById(bs, bs[k].id, quantity) == bs[k := bs[k].(quantity := quantity)]
  {
    assert forall i :: 0 <= i < |bs| ==> BookIds(bs)[i] == bs[i].id;
  }

  /** A row of a filtered view is a row of the table, so it can be deleted through the view. */
  lemma FilteredRowIsStored(ts: seq<Transaction>, prefix: string, index: int)
    requires 0 <= index < |FilterByPrefix(ts, prefix)|
    ensures FilterByPrefix(ts, prefix)[index] in ts
  {
    FilterKeepsExactlyMatching(ts, prefix);
  }

  // ---------------------------------------------------------------------------
  // The request sequences as the source writes them

  /**
   * Whether `response.json()` can accept a body: after leading white space a
   * JSON text starts with one of `{ [ " -`, a digit, or the `t`, `f`, `n` of
   * a literal. A body failing this test is rejected; each handler's reply
   * fails it, so for this server the test is exact.
   */
  predicate CanStartJson(body: string) {
    if body == [] then false
    else if body[0] in " \t\n\r" then CanStartJson(body[1..])
    else body[0] in "{[\"-0123456789tfn"
  }

  /** Every text the handlers send is rejected by `response.json()`. */
  lemma HandlerRepliesAreNotJson()
    ensures !CanStartJson("Book added") && !CanStartJson("Book quantity updated")
    ensures !CanStartJson("Transaction recorded") && !CanStartJson("Transaction deleted")
  {
    CapitalIsNotJson("Book added");
    CapitalIsNotJson("Book quantity updated");
    CapitalIsNotJson("Transaction recorded");
    CapitalIsNotJson("Transaction deleted");
  }

  /** A body that starts with a capital letter is not JSON. */
  lemma CapitalIsNotJson(body: string)
    requires body != [] && 'A' <= body[0] <= 'Z'
    ensures !CanStartJson(body)
  {
  }

  /**
   * `addBook` as written: the "Added" transaction is chained after
   * `response.json()` on the plain-text reply, which rejects, so only the
   * book is posted.
   */
  method AddBookAsWritten(store: Store, title: string, quantity: int, timestamp: string)
    requires store.Valid()
    modifies store
    ensures store.Valid()
    ensures store.books == Upsert(old(store.books), title, GetPrice(title), quantity)
    ensures store.transactions == old(store.transactions)
  {
    var reply := store.PostBook(title, GetPrice(title), quantity);
    assert reply.body[0] == 'B';
    CapitalIsNotJson(reply.body);
    if CanStartJson(reply.body) {
      // Only here would the chained addTransaction("Added", ...) run.
      assert false;
    }
  }

  /**
   * `sellBook` as written: the guard and the negative post happen, but the
   * "Sold" transaction is chained after `response.json()` and never recorded.
   */
  method SellBookAsWritten(store: Store, title: string, quantity: int, timestamp: string) returns (sold: bool)
    requires store.Valid()
    modifies store
    ensures store.Valid()
    ensures sold == SellAllowed(old(store.books), title, quantity)
    ensures sold ==> store.books == Upsert(old(store.books), title, GetPrice(title), -quantity)
    ensures !sold ==> store.books == old(store.books)
    ensures store.transactions == old(store.transactions)
  {
    var price := GetPrice(title);
    var books, _ := store.GetData();
    var book := FindByTitle(books, title);
    sold := !(book.None? || book.value.quantity < quantity);
    assert sold == SellAllowed(books, title, quantity);
    if !sold {
      return;
    }
    var reply := store.PostBook(title, price, -quantity);
    assert reply.body[0] == 'B';
    CapitalIsNotJson(reply.body);
    if CanStartJson(reply.body) {
      // Only here would the chained addTransaction("Sold", ...) run.
      assert false;
    }
  }

  /** `editBook` as written: the display index itself is sent as the book id. */
  method EditBookAsWritten(store: Store, index: int, newQuantity: int, passwordOk: bool)
    requires store.Valid()
    modifies store
    ensures store.Valid()
    ensures store.books == if passwordOk then SetQuantityById(old(store.books), index, newQuantity) else old(store.books)
    ensures store.transactions == old(store.transactions)
  {
    if passwordOk {
      var _ := store.PutBook(index, newQuantity);
    }
  }

  /** `deleteTransaction` as written: the display index (in the shown, maybe filtered, list) is sent as the id. */
  method DeleteTransactionAsWritten(store: Store, index: int, passwordOk: bool)
    requires store.Valid()
    modifies store
    ensures store.Valid()
    ensures store.books == old(store.books)
    ensures store.transactions == if passwordOk then RemoveById(old(store.transactions), index) else old(store.transactions)
  {
    if passwordOk {
      var _ := store.DeleteTransaction(index);
    }
  }

  /**
   * On the seeded table, editing display row 0 ("Beginner") changes nothing,
   * and editing display row 1 ("Elementary") changes "Beginner" instead.
   */
  lemma EditByIndexHitsWrongRow()
    ensures SetQuantityById(Seeded(), 0, 7) == Seeded()
    ensures SetQuantityById(Seeded(), 1, 7)[0].quantity == 7
    ensures SetQuantityById(Seeded(), 1, 7)[1] == Seeded()[1]
  {
    SeededBooks();
    SetQuantityByIdEffect(Seeded(), 0, 7);
  }

  /**
   * With two transactions (ids 1 and 2), deleting display row 0 removes
   * nothing and deleting display row 1 removes row 0; in a view filtered down
   * to the second one, deleting its only row (index 0) removes nothing.
   */
  lemma DeleteByIndexHitsWrongRow(t1: Transaction, t2: Transaction)
    requires t1.id == 1 && t2.id == 2
    ensures RemoveById([t1, t2], 0) == [t1, t2]
    ensures RemoveById([t1, t2], 1) == [t2]
    ensures t2.timestamp != [] && !(t2.timestamp <= t1.timestamp) ==>
      FilterByPrefix([t1, t2], t2.timestamp) == [t2] && RemoveById([t1, t2], 0) == [t1, t2]
  {
    var ts := [t1, t2];
    assert ts[1..] == [t2] && [t2][1..] == [];
    assert RemoveById([t2], 0) == [t2] + RemoveById([], 0) == [t2];
    assert RemoveById([t2], 1) == [t2] + RemoveById([], 1) == [t2];
    assert RemoveById(ts, 0) == [t1] + RemoveById([t2], 0);
    assert RemoveById(ts, 1) == RemoveById([t2], 1);
    assert FilterByPrefix([t2], t2.timestamp) == [t2];
  }

  // ---------------------------------------------------------------------------
  // The session end to end

  /**
   * With the corrected chaining (`AddBook`, `SellBook`): on a freshly seeded
   * store, adding 5 "Beginner" and then selling 3 leaves 2 in stock, an
   * inventory total of 170000 (every other title has no stock), and day's
   * takings of 680000 over the two ledger rows.
   */
  method AddThenSellOnSeededStore() returns (stock: int, value: int, takings: int)
    ensures stock == 2 && value == 170000 && takings == 680000
  {
    var ts1, ts2 := "1/1/2024, 10:00:00 AM", "1/1/2024, 10:05:00 AM";
    var store := new Store();
    SeededBooks();
    var s0 := store.books;
    assert s0[0].title == "Beginner" && s0[0].price == 85000;
    assert GetPrice("Beginner") == 85000;
    ZeroStockValue(s0);
    FindUniqueTitle(s0, 0);
    AddThenSell(s0, "Beginner", 5, 3);
    InventoryValueAfterUpdate(s0, 0, 85000, 5);
    StatsTotalAfterRecord([], "Added", "Beginner", 5, 425000, ts1);

    AddBook(store, "Beginner", 5, ts1);
    var s1, t1 := store.books, store.transactions;
    UpsertExistingTitle(s0, "Beginner", 85000, 5);
    assert s1[0].title == "Beginner" && s1[0].price == 85000;
    InventoryValueAfterUpdate(s1, 0, 85000, -3);
    StatsTotalAfterRecord(t1, "Sold", "Beginner", 3, 255000, ts2);

    var sold := SellBook(store, "Beginner", 3, ts2);
    assert sold;
    var books, transactions := store.GetData();
    stock := StockOf(books, "Beginner");
    value := LoadInventoryTotal(books);
    takings := LoadStatsTotal(transactions);
  }

  /**
   * The same session as the source writes it (`AddBookAsWritten`,
   * `SellBookAsWritten`): the stock and the inventory total are the same, but
   * no transaction is ever recorded, so the ledger stays empty and the day's
   * takings are 0.
   */
  method AddThenSellAsWrittenOnSeededStore() returns (stock: int, value: int, takings: int, ledger: seq<Transaction>)
    ensures stock == 2 && value == 170000 && ledger == [] && takings == 0
  {
    var ts1, ts2 := "1/1/2024, 10:00:00 AM", "1/1/2024, 10:05:00 AM";
    var store := new Store();
    SeededBooks();
    var s0 := store.books;
    assert s0[0].title == "Beginner" && s0[0].price == 85000;
    assert GetPrice("Beginner") == 85000;
    ZeroStockValue(s0);
    FindUniqueTitle(s0, 0);
    AddThenSell(s0, "Beginner", 5, 3);
    InventoryValueAfterUpdate(s0, 0, 85000, 5);

    AddBookAsWritten(store, "Beginner", 5, ts1);
    var s1 := store.books;
    UpsertExistingTitle(s0, "Beginner", 85000, 5);
    assert s1[0].title == "Beginner" && s1[0].price == 85000;
    InventoryValueAfterUpdate(s1, 0, 85000, -3);

    var sold := SellBookAsWritten(store, "Beginner", 3, ts2);
    assert sold;
    var books, transactions := store.GetData();
    stock := StockOf(books, "Beginner");
    value := LoadInventoryTotal(books);
    takings := LoadStatsTotal(transactions);
    ledger := transactions;
  }

  /** A table with no stock is worth nothing. */
  lemma {:induction false} ZeroStockValue(bs: seq<Book>)
    requires forall i :: 0 <= i < |bs| ==> bs[i].quantity == 0
    ensures InventoryValue(bs) == 0
  {
    if bs != [] {
      ZeroStockValue(bs[..|bs| - 1]);
    }
  }
}

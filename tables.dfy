/**
 * The two SQLite tables of the inventory server, `books` and `transactions`,
 * and the effect of each SQL statement the server runs on them, as functions
 * over the sequence of rows a full-table `SELECT *` yields (rowid order).
 *
 * Row ids follow SQLite's rule for an `INTEGER PRIMARY KEY` column that the
 * INSERT leaves out: the new row gets one more than the largest id in the
 * table, or 1 when the table is empty.
 */
module Tables {

  /** A row of `books(id, title, price, quantity)`. */
  datatype Book = Book(id: int, title: string, price: int, quantity: int)

  /** A row of `transactions(id, action, book, quantity, total, timestamp)`. */
  datatype Transaction = Transaction(
    id: int, action: string, book: string, quantity: int, total: int, timestamp: string)

  // ---------------------------------------------------------------------------
  // Row ids

  function BookIds(bs: seq<Book>): seq<int> {
    seq(|bs|, i requires 0 <= i < |bs| => bs[i].id)
  }

  function TransactionIds(ts: seq<Transaction>): seq<int> {
    seq(|ts|, i requires 0 <= i < |ts| => ts[i].id)
  }

  /** Ids as SQLite hands them out: positive, and strictly increasing in scan order. */
  ghost predicate IdsValid(ids: seq<int>) {
    (forall i :: 0 <= i < |ids| ==> 0 < ids[i]) &&
    (forall i, j :: 0 <= i < j < |ids| ==> ids[i] < ids[j])
  }

  /** The largest id of a non-empty table. */
  function MaxId(ids: seq<int>): int
    requires ids != []
  {
    if |ids| == 1 then ids[0]
    else
      var m := MaxId(ids[..|ids| - 1]);
      if m < ids[|ids| - 1] then ids[|ids| - 1] else m
  }

  /** The id SQLite assigns to the next inserted row. */
  function NextId(ids: seq<int>): int {
    if ids == [] then 1 else MaxId(ids) + 1
  }

  lemma {:induction false} MaxIdIsMaximum(ids: seq<int>)
    requires ids != []
    ensures MaxId(ids) in ids
    ensures forall i :: 0 <= i < |ids| ==> ids[i] <= MaxId(ids)
  {
    if |ids| > 1 {
      var init := ids[..|ids| - 1];
      MaxIdIsMaximum(init);
      assert forall i :: 0 <= i < |init| ==> ids[i] == init[i];
    }
  }

  /** A new row's id is larger than every id already in the table. */
  lemma NextIdIsFresh(ids: seq<int>)
    ensures forall i :: 0 <= i < |ids| ==> ids[i] < NextId(ids)
    ensures IdsValid(ids) ==> 0 < NextId(ids)
  {
    if ids != [] {
      MaxIdIsMaximum(ids);
    }
  }

  /** Appending a row with the next id keeps the ids valid. */
  lemma AppendNextIdKeepsIdsValid(ids: seq<int>)
    requires IdsValid(ids)
    ensures IdsValid(ids + [NextId(ids)])
  {
    NextIdIsFresh(ids);
  }

  /** In a table whose ids increase, the next id follows the last row's id. */
  lemma {:induction false} NextIdAfterLast(ids: seq<int>)
    requires IdsValid(ids) && ids != []
    ensures NextId(ids) == ids[|ids| - 1] + 1
  {
    MaxIdIsMaximum(ids);
  }

  // ---------------------------------------------------------------------------
  // The books table

  predicate HasTitle(bs: seq<Book>, title: string) {
    exists i :: 0 <= i < |bs| && bs[i].title == title
  }

  /** No two rows of `books` share a title. */
  ghost predicate TitlesUnique(bs: seq<Book>) {
    forall i, j :: 0 <= i < j < |bs| ==> bs[i].title != bs[j].title
  }

  /** The invariant the server keeps on `books`. */
  ghost predicate BooksValid(bs: seq<Book>) {
    IdsValid(BookIds(bs)) && TitlesUnique(bs)
  }

  /** `INSERT INTO books (title, price, quantity) VALUES (?, ?, ?)` */
  function InsertBook(bs: seq<Book>, title: string, price: int, quantity: int): seq<Book> {
    bs + [Book(NextId(BookIds(bs)), title, price, quantity)]
  }

  /** `UPDATE books SET quantity = quantity + ? WHERE title = ?` */
  function AddToTitle(bs: seq<Book>, title: string, delta: int): seq<Book> {
    seq(|bs|, i requires 0 <= i < |bs| =>
      if bs[i].title == title then bs[i].(quantity := bs[i].quantity + delta) else bs[i])
  }

  /** The `POST /api/books` handler: look the title up, then update or insert. */
  function Upsert(bs: seq<Book>, title: string, price: int, delta: int): seq<Book> {
    if HasTitle(bs, title) then AddToTitle(bs, title, delta) else InsertBook(bs, title, price, delta)
  }

  /** `UPDATE books SET quantity = ? WHERE id = ?` */
  function SetQuantityById(bs: seq<Book>, id: int, quantity: int): seq<Book> {
    seq(|bs|, i requires 0 <= i < |bs| =>
      if bs[i].id == id then bs[i].(quantity := quantity) else bs[i])
  }

  /**
   * Upsert on a title already present adds the delta to the quantity of every
   * row with that title and changes nothing else: no row is added or removed,
   * and ids, titles and prices stay as they were (the request's price is
   * ignored).
   */
  lemma UpsertExistingTitle(bs: seq<Book>, title: string, price: int, delta: int)
    requires HasTitle(bs, title)
    ensures var r := Upsert(bs, title, price, delta);
      |r| == |bs| &&
      forall i :: 0 <= i < |bs| ==>
        r[i].id == bs[i].id && r[i].title == bs[i].title && r[i].price == bs[i].price &&
        r[i].quantity == (if bs[i].title == title then bs[i].quantity + delta else bs[i].quantity)
  {
  }

  /**
   * Upsert on a new title appends exactly one row carrying the request's
   * title, price and quantity under an id larger than every existing id;
   * the existing rows are kept as they were.
   */
  lemma UpsertNewTitle(bs: seq<Book>, title: string, price: int, delta: int)
    requires !HasTitle(bs, title)
    ensures var r := Upsert(bs, title, price, delta);
      |r| == |bs| + 1 && r[..|bs|] == bs &&
      r[|bs|].title == title && r[|bs|].price == price && r[|bs|].quantity == delta &&
      forall i :: 0 <= i < |bs| ==> bs[i].id < r[|bs|].id
  {
    var r := Upsert(bs, title, price, delta);
    NextIdIsFresh(BookIds(bs));
    assert forall i :: 0 <= i < |bs| ==> BookIds(bs)[i] == bs[i].id;
    assert r[..|bs|] == bs;
  }

  /** The server puts no lower bound on a quantity: a delta larger than the stock drives it below zero. */
  lemma UpsertHasNoLowerBound(bs: seq<Book>, k: int, price: int, delta: int)
    requires 0 <= k < |bs| && bs[k].quantity + delta < 0
    ensures Upsert(bs, bs[k].title, price, delta)[k].quantity < 0
  {
    assert HasTitle(bs, bs[k].title);
  }

  lemma UpsertKeepsBooksValid(bs: seq<Book>, title: string, price: int, delta: int)
    requires BooksValid(bs)
    ensures BooksValid(Upsert(bs, title, price, delta))
  {
    var r := Upsert(bs, title, price, delta);
    if HasTitle(bs, title) {
      assert BookIds(r) == BookIds(bs);
    } else {
      AppendNextIdKeepsIdsValid(BookIds(bs));
      assert BookIds(r) == BookIds(bs) + [NextId(BookIds(bs))];
    }
  }

  /**
   * Setting a quantity by id changes the quantity of the row with that id and
   * nothing else; when no row has that id the table is unchanged.
   */
  lemma SetQuantityByIdEffect(bs: seq<Book>, id: int, quantity: int)
    ensures var r := SetQuantityById(bs, id, quantity);
      |r| == |bs| &&
      (forall i :: 0 <= i < |bs| ==>
        r[i].id == bs[i].id && r[i].title == bs[i].title && r[i].price == bs[i].price &&
        r[i].quantity == (if bs[i].id == id then quantity else bs[i].quantity)) &&
      ((forall i :: 0 <= i < |bs| ==> bs[i].id != id) ==> r == bs)
  {
  }

  lemma SetQuantityByIdKeepsBooksValid(bs: seq<Book>, id: int, quantity: int)
    requires BooksValid(bs)
    ensures BooksValid(SetQuantityById(bs, id, quantity))
  {
    assert BookIds(SetQuantityById(bs, id, quantity)) == BookIds(bs);
  }

  // ---------------------------------------------------------------------------
  // The transactions table

  ghost predicate TransactionsValid(ts: seq<Transaction>) {
    IdsValid(TransactionIds(ts))
  }

  /** `INSERT INTO transactions (action, book, quantity, total, timestamp) VALUES (?, ?, ?, ?, ?)` */
  function RecordTransaction(ts: seq<Transaction>, action: string, book: string, quantity: int,
                             total: int, timestamp: string): seq<Transaction>
  {
    ts + [Transaction(NextId(TransactionIds(ts)), action, book, quantity, total, timestamp)]
  }

  /** `DELETE FROM transactions WHERE id = ?` */
  function RemoveById(ts: seq<Transaction>, id: int): seq<Transaction> {
    if ts == [] then []
    else if ts[0].id == id then RemoveById(ts[1..], id)
    else [ts[0]] + RemoveById(ts[1..], id)
  }

  /**
   * Recording a transaction appends one row whose five fields are the
   * request's, verbatim, under an id larger than every existing id; earlier
   * rows keep their contents and order.
   */
  lemma RecordTransactionAppends(ts: seq<Transaction>, action: string, book: string, quantity: int,
                                 total: int, timestamp: string)
    ensures var r := RecordTransaction(ts, action, book, quantity, total, timestamp);
      |r| == |ts| + 1 && r[..|ts|] == ts &&
      r[|ts|].action == action && r[|ts|].book == book && r[|ts|].quantity == quantity &&
      r[|ts|].total == total && r[|ts|].timestamp == timestamp &&
      forall i :: 0 <= i < |ts| ==> ts[i].id < r[|ts|].id
  {
    var r := RecordTransaction(ts, action, book, quantity, total, timestamp);
    NextIdIsFresh(TransactionIds(ts));
    assert forall i :: 0 <= i < |ts| ==> TransactionIds(ts)[i] == ts[i].id;
    assert r[..|ts|] == ts;
  }

  lemma RecordTransactionKeepsValid(ts: seq<Transaction>, action: string, book: string, quantity: int,
                                    total: int, timestamp: string)
    requires TransactionsValid(ts)
    ensures TransactionsValid(RecordTransaction(ts, action, book, quantity, total, timestamp))
  {
    AppendNextIdKeepsIdsValid(TransactionIds(ts));
    assert TransactionIds(RecordTransaction(ts, action, book, quantity, total, timestamp))
        == TransactionIds(ts) + [NextId(TransactionIds(ts))];
  }

  /** Deleting an id that no row carries leaves the table unchanged. */
  lemma {:induction false} RemoveAbsentId(ts: seq<Transaction>, id: int)
    requires forall i :: 0 <= i < |ts| ==> ts[i].id != id
    ensures RemoveById(ts, id) == ts
  {
    if ts != [] {
      RemoveAbsentId(ts[1..], id);
    }
  }

  /** The rows after the first of a valid table form a valid table, all with larger ids. */
  lemma ValidTail(ts: seq<Transaction>)
    requires TransactionsValid(ts) && ts != []
    ensures TransactionsValid(ts[1..])
    ensures forall i :: 1 <= i < |ts| ==> ts[0].id < ts[i].id
  {
    var ids := TransactionIds(ts);
    assert forall i :: 0 <= i < |ts| ==> ids[i] == ts[i].id;
    assert TransactionIds(ts[1..]) == ids[1..];
  }

  /**
   * Deleting the id of row k removes exactly that row and keeps the others in
   * their order.
   */
  lemma {:induction false} RemovePresentId(ts: seq<Transaction>, k: int)
    requires TransactionsValid(ts) && 0 <= k < |ts|
    ensures RemoveById(ts, ts[k].id) == ts[..k] + ts[k + 1..]
  {
    var id := ts[k].id;
    ValidTail(ts);
    if k == 0 {
      assert forall i :: 0 <= i < |ts[1..]| ==> ts[1..][i].id != id by {
        assert forall i :: 0 <= i < |ts[1..]| ==> ts[1..][i] == ts[i + 1];
      }
      RemoveAbsentId(ts[1..], id);
      assert RemoveById(ts, id) == RemoveById(ts[1..], id);
      assert ts[..0] + ts[1..] == ts[1..];
    } else {
      assert ts[0].id != id;
      assert ts[1..][k - 1] == ts[k];
      RemovePresentId(ts[1..], k - 1);
      assert RemoveById(ts, id) == [ts[0]] + RemoveById(ts[1..], id);
      assert ts[1..][..k - 1] == ts[1..k];
      assert ts[1..][k..] == ts[k + 1..];
      assert [ts[0]] + ts[1..k] == ts[..k];
    }
  }

  /** Every row left after a delete was in the table before, with a different id. */
  lemma {:induction false} RemoveByIdKeepsOthers(ts: seq<Transaction>, id: int)
    ensures forall t :: t in RemoveById(ts, id) <==> t in ts && t.id != id
  {
    if ts != [] {
      RemoveByIdKeepsOthers(ts[1..], id);
      assert ts == [ts[0]] + ts[1..];
    }
  }

  /** Dropping one row of a valid table leaves a valid table. */
  lemma DropRowKeepsValid(ts: seq<Transaction>, k: int)
    requires TransactionsValid(ts) && 0 <= k < |ts|
    ensures TransactionsValid(ts[..k] + ts[k + 1..])
  {
    var ids := TransactionIds(ts);
    var r := ts[..k] + ts[k + 1..];
    assert forall i :: 0 <= i < |ts| ==> ids[i] == ts[i].id;
    assert forall i :: 0 <= i < |r| ==> r[i] == ts[if i < k then i else i + 1];
    assert forall i :: 0 <= i < |r| ==> TransactionIds(r)[i] == ids[if i < k then i else i + 1];
  }

  lemma RemoveByIdKeepsValid(ts: seq<Transaction>, id: int)
    requires TransactionsValid(ts)
    ensures TransactionsValid(RemoveById(ts, id))
  {
    if k :| 0 <= k < |ts| && ts[k].id == id {
      RemovePresentId(ts, k);
      DropRowKeepsValid(ts, k);
    } else {
      RemoveAbsentId(ts, id);
    }
  }

}

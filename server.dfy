/**
 * The inventory server: one in-memory store holding the `books` and
 * `transactions` tables, seeded with the catalog at start-up, and one method
 * per route handler. Each handler runs as one atomic step on the store and
 * answers with the status and text the source sends.
 */
module Server {
  import opened Tables

  /** The catalog the server seeds: title, price, initial quantity. */
  const SeedCatalog: seq<(string, int, int)> := [
    ("Beginner", 85000, 0),
    ("Elementary", 85000, 0),
    ("Pre-Intermediate", 85000, 0),
    ("Intermediate", 85000, 0),
    ("Kids Level 1", 60000, 0),
    ("Kids Level 2", 60000, 0),
    ("Kids Level 3", 60000, 0),
    ("Kids Level 4", 60000, 0),
    ("Kids Level 5", 60000, 0),
    ("Kids Level 6", 60000, 0),
    ("Kids High Level 1", 60000, 0),
    ("Kids High Level 2", 60000, 0),
    ("Listening Beginner", 30000, 0),
    ("Listening Elementary", 30000, 0),
    ("Listening Pre-Intermediate", 30000, 0),
    ("Listening Intermediate", 35000, 0)
  ]

  /** The `books` table right after seeding: the catalog in order, ids from 1. */
  function Seeded(): seq<Book> {
    seq(|SeedCatalog|, i requires 0 <= i < |SeedCatalog| =>
      Book(i + 1, SeedCatalog[i].0, SeedCatalog[i].1, SeedCatalog[i].2))
  }

  /** What a handler answers: an HTTP status and a plain-text body. */
  datatype Reply = Reply(status: int, body: string)

  class Store {
    var books: seq<Book>
    var transactions: seq<Transaction>

    ghost predicate Valid()
      reads this
    {
      BooksValid(books) && TransactionsValid(transactions)
    }

    /** Creates both tables empty, then runs the prepared insert once per catalog entry. */
    constructor ()
      ensures Valid()
      ensures books == Seeded() && transactions == []
    {
      books := [];
      transactions := [];
      new;
      for n := 0 to |SeedCatalog|
        invariant books == Seeded()[..n] && transactions == []
      {
        var (title, price, quantity) := SeedCatalog[n];
        SeedStep(n);
        books := InsertBook(books, title, price, quantity);
      }
      assert books == Seeded();
      SeededIsValid();
    }

    /** `GET /api/data`: both tables in full, unfiltered. */
    method GetData() returns (bs: seq<Book>, ts: seq<Transaction>)
      ensures bs == books && ts == transactions
    {
      bs, ts := books, transactions;
    }

    /** `POST /api/books` with body `{ title, price, quantity }`. */
    method PostBook(title: string, price: int, quantity: int) returns (reply: Reply)
      requires Valid()
      modifies this
      ensures Valid()
      ensures books == Upsert(old(books), title, price, quantity)
      ensures transactions == old(transactions)
      ensures reply.status == 200
      ensures reply.body == if HasTitle(old(books), title) then "Book quantity updated" else "Book added"
    {
      UpsertKeepsBooksValid(books, title, price, quantity);
      if HasTitle(books, title) {
        books := AddToTitle(books, title, quantity);
        reply := Reply(200, "Book quantity updated");
      } else {
        books := InsertBook(books, title, price, quantity);
        reply := Reply(200, "Book added");
      }
    }

    /** `POST /api/transactions` with body `{ action, book, quantity, total, timestamp }`. */
    method PostTransaction(action: string, book: string, quantity: int, total: int, timestamp: string)
      returns (reply: Reply)
      requires Valid()
      modifies this
      ensures Valid()
      ensures transactions == RecordTransaction(old(transactions), action, book, quantity, total, timestamp)
      ensures books == old(books)
      ensures reply == Reply(200, "Transaction recorded")
    {
      RecordTransactionKeepsValid(transactions, action, book, quantity, total, timestamp);
      transactions := RecordTransaction(transactions, action, book, quantity, total, timestamp);
      reply := Reply(200, "Transaction recorded");
    }

    /** `PUT /api/books/:id` with body `{ quantity }`; answers success whether or not the id exists. */
    method PutBook(id: int, quantity: int) returns (reply: Reply)
      requires Valid()
      modifies this
      ensures Valid()
      ensures books == SetQuantityById(old(books), id, quantity)
      ensures transactions == old(transactions)
      ensures reply == Reply(200, "Book quantity updated")
    {
      SetQuantityByIdKeepsBooksValid(books, id, quantity);
      books := SetQuantityById(books, id, quantity);
      reply := Reply(200, "Book quantity updated");
    }

    /** `DELETE /api/transactions/:id`; answers success whether or not the id exists. */
    method DeleteTransaction(id: int) returns (reply: Reply)
      requires Valid()
      modifies this
      ensures Valid()
      ensures transactions == RemoveById(old(transactions), id)
      ensures books == old(books)
      ensures reply == Reply(200, "Transaction deleted")
    {
      RemoveByIdKeepsValid(transactions, id);
      transactions := RemoveById(transactions, id);
      reply := Reply(200, "Transaction deleted");
    }
  }

  /**
   * Seeding yields exactly 16 books, in catalog order, each with the listed
   * title and price, quantity 0, and ids 1 to 16.
   */
  lemma SeededBooks()
    ensures |Seeded()| == 16
    ensures forall i :: 0 <= i < 16 ==>
      Seeded()[i].id == i + 1 && Seeded()[i].title == SeedCatalog[i].0 &&
      Seeded()[i].price == SeedCatalog[i].1 && Seeded()[i].quantity == 0
  {
  }

  /** The seeded table satisfies the store invariant: distinct increasing ids and distinct titles. */
  lemma SeededIsValid()
    ensures BooksValid(Seeded())
  {
    var s := Seeded();
    assert forall i :: 0 <= i < |s| ==> BookIds(s)[i] == i + 1;
    forall i, j | 0 <= i < j < |s| ensures s[i].title != s[j].title {
      CatalogTitlesDistinct(i, j);
    }
  }

  /** Running the prepared insert for catalog entry n extends the first n seeded rows by row n. */
  lemma SeedStep(n: int)
    requires 0 <= n < |SeedCatalog|
    ensures InsertBook(Seeded()[..n], SeedCatalog[n].0, SeedCatalog[n].1, SeedCatalog[n].2)
         == Seeded()[..n + 1]
  {
    var prefix := Seeded()[..n];
    var ids := BookIds(prefix);
    assert forall k :: 0 <= k < n ==> ids[k] == k + 1;
    if n > 0 {
      NextIdAfterLast(ids);
    }
    assert NextId(ids) == n + 1;
  }

  lemma CatalogTitlesDistinct(i: int, j: int)
    requires 0 <= i < j < |SeedCatalog|
    ensures SeedCatalog[i].0 != SeedCatalog[j].0
  {
    var t := SeedCatalog[i].0;
    var u := SeedCatalog[j].0;
    if |t| == |u| {
      // Titles of equal length differ at a position chosen per pair.
      var p := if t[0] != u[0] then 0
               else if t[|t| - 1] != u[|u| - 1] then |t| - 1
               else if 11 < |t| && t[11] != u[11] then 11
               else 10;
      assert t[p] != u[p];
    }
  }
}

/** The shared store (`db.Books`): a list of books that the import and the
    seed fallback append to, and whose stock counts `buy` and `restock`
    update in place. */
module Store {
  import opened Base
  import opened Integers
  import opened Books
  import Flags
  import Stock

  class Catalog {
    /** The books in the store's natural order. */
    var books: seq<Book>

    ghost predicate Valid()
      reads this
    {
      UniqueIds(books)
    }

    constructor ()
      ensures Valid() && books == []
    {
      books := [];
    }

    /** `db.Books.Add(draft)` followed by `SaveChanges`: the store numbers the
        book with an id no other book has. */
    method Insert(draft: Draft) returns (id: int)
      requires Valid()
      modifies this
      ensures Valid()
      ensures id > 0 && forall i :: 0 <= i < |old(books)| ==> old(books)[i].id != id
      ensures books == old(books) + [Book(id, draft.author, draft.title, draft.year, draft.count)]
    {
      id := NextId(books);
      books := books + [Book(id, draft.author, draft.title, draft.year, draft.count)];
    }

    /** The loop of `TakeBooksFromInternet` over the fetched documents. */
    method Import(docs: seq<Candidate>)
      requires Valid()
      modifies this
      ensures Valid()
      ensures |books| == |old(books)| + |Kept(docs)|
      ensures books[..|old(books)|] == old(books)
      ensures Drafts(books[|old(books)|..]) == Kept(docs)
    {
      var start := |books|;
      var i := 0;
      while i < |docs|
        invariant 0 <= i <= |docs|
        invariant Valid()
        invariant start <= |books| && books[..start] == old(books)
        invariant Drafts(books[start..]) == Kept(docs[..i])
      {
        var c := docs[i];
        KeptAppend(docs[..i], c);
        assert docs[..i + 1] == docs[..i] + [c];
        if c.title.Some? && c.author.Some? {
          var year := if c.year.Some? then c.year.value else 0;
          ghost var added := books[start..];
          var id := Insert(Draft(c.author.value, c.title.value, year, 1));
          assert books[start..] == added + [books[|books| - 1]];
        }
        i := i + 1;
      }
      assert docs[..|docs|] == docs;
    }

    /** The fallback of `Main`: two fixed books when the store is empty. */
    method SeedIfEmpty()
      requires Valid()
      modifies this
      ensures Valid()
      ensures old(books) == [] ==> Drafts(books) == Seeds
      ensures old(books) != [] ==> books == old(books)
    {
      if |books| == 0 {
        var first := Insert(Seeds[0]);
        var second := Insert(Seeds[1]);
        assert Drafts(books) == Drafts([books[0]]) + [DraftOf(books[1])];
      }
    }

    /** Start-up: import only into an empty store (docs are the documents the
        fetch returned, empty when it failed), then seed if still empty. */
    method Startup(docs: seq<Candidate>)
      requires Valid()
      modifies this
      ensures Valid()
      ensures old(books) != [] ==> books == old(books)
      ensures old(books) == [] && Kept(docs) != [] ==> Drafts(books) == Kept(docs)
      ensures old(books) == [] && Kept(docs) == [] ==> Drafts(books) == Seeds
      ensures books != []
    {
      if |books| == 0 {
        Import(docs);
        assert books[0..] == books;
      }
      SeedIfEmpty();
    }

    /** `BuyBook`. */
    method Buy(args: seq<string>) returns (outcome: Stock.BuyOutcome)
      requires Valid()
      modifies this
      ensures Valid()
      ensures (books, outcome) == Stock.Buy(old(books), args)
    {
      var id := ParseNullable(Flags.Lookup(args, "id"));
      if id.None? {
        return Stock.InvalidId;
      }
      var found := IndexOf(books, id.value as int);
      if found.Some? && books[found.value].count > 0 {
        var i := found.value;
        SetCountKeepsIds(books, i, books[i].count - 1);
        books := books[i := books[i].(count := books[i].count - 1)];
        outcome := Stock.Bought(books[i].title, books[i].count);
      } else {
        outcome := Stock.Unavailable;
      }
    }

    /** `RestockBooks`, with the two random draws passed in. */
    method Restock(args: seq<string>, defaultAmount: int32, pick: nat)
      returns (result: Result<Stock.RestockOutcome, Stock.RestockError>)
      requires Valid()
      requires 1 <= defaultAmount <= 9
      requires pick < |books| || books == []
      modifies this
      ensures Valid()
      ensures (books, result) == Stock.Restock(old(books), args, defaultAmount, pick)
    {
      var id: int32 := 0;
      var count := defaultAmount;
      var idFlag := Stock.IntFlag(args, "id");
      if idFlag.Some? {
        if idFlag.value.None? {
          return Failure(Stock.InvalidRestockId);
        }
        id := idFlag.value.value;
      }
      var countFlag := Stock.IntFlag(args, "count");
      if countFlag.Some? {
        if countFlag.value.None? {
          return Failure(Stock.InvalidRestockCount);
        }
        count := countFlag.value.value;
      }
      assert id == Stock.RequestedId(args) && count == Stock.Amount(args, defaultAmount);
      var target: nat;
      if id > 0 {
        var found := IndexOf(books, id as int);
        if found.None? {
          return Success(Stock.NotFound);
        }
        target := found.value;
      } else {
        if |books| == 0 {
          return Success(Stock.NoBooks);
        }
        target := pick;
      }
      var restocked := books[target].(count := AddWrapping(books[target].count, count));
      SetCountKeepsIds(books, target, restocked.count);
      books := books[target := restocked];
      result := Success(Stock.Added(restocked.title, count, restocked.count));
    }
  }
}

/** `buy` and `restock`: what each command does to the books of the store,
    as functions from the books before to the books after and an outcome. */
module Stock {
  import opened Base
  import opened Integers
  import opened Flags
  import opened Books

  /** Every field except the stock count is as it was: no command adds,
      removes, renumbers or renames a book. */
  ghost predicate SameCatalog(before: seq<Book>, after: seq<Book>)
  {
    |before| == |after| && forall i :: 0 <= i < |before| ==> after[i] == before[i].(count := after[i].count)
  }

  lemma SameCatalogTransitive(a: seq<Book>, b: seq<Book>, c: seq<Book>)
    requires SameCatalog(a, b) && SameCatalog(b, c)
    ensures SameCatalog(a, c)
  {
  }

  lemma SameCatalogKeepsIds(a: seq<Book>, b: seq<Book>)
    requires SameCatalog(a, b) && UniqueIds(a)
    ensures UniqueIds(b)
  {
    forall i, j | 0 <= i < j < |b| ensures b[i].id != b[j].id {
      assert b[i].id == a[i].id && b[j].id == a[j].id;
    }
  }

  datatype BuyOutcome =
    | InvalidId                                // "Invalid id."
    | Unavailable                              // "Book not found or out of stock."
    | Bought(title: string, remaining: int32)  // "Bought {title}. Remaining count: {remaining}"

  /** `BuyBook`: one copy fewer of the book named by `--id=`, when it exists
      and has a copy left. */
  function Buy(books: seq<Book>, args: seq<string>): (seq<Book>, BuyOutcome)
  {
    match ParseNullable(Lookup(args, "id"))
    case None => (books, InvalidId)
    case Some(id) =>
      match IndexOf(books, id as int)
      case None => (books, Unavailable)
      case Some(i) =>
        if books[i].count > 0 then
          var sold := books[i].(count := books[i].count - 1);
          (books[i := sold], Bought(sold.title, sold.count))
        else (books, Unavailable)
  }

  /** A missing or non-integer `--id=` is reported and changes nothing. */
  lemma BuyRejectsBadId(books: seq<Book>, args: seq<string>)
    ensures Buy(books, args).1 == InvalidId <==> ParseNullable(Lookup(args, "id")).None?
    ensures Buy(books, args).1 == InvalidId ==> Buy(books, args).0 == books
  {
  }

  /** Buying a book in stock takes exactly one copy of that book and
      touches no other book. */
  lemma BuyTakesOne(books: seq<Book>, args: seq<string>, id: int32, i: nat)
    requires UniqueIds(books) && i < |books|
    requires ParseNullable(Lookup(args, "id")) == Some(id) && books[i].id == id as int
    requires books[i].count > 0
    ensures var (after, outcome) := Buy(books, args);
      && |after| == |books|
      && after[i].count as int == books[i].count as int - 1
      && after[i] == books[i].(count := after[i].count)
      && (forall j :: 0 <= j < |books| && j != i ==> after[j] == books[j])
      && outcome == Bought(books[i].title, after[i].count)
  {
    IndexOfUnique(books, i);
  }

  /** Buying a book that does not exist or has no copy left changes nothing. */
  lemma BuyRefuses(books: seq<Book>, args: seq<string>, id: int32)
    requires ParseNullable(Lookup(args, "id")) == Some(id)
    requires forall i :: 0 <= i < |books| && books[i].id == id as int ==> books[i].count <= 0
    ensures Buy(books, args) == (books, Unavailable)
  {
  }

  /** A stock count never goes below zero by buying. */
  lemma BuyKeepsStockNonNegative(books: seq<Book>, args: seq<string>)
    requires forall i :: 0 <= i < |books| ==> books[i].count >= 0
    ensures var after := Buy(books, args).0;
      forall i :: 0 <= i < |after| ==> after[i].count >= 0
  {
  }

  lemma BuyKeepsCatalog(books: seq<Book>, args: seq<string>)
    ensures SameCatalog(books, Buy(books, args).0)
  {
  }

  datatype RestockError =
    | InvalidRestockId     // "Invalid id."
    | InvalidRestockCount  // "Invalid count."

  datatype RestockOutcome =
    | Added(title: string, amount: int32, newCount: int32)  // "Restocked {amount} copies of {title}. New count: {newCount}"
    | NotFound  // "Book not found."
    | NoBooks   // "No books available to restock."

  /** A flag read as an int: None when absent, Some(None) when present but
      not an integer. */
  function IntFlag(args: seq<string>, key: string): Option<Option<int32>>
  {
    match Lookup(args, key)
    case None => None
    case Some(v) => Some(ParseInt(v))
  }

  /** The number of copies to add: `--count=` when given, else the random default. */
  function Amount(args: seq<string>, defaultAmount: int32): int32
  {
    match IntFlag(args, "count")
    case Some(Some(n)) => n
    case _ => defaultAmount
  }

  /** The requested id: `--id=` when given, else 0 (the C# variable's initial value). */
  function RequestedId(args: seq<string>): int32
  {
    match IntFlag(args, "id")
    case Some(Some(n)) => n
    case _ => 0
  }

  /** `RestockBooks`. defaultAmount is `new Random().Next(1, 10)` and pick is
      `new Random().Next(books.Count)`, drawn only when no positive id is given. */
  function Restock(books: seq<Book>, args: seq<string>, defaultAmount: int32, pick: nat)
    : (seq<Book>, Result<RestockOutcome, RestockError>)
    requires 1 <= defaultAmount <= 9
    requires pick < |books| || books == []
  {
    if IntFlag(args, "id") == Some(None) then (books, Failure(InvalidRestockId))
    else if IntFlag(args, "count") == Some(None) then (books, Failure(InvalidRestockCount))
    else
      var id := RequestedId(args);
      var amount := Amount(args, defaultAmount);
      if id > 0 then
        match IndexOf(books, id as int)
        case None => (books, Success(NotFound))
        case Some(i) => AddCopies(books, i, amount)
      else if |books| == 0 then (books, Success(NoBooks))
      else AddCopies(books, pick, amount)
  }

  /** `book.Count += count` on the i-th book, and the message that reports it. */
  function AddCopies(books: seq<Book>, i: nat, amount: int32): (seq<Book>, Result<RestockOutcome, RestockError>)
    requires i < |books|
  {
    var restocked := books[i].(count := AddWrapping(books[i].count, amount));
    (books[i := restocked], Success(Added(restocked.title, amount, restocked.count)))
  }

  /** A present but non-integer `--id=` fails first, then a present but
      non-integer `--count=`; either failure changes nothing. */
  lemma RestockRejects(books: seq<Book>, args: seq<string>, defaultAmount: int32, pick: nat)
    requires 1 <= defaultAmount <= 9
    requires pick < |books| || books == []
    ensures var (after, r) := Restock(books, args, defaultAmount, pick);
      && (r == Failure(InvalidRestockId) <==> IntFlag(args, "id") == Some(None))
      && (r == Failure(InvalidRestockCount) <==>
            IntFlag(args, "id") != Some(None) && IntFlag(args, "count") == Some(None))
      && (r.Failure? ==> after == books)
  {
  }

  /** Restocking an existing book by a positive id adds exactly the amount to
      that book (wrapping like C#'s int on overflow) and to no other book. */
  lemma RestockById(books: seq<Book>, args: seq<string>, defaultAmount: int32, pick: nat, id: int32, i: nat)
    requires 1 <= defaultAmount <= 9
    requires pick < |books| || books == []
    requires UniqueIds(books) && i < |books|
    requires IntFlag(args, "id") == Some(Some(id)) && id > 0 && books[i].id == id as int
    requires IntFlag(args, "count") != Some(None)
    ensures var (after, r) := Restock(books, args, defaultAmount, pick);
      var amount := Amount(args, defaultAmount);
      && |after| == |books|
      && after[i] == books[i].(count := AddWrapping(books[i].count, amount))
      && (InRange(books[i].count as int + amount as int) ==> after[i].count as int == books[i].count as int + amount as int)
      && (forall j :: 0 <= j < |books| && j != i ==> after[j] == books[j])
      && r == Success(Added(books[i].title, amount, after[i].count))
  {
    IndexOfUnique(books, i);
  }

  /** A positive id that names no book is reported and changes nothing. */
  lemma RestockMissing(books: seq<Book>, args: seq<string>, defaultAmount: int32, pick: nat, id: int32)
    requires 1 <= defaultAmount <= 9
    requires pick < |books| || books == []
    requires IntFlag(args, "id") == Some(Some(id)) && id > 0
    requires IntFlag(args, "count") != Some(None)
    requires forall j :: 0 <= j < |books| ==> books[j].id != id as int
    ensures Restock(books, args, defaultAmount, pick) == (books, Success(NotFound))
  {
  }

  /** With no `--id=`, or one that is not positive, the amount goes to the
      drawn book and to no other; an empty store changes nothing. */
  lemma RestockRandom(books: seq<Book>, args: seq<string>, defaultAmount: int32, pick: nat)
    requires 1 <= defaultAmount <= 9
    requires pick < |books| || books == []
    requires IntFlag(args, "id") != Some(None) && IntFlag(args, "count") != Some(None)
    requires RequestedId(args) <= 0
    ensures var (after, r) := Restock(books, args, defaultAmount, pick);
      var amount := Amount(args, defaultAmount);
      if books == [] then after == books && r == Success(NoBooks)
      else
        && |after| == |books|
        && after[pick] == books[pick].(count := AddWrapping(books[pick].count, amount))
        && (forall j :: 0 <= j < |books| && j != pick ==> after[j] == books[j])
        && r == Success(Added(books[pick].title, amount, after[pick].count))
  {
  }

  /** The copies added are `--count=` when given (any int, zero and negative
      included) and otherwise the random default, between 1 and 9. */
  lemma RestockAmount(books: seq<Book>, args: seq<string>, defaultAmount: int32, pick: nat)
    requires 1 <= defaultAmount <= 9
    requires pick < |books| || books == []
    ensures var r := Restock(books, args, defaultAmount, pick).1;
      r.Success? && r.value.Added? ==>
        && (IntFlag(args, "count").None? ==> 1 <= r.value.amount <= 9)
        && (IntFlag(args, "count").Some? ==> IntFlag(args, "count") == Some(Some(r.value.amount)))
  {
    var r := Restock(books, args, defaultAmount, pick).1;
    if r.Success? && r.value.Added? {
      assert r.value.amount == Amount(args, defaultAmount);
    }
  }

  lemma RestockKeepsCatalog(books: seq<Book>, args: seq<string>, defaultAmount: int32, pick: nat)
    requires 1 <= defaultAmount <= 9
    requires pick < |books| || books == []
    ensures SameCatalog(books, Restock(books, args, defaultAmount, pick).0)
  {
  }
}

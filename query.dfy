/** The `get` command: optional title, author and date filters applied one
    after another, then an optional ascending sort on one column. */
module Query {
  import opened Base
  import opened Integers
  import opened Text
  import opened Flags
  import opened Books

  datatype SortKey = ByTitle | ByAuthor | ByYear | ByCount

  datatype QueryError =
    | WrongFormat      // the date does not parse
    | InvalidOrderBy   // the sort column is none of title, author, date, count

  /** The column named by `--order-by=`, compared after lower-casing. */
  function SortKeyOf(orderBy: string): Option<SortKey>
  {
    var name := Lower(orderBy);
    if name == "title" then Some(ByTitle)
    else if name == "author" then Some(ByAuthor)
    else if name == "date" then Some(ByYear)
    else if name == "count" then Some(ByCount)
    else None
  }

  /** The spelling's case does not matter: "Count", "COUNT" and "count" pick
      the same column. */
  lemma SortKeyIgnoresCase(orderBy: string)
    ensures SortKeyOf(Lower(orderBy)) == SortKeyOf(orderBy)
  {
    LowerIdempotent(orderBy);
  }

  predicate KeyLe(k: SortKey, a: Book, b: Book)
  {
    match k
    case ByTitle => LexLe(a.title, b.title)
    case ByAuthor => LexLe(a.author, b.author)
    case ByYear => a.year <= b.year
    case ByCount => a.count <= b.count
  }

  lemma KeyLeTotal(k: SortKey, a: Book, b: Book)
    ensures KeyLe(k, a, b) || KeyLe(k, b, a)
  {
    match k
    case ByTitle => LexLeTotal(a.title, b.title);
    case ByAuthor => LexLeTotal(a.author, b.author);
    case ByYear =>
    case ByCount =>
  }

  lemma KeyLeTransitive(k: SortKey, a: Book, b: Book, c: Book)
    requires KeyLe(k, a, b) && KeyLe(k, b, c)
    ensures KeyLe(k, a, c)
  {
    match k
    case ByTitle => LexLeTransitive(a.title, b.title, c.title);
    case ByAuthor => LexLeTransitive(a.author, b.author, c.author);
    case ByYear =>
    case ByCount =>
  }

  /** Each book is no greater than the next one. */
  predicate Ascending(k: SortKey, s: seq<Book>)
  {
    forall i :: 0 <= i < |s| - 1 ==> KeyLe(k, s[i], s[i + 1])
  }

  /** Non-decreasing in the chosen column: no book is greater than a later one. */
  ghost predicate Sorted(k: SortKey, s: seq<Book>)
  {
    forall i, j :: 0 <= i < j < |s| ==> KeyLe(k, s[i], s[j])
  }

  lemma {:induction false} AscendingIsSorted(k: SortKey, s: seq<Book>)
    requires Ascending(k, s)
    ensures Sorted(k, s)
  {
    if |s| > 1 {
      var tail := s[1..];
      AscendingIsSorted(k, tail);
      forall j | 1 < j < |s|
        ensures KeyLe(k, s[0], s[j])
      {
        assert KeyLe(k, s[1], s[j]) by { assert s[1] == tail[0] && s[j] == tail[j - 1]; }
        KeyLeTransitive(k, s[0], s[1], s[j]);
      }
    }
  }

  /** One step of a stable insertion sort: x goes before the first book it
      is no greater than. */
  function Insert(k: SortKey, x: Book, s: seq<Book>): (r: seq<Book>)
    requires Ascending(k, s)
    ensures Ascending(k, r)
    ensures multiset(r) == multiset(s) + multiset{x}
    ensures |r| == |s| + 1 && (r[0] == x || (|s| > 0 && r[0] == s[0]))
  {
    if |s| == 0 then [x]
    else if KeyLe(k, x, s[0]) then [x] + s
    else
      KeyLeTotal(k, x, s[0]);
      assert s == [s[0]] + s[1..];
      [s[0]] + Insert(k, x, s[1..])
  }

  /** The ordering `OrderBy` gives the rows, ties kept in their order. */
  function SortBy(k: SortKey, s: seq<Book>): (r: seq<Book>)
    ensures Ascending(k, r)
    ensures multiset(r) == multiset(s)
  {
    if |s| == 0 then []
    else
      assert s == [s[0]] + s[1..];
      Insert(k, s[0], SortBy(k, s[1..]))
  }

  /** `Where(p)`: the books satisfying p, in their order. */
  function Where(s: seq<Book>, p: Book -> bool): (r: seq<Book>)
    ensures forall b :: b in r <==> b in s && p(b)
  {
    if |s| == 0 then []
    else
      assert s == [s[0]] + s[1..];
      (if p(s[0]) then [s[0]] else []) + Where(s[1..], p)
  }

  lemma {:induction false} WhereSame(s: seq<Book>, p: Book -> bool, q: Book -> bool)
    requires forall b :: p(b) == q(b)
    ensures Where(s, p) == Where(s, q)
  {
    if |s| > 0 {
      WhereSame(s[1..], p, q);
    }
  }

  lemma {:induction false} WhereAll(s: seq<Book>, p: Book -> bool)
    requires forall b :: p(b)
    ensures Where(s, p) == s
  {
    if |s| > 0 {
      WhereAll(s[1..], p);
    }
  }

  /** Two filters in a row select what their conjunction selects. */
  lemma {:induction false} WhereWhere(s: seq<Book>, p: Book -> bool, q: Book -> bool, both: Book -> bool)
    requires forall b :: both(b) == (p(b) && q(b))
    ensures Where(Where(s, p), q) == Where(s, both)
  {
    if |s| > 0 {
      WhereWhere(s[1..], p, q, both);
      var rest := Where(s[1..], p);
      if p(s[0]) {
        assert Where(s, p) == [s[0]] + rest;
        assert ([s[0]] + rest)[0] == s[0] && ([s[0]] + rest)[1..] == rest;
      } else {
        assert Where(s, p) == rest;
      }
    }
  }

  /** The filters `get` applies: a title part, an author part, a year. */
  datatype Filters = Filters(title: Option<string>, author: Option<string>, year: Option<int>)

  predicate Matches(f: Filters, b: Book)
  {
    && (f.title.Some? ==> Contains(b.title, f.title.value))
    && (f.author.Some? ==> Contains(b.author, f.author.value))
    && (f.year.Some? ==> b.year as int == f.year.value)
  }

  function NonEmpty(value: Option<string>): Option<string>
  {
    if Given(value) then value else None
  }

  /** The filters the arguments ask for; the date's year when it parses. */
  function FiltersOf(args: seq<string>, parseDate: string -> Option<int>): Filters
  {
    var date := Lookup(args, "date");
    Filters(NonEmpty(Lookup(args, "title")), NonEmpty(Lookup(args, "author")),
            if Given(date) then parseDate(date.value) else None)
  }

  /** The books of the store that pass every requested filter, in store order. */
  function Selected(books: seq<Book>, f: Filters): seq<Book>
  {
    Where(books, (b: Book) => Matches(f, b))
  }

  /** The title, author and year filters of `GetBooks`, applied in that
      order to the store's books; the year filter only when the date parses.
      parseDate stands for `DateTime.TryParse` followed by `.Year`. */
  function Filtered(books: seq<Book>, args: seq<string>, parseDate: string -> Option<int>): seq<Book>
  {
    var title := Lookup(args, "title");
    var author := Lookup(args, "author");
    var date := Lookup(args, "date");
    var byTitle := if Given(title) then (var t := title.value; Where(books, (b: Book) => Contains(b.title, t))) else books;
    var byAuthor := if Given(author) then (var a := author.value; Where(byTitle, (b: Book) => Contains(b.author, a))) else byTitle;
    if Given(date) && parseDate(date.value).Some? then
      var y := parseDate(date.value).value;
      Where(byAuthor, (b: Book) => b.year as int == y)
    else byAuthor
  }

  /** `GetBooks`: the rows printed, or the error that ends the command. */
  function Get(books: seq<Book>, args: seq<string>, parseDate: string -> Option<int>): Result<seq<Book>, QueryError>
  {
    var date := Lookup(args, "date");
    var orderBy := Lookup(args, "order-by");
    if Given(date) && parseDate(date.value).None? then Failure(WrongFormat)
    else if !Given(orderBy) then Success(Filtered(books, args, parseDate))
    else
      match SortKeyOf(orderBy.value)
      case None => Failure(InvalidOrderBy)
      case Some(k) => Success(SortBy(k, Filtered(books, args, parseDate)))
  }

  /** `get` fails exactly when a given date does not parse, or else when a
      given sort column is unknown; a failure prints no row. */
  lemma GetFails(books: seq<Book>, args: seq<string>, parseDate: string -> Option<int>)
    ensures var date := Lookup(args, "date");
      var orderBy := Lookup(args, "order-by");
      var badDate := Given(date) && parseDate(date.value).None?;
      && (Get(books, args, parseDate) == Failure(WrongFormat) <==> badDate)
      && (Get(books, args, parseDate) == Failure(InvalidOrderBy) <==>
            !badDate && Given(orderBy) && SortKeyOf(orderBy.value).None?)
  {
  }

  /** The filters compose as a conjunction: what survives them is exactly
      the books that pass every requested filter, in the store's order. */
  lemma FilteredIsSelected(books: seq<Book>, args: seq<string>, parseDate: string -> Option<int>)
    ensures Filtered(books, args, parseDate) == Selected(books, FiltersOf(args, parseDate))
  {
    var f := FiltersOf(args, parseDate);
    var title := Lookup(args, "title");
    var author := Lookup(args, "author");
    var date := Lookup(args, "date");
    var byTitle := if Given(title) then (var t := title.value; Where(books, (b: Book) => Contains(b.title, t))) else books;
    var byAuthor := if Given(author) then (var a := author.value; Where(byTitle, (b: Book) => Contains(b.author, a))) else byTitle;
    var p1: Book -> bool := (b: Book) => f.title.Some? ==> Contains(b.title, f.title.value);
    var p2: Book -> bool := (b: Book) => f.author.Some? ==> Contains(b.author, f.author.value);
    var p3: Book -> bool := (b: Book) => f.year.Some? ==> b.year as int == f.year.value;
    var p12: Book -> bool := (b: Book) => p1(b) && p2(b);
    if Given(title) {
      var t := title.value;
      WhereSame(books, (b: Book) => Contains(b.title, t), p1);
    } else {
      WhereAll(books, p1);
    }
    if Given(author) {
      var a := author.value;
      WhereSame(byTitle, (b: Book) => Contains(b.author, a), p2);
    } else {
      WhereAll(byTitle, p2);
    }
    WhereWhere(books, p1, p2, p12);
    assert byAuthor == Where(books, p12);
    if Given(date) && parseDate(date.value).Some? {
      var y := parseDate(date.value).value;
      WhereSame(byAuthor, (b: Book) => b.year as int == y, p3);
    } else {
      WhereAll(byAuthor, p3);
    }
    WhereWhere(books, p12, p3, (b: Book) => Matches(f, b));
  }

  /** Without `--order-by=`, `get` prints exactly the selected books in the
      store's order. */
  lemma GetSelects(books: seq<Book>, args: seq<string>, parseDate: string -> Option<int>)
    requires Get(books, args, parseDate).Success?
    requires !Given(Lookup(args, "order-by"))
    ensures Get(books, args, parseDate).value == Selected(books, FiltersOf(args, parseDate))
  {
    FilteredIsSelected(books, args, parseDate);
  }

  /** Every successful `get` prints the selected books and nothing else:
      a book is printed if and only if it passes every requested filter. */
  lemma GetMembers(books: seq<Book>, args: seq<string>, parseDate: string -> Option<int>)
    requires Get(books, args, parseDate).Success?
    ensures var rows := Get(books, args, parseDate).value;
      forall b :: b in rows <==> b in books && Matches(FiltersOf(args, parseDate), b)
  {
    var rows := Get(books, args, parseDate).value;
    var orderBy := Lookup(args, "order-by");
    if Given(orderBy) {
      assert SortKeyOf(orderBy.value).Some?;
      GetSorts(books, args, parseDate, SortKeyOf(orderBy.value).value);
      forall b ensures b in rows <==> b in Selected(books, FiltersOf(args, parseDate)) {
        assert b in rows <==> b in multiset(rows);
      }
    } else {
      GetSelects(books, args, parseDate);
    }
  }

  /** With a valid `--order-by=` naming column `k`, a successful `get` prints
      a permutation of the selected books, non-decreasing in column `k`. */
  lemma GetSorts(books: seq<Book>, args: seq<string>, parseDate: string -> Option<int>, k: SortKey)
    requires Given(Lookup(args, "order-by"))
    requires SortKeyOf(Lookup(args, "order-by").value) == Some(k)
    ensures Get(books, args, parseDate).Success? ==>
      multiset(Get(books, args, parseDate).value) == multiset(Selected(books, FiltersOf(args, parseDate)))
    ensures Get(books, args, parseDate).Success? ==> Sorted(k, Get(books, args, parseDate).value)
  {
    if Get(books, args, parseDate).Success? {
      FilteredIsSelected(books, args, parseDate);
      AscendingIsSorted(k, Get(books, args, parseDate).value);
    }
  }
}

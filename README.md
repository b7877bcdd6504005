# BookStore command engine in Dafny

A model of the command engine of BookStore, a console tool that keeps a small
catalogue of books (title, author, publication year, copies in stock) in a
SQLite store. At start-up it fills an empty store from an online search (or,
failing that, with two seed books). It then reads commands line by line:

- `get` lists books, with optional `--title=`, `--author=`, `--date=` filters
  and an optional `--order-by=`;
- `buy --id=` sells one copy;
- `restock [--id=] [--count=]` adds copies to one book, chosen by id or at random.

The model follows `Program.cs` closely:

- The store is a class `Store.Catalog` holding the books in the store's order,
  with unique ids. `buy`, `restock`, the import and the seed fallback are
  methods that update it.
- Each of those methods is proved equal to a specification function (`Stock.Buy`,
  `Stock.Restock`, `Books.Kept`, `Books.Seeds`). The properties are lemmas about
  those functions.
- The `get` pipeline is a pure function (`Query.Get`) over the list of books.
- `EnterCommand` re-enters itself. That recursion is a loop over the input lines
  (`Session.Run`), proved equal to the specification `Session.RunFrom`.

Modules: `Base` (Option, Result), `Integers` (C# `int`, unchecked `+`,
`int.TryParse`), `Text` (`Split`, `StartsWith`, `Contains`, ordinal string
order, `ToLower`), `Flags` (the `--key=` lookup), `Books` (records, `Find`,
import mapping, seeds), `Query` (`get`), `Stock` (`buy`, `restock`), `Store`
(the store class), `Session` (the command loop).

The model follows the code as written, including:

- An unknown command, an unparsable `--date=`, an unknown `--order-by=`, and a
  bad `restock` `--id=` or `--count=` END the session. The handler returns
  without calling `EnterCommand` again. It does not loop back.
- `buy` refuses any book whose count is not positive, not only a count of zero.
- End of input is not handled gracefully. The code dereferences the null line
  (Program.cs:81). The model ends the session there with `EndOfInput`.
- Documents without a title or an author are dropped by the import loop
  (Program.cs:53), not before it. Each kept document gets one copy in stock,
  and year 0 when it has none.
- `restock` adds with C#'s unchecked `int` addition, so a large `--count=`
  wraps around; a zero or negative `--count=` is accepted as given.

## Model

| member | source | states |
|---|---|---|
| Integers.AddWrapping | Program.cs:210 | `Count += count` gives the exact sum when it fits in an int, otherwise the sum shifted by 2^32 |
| Integers.ParseInt | Program.cs:161 | `int.TryParse`: optional surrounding white space, an optional sign and at least one decimal digit, within the int range; its properties are `Integers.ParseDecimal` and `Integers.ParseNeedsDigit` |
| Integers.ParseDecimal | Program.cs:161 | `int.TryParse` reads the decimal text of every int back as that int |
| Integers.ParseNeedsDigit | Program.cs:198-202 | a flag value without a digit (empty, a word) never parses as an int |
| Text.Split | Program.cs:79 | `Split(' ')` gives at least one piece, no piece holds the separator, and there are two or more pieces exactly when the line holds the separator |
| Text.JoinSplit | Program.cs:79 | joining the pieces of `Split` with the separator gives back the line |
| Text.SplitJoin | Program.cs:79 | splitting a join of separator-free pieces gives back the pieces, so `Split` is the unique such decomposition |
| Text.SplitAtSeparator | Program.cs:111 | a token that is a separator-free head, a separator and a tail splits into the head followed by the pieces of the tail |
| Text.SplitFirstPiece | Program.cs:111 | the first piece is the prefix up to the first separator, or the whole string |
| Text.ContainsIffOccurs | Program.cs:115-116 | `Contains` holds exactly when the needle occurs at some position of the text |
| Text.LexLeTotal | Program.cs:132-135 | any two titles or authors are ordered one way or the other |
| Text.LexLeTransitive | Program.cs:132-135 | the string order used for sorting is transitive |
| Text.LexLeAntisymmetric | Program.cs:132-135 | strings ordered both ways are equal |
| Text.LowerIdempotent | Program.cs:129 | lower-casing twice is lower-casing once |
| Flags.Lookup | Program.cs:111-114 | the value of a `--key=` argument, null when absent; its contract is `Flags.LookupFinds` and `Flags.LookupValue` |
| Flags.LookupFinds | Program.cs:111-114 | the lookup yields null exactly when no argument starts with `--key=`, and otherwise takes the second `=`-piece of the first such argument |
| Flags.LookupValue | Program.cs:111-114 | for a key without `=`, the value is the text of the first matching argument between its first and second `=` |
| Books.DraftsAt | Program.cs:21-24 | the i-th unsaved record is the i-th book without its id |
| Books.IndexOf | Program.cs:163 | `Find(id)` gives a position holding that id, and nothing exactly when no book has that id |
| Books.IndexOfUnique | Program.cs:207 | with unique ids, `Find` on a book's id gives that book's position |
| Books.SetCountKeepsIds | Program.cs:166 | changing one book's count keeps the ids unique |
| Books.NextId | Program.cs:21-25 | a newly saved book gets a positive id that no stored book has |
| Books.KeptMembers | Program.cs:49-55 | a record is imported exactly when some document has both a title and an author, and it has those, the year or 0, and one copy |
| Books.Kept | Program.cs:47-57 | the records the import loop saves, in document order; its properties are `Books.KeptMembers` and `Books.KeptConcat` |
| Books.KeptConcat | Program.cs:47-57 | the import works document by document: importing two batches in turn saves what importing them together saves |
| Query.SortKeyOf | Program.cs:129-146 | the column `--order-by=` names (`title`, `author`, `date`, `count`, in any case), or none for any other value; see `Query.SortKeyIgnoresCase` |
| Query.SortKeyIgnoresCase | Program.cs:129 | the `--order-by=` column is recognised whatever its letter case |
| Query.KeyLeTotal | Program.cs:131-142 | any two books are ordered one way or the other on each sort column |
| Query.KeyLeTransitive | Program.cs:131-142 | ordering on each sort column is transitive |
| Query.AscendingIsSorted | Program.cs:127-147 | a list whose neighbours are in order is in order throughout |
| Query.Insert | Program.cs:127-147 | inserting a book into an ordered list keeps it ordered and adds exactly that book |
| Query.SortBy | Program.cs:127-147 | `OrderBy` yields a list in ascending order of the column that is a permutation of its input |
| Query.Where | Program.cs:115-119 | a filter keeps exactly the books that satisfy it |
| Query.WhereSame | Program.cs:115-119 | filters that agree on every book select the same list |
| Query.WhereAll | Program.cs:115-117 | a filter every book passes keeps the list as it is |
| Query.WhereWhere | Program.cs:115-119 | two filters in a row select what their conjunction selects, in the same order |
| Query.FilteredIsSelected | Program.cs:115-125 | the title, author and year filters select exactly the books matching all given filters, in store order |
| Query.Filtered | Program.cs:115-125 | the title, author and year filters of `get` applied in turn; see `Query.FilteredIsSelected` |
| Query.Get | Program.cs:106-155 | `GetBooks`: the printed rows or the error that ends the session; its contract is `Query.GetFails`, `Query.GetSelects`, `Query.GetMembers` and `Query.GetSorts` |
| Query.GetFails | Program.cs:117-146 | `get` fails with "Wrong format" exactly when a given date does not parse, and with "Invalid order-by field." exactly when the date is fine and a given column is unknown |
| Query.GetSelects | Program.cs:110-153 | without `--order-by=`, `get` prints exactly the matching books in store order |
| Query.GetMembers | Program.cs:115-153 | a successful `get` prints a book if and only if it is in the store and matches every given filter |
| Query.GetSorts | Program.cs:127-153 | with a valid `--order-by=`, `get` prints a permutation of the matching books, non-decreasing in the chosen column |
| Stock.SameCatalogTransitive | Program.cs:166 | keeping every field but the counts composes |
| Stock.SameCatalogKeepsIds | Program.cs:166 | changing only counts keeps ids unique |
| Stock.Buy | Program.cs:157-180 | `BuyBook`: the new store and the outcome reported; its contract is the `Stock.Buy…` lemmas below |
| Stock.BuyRejectsBadId | Program.cs:161-177 | `buy` says "Invalid id." exactly when `--id=` is missing or not an int, and then changes nothing |
| Stock.BuyTakesOne | Program.cs:163-168 | buying a stocked book lowers its count by exactly one, touches no other book and reports its title and new count |
| Stock.BuyRefuses | Program.cs:164-173 | buying a missing book or one without positive count changes nothing |
| Stock.BuyKeepsStockNonNegative | Program.cs:164-166 | buying never takes a count below zero |
| Stock.BuyKeepsCatalog | Program.cs:157-180 | buying changes only stock counts |
| Stock.Restock | Program.cs:182-235 | `RestockBooks`: the new store and the outcome or the error that ends the session; its contract is the `Stock.Restock…` lemmas below |
| Stock.RestockRejects | Program.cs:187-203 | a bad `--id=` fails first and a bad `--count=` fails next, and neither changes anything |
| Stock.RestockById | Program.cs:205-213 | restocking an existing book by positive id adds exactly the amount to it, with int wrap-around, and touches no other book |
| Stock.RestockMissing | Program.cs:205-217 | a positive id that names no book gives "Book not found." and changes nothing |
| Stock.RestockRandom | Program.cs:219-232 | without a positive id the amount goes to the drawn book and to no other, and an empty store changes nothing |
| Stock.RestockAmount | Program.cs:185-203 | the amount added is the `--count=` value when given, unrestricted in sign, and otherwise between 1 and 9 |
| Stock.RestockKeepsCatalog | Program.cs:182-235 | restocking changes only stock counts |
| Store.Catalog.constructor | Program.cs:11-12 | a database created from nothing holds no books |
| Store.Catalog.Insert | Program.cs:55 | saving a new book appends it with an id no other book has |
| Store.Catalog.Import | Program.cs:47-59 | the import appends exactly the kept records, in document order, and keeps what was there |
| Store.Catalog.SeedIfEmpty | Program.cs:19-27 | an empty store receives exactly "Animal Farm" (1945) and "1984" (1948) by George Orwell, 999999 copies each, and a non-empty store is left alone |
| Store.Catalog.Startup | Program.cs:15-27 | a non-empty store is kept, an empty one gets the imported records or, when there are none, the two seed books, and the store ends non-empty |
| Store.Catalog.Buy | Program.cs:157-180 | `BuyBook` updates the store as `Stock.Buy` says and keeps ids unique |
| Store.Catalog.Restock | Program.cs:182-235 | `RestockBooks` updates the store as `Stock.Restock` says and keeps ids unique |
| Session.Step | Program.cs:77-103 | one pass of `EnterCommand`: the reply to one line and the store after it; see `Session.StepChangesOnlyOnStockMove` and `Session.StepKeepsCatalog` |
| Session.RunFrom | Program.cs:75-104 | a whole session from the k-th line on: every line's reply up to the first stop, and the store it leaves; see `Session.RunKeepsCatalog` and `Session.RunStopsOnce` |
| Session.StepChangesOnlyOnStockMove | Program.cs:81-103 | only a successful sale or restock changes the store: `get`, empty lines, unknown commands and refused commands leave it alone |
| Session.StepKeepsCatalog | Program.cs:81-103 | every command changes only stock counts |
| Session.RunKeepsCatalog | Program.cs:75-104 | over a whole session no book is added, removed, renumbered or renamed, and ids stay unique |
| Session.RunStopsOnce | Program.cs:75-104 | the session answers each line once, stops exactly once, at its last reply, and stops for end of input only after reading every line |
| Session.Dispatch | Program.cs:77-103 | one line is answered and applied to the store as `Session.Step` says |
| Session.Run | Program.cs:75-104 | the command loop leaves the store and gives the replies that `Session.RunFrom` says |
| Session.Start | Program.cs:9-30 | start-up keeps an existing catalogue as it is, fills an empty one with exactly the imported records or, when there are none, the two seed books, and leaves it non-empty with unique ids; the session then runs on that store as `Session.RunFrom` says, changing only stock counts |

## Left out

- BookContext.cs is Entity Framework configuration only. Persistence and change tracking are not modelled; the store is a list of books.
- Book.cs is not part of this model. Its fields are taken to be `int` for `Year` and `Count` (the model's `int32`), `int` for `Id`, and `string` for `Title` and `Author`.
- Books.NextId: ids are modelled as one past the largest id in use, which is how SQLite numbers rows of a table nothing is deleted from. The model assumes this; the store is not modelled.
- The HTTP request and the JSON parsing of the import (Program.cs:35-45, 59-70) are network I/O and a foreign library. The documents arrive as `Candidate` values. A request failing with `HttpRequestException` (Program.cs:67-70), or a response without `docs`, arrives as an empty list. Other transport or JSON failures (a timeout, malformed JSON, an empty `author_name` array) throw an exception nothing catches, which ends the program before seeding and before any session; they are not modelled.
- A `first_publish_year` that `int.Parse` rejects throws an exception the code does not catch. The model receives the year already parsed, so it does not model that crash.
- `DateTime.TryParse` (Program.cs:119) parses dates according to the current culture. It is the parameter `Env.parseDate`, from a string to an optional year.
- `new Random()` (Program.cs:186, 224) is two parameters, `Env.amountDraw` and `Env.indexDraw`, drawn per input line. Their ranges are those of `Next(1, 10)` and `Next(n)`.
- Console output is not modelled as text. Each line's answer is a `Session.Reply` value that carries what the message reports. The progress lines ("Getting books...", "Enter command:") are not modelled.
- `async Main` and the awaiting of the import are plumbing, not logic.
- Query.SortBy: SQLite's `ORDER BY` does not fix the order of rows that tie on the sort column. The model keeps tied books in store order.
- String order and `Contains` are ordinal over characters. The database's collation is not modelled.
- `StartsWith(string)` is culture-sensitive in .NET. The model compares ordinally.
- `ToLower()` is modelled on ASCII letters only. Culture-specific mappings, such as a Turkish capital dotted I lower-casing to `i`, are not modelled.
- `int.TryParse` is modelled with ASCII digits, `+` and `-` signs, and surrounding white space U+0009 to U+000D and U+0020. Culture-specific sign symbols and trailing NUL characters are not modelled.
- Store.Catalog.constructor: `EnsureCreated()` opens the persistent `books.db`, which holds the books of earlier runs ("Have data", Program.cs:17). The constructor models only a database created from nothing; an existing database is modelled by passing a non-empty store to `Session.Start`.
- Session.Run: in the C# code every command handler calls `EnterCommand` again, so each line adds stack frames and a long enough session can overflow the call stack unless the JIT turns these calls into tail calls. The model's loop has no such limit.

/** `EnterCommand`: read a line, dispatch on its first word, and read the
    next line only where the handler calls `EnterCommand` again. */
module Session {
  import opened Base
  import opened Integers
  import opened Text
  import opened Books
  import opened Query
  import Stock
  import opened Store

  /** What the engine takes from outside: `DateTime.TryParse` (the year of
      the parsed date), and the random draws of the k-th input line,
      `Next(1, 10)` and `Next(n)`. */
  datatype Env = Env(parseDate: string -> Option<int>, amountDraw: nat -> int32, indexDraw: (nat, nat) -> nat)

  /** The draws stay in the ranges `System.Random` promises. */
  ghost predicate DrawsInRange(env: Env)
  {
    && (forall k :: 1 <= env.amountDraw(k) <= 9)
    && (forall k, n :: n > 0 ==> env.indexDraw(k, n) < n)
  }

  /** Why the session ended: a handler returned without calling
      `EnterCommand`, or there was no line left to read (the C# code then
      dereferences the null line). */
  datatype Halt =
    | InvalidCommand                     // "Invalid command"
    | QueryFailed(queryError: QueryError)     // "Wrong format" / "Invalid order-by field."
    | RestockFailed(restockError: Stock.RestockError)
    | EndOfInput

  /** What the engine answers to one line. */
  datatype Reply =
    | Reprompt                           // "you didnt enter a command"
    | Listed(rows: seq<Book>)            // one "Id: ..., Count: ..." line per row
    | BuyReply(outcome: Stock.BuyOutcome)
    | RestockReply(result: Stock.RestockOutcome)
    | Stopped(halt: Halt)

  /** The k-th line of input and its effect on the store. */
  function Step(books: seq<Book>, line: string, k: nat, env: Env): (seq<Book>, Reply)
    requires DrawsInRange(env)
  {
    if line == "" then (books, Reprompt)
    else
      var words := Split(line, ' ');
      var command := words[0];
      var args := words[1..];
      if command == "get" then
        match Get(books, args, env.parseDate)
        case Success(rows) => (books, Listed(rows))
        case Failure(e) => (books, Stopped(QueryFailed(e)))
      else if command == "buy" then
        var (after, outcome) := Stock.Buy(books, args);
        (after, BuyReply(outcome))
      else if command == "restock" then
        var (after, r) := Stock.Restock(books, args, env.amountDraw(k), env.indexDraw(k, |books|));
        match r
        case Success(o) => (after, RestockReply(o))
        case Failure(e) => (after, Stopped(RestockFailed(e)))
      else (books, Stopped(InvalidCommand))
  }

  /** The session from line k on: the final books and the replies, the last
      of which says why it stopped. */
  function RunFrom(books: seq<Book>, lines: seq<string>, k: nat, env: Env): (seq<Book>, seq<Reply>)
    requires k <= |lines| && DrawsInRange(env)
    decreases |lines| - k
  {
    if k == |lines| then (books, [Stopped(EndOfInput)])
    else
      var (after, reply) := Step(books, lines[k], k, env);
      if reply.Stopped? then (after, [reply])
      else
        var (final, replies) := RunFrom(after, lines, k + 1, env);
        (final, [reply] + replies)
  }

  /** Only a sale or a restock changes the store: `get`, an empty line, an
      unknown command and every refused or failed command leave it as it was. */
  lemma StepChangesOnlyOnStockMove(books: seq<Book>, line: string, k: nat, env: Env)
    requires DrawsInRange(env)
    ensures var (after, reply) := Step(books, line, k, env);
      (!(reply.BuyReply? && reply.outcome.Bought?) && !(reply.RestockReply? && reply.result.Added?))
      ==> after == books
  {
    if line != "" {
      var words := Split(line, ' ');
      var args := words[1..];
      if words[0] == "restock" {
        Stock.RestockRejects(books, args, env.amountDraw(k), env.indexDraw(k, |books|));
      }
    }
  }

  lemma StepKeepsCatalog(books: seq<Book>, line: string, k: nat, env: Env)
    requires DrawsInRange(env)
    ensures Stock.SameCatalog(books, Step(books, line, k, env).0)
  {
    if line != "" {
      var words := Split(line, ' ');
      var args := words[1..];
      if words[0] == "buy" {
        Stock.BuyKeepsCatalog(books, args);
      } else if words[0] == "restock" {
        Stock.RestockKeepsCatalog(books, args, env.amountDraw(k), env.indexDraw(k, |books|));
      }
    }
  }

  /** However long the session, no book is added, removed, renumbered or
      renamed: only stock counts change, and ids stay unique. */
  lemma {:induction false} RunKeepsCatalog(books: seq<Book>, lines: seq<string>, k: nat, env: Env)
    requires k <= |lines| && DrawsInRange(env)
    requires UniqueIds(books)
    ensures Stock.SameCatalog(books, RunFrom(books, lines, k, env).0)
    ensures UniqueIds(RunFrom(books, lines, k, env).0)
    decreases |lines| - k
  {
    if k < |lines| {
      var (after, reply) := Step(books, lines[k], k, env);
      StepKeepsCatalog(books, lines[k], k, env);
      Stock.SameCatalogKeepsIds(books, after);
      if !reply.Stopped? {
        RunKeepsCatalog(after, lines, k + 1, env);
        Stock.SameCatalogTransitive(books, after, RunFrom(after, lines, k + 1, env).0);
      }
    }
  }

  /** The session answers each line it reads once and stops exactly once:
      the last reply, and only the last, is a stop, and it reads no line
      after the one that stopped it. */
  lemma {:induction false} RunStopsOnce(books: seq<Book>, lines: seq<string>, k: nat, env: Env)
    requires k <= |lines| && DrawsInRange(env)
    ensures var replies := RunFrom(books, lines, k, env).1;
      && 1 <= |replies| <= |lines| - k + 1
      && replies[|replies| - 1].Stopped?
      && (forall j :: 0 <= j < |replies| - 1 ==> !replies[j].Stopped?)
      && (replies[|replies| - 1] == Stopped(EndOfInput) <==> |replies| == |lines| - k + 1)
    decreases |lines| - k
  {
    if k < |lines| {
      var (after, reply) := Step(books, lines[k], k, env);
      if !reply.Stopped? {
        RunStopsOnce(after, lines, k + 1, env);
        var rest := RunFrom(after, lines, k + 1, env).1;
        assert RunFrom(books, lines, k, env).1 == [reply] + rest;
      } else {
        assert reply.halt != EndOfInput;
      }
    }
  }

  /** One pass of `EnterCommand` on one line. */
  method Dispatch(store: Catalog, line: string, k: nat, env: Env) returns (reply: Reply)
    requires store.Valid() && DrawsInRange(env)
    modifies store
    ensures store.Valid()
    ensures (store.books, reply) == Step(old(store.books), line, k, env)
  {
    if line == "" {
      return Reprompt;
    }
    var words := Split(line, ' ');
    var args := words[1..];
    if words[0] == "get" {
      var rows := Get(store.books, args, env.parseDate);
      reply := if rows.Success? then Listed(rows.value) else Stopped(QueryFailed(rows.error));
    } else if words[0] == "buy" {
      var outcome := store.Buy(args);
      reply := BuyReply(outcome);
    } else if words[0] == "restock" {
      var r := store.Restock(args, env.amountDraw(k), env.indexDraw(k, |store.books|));
      reply := if r.Success? then RestockReply(r.value) else Stopped(RestockFailed(r.error));
    } else {
      reply := Stopped(InvalidCommand);
    }
  }

  /** `EnterCommand` and the calls that re-enter it, written as a loop over
      the input lines. */
  method Run(store: Catalog, lines: seq<string>, env: Env) returns (replies: seq<Reply>)
    requires store.Valid() && DrawsInRange(env)
    modifies store
    ensures store.Valid()
    ensures (store.books, replies) == RunFrom(old(store.books), lines, 0, env)
  {
    replies := [];
    var k := 0;
    assert replies + RunFrom(store.books, lines, k, env).1 == RunFrom(store.books, lines, k, env).1;
    while k < |lines|
      invariant 0 <= k <= |lines|
      invariant store.Valid()
      invariant var (final, rest) := RunFrom(store.books, lines, k, env);
        RunFrom(old(store.books), lines, 0, env) == (final, replies + rest)
      decreases |lines| - k
    {
      var reply := Dispatch(store, lines[k], k, env);
      if reply.Stopped? {
        replies := replies + [reply];
        return;
      }
      ghost var rest := RunFrom(store.books, lines, k + 1, env).1;
      assert replies + ([reply] + rest) == (replies + [reply]) + rest;
      replies := replies + [reply];
      k := k + 1;
    }
    replies := replies + [Stopped(EndOfInput)];
  }

  /** `Main`: start-up, then the command session. `started` is the store as
      start-up leaves it, on which the session then runs. */
  method Start(store: Catalog, docs: seq<Candidate>, lines: seq<string>, env: Env)
    returns (replies: seq<Reply>, ghost started: seq<Book>)
    requires store.Valid() && DrawsInRange(env)
    modifies store
    ensures UniqueIds(started) && started != []
    ensures old(store.books) != [] ==> started == old(store.books)
    ensures old(store.books) == [] && Kept(docs) != [] ==> Drafts(started) == Kept(docs)
    ensures old(store.books) == [] && Kept(docs) == [] ==> Drafts(started) == Seeds
    ensures (store.books, replies) == RunFrom(started, lines, 0, env)
    ensures store.Valid() && store.books != []
    ensures Stock.SameCatalog(started, store.books)
  {
    store.Startup(docs);
    started := store.books;
    replies := Run(store, lines, env);
    RunKeepsCatalog(started, lines, 0, env);
  }
}

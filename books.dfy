/** The catalog's one entity, the store's view of it, and the records that
    create books: imported candidates and the two seed books. */
module Books {
  import opened Base
  import opened Integers

  /** A stored book; `id` is assigned by the store when the book is inserted. */
  datatype Book = Book(id: int, author: string, title: string, year: int32, count: int32)

  /** A `new Book { ... }` that has not been saved yet, so has no id. */
  datatype Draft = Draft(author: string, title: string, year: int32, count: int32)

  /** One imported document: `title`, the first of `author_name` and
      `first_publish_year`, each possibly missing. */
  datatype Candidate = Candidate(title: Option<string>, author: Option<string>, year: Option<int32>)

  function DraftOf(b: Book): Draft
  {
    Draft(b.author, b.title, b.year, b.count)
  }

  function Drafts(s: seq<Book>): (r: seq<Draft>)
    ensures |r| == |s|
  {
    if |s| == 0 then [] else Drafts(s[..|s| - 1]) + [DraftOf(s[|s| - 1])]
  }

  lemma DraftsAt(s: seq<Book>, i: nat)
    requires i < |s|
    ensures Drafts(s)[i] == DraftOf(s[i])
  {
    if i < |s| - 1 {
      DraftsAt(s[..|s| - 1], i);
    }
  }

  /** The store's primary key: no two books share an id. */
  ghost predicate UniqueIds(s: seq<Book>)
  {
    forall i, j :: 0 <= i < j < |s| ==> s[i].id != s[j].id
  }

  /** Changing a stock count keeps the ids unique. */
  lemma SetCountKeepsIds(s: seq<Book>, i: nat, count: int32)
    requires UniqueIds(s) && i < |s|
    ensures UniqueIds(s[i := s[i].(count := count)])
  {
    var t := s[i := s[i].(count := count)];
    forall a, b | 0 <= a < b < |t| ensures t[a].id != t[b].id {
      assert t[a].id == s[a].id && t[b].id == s[b].id;
    }
  }

  /** `db.Books.Find(id)`: the position of the book with that id, if any. */
  function IndexOf(s: seq<Book>, id: int): (r: Option<nat>)
    ensures r.Some? ==> r.value < |s| && s[r.value].id == id
    ensures r.None? <==> forall i :: 0 <= i < |s| ==> s[i].id != id
  {
    if |s| == 0 then None
    else if s[|s| - 1].id == id then Some(|s| - 1)
    else IndexOf(s[..|s| - 1], id)
  }

  lemma IndexOfUnique(s: seq<Book>, i: nat)
    requires UniqueIds(s) && i < |s|
    ensures IndexOf(s, s[i].id) == Some(i)
  {
  }

  /** The id the store gives the next inserted book: one past the largest
      id in use, as SQLite numbers rows of a table nobody deletes from. */
  function NextId(s: seq<Book>): (r: int)
    ensures r > 0 && forall i :: 0 <= i < |s| ==> s[i].id < r
  {
    if |s| == 0 then 1
    else
      var m := NextId(s[..|s| - 1]);
      assert forall i :: 0 <= i < |s| - 1 ==> s[i] == s[..|s| - 1][i];
      if s[|s| - 1].id < m then m else s[|s| - 1].id + 1
  }

  /** Import keeps a candidate only when it has both a title and an author. */
  predicate Complete(c: Candidate)
  {
    c.title.Some? && c.author.Some?
  }

  /** The drafts the import adds, in document order. */
  function Kept(docs: seq<Candidate>): seq<Draft>
  {
    if |docs| == 0 then []
    else
      var c := docs[|docs| - 1];
      Kept(docs[..|docs| - 1])
        + (if Complete(c) then [Draft(c.author.value, c.title.value, c.year.GetOr(0), 1)] else [])
  }

  /** Every kept draft comes from a complete candidate, with one copy in
      stock and year 0 when the document has none; every complete candidate
      is kept. */
  lemma {:induction false} KeptMembers(docs: seq<Candidate>)
    ensures forall d :: d in Kept(docs) <==>
      exists c :: c in docs && Complete(c) && d == Draft(c.author.value, c.title.value, c.year.GetOr(0), 1)
  {
    if |docs| > 0 {
      var init := docs[..|docs| - 1];
      KeptMembers(init);
      assert docs == init + [docs[|docs| - 1]];
    }
  }

  /** Importing two batches of documents one after the other keeps what
      importing them together keeps: the mapping works document by document. */
  lemma {:induction false} KeptConcat(a: seq<Candidate>, b: seq<Candidate>)
    ensures Kept(a + b) == Kept(a) + Kept(b)
  {
    if |b| == 0 {
      assert a + b == a;
    } else {
      var init := b[..|b| - 1];
      KeptConcat(a, init);
      assert (a + b)[..|a + b| - 1] == a + init;
      assert (a + b)[|a + b| - 1] == b[|b| - 1];
    }
  }

  /** One more document adds its record at the end when complete. */
  lemma KeptAppend(docs: seq<Candidate>, c: Candidate)
    ensures Kept(docs + [c]) == Kept(docs)
      + (if Complete(c) then [Draft(c.author.value, c.title.value, c.year.GetOr(0), 1)] else [])
  {
    assert (docs + [c])[..|docs|] == docs;
  }

  /** The two books added when the store is still empty after the import. */
  const Seeds: seq<Draft> := [
    Draft("George Orwell", "Animal Farm", 1945, 999999),
    Draft("George Orwell", "1984", 1948, 999999)
  ]
}

/** `load_books` and `load_quotes`: the gold tables as an in-memory state.
    Identity columns are counters; an `INSERT ... ON CONFLICT DO NOTHING`
    that hits a conflict still draws a value from its counter, as a
    PostgreSQL sequence does. */
module PostgresLoader {
  import opened Base
  import opened Text
  import BooksTransformer
  import QuotesTransformer

  type CleanBook = BooksTransformer.CleanBook
  type CleanQuote = QuotesTransformer.CleanQuote

  /** A row of `gold.authors`. */
  datatype Author = Author(id: nat, name: string)

  /** A row of `gold.quotes`. */
  datatype QuoteRow = QuoteRow(id: nat, text: string, authorId: nat)

  /** The gold schema: `books`, `authors` with its identity counter, `quotes`
      with its identity counter, and the `(quote_id, tag)` pairs of
      `quote_tags`. Rows are kept in insertion order. */
  datatype Gold = Gold(
    books: seq<CleanBook>,
    authors: seq<Author>,
    nextAuthorId: nat,
    quotes: seq<QuoteRow>,
    nextQuoteId: nat,
    quoteTags: set<(nat, string)>)

  function Names(authors: seq<Author>): set<string> {
    set a | a in authors :: a.name
  }

  function QuoteIds(quotes: seq<QuoteRow>): set<nat> {
    set q | q in quotes :: q.id
  }

  /** Author names are unique (the conflict target of the author insert) and
      ids increase along the table, below the counter. */
  predicate AuthorsValid(authors: seq<Author>, next: nat) {
    && (forall i, j :: 0 <= i < j < |authors| ==> authors[i].name != authors[j].name)
    && (forall i, j :: 0 <= i < j < |authors| ==> authors[i].id < authors[j].id)
    && (forall i :: 0 <= i < |authors| ==> 1 <= authors[i].id < next)
  }

  predicate QuotesValid(quotes: seq<QuoteRow>, next: nat) {
    && (forall i, j :: 0 <= i < j < |quotes| ==> quotes[i].id < quotes[j].id)
    && (forall i :: 0 <= i < |quotes| ==> 1 <= quotes[i].id < next)
  }

  /** The schema's constraints: the two tables above, every quote's author
      exists, every tag belongs to an existing quote, counters start at 1. */
  predicate Valid(g: Gold) {
    && 1 <= g.nextAuthorId && 1 <= g.nextQuoteId
    && AuthorsValid(g.authors, g.nextAuthorId)
    && QuotesValid(g.quotes, g.nextQuoteId)
    && (forall q :: q in g.quotes ==> exists a :: a in g.authors && a.id == q.authorId)
    && (forall p :: p in g.quoteTags ==> p.0 in QuoteIds(g.quotes))
  }

  // ---------------------------------------------------------------------
  // load_books
  // ---------------------------------------------------------------------

  /** `load_books(conn, books_rows, truncate)`: returns the number of rows
      given; `gold.books` ends as its old content (nothing after a
      truncation) followed by one row per input row, in order. */
  function LoadBooks(g: Gold, rows: seq<CleanBook>, truncate: bool): (r: (Gold, int))
    ensures r.1 == |rows|
    ensures r.0.books == (if truncate then [] else g.books) + rows
    ensures r.0.(books := g.books) == g
  {
    var start := if truncate then [] else g.books;
    if rows == [] then (g.(books := start), 0)
    else (g.(books := start + rows), |rows|)
  }

  /** With truncation, loading the same rows again leaves the same table. */
  lemma LoadBooksIdempotent(g: Gold, rows: seq<CleanBook>)
    ensures LoadBooks(LoadBooks(g, rows, true).0, rows, true) == LoadBooks(g, rows, true)
  {
  }

  /** Without truncation, every load appends: nothing is deduplicated. */
  lemma LoadBooksAppends(g: Gold, a: seq<CleanBook>, b: seq<CleanBook>)
    ensures LoadBooks(LoadBooks(g, a, false).0, b, false).0.books == g.books + a + b
  {
  }

  // ---------------------------------------------------------------------
  // load_quotes
  // ---------------------------------------------------------------------

  /** `TRUNCATE gold.quote_tags, gold.quotes, gold.authors RESTART IDENTITY`. */
  function Truncated(g: Gold): (t: Gold)
    ensures Valid(t)
  {
    g.(authors := [], nextAuthorId := 1, quotes := [], nextQuoteId := 1, quoteTags := {})
  }

  /** The author inserts, one per name in order: each draws an id; a name
      already present is not inserted again. */
  function AddAuthors(authors: seq<Author>, next: nat, names: seq<string>): (r: (seq<Author>, nat))
    decreases |names|
  {
    if |names| == 0 then (authors, next)
    else if names[0] in Names(authors) then AddAuthors(authors, next + 1, names[1..])
    else AddAuthors(authors + [Author(next, names[0])], next + 1, names[1..])
  }

  lemma NamesAppend(authors: seq<Author>, a: Author)
    ensures Names(authors + [a]) == Names(authors) + {a.name}
  {
    assert forall x :: x in authors + [a] <==> x in authors || x == a;
  }

  /** The author inserts only append. */
  lemma {:induction false} AddAuthorsKeepsPrefix(authors: seq<Author>, next: nat, names: seq<string>)
    ensures var out := AddAuthors(authors, next, names).0;
            |authors| <= |out| && out[..|authors|] == authors
    decreases |names|
  {
    if |names| > 0 {
      if names[0] in Names(authors) {
        AddAuthorsKeepsPrefix(authors, next + 1, names[1..]);
      } else {
        var grown := authors + [Author(next, names[0])];
        AddAuthorsKeepsPrefix(grown, next + 1, names[1..]);
        var out := AddAuthors(grown, next + 1, names[1..]).0;
        assert out[..|authors|] == out[..|grown|][..|authors|];
      }
    }
  }

  /** The author inserts keep the table valid, add exactly the given names
      and draw one id per name. */
  lemma AddAuthorsSpec(authors: seq<Author>, next: nat, names: seq<string>)
    requires 1 <= next && AuthorsValid(authors, next)
    ensures AddAuthors(authors, next, names).1 == next + |names|
    ensures AuthorsValid(AddAuthors(authors, next, names).0, next + |names|)
    ensures Names(AddAuthors(authors, next, names).0) == Names(authors) + set n | n in names
  {
    AddAuthorsValid(authors, next, names);
    AddAuthorsNames(authors, next, names);
  }

  lemma {:induction false} AddAuthorsValid(authors: seq<Author>, next: nat, names: seq<string>)
    requires 1 <= next && AuthorsValid(authors, next)
    ensures AddAuthors(authors, next, names).1 == next + |names|
    ensures AuthorsValid(AddAuthors(authors, next, names).0, next + |names|)
    decreases |names|
  {
    if |names| > 0 {
      var n := names[0];
      if n in Names(authors) {
        AuthorsValidRaise(authors, next);
        AddAuthorsValid(authors, next + 1, names[1..]);
      } else {
        AuthorsValidAppend(authors, next, n);
        AddAuthorsValid(authors + [Author(next, n)], next + 1, names[1..]);
      }
    }
  }

  lemma {:induction false} AddAuthorsNames(authors: seq<Author>, next: nat, names: seq<string>)
    ensures Names(AddAuthors(authors, next, names).0) == Names(authors) + set n | n in names
    decreases |names|
  {
    if |names| > 0 {
      var n := names[0];
      assert (set x | x in names) == {n} + set x | x in names[1..] by {
        assert forall x :: x in names <==> x == n || x in names[1..];
      }
      if n in Names(authors) {
        AddAuthorsNames(authors, next + 1, names[1..]);
      } else {
        NamesAppend(authors, Author(next, n));
        AddAuthorsNames(authors + [Author(next, n)], next + 1, names[1..]);
      }
    }
  }

  lemma AuthorsValidRaise(authors: seq<Author>, next: nat)
    requires AuthorsValid(authors, next)
    ensures AuthorsValid(authors, next + 1)
  {
  }

  /** Inserting a new name with the counter's value keeps the table valid. */
  lemma AuthorsValidAppend(authors: seq<Author>, next: nat, n: string)
    requires 1 <= next && AuthorsValid(authors, next) && n !in Names(authors)
    ensures AuthorsValid(authors + [Author(next, n)], next + 1)
    ensures Names(authors + [Author(next, n)]) == Names(authors) + {n}
  {
    NamesAppend(authors, Author(next, n));
    forall i | 0 <= i < |authors| ensures authors[i].name != n {
      assert authors[i] in authors;
    }
  }

  /** On a table without them, distinct sorted names get ids `next`,
      `next + 1`, ... in their order. */
  lemma {:induction false} AddAuthorsFresh(authors: seq<Author>, next: nat, names: seq<string>)
    requires StrictlySorted(names)
    requires forall n :: n in names ==> n !in Names(authors)
    ensures |AddAuthors(authors, next, names).0| == |authors| + |names|
    ensures forall i :: 0 <= i < |names| ==> AddAuthors(authors, next, names).0[|authors| + i] == Author(next + i, names[i])
    decreases |names|
  {
    if |names| > 0 {
      var grown := authors + [Author(next, names[0])];
      NamesAppend(authors, Author(next, names[0]));
      forall n | n in names[1..] ensures n !in Names(grown) {
        LessIrreflexive(names[0]);
      }
      AddAuthorsFresh(grown, next + 1, names[1..]);
      AddAuthorsKeepsPrefix(grown, next + 1, names[1..]);
      var out := AddAuthors(grown, next + 1, names[1..]).0;
      assert out[|authors|] == out[..|grown|][|authors|] == Author(next, names[0]);
      forall i | 0 < i < |names| ensures out[|authors| + i] == Author(next + i, names[i]) {
        assert out[|grown| + (i - 1)] == Author(next + 1 + (i - 1), names[1..][i - 1]);
      }
    }
  }

  /** `author_map[name]`, built from `SELECT author_id, name FROM gold.authors`. */
  function AuthorIdOf(authors: seq<Author>, name: string): (id: nat)
    requires name in Names(authors)
    ensures Author(id, name) in authors
  {
    if authors[0].name == name then authors[0].id
    else
      assert Names(authors) == {authors[0].name} + Names(authors[1..]) by {
        assert forall a :: a in authors <==> a == authors[0] || a in authors[1..];
      }
      AuthorIdOf(authors[1..], name)
  }

  /** The join `a.author_id = q.author_id`: the name of the author with `id`. */
  function AuthorNameOf(authors: seq<Author>, id: nat): (r: Option<string>)
    ensures r.Some? ==> Author(id, r.value) in authors
    ensures r.None? ==> forall a :: a in authors ==> a.id != id
  {
    if |authors| == 0 then None
    else if authors[0].id == id then Some(authors[0].name)
    else
      var r := AuthorNameOf(authors[1..], id);
      assert forall a :: a in authors ==> a == authors[0] || a in authors[1..];
      r
  }

  /** In a valid table the author with a given id, or a given name, is unique. */
  lemma AuthorLookups(authors: seq<Author>, next: nat, a: Author)
    requires AuthorsValid(authors, next) && a in authors
    ensures a.name in Names(authors)
    ensures AuthorIdOf(authors, a.name) == a.id
    ensures AuthorNameOf(authors, a.id) == Some(a.name)
  {
    var id := AuthorIdOf(authors, a.name);
    var b := Author(id, a.name);
    var i :| 0 <= i < |authors| && authors[i] == a;
    var j :| 0 <= j < |authors| && authors[j] == b;
    assert i == j;
    var n := AuthorNameOf(authors, a.id);
    var k :| 0 <= k < |authors| && authors[k] == Author(a.id, n.value);
    assert k == i;
  }

  /** The quote rows inserted for `rows`, one per row, drawing ids from `next`. */
  function NewQuotes(next: nat, authors: seq<Author>, rows: seq<CleanQuote>): (qs: seq<QuoteRow>)
    requires forall r :: r in rows ==> r.author in Names(authors)
    ensures |qs| == |rows|
    ensures forall k :: 0 <= k < |rows| ==>
              qs[k] == QuoteRow(next + k, rows[k].quoteText, AuthorIdOf(authors, rows[k].author))
    decreases |rows|
  {
    if |rows| == 0 then []
    else [QuoteRow(next, rows[0].quoteText, AuthorIdOf(authors, rows[0].author))] + NewQuotes(next + 1, authors, rows[1..])
  }

  /** `quote_map[(text, name)]`, built from the quotes joined with their
      authors: the dict keeps the last row of each pair, and the rows are
      taken in table order. */
  function QuoteIdOf(quotes: seq<QuoteRow>, authors: seq<Author>, text: string, name: string): (r: Option<nat>)
    ensures r.Some? ==> exists q :: q in quotes && q.id == r.value && q.text == text && AuthorNameOf(authors, q.authorId) == Some(name)
    ensures r.None? ==> forall q :: q in quotes ==> !(q.text == text && AuthorNameOf(authors, q.authorId) == Some(name))
  {
    if |quotes| == 0 then None
    else
      var q := quotes[|quotes| - 1];
      assert forall x :: x in quotes <==> x == q || x in quotes[..|quotes| - 1];
      if q.text == text && AuthorNameOf(authors, q.authorId) == Some(name) then Some(q.id)
      else QuoteIdOf(quotes[..|quotes| - 1], authors, text, name)
  }

  /** The `(quote_id, tag)` pairs of the tag insert. */
  function TagPairs(rows: seq<CleanQuote>, quotes: seq<QuoteRow>, authors: seq<Author>): set<(nat, string)>
    requires forall r :: r in rows ==> QuoteIdOf(quotes, authors, r.quoteText, r.author).Some?
  {
    set r, t | r in rows && t in r.tags :: (QuoteIdOf(quotes, authors, r.quoteText, r.author).value, t)
  }

  /** The authors of the rows, as the set comprehension collects them. */
  function RowAuthors(rows: seq<CleanQuote>): (ns: seq<string>)
    ensures forall n :: n in ns <==> exists r :: r in rows && r.author == n
  {
    if |rows| == 0 then []
    else
      assert forall r :: r in rows <==> r == rows[0] || r in rows[1..];
      [rows[0].author] + RowAuthors(rows[1..])
  }

  /** The table state after the author and quote inserts, before the tags. */
  function InsertAuthorsAndQuotes(g0: Gold, rows: seq<CleanQuote>): (g1: Gold)
    requires Valid(g0)
    ensures forall r :: r in rows ==> r.author in Names(g1.authors)
  {
    var names := SortedDistinct(RowAuthors(rows));
    AddAuthorsSpec(g0.authors, g0.nextAuthorId, names);
    var authors := AddAuthors(g0.authors, g0.nextAuthorId, names).0;
    var nextA := AddAuthors(g0.authors, g0.nextAuthorId, names).1;
    assert forall r :: r in rows ==> r.author in names;
    var quotes := g0.quotes + NewQuotes(g0.nextQuoteId, authors, rows);
    g0.(authors := authors, nextAuthorId := nextA, quotes := quotes, nextQuoteId := g0.nextQuoteId + |rows|)
  }

  /** After the inserts, every row's own quote is found by the lookup, so the
      tag insert never misses a key. */
  lemma {:induction false} InsertedQuotesFound(g0: Gold, rows: seq<CleanQuote>)
    requires Valid(g0)
    ensures var g1 := InsertAuthorsAndQuotes(g0, rows);
            forall r :: r in rows ==> QuoteIdOf(g1.quotes, g1.authors, r.quoteText, r.author).Some?
  {
    var g1 := InsertAuthorsAndQuotes(g0, rows);
    var names := SortedDistinct(RowAuthors(rows));
    AddAuthorsSpec(g0.authors, g0.nextAuthorId, names);
    var authors := AddAuthors(g0.authors, g0.nextAuthorId, names).0;
    var news := NewQuotes(g0.nextQuoteId, authors, rows);
    assert g1.authors == authors && g1.quotes == g0.quotes + news;
    assert AuthorsValid(authors, g1.nextAuthorId);
    forall r | r in rows ensures QuoteIdOf(g1.quotes, authors, r.quoteText, r.author).Some? {
      var k :| 0 <= k < |rows| && rows[k] == r;
      var q := news[k];
      assert q in g1.quotes;
      QuoteFound(g1.quotes, authors, g1.nextAuthorId, q, r.author);
    }
  }

  /** A quote whose author is in a valid table is found under its text and
      its author's name. */
  lemma QuoteFound(quotes: seq<QuoteRow>, authors: seq<Author>, next: nat, q: QuoteRow, name: string)
    requires AuthorsValid(authors, next) && q in quotes && Author(q.authorId, name) in authors
    ensures QuoteIdOf(quotes, authors, q.text, name).Some?
  {
    AuthorLookups(authors, next, Author(q.authorId, name));
  }

  /** The state the inserts start from. */
  function Start(g: Gold, truncate: bool): Gold {
    if truncate then Truncated(g) else g
  }

  /** `load_quotes(conn, quotes_rows, truncate)`: returns the new state and
      the number of rows. The truncation, when asked for, happens before
      the empty-input test. */
  function LoadQuotes(g: Gold, rows: seq<CleanQuote>, truncate: bool): (r: (Gold, int))
    requires Valid(g)
    ensures r.1 == |rows|
  {
    var g0 := Start(g, truncate);
    if rows == [] then (g0, 0)
    else
      var g1 := InsertAuthorsAndQuotes(g0, rows);
      InsertedQuotesFound(g0, rows);
      (g1.(quoteTags := g0.quoteTags + TagPairs(rows, g1.quotes, g1.authors)), |rows|)
  }

  /** An empty input still truncates, then returns 0 with nothing inserted. */
  lemma LoadQuotesEmpty(g: Gold, truncate: bool)
    requires Valid(g)
    ensures LoadQuotes(g, [], truncate) == (Start(g, truncate), 0)
    ensures truncate ==> LoadQuotes(g, [], truncate).0.quotes == [] && LoadQuotes(g, [], truncate).0.authors == []
  {
  }

  /** The author inserts: the authors table keeps its rows, stays valid, and
      gains exactly the row authors not yet present. */
  lemma InsertedAuthors(g0: Gold, rows: seq<CleanQuote>)
    requires Valid(g0)
    ensures var g1 := InsertAuthorsAndQuotes(g0, rows);
            && 1 <= g1.nextAuthorId
            && AuthorsValid(g1.authors, g1.nextAuthorId)
            && |g0.authors| <= |g1.authors| && g1.authors[..|g0.authors|] == g0.authors
            && Names(g1.authors) == Names(g0.authors) + (set r | r in rows :: r.author)
  {
    var names := SortedDistinct(RowAuthors(rows));
    AddAuthorsSpec(g0.authors, g0.nextAuthorId, names);
    AddAuthorsKeepsPrefix(g0.authors, g0.nextAuthorId, names);
    RowAuthorSet(rows);
  }

  /** The names inserted are exactly the rows' authors. */
  lemma RowAuthorSet(rows: seq<CleanQuote>)
    ensures (set n | n in SortedDistinct(RowAuthors(rows))) == (set r | r in rows :: r.author)
  {
  }

  /** `after` is `before` followed by one quote row per input row, in
      order, with ids drawn from `next`, the row's text, and an author id
      that `authors` maps to the row's author. */
  predicate QuotesAppended(before: seq<QuoteRow>, next: nat, after: seq<QuoteRow>, authors: seq<Author>, rows: seq<CleanQuote>) {
    && |after| == |before| + |rows|
    && after[..|before|] == before
    && forall k :: 0 <= k < |rows| ==>
         && after[|before| + k].id == next + k
         && after[|before| + k].text == rows[k].quoteText
         && AuthorNameOf(authors, after[|before| + k].authorId) == Some(rows[k].author)
  }

  /** In a valid authors table holding every row author, the new quote rows
      are appended as `QuotesAppended` describes. */
  lemma NewQuotesAppended(before: seq<QuoteRow>, next: nat, authors: seq<Author>, nextA: nat, rows: seq<CleanQuote>)
    requires AuthorsValid(authors, nextA)
    requires forall r :: r in rows ==> r.author in Names(authors)
    ensures QuotesAppended(before, next, before + NewQuotes(next, authors, rows), authors, rows)
  {
    var qs := NewQuotes(next, authors, rows);
    var after := before + qs;
    forall k | 0 <= k < |rows|
      ensures after[|before| + k] == qs[k]
      ensures AuthorNameOf(authors, qs[k].authorId) == Some(rows[k].author)
    {
      assert rows[k] in rows;
      AuthorLookups(authors, nextA, Author(qs[k].authorId, rows[k].author));
    }
    assert after[..|before|] == before;
  }

  /** The quote inserts: one row per input row, in order, after the old
      rows, with ids drawn from the counter, the row's text and an author id
      naming the row's author. Duplicate input rows give duplicate quote
      rows. */
  lemma InsertedQuotes(g0: Gold, rows: seq<CleanQuote>)
    requires Valid(g0)
    ensures var g1 := InsertAuthorsAndQuotes(g0, rows);
            && QuotesAppended(g0.quotes, g0.nextQuoteId, g1.quotes, g1.authors, rows)
            && g1.nextQuoteId == g0.nextQuoteId + |rows|
            && g1.books == g0.books && g1.quoteTags == g0.quoteTags
  {
    var g1 := InsertAuthorsAndQuotes(g0, rows);
    InsertedAuthors(g0, rows);
    NewQuotesAppended(g0.quotes, g0.nextQuoteId, g1.authors, g1.nextAuthorId, rows);
  }

  /** Appending rows with fresh increasing ids keeps the quotes table valid. */
  lemma QuotesValidExtend(before: seq<QuoteRow>, next: nat, added: seq<QuoteRow>)
    requires 1 <= next && QuotesValid(before, next)
    requires forall k :: 0 <= k < |added| ==> added[k].id == next + k
    ensures QuotesValid(before + added, next + |added|)
  {
    var all := before + added;
    forall i, j | 0 <= i < j < |all| ensures all[i].id < all[j].id {
      if j < |before| {
        assert all[i] == before[i] && all[j] == before[j];
      } else if i < |before| {
        assert all[i] == before[i];
      }
    }
    forall i | 0 <= i < |all| ensures 1 <= all[i].id < next + |added| {
      if i < |before| {
        assert all[i] == before[i];
      }
    }
  }

  /** Every quote, old or new, names an existing author. */
  lemma {:induction false} InsertedQuotesHaveAuthors(g0: Gold, rows: seq<CleanQuote>)
    requires Valid(g0)
    ensures var g1 := InsertAuthorsAndQuotes(g0, rows);
            forall q :: q in g1.quotes ==> exists a :: a in g1.authors && a.id == q.authorId
  {
    var g1 := InsertAuthorsAndQuotes(g0, rows);
    var names := SortedDistinct(RowAuthors(rows));
    AddAuthorsKeepsPrefix(g0.authors, g0.nextAuthorId, names);
    var added := NewQuotes(g0.nextQuoteId, g1.authors, rows);
    assert g1.quotes == g0.quotes + added;
    forall q | q in g1.quotes ensures exists a :: a in g1.authors && a.id == q.authorId {
      if q in g0.quotes {
        var a :| a in g0.authors && a.id == q.authorId;
        var j :| 0 <= j < |g0.authors| && g0.authors[j] == a;
        assert g1.authors[..|g0.authors|][j] == a;
        assert g1.authors[j] == a;
      } else {
        var k :| 0 <= k < |added| && added[k] == q;
        assert rows[k] in rows;
        assert Author(q.authorId, rows[k].author) in g1.authors;
      }
    }
  }

  /** The old tags still point at existing quotes. */
  lemma {:induction false} InsertedQuotesKeepTags(g0: Gold, rows: seq<CleanQuote>)
    requires Valid(g0)
    ensures var g1 := InsertAuthorsAndQuotes(g0, rows);
            forall p :: p in g1.quoteTags ==> p.0 in QuoteIds(g1.quotes)
  {
    var g1 := InsertAuthorsAndQuotes(g0, rows);
    InsertedQuotes(g0, rows);
    forall p | p in g1.quoteTags ensures p.0 in QuoteIds(g1.quotes) {
      var q :| q in g0.quotes && q.id == p.0;
      var i :| 0 <= i < |g0.quotes| && g0.quotes[i] == q;
      assert g1.quotes[..|g0.quotes|][i] == q;
      assert g1.quotes[i] == q;
    }
  }

  /** The inserts keep the schema's constraints. */
  lemma {:induction false} InsertAuthorsAndQuotesValid(g0: Gold, rows: seq<CleanQuote>)
    requires Valid(g0)
    ensures Valid(InsertAuthorsAndQuotes(g0, rows))
  {
    var g1 := InsertAuthorsAndQuotes(g0, rows);
    InsertedAuthors(g0, rows);
    InsertedQuotes(g0, rows);
    var added := g1.quotes[|g0.quotes|..];
    assert g1.quotes == g0.quotes + added;
    forall k | 0 <= k < |added| ensures added[k].id == g0.nextQuoteId + k {
      assert added[k] == g1.quotes[|g0.quotes| + k];
    }
    QuotesValidExtend(g0.quotes, g0.nextQuoteId, added);
    InsertedQuotesHaveAuthors(g0, rows);
    InsertedQuotesKeepTags(g0, rows);
  }

  /** `load_quotes` on a non-empty input is the inserts followed by the tag
      insert. */
  lemma LoadQuotesShape(g: Gold, rows: seq<CleanQuote>, truncate: bool)
    requires Valid(g) && rows != []
    ensures LoadQuotes(g, rows, truncate).0.(quoteTags := Start(g, truncate).quoteTags)
            == InsertAuthorsAndQuotes(Start(g, truncate), rows)
  {
  }

  /** `load_quotes` keeps the schema's constraints. */
  lemma LoadQuotesValid(g: Gold, rows: seq<CleanQuote>, truncate: bool)
    requires Valid(g)
    ensures Valid(LoadQuotes(g, rows, truncate).0)
  {
    var g0 := Start(g, truncate);
    if rows != [] {
      InsertAuthorsAndQuotesValid(g0, rows);
      var g1 := InsertAuthorsAndQuotes(g0, rows);
      InsertedQuotesFound(g0, rows);
      var tags := TagPairs(rows, g1.quotes, g1.authors);
      forall p | p in tags ensures p.0 in QuoteIds(g1.quotes) {
        var r, t :| r in rows && t in r.tags && p == (QuoteIdOf(g1.quotes, g1.authors, r.quoteText, r.author).value, t);
      }
    }
  }

  /** After `load_quotes`, the tag table holds the old pairs and, for each
      input row and each of its tags, the pair of that tag with the id the
      lookup finds for the row's text and author; nothing else. That id is
      the id of a stored quote with the row's text and author, so rows that
      share text and author attach their tags to one quote, and a pair given
      twice is stored once. */
  lemma LoadQuotesTags(g: Gold, rows: seq<CleanQuote>, truncate: bool)
    requires Valid(g) && rows != []
    ensures var g' := LoadQuotes(g, rows, truncate).0;
            forall id, t ::
              (id, t) in g'.quoteTags <==>
                || (id, t) in Start(g, truncate).quoteTags
                || exists r :: r in rows && t in r.tags && QuoteIdOf(g'.quotes, g'.authors, r.quoteText, r.author) == Some(id)
    ensures var g' := LoadQuotes(g, rows, truncate).0;
            forall r :: r in rows ==>
              exists q :: q in g'.quotes && q.text == r.quoteText && AuthorNameOf(g'.authors, q.authorId) == Some(r.author)
                       && QuoteIdOf(g'.quotes, g'.authors, r.quoteText, r.author) == Some(q.id)
  {
    var g0 := Start(g, truncate);
    InsertedQuotesFound(g0, rows);
  }

  /** After `load_quotes` the books are untouched and the authors table
      holds the names it held after the optional truncation plus the row
      authors. */
  lemma LoadQuotesAuthors(g: Gold, rows: seq<CleanQuote>, truncate: bool)
    requires Valid(g) && rows != []
    ensures var g' := LoadQuotes(g, rows, truncate).0;
            && g'.books == g.books
            && Names(g'.authors) == Names(Start(g, truncate).authors) + (set r | r in rows :: r.author)
  {
    InsertedAuthors(Start(g, truncate), rows);
    LoadQuotesShape(g, rows, truncate);
  }

  /** After `load_quotes` the quotes table holds its rows after the optional
      truncation followed by one row per input row, in order, with ids drawn
      from the counter, the row's text, and an author id naming the row's
      author. Duplicate input rows give duplicate quote rows. */
  lemma LoadQuotesQuotes(g: Gold, rows: seq<CleanQuote>, truncate: bool)
    requires Valid(g) && rows != []
    ensures var g' := LoadQuotes(g, rows, truncate).0;
            var g0 := Start(g, truncate);
            QuotesAppended(g0.quotes, g0.nextQuoteId, g'.quotes, g'.authors, rows)
  {
    InsertedQuotes(Start(g, truncate), rows);
    LoadQuotesShape(g, rows, truncate);
  }

  /** With truncation the authors table is rebuilt from scratch: the
      distinct row authors in sorted order, with ids 1, 2, ... */
  lemma LoadQuotesTruncatedAuthors(g: Gold, rows: seq<CleanQuote>)
    requires Valid(g) && rows != []
    ensures var authors := LoadQuotes(g, rows, true).0.authors;
            var names := SortedDistinct(RowAuthors(rows));
            && |authors| == |names|
            && forall i :: 0 <= i < |names| ==> authors[i] == Author(i + 1, names[i])
  {
    var names := SortedDistinct(RowAuthors(rows));
    AddAuthorsFresh([], 1, names);
  }

  /** With truncation, loading the same rows twice leaves the same tables as
      loading them once: the truncation restarts the identities. */
  lemma LoadQuotesIdempotent(g: Gold, rows: seq<CleanQuote>)
    requires Valid(g)
    ensures Valid(LoadQuotes(g, rows, true).0)
    ensures LoadQuotes(LoadQuotes(g, rows, true).0, rows, true) == LoadQuotes(g, rows, true)
  {
    LoadQuotesValid(g, rows, true);
    var g' := LoadQuotes(g, rows, true).0;
    assert Truncated(g') == Truncated(g);
  }
}

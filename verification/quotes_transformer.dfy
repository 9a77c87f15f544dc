/** `transform_quotes`: trims quote text and author, drops rows missing
    either, and keeps only the first row of every (text, author) pair. */
module QuotesTransformer {
  import opened Base
  import opened Text

  /** A quote as the scraper emits it; any key may be absent or None. */
  datatype RawQuote = RawQuote(
    quoteText: Option<string>,
    author: Option<string>,
    tags: Option<seq<string>>,
    source: Option<string>,
    pageUrl: Option<string>)

  /** A cleaned quote. Its three fields are the three keys of the output dict;
      `source` and `page_url` have no counterpart. */
  datatype CleanQuote = CleanQuote(quoteText: string, author: string, tags: seq<string>)

  /** The deduplication key: trimmed text and trimmed author. */
  type QuoteKey = (string, string)

  function Key(c: CleanQuote): QuoteKey {
    (c.quoteText, c.author)
  }

  /** The three values the loop computes for a row before testing it: text
      and author trimmed, and a missing or None tag list read as `[]`. */
  function Prepare(r: RawQuote): (c: CleanQuote)
    ensures IsStripped(c.quoteText) && IsStripped(c.author)
    ensures c.quoteText == "" <==> forall i :: 0 <= i < |r.quoteText.GetOr("")| ==> IsSpace(r.quoteText.GetOr("")[i])
    ensures c.author == "" <==> forall i :: 0 <= i < |r.author.GetOr("")| ==> IsSpace(r.author.GetOr("")[i])
  {
    var text, author := r.quoteText.GetOr(""), r.author.GetOr("");
    StripIsStripped(text);
    StripIsStripped(author);
    StripEmptyIff(text);
    StripEmptyIff(author);
    CleanQuote(Strip(text), Strip(author), r.tags.GetOr([]))
  }

  /** The emptiness test: a prepared row is kept only with text and author. */
  predicate HasTextAndAuthor(c: CleanQuote) {
    c.quoteText != "" && c.author != ""
  }

  /** What every emitted record satisfies: text and author non-empty and trimmed. */
  predicate WellFormed(c: CleanQuote) {
    HasTextAndAuthor(c) && IsStripped(c.quoteText) && IsStripped(c.author)
  }

  function Prepared(rows: seq<RawQuote>): (cs: seq<CleanQuote>)
    ensures |cs| == |rows|
    ensures forall k :: 0 <= k < |rows| ==> cs[k] == Prepare(rows[k])
    ensures forall c :: c in cs ==> IsStripped(c.quoteText) && IsStripped(c.author)
  {
    if |rows| == 0 then [] else [Prepare(rows[0])] + Prepared(rows[1..])
  }

  lemma PreparedAppend(a: seq<RawQuote>, b: seq<RawQuote>)
    ensures Prepared(a + b) == Prepared(a) + Prepared(b)
  {
    var l, r := Prepared(a + b), Prepared(a) + Prepared(b);
    forall k | 0 <= k < |l| ensures l[k] == r[k] {
      if k < |a| {
        assert (a + b)[k] == a[k];
      } else {
        assert (a + b)[k] == b[k - |a|];
      }
    }
  }

  predicate DistinctKeys(cs: seq<CleanQuote>) {
    forall i, j :: 0 <= i < j < |cs| ==> Key(cs[i]) != Key(cs[j])
  }

  function KeySet(cs: seq<CleanQuote>): set<QuoteKey> {
    if |cs| == 0 then {} else {Key(cs[0])} + KeySet(cs[1..])
  }

  /** Keys of the candidates that pass the emptiness test. */
  function KeptKeys(cs: seq<CleanQuote>): set<QuoteKey> {
    if |cs| == 0 then {}
    else (if HasTextAndAuthor(cs[0]) then {Key(cs[0])} else {}) + KeptKeys(cs[1..])
  }

  lemma {:induction false} KeptKeysMember(cs: seq<CleanQuote>, k: QuoteKey)
    ensures k in KeptKeys(cs) <==> exists j :: 0 <= j < |cs| && HasTextAndAuthor(cs[j]) && Key(cs[j]) == k
  {
    if |cs| > 0 {
      KeptKeysMember(cs[1..], k);
      assert forall j :: 0 < j < |cs| ==> cs[1..][j - 1] == cs[j];
    }
  }

  lemma {:induction false} KeySetMember(cs: seq<CleanQuote>, c: CleanQuote)
    requires c in cs
    ensures Key(c) in KeySet(cs)
  {
    if cs[0] != c {
      KeySetMember(cs[1..], c);
    }
  }

  /** The loop of `transform_quotes` over prepared rows, with `seen` holding
      the keys emitted so far. */
  function Dedup(cs: seq<CleanQuote>, seen: set<QuoteKey>): (out: seq<CleanQuote>)
    ensures |out| <= |cs|
  {
    if |cs| == 0 then []
    else if !HasTextAndAuthor(cs[0]) || Key(cs[0]) in seen then Dedup(cs[1..], seen)
    else [cs[0]] + Dedup(cs[1..], seen + {Key(cs[0])})
  }

  /** What `Dedup` emits: candidates that pass the emptiness test, one per
      key not yet seen, no key twice. */
  lemma {:induction false} DedupSound(cs: seq<CleanQuote>, seen: set<QuoteKey>)
    ensures forall c :: c in Dedup(cs, seen) ==> c in cs && HasTextAndAuthor(c) && Key(c) !in seen
    ensures DistinctKeys(Dedup(cs, seen))
    ensures KeySet(Dedup(cs, seen)) == KeptKeys(cs) - seen
  {
    if |cs| > 0 {
      var c := cs[0];
      if !HasTextAndAuthor(c) || Key(c) in seen {
        DedupSound(cs[1..], seen);
      } else {
        var rest := Dedup(cs[1..], seen + {Key(c)});
        DedupSound(cs[1..], seen + {Key(c)});
        assert Dedup(cs, seen) == [c] + rest;
        assert ([c] + rest)[1..] == rest;
      }
    }
  }

  /** Keys of the rows that pass the emptiness test. */
  function ValidKeys(rows: seq<RawQuote>): set<QuoteKey> {
    KeptKeys(Prepared(rows))
  }

  /** `transform_quotes(raw_rows)`: never longer than its input, every record
      trimmed with text and author, no (text, author) pair twice, and exactly
      the pairs of the rows that pass the emptiness test. */
  function TransformQuotes(rows: seq<RawQuote>): (out: seq<CleanQuote>)
    ensures |out| <= |rows|
    ensures forall c :: c in out ==> WellFormed(c)
    ensures DistinctKeys(out)
    ensures KeySet(out) == ValidKeys(rows)
  {
    DedupSound(Prepared(rows), {});
    Dedup(Prepared(rows), {})
  }

  /** Later candidates never displace what a prefix produced: the output for
      `a + b` is the output for `a` followed by what `b` adds beyond the keys
      `a` already contributed. */
  lemma {:induction false} DedupAppend(a: seq<CleanQuote>, b: seq<CleanQuote>, seen: set<QuoteKey>)
    ensures Dedup(a + b, seen) == Dedup(a, seen) + Dedup(b, seen + KeptKeys(a))
  {
    if |a| == 0 {
      assert a + b == b;
      assert seen + KeptKeys(a) == seen;
    } else {
      assert (a + b)[0] == a[0] && (a + b)[1..] == a[1..] + b;
      var c := a[0];
      if !HasTextAndAuthor(c) || Key(c) in seen {
        DedupAppend(a[1..], b, seen);
        assert seen + KeptKeys(a) == seen + KeptKeys(a[1..]);
      } else {
        DedupAppend(a[1..], b, seen + {Key(c)});
        assert seen + {Key(c)} + KeptKeys(a[1..]) == seen + KeptKeys(a);
      }
    }
  }

  /** The transform is order-preserving: rows after a prefix only append to
      what the prefix produced, and only with pairs the prefix did not have. */
  lemma TransformQuotesAppend(a: seq<RawQuote>, b: seq<RawQuote>)
    ensures TransformQuotes(a + b) == TransformQuotes(a) + Dedup(Prepared(b), ValidKeys(a))
  {
    PreparedAppend(a, b);
    DedupAppend(Prepared(a), Prepared(b), {});
    assert {} + KeptKeys(Prepared(a)) == ValidKeys(a);
  }

  /** Row `i` passes the emptiness test and no earlier row that passes it has
      the same trimmed (text, author). */
  predicate IsFirstOccurrence(rows: seq<RawQuote>, i: int) {
    && 0 <= i < |rows|
    && HasTextAndAuthor(Prepare(rows[i]))
    && forall j :: 0 <= j < i && HasTextAndAuthor(Prepare(rows[j])) ==> Key(Prepare(rows[j])) != Key(Prepare(rows[i]))
  }

  /** The first row of every (text, author) pair is emitted, trimmed. */
  lemma FirstOccurrenceKept(rows: seq<RawQuote>, i: int)
    requires IsFirstOccurrence(rows, i)
    ensures Prepare(rows[i]) in TransformQuotes(rows)
  {
    var pre, post := rows[..i], rows[i..];
    assert rows == pre + post;
    TransformQuotesAppend(pre, post);
    var c := Prepare(rows[i]);
    KeptKeysMember(Prepared(pre), Key(c));
    assert Key(c) !in ValidKeys(pre);
    assert Prepared(post)[0] == c;
  }

  /** Every emitted record is the trimmed first occurrence of its pair, so a
      later row with the same trimmed text and author is never the one kept. */
  lemma OutputIsFirstOccurrence(rows: seq<RawQuote>, c: CleanQuote)
    requires c in TransformQuotes(rows)
    ensures exists i :: IsFirstOccurrence(rows, i) && Prepare(rows[i]) == c
  {
    var out := TransformQuotes(rows);
    KeySetMember(out, c);
    KeptKeysMember(Prepared(rows), Key(c));
    var j :| 0 <= j < |rows| && HasTextAndAuthor(Prepared(rows)[j]) && Key(Prepared(rows)[j]) == Key(c);
    var i := FirstWithKey(rows, Key(c), j);
    FirstOccurrenceKept(rows, i);
    var p :| 0 <= p < |out| && out[p] == Prepare(rows[i]);
    var q :| 0 <= q < |out| && out[q] == c;
    assert Key(out[p]) == Key(out[q]);
  }

  /** The least index of a row with pair `k` that passes the emptiness test,
      given one such row `j`. */
  ghost function FirstWithKey(rows: seq<RawQuote>, k: QuoteKey, j: nat): (i: nat)
    requires j < |rows| && HasTextAndAuthor(Prepare(rows[j])) && Key(Prepare(rows[j])) == k
    ensures i <= j && IsFirstOccurrence(rows, i) && Key(Prepare(rows[i])) == k
    decreases j
  {
    if exists m :: 0 <= m < j && HasTextAndAuthor(Prepare(rows[m])) && Key(Prepare(rows[m])) == k then
      var m :| 0 <= m < j && HasTextAndAuthor(Prepare(rows[m])) && Key(Prepare(rows[m])) == k;
      FirstWithKey(rows, k, m)
    else
      j
  }

  /** A cleaned record read back as a raw row. */
  function AsRaw(c: CleanQuote): RawQuote {
    RawQuote(Some(c.quoteText), Some(c.author), Some(c.tags), None, None)
  }

  function AsRaws(cs: seq<CleanQuote>): (rs: seq<RawQuote>)
    ensures |rs| == |cs|
    ensures forall k :: 0 <= k < |cs| ==> rs[k] == AsRaw(cs[k])
  {
    if |cs| == 0 then [] else [AsRaw(cs[0])] + AsRaws(cs[1..])
  }

  /** A well-formed record read back as a row prepares to itself. */
  lemma PrepareAsRaw(c: CleanQuote)
    requires WellFormed(c)
    ensures Prepare(AsRaw(c)) == c
  {
    StrippedFixed(c.quoteText);
    StrippedFixed(c.author);
  }

  lemma {:induction false} DedupOfDistinct(cs: seq<CleanQuote>, seen: set<QuoteKey>)
    requires forall c :: c in cs ==> HasTextAndAuthor(c) && Key(c) !in seen
    requires DistinctKeys(cs)
    ensures Dedup(cs, seen) == cs
  {
    if |cs| > 0 {
      var c := cs[0];
      assert c in cs;
      assert forall d :: d in cs[1..] ==> Key(d) != Key(c) by {
        forall d | d in cs[1..] ensures Key(d) != Key(c) {
          var k :| 0 <= k < |cs[1..]| && cs[1..][k] == d;
          assert cs[k + 1] == d;
        }
      }
      DedupOfDistinct(cs[1..], seen + {Key(c)});
    }
  }

  /** Running the transform again on its own output (read back as rows)
      returns that output unchanged. */
  lemma TransformQuotesIdempotent(rows: seq<RawQuote>)
    ensures TransformQuotes(AsRaws(TransformQuotes(rows))) == TransformQuotes(rows)
  {
    var out := TransformQuotes(rows);
    forall k | 0 <= k < |out| ensures Prepared(AsRaws(out))[k] == out[k] {
      assert out[k] in out;
      PrepareAsRaw(out[k]);
    }
    assert Prepared(AsRaws(out)) == out;
    DedupOfDistinct(out, {});
  }

  /** A visible character with one space before or after it strips to itself. */
  lemma StripPadded(c: char)
    requires '!' <= c <= '~'
    ensures Strip([c]) == [c] && Strip([' ', c]) == [c] && Strip([c, ' ']) == [c]
  {
    VisibleAsciiNotSpace(c);
    AsciiSpaceIsSpace();
    StrippedFixed([c]);
    var l, r := [' ', c], [c, ' '];
    assert l[1..] == [c];
    assert TrimStart(l, WhiteSpace) == TrimStart([c], WhiteSpace);
    assert TrimStart(r, WhiteSpace) == r;
    assert r[..1] == [c];
    assert TrimEnd(r, WhiteSpace) == TrimEnd([c], WhiteSpace);
  }

  /** Deduplication compares trimmed values: two rows whose text and author
      strip to the same non-empty strings are one quote, and the first row's
      tags are the ones kept. With `StripPadded`, `" a"` and `"a"` are such
      texts. */
  lemma TrimmedDuplicatesCollapse(t1: string, a1: string, t2: string, a2: string, tags1: seq<string>, tags2: seq<string>)
    requires Strip(t1) == Strip(t2) != "" && Strip(a1) == Strip(a2) != ""
    ensures TransformQuotes([
              RawQuote(Some(t1), Some(a1), Some(tags1), None, None),
              RawQuote(Some(t2), Some(a2), Some(tags2), None, None)])
            == [CleanQuote(Strip(t1), Strip(a1), tags1)]
  {
    var r1 := RawQuote(Some(t1), Some(a1), Some(tags1), None, None);
    var r2 := RawQuote(Some(t2), Some(a2), Some(tags2), None, None);
    var c1, c2 := Prepare(r1), Prepare(r2);
    PreparedPair(r1, r2);
    DedupSameKey(c1, c2);
    TransformQuotesIsDedup([r1, r2], [c1, c2], [c1]);
  }

  lemma TransformQuotesIsDedup(rows: seq<RawQuote>, cs: seq<CleanQuote>, out: seq<CleanQuote>)
    requires Prepared(rows) == cs && Dedup(cs, {}) == out
    ensures TransformQuotes(rows) == out
  {
  }

  lemma PreparedPair(r1: RawQuote, r2: RawQuote)
    ensures Prepared([r1, r2]) == [Prepare(r1), Prepare(r2)]
  {
    var ps := Prepared([r1, r2]);
    assert ps[0] == Prepare(r1) && ps[1] == Prepare(r2);
  }

  /** Of two non-empty candidates with one key, only the first is emitted. */
  lemma DedupSameKey(c1: CleanQuote, c2: CleanQuote)
    requires HasTextAndAuthor(c1) && Key(c1) == Key(c2)
    ensures Dedup([c1, c2], {}) == [c1]
  {
    assert [c1, c2][1..] == [c2] && [c2][1..] == [];
    assert Dedup([c2], {Key(c1)}) == Dedup([], {Key(c1)});
    assert Dedup([c1, c2], {}) == [c1] + Dedup([c2], {} + {Key(c1)});
  }
}

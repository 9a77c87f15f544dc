/** The "excel" dialect of Python's `csv` writer: fields separated by `,`,
    records ended by CR LF, and a field quoted (with inner quotes doubled)
    exactly when it holds a comma, a quote, a CR or an LF. A record made of
    one empty field is written as `""` so it is not mistaken for an empty
    line. `ReadDocument` is the matching reader and the round-trip lemma
    shows that it undoes the writer. */
module Csv {
  import opened Text

  const CRLF: string := "\r\n"

  /** Characters that force quoting under `QUOTE_MINIMAL`. */
  predicate Special(c: char) {
    c == ',' || c == '"' || c == '\r' || c == '\n'
  }

  predicate NeedsQuotes(f: string) {
    exists i :: 0 <= i < |f| && Special(f[i])
  }

  /** Every `"` doubled. */
  function Escape(f: string): (r: string)
    ensures |r| >= |f|
  {
    if |f| == 0 then [] else (if f[0] == '"' then "\"\"" else [f[0]]) + Escape(f[1..])
  }

  function QuoteField(f: string): string {
    if NeedsQuotes(f) then "\"" + Escape(f) + "\"" else f
  }

  function QuoteAll(fs: seq<string>): (qs: seq<string>)
    ensures |qs| == |fs|
    ensures forall i :: 0 <= i < |fs| ==> qs[i] == QuoteField(fs[i])
  {
    if |fs| == 0 then [] else [QuoteField(fs[0])] + QuoteAll(fs[1..])
  }

  /** One record as `writer.writerow` emits it. */
  function EncodeRecord(fs: seq<string>): string {
    (if fs == [""] then "\"\"" else Join(QuoteAll(fs), ",")) + CRLF
  }

  /** The records one after the other. */
  function Document(recs: seq<seq<string>>): string {
    if |recs| == 0 then "" else EncodeRecord(recs[0]) + Document(recs[1..])
  }

  lemma DocumentAppend(a: seq<seq<string>>, b: seq<seq<string>>)
    ensures Document(a + b) == Document(a) + Document(b)
  {
    if |a| == 0 {
      assert a + b == b;
    } else {
      assert (a + b)[1..] == a[1..] + b;
      DocumentAppend(a[1..], b);
    }
  }

  // ---------------------------------------------------------------------
  // Reader
  // ---------------------------------------------------------------------

  /** The rest of a quoted field, read after its opening quote: the field's
      text with doubled quotes undone, and what follows the closing quote. */
  function ReadQuoted(s: string): (r: (string, string))
    ensures |r.1| < |s| || (s == [] && r.1 == [])
  {
    if |s| == 0 then ("", "")
    else if s[0] == '"' then
      if |s| >= 2 && s[1] == '"' then
        var (f, rest) := ReadQuoted(s[2..]);
        ("\"" + f, rest)
      else
        ("", s[1..])
    else
      var (f, rest) := ReadQuoted(s[1..]);
      ([s[0]] + f, rest)
  }

  /** An unquoted field: everything up to the first comma or CR. */
  function ReadPlain(s: string): (r: (string, string))
    ensures r.0 + r.1 == s
    ensures r.1 == [] || r.1[0] == ',' || r.1[0] == '\r'
  {
    if |s| == 0 || s[0] == ',' || s[0] == '\r' then ("", s)
    else
      var (f, rest) := ReadPlain(s[1..]);
      assert [s[0]] + f + rest == s;
      ([s[0]] + f, rest)
  }

  function ReadField(s: string): (r: (string, string))
    ensures |r.1| <= |s|
    ensures |s| > 0 && (r.1 == s || |r.1| == |s|) ==> s[0] == ',' || s[0] == '\r'
  {
    if |s| > 0 && s[0] == '"' then ReadQuoted(s[1..]) else ReadPlain(s)
  }

  /** The fields of a record up to the CR LF that ends it, and the text after it. */
  function ReadFields(s: string): (r: (seq<string>, string))
    ensures |r.1| <= |s|
    ensures s != [] ==> |r.1| < |s|
    decreases |s|
  {
    var (f, rest) := ReadField(s);
    if |rest| > 0 && rest[0] == ',' then
      var (more, after) := ReadFields(rest[1..]);
      ([f] + more, after)
    else if StartsWith(rest, CRLF) then ([f], rest[2..])
    else if rest == [] then ([f], [])
    else ([f], rest[1..])
  }

  /** One record; an empty line is the record with no field. */
  function ReadRecord(s: string): (r: (seq<string>, string))
    requires s != []
    ensures |r.1| < |s|
  {
    if StartsWith(s, CRLF) then ([], s[2..]) else ReadFields(s)
  }

  function ReadDocument(s: string): seq<seq<string>>
    decreases |s|
  {
    if s == [] then [] else
      var (rec, rest) := ReadRecord(s);
      [rec] + ReadDocument(rest)
  }

  // ---------------------------------------------------------------------
  // Round trip
  // ---------------------------------------------------------------------

  lemma {:induction false} ReadQuotedEscape(f: string, rest: string)
    requires rest == [] || rest[0] != '"'
    ensures ReadQuoted(Escape(f) + "\"" + rest) == (f, rest)
  {
    if |f| == 0 {
      assert Escape(f) + "\"" + rest == "\"" + rest;
    } else {
      ReadQuotedEscape(f[1..], rest);
      ReadQuotedStep(f, rest);
      assert [f[0]] + f[1..] == f;
    }
  }

  /** One step of the reader over an escaped field: the first character,
      doubled if it is a quote, is read back before the rest. */
  lemma ReadQuotedStep(f: string, rest: string)
    requires |f| > 0
    ensures var tail := Escape(f[1..]) + "\"" + rest;
            ReadQuoted(Escape(f) + "\"" + rest) == ([f[0]] + ReadQuoted(tail).0, ReadQuoted(tail).1)
  {
    var tail := Escape(f[1..]) + "\"" + rest;
    if f[0] == '"' {
      var s := "\"\"" + tail;
      assert Escape(f) + "\"" + rest == s;
      assert s[0] == '"' && s[1] == '"' && s[2..] == tail;
    } else {
      var s := [f[0]] + tail;
      assert Escape(f) + "\"" + rest == s;
      assert s[0] == f[0] && s[1..] == tail;
    }
  }

  lemma {:induction false} ReadPlainClean(f: string, rest: string)
    requires !NeedsQuotes(f)
    requires rest == [] || rest[0] == ',' || rest[0] == '\r'
    ensures ReadPlain(f + rest) == (f, rest)
  {
    if |f| == 0 {
      assert f + rest == rest;
    } else {
      assert !Special(f[0]);
      assert !NeedsQuotes(f[1..]) by {
        assert forall i :: 0 <= i < |f[1..]| ==> f[1..][i] == f[i + 1];
      }
      ReadPlainClean(f[1..], rest);
      assert (f + rest)[1..] == f[1..] + rest;
      assert [f[0]] + f[1..] == f;
    }
  }

  /** A written field is read back, whatever follows it that ends a field. */
  lemma ReadFieldQuoted(f: string, rest: string)
    requires rest == [] || rest[0] == ',' || rest[0] == '\r'
    ensures ReadField(QuoteField(f) + rest) == (f, rest)
  {
    if NeedsQuotes(f) {
      ReadFieldNeedsQuotes(f, rest);
    } else {
      ReadFieldPlain(f, rest);
    }
  }

  lemma {:induction false} ReadFieldNeedsQuotes(f: string, rest: string)
    requires NeedsQuotes(f)
    requires rest == [] || rest[0] == ',' || rest[0] == '\r'
    ensures ReadField(QuoteField(f) + rest) == (f, rest)
  {
    var s := QuoteField(f) + rest;
    var t := Escape(f) + "\"" + rest;
    assert s == "\"" + t;
    assert s[0] == '"' && s[1..] == t;
    ReadQuotedEscape(f, rest);
  }

  lemma {:induction false} ReadFieldPlain(f: string, rest: string)
    requires !NeedsQuotes(f)
    requires rest == [] || rest[0] == ',' || rest[0] == '\r'
    ensures ReadField(QuoteField(f) + rest) == (f, rest)
  {
    var s := f + rest;
    assert QuoteField(f) == f;
    assert |s| > 0 ==> s[0] != '"' by {
      assert f != [] ==> s[0] == f[0] && !Special(f[0]);
    }
    ReadPlainClean(f, rest);
  }

  lemma {:induction false} ReadFieldsJoin(fs: seq<string>, more: string)
    requires |fs| > 0
    ensures ReadFields(Join(QuoteAll(fs), ",") + CRLF + more) == (fs, more)
  {
    var qs := QuoteAll(fs);
    if |fs| == 1 {
      assert Join(qs, ",") == qs[0] == QuoteField(fs[0]);
      assert Join(qs, ",") + CRLF + more == QuoteField(fs[0]) + (CRLF + more);
      ReadFieldQuoted(fs[0], CRLF + more);
      assert (CRLF + more)[0] == '\r';
      assert StartsWith(CRLF + more, CRLF) && (CRLF + more)[2..] == more;
      assert fs == [fs[0]];
    } else {
      var tail := Join(QuoteAll(fs[1..]), ",") + CRLF + more;
      assert qs[1..] == QuoteAll(fs[1..]);
      assert Join(qs, ",") + CRLF + more == QuoteField(fs[0]) + ("," + tail);
      ReadFieldQuoted(fs[0], "," + tail);
      assert ("," + tail)[1..] == tail;
      ReadFieldsJoin(fs[1..], more);
      assert [fs[0]] + fs[1..] == fs;
    }
  }

  /** A written record is read back, with the text after it untouched. */
  lemma {:induction false} ReadRecordEncode(fs: seq<string>, more: string)
    ensures EncodeRecord(fs) + more != []
    ensures ReadRecord(EncodeRecord(fs) + more) == (fs, more)
  {
    var s := EncodeRecord(fs) + more;
    if fs == [] {
      assert s == CRLF + more;
      assert s[2..] == more;
    } else if fs == [""] {
      var t := "\"" + CRLF + more;
      assert s == "\"" + t && s[0] == '"';
      assert t[0] == '"' && t[1] == '\r' && t[1..] == CRLF + more;
      assert ReadQuoted(t) == ("", CRLF + more);
      assert StartsWith(CRLF + more, CRLF) && (CRLF + more)[2..] == more;
    } else {
      assert s == Join(QuoteAll(fs), ",") + CRLF + more;
      var q := QuoteField(fs[0]);
      assert q == [] || q[0] != '\r' by {
        if q != [] && !NeedsQuotes(fs[0]) {
          assert q[0] == fs[0][0] && !Special(fs[0][0]);
        }
      }
      assert |fs| == 1 ==> fs[0] != [] && q != [];
      assert |fs| > 1 ==> Join(QuoteAll(fs), ",") == q + "," + Join(QuoteAll(fs)[1..], ",");
      assert |fs| == 1 ==> Join(QuoteAll(fs), ",") == q;
      assert !StartsWith(s, CRLF) by {
        assert q == [] ==> |fs| > 1 && s[0] == ',';
        assert q != [] ==> s[0] == q[0];
      }
      ReadFieldsJoin(fs, more);
    }
  }

  /** Reading a written document gives back its records. */
  lemma {:induction false} ReadDocumentRoundTrip(recs: seq<seq<string>>)
    ensures ReadDocument(Document(recs)) == recs
  {
    if |recs| > 0 {
      ReadRecordEncode(recs[0], Document(recs[1..]));
      ReadDocumentRoundTrip(recs[1..]);
      assert [recs[0]] + recs[1..] == recs;
    }
  }

  /** Plain fields are written as they are. */
  lemma EncodePlain()
    ensures EncodeRecord(["a", "b"]) == "a,b\r\n"
  {
    assert !NeedsQuotes("a") && !NeedsQuotes("b");
  }

  /** A comma forces quotes. */
  lemma EncodeComma()
    ensures EncodeRecord(["x,y"]) == "\"x,y\"\r\n"
  {
    assert Special("x,y"[1]);
    assert Escape("x,y") == "x,y" by {
      assert "x,y"[1..] == ",y" && ",y"[1..] == "y" && "y"[1..] == "";
    }
  }

  /** The one-empty-field record and the empty record differ. */
  lemma EncodeEmpty()
    ensures EncodeRecord([""]) == "\"\"\r\n"
    ensures EncodeRecord([]) == "\r\n"
  {
  }
}

/** `write_silver_csv`: writes the cleaned rows of one dataset and run as a
    CSV file whose header is the sorted union of the rows' keys. The file
    system is a map from path to content. */
module SilverWriter {
  import opened Base
  import opened Text
  import opened Paths
  import opened Csv

  /** A cleaned record; a None value is Python's None. */
  type Row = map<string, Option<string>>

  /** `os.path.join(os.path.join(silver_dir, f"run_id={run_id}"), f"{dataset}_clean.csv")`. */
  function SilverPath(silverDir: string, dataset: string, runId: string): string {
    PathJoin(PathJoin(silverDir, "run_id=" + runId), dataset + "_clean.csv")
  }

  /** For a directory and run id without trailing slash and a relative
      dataset name the path is `<silver_dir>/run_id=<run_id>/<dataset>_clean.csv`
      (the pipeline's run ids are timestamps, which contain no slash). */
  lemma SilverPathShape(silverDir: string, dataset: string, runId: string)
    requires silverDir != [] && silverDir[|silverDir| - 1] != '/'
    requires runId == [] || runId[|runId| - 1] != '/'
    requires !StartsWith(dataset, "/")
    ensures SilverPath(silverDir, dataset, runId) == silverDir + "/run_id=" + runId + "/" + dataset + "_clean.csv"
  {
    var sub := "run_id=" + runId;
    RunDirShape(runId);
    var outDir := silverDir + "/" + sub;
    assert PathJoin(silverDir, sub) == outDir;
    assert outDir[|outDir| - 1] == sub[|sub| - 1];
    var name := dataset + "_clean.csv";
    assert !StartsWith(name, "/") by {
      assert dataset != [] ==> name[0] == dataset[0] && dataset[..1] != "/";
      assert dataset == [] ==> name[0] == '_';
    }
    assert PathJoin(outDir, name) == outDir + "/" + name;
  }

  /** The run directory's name is relative and has no trailing slash when
      the run id has none. */
  lemma RunDirShape(runId: string)
    requires runId == [] || runId[|runId| - 1] != '/'
    ensures var sub := "run_id=" + runId;
            sub != [] && !StartsWith(sub, "/") && sub[|sub| - 1] != '/'
  {
    var sub := "run_id=" + runId;
    assert sub[0] == 'r';
    if runId == [] {
      assert sub == "run_id=";
    } else {
      assert sub[|sub| - 1] == runId[|runId| - 1];
    }
  }

  /** Every key that some row has. */
  function KeyUnion(rows: seq<Row>): set<string> {
    set r, k | r in rows && k in r :: k
  }

  /** The keys of all rows, sorted: the only strictly sorted sequence
      holding exactly `KeyUnion(rows)`. */
  ghost function SortedKeys(rows: seq<Row>): (h: seq<string>)
    ensures StrictlySorted(h)
    ensures forall k :: k in h <==> k in KeyUnion(rows)
  {
    SortedOf(KeyUnion(rows))
  }

  ghost function SortedOf(s: set<string>): (h: seq<string>)
    ensures StrictlySorted(h)
    ensures forall k :: k in h <==> k in s
    decreases |s|
  {
    if s == {} then []
    else
      var x :| x in s;
      InsertSorted(SortedOf(s - {x}), x)
  }

  /** `DictWriter` writes a missing key as its `restval`, the empty string,
      and None as the empty string too. */
  function CellText(r: Row, key: string): string {
    if key in r then r[key].GetOr("") else ""
  }

  /** The fields written for one row, in header order. */
  function Project(r: Row, header: seq<string>): (fs: seq<string>)
    ensures |fs| == |header|
    ensures forall i :: 0 <= i < |header| ==> fs[i] == CellText(r, header[i])
  {
    if |header| == 0 then [] else [CellText(r, header[0])] + Project(r, header[1..])
  }

  function ProjectAll(rows: seq<Row>, header: seq<string>): (rs: seq<seq<string>>)
    ensures |rs| == |rows|
    ensures forall i :: 0 <= i < |rows| ==> rs[i] == Project(rows[i], header)
  {
    if |rows| == 0 then [] else [Project(rows[0], header)] + ProjectAll(rows[1..], header)
  }

  /** The file's content for rows and header: nothing at all for no rows,
      else the header line and one line per row. */
  function Content(rows: seq<Row>, header: seq<string>): string {
    if rows == [] then "" else Document([header] + ProjectAll(rows, header))
  }

  /** Reading back the content gives the header, then each row's fields. */
  lemma ContentReadBack(rows: seq<Row>, header: seq<string>)
    requires rows != []
    ensures var recs := ReadDocument(Content(rows, header));
            && |recs| == |rows| + 1
            && recs[0] == header
            && forall j :: 0 <= j < |rows| ==> recs[j + 1] == Project(rows[j], header)
  {
    ReadDocumentRoundTrip([header] + ProjectAll(rows, header));
  }

  /** The header loop: the keys of all rows, inserted one at a time into a
      sorted sequence. The result is the sorted union of the keys. */
  method CollectHeader(rows: seq<Row>) returns (header: seq<string>)
    ensures StrictlySorted(header)
    ensures forall k :: k in header <==> k in KeyUnion(rows)
  {
    header := [];
    var i := 0;
    while i < |rows|
      invariant 0 <= i <= |rows|
      invariant StrictlySorted(header)
      invariant forall k :: k in header <==> k in KeyUnion(rows[..i])
    {
      var keys := rows[i].Keys;
      while keys != {}
        invariant keys <= rows[i].Keys
        invariant StrictlySorted(header)
        invariant forall k :: k in header <==> k in KeyUnion(rows[..i]) || (k in rows[i] && k !in keys)
        decreases |keys|
      {
        var k :| k in keys;
        header := InsertSorted(header, k);
        keys := keys - {k};
      }
      assert rows[..i + 1] == rows[..i] + [rows[i]];
      KeyUnionAppend(rows[..i], [rows[i]]);
      i := i + 1;
    }
    assert rows[..i] == rows;
  }

  lemma KeyUnionAppend(a: seq<Row>, b: seq<Row>)
    ensures KeyUnion(a + b) == KeyUnion(a) + KeyUnion(b)
  {
    forall k ensures k in KeyUnion(a + b) <==> k in KeyUnion(a) || k in KeyUnion(b) {
      if k in KeyUnion(a + b) {
        var r :| r in a + b && k in r;
        assert r in a || r in b;
      }
      if k in KeyUnion(a) {
        var r :| r in a && k in r;
        assert r in a + b;
      }
      if k in KeyUnion(b) {
        var r :| r in b && k in r;
        assert r in a + b;
      }
    }
  }

  /** `write_silver_csv(rows, dataset, run_id, silver_dir)` on the file
      system `fs`: returns the path, and the new file system differs from
      the old one only at that path. With no rows the file is empty;
      otherwise reading it back yields a header that is sorted, free of
      duplicates and holds exactly the keys of the rows, followed by one
      record per row, in order, giving each header column that row's value
      or the empty string. What was at the path before has no influence. */
  method WriteSilverCsv(fs: map<string, string>, rows: seq<Row>, dataset: string, runId: string, silverDir: string)
    returns (path: string, fs': map<string, string>)
    ensures path == SilverPath(silverDir, dataset, runId)
    ensures fs'.Keys == fs.Keys + {path}
    ensures forall p :: p in fs && p != path ==> fs'[p] == fs[p]
    ensures fs'[path] == Content(rows, SortedKeys(rows))
    ensures rows == [] ==> fs'[path] == ""
    ensures rows != [] ==>
              var recs := ReadDocument(fs'[path]);
              && |recs| == |rows| + 1
              && StrictlySorted(recs[0])
              && (forall k :: k in recs[0] <==> k in KeyUnion(rows))
              && (forall j :: 0 <= j < |rows| ==> recs[j + 1] == Project(rows[j], recs[0]))
  {
    path := SilverPath(silverDir, dataset, runId);
    if rows == [] {
      fs' := fs[path := ""];
      return;
    }
    var header := CollectHeader(rows);
    StrictlySortedUnique(header, SortedKeys(rows));
    var content := Document([header] + ProjectAll(rows, header));
    ContentReadBack(rows, header);
    fs' := fs[path := content];
  }
}

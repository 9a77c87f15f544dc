/** `read_partners_excel`: checks that the file exists and has every
    required column, then returns the sheet's rows as records, leaving out
    rows with no value at all. */
module PartnersExcel {
  import opened Base

  /** The columns a partner sheet must have, in the order they are reported
      when absent. */
  const RequiredColumns: seq<string> := [
    "nom_librairie", "adresse", "code_postal", "ville", "contact_nom",
    "contact_email", "contact_telephone", "ca_annuel", "date_partenariat", "specialite"]

  /** A cell; None is an empty cell. */
  type Cell = Option<string>

  /** The first sheet as the spreadsheet library hands it over: the header
      line and the data rows. */
  datatype Sheet = Sheet(columns: seq<string>, rows: seq<seq<Cell>>)

  /** A data frame always has distinct column labels and one cell per column
      in every row. */
  predicate WellFormedSheet(sh: Sheet) {
    && (forall i, j :: 0 <= i < j < |sh.columns| ==> sh.columns[i] != sh.columns[j])
    && (forall row :: row in sh.rows ==> |row| == |sh.columns|)
  }

  /** A row as a dict from column label to cell. */
  type Record = map<string, Cell>

  datatype ExcelError =
    | FileNotFound(path: string)
    | MissingColumns(missing: seq<string>)

  /** The required columns absent from `columns`, in the order of `required`. */
  function Missing(required: seq<string>, columns: seq<string>): (m: seq<string>)
    ensures |m| <= |required|
    ensures forall c :: c in m <==> c in required && c !in columns
  {
    if |required| == 0 then []
    else
      var rest := Missing(required[1..], columns);
      assert forall c :: c in required <==> c == required[0] || c in required[1..];
      if required[0] in columns then rest else [required[0]] + rest
  }

  /** `Missing` is a filter: it maps a concatenation of requirement lists
      to the concatenation of the results, so the order of the report is the
      order of the requirements, whatever the order of the header. */
  lemma {:induction false} MissingAppend(a: seq<string>, b: seq<string>, columns: seq<string>)
    ensures Missing(a + b, columns) == Missing(a, columns) + Missing(b, columns)
  {
    if |a| == 0 {
      assert a + b == b;
    } else {
      assert (a + b)[0] == a[0] && (a + b)[1..] == a[1..] + b;
      MissingAppend(a[1..], b, columns);
    }
  }

  /** A row whose cells are all empty (`dropna(how="all")` drops it). */
  predicate Blank(row: seq<Cell>) {
    forall i :: 0 <= i < |row| ==> row[i].None?
  }

  /** The rows that are not blank, in sheet order. */
  function NonBlankRows(rows: seq<seq<Cell>>): (r: seq<seq<Cell>>)
    ensures |r| <= |rows|
    ensures forall row :: row in r <==> row in rows && !Blank(row)
  {
    if |rows| == 0 then []
    else
      var rest := NonBlankRows(rows[1..]);
      assert forall row :: row in rows <==> row == rows[0] || row in rows[1..];
      if Blank(rows[0]) then rest else [rows[0]] + rest
  }

  lemma {:induction false} NonBlankRowsAppend(a: seq<seq<Cell>>, b: seq<seq<Cell>>)
    ensures NonBlankRows(a + b) == NonBlankRows(a) + NonBlankRows(b)
  {
    if |a| == 0 {
      assert a + b == b;
    } else {
      assert (a + b)[0] == a[0] && (a + b)[1..] == a[1..] + b;
      NonBlankRowsAppend(a[1..], b);
    }
  }

  /** `to_dict(orient="records")` for one row: every column label maps to
      the cell below it. */
  function ToRecord(columns: seq<string>, row: seq<Cell>): (m: Record)
    requires |row| == |columns|
    requires forall i, j :: 0 <= i < j < |columns| ==> columns[i] != columns[j]
    ensures m.Keys == set c | c in columns
    ensures forall i :: 0 <= i < |columns| ==> m[columns[i]] == row[i]
  {
    if |columns| == 0 then map[]
    else
      var m := ToRecord(columns[1..], row[1..])[columns[0] := row[0]];
      assert forall i :: 1 <= i < |columns| ==> columns[1..][i - 1] == columns[i] && columns[i] != columns[0];
      m
  }

  function ToRecords(columns: seq<string>, rows: seq<seq<Cell>>): (rs: seq<Record>)
    requires forall row :: row in rows ==> |row| == |columns|
    requires forall i, j :: 0 <= i < j < |columns| ==> columns[i] != columns[j]
    ensures |rs| == |rows|
    ensures forall k :: 0 <= k < |rows| ==> rs[k] == ToRecord(columns, rows[k])
  {
    if |rows| == 0 then []
    else
      assert rows[0] in rows && forall row :: row in rows[1..] ==> row in rows;
      [ToRecord(columns, rows[0])] + ToRecords(columns, rows[1..])
  }

  /** `read_partners_excel(xlsx_path, logger)`, given the first sheet of the
      file at `path` if such a file exists:
      no file gives FileNotFoundError before anything is read; a header
      lacking required columns gives ValueError listing them in required
      order; otherwise every non-blank row comes back, in order, as a record
      over all the header's columns, extra ones included. */
  function ReadPartnersExcel(path: string, file: Option<Sheet>): (r: Result<seq<Record>, ExcelError>)
    requires file.Some? ==> WellFormedSheet(file.value)
    ensures file.None? ==> r == Err(FileNotFound(path))
    ensures file.Some? && Missing(RequiredColumns, file.value.columns) != [] ==>
              r == Err(MissingColumns(Missing(RequiredColumns, file.value.columns)))
    ensures r.Err? && r.error.MissingColumns? ==>
              forall c :: c in r.error.missing <==> c in RequiredColumns && c !in file.value.columns
    ensures r.Ok? ==>
              && file.Some?
              && (forall c :: c in RequiredColumns ==> c in file.value.columns)
              && |r.value| == |NonBlankRows(file.value.rows)| <= |file.value.rows|
              && (forall k :: 0 <= k < |r.value| ==>
                    r.value[k] == ToRecord(file.value.columns, NonBlankRows(file.value.rows)[k]))
  {
    match file
    case None => Err(FileNotFound(path))
    case Some(sh) =>
      var missing := Missing(RequiredColumns, sh.columns);
      if missing != [] then Err(MissingColumns(missing))
      else
        assert forall c :: c in RequiredColumns ==> c !in missing;
        Ok(ToRecords(sh.columns, NonBlankRows(sh.rows)))
  }

  /** Every record returned carries every required column. */
  lemma ReadPartnersExcelColumns(path: string, file: Option<Sheet>)
    requires file.Some? ==> WellFormedSheet(file.value)
    ensures var r := ReadPartnersExcel(path, file);
            r.Ok? ==> forall rec, c :: rec in r.value && c in RequiredColumns ==> c in rec
  {
  }

  /** No record returned is made of empty cells only. */
  lemma ReadPartnersExcelNonBlank(path: string, file: Option<Sheet>)
    requires file.Some? ==> WellFormedSheet(file.value)
    ensures var r := ReadPartnersExcel(path, file);
            r.Ok? ==> forall rec: Record :: rec in r.value ==> exists c: string :: c in rec && rec[c].Some?
  {
    var r := ReadPartnersExcel(path, file);
    if r.Ok? {
      var sh := file.value;
      var kept: seq<seq<Cell>> := NonBlankRows(sh.rows);
      assert r.value == ToRecords(sh.columns, kept);
      forall rec: Record | rec in r.value ensures exists c: string :: c in rec && rec[c].Some? {
        var k :| 0 <= k < |r.value| && r.value[k] == rec;
        assert kept[k] in kept;
        RecordNotBlank(sh.columns, kept[k]);
      }
    }
  }

  /** A row with a value gives a record with a value. */
  lemma RecordNotBlank(columns: seq<string>, row: seq<Cell>)
    requires |row| == |columns| && !Blank(row)
    requires forall i, j :: 0 <= i < j < |columns| ==> columns[i] != columns[j]
    ensures exists c: string :: c in ToRecord(columns, row) && ToRecord(columns, row)[c].Some?
  {
    var i :| 0 <= i < |row| && row[i].Some?;
    assert ToRecord(columns, row)[columns[i]] == row[i];
  }

  /** A sheet without any header cell lacks all ten columns, reported in
      required order. */
  lemma MissingAll()
    ensures Missing(RequiredColumns, []) == RequiredColumns
  {
    MissingNone(RequiredColumns);
  }

  lemma {:induction false} MissingNone(required: seq<string>)
    ensures Missing(required, []) == required
  {
    if |required| > 0 {
      MissingNone(required[1..]);
    }
  }
}

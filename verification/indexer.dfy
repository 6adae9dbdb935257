/** The ingestion of a normalised table: one document per row, in source
    order, keyed by its `Employee_ID` field, and the lowercasing of
    collection names done when a collection is created. */
module Indexer {
  import opened Results
  import opened Records
  import opened Normalizer
  import Text

  /** The name a collection is created under: the requested name in lower
      case. Names that differ only in letter case meet in one collection
      (see CollectionNameIgnoresCase). */
  function CollectionName(name: string): (r: string)
    ensures |r| == |name|
    ensures forall i :: 0 <= i < |r| ==> !Text.IsUpper(r[i])
    ensures Text.EqualIgnoringCase(r, name)
  {
    var r := Text.Lower(name);
    assert forall i :: 0 <= i < |r| ==> Text.SameLetter(r[i], name[i]);
    r
  }

  /** Two requested names reach the same collection exactly when they are
      equal up to letter case. */
  lemma CollectionNameIgnoresCase(a: string, b: string)
    ensures CollectionName(a) == CollectionName(b) <==> Text.EqualIgnoringCase(a, b)
  {
    Text.LowerEqualIff(a, b);
  }

  /** A normalised name is its own normal form. */
  lemma CollectionNameIdempotent(name: string)
    ensures CollectionName(CollectionName(name)) == CollectionName(name)
  {
    Text.LowerIdempotent(name);
  }

  /** "Foo" and "foo" name the same collection, "foo". */
  lemma CollectionNameExample()
    ensures CollectionName("Foo") == CollectionName("foo") == "foo"
  {
    assert Text.EqualIgnoringCase("Foo", "foo") by {
      assert Text.SameLetter('F', 'f');
    }
    CollectionNameIgnoresCase("Foo", "foo");
    assert Text.Lower("foo") == "foo" by {
      assert forall i :: 0 <= i < 3 ==> !Text.IsUpper("foo"[i]);
    }
  }

  /** One document handed to the store: target collection, identifier and
      body. */
  datatype Submission = Submission(index: string, id: Cell, body: Row)

  /** What an ingestion run did: the documents it submitted, in order, and
      the error that ended it early, if any. Submissions made before an
      error stay made. */
  datatype Ingest = Ingest(sent: seq<Submission>, failure: Option<Error>)

  /** The row loop: each row becomes a document that is submitted under its
      `Employee_ID`; the first row without that key ends the run with a
      KeyError. */
  function IngestRows(index: string, rows: seq<Row>): (r: Ingest)
    ensures |r.sent| <= |rows|
    ensures r.failure.None? <==> |r.sent| == |rows|
    ensures r.failure.Some? ==> r.failure.value == KeyError(EMPLOYEE_ID) && EMPLOYEE_ID !in rows[|r.sent|]
    ensures forall j :: 0 <= j < |r.sent| ==>
      && EMPLOYEE_ID in rows[j]
      && r.sent[j].index == index
      && r.sent[j].body == RowToDoc(rows[j])
      && r.sent[j].id == r.sent[j].body[EMPLOYEE_ID]
    decreases |rows|
  {
    if |rows| == 0 then Ingest([], None)
    else
      var doc := RowToDoc(rows[0]);
      match DocId(doc)
      case Failure(e) => Ingest([], Some(e))
      case Success(id) =>
        var rest := IngestRows(index, rows[1..]);
        Ingest([Submission(index, id, doc)] + rest.sent, rest.failure)
  }

  /** The ingestion of a parsed table into collection `name`, as written:
      the name is used as given, not lowercased. */
  function IndexData(name: string, t: Table, exclude: string): (r: Ingest)
    ensures Normalize(t, exclude).Failure? ==> r == Ingest([], Some(Normalize(t, exclude).error))
    ensures |r.sent| <= |t.rows|
    ensures forall j :: 0 <= j < |r.sent| ==>
      && r.sent[j].index == name
      && NoMissing(r.sent[j].body)
      && EMPLOYEE_ID in r.sent[j].body
      && r.sent[j].id == r.sent[j].body[EMPLOYEE_ID]
  {
    match Normalize(t, exclude)
    case Failure(e) => Ingest([], Some(e))
    case Success(n) => IngestRows(name, n.rows)
  }

  /** The run `rest` continued after the documents in `sent` were already
      submitted. */
  function Resume(sent: seq<Submission>, rest: Ingest): Ingest {
    Ingest(sent + rest.sent, rest.failure)
  }

  /** One step of the row loop at row `i`, after `sent` was submitted: the
      row's document is submitted and the loop goes on, or the run ends with
      the KeyError. */
  lemma IngestStep(index: string, rows: seq<Row>, i: nat, sent: seq<Submission>)
    requires i < |rows|
    ensures var doc := RowToDoc(rows[i]);
      Resume(sent, IngestRows(index, rows[i..]))
        == if EMPLOYEE_ID in doc then
             Resume(sent + [Submission(index, doc[EMPLOYEE_ID], doc)], IngestRows(index, rows[i + 1..]))
           else Ingest(sent, Some(KeyError(EMPLOYEE_ID)))
  {
    assert rows[i..][1..] == rows[i + 1..];
    var doc := RowToDoc(rows[i]);
    if EMPLOYEE_ID in doc {
      var sub := Submission(index, doc[EMPLOYEE_ID], doc);
      var next := IngestRows(index, rows[i + 1..]);
      assert IngestRows(index, rows[i..]) == Ingest([sub] + next.sent, next.failure);
      assert sent + ([sub] + next.sent) == (sent + [sub]) + next.sent;
    } else {
      assert sent + [] == sent;
    }
  }

  /** The row loop written as the source writes it, one row at a time. */
  method IndexRows(index: string, rows: seq<Row>) returns (r: Ingest)
    ensures r == IngestRows(index, rows)
  {
    var sent: seq<Submission> := [];
    var i := 0;
    assert rows[0..] == rows;
    assert Resume([], IngestRows(index, rows)) == IngestRows(index, rows);
    while i < |rows|
      invariant 0 <= i <= |rows|
      invariant IngestRows(index, rows) == Resume(sent, IngestRows(index, rows[i..]))
    {
      var doc := RowToDoc(rows[i]);
      var id := DocId(doc);
      IngestStep(index, rows, i, sent);
      if id.Failure? {
        return Ingest(sent, Some(id.error));
      }
      sent := sent + [Submission(index, id.value, doc)];
      i := i + 1;
    }
    assert rows[i..] == [];
    assert sent + [] == sent;
    r := Ingest(sent, None);
  }

  /** The outcome of ingesting a well-formed table whose normalisation
      succeeded: no rows submit nothing and raise nothing; without an
      `Employee_ID` column (absent, or the excluded one) the first row
      raises the KeyError and nothing is submitted; otherwise every row is
      submitted, in order, under its own `Employee_ID` ("Unknown" when that
      cell was missing), and no document holds the excluded column. */
  lemma IndexDataOutcome(name: string, t: Table, exclude: string)
    requires WellFormed(t) && Normalize(t, exclude).Success?
    ensures var r := IndexData(name, t, exclude);
      && (|t.rows| == 0 ==> r == Ingest([], None))
      && (|t.rows| > 0 && (EMPLOYEE_ID !in t.columns || exclude == EMPLOYEE_ID) ==>
            r == Ingest([], Some(KeyError(EMPLOYEE_ID))))
      && (EMPLOYEE_ID in t.columns && exclude != EMPLOYEE_ID ==>
            && r.failure.None?
            && |r.sent| == |t.rows|
            && forall j :: 0 <= j < |t.rows| ==>
                 && r.sent[j].index == name
                 && exclude !in r.sent[j].body
                 && r.sent[j].body == RowToDoc(Normalize(t, exclude).value.rows[j])
                 && r.sent[j].id == FillCell(t.rows[j][EMPLOYEE_ID], UNKNOWN))
  {
    var n := Normalize(t, exclude).value;
    var r := IndexData(name, t, exclude);
    assert r == IngestRows(name, n.rows);
    assert WellFormed(n);
    if |t.rows| > 0 && (EMPLOYEE_ID !in t.columns || exclude == EMPLOYEE_ID) {
      assert EMPLOYEE_ID !in n.rows[0];
      assert EMPLOYEE_ID !in RowToDoc(n.rows[0]);
    }
    if EMPLOYEE_ID in t.columns && exclude != EMPLOYEE_ID {
      assert forall j :: 0 <= j < |n.rows| ==> EMPLOYEE_ID in n.rows[j];
      forall j | 0 <= j < |t.rows|
        ensures exclude !in r.sent[j].body
        ensures r.sent[j].body == RowToDoc(n.rows[j])
        ensures r.sent[j].id == FillCell(t.rows[j][EMPLOYEE_ID], UNKNOWN)
      {
        DocumentContents(t, exclude, j);
        CleanedCellFacts(EMPLOYEE_ID, t.rows[j][EMPLOYEE_ID]);
        assert EMPLOYEE_ID != AGE && EMPLOYEE_ID != ANNUAL_SALARY && EMPLOYEE_ID != BONUS;
      }
    }
  }
}

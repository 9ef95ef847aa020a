/** The scraping loop over the table rows (`scrapingBoxOffice.py`, lines 32-35 and 74) and the
    CSV header chosen from its result (line 83). */
module TableCollector {
  import opened Wrappers
  import opened Failures
  import opened RowExtractor

  /** Runs the steps of a loop whose every step either yields a value or raises: the values in
      order when no step raises, otherwise the error of the first step that does. */
  function Gather<T>(outcomes: seq<Result<T, Failure>>): (r: Result<seq<T>, Failure>)
    ensures r.Success? ==> |r.value| == |outcomes|
    decreases |outcomes|
  {
    if outcomes == [] then Success([])
    else
      var done :- Gather(outcomes[..|outcomes| - 1]);
      var last :- outcomes[|outcomes| - 1];
      Success(done + [last])
  }

  /** Once a prefix of the steps has raised, the later steps change nothing. */
  lemma {:induction false} GatherKeepsFailure<T>(outcomes: seq<Result<T, Failure>>, n: nat)
    requires n <= |outcomes| && Gather(outcomes[..n]).Failure?
    ensures Gather(outcomes) == Gather(outcomes[..n])
    decreases |outcomes| - n
  {
    if n < |outcomes| {
      assert outcomes[..n + 1][..n] == outcomes[..n];
      GatherKeepsFailure(outcomes, n + 1);
    } else {
      assert outcomes[..n] == outcomes;
    }
  }

  /** The loop completes exactly when every step does, and then keeps every value in order. */
  lemma {:induction false} GatherSucceeds<T>(outcomes: seq<Result<T, Failure>>)
    ensures Gather(outcomes).Success? <==> forall i | 0 <= i < |outcomes| :: outcomes[i].Success?
    ensures Gather(outcomes).Success? ==>
      && |Gather(outcomes).value| == |outcomes|
      && forall i | 0 <= i < |outcomes| :: Gather(outcomes).value[i] == outcomes[i].value
    decreases |outcomes|
  {
    if outcomes != [] {
      var front := outcomes[..|outcomes| - 1];
      GatherSucceeds(front);
      assert forall i | 0 <= i < |front| :: front[i] == outcomes[i];
    }
  }

  /** A loop that raises does so with the error of its first raising step. */
  lemma {:induction false} GatherFails<T>(outcomes: seq<Result<T, Failure>>) returns (j: nat)
    requires Gather(outcomes).Failure?
    ensures j < |outcomes| && outcomes[j].Failure?
    ensures Gather(outcomes).error == outcomes[j].error
    ensures forall i | 0 <= i < j :: outcomes[i].Success?
    decreases |outcomes|
  {
    var front := outcomes[..|outcomes| - 1];
    if Gather(front).Failure? {
      j := GatherFails(front);
      assert front[j] == outcomes[j];
      assert forall i | 0 <= i < j :: front[i] == outcomes[i];
    } else {
      j := |outcomes| - 1;
      GatherSucceeds(front);
      assert forall i | 0 <= i < j :: front[i] == outcomes[i];
    }
  }

  /** What each row yields on its own: a record or the error it raises. */
  function Outcomes(rows: seq<Row>): (o: seq<Result<Record, Failure>>)
    ensures |o| == |rows|
    ensures forall i | 0 <= i < |rows| :: o[i] == ExtractRow(rows[i])
  {
    seq(|rows|, i requires 0 <= i < |rows| => ExtractRow(rows[i]))
  }

  /** Builds one record per row, in row order (lines 33-35 and 74): the loop raises the error
      of the first row that cannot be turned into a record, and no record is kept. */
  method Collect(rows: seq<Row>) returns (res: Result<seq<Record>, Failure>)
    ensures res == Gather(Outcomes(rows))
  {
    ghost var outcomes := Outcomes(rows);
    var data: seq<Record> := [];
    var i := 0;
    while i < |rows|
      invariant 0 <= i <= |rows|
      invariant Gather(outcomes[..i]) == Success(data)
    {
      var r := ExtractRow(rows[i]);
      assert outcomes[..i + 1][..i] == outcomes[..i];
      if r.Failure? {
        GatherKeepsFailure(outcomes, i + 1);
        return Failure(r.error);
      }
      data := data + [r.value];
      i := i + 1;
    }
    assert outcomes[..i] == outcomes;
    res := Success(data);
  }

  /** A run completes exactly when every row yields a record; it then holds one record per row,
      in order, each the row's own record. */
  lemma CollectedRows(rows: seq<Row>)
    ensures Gather(Outcomes(rows)).Success? <==> forall i | 0 <= i < |rows| :: ExtractRow(rows[i]).Success?
    ensures Gather(Outcomes(rows)).Success? ==>
      && |Gather(Outcomes(rows)).value| == |rows|
      && forall i | 0 <= i < |rows| :: Gather(Outcomes(rows)).value[i] == ExtractRow(rows[i]).value
  {
    GatherSucceeds(Outcomes(rows));
  }

  /** A run that fails reports the error of its first failing row, every earlier row being fine. */
  lemma CollectedError(rows: seq<Row>) returns (j: nat)
    ensures Gather(Outcomes(rows)).Failure? ==>
      && j < |rows| && ExtractRow(rows[j]).Failure?
      && Gather(Outcomes(rows)).error == ExtractRow(rows[j]).error
      && forall i | 0 <= i < j :: ExtractRow(rows[i]).Success?
  {
    if Gather(Outcomes(rows)).Failure? {
      j := GatherFails(Outcomes(rows));
    } else {
      j := 0;
    }
  }

  /** The keys of a record, in the order they are written: `list(data[0].keys())`. There is one
      per field of `Record`, each named once. */
  function FieldNames(): (names: seq<string>)
    ensures |names| == 10
    ensures forall i, j | 0 <= i < j < |names| :: names[i] != names[j]
  {
    ["pos", "titolo", "prima_progr", "prima_progr_iso", "nazione", "distribuzione",
     "incasso", "presenze", "incasso_al", "presenze_al"]
  }

  /** The CSV columns: the keys of the first record, none when there is no record. */
  function CsvHeader(data: seq<Record>): (h: seq<string>)
    ensures h == [] <==> data == []
    ensures h != [] ==> h == FieldNames()
  {
    if data != [] then FieldNames() else []
  }
}

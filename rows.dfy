/** One row of the box-office table turned into a record (`scrapingBoxOffice.py`, lines 44-73).
    A row is given by the texts of its cells, in order, and by the text of the hidden
    `<span>` in the date cell when there is one. */
module RowExtractor {
  import opened Wrappers
  import opened Failures
  import opened Text
  import opened Decimal

  /** Cells 0..8 are read: pos, titolo, date, nazione, distribuzione and the four hidden raw
      figures. The visible figures in cells 9..12 are never read. */
  const ReadCells: nat := 9

  /** The quote that wraps the hidden ISO date, as in `'2025-12-25'`. */
  const Quote: char := '\''

  /** The rank column: a number when its text is all digits, the text itself otherwise
      (for instance a tie marker). */
  datatype Pos = Numeric(rank: nat) | Raw(text: string)

  /** The texts of a `<tr>`'s `<td>` cells and of the first `<span>` inside cell 2, if any. */
  datatype Row = Row(cells: seq<string>, isoSpan: Option<string>)

  /** The dictionary built for one row, its keys in the order the source writes them. */
  datatype Record = Record(
    pos: Pos,
    titolo: string,
    primaProgr: string,
    primaProgrIso: Option<string>,
    nazione: string,
    distribuzione: string,
    incasso: Option<real>,
    presenze: Option<int>,
    incassoAl: Option<real>,
    presenzeAl: Option<int>)

  /** `tds.nth(k).inner_text().strip()`: no longer than the cell text, with no whitespace at
      either end. */
  function Cell(row: Row, k: nat): (c: string)
    requires k < |row.cells|
    ensures |c| <= |row.cells[k]|
    ensures c != [] ==> c[0] !in Whitespace && c[|c| - 1] !in Whitespace
  {
    TrimEnds(row.cells[k], Whitespace);
    Trim(row.cells[k], Whitespace)
  }

  /** `int(pos) if pos.isdigit() else pos`. */
  function ExtractPos(text: string): (p: Pos)
    ensures p.Numeric? <==> IsDigits(text)
    ensures p.Raw? ==> p.text == text
  {
    if IsDigits(text) then Numeric(DigitsValue(text)) else Raw(text)
  }

  /** A rank written out in decimal is read back as that rank. */
  lemma PosOfRank(n: nat)
    ensures ExtractPos(NatToDigits(n)) == Numeric(n)
  {
    DigitsOfNatRoundTrip(n);
  }

  /** `iso_span.inner_text().strip().strip("'") if iso_span.count() else None`. */
  function ExtractIso(span: Option<string>): (r: Option<string>)
    ensures r.None? <==> span.None?
    ensures r.Some? && r.value != [] ==> r.value[|r.value| - 1] != Quote
  {
    match span
    case None => None
    case Some(t) => Some(Trim(Trim(t, Whitespace), {Quote}))
  }

  /** The ISO date never starts or ends with a quote. */
  lemma IsoUnquoted(span: Option<string>)
    requires span.Some?
    ensures var d := ExtractIso(span).value;
      d == [] || (d[0] != Quote && d[|d| - 1] != Quote)
  {
    TrimEnds(Trim(span.value, Whitespace), {Quote});
  }

  /** A quoted date, with whitespace around the quotes, is read back as the date itself. */
  lemma IsoOfQuotedDate(w1: string, d: string, w2: string)
    requires forall k | 0 <= k < |w1| :: w1[k] in Whitespace
    requires forall k | 0 <= k < |w2| :: w2[k] in Whitespace
    requires d == [] || (d[0] != Quote && d[|d| - 1] != Quote)
    ensures ExtractIso(Some(w1 + [Quote] + d + [Quote] + w2)) == Some(d)
  {
    var q := [Quote] + d + [Quote];
    assert w1 + [Quote] + d + [Quote] + w2 == w1 + q + w2;
    assert q[0] == Quote && q[|q| - 1] == Quote;
    TrimSurrounded(w1, q, w2, Whitespace);
    TrimSurrounded([Quote], d, [Quote], {Quote});
  }

  /** `float(text) if text else None`. */
  function ParseAmount(text: string): (r: Result<Option<real>, Failure>)
    ensures r == Success(None) <==> text == []
    ensures r.Failure? ==> r.error == ValueError(text)
    ensures r.Success? && r.value.Some? ==> r.value.value >= 0.0
  {
    if text == [] then Success(None)
    else
      match ParseDecimal(text)
      case None => Failure(ValueError(text))
      case Some(x) => Success(Some(x))
  }

  /** `int(float(text)) if text else None`. */
  function ParseCount(text: string): (r: Result<Option<int>, Failure>)
    ensures r == Success(None) <==> text == []
    ensures r.Failure? ==> r.error == ValueError(text)
    ensures r.Success? && r.value.Some? ==> r.value.value >= 0
  {
    if text == [] then Success(None)
    else
      match ParseDecimal(text)
      case None => Failure(ValueError(text))
      case Some(x) => Success(Some(Truncate(x)))
  }

  /** A raw figure is accepted when it is empty or decimal text; a count fails exactly where
      the amount read from the same text fails. */
  lemma FigureOutcome(text: string)
    ensures ParseAmount(text).Success? <==> text == [] || IsDecimalText(text)
    ensures ParseCount(text).Success? <==> ParseAmount(text).Success?
  {
    ParseDecimalGrammar(text);
  }

  /** A count is the amount read from the same text, truncated: the digits before the dot. */
  lemma CountTruncatesAmount(text: string)
    requires ParseAmount(text).Success? && ParseAmount(text).value.Some?
    ensures AllDigits(WholePart(text))
    ensures ParseCount(text) == Success(Some(Truncate(ParseAmount(text).value.value)))
    ensures ParseCount(text) == Success(Some(DigitsValue(WholePart(text))))
  {
    TruncateKeepsWholePart(text);
  }

  /** A hidden raw figure `w.f`, like `"73665455.48"`, is read as the amount `w + f / 10^|f|`
      and as the count `w`. */
  lemma FixedPointFigure(w: string, f: string)
    requires AllDigits(w) && AllDigits(f) && w + f != []
    ensures ParseAmount(w + ['.'] + f) == Success(Some(FixedPointValue(w, f)))
    ensures ParseCount(w + ['.'] + f) == Success(Some(DigitsValue(w)))
  {
    ParseFixedPoint(w, f);
    TruncateFixedPoint(w, f);
  }

  /** A hidden raw figure made only of digits, like `"9178654"`, is read as that number. */
  lemma IntegerFigure(d: string)
    requires IsDigits(d)
    ensures ParseAmount(d) == Success(Some(DigitsValue(d) as real))
    ensures ParseCount(d) == Success(Some(DigitsValue(d)))
  {
    ParseDigits(d);
    assert Truncate(DigitsValue(d) as real) == DigitsValue(d);
  }

  /** The record for one row (lines 44-73). A row without the nine cells read is refused; the
      raw figures are converted in the order of the record's keys, so the first one that
      `float()` refuses is the error. */
  function ExtractRow(row: Row): (r: Result<Record, Failure>)
    ensures |row.cells| < ReadCells <==> r.Failure? && r.error.MalformedRow?
    ensures r.Failure? && r.error.MalformedRow? ==> r.error.cellCount == |row.cells|
  {
    if |row.cells| < ReadCells then Failure(MalformedRow(|row.cells|))
    else
      var incasso :- ParseAmount(Cell(row, 5));
      var presenze :- ParseCount(Cell(row, 6));
      var incassoAl :- ParseAmount(Cell(row, 7));
      var presenzeAl :- ParseCount(Cell(row, 8));
      Success(Record(
        ExtractPos(Cell(row, 0)),
        Cell(row, 1),
        Cell(row, 2),
        ExtractIso(row.isoSpan),
        Cell(row, 3),
        Cell(row, 4),
        incasso,
        presenze,
        incassoAl,
        presenzeAl))
  }

  /** Raw figure text that `float()` accepts, or an empty cell. */
  predicate FigureAccepted(text: string) {
    text == [] || IsDecimalText(text)
  }

  /** A row becomes a record exactly when it has the nine cells and each of the four raw figures
      is empty or decimal text. */
  lemma ExtractRowAccepts(row: Row)
    ensures ExtractRow(row).Success? <==>
      && |row.cells| >= ReadCells
      && FigureAccepted(Cell(row, 5)) && FigureAccepted(Cell(row, 6))
      && FigureAccepted(Cell(row, 7)) && FigureAccepted(Cell(row, 8))
  {
    if |row.cells| >= ReadCells {
      FigureOutcome(Cell(row, 5));
      FigureOutcome(Cell(row, 6));
      FigureOutcome(Cell(row, 7));
      FigureOutcome(Cell(row, 8));
    }
  }

  /** The first raw figure that `float()` refuses, in the order of the record's keys. */
  function FirstRefused(row: Row): (k: nat)
    requires |row.cells| >= ReadCells
    ensures 5 <= k < ReadCells
  {
    if !FigureAccepted(Cell(row, 5)) then 5
    else if !FigureAccepted(Cell(row, 6)) then 6
    else if !FigureAccepted(Cell(row, 7)) then 7
    else 8
  }

  /** A row with its nine cells fails on the first refused raw figure, and reports its text. */
  lemma ExtractRowError(row: Row)
    requires |row.cells| >= ReadCells && ExtractRow(row).Failure?
    ensures !FigureAccepted(Cell(row, FirstRefused(row)))
    ensures ExtractRow(row).error == ValueError(Cell(row, FirstRefused(row)))
  {
    FigureOutcome(Cell(row, 5));
    FigureOutcome(Cell(row, 6));
    FigureOutcome(Cell(row, 7));
    FigureOutcome(Cell(row, 8));
  }

  /** The text fields of a record are the stripped cells 0..4 and the ISO date of the span. */
  lemma RecordTextFields(row: Row)
    ensures ExtractRow(row).Success? ==>
      && |row.cells| >= ReadCells
      && var rec := ExtractRow(row).value;
        && rec.pos == ExtractPos(Cell(row, 0))
        && rec.titolo == Cell(row, 1)
        && rec.primaProgr == Cell(row, 2)
        && rec.primaProgrIso == ExtractIso(row.isoSpan)
        && rec.nazione == Cell(row, 3)
        && rec.distribuzione == Cell(row, 4)
  {
  }

  /** The figures of a record are those read from the stripped cells 5..8. */
  lemma RecordFigureFields(row: Row)
    ensures ExtractRow(row).Success? ==>
      && |row.cells| >= ReadCells
      && var rec := ExtractRow(row).value;
        && ParseAmount(Cell(row, 5)) == Success(rec.incasso)
        && ParseCount(Cell(row, 6)) == Success(rec.presenze)
        && ParseAmount(Cell(row, 7)) == Success(rec.incassoAl)
        && ParseCount(Cell(row, 8)) == Success(rec.presenzeAl)
  {
  }

  /** A text field holds no surrounding whitespace. */
  predicate Stripped(s: string) {
    s == [] || (s[0] !in Whitespace && s[|s| - 1] !in Whitespace)
  }

  /** The four stripped text fields (`titolo`, `prima_progr`, `nazione`, `distribuzione`) and a
      rank kept as text have no whitespace at either end. The ISO date is left out: it is
      stripped of whitespace before its quotes are stripped, so `"' 2025-12-25 '"` keeps the
      inner spaces. */
  lemma RecordTextStripped(row: Row)
    ensures ExtractRow(row).Success? ==>
      var rec := ExtractRow(row).value;
      && Stripped(rec.titolo) && Stripped(rec.primaProgr)
      && Stripped(rec.nazione) && Stripped(rec.distribuzione)
      && (rec.pos.Raw? ==> Stripped(rec.pos.text))
  {
    RecordTextFields(row);
  }

  /** A raw figure is `None` exactly when its cell holds nothing but whitespace. */
  lemma RecordFigureAbsent(row: Row)
    ensures ExtractRow(row).Success? ==>
      var rec := ExtractRow(row).value;
      && (rec.incasso.None? <==> forall i | 0 <= i < |row.cells[5]| :: row.cells[5][i] in Whitespace)
      && (rec.presenze.None? <==> forall i | 0 <= i < |row.cells[6]| :: row.cells[6][i] in Whitespace)
      && (rec.incassoAl.None? <==> forall i | 0 <= i < |row.cells[7]| :: row.cells[7][i] in Whitespace)
      && (rec.presenzeAl.None? <==> forall i | 0 <= i < |row.cells[8]| :: row.cells[8][i] in Whitespace)
  {
    RecordFigureFields(row);
    if ExtractRow(row).Success? {
      TrimEmptyIff(row.cells[5], Whitespace);
      TrimEmptyIff(row.cells[6], Whitespace);
      TrimEmptyIff(row.cells[7], Whitespace);
      TrimEmptyIff(row.cells[8], Whitespace);
    }
  }

  /** The attendance figures are the truncated amounts of their cells. */
  lemma RecordCountsTruncated(row: Row)
    ensures ExtractRow(row).Success? ==>
      var rec := ExtractRow(row).value;
      && (rec.presenze.Some? ==>
            ParseAmount(Cell(row, 6)).Success? && ParseAmount(Cell(row, 6)).value.Some? &&
            rec.presenze.value == Truncate(ParseAmount(Cell(row, 6)).value.value))
      && (rec.presenzeAl.Some? ==>
            ParseAmount(Cell(row, 8)).Success? && ParseAmount(Cell(row, 8)).value.Some? &&
            rec.presenzeAl.value == Truncate(ParseAmount(Cell(row, 8)).value.value))
  {
    RecordFigureFields(row);
    if ExtractRow(row).Success? {
      var rec := ExtractRow(row).value;
      if rec.presenze.Some? {
        FigureOutcome(Cell(row, 6));
        CountTruncatesAmount(Cell(row, 6));
      }
      if rec.presenzeAl.Some? {
        FigureOutcome(Cell(row, 8));
        CountTruncatesAmount(Cell(row, 8));
      }
    }
  }

  /** Cells after the ninth, the visible figures included, do not affect the record. */
  lemma ExtraCellsIgnored(row: Row, extra: seq<string>)
    requires |row.cells| >= ReadCells
    ensures ExtractRow(Row(row.cells + extra, row.isoSpan)) == ExtractRow(row)
  {
    var wide := Row(row.cells + extra, row.isoSpan);
    forall k | 0 <= k < ReadCells ensures Cell(wide, k) == Cell(row, k) {
      assert wide.cells[k] == row.cells[k];
    }
    ExtractRowAccepts(wide);
    ExtractRowAccepts(row);
    if ExtractRow(row).Success? {
      RecordTextFields(wide);
      RecordTextFields(row);
      RecordFigureFields(wide);
      RecordFigureFields(row);
    } else {
      ExtractRowError(wide);
      ExtractRowError(row);
    }
  }
}

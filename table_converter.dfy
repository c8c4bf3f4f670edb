/**
 * The row pipeline of `tsv_to_csv`: classify every row's significance, keep
 * the Pathogenic/Benign rows whose position is an integer, and project them,
 * in input order, onto the output schema.
 */
module TableConverter {
  import opened Wrappers
  import opened Text
  import opened Schema
  import opened Significance
  import opened Columns

  /** One table row, every cell read as text; a column absent from the map is an empty (NaN) cell. */
  type Row = map<string, string>

  /** A tab-separated table as read: its header and its rows. */
  datatype Table = Table(header: seq<string>, rows: seq<Row>)

  /** The text `astype(str)` gives an empty (NaN) cell. */
  const MissingText: string := "nan"

  /** A cell as the normaliser sees it: None for an empty cell. */
  function Cell(row: Row, col: string): Option<string> {
    if col in row then Some(row[col]) else None
  }

  /** A cell passed through as text. */
  function CellText(row: Row, col: string): string {
    if col in row then row[col] else MissingText
  }

  predicate IsDigit(c: char) {
    '0' <= c <= '9'
  }

  predicate AllDigits(s: string) {
    forall i :: 0 <= i < |s| ==> IsDigit(s[i])
  }

  /** The value of a string of decimal digits, most significant first. */
  function DigitsValue(s: string): nat
    requires AllDigits(s)
  {
    if s == [] then 0
    else DigitsValue(s[..|s| - 1]) * 10 + (s[|s| - 1] as int - '0' as int)
  }

  /** Decimal integer text: an optional sign followed by at least one digit. */
  predicate IsIntegerText(s: string) {
    if |s| > 0 && (s[0] == '-' || s[0] == '+') then |s| > 1 && AllDigits(s[1..])
    else |s| > 0 && AllDigits(s)
  }

  /** The integer a position cell holds, if it holds one. */
  function ParseInt(s: string): (r: Option<int>)
    ensures r.Some? <==> IsIntegerText(s)
    ensures r.Some? && s[0] == '-' ==> r.value == -(DigitsValue(s[1..]) as int)
    ensures r.Some? && s[0] == '+' ==> r.value == DigitsValue(s[1..]) as int
    ensures r.Some? && s[0] != '-' && s[0] != '+' ==> r.value == DigitsValue(s) as int
  {
    if |s| > 0 && (s[0] == '-' || s[0] == '+') then
      if |s| > 1 && AllDigits(s[1..]) then
        Some(if s[0] == '-' then -(DigitsValue(s[1..]) as int) else DigitsValue(s[1..]))
      else None
    else if |s| > 0 && AllDigits(s) then Some(DigitsValue(s))
    else None
  }

  /** The decimal digits of `n`, without leading zeros. */
  function NatText(n: nat): (s: string)
    ensures |s| > 0 && AllDigits(s)
  {
    if n < 10 then [('0' as int + n) as char]
    else NatText(n / 10) + [('0' as int + n % 10) as char]
  }

  /** The canonical decimal text of `n`. */
  function IntText(n: int): string {
    if n < 0 then "-" + NatText(-n) else NatText(n)
  }

  lemma {:induction false} DigitsOfNatText(n: nat)
    ensures DigitsValue(NatText(n)) == n
  {
    if n >= 10 {
      DigitsOfNatText(n / 10);
      var s := NatText(n);
      assert s[..|s| - 1] == NatText(n / 10);
    }
  }

  /** Every integer's canonical decimal text parses back to that integer. */
  lemma ParseIntText(n: int)
    ensures ParseInt(IntText(n)) == Some(n)
  {
    if n < 0 {
      ParseNegativeText(-n);
    } else {
      DigitsOfNatText(n);
      var s := NatText(n);
      assert s[0] != '-' && s[0] != '+' by {
        assert IsDigit(s[0]);
      }
    }
  }

  lemma ParseNegativeText(m: nat)
    requires m > 0
    ensures ParseInt("-" + NatText(m)) == Some(-(m as int))
  {
    DigitsOfNatText(m);
    var s := "-" + NatText(m);
    assert s[1..] == NatText(m);
  }

  /** The position of a row: empty cells and non-integer text give None, and such rows are dropped. */
  function ParsePos(cell: Option<string>): Option<int> {
    match cell
    case None => None
    case Some(text) => ParseInt(text)
  }

  /** The normalised significance of a row. */
  function RowLabel(row: Row, cols: Resolved): Option<string> {
    NormalizeClinsig(Cell(row, cols.sig), true)
  }

  /**
   * Whether a row survives the significance filter (`isin(["Pathogenic",
   * "Benign"])`, which every label the normaliser gives passes) and the
   * position `dropna`.
   */
  predicate Kept(row: Row, cols: Resolved) {
    RowLabel(row, cols).Some? && ParsePos(Cell(row, cols.pos)).Some?
  }

  /** The output row of a kept input row. */
  function Project(row: Row, cols: Resolved): (o: OutRow)
    requires Kept(row, cols)
    ensures Some(o.pos) == ParsePos(Cell(row, cols.pos))
    ensures Some(o.clinicalSignificance) == RowLabel(row, cols) && o.clinicalSignificance in Labels
    ensures o.chrom == CellText(row, cols.chrom) && o.ref == CellText(row, cols.ref)
    ensures o.alt == CellText(row, cols.alt) && o.geneSymbol == CellText(row, cols.gene)
    ensures o.hgvsP == if cols.hgvsP.Some? then CellText(row, cols.hgvsP.value) else ""
  {
    OutRow(
      CellText(row, cols.chrom),
      ParsePos(Cell(row, cols.pos)).value,
      CellText(row, cols.ref),
      CellText(row, cols.alt),
      CellText(row, cols.gene),
      RowLabel(row, cols).value,
      if cols.hgvsP.Some? then CellText(row, cols.hgvsP.value) else "")
  }

  /** The filter-and-project pipeline over the rows, in order. */
  function ConvertRows(rows: seq<Row>, cols: Resolved): (out: seq<OutRow>)
    ensures |out| <= |rows|
    ensures forall o :: o in out ==> o.clinicalSignificance in Labels
  {
    if rows == [] then []
    else (if Kept(rows[0], cols) then [Project(rows[0], cols)] else []) + ConvertRows(rows[1..], cols)
  }

  /** The pipeline works row by row: it distributes over concatenation of the input. */
  lemma {:induction false} ConvertRowsAppend(a: seq<Row>, b: seq<Row>, cols: Resolved)
    ensures ConvertRows(a + b, cols) == ConvertRows(a, cols) + ConvertRows(b, cols)
  {
    if a == [] {
      assert a + b == b;
    } else {
      ConvertRowsAppend(a[1..], b, cols);
      assert (a + b)[1..] == a[1..] + b;
      assert ConvertRows(a + b, cols)
          == (if Kept(a[0], cols) then [Project(a[0], cols)] else []) + ConvertRows((a + b)[1..], cols);
    }
  }

  /** Every kept row is in the output, and every output row comes from a kept row. */
  lemma {:induction false} ConvertRowsMembers(rows: seq<Row>, cols: Resolved)
    ensures forall i :: 0 <= i < |rows| && Kept(rows[i], cols) ==> Project(rows[i], cols) in ConvertRows(rows, cols)
    ensures forall o :: o in ConvertRows(rows, cols) ==>
              exists i :: 0 <= i < |rows| && Kept(rows[i], cols) && o == Project(rows[i], cols)
  {
    if rows != [] {
      ConvertRowsMembers(rows[1..], cols);
      assert forall i :: 1 <= i < |rows| ==> rows[i] == rows[1..][i - 1];
      forall o | o in ConvertRows(rows, cols)
        ensures exists i :: 0 <= i < |rows| && Kept(rows[i], cols) && o == Project(rows[i], cols)
      {
        if o !in ConvertRows(rows[1..], cols) {
          assert Kept(rows[0], cols) && o == Project(rows[0], cols);
        } else {
          var i :| 0 <= i < |rows[1..]| && Kept(rows[1..][i], cols) && o == Project(rows[1..][i], cols);
          assert rows[1..][i] == rows[i + 1];
        }
      }
    }
  }

  /** A kept first row heads the output. */
  lemma ConvertRowsHead(rows: seq<Row>, cols: Resolved)
    requires rows != [] && Kept(rows[0], cols)
    ensures |ConvertRows(rows, cols)| > 0 && ConvertRows(rows, cols)[0] == Project(rows[0], cols)
  {
  }

  /** Kept rows keep their relative order in the output. */
  lemma OrderPreserved(rows: seq<Row>, cols: Resolved, i: nat, j: nat)
    requires i < j < |rows| && Kept(rows[i], cols) && Kept(rows[j], cols)
    ensures exists p, q :: 0 <= p < q < |ConvertRows(rows, cols)|
              && ConvertRows(rows, cols)[p] == Project(rows[i], cols)
              && ConvertRows(rows, cols)[q] == Project(rows[j], cols)
  {
    var front, back := rows[..j], rows[j..];
    assert rows == front + back;
    var out, outFront, outBack := ConvertRows(rows, cols), ConvertRows(front, cols), ConvertRows(back, cols);
    ConvertRowsAppend(front, back, cols);
    assert out == outFront + outBack;
    ConvertRowsMembers(front, cols);
    assert front[i] == rows[i];
    assert Project(rows[i], cols) in outFront;
    var p :| 0 <= p < |outFront| && outFront[p] == Project(rows[i], cols);
    assert back[0] == rows[j];
    ConvertRowsHead(back, cols);
    var q := |outFront|;
    assert out[p] == Project(rows[i], cols);
    assert out[q] == Project(rows[j], cols);
  }

  /**
   * `tsv_to_csv` after reading: MissingColumns, with nothing written, when
   * resolution fails; otherwise the converted rows, written even when empty.
   */
  function TsvToCsv(t: Table): (r: Result<Output, Error>)
    ensures r.Failure? <==> Resolve(t.header).Failure?
    ensures r.Failure? ==> r.error == MissingColumns
    ensures r.Success? ==> r.value.written
    ensures r.Success? ==> r.value.rows == ConvertRows(t.rows, Resolve(t.header).value)
    ensures r.Success? ==> forall o :: o in r.value.rows ==> o.clinicalSignificance in Labels
    ensures r.Success? && Resolve(t.header).value.hgvsP.None? ==>
              forall o :: o in r.value.rows ==> o.hgvsP == ""
  {
    match Resolve(t.header)
    case Failure(e) => Failure(e)
    case Success(cols) =>
      ConvertRowsMembers(t.rows, cols);
      Success(Output(true, ConvertRows(t.rows, cols)))
  }
}

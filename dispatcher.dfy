/**
 * `main`: the input path's suffixes, joined and lower-cased, choose the
 * converter. A table marker wins over a variant-call marker; a path with
 * neither is refused.
 */
module Dispatcher {
  import opened Wrappers
  import opened Text
  import opened Schema
  import opened TableConverter
  import opened CallConverter

  /** The two conversion paths. */
  datatype Converter = TablePath | CallPath

  /** The markers of a tab-separated table input, checked first. */
  const TableMarkers: seq<string> := [".tsv", ".txt"]

  /** The markers of a variant-call input. */
  const CallMarkers: seq<string> := [".vcf", ".vcf.gz", ".gz"]

  /** `any(x in sfx for x in markers)`. */
  predicate ContainsAny(sfx: string, markers: seq<string>) {
    exists k :: 0 <= k < |markers| && Contains(sfx, markers[k])
  }

  /** `"".join(suffixes).lower()`. */
  function SuffixText(suffixes: seq<string>): string {
    Lower(Concat(suffixes))
  }

  /** The converter `main` calls for a path with these suffixes, or None when it raises. */
  function Route(suffixes: seq<string>): Option<Converter> {
    var sfx := SuffixText(suffixes);
    if ContainsAny(sfx, TableMarkers) then Some(TablePath)
    else if ContainsAny(sfx, CallMarkers) then Some(CallPath)
    else None
  }

  /**
   * The routing rule in terms of the four distinct markers: table when ".tsv"
   * or ".txt" occurs, otherwise variant calls when ".vcf" or ".gz" occurs,
   * otherwise an error. The ".vcf.gz" marker never decides anything, because
   * every text containing it contains ".gz".
   */
  lemma RouteRule(suffixes: seq<string>)
    ensures var sfx := SuffixText(suffixes);
      && (Route(suffixes) == Some(TablePath) <==> Contains(sfx, ".tsv") || Contains(sfx, ".txt"))
      && (Route(suffixes) == Some(CallPath) <==>
            !Contains(sfx, ".tsv") && !Contains(sfx, ".txt")
            && (Contains(sfx, ".vcf") || Contains(sfx, ".gz")))
      && (Route(suffixes) == None <==>
            !Contains(sfx, ".tsv") && !Contains(sfx, ".txt")
            && !Contains(sfx, ".vcf") && !Contains(sfx, ".gz"))
  {
    var sfx := SuffixText(suffixes);
    if Contains(sfx, ".vcf.gz") {
      assert ".vcf.gz"[4..][..3] == ".gz";
      ContainsAt(".vcf.gz", ".gz");
      ContainsTrans(sfx, ".vcf.gz", ".gz");
    }
    if Contains(sfx, ".tsv") {
      assert Contains(sfx, TableMarkers[0]);
    }
    if Contains(sfx, ".txt") {
      assert Contains(sfx, TableMarkers[1]);
    }
    if Contains(sfx, ".vcf") {
      assert Contains(sfx, CallMarkers[0]);
    }
    if Contains(sfx, ".gz") {
      assert Contains(sfx, CallMarkers[2]);
    }
  }

  /** The joined, lower-cased suffixes contain every single suffix, lower-cased. */
  lemma SuffixOccurs(suffixes: seq<string>, k: nat)
    requires k < |suffixes|
    ensures Contains(SuffixText(suffixes), Lower(suffixes[k]))
  {
    var before, after := Concat(suffixes[..k]), Concat(suffixes[k + 1..]);
    ConcatAt(suffixes, k);
    LowerAppend(before + suffixes[k], after);
    LowerAppend(before, suffixes[k]);
    ContainsInfix(Lower(before), Lower(suffixes[k]), Lower(after));
  }

  /**
   * A path with a ".tsv" or ".txt" suffix, in any case, goes to the table
   * converter whatever other suffixes it has: "variant_summary.txt.gz" is a
   * table.
   */
  lemma TableSuffixWins(suffixes: seq<string>, k: nat)
    requires k < |suffixes| && Lower(suffixes[k]) in {".tsv", ".txt"}
    ensures Route(suffixes) == Some(TablePath)
  {
    SuffixOccurs(suffixes, k);
    RouteRule(suffixes);
  }

  /**
   * A path with a ".vcf" or ".gz" suffix goes to the variant-call converter
   * unless the joined suffixes also contain a table marker.
   */
  lemma CallSuffixRoutes(suffixes: seq<string>, k: nat)
    requires k < |suffixes| && Lower(suffixes[k]) in {".vcf", ".gz"}
    ensures Route(suffixes) == Some(TablePath) || Route(suffixes) == Some(CallPath)
    ensures Route(suffixes) == Some(CallPath) <==>
              !Contains(SuffixText(suffixes), ".tsv") && !Contains(SuffixText(suffixes), ".txt")
  {
    SuffixOccurs(suffixes, k);
    RouteRule(suffixes);
  }

  /**
   * `main(inp, out)` with the file contents given: the table converter on a
   * table path, the variant-call converter on a variant-call path, and the
   * unknown-input error otherwise.
   */
  method Dispatch(suffixes: seq<string>, table: Table, records: seq<Record>) returns (r: Result<Output, Error>)
    ensures Route(suffixes) == Some(TablePath) ==> r == TsvToCsv(table)
    ensures Route(suffixes) == Some(CallPath) ==>
              r.Success? && r.value.rows == ExpandAll(records) && (r.value.written <==> r.value.rows != [])
    ensures Route(suffixes) == None <==> r == Failure(UnknownInputType)
  {
    var sfx := Lower(Concat(suffixes));
    if ContainsAny(sfx, TableMarkers) {
      r := TsvToCsv(table);
    } else if ContainsAny(sfx, CallMarkers) {
      var out := VcfToCsv(records);
      r := Success(out);
    } else {
      r := Failure(UnknownInputType);
    }
  }
}

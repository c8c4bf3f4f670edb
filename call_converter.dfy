/**
 * `vcf_to_csv`: every variant-call record whose significance classifies as
 * Pathogenic or Benign contributes one output row per alternate allele.
 */
module CallConverter {
  import opened Wrappers
  import opened Text
  import opened Schema
  import opened Significance

  /** One variant-call record: CHROM, POS, REF, the ALT alleles and the INFO fields as text. */
  datatype Record = Record(chrom: string, pos: int, ref: string, alts: seq<string>, info: map<string, string>)

  /** The INFO keys searched for the protein change, in priority order. */
  const HgvsKeys: seq<string> := ["HGVSP", "HGVSp", "HGVS_P", "HGVS"]

  /** `info.get(key)`. */
  function Get(info: map<string, string>, key: string): Option<string> {
    if key in info then Some(info[key]) else None
  }

  /** `info.get("CLNSIG") or info.get("CLNSIGCONF") or ""`. */
  function SignificanceText(info: map<string, string>): string {
    if Truthy(Get(info, "CLNSIG")) then info["CLNSIG"]
    else if Truthy(Get(info, "CLNSIGCONF")) then info["CLNSIGCONF"]
    else ""
  }

  /** The label of a record, if it has one. */
  function RecordLabel(info: map<string, string>): (r: Option<string>)
    ensures r.Some? ==> r.value in Labels
  {
    NormalizeClinsig(Some(SignificanceText(info)), true)
  }

  /** The characters that end the gene symbol in GENEINFO. */
  const GeneEnd: set<char> := {'|', ':'}

  /** The gene: the symbol of the first `SYMBOL:ID` entry of GENEINFO, or "". */
  function GeneOf(info: map<string, string>): string {
    if Truthy(Get(info, "GENEINFO")) then FirstSegment(info["GENEINFO"], GeneEnd) else ""
  }

  /**
   * `str(gi).split("|")[0].split(":")[0]` is the text of `gi` before its first
   * `|` or `:`.
   */
  lemma {:induction false} GeneSplitTwice(gi: string)
    ensures Split(Split(gi, {'|'})[0], {':'})[0] == FirstSegment(gi, GeneEnd)
    ensures FirstSegment(FirstSegment(gi, {'|'}), {':'}) == FirstSegment(gi, GeneEnd)
  {
    FirstSegmentIsFirstPart(gi, {'|'});
    FirstSegmentIsFirstPart(FirstSegment(gi, {'|'}), {':'});
    FirstSegmentNested(gi);
  }

  lemma {:induction false} FirstSegmentNested(gi: string)
    ensures FirstSegment(FirstSegment(gi, {'|'}), {':'}) == FirstSegment(gi, GeneEnd)
  {
    if gi != [] && gi[0] != '|' {
      FirstSegmentNested(gi[1..]);
      var inner := FirstSegment(gi, {'|'});
      assert inner == [gi[0]] + FirstSegment(gi[1..], {'|'});
      assert inner[1..] == FirstSegment(gi[1..], {'|'});
    }
  }

  /** The value of the first key of `keys` present with a non-empty value, or "". */
  function FirstNonEmpty(info: map<string, string>, keys: seq<string>): string {
    if keys == [] then ""
    else if Truthy(Get(info, keys[0])) then info[keys[0]]
    else FirstNonEmpty(info, keys[1..])
  }

  /** The protein change of a record. */
  function ProteinChangeOf(info: map<string, string>): string {
    FirstNonEmpty(info, HgvsKeys)
  }

  /**
   * `label in ["Pathogenic", "Benign"]`: whether a record contributes rows.
   * Every label the normaliser gives is one of the two, so this is whether
   * the record has a label at all.
   */
  predicate Qualifies(rec: Record) {
    RecordLabel(rec.info).Some?
  }

  /** One row per alternate allele, in ALT order, sharing everything but `alt`. */
  function AltRows(rec: Record, gene: string, sig: string, hgvsP: string): (rows: seq<OutRow>)
    ensures |rows| == |rec.alts|
    ensures forall k :: 0 <= k < |rows| ==>
              rows[k] == OutRow(rec.chrom, rec.pos, rec.ref, rec.alts[k], gene, sig, hgvsP)
  {
    seq(|rec.alts|, k requires 0 <= k < |rec.alts| =>
      OutRow(rec.chrom, rec.pos, rec.ref, rec.alts[k], gene, sig, hgvsP))
  }

  /** The rows one record contributes: one per alternate allele when it qualifies. */
  function RecordRows(rec: Record): (rows: seq<OutRow>)
  {
    if Qualifies(rec) then
      AltRows(rec, GeneOf(rec.info), RecordLabel(rec.info).value, ProteinChangeOf(rec.info))
    else []
  }

  /**
   * A qualifying record with N alternate alleles gives N rows, in ALT order,
   * that share the record's chrom, pos, ref, gene, label and protein change and
   * differ only in `alt`; any other record gives none.
   */
  lemma AltExpansion(rec: Record)
    ensures |RecordRows(rec)| == if Qualifies(rec) then |rec.alts| else 0
    ensures forall k :: 0 <= k < |RecordRows(rec)| ==>
              var row := RecordRows(rec)[k];
              && row.alt == rec.alts[k]
              && row.chrom == rec.chrom && row.pos == rec.pos && row.ref == rec.ref
              && row.geneSymbol == GeneOf(rec.info)
              && Some(row.clinicalSignificance) == RecordLabel(rec.info)
              && row.hgvsP == ProteinChangeOf(rec.info)
    ensures forall k, l :: 0 <= k < |RecordRows(rec)| && 0 <= l < |RecordRows(rec)| ==>
              RecordRows(rec)[k] == RecordRows(rec)[l].(alt := rec.alts[k])
  {
  }

  /** The rows `rowsOf` gives each of the first `n` records, concatenated in record order. */
  function Expand(recs: seq<Record>, n: nat, rowsOf: Record -> seq<OutRow>): seq<OutRow>
    requires n <= |recs|
  {
    if n == 0 then [] else Expand(recs, n - 1, rowsOf) + rowsOf(recs[n - 1])
  }

  /** Every row a record contributes carries the label Pathogenic or Benign. */
  lemma RecordRowsLabels(rec: Record)
    ensures forall o :: o in RecordRows(rec) ==> o.clinicalSignificance in Labels
  {
    AltExpansion(rec);
  }

  /** The rows of all records, in record order. */
  function ExpandAll(recs: seq<Record>): seq<OutRow> {
    Expand(recs, |recs|, RecordRows)
  }

  /** Every row of a prefix comes from one of its records. */
  lemma {:induction false} ExpandMembers(recs: seq<Record>, n: nat, rowsOf: Record -> seq<OutRow>)
    requires n <= |recs|
    ensures forall o :: o in Expand(recs, n, rowsOf) ==> exists i :: 0 <= i < n && o in rowsOf(recs[i])
  {
    if n > 0 {
      ExpandMembers(recs, n - 1, rowsOf);
    }
  }

  /** Every output row carries the label Pathogenic or Benign. */
  lemma ExpandAllLabels(recs: seq<Record>)
    ensures forall o :: o in ExpandAll(recs) ==> o.clinicalSignificance in Labels
  {
    ExpandMembers(recs, |recs|, RecordRows);
    forall o | o in ExpandAll(recs) ensures o.clinicalSignificance in Labels {
      var i :| 0 <= i < |recs| && o in RecordRows(recs[i]);
      RecordRowsLabels(recs[i]);
    }
  }

  /** Records after the first `n` do not change the rows of the first `n`. */
  lemma {:induction false} ExpandExtend(a: seq<Record>, b: seq<Record>, n: nat, rowsOf: Record -> seq<OutRow>)
    requires n <= |a|
    ensures Expand(a + b, n, rowsOf) == Expand(a, n, rowsOf)
  {
    if n > 0 {
      ExpandExtend(a, b, n - 1, rowsOf);
      assert (a + b)[n - 1] == a[n - 1];
    }
  }

  lemma {:induction false} ExpandAppend(a: seq<Record>, b: seq<Record>, k: nat, rowsOf: Record -> seq<OutRow>)
    requires k <= |b|
    ensures Expand(a + b, |a| + k, rowsOf) == Expand(a, |a|, rowsOf) + Expand(b, k, rowsOf)
  {
    if k == 0 {
      ExpandExtend(a, b, |a|, rowsOf);
    } else {
      ExpandAppend(a, b, k - 1, rowsOf);
      assert (a + b)[|a| + k - 1] == b[k - 1];
    }
  }

  /** Expansion works record by record: it distributes over concatenation. */
  lemma ExpandAllAppend(a: seq<Record>, b: seq<Record>)
    ensures ExpandAll(a + b) == ExpandAll(a) + ExpandAll(b)
  {
    var n := |a + b|;
    assert n == |a| + |b|;
    ExpandAppend(a, b, |b|, RecordRows);
    assert ExpandAll(a + b) == Expand(a + b, n, RecordRows);
  }

  /** A single record expands to its own rows. */
  lemma ExpandAllSingle(rec: Record)
    ensures ExpandAll([rec]) == RecordRows(rec)
  {
    assert Expand([rec], 1, RecordRows) == Expand([rec], 0, RecordRows) + RecordRows(rec);
  }

  /** A record with neither CLNSIG nor CLNSIGCONF set contributes no rows. */
  lemma NoSignificanceNoRows(rec: Record)
    requires !Truthy(Get(rec.info, "CLNSIG")) && !Truthy(Get(rec.info, "CLNSIGCONF"))
    ensures RecordRows(rec) == []
  {
    assert SignificanceText(rec.info) == "";
    assert Split("", Delimiters) == [""];
    assert Strip("") == "";
    assert Canonical("") == "";
    assert !Matches("", true);
    ScanTermsFirstMatch([""], true);
  }

  /** An empty or absent CLNSIG falls back to CLNSIGCONF. */
  lemma SignificanceFallback(info: map<string, string>)
    ensures Truthy(Get(info, "CLNSIG")) ==> RecordLabel(info) == NormalizeClinsig(Get(info, "CLNSIG"), true)
    ensures !Truthy(Get(info, "CLNSIG")) && Truthy(Get(info, "CLNSIGCONF")) ==>
              RecordLabel(info) == NormalizeClinsig(Get(info, "CLNSIGCONF"), true)
  {
  }

  /**
   * The gene is the longest prefix of GENEINFO holding neither `|` nor `:`,
   * and "" when GENEINFO is absent or empty.
   */
  lemma GeneIsFirstSymbol(info: map<string, string>)
    ensures !Truthy(Get(info, "GENEINFO")) ==> GeneOf(info) == ""
    ensures Truthy(Get(info, "GENEINFO")) ==>
              var gi, gene := info["GENEINFO"], GeneOf(info);
              && |gene| <= |gi| && gene == gi[..|gene|]
              && (forall i :: 0 <= i < |gene| ==> gene[i] != '|' && gene[i] != ':')
              && (|gene| == |gi| || gi[|gene|] == '|' || gi[|gene|] == ':')
  {
    if Truthy(Get(info, "GENEINFO")) {
      var gi := info["GENEINFO"];
      var gene := FirstSegment(gi, GeneEnd);
      assert gene == gi[..|gene|];
    }
  }

  /** Whether `key` is present with a non-empty value. */
  predicate HasValue(info: map<string, string>, key: string) {
    Truthy(Get(info, key))
  }

  /**
   * The protein change is the value of the first key, in priority order, that
   * is present with a non-empty value, and "" when there is none.
   */
  lemma {:induction false} FirstNonEmptyKey(info: map<string, string>, keys: seq<string>)
    ensures FirstNonEmpty(info, keys) == "" <==> forall i :: 0 <= i < |keys| ==> !HasValue(info, keys[i])
    ensures forall i ::
              (&& 0 <= i < |keys|
               && HasValue(info, keys[i])
               && (forall j :: 0 <= j < i ==> !HasValue(info, keys[j])))
              ==> FirstNonEmpty(info, keys) == info[keys[i]]
  {
    if keys != [] {
      FirstNonEmptyKey(info, keys[1..]);
      assert forall i :: 1 <= i < |keys| ==> keys[i] == keys[1..][i - 1];
      if !HasValue(info, keys[0]) {
        forall i | 0 <= i < |keys| && HasValue(info, keys[i])
            && (forall j :: 0 <= j < i ==> !HasValue(info, keys[j]))
          ensures FirstNonEmpty(info, keys) == info[keys[i]]
        {
          assert i > 0;
          forall j | 0 <= j < i - 1 ensures !HasValue(info, keys[1..][j]) {
            assert keys[1..][j] == keys[j + 1];
          }
        }
      }
    }
  }

  /** The key-priority loop with `break`. */
  method ProteinChange(info: map<string, string>) returns (hgvsP: string)
    ensures hgvsP == ProteinChangeOf(info)
  {
    hgvsP := "";
    var i := 0;
    while i < |HgvsKeys|
      invariant 0 <= i <= |HgvsKeys|
      invariant FirstNonEmpty(info, HgvsKeys[i..]) == ProteinChangeOf(info)
    {
      var key := HgvsKeys[i];
      if key in info && info[key] != "" {
        hgvsP := info[key];
        break;
      }
      assert HgvsKeys[i..][1..] == HgvsKeys[i + 1..];
      i := i + 1;
    }
  }

  /** The inner loop of `vcf_to_csv`: one appended row per ALT allele, in ALT order. */
  method AppendAltRows(rows: seq<OutRow>, rec: Record, gene: string, sig: string, hgvsP: string)
    returns (rows': seq<OutRow>)
    ensures rows' == rows + AltRows(rec, gene, sig, hgvsP)
  {
    rows' := rows;
    ghost var expected := AltRows(rec, gene, sig, hgvsP);
    for j := 0 to |rec.alts|
      invariant rows' == rows + expected[..j]
    {
      assert expected[..j + 1] == expected[..j] + [expected[j]];
      rows' := rows' + [OutRow(rec.chrom, rec.pos, rec.ref, rec.alts[j], gene, sig, hgvsP)];
    }
    assert expected[..|rec.alts|] == expected;
  }

  /**
   * The body of the per-record loop of `vcf_to_csv`: a record without a
   * Pathogenic or Benign label is skipped (`continue`); otherwise one row per
   * ALT allele is appended.
   */
  method EmitRecord(rows: seq<OutRow>, rec: Record) returns (rows': seq<OutRow>)
    ensures rows' == rows + RecordRows(rec)
  {
    var info := rec.info;
    var sig := NormalizeClinsig(Some(SignificanceText(info)), true);
    if !(sig.Some? && sig.value in Labels) {
      return rows;
    }
    var gene := "";
    var gi := Get(info, "GENEINFO");
    if Truthy(gi) {
      gene := Split(Split(gi.value, {'|'})[0], {':'})[0];
      GeneSplitTwice(gi.value);
    }
    var hgvsP := ProteinChange(info);
    rows' := AppendAltRows(rows, rec, gene, sig.value, hgvsP);
  }

  /**
   * `vcf_to_csv` after reading: the rows of every qualifying record, one per
   * ALT allele, in record order; the CSV is written only when there are rows.
   */
  method VcfToCsv(records: seq<Record>) returns (out: Output)
    ensures out.rows == ExpandAll(records)
    ensures out.written <==> out.rows != []
  {
    var rows: seq<OutRow> := [];
    for i := 0 to |records|
      invariant rows == Expand(records, i, RecordRows)
    {
      rows := EmitRecord(rows, records[i]);
    }
    out := Output(rows != [], rows);
  }
}

/**
 * Column-alias resolution of the table converter: every logical field has an
 * ordered list of aliases, matched case-insensitively against the header.
 */
module Columns {
  import opened Wrappers
  import opened Text
  import opened Schema

  const ChromAliases: seq<string> := ["chromosome", "chrom", "chr"]
  const PosAliases: seq<string> := ["start", "pos", "position"]
  const RefAliases: seq<string> := ["referenceallele", "ref"]
  const AltAliases: seq<string> := ["alternateallele", "alt", "altallele"]
  const GeneAliases: seq<string> := ["genesymbol", "gene_symbol", "gene", "symbol"]
  const SigAliases: seq<string> := ["clinicalsignificance", "clinsig", "clinical_significance"]
  const HgvsAliases: seq<string> := ["hgvsp", "hgvs_p", "protein_change", "protein_hgvs"]

  /**
   * `{c.lower(): c for c in columns}`: each lower-cased header name mapped to a
   * header; when two headers agree up to case, the later one is kept.
   */
  function ColumnIndex(header: seq<string>): (cols: map<string, string>)
    ensures cols.Keys == set h | h in header :: Lower(h)
    ensures forall k :: k in cols ==> cols[k] in header && Lower(cols[k]) == k
  {
    if header == [] then map[]
    else
      var last := header[|header| - 1];
      assert header == header[..|header| - 1] + [last];
      ColumnIndex(header[..|header| - 1])[Lower(last) := last]
  }

  /** The entry for a lower-cased name is the last header with that name. */
  lemma {:induction false} LaterHeaderWins(header: seq<string>, i: nat)
    requires i < |header|
    requires forall j :: i < j < |header| ==> Lower(header[j]) != Lower(header[i])
    ensures ColumnIndex(header)[Lower(header[i])] == header[i]
  {
    var n := |header| - 1;
    if i < n {
      LaterHeaderWins(header[..n], i);
    }
  }

  /** `pick(*cands)`: the header of the first candidate present, case-insensitively. */
  function Pick(cols: map<string, string>, cands: seq<string>): (r: Option<string>)
    ensures r.Some? ==> r.value in cols.Values
  {
    if cands == [] then None
    else if Lower(cands[0]) in cols then Some(cols[Lower(cands[0])])
    else Pick(cols, cands[1..])
  }

  /** Whether candidate `c` is present under `cols`. */
  predicate Present(cols: map<string, string>, c: string) {
    Lower(c) in cols
  }

  /**
   * pick returns the entry of the first candidate, in argument order, that is
   * present, and None when no candidate is.
   */
  lemma {:induction false} PickFirstMatch(cols: map<string, string>, cands: seq<string>)
    ensures Pick(cols, cands).None? <==> forall i :: 0 <= i < |cands| ==> !Present(cols, cands[i])
    ensures forall i ::
              (&& 0 <= i < |cands|
               && Present(cols, cands[i])
               && (forall j :: 0 <= j < i ==> !Present(cols, cands[j])))
              ==> Pick(cols, cands) == Some(cols[Lower(cands[i])])
  {
    if cands != [] {
      PickFirstMatch(cols, cands[1..]);
      assert forall i :: 1 <= i < |cands| ==> cands[i] == cands[1..][i - 1];
      if !Present(cols, cands[0]) {
        forall i | 0 <= i < |cands| && Present(cols, cands[i])
            && (forall j :: 0 <= j < i ==> !Present(cols, cands[j]))
          ensures Pick(cols, cands) == Some(cols[Lower(cands[i])])
        {
          assert i > 0;
          forall j | 0 <= j < i - 1 ensures !Present(cols, cands[1..][j]) {
            assert cands[1..][j] == cands[j + 1];
          }
        }
      }
    }
  }

  /** Whether some candidate equals some header name up to case. */
  predicate Resolvable(header: seq<string>, cands: seq<string>) {
    exists c, h :: c in cands && h in header && Lower(c) == Lower(h)
  }

  /**
   * Against a header: pick finds a column exactly when some candidate matches
   * some header name up to case, and what it finds is a header name equal up
   * to case to one of the candidates.
   */
  lemma PickFromHeader(header: seq<string>, cands: seq<string>)
    ensures Pick(ColumnIndex(header), cands).Some? <==> Resolvable(header, cands)
    ensures Pick(ColumnIndex(header), cands).Some? ==>
              && Pick(ColumnIndex(header), cands).value in header
              && exists i :: 0 <= i < |cands| && Lower(cands[i]) == Lower(Pick(ColumnIndex(header), cands).value)
  {
    var cols := ColumnIndex(header);
    PickFirstMatch(cols, cands);
    if Resolvable(header, cands) {
      var c, h :| c in cands && h in header && Lower(c) == Lower(h);
      var i :| 0 <= i < |cands| && cands[i] == c;
      assert Present(cols, cands[i]);
    }
    if Pick(cols, cands).Some? {
      var i := FirstPresent(cols, cands);
      assert Pick(cols, cands) == Some(cols[Lower(cands[i])]);
      var h := cols[Lower(cands[i])];
      assert h in header && Lower(h) == Lower(cands[i]);
    }
  }

  /** The index of the first present candidate. */
  function FirstPresent(cols: map<string, string>, cands: seq<string>): (i: nat)
    requires exists k :: 0 <= k < |cands| && Present(cols, cands[k])
    ensures i < |cands| && Present(cols, cands[i])
    ensures forall j :: 0 <= j < i ==> !Present(cols, cands[j])
  {
    if Present(cols, cands[0]) then 0
    else
      var k :| 0 <= k < |cands| && Present(cols, cands[k]);
      assert cands[1..][k - 1] == cands[k];
      1 + FirstPresent(cols, cands[1..])
  }

  /** The header names chosen for the logical fields; `hgvsP` is optional. */
  datatype Resolved = Resolved(
    chrom: string, pos: string, ref: string, alt: string,
    gene: string, sig: string, hgvsP: Option<string>)

  /**
   * The column resolution of `tsv_to_csv`: pick every field, and fail with
   * MissingColumns unless all six required picks are truthy.
   */
  function Resolve(header: seq<string>): (r: Result<Resolved, Error>)
    ensures r.Failure? ==> r.error == MissingColumns
    ensures r.Success? ==>
              var c := r.value;
              && c.chrom in header && c.pos in header && c.ref in header
              && c.alt in header && c.gene in header && c.sig in header
              && (c.hgvsP.Some? ==> c.hgvsP.value in header)
    ensures r.Success? ==>
              var cols, c := ColumnIndex(header), r.value;
              && Some(c.chrom) == Pick(cols, ChromAliases) && Some(c.pos) == Pick(cols, PosAliases)
              && Some(c.ref) == Pick(cols, RefAliases) && Some(c.alt) == Pick(cols, AltAliases)
              && Some(c.gene) == Pick(cols, GeneAliases) && Some(c.sig) == Pick(cols, SigAliases)
              && c.hgvsP == Pick(cols, HgvsAliases)
  {
    var cols := ColumnIndex(header);
    var chrom := Pick(cols, ChromAliases);
    var pos := Pick(cols, PosAliases);
    var ref := Pick(cols, RefAliases);
    var alt := Pick(cols, AltAliases);
    var gene := Pick(cols, GeneAliases);
    var sig := Pick(cols, SigAliases);
    var hgvsP := Pick(cols, HgvsAliases);
    if !(Truthy(chrom) && Truthy(pos) && Truthy(ref) && Truthy(alt) && Truthy(gene) && Truthy(sig))
    then Failure(MissingColumns)
    else Success(Resolved(chrom.value, pos.value, ref.value, alt.value, gene.value, sig.value, hgvsP))
  }

  /** A pick from non-empty candidates is never the empty name, so truthiness is presence. */
  lemma PickTruthy(header: seq<string>, cands: seq<string>)
    requires forall c :: c in cands ==> c != ""
    ensures Truthy(Pick(ColumnIndex(header), cands)) <==> Resolvable(header, cands)
  {
    PickFromHeader(header, cands);
    var r := Pick(ColumnIndex(header), cands);
    if r.Some? {
      var i :| 0 <= i < |cands| && Lower(cands[i]) == Lower(r.value);
      assert |cands[i]| == |Lower(cands[i])| == |r.value|;
      assert cands[i] in cands;
    }
  }

  /** Resolution fails exactly when one of the six required fields matches no header name under any alias. */
  lemma ResolveFailsIffRequiredMissing(header: seq<string>)
    ensures Resolve(header).Failure? <==>
              || !Resolvable(header, ChromAliases) || !Resolvable(header, PosAliases)
              || !Resolvable(header, RefAliases) || !Resolvable(header, AltAliases)
              || !Resolvable(header, GeneAliases) || !Resolvable(header, SigAliases)
  {
    PickTruthy(header, ChromAliases);
    PickTruthy(header, PosAliases);
    PickTruthy(header, RefAliases);
    PickTruthy(header, AltAliases);
    PickTruthy(header, GeneAliases);
    PickTruthy(header, SigAliases);
  }

  /** The protein-change column is optional: it is None exactly when no alias of it matches. */
  lemma ResolveOptionalProteinChange(header: seq<string>)
    requires Resolve(header).Success?
    ensures Resolve(header).value.hgvsP.None? <==> !Resolvable(header, HgvsAliases)
  {
    PickFromHeader(header, HgvsAliases);
  }
}

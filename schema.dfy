/** The converter's fixed output schema and its two errors. */
module Schema {

  /**
   * One output row, one field per output column, in the column order of the
   * written file: chrom, pos, ref, alt, gene_symbol, clinical_significance,
   * hgvs_p.
   */
  datatype OutRow = OutRow(
    chrom: string,
    pos: int,
    ref: string,
    alt: string,
    geneSymbol: string,
    clinicalSignificance: string,
    hgvsP: string)

  /** What one conversion leaves behind: whether the CSV was written, and its data rows. */
  datatype Output = Output(written: bool, rows: seq<OutRow>)

  /** The two `ValueError`s: required table columns missing, or an unrecognised input suffix. */
  datatype Error = MissingColumns | UnknownInputType
}

# ClinVar-to-CSV converter, modelled in Dafny

This project models the core of `scripts/clinvar_to_csv.py`. The script
turns ClinVar annotation data into one compact CSV with the columns
`chrom, pos, ref, alt, gene_symbol, clinical_significance, hgvs_p`. It keeps
only records whose clinical significance normalises to `Pathogenic` or
`Benign`. The input is either a tab-separated variant summary table
(`tsv_to_csv`) or a VCF file (`vcf_to_csv`), and `main` chooses the
converter from the input path's suffixes.

Modules, one per concern of the script:

- `Wrappers` (`wrappers.dfy`): `Option` and `Result`.
- `Text` (`text.dfy`): the Python string operations the script relies on.
  These are `strip`, `lower`, `capitalize`, `replace`, `re.split` on a
  character class, `str.split(d)[0]`, `"".join` and `sub in s`, each with
  its properties.
- `Schema` (`schema.dfy`): the output row, the conversion result
  `Output(written, rows)` and the two `ValueError`s (`MissingColumns`,
  `UnknownInputType`).
- `Significance` (`significance.dfy`): `KEEP_MAP` and `normalize_clinsig`,
  a left-to-right scan with early return over the split terms.
- `Columns` (`columns.dfy`): the lower-cased column index, `pick` and the
  resolution of the seven logical columns.
- `TableConverter` (`table_converter.dfy`): the row filter and projection
  of `tsv_to_csv`, as pure functions over the table as read.
- `CallConverter` (`call_converter.dfy`): `vcf_to_csv`, as imperative
  methods. They are a record loop with `continue`, the HGVS key loop with
  `break`, and the ALT loop that appends rows. Each method is proved against
  a specification function: `ProteinChange` against `ProteinChangeOf`,
  `AppendAltRows` against `AltRows`, `EmitRecord` against `RecordRows` and
  `VcfToCsv` against `ExpandAll`.
- `Dispatcher` (`dispatcher.dfy`): the suffix routing of `main`.

File reading and writing are not modelled. A converter receives what was
read: the header and rows of the table, or the list of VCF records. It
returns whether the CSV would be written and the rows it would hold.

Three behaviours of the code worth noting:

- With `collapse_likely=False`, the code never returns a `Likely_*` label.
  A likely-qualified key falls through both `if`s and the scan moves on to
  the next term (`UncollapsedSkipsLikely`). No call site passes `False`.
- A `.txt.gz` path contains `.txt`, and the table check comes first, so it
  goes to the table converter, not the VCF converter (`TableSuffixWins`).
  The `.vcf.gz` marker never decides anything, because any text containing
  it also contains `.gz` (`RouteRule`).
- The table path keeps any integer position, negative ones included.
  Nothing in the code rejects a negative `pos`, so the model does not claim
  that `pos` is non-negative.

## Model

| member | source | states |
|---|---|---|
| Text.TrimStartSpec | scripts/clinvar_to_csv.py:32 | left trimming removes exactly the leading whitespace (Python's `isspace` set), leaving a suffix that does not start with whitespace |
| Text.TrimEndSpec | scripts/clinvar_to_csv.py:32 | right trimming removes exactly the trailing whitespace, leaving a prefix that does not end with whitespace |
| Text.StripSpec | scripts/clinvar_to_csv.py:32 | `strip()` is the infix that neither starts nor ends with whitespace, with only whitespace before and after it |
| Text.LowerIsLowered | scripts/clinvar_to_csv.py:32 | after `lower()` no ASCII upper-case letter or Kelvin sign is left, and lowering again changes nothing |
| Text.ReplaceCharRemoves | scripts/clinvar_to_csv.py:32 | after `replace(" ", "_")` no space is left, every other character stays in place, and text without a space is unchanged |
| Text.Split | scripts/clinvar_to_csv.py:30 | `re.split` always yields at least one part |
| Text.SplitSpec | scripts/clinvar_to_csv.py:30 | no part holds a delimiter, and the first part is the prefix up to the first delimiter |
| Text.SplitWeave | scripts/clinvar_to_csv.py:30 | splitting loses nothing: the parts woven back with the delimiters give the input, and there is one more part than delimiters |
| Text.SplitNoDelimiter | scripts/clinvar_to_csv.py:30 | a delimiter-free string is a single part |
| Text.SplitAtFirstDelimiter | scripts/clinvar_to_csv.py:30 | the text before the first delimiter is the first part, and the rest splits on its own |
| Text.FirstSegment | scripts/clinvar_to_csv.py:91 | `split(d)[0]` is the longest delimiter-free prefix |
| Text.FirstSegmentIsFirstPart | scripts/clinvar_to_csv.py:91 | `split(d)[0]` is the first part of the full split |
| Text.ContainsAt | scripts/clinvar_to_csv.py:109 | `sub in s` holds exactly when `sub` occurs at some offset of `s` |
| Text.ContainsTrans | scripts/clinvar_to_csv.py:112 | an occurrence inside an occurrence is an occurrence |
| Text.ConcatAt | scripts/clinvar_to_csv.py:108 | `"".join(parts)` holds every part between the join of the parts before it and the join of those after it |
| Significance.Canonical | scripts/clinvar_to_csv.py:32 | the lookup key has the stripped term's length and contains no space |
| Significance.CapitalizedTerms | scripts/clinvar_to_csv.py:37 | `"pathogenic".capitalize()` is `Pathogenic` and `"benign".capitalize()` is `Benign` |
| Significance.TermLabel | scripts/clinvar_to_csv.py:33-37 | a term stops the scan exactly when its key is in `KEEP_MAP` and either likely-terms are collapsed or the key is exact; its label is `KEEP_MAP[key]`, Pathogenic or Benign |
| Significance.ScanTerms | scripts/clinvar_to_csv.py:31-38 | the scan only ever returns Pathogenic or Benign |
| Significance.NormalizeClinsig | scripts/clinvar_to_csv.py:26-38 | an absent value gives None; every result is Pathogenic, Benign or None |
| Significance.ScanTermsFirstMatch | scripts/clinvar_to_csv.py:31-38 | the scan returns the label of the first matching term, and None exactly when no term matches |
| Significance.NormalizeFirstMatch | scripts/clinvar_to_csv.py:26-38 | normalisation of a present value is the `KEEP_MAP` label of the first matching term of its split, and None exactly when none matches |
| Significance.UncollapsedSkipsLikely | scripts/clinvar_to_csv.py:33-37 | without collapsing, only the exact keys `pathogenic` and `benign` stop the scan, and likely-qualified keys never do |
| Significance.UncollapsedImpliesCollapsed | scripts/clinvar_to_csv.py:33-37 | a value that classifies without collapsing also classifies with it |
| Significance.FirstTermWins | scripts/clinvar_to_csv.py:30-35 | a recognised first term decides the label whatever follows the delimiter ("Benign\|Pathogenic" gives Benign) |
| Significance.UnrecognisedTerm | scripts/clinvar_to_csv.py:30-38 | a lone term with an unknown key, such as "Uncertain significance", gives None |
| Columns.ColumnIndex | scripts/clinvar_to_csv.py:44 | the index's keys are exactly the lower-cased header names, and each maps to a header with that lower-cased name |
| Columns.LaterHeaderWins | scripts/clinvar_to_csv.py:44 | when headers collide up to case, the later header wins |
| Columns.Pick | scripts/clinvar_to_csv.py:46-50 | `pick` returns only names that are in the index |
| Columns.PickFirstMatch | scripts/clinvar_to_csv.py:46-50 | `pick` returns the entry of the first present candidate in argument order, and None exactly when none is present |
| Columns.PickFromHeader | scripts/clinvar_to_csv.py:44-50 | against a header, `pick` succeeds exactly when some candidate equals some header name up to case, and it returns such a header name |
| Columns.Resolve | scripts/clinvar_to_csv.py:52-61 | resolution fails only with MissingColumns; on success each field's column is `pick` over that field's own alias list (`hgvs_p` possibly None), and every chosen column is a header name |
| Columns.PickTruthy | scripts/clinvar_to_csv.py:60-61 | for non-empty aliases, a pick is truthy exactly when some alias matches a header |
| Columns.ResolveFailsIffRequiredMissing | scripts/clinvar_to_csv.py:52-61 | resolution fails exactly when one of the six required fields matches no header under any alias |
| Columns.ResolveOptionalProteinChange | scripts/clinvar_to_csv.py:58 | the protein-change column is optional: it is absent exactly when none of its aliases matches |
| TableConverter.ParseInt | scripts/clinvar_to_csv.py:68 | a cell parses exactly when it is an optionally signed, non-empty run of digits; the value is the decimal value of the digits, negated after a `-` sign |
| TableConverter.ParseIntText | scripts/clinvar_to_csv.py:68 | every integer's decimal text parses back to that integer |
| TableConverter.Project | scripts/clinvar_to_csv.py:66-74 | an output row carries the parsed position, the label, the passthrough text of chrom, ref, alt and gene, and the protein change or "" when that column is absent |
| TableConverter.ConvertRows | scripts/clinvar_to_csv.py:63-74 | the pipeline never adds rows, and every output label is Pathogenic or Benign |
| TableConverter.ConvertRowsAppend | scripts/clinvar_to_csv.py:63-74 | the pipeline works row by row: it distributes over concatenation of the input |
| TableConverter.ConvertRowsMembers | scripts/clinvar_to_csv.py:63-74 | every row with a label and an integer position appears in the output, projected, and every output row comes from such a row |
| TableConverter.OrderPreserved | scripts/clinvar_to_csv.py:64-74 | kept rows keep their relative input order in the output |
| TableConverter.TsvToCsv | scripts/clinvar_to_csv.py:40-77 | fails exactly when column resolution fails, with MissingColumns; on success the CSV is written, even when empty, its rows are the row pipeline over the input rows with the resolved columns, every label is Pathogenic or Benign, and without a protein-change column every `hgvs_p` is "" |
| CallConverter.RecordLabel | scripts/clinvar_to_csv.py:85 | a record's label is Pathogenic or Benign when present |
| CallConverter.SignificanceFallback | scripts/clinvar_to_csv.py:85 | a non-empty CLNSIG decides the label; otherwise a non-empty CLNSIGCONF does |
| CallConverter.NoSignificanceNoRows | scripts/clinvar_to_csv.py:85-87 | a record with neither CLNSIG nor CLNSIGCONF contributes no rows |
| CallConverter.GeneSplitTwice | scripts/clinvar_to_csv.py:91 | `split("\|")[0].split(":")[0]` is the text before the first `\|` or `:` |
| CallConverter.GeneIsFirstSymbol | scripts/clinvar_to_csv.py:88-91 | the gene is the longest prefix of GENEINFO without `\|` or `:`, and "" when GENEINFO is absent or empty |
| CallConverter.FirstNonEmptyKey | scripts/clinvar_to_csv.py:92-95 | the protein change is the value of the first key, in priority order, that is present and non-empty, and "" exactly when there is none |
| CallConverter.ProteinChange | scripts/clinvar_to_csv.py:92-95 | the key loop with `break` computes that first non-empty value |
| CallConverter.AltExpansion | scripts/clinvar_to_csv.py:96-101 | a qualifying record with N ALT alleles gives N rows in ALT order; they share chrom, pos, ref, gene, label and protein change and differ only in `alt`; any other record gives none |
| CallConverter.RecordRowsLabels | scripts/clinvar_to_csv.py:85-87 | every row a record contributes is labelled Pathogenic or Benign |
| CallConverter.ExpandMembers | scripts/clinvar_to_csv.py:82-101 | every output row comes from one of the records |
| CallConverter.ExpandAllLabels | scripts/clinvar_to_csv.py:82-101 | every output row is labelled Pathogenic or Benign |
| CallConverter.ExpandAppend | scripts/clinvar_to_csv.py:82-83 | records are expanded one at a time, in order |
| CallConverter.ExpandAllAppend | scripts/clinvar_to_csv.py:82-101 | the conversion distributes over concatenation of the record list |
| CallConverter.ExpandAllSingle | scripts/clinvar_to_csv.py:82-101 | a single record converts to exactly its own rows |
| CallConverter.AppendAltRows | scripts/clinvar_to_csv.py:96-101 | the ALT loop appends one row per ALT allele, in ALT order |
| CallConverter.EmitRecord | scripts/clinvar_to_csv.py:83-101 | the loop body skips an unlabelled record and otherwise appends exactly that record's rows |
| CallConverter.VcfToCsv | scripts/clinvar_to_csv.py:79-105 | the rows are the expansion of all records in order, and the CSV is written exactly when there is at least one row |
| Dispatcher.RouteRule | scripts/clinvar_to_csv.py:107-116 | table when the joined lower-cased suffixes contain `.tsv` or `.txt`; otherwise VCF when they contain `.vcf` or `.gz`; otherwise an error |
| Dispatcher.SuffixOccurs | scripts/clinvar_to_csv.py:108 | the joined lower-cased suffixes contain each suffix lower-cased |
| Dispatcher.TableSuffixWins | scripts/clinvar_to_csv.py:108-111 | a `.tsv` or `.txt` suffix in any case routes to the table converter, whatever other suffixes follow (`.txt.gz` included) |
| Dispatcher.CallSuffixRoutes | scripts/clinvar_to_csv.py:108-114 | a `.vcf` or `.gz` suffix always routes somewhere, and to the VCF converter exactly when no table marker occurs |
| Dispatcher.Dispatch | scripts/clinvar_to_csv.py:107-116 | `main` runs the table converter on a table path and the VCF converter on a call path, and fails with UnknownInputType exactly when neither applies |

## Left out

- File input and output: pandas `read_csv`, cyvcf2 `VCF`, `to_csv` and `print` are not modelled. Converters take the parsed table or records and return `Output(written, rows)`; the output path is not modelled.
- `Path.suffixes` is not computed: `Dispatch` takes the suffix list as given.
- The argparse entry point is not modelled.
- A NaN cell or value is modelled as an absent map key. `normalize_clinsig` treats it like `None`, and `astype(str)` renders it as `"nan"`. Other float inputs to `normalize_clinsig` are not modelled.
- TableConverter.ParseInt: `pd.to_numeric(errors="coerce")` also accepts surrounding whitespace, decimal and exponent forms, and `inf`/`nan` spellings, and `astype("Int64")` raises on non-integral floats. Integer width is not modelled either: `Int64` cannot hold a position outside the signed 64-bit range, and a column that also holds a non-number passes through float64, which rounds values above 2^53. The model keeps every position as an exact unbounded integer. The model accepts only an optionally signed run of ASCII digits and treats everything else as unparsable.
- Text.Lower: Python's `str.lower` covers all of Unicode. The model lower-cases A–Z and the Kelvin sign (U+212A). That sign is the only non-ASCII character whose lower case is ASCII, so lookups against the ASCII keys of `KEEP_MAP` and the column aliases are decided exactly. Other non-ASCII characters are kept unchanged.
- VCF INFO values are modelled as text. cyvcf2's typed values (numbers, tuples, flags) and their truthiness beyond empty/non-empty text are not modelled.
- Python's `int(rec.POS)` cannot fail on a VCF position, so `pos` is taken as an integer field of the record.
- `rec.INFO or {}` and `rec.ALT or []`: a record without INFO is modelled with an empty `info` map and a record without ALT with an empty `alts` list, so the `None` cases are not modelled separately.
- `str(rec.CHROM)` and `str(gi)` are taken as text already.
- The filter `label in ["Pathogenic", "Benign"]` (and the table's `isin`) is modelled as "a label is present". The two agree because every label the normaliser returns is one of the two (`Significance.NormalizeClinsig`).
- The CSV text itself (pandas' rendering, `Int64` formatting, quoting) is not modelled. The output is a sequence of `OutRow` values whose fields follow the column order `chrom, pos, ref, alt, gene_symbol, clinical_significance, hgvs_p`.

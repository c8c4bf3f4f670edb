/**
 * The clinical-significance normaliser (`KEEP_MAP` and `normalize_clinsig`):
 * a free-form, possibly multi-valued ClinVar significance string becomes
 * "Pathogenic", "Benign" or nothing, by the first recognised term.
 */
module Significance {
  import opened Wrappers
  import opened Text

  /** The characters a multi-valued significance is split on. */
  const Delimiters: set<char> := {'|', '/', ',', ';'}

  /** `KEEP_MAP`: the four recognised terms and the label each collapses to. */
  const KeepMap: map<string, string> :=
    map["pathogenic" := "Pathogenic", "likely_pathogenic" := "Pathogenic",
        "benign" := "Benign", "likely_benign" := "Benign"]

  /** The only labels the normaliser produces. */
  const Labels: set<string> := {"Pathogenic", "Benign"}

  /** The terms that still return when likely-qualifiers are not collapsed. */
  const ExactTerms: set<string> := {"pathogenic", "benign"}

  /** The lookup key of one term: stripped, lower-cased, spaces turned to underscores. */
  function Canonical(term: string): (key: string)
    ensures |key| == |Strip(term)|
    ensures forall i :: 0 <= i < |key| ==> key[i] != ' '
  {
    ReplaceChar(Lower(Strip(term)), ' ', '_')
  }

  /** `key.capitalize()` on the two exact terms gives the labels `KEEP_MAP` maps them to. */
  lemma CapitalizedTerms()
    ensures Capitalize("pathogenic") == "Pathogenic"
    ensures Capitalize("benign") == "Benign"
  {
    CapitalizedPathogenic();
    CapitalizedBenign();
  }

  lemma CapitalizedPathogenic()
    ensures Capitalize("pathogenic") == "Pathogenic"
  {
    assert Lower("athogenic") == "athogenic";
  }

  lemma CapitalizedBenign()
    ensures Capitalize("benign") == "Benign"
  {
    assert Lower("enign") == "enign";
  }

  /**
   * What the scan returns when it reaches a term with key `key`, or None when
   * it goes on to the next term.
   */
  function TermLabel(key: string, collapseLikely: bool): (r: Option<string>)
    ensures r.Some? <==> key in KeepMap && (collapseLikely || key in ExactTerms)
    ensures r.Some? ==> r.value == KeepMap[key] && r.value in Labels
  {
    CapitalizedTerms();
    if key in KeepMap then
      if collapseLikely then Some(KeepMap[key])
      else if key in ExactTerms then Some(Capitalize(key))
      else None
    else None
  }

  /** Whether the scan stops at `term`. */
  predicate Matches(term: string, collapseLikely: bool) {
    TermLabel(Canonical(term), collapseLikely).Some?
  }

  /** The left-to-right scan with early return over the split terms. */
  function ScanTerms(terms: seq<string>, collapseLikely: bool): (r: Option<string>)
    ensures r.Some? ==> r.value in Labels
  {
    if terms == [] then None
    else
      var hit := TermLabel(Canonical(terms[0]), collapseLikely);
      if hit.Some? then hit else ScanTerms(terms[1..], collapseLikely)
  }

  /** `normalize_clinsig(s, collapse_likely)`; None stands for both None and NaN. */
  function NormalizeClinsig(s: Option<string>, collapseLikely: bool): (r: Option<string>)
    ensures s.None? ==> r.None?
    ensures r.Some? ==> r.value in Labels
  {
    match s
    case None => None
    case Some(text) => ScanTerms(Split(text, Delimiters), collapseLikely)
  }

  /** The scan returns the label of the first matching term, and None when no term matches. */
  lemma {:induction false} ScanTermsFirstMatch(terms: seq<string>, collapseLikely: bool)
    ensures ScanTerms(terms, collapseLikely).None?
        <==> forall i :: 0 <= i < |terms| ==> !Matches(terms[i], collapseLikely)
    ensures forall i ::
              (&& 0 <= i < |terms|
               && Matches(terms[i], collapseLikely)
               && (forall j :: 0 <= j < i ==> !Matches(terms[j], collapseLikely)))
              ==> ScanTerms(terms, collapseLikely) == TermLabel(Canonical(terms[i]), collapseLikely)
  {
    if terms != [] {
      ScanTermsFirstMatch(terms[1..], collapseLikely);
      assert forall i :: 1 <= i < |terms| ==> terms[i] == terms[1..][i - 1];
      if !Matches(terms[0], collapseLikely) {
        forall i | 0 <= i < |terms| && Matches(terms[i], collapseLikely)
            && (forall j :: 0 <= j < i ==> !Matches(terms[j], collapseLikely))
          ensures ScanTerms(terms, collapseLikely) == TermLabel(Canonical(terms[i]), collapseLikely)
        {
          assert i > 0;
          forall j | 0 <= j < i - 1 ensures !Matches(terms[1..][j], collapseLikely) {
            assert terms[1..][j] == terms[j + 1];
          }
        }
      }
    }
  }

  /**
   * normalize_clinsig on a present value: with `terms` the value split on
   * `| / , ;`, it returns the KEEP_MAP label of the first term that stops the
   * scan, and None exactly when no term does.
   */
  lemma NormalizeFirstMatch(s: string, terms: seq<string>, collapseLikely: bool)
    requires terms == Split(s, Delimiters)
    ensures NormalizeClinsig(Some(s), collapseLikely).None?
        <==> forall i :: 0 <= i < |terms| ==> !Matches(terms[i], collapseLikely)
    ensures forall i ::
              (&& 0 <= i < |terms|
               && Matches(terms[i], collapseLikely)
               && (forall j :: 0 <= j < i ==> !Matches(terms[j], collapseLikely)))
              ==> NormalizeClinsig(Some(s), collapseLikely) == Some(KeepMap[Canonical(terms[i])])
  {
    ScanTermsFirstMatch(terms, collapseLikely);
  }

  /**
   * Without collapsing, a likely-qualified term never stops the scan, and
   * the scan stops only at an exact `pathogenic` or `benign` term.
   */
  lemma UncollapsedSkipsLikely(term: string)
    ensures Matches(term, false) <==> Canonical(term) in ExactTerms
    ensures Canonical(term) in {"likely_pathogenic", "likely_benign"} ==> !Matches(term, false)
  {
  }

  /** A value that classifies without collapsing also classifies with it. */
  lemma {:induction false} UncollapsedImpliesCollapsed(terms: seq<string>)
    ensures ScanTerms(terms, false).Some? ==> ScanTerms(terms, true).Some?
  {
    if terms != [] && !Matches(terms[0], true) {
      UncollapsedImpliesCollapsed(terms[1..]);
    }
  }

  /**
   * A value whose first term is recognised is decided by that term, whatever
   * follows the delimiter: "Benign|Pathogenic" gives Benign.
   */
  lemma {:induction false} FirstTermWins(first: string, d: char, rest: string, collapseLikely: bool)
    requires forall i :: 0 <= i < |first| ==> first[i] !in Delimiters
    requires d in Delimiters
    requires Matches(first, collapseLikely)
    ensures NormalizeClinsig(Some(first + [d] + rest), collapseLikely)
         == Some(KeepMap[Canonical(first)])
  {
    SplitAtFirstDelimiter(first, d, rest, Delimiters);
  }

  /** A lone term whose key is unrecognised, like "Uncertain significance", gives None. */
  lemma {:induction false} UnrecognisedTerm(term: string, collapseLikely: bool)
    requires forall i :: 0 <= i < |term| ==> term[i] !in Delimiters
    requires Canonical(term) !in KeepMap
    ensures NormalizeClinsig(Some(term), collapseLikely) == None
  {
    SplitNoDelimiter(term, Delimiters);
    ScanTermsFirstMatch([term], collapseLikely);
  }
}

/** The closed label vocabulary of the layout predictor, its one- or
    two-letter file-name codes, and the label roles that drive consolidation
    and expansion. */
module Labels {

  /** The twelve labels `get_shortened_label` knows, in table order. */
  const KnownLabels: seq<string> :=
    ["Caption", "Footnote", "Formula", "List-item", "Page-footer", "Page-header",
     "Picture", "Figure", "Section-header", "Table", "Text", "Title"]

  /** `get_shortened_label`: the code of a known label, `"u"` otherwise. */
  function ShortenedLabel(kind: string): (code: string)
    ensures code == "u" <==> kind !in KnownLabels
    ensures code != ""
  {
    var table := map[
      "Caption" := "c", "Footnote" := "fo", "Formula" := "fr", "List-item" := "l",
      "Page-footer" := "pf", "Page-header" := "ph", "Picture" := "p", "Figure" := "f",
      "Section-header" := "s", "Table" := "a", "Text" := "e", "Title" := "i"];
    if kind in table then table[kind] else "u"
  }

  /** Distinct known labels get distinct codes, so a code names its label. */
  lemma ShortenedLabelInjective(a: string, b: string)
    requires a in KnownLabels && b in KnownLabels && a != b
    ensures ShortenedLabel(a) != ShortenedLabel(b)
  {
  }

  /** Sparse-line labels whose regions dominate overlapping layout regions. */
  predicate IsStructural(kind: string)
  {
    kind in ["Title", "Section-header", "Page-header", "List-item"]
  }

  /** Sparse-line labels whose regions swallow the layout regions they enclose. */
  predicate IsEncapsulating(kind: string)
  {
    kind in ["Table", "Caption", "Footnote", "Page-footer"]
  }

  /** Labels the expander never grows. */
  predicate IsPictorial(kind: string)
  {
    kind in ["Picture", "Figure"]
  }
}

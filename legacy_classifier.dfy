/**
 * The older single classifier: an article is about a traffic accident when any term of
 * its list occurs in the lower-cased `titulo + " " + contenido`.
 */
module LegacyClassifier {
  import opened Wrappers
  import opened Text
  import opened Seqs
  import opened Classifiers

  /** The built-in list used when the caller passes no terms. */
  const LegacyTerms: seq<string> := [
    "accidente", "choque", "colisión", "siniestro vial",
    "accidente de tránsito", "accidente vehicular", "accidente automovilístico",
    "choque múltiple", "choque frontal", "volcamiento",
    "embestió", "atropelló", "atropellamiento",
    "vehículo", "auto", "camioneta", "camión",
    "moto", "motocicleta", "bicicleta",
    "heridos", "fallecidos", "muertos", "lesionados"
  ]

  /** `es_accidente_transito`: `any(term in texto for term in search_terms)`. */
  predicate IsAccidentLegacy(titulo: string, contenido: string, searchTerms: Option<seq<string>>)
  {
    var terms := searchTerms.GetOr(LegacyTerms);
    var texto := ClassifierText(titulo, contenido);
    exists k | 0 <= k < |terms| :: Contains(texto, terms[k])
  }

  lemma LegacyTermsSize()
    ensures |LegacyTerms| == 24
  {
  }

  /** An empty list of terms never flags an article. */
  lemma LegacyEmptyTerms(titulo: string, contenido: string)
    ensures !IsAccidentLegacy(titulo, contenido, Some([]))
  {
  }

  /** On the same terms, the legacy test is the simple strategy with threshold 1. */
  lemma LegacyIsSimpleThresholdOne(titulo: string, contenido: string, terms: seq<string>)
    ensures IsAccidentLegacy(titulo, contenido, Some(terms)) == IsAccidentSimple(titulo, contenido, Some(terms), Some(1))
  {
    var texto := ClassifierText(titulo, contenido);
    var present := t => Contains(texto, t);
    assert PresentCount(terms, texto) == Count(terms, present);
    CountZero(terms, present);
  }
}

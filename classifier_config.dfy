/**
 * The shared configuration of the accident classifiers: the search-term list, the
 * weight table of the weighted strategy and the default thresholds.
 */
module ClassifierConfig {

  /**
   * The search terms exactly as the Python list literal evaluates. Two commas are missing
   * at the ends of lines, so adjacent literals concatenate: `'vehículo' 'embestió'` is the
   * single term "vehículoembestió" and `'atropello' 'heridos'` is "atropelloheridos".
   */
  const SearchTerms: seq<string> := [
    "accidente", "choque", "colisión", "colisionó", "vial",
    "accidente de tránsito", "accidente vehicular",
    "choque frontal", "volcamiento", "vehículoembestió",
    "atropelló", "siniestro", "atropelloheridos",
    "fallecidos", "muertos", "lesionados", "volcó"
  ]

  /** The keys given weight 2 by the `update` after the comprehension. */
  const WeightOverrides: map<string, int> := map[
    "accidente" := 2, "siniestro vial" := 2, "choque" := 2, "siniestro" := 2,
    "colisión" := 2, "colisionó" := 2, "vial" := 2, "volcó" := 2
  ]

  /** Weight 1 for every search term, then the overrides. */
  const DefaultWeights: map<string, int> := (map t | t in SearchTerms :: 1) + WeightOverrides

  const DefaultThresholds: map<string, int> := map[
    "simple" := 2, "stemmer" := 2, "lemmatizer" := 2, "ml_weighted" := 2
  ]

  /** The list has 17 entries and holds the two merged terms instead of their four parts. */
  lemma SearchTermsAsWritten()
    ensures |SearchTerms| == 17
    ensures "vehículoembestió" in SearchTerms && "atropelloheridos" in SearchTerms
    ensures "vehículo" !in SearchTerms && "embestió" !in SearchTerms
    ensures "atropello" !in SearchTerms && "heridos" !in SearchTerms
  {
    assert SearchTerms[9] == "vehículoembestió" && SearchTerms[12] == "atropelloheridos";
    forall i | 0 <= i < |SearchTerms|
      ensures SearchTerms[i] != "vehículo" && SearchTerms[i] != "embestió"
      ensures SearchTerms[i] != "atropello" && SearchTerms[i] != "heridos"
    {
      var t := SearchTerms[i];
      assert |t| != 8 || (t[0] != 'v' && t[0] != 'e');
      assert |t| != 9 || t[0] != 'a' || t[8] != 'o';
      assert |t| != 7 || t[0] != 'h';
    }
  }

  /** Every search term has a weight: 2 for the overridden ones, 1 for the rest. */
  lemma WeightsCoverSearchTerms()
    ensures forall t | t in SearchTerms ::
      t in DefaultWeights && DefaultWeights[t] == if t in WeightOverrides then 2 else 1
  {
  }

  /** All weights are at least 1. */
  lemma WeightsPositive()
    ensures forall k | k in DefaultWeights :: DefaultWeights[k] >= 1
  {
  }

  /** "siniestro vial" is weighted but is not a search term. */
  lemma SiniestroVialOnlyWeighted()
    ensures "siniestro vial" in DefaultWeights && "siniestro vial" !in SearchTerms
  {
  }

  /** The four strategies have a threshold each, and every one of them is 2. */
  lemma ThresholdsAllTwo()
    ensures DefaultThresholds.Keys == {"simple", "stemmer", "lemmatizer", "ml_weighted"}
    ensures forall k | k in DefaultThresholds :: DefaultThresholds[k] == 2
  {
  }
}

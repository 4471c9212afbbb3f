/**
 * The four accident-classification strategies. Each one looks at the lower-cased text
 * `titulo + " " + contenido` and compares a score with a threshold:
 *  - simple: how many search terms occur as substrings;
 *  - weighted: the sum of the weights of the terms that occur, unless the exclusion test fires;
 *  - stemmer: how many term stems equal the stem of some non-stop word, unless excluded;
 *  - lemmatizer: how many terms equal some non-stop lemma, with no exclusion test.
 * `None` arguments fall back to the shared configuration.
 */
module Classifiers {
  import opened Wrappers
  import opened Text
  import opened Seqs
  import opened ClassifierConfig

  /** One token of the language model's analysis. */
  datatype Token = Token(lemmaForm: string, isStop: bool)

  /**
   * The parts that come from outside libraries or from code that is not part of this
   * model: the exclusion test `contiene_exclusion`, the Spanish Snowball stemmer, the NLTK
   * Spanish stop-word set and the spaCy analysis of a text.
   */
  datatype Foreign = Foreign(
    exclusion: string -> bool,
    stem: string -> string,
    stopWords: set<string>,
    nlp: string -> seq<Token>)

  /** The text every strategy examines: `f"{titulo} {contenido}".lower()`. */
  function ClassifierText(titulo: string, contenido: string): (texto: string)
    ensures |texto| == |titulo| + 1 + |contenido|
    ensures texto[|titulo|] == ' '
    ensures Lower(titulo) == texto[..|titulo|] && Lower(contenido) == texto[|titulo| + 1..]
  {
    var t := Lower(titulo + " " + contenido);
    LowerAppend(titulo, " " + contenido);
    LowerAppend(" ", contenido);
    t
  }

  // ---------------------------------------------------------------------------------------
  // simple
  // ---------------------------------------------------------------------------------------

  /** `sum(1 for term in terms if term in texto)`: list multiplicity, overlaps all count. */
  function PresentCount(terms: seq<string>, texto: string): nat
  {
    Count(terms, t => Contains(texto, t))
  }

  /** `es_accidente_simple`. */
  function IsAccidentSimple(titulo: string, contenido: string,
                            searchTerms: Option<seq<string>>, threshold: Option<int>): bool
  {
    var terms := searchTerms.GetOr(SearchTerms);
    var th := threshold.GetOr(DefaultThresholds["simple"]);
    PresentCount(terms, ClassifierText(titulo, contenido)) >= th
  }

  /** "accidente de tránsito" contains "accidente". */
  lemma TransitoPhraseHasAccidente(texto: string)
    requires Contains(texto, "accidente de tránsito")
    ensures Contains(texto, "accidente")
  {
    ContainsPrefix("accidente de tránsito", 9);
    assert "accidente de tránsito"[..9] == "accidente";
    ContainsTransitive(texto, "accidente de tránsito", "accidente");
  }

  /**
   * Overlapping entries each count: a text containing "accidente de tránsito" matches that
   * entry and "accidente", so the default count is at least 2.
   */
  lemma TransitoPhraseCountsTwice(texto: string)
    requires Contains(texto, "accidente de tránsito")
    ensures PresentCount(SearchTerms, texto) >= 2
  {
    TransitoPhraseHasAccidente(texto);
    assert SearchTerms[0] == "accidente";
    assert SearchTerms[5] == "accidente de tránsito";
    CountAtLeastTwo(SearchTerms, t => Contains(texto, t), 0, 5);
  }

  /** Any article whose text contains "accidente de tránsito" is an accident for the default simple strategy. */
  lemma TransitoPhraseIsSimpleAccident(titulo: string, contenido: string)
    requires Contains(ClassifierText(titulo, contenido), "accidente de tránsito")
    ensures IsAccidentSimple(titulo, contenido, None, None)
  {
    TransitoPhraseCountsTwice(ClassifierText(titulo, contenido));
    SimpleDefaults(titulo, contenido);
  }

  /** With no arguments the simple strategy counts the search terms against threshold 2. */
  lemma SimpleDefaults(titulo: string, contenido: string)
    ensures IsAccidentSimple(titulo, contenido, None, None)
        == (PresentCount(SearchTerms, ClassifierText(titulo, contenido)) >= 2)
  {
    ThresholdsAllTwo();
  }

  /** With no terms there is nothing to count, so the simple result is `0 >= threshold`. */
  lemma SimpleEmptyTerms(titulo: string, contenido: string, threshold: int)
    ensures IsAccidentSimple(titulo, contenido, Some([]), Some(threshold)) <==> threshold <= 0
  {
  }

  // ---------------------------------------------------------------------------------------
  // ml_weighted
  // ---------------------------------------------------------------------------------------

  /**
   * `sum(weights[term] for term in terms if term in texto)`, evaluated left to right: the
   * first occurring term without a weight raises KeyError (its name is the error).
   */
  function WeightedScore(terms: seq<string>, weights: map<string, int>, texto: string): (r: Result<int>)
    ensures r.Err? <==> exists k | 0 <= k < |terms| :: Contains(texto, terms[k]) && terms[k] !in weights
    decreases |terms|
  {
    if |terms| == 0 then Ok(0)
    else
      var rest := WeightedScore(terms[1..], weights, texto);
      assert forall k | 1 <= k < |terms| :: terms[k] == terms[1..][k - 1];
      if !Contains(texto, terms[0]) then rest
      else if terms[0] !in weights then Err(terms[0])
      else if rest.Err? then rest
      else Ok(weights[terms[0]] + rest.value)
  }

  /** `es_accidente_ml_weighted`; the exclusion test runs first and forces False. */
  function IsAccidentMlWeighted(titulo: string, contenido: string,
                                searchTerms: Option<seq<string>>, weights: Option<map<string, int>>,
                                threshold: Option<int>, exclusion: string -> bool): Result<bool>
  {
    var terms := searchTerms.GetOr(SearchTerms);
    var w := weights.GetOr(DefaultWeights);
    var th := threshold.GetOr(DefaultThresholds["ml_weighted"]);
    var texto := ClassifierText(titulo, contenido);
    if exclusion(texto) then Ok(false)
    else
      match WeightedScore(terms, w, texto)
      case Ok(score) => Ok(score >= th)
      case Err(key) => Err(key)
  }

  /** When the exclusion test fires the weighted strategy answers False, whatever the score. */
  lemma MlExclusionForcesFalse(titulo: string, contenido: string, searchTerms: Option<seq<string>>,
                               weights: Option<map<string, int>>, threshold: Option<int>,
                               exclusion: string -> bool)
    requires exclusion(ClassifierText(titulo, contenido))
    ensures IsAccidentMlWeighted(titulo, contenido, searchTerms, weights, threshold, exclusion) == Ok(false)
  {
  }

  /** Under the default configuration the weighted score never raises KeyError. */
  lemma DefaultWeightedNeverFails(texto: string)
    ensures WeightedScore(SearchTerms, DefaultWeights, texto).Ok?
  {
    WeightsCoverSearchTerms();
    WeightedScoreOk(SearchTerms, DefaultWeights, texto);
  }

  /** A term list whose every entry has a weight never raises KeyError. */
  lemma WeightedScoreOk(terms: seq<string>, weights: map<string, int>, texto: string)
    requires forall k | 0 <= k < |terms| :: terms[k] in weights
    ensures WeightedScore(terms, weights, texto).Ok?
  {
  }

  /** With no threshold given, the weighted strategy compares the score with 2. */
  lemma MlDefaults(titulo: string, contenido: string, exclusion: string -> bool)
    requires !exclusion(ClassifierText(titulo, contenido))
    requires WeightedScore(SearchTerms, DefaultWeights, ClassifierText(titulo, contenido)).Ok?
    ensures IsAccidentMlWeighted(titulo, contenido, None, None, None, exclusion)
         == Ok(WeightedScore(SearchTerms, DefaultWeights, ClassifierText(titulo, contenido)).value >= 2)
  {
    ThresholdsAllTwo();
  }

  /**
   * With non-negative weights, a text in which every term of another text also occurs
   * scores at least as much.
   */
  lemma {:induction false} WeightedScoreMonotone(terms: seq<string>, weights: map<string, int>,
                                                 t1: string, t2: string)
    requires forall k | 0 <= k < |terms| :: Contains(t1, terms[k]) ==> Contains(t2, terms[k])
    requires forall k | k in weights :: weights[k] >= 0
    requires WeightedScore(terms, weights, t2).Ok?
    ensures WeightedScore(terms, weights, t1).Ok?
    ensures WeightedScore(terms, weights, t1).value <= WeightedScore(terms, weights, t2).value
    decreases |terms|
  {
    if |terms| > 0 {
      assert forall k | 0 <= k < |terms[1..]| :: terms[1..][k] == terms[k + 1];
      WeightedScoreMonotone(terms[1..], weights, t1, t2);
    }
  }

  /** Keys that are not search terms play no part in the weighted score. */
  lemma {:induction false} WeightedScoreOnlyReadsTerms(terms: seq<string>, w1: map<string, int>,
                                                       w2: map<string, int>, texto: string)
    requires forall k | 0 <= k < |terms| :: (terms[k] in w1 <==> terms[k] in w2)
    requires forall k | 0 <= k < |terms| && terms[k] in w1 :: w1[terms[k]] == w2[terms[k]]
    ensures WeightedScore(terms, w1, texto) == WeightedScore(terms, w2, texto)
    decreases |terms|
  {
    if |terms| > 0 {
      assert forall k | 0 <= k < |terms[1..]| :: terms[1..][k] == terms[k + 1];
      WeightedScoreOnlyReadsTerms(terms[1..], w1, w2, texto);
    }
  }

  /** Under the defaults, the weight of "siniestro vial" never contributes to any score. */
  lemma SiniestroVialNeverContributes(texto: string)
    ensures WeightedScore(SearchTerms, DefaultWeights, texto)
         == WeightedScore(SearchTerms, DefaultWeights - {"siniestro vial"}, texto)
  {
    SiniestroVialOnlyWeighted();
    WeightedScoreOnlyReadsTerms(SearchTerms, DefaultWeights, DefaultWeights - {"siniestro vial"}, texto);
  }

  /** With every weight at least 1 the weighted score is at least the simple count. */
  lemma {:induction false} WeightedScoreAtLeastCount(terms: seq<string>, weights: map<string, int>, texto: string)
    requires forall k | k in weights :: weights[k] >= 1
    requires WeightedScore(terms, weights, texto).Ok?
    ensures WeightedScore(terms, weights, texto).value >= PresentCount(terms, texto)
    decreases |terms|
  {
    if |terms| > 0 {
      assert forall k | 0 <= k < |terms[1..]| :: terms[1..][k] == terms[k + 1];
      WeightedScoreAtLeastCount(terms[1..], weights, texto);
    }
  }

  /** Under the defaults the weighted score succeeds and is at least the simple count. */
  lemma DefaultScoreAtLeastCount(texto: string)
    ensures WeightedScore(SearchTerms, DefaultWeights, texto).Ok?
    ensures WeightedScore(SearchTerms, DefaultWeights, texto).value >= PresentCount(SearchTerms, texto)
  {
    DefaultWeightedNeverFails(texto);
    WeightsPositive();
    WeightedScoreAtLeastCount(SearchTerms, DefaultWeights, texto);
  }

  /**
   * Under the defaults, an article the simple strategy calls an accident is also one for
   * the weighted strategy unless the exclusion test fires.
   */
  lemma SimpleAccidentIsWeightedAccident(titulo: string, contenido: string, exclusion: string -> bool)
    requires IsAccidentSimple(titulo, contenido, None, None)
    requires !exclusion(ClassifierText(titulo, contenido))
    ensures IsAccidentMlWeighted(titulo, contenido, None, None, None, exclusion) == Ok(true)
  {
    var texto := ClassifierText(titulo, contenido);
    DefaultScoreAtLeastCount(texto);
    SimpleDefaults(titulo, contenido);
    MlDefaults(titulo, contenido, exclusion);
  }

  // ---------------------------------------------------------------------------------------
  // stemmer
  // ---------------------------------------------------------------------------------------

  /** The stems of the `\w+` words of the text that are not stop-words. */
  function TextStems(texto: string, f: Foreign): seq<string>
  {
    Map(Filter(WordRuns(texto), w => w !in f.stopWords), f.stem)
  }

  /** `sum(1 for s in search_stems if s in stems)`. */
  function StemCount(terms: seq<string>, texto: string, f: Foreign): nat
  {
    var stems := TextStems(texto, f);
    Count(Map(terms, f.stem), s => s in stems)
  }

  /** `es_accidente_stemmer`; the exclusion test runs first and forces False. */
  function IsAccidentStemmer(titulo: string, contenido: string,
                             searchTerms: Option<seq<string>>, threshold: Option<int>, f: Foreign): bool
  {
    var terms := searchTerms.GetOr(SearchTerms);
    var th := threshold.GetOr(DefaultThresholds["stemmer"]);
    var texto := ClassifierText(titulo, contenido);
    if f.exclusion(texto) then false else StemCount(terms, texto, f) >= th
  }

  /** A word of the text that is not a stop-word contributes its stem. */
  lemma {:induction false} WordStemPresent(words: seq<string>, f: Foreign, k: int)
    requires 0 <= k < |words| && words[k] !in f.stopWords
    ensures f.stem(words[k]) in Map(Filter(words, w => w !in f.stopWords), f.stem)
    decreases |words|
  {
    var p := (w: string) => w !in f.stopWords;
    if k > 0 {
      WordStemPresent(words[1..], f, k - 1);
      assert Filter(words, p) == (if p(words[0]) then [words[0]] else []) + Filter(words[1..], p);
      assert Map(Filter(words, p), f.stem)
          == Map(if p(words[0]) then [words[0]] else [], f.stem) + Map(Filter(words[1..], p), f.stem);
    } else {
      assert Filter(words, p)[0] == words[0];
    }
  }

  /**
   * A search term that appears in the text as a whole word and is not a stop-word makes
   * the stem count positive (unless excluded, the stemmer then needs threshold at most 1).
   */
  lemma SearchWordCountsForStemmer(terms: seq<string>, texto: string, f: Foreign, i: int, k: int)
    requires 0 <= i < |terms| && 0 <= k < |WordRuns(texto)|
    requires WordRuns(texto)[k] == terms[i] && terms[i] !in f.stopWords
    ensures StemCount(terms, texto, f) >= 1
  {
    WordStemPresent(WordRuns(texto), f, k);
    var stems := TextStems(texto, f);
    CountPositive(Map(terms, f.stem), s => s in stems, i);
  }

  /** A text whose exclusion test fires is never an accident for the stemmer. */
  lemma StemmerExclusionForcesFalse(titulo: string, contenido: string, searchTerms: Option<seq<string>>,
                                    threshold: Option<int>, f: Foreign)
    requires f.exclusion(ClassifierText(titulo, contenido))
    ensures !IsAccidentStemmer(titulo, contenido, searchTerms, threshold, f)
  {
  }

  // ---------------------------------------------------------------------------------------
  // lemmatizer
  // ---------------------------------------------------------------------------------------

  /** `[token.lemma_ for token in nlp(texto) if not token.is_stop]`. */
  function TextLemmas(texto: string, f: Foreign): seq<string>
  {
    Map(Filter(f.nlp(texto), (tok: Token) => !tok.isStop), (tok: Token) => tok.lemmaForm)
  }

  /** `sum(1 for term in terms if term in lemmas)`: exact equality, not substrings. */
  function LemmaCount(terms: seq<string>, lemmas: seq<string>): nat
  {
    Count(terms, t => t in lemmas)
  }

  /** `es_accidente_lemmatizer`: no exclusion test. */
  function IsAccidentLemmatizer(titulo: string, contenido: string,
                                searchTerms: Option<seq<string>>, threshold: Option<int>, f: Foreign): bool
  {
    var terms := searchTerms.GetOr(SearchTerms);
    var th := threshold.GetOr(DefaultThresholds["lemmatizer"]);
    LemmaCount(terms, TextLemmas(ClassifierText(titulo, contenido), f)) >= th
  }

  /** Only the set of non-stop lemmas matters: their order and repetition do not. */
  lemma LemmaCountBySet(terms: seq<string>, l1: seq<string>, l2: seq<string>)
    requires forall x :: x in l1 <==> x in l2
    ensures LemmaCount(terms, l1) == LemmaCount(terms, l2)
  {
    CountCongruent(terms, t => t in l1, t => t in l2);
  }

  /**
   * The lemmatizer has no exclusion gate: whatever the exclusion test says, two analyses
   * with the same non-stop lemmas give the same verdict.
   */
  lemma LemmatizerIgnoresExclusion(titulo: string, contenido: string, searchTerms: Option<seq<string>>,
                                   threshold: Option<int>, f: Foreign, g: Foreign)
    requires var texto := ClassifierText(titulo, contenido);
      forall x :: x in TextLemmas(texto, f) <==> x in TextLemmas(texto, g)
    ensures IsAccidentLemmatizer(titulo, contenido, searchTerms, threshold, f)
        == IsAccidentLemmatizer(titulo, contenido, searchTerms, threshold, g)
  {
    var texto := ClassifierText(titulo, contenido);
    LemmaCountBySet(searchTerms.GetOr(SearchTerms), TextLemmas(texto, f), TextLemmas(texto, g));
  }

  /**
   * Membership is exact: one term counts exactly when it equals a lemma, so a term that is
   * only part of a lemma ("vial" in "siniestro vial") adds nothing. The count is zero exactly
   * when no term is a lemma, and all terms count exactly when each is one.
   */
  lemma LemmaMembershipIsExact(terms: seq<string>, lemmas: seq<string>)
    ensures forall t :: LemmaCount([t], lemmas) == if t in lemmas then 1 else 0
    ensures LemmaCount(terms, lemmas) == 0 <==> forall k | 0 <= k < |terms| :: terms[k] !in lemmas
    ensures LemmaCount(terms, lemmas) == |terms| <==> forall k | 0 <= k < |terms| :: terms[k] in lemmas
    ensures LemmaCount(["vial"], ["siniestro vial"]) == 0
  {
    CountZero(terms, t => t in lemmas);
    CountAll(terms, t => t in lemmas);
  }

  // ---------------------------------------------------------------------------------------
  // Thresholds
  // ---------------------------------------------------------------------------------------

  /** Raising the threshold never turns a False verdict into True: simple strategy. */
  lemma SimpleThresholdMonotone(titulo: string, contenido: string, terms: Option<seq<string>>, lo: int, hi: int)
    requires lo <= hi
    ensures IsAccidentSimple(titulo, contenido, terms, Some(hi)) ==> IsAccidentSimple(titulo, contenido, terms, Some(lo))
  {
  }

  /** Raising the threshold never turns a False verdict into True: stemmer strategy. */
  lemma StemmerThresholdMonotone(titulo: string, contenido: string, terms: Option<seq<string>>, lo: int, hi: int, f: Foreign)
    requires lo <= hi
    ensures IsAccidentStemmer(titulo, contenido, terms, Some(hi), f) ==> IsAccidentStemmer(titulo, contenido, terms, Some(lo), f)
  {
  }

  /** Raising the threshold never turns a False verdict into True: lemmatizer strategy. */
  lemma LemmatizerThresholdMonotone(titulo: string, contenido: string, terms: Option<seq<string>>, lo: int, hi: int, f: Foreign)
    requires lo <= hi
    ensures IsAccidentLemmatizer(titulo, contenido, terms, Some(hi), f) ==> IsAccidentLemmatizer(titulo, contenido, terms, Some(lo), f)
  {
  }

  /** Raising the threshold never turns a False verdict into True: weighted strategy. */
  lemma WeightedThresholdMonotone(titulo: string, contenido: string, terms: Option<seq<string>>,
                                  weights: Option<map<string, int>>, lo: int, hi: int, exclusion: string -> bool)
    requires lo <= hi
    ensures IsAccidentMlWeighted(titulo, contenido, terms, weights, Some(hi), exclusion) == Ok(true)
        ==> IsAccidentMlWeighted(titulo, contenido, terms, weights, Some(lo), exclusion) == Ok(true)
  {
  }
}

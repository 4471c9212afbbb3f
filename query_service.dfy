/**
 * The query helpers behind the news search and the question-answering endpoint: which
 * words of a question become search terms, whether a question is about traffic
 * accidents, the shortened content of a search hit, the database statistics and the
 * prompt handed to the language model.
 */
module QueryService {
  import opened Wrappers
  import opened Text
  import opened Seqs
  import opened Dates
  import opened Noticias

  // ---------------------------------------------------------------------------------------
  // Search terms
  // ---------------------------------------------------------------------------------------

  const TrafficKeywords: seq<string> := [
    "accidente", "choque", "colisión", "siniestro", "tránsito", "vehículo",
    "auto", "camión", "moto", "bicicleta", "heridos", "fallecidos",
    "ruta", "autopista", "calle", "avenida", "embestió", "atropelló"
  ]

  const LocationKeywords: seq<string> := [
    "jujuy", "salta", "argentina", "provincia", "ciudad", "barrio",
    "ruta 9", "ruta 34", "autopista", "centro", "norte", "sur"
  ]

  /** A word is kept when it is a keyword of either list or longer than three characters. */
  predicate IsRelevant(word: string)
  {
    word in TrafficKeywords || word in LocationKeywords || |word| > 3
  }

  /** The relevant words of the lower-cased question, in question order. */
  function RelevantWords(query: string): (words: seq<string>)
  {
    Filter(WordRuns(Lower(query)), IsRelevant)
  }

  /** The first five relevant words: the search terms of a question. */
  function QueryTerms(query: string): (terms: seq<string>)
  {
    var words := RelevantWords(query);
    if |words| <= 5 then words else words[..5]
  }

  /** `_extract_search_terms`: walks the words, keeps the relevant ones, returns at most five. */
  method ExtractSearchTerms(query: string) returns (terms: seq<string>)
    ensures terms == QueryTerms(query)
    ensures |terms| <= 5
    ensures forall k | 0 <= k < |terms| :: IsRelevant(terms[k]) && terms[k] in WordRuns(Lower(query))
  {
    var words := WordRuns(Lower(query));
    var relevant: seq<string> := [];
    for i := 0 to |words|
      invariant relevant == Filter(words[..i], IsRelevant)
    {
      assert words[..i + 1] == words[..i] + [words[i]];
      FilterAppend(words[..i], [words[i]], IsRelevant);
      if IsRelevant(words[i]) {
        relevant := relevant + [words[i]];
      }
    }
    assert words[..|words|] == words;
    terms := if |relevant| <= 5 then relevant else relevant[..5];
  }

  /**
   * Every keyword except "sur" is longer than three characters (and "ruta 9" and "ruta 34"
   * can never be a `\w+` word), so the keyword lists only ever add the word "sur".
   */
  lemma RelevantIsLongOrSur(word: string)
    ensures IsRelevant(word) <==> |word| > 3 || word == "sur"
  {
    if |word| <= 3 && word != "sur" {
      assert forall k | 0 <= k < |TrafficKeywords| :: |TrafficKeywords[k]| > 3;
      assert forall k | 0 <= k < |LocationKeywords| - 1 :: |LocationKeywords[k]| > 3;
      assert LocationKeywords[|LocationKeywords| - 1] == "sur";
    }
  }

  /** When at most five words are relevant, every one of them is a search term. */
  lemma FewRelevantWordsAllKept(query: string, word: string)
    requires |RelevantWords(query)| <= 5
    requires word in WordRuns(Lower(query)) && IsRelevant(word)
    ensures word in QueryTerms(query)
  {
    var words := WordRuns(Lower(query));
    var k :| 0 <= k < |words| && words[k] == word;
    FilterKeeps(words, IsRelevant, k);
  }

  // ---------------------------------------------------------------------------------------
  // Traffic-accident question
  // ---------------------------------------------------------------------------------------

  const TrafficIndicators: seq<string> := [
    "accidente", "choque", "colisión", "siniestro", "tránsito", "vehículo",
    "auto", "camión", "moto", "bicicleta", "heridos", "fallecidos",
    "ruta", "autopista", "embestió", "atropelló"
  ]

  /** `_is_traffic_accident_query`: some indicator occurs in the lower-cased question. */
  predicate IsTrafficAccidentQuery(query: string)
  {
    exists k | 0 <= k < |TrafficIndicators| :: Contains(Lower(query), TrafficIndicators[k])
  }

  /** A search term that is itself an indicator makes the question a traffic question. */
  lemma IndicatorTermMakesTrafficQuery(query: string, term: string)
    requires term in QueryTerms(query) && term in TrafficIndicators
    ensures IsTrafficAccidentQuery(query)
  {
    var words := WordRuns(Lower(query));
    assert term in RelevantWords(query);
    var j :| 0 <= j < |words| && words[j] == term;
    WordRunsInText(Lower(query), j);
    var k :| 0 <= k < |TrafficIndicators| && TrafficIndicators[k] == term;
  }

  /** No indicator occurs in a question with no letters, such as an empty one. */
  lemma ShortQueryIsNotTraffic(query: string)
    requires |query| < 4
    ensures !IsTrafficAccidentQuery(query)
  {
    assert forall k | 0 <= k < |TrafficIndicators| :: |TrafficIndicators[k]| >= 4;
  }

  // ---------------------------------------------------------------------------------------
  // Search results
  // ---------------------------------------------------------------------------------------

  /** One hit of `search_news`, as the dictionary it returns. */
  datatype NewsItem = NewsItem(
    id: int,
    titulo: string,
    contenido: string,
    fecha: string,
    url: string,
    mediaId: Option<string>,
    esAccidenteTransito: Option<bool>)

  /** The content shown for a hit: the first 200 characters and "..." when it is longer. */
  function Truncate(contenido: string): (r: string)
    ensures |contenido| <= 200 ==> r == contenido
    ensures |contenido| > 200 ==> |r| == 203 && r[..200] == contenido[..200] && r[200..] == "..."
  {
    if |contenido| > 200 then contenido[..200] + "..." else contenido
  }

  /** Shortening an already shortened content changes nothing. */
  lemma TruncateIdempotent(contenido: string)
    ensures Truncate(Truncate(contenido)) == Truncate(contenido)
  {
    var r := Truncate(contenido);
    if |contenido| > 200 {
      assert r == r[..200] + r[200..];
    }
  }

  /** The dictionary for one row: truncated content and the ISO form of the date. */
  function ToNewsItem(n: Noticia): (item: NewsItem)
    requires Valid(n.fecha)
    ensures item.id == n.id && item.titulo == n.titulo && item.url == n.url
    ensures item.mediaId == n.mediaId && item.esAccidenteTransito == n.esAccidenteTransito
    ensures |item.contenido| <= 203 && (|n.contenido| <= 200 ==> item.contenido == n.contenido)
    ensures FromIsoFormat(item.fecha) == Some(n.fecha)
  {
    IsoRoundTrip(n.fecha);
    NewsItem(n.id, n.titulo, Truncate(n.contenido), IsoFormat(n.fecha), n.url, n.mediaId, n.esAccidenteTransito)
  }

  // ---------------------------------------------------------------------------------------
  // Statistics
  // ---------------------------------------------------------------------------------------

  datatype Statistics = Statistics(
    totalNoticias: nat,
    accidentesTransito: nat,
    noAccidentesTransito: nat,
    sinClasificar: nat,
    porMedio: map<string, nat>)

  /** Rows whose `es_accidente_transito` column holds `status` (None is SQL NULL). */
  function StatusCount(table: seq<Noticia>, status: Option<bool>): (n: nat)
    ensures n <= |table|
  {
    Count(table, (r: Noticia) => r.esAccidenteTransito == status)
  }

  /** Rows whose `media_id` column holds `m`. */
  function MediaCount(table: seq<Noticia>, m: Option<string>): (n: nat)
    ensures n <= |table|
  {
    Count(table, (r: Noticia) => r.mediaId == m)
  }

  /** The key of a media group: `media_id or "sin_medio"`, so NULL and "" are both "sin_medio". */
  function MediaKey(m: Option<string>): (key: string)
    ensures m.Some? && m.value != "" ==> key == m.value
    ensures m.None? || m.value == "" ==> key == "sin_medio"
  {
    if m.Some? && m.value != "" then m.value else "sin_medio"
  }

  /**
   * What the `GROUP BY media_id` query returns, in an order the database chooses: each
   * media value of the table once, with its (positive) number of rows.
   */
  predicate IsMediaGrouping(table: seq<Noticia>, groups: seq<(Option<string>, nat)>)
  {
    && (forall i, j | 0 <= i < j < |groups| :: groups[i].0 != groups[j].0)
    && (forall i | 0 <= i < |groups| :: groups[i].1 == MediaCount(table, groups[i].0) > 0)
    && (forall k | 0 <= k < |table| :: exists i | 0 <= i < |groups| :: groups[i].0 == table[k].mediaId)
  }

  /** The `media_stats` dictionary after storing the groups in order (a later key overwrites). */
  function MediaStats(groups: seq<(Option<string>, nat)>): (stats: map<string, nat>)
    decreases |groups|
  {
    if |groups| == 0 then map[]
    else
      var last := groups[|groups| - 1];
      MediaStats(groups[..|groups| - 1])[MediaKey(last.0) := last.1]
  }

  /** `get_statistics`. */
  method GetStatistics(table: seq<Noticia>, groups: seq<(Option<string>, nat)>) returns (stats: Statistics)
    requires IsMediaGrouping(table, groups)
    ensures stats.totalNoticias == |table|
    ensures stats.accidentesTransito == StatusCount(table, Some(true))
    ensures stats.noAccidentesTransito == StatusCount(table, Some(false))
    ensures stats.sinClasificar == StatusCount(table, None)
    ensures stats.porMedio == MediaStats(groups)
    ensures stats.accidentesTransito + stats.noAccidentesTransito + stats.sinClasificar == stats.totalNoticias
  {
    var mediaStats: map<string, nat> := map[];
    for i := 0 to |groups|
      invariant mediaStats == MediaStats(groups[..i])
    {
      assert groups[..i + 1][..i] == groups[..i];
      mediaStats := mediaStats[MediaKey(groups[i].0) := groups[i].1];
    }
    assert groups[..|groups|] == groups;
    StatusPartition(table);
    stats := Statistics(|table|, StatusCount(table, Some(true)), StatusCount(table, Some(false)),
                        StatusCount(table, None), mediaStats);
  }

  /** The nullable boolean column splits the table into accidents, non-accidents and unclassified. */
  lemma {:induction false} StatusPartition(table: seq<Noticia>)
    ensures StatusCount(table, Some(true)) + StatusCount(table, Some(false)) + StatusCount(table, None) == |table|
    decreases |table|
  {
    if |table| > 0 {
      StatusPartition(table[1..]);
      match table[0].esAccidenteTransito
      case None =>
      case Some(b) =>
    }
  }

  /** Every group's key is in the statistics. */
  lemma {:induction false} MediaStatsHasGroupKey(groups: seq<(Option<string>, nat)>, i: int)
    requires 0 <= i < |groups|
    ensures MediaKey(groups[i].0) in MediaStats(groups)
    decreases |groups|
  {
    if i < |groups| - 1 {
      MediaStatsHasGroupKey(groups[..|groups| - 1], i);
    }
  }

  /** Every key of the statistics is some group's key. */
  lemma {:induction false} MediaStatsKeyFromGroup(groups: seq<(Option<string>, nat)>, key: string)
    requires key in MediaStats(groups)
    ensures exists i | 0 <= i < |groups| :: MediaKey(groups[i].0) == key
    decreases |groups|
  {
    var last := |groups| - 1;
    if MediaKey(groups[last].0) != key {
      MediaStatsKeyFromGroup(groups[..last], key);
      var i :| 0 <= i < last && MediaKey(groups[..last][i].0) == key;
      assert groups[..last][i] == groups[i];
    }
  }

  /** Over a grouping of the table, the statistics keys are exactly the keys of the table's rows. */
  lemma MediaStatsTableKeys(table: seq<Noticia>, groups: seq<(Option<string>, nat)>, key: string)
    requires IsMediaGrouping(table, groups)
    ensures key in MediaStats(groups) <==> exists k | 0 <= k < |table| :: MediaKey(table[k].mediaId) == key
  {
    if key in MediaStats(groups) {
      MediaStatsKeyFromGroup(groups, key);
      var i :| 0 <= i < |groups| && MediaKey(groups[i].0) == key;
      var m := groups[i].0;
      CountZero(table, (r: Noticia) => r.mediaId == m);
      var k :| 0 <= k < |table| && table[k].mediaId == m;
    } else if k :| 0 <= k < |table| && MediaKey(table[k].mediaId) == key {
      var i :| 0 <= i < |groups| && groups[i].0 == table[k].mediaId;
      MediaStatsHasGroupKey(groups, i);
    }
  }

  /** A group whose key no other group shares keeps its own count. */
  lemma {:induction false} MediaStatsUniqueKey(groups: seq<(Option<string>, nat)>, i: int)
    requires 0 <= i < |groups|
    requires forall j | 0 <= j < |groups| && j != i :: MediaKey(groups[j].0) != MediaKey(groups[i].0)
    ensures MediaKey(groups[i].0) in MediaStats(groups)
    ensures MediaStats(groups)[MediaKey(groups[i].0)] == groups[i].1
    decreases |groups|
  {
    if i < |groups| - 1 {
      MediaStatsUniqueKey(groups[..|groups| - 1], i);
    }
  }

  /**
   * A named media outlet (not "" and not the literal "sin_medio") is listed with its own
   * number of rows.
   */
  lemma NamedMediaCounted(table: seq<Noticia>, groups: seq<(Option<string>, nat)>, k: int, name: string)
    requires IsMediaGrouping(table, groups)
    requires 0 <= k < |table| && table[k].mediaId == Some(name)
    requires name != "" && name != "sin_medio"
    ensures name in MediaStats(groups) && MediaStats(groups)[name] == MediaCount(table, Some(name))
  {
    var i :| 0 <= i < |groups| && groups[i].0 == table[k].mediaId;
    MediaStatsUniqueKey(groups, i);
  }

  /**
   * Rows with no media are counted under "sin_medio" when no row has the media "" or
   * "sin_medio".
   */
  lemma NullMediaIsSinMedio(table: seq<Noticia>, groups: seq<(Option<string>, nat)>, k: int)
    requires IsMediaGrouping(table, groups)
    requires 0 <= k < |table| && table[k].mediaId.None?
    requires forall j | 0 <= j < |table| :: table[j].mediaId != Some("") && table[j].mediaId != Some("sin_medio")
    ensures "sin_medio" in MediaStats(groups) && MediaStats(groups)["sin_medio"] == MediaCount(table, None)
  {
    var i :| 0 <= i < |groups| && groups[i].0 == table[k].mediaId;
    forall j | 0 <= j < |groups| && j != i
      ensures MediaKey(groups[j].0) != "sin_medio"
    {
      var m := groups[j].0;
      CountZero(table, (r: Noticia) => r.mediaId == m);
    }
    MediaStatsUniqueKey(groups, i);
  }

  // ---------------------------------------------------------------------------------------
  // Prompt for the language model
  // ---------------------------------------------------------------------------------------

  const NoNewsHead: string := "\n            Pregunta: "
  const NoNewsTail: string :=
    "\n            \n            No se encontraron noticias relevantes en la base de datos.\n            \n"
    + "            Por favor, responde de manera informativa indicando que no hay información disponible"
    + " sobre este tema en la base de datos actual.\n            "

  const PromptHead: string :=
    "\n        Eres un asistente especializado en análisis de noticias sobre accidentes de tránsito en Argentina."
    + "\n        \n        Pregunta del usuario: "
  const PromptMid: string := "\n        \n        Contexto - Noticias relevantes de la base de datos:\n        "
  const PromptTail: string :=
    "\n        \n        Instrucciones:\n        1. Analiza la pregunta del usuario\n"
    + "        2. Utiliza la información de las noticias proporcionadas para responder\n"
    + "        3. Si la pregunta no puede responderse con las noticias disponibles, indícalo claramente\n"
    + "        4. Proporciona una respuesta clara, concisa y útil\n"
    + "        5. Si hay estadísticas relevantes, inclúyelas\n"
    + "        6. Responde en español\n        \n        Respuesta:\n        "

  /** Python's `str()` of an optional string: the text, or "None". */
  function OptionalText(m: Option<string>): string
  {
    if m.Some? then m.value else "None"
  }

  /** The block for the `number`-th hit. */
  function NewsEntry(number: nat, n: NewsItem): (entry: string)
  {
    "Noticia " + NatToStr(number) + ":\nTítulo: " + n.titulo + "\nContenido: " + n.contenido
    + "\nFecha: " + n.fecha + "\nMedio: " + OptionalText(n.mediaId)
  }

  /** The entries, numbered from `first`. */
  function NewsEntries(news: seq<NewsItem>, first: nat): (entries: seq<string>)
    ensures |entries| == |news|
    ensures forall k | 0 <= k < |news| :: entries[k] == NewsEntry(first + k, news[k])
  {
    seq(|news|, k requires 0 <= k < |news| => NewsEntry(first + k, news[k]))
  }

  /** The context: the entries numbered from 1, separated by blank lines. */
  function NewsContext(news: seq<NewsItem>): string
  {
    Join("\n\n", NewsEntries(news, 1))
  }

  /** `_build_llm_prompt`. */
  function BuildLlmPrompt(question: string, news: seq<NewsItem>): (prompt: string)
  {
    if |news| == 0 then NoNewsHead + question + NoNewsTail
    else PromptHead + question + PromptMid + NewsContext(news) + PromptTail
  }

  /** The fixed no-information prompt is used exactly when there are no hits. */
  lemma NoNewsPromptIffEmpty(question: string, news: seq<NewsItem>)
    ensures BuildLlmPrompt(question, news) == NoNewsHead + question + NoNewsTail <==> |news| == 0
  {
    if |news| > 0 {
      assert |PromptTail| > 9 && PromptTail[|PromptTail| - 9] == '\n';
      assert |NoNewsTail| > 9 && NoNewsTail[|NoNewsTail| - 9] == ' ';
      var a := PromptHead + question + PromptMid + NewsContext(news) + PromptTail;
      var b := NoNewsHead + question + NoNewsTail;
      assert a[|a| - 9] == PromptTail[|PromptTail| - 9];
      assert b[|b| - 9] == NoNewsTail[|NoNewsTail| - 9];
    }
  }

  /** Both prompts carry the question. */
  lemma PromptHasQuestion(question: string, news: seq<NewsItem>)
    ensures Contains(BuildLlmPrompt(question, news), question)
  {
    if |news| == 0 {
      ContainsEnd(NoNewsHead, question);
      ContainsAppend(NoNewsHead + question, NoNewsTail, question);
    } else {
      ContainsEnd(PromptHead, question);
      ContainsAppend(PromptHead + question, PromptMid, question);
      ContainsAppend(PromptHead + question + PromptMid, NewsContext(news), question);
      ContainsAppend(PromptHead + question + PromptMid + NewsContext(news), PromptTail, question);
    }
  }

  /** Every hit appears in the prompt, numbered by its position counted from 1. */
  lemma PromptHasEveryEntry(question: string, news: seq<NewsItem>, k: int)
    requires 0 <= k < |news|
    ensures Contains(BuildLlmPrompt(question, news), NewsEntry(k + 1, news[k]))
  {
    var entries := NewsEntries(news, 1);
    JoinContainsParts("\n\n", entries, k);
    ContainsExtend(PromptHead + question + PromptMid, NewsContext(news), PromptTail, entries[k]);
  }
}

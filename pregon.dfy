/**
 * The Pregón scraper (`PregonScraper`): the articles linked from the police section page,
 * then up to twenty "Ver Más" rounds in which the site's endpoint is sent the content ids
 * already known and answers with content ids, of which the new ones are read from URLs
 * built around the id.
 *
 * The database is the set of article URLs it holds (`stored`): the scraper asks whether a
 * URL is there before it adds an article. The `fecha` column is NOT NULL, so the commit of
 * an article without a date raises; any other commit succeeds or raises as `Site.store`
 * says. A commit that raises on the section page is caught by the `except` of `scrape`,
 * which ends the run before "Ver Más"; in a "Ver Más" round it is caught by the round's
 * `except`, which ends the rounds. Only committed articles are counted.
 * `Site.server` is the endpoint's answer to round `page` given the ids sent, None
 * where the request fails or the answer holds no `contenidos`; `Site.order` is the order in
 * which Python iterates a set of strings; `Site.today` is `datetime.now()`; `Site.repr` is
 * Python's `str` of the tuple `(titulo, contenido, fecha)`.
 *
 * The raw content of an article found on the section page is the beginning of the
 * SECTION page (the `response` of `scrape`), not of the article's own page.
 */
module Pregon {
  import opened Wrappers
  import opened Text
  import opened Seqs
  import opened Dates
  import opened Crawl
  import Batches

  const BaseUrl: string := "https://www.pregon.com.ar"
  const SeccionUrl: string := "https://www.pregon.com.ar/Policial"
  const MediaId: string := "pregon"
  /** `contenido_crudo` keeps this many characters at most. */
  const RawLimit: nat := 60000
  /** `max_pages`: the number of "Ver Más" rounds at most. */
  const MaxRounds: nat := 20
  /** The path piece that precedes a content id in an article URL. */
  const NotaMark: string := "/nota/"
  const NotaPrefix: string := "https://www.pregon.com.ar/nota/"

  // ---------------------------------------------------------------------------------------
  // `_extraer_urls_articulos`
  // ---------------------------------------------------------------------------------------

  /** The absolute URL of one `h4.titulo > a` href: the base URL is prefixed to a path. */
  function Absolute(href: string): (url: string)
  {
    if StartsWith(href, "/") then BaseUrl + href else href
  }

  /** The URLs of the section page, in page order; a missing link or an empty href gives none. */
  function UrlsOfHrefs(hrefs: seq<Option<string>>): (urls: seq<string>)
    decreases |hrefs|
  {
    if |hrefs| == 0 then []
    else
      var last := hrefs[|hrefs| - 1];
      UrlsOfHrefs(hrefs[..|hrefs| - 1]) + (if last.Some? && last.value != "" then [Absolute(last.value)] else [])
  }

  predicate HasHref(h: Option<string>) { h.Some? && h.value != "" }

  /** `url` is the absolute URL of one of the links that have an href. */
  predicate FromHref(hrefs: seq<Option<string>>, url: string)
  {
    exists j | 0 <= j < |hrefs| :: HasHref(hrefs[j]) && url == Absolute(hrefs[j].value)
  }

  /** One URL per link with an href, each the href itself or the base URL followed by it. */
  lemma {:induction false} UrlsOfHrefsAre(hrefs: seq<Option<string>>)
    ensures |UrlsOfHrefs(hrefs)| == Count(hrefs, HasHref)
    ensures forall k | 0 <= k < |UrlsOfHrefs(hrefs)| :: FromHref(hrefs, UrlsOfHrefs(hrefs)[k])
    decreases |hrefs|
  {
    if |hrefs| > 0 {
      var init := hrefs[..|hrefs| - 1];
      var last := hrefs[|hrefs| - 1];
      UrlsOfHrefsAre(init);
      assert hrefs == init + [last];
      CountAppend(init, [last], HasHref);
      assert UrlsOfHrefs(hrefs) == UrlsOfHrefs(init) + (if HasHref(last) then [Absolute(last.value)] else []);
      forall k | 0 <= k < |UrlsOfHrefs(hrefs)|
        ensures FromHref(hrefs, UrlsOfHrefs(hrefs)[k])
      {
        if k < |UrlsOfHrefs(init)| {
          assert FromHref(init, UrlsOfHrefs(init)[k]);
          var j :| 0 <= j < |init| && HasHref(init[j]) && UrlsOfHrefs(init)[k] == Absolute(init[j].value);
          assert hrefs[j] == init[j] && UrlsOfHrefs(hrefs)[k] == UrlsOfHrefs(init)[k];
          assert HasHref(hrefs[j]) && UrlsOfHrefs(hrefs)[k] == Absolute(hrefs[j].value);
        } else {
          assert HasHref(last) && UrlsOfHrefs(hrefs)[k] == Absolute(last.value);
          assert HasHref(hrefs[|hrefs| - 1]) && UrlsOfHrefs(hrefs)[k] == Absolute(hrefs[|hrefs| - 1].value);
        }
      }
    }
  }

  /** `_extraer_urls_articulos` as the loop it is. */
  method ExtraerUrlsArticulos(hrefs: seq<Option<string>>) returns (urls: seq<string>)
    ensures urls == UrlsOfHrefs(hrefs)
  {
    urls := [];
    var i := 0;
    while i < |hrefs|
      invariant i <= |hrefs|
      invariant urls == UrlsOfHrefs(hrefs[..i])
    {
      assert hrefs[..i + 1][..i] == hrefs[..i];
      var href := hrefs[i];
      if href.Some? && href.value != "" {
        var url := href.value;
        if StartsWith(url, "/") {
          url := BaseUrl + url;
        }
        urls := urls + [url];
      }
      i := i + 1;
    }
    assert hrefs[..i] == hrefs;
  }

  // ---------------------------------------------------------------------------------------
  // `_extraer_contenido_articulo`
  // ---------------------------------------------------------------------------------------

  /**
   * `datePublished` in the "DD-MM-YYYY" form: three pieces between dashes, each read by
   * `int()`, naming a date that exists; None where Python falls into one of the bare
   * `except` clauses.
   */
  function FechaPublicada(s: string): (r: Option<Date>)
    ensures r.Some? ==> Valid(r.value)
  {
    var parts := Split(s, '-');
    if |parts| != 3 then None
    else
      var dia, mes, anio := ParseInt(parts[0]), ParseInt(parts[1]), ParseInt(parts[2]);
      if dia.None? || mes.None? || anio.None? then None
      else MakeDate(anio.value, mes.value, dia.value)
  }

  /** A valid date written DD-MM-YYYY with zero padding is read back. */
  lemma FechaPublicadaReads(d: Date)
    requires Valid(d)
    ensures FechaPublicada(PadNat(d.day, 2) + "-" + PadNat(d.month, 2) + "-" + PadNat(d.year, 4)) == Some(d)
  {
    var dd, mm, yy := PadNat(d.day, 2), PadNat(d.month, 2), PadNat(d.year, 4);
    DigitsHaveNo(dd, '-');
    DigitsHaveNo(mm, '-');
    DigitsHaveNo(yy, '-');
    SplitThree(dd, mm, yy, '-');
    assert dd + "-" + mm + "-" + yy == dd + ['-'] + mm + ['-'] + yy;
    DigitsParse(dd);
    DigitsParse(mm);
    DigitsParse(yy);
  }

  /** A text that gives a date is three pieces between two dashes whose `int()` values are the day, month and year. */
  lemma FechaPublicadaOnlyThreePieces(s: string)
    requires FechaPublicada(s).Some?
    ensures var d := FechaPublicada(s).value;
      exists a, b, c :: s == a + "-" + b + "-" + c && '-' !in a && '-' !in b && '-' !in c
        && ParseInt(a) == Some(d.day) && ParseInt(b) == Some(d.month) && ParseInt(c) == Some(d.year)
  {
    var parts := Split(s, '-');
    var d := FechaPublicada(s).value;
    var a, b, c := parts[0], parts[1], parts[2];
    assert ParseInt(a) == Some(d.day) && ParseInt(b) == Some(d.month) && ParseInt(c) == Some(d.year);
    assert '-' !in a && '-' !in b && '-' !in c;
    assert s == a + "-" + b + "-" + c by {
      JoinSplit(s, '-');
      JoinOfThree("-", parts);
    }
  }

  lemma JoinOfThree(sep: string, parts: seq<string>)
    requires |parts| == 3
    ensures Join(sep, parts) == parts[0] + sep + parts[1] + sep + parts[2]
  {
    assert parts[1..][1..] == [parts[2]];
    assert Join(sep, parts[1..]) == parts[1] + sep + parts[2];
    assert parts[0] + sep + (parts[1] + sep + parts[2]) == parts[0] + sep + parts[1] + sep + parts[2];
  }

  /**
   * What an article page holds: the text of its `h1.titulo`, the `datePublished` string of
   * its JSON-LD object (None where the script, the object or the key is missing), and the
   * texts of the `<p>` elements of its `div.texto` (None where the division is missing).
   */
  datatype ArticlePage = ArticlePage(h1: Option<string>, datePublished: Option<string>, texto: Option<seq<string>>)

  /** The tuple `(titulo, contenido, fecha)`. */
  datatype Extract = Extract(titulo: string, contenido: string, fecha: Option<Date>)

  /** The body text: the paragraphs with text, joined by blank lines. */
  function Contenido(texto: Option<seq<string>>): string
  {
    if texto.Some? then Join(ParagraphSep, NonEmptyTexts(texto.value)) else ""
  }

  /** The body has text exactly when one of its paragraphs has. */
  lemma ContenidoHasText(texto: seq<string>)
    ensures Contenido(Some(texto)) != "" <==> exists k | 0 <= k < |texto| :: Strip(texto[k]) != ""
  {
    var texts := Map(texto, Strip);
    var parts := NonEmptyTexts(texto);
    CountIsFilterLength(texts, NonEmpty);
    CountZero(texts, NonEmpty);
    JoinFirstNonEmpty(ParagraphSep, parts);
  }

  /** `_extraer_contenido_articulo`: None when the page cannot be read or lacks a title or a body. */
  function Extraer(page: Option<ArticlePage>): (r: Option<Extract>)
    ensures r.Some? ==> r.value.titulo != "" && r.value.contenido != ""
    ensures r.Some? && r.value.fecha.Some? ==> Valid(r.value.fecha.value)
  {
    match page
    case None => None
    case Some(p) =>
      var titulo := if p.h1.Some? then p.h1.value else "";
      var fecha := if p.datePublished.Some? then FechaPublicada(p.datePublished.value) else None;
      var contenido := Contenido(p.texto);
      if titulo != "" && contenido != "" then Some(Extract(titulo, contenido, fecha)) else None
  }

  /** An article is read exactly when its page has a title and a paragraph with text; its date is the published one. */
  lemma ExtraerAccepts(page: Option<ArticlePage>)
    ensures Extraer(page).Some? <==> (page.Some? && page.value.h1.Some? && page.value.h1.value != ""
      && page.value.texto.Some? && exists k | 0 <= k < |page.value.texto.value| :: Strip(page.value.texto.value[k]) != "")
    ensures Extraer(page).Some? && page.value.datePublished.None? ==> Extraer(page).value.fecha.None?
  {
    if page.Some? {
      var p := page.value;
      var titulo := if p.h1.Some? then p.h1.value else "";
      assert Extraer(page).Some? <==> titulo != "" && Contenido(p.texto) != "";
      if p.texto.Some? {
        ContenidoHasText(p.texto.value);
      }
    }
  }

  // ---------------------------------------------------------------------------------------
  // Content ids
  // ---------------------------------------------------------------------------------------

  /** `url.split("/nota/")[1].split("/")[0]`: the text after the first "/nota/" up to the next slash. */
  function IdOf(url: string): (r: Option<string>)
    ensures r.Some? <==> Contains(url, NotaMark)
    ensures r.Some? ==> '/' !in r.value
  {
    match Find(url, NotaMark)
    case None => None
    case Some(i) => Some(TakeUntil(url[i + |NotaMark|..], '/'))
  }

  /** The ids of the URLs that contain "/nota/", in the order of the URLs. */
  function ContentIds(urls: seq<string>): (ids: seq<string>)
    decreases |urls|
  {
    if |urls| == 0 then []
    else
      var id := IdOf(urls[|urls| - 1]);
      ContentIds(urls[..|urls| - 1]) + (if id.Some? then [id.value] else [])
  }

  /** An id is listed exactly when one of the URLs has it. */
  lemma {:induction false} ContentIdsAre(urls: seq<string>, x: string)
    ensures x in ContentIds(urls) <==> exists k | 0 <= k < |urls| :: IdOf(urls[k]) == Some(x)
    decreases |urls|
  {
    if |urls| > 0 {
      var init := urls[..|urls| - 1];
      ContentIdsAre(init, x);
      if exists k | 0 <= k < |urls| :: IdOf(urls[k]) == Some(x) {
        var k :| 0 <= k < |urls| && IdOf(urls[k]) == Some(x);
        if k < |init| {
          assert IdOf(init[k]) == Some(x);
        }
      }
      if x in ContentIds(init) {
        var k :| 0 <= k < |init| && IdOf(init[k]) == Some(x);
        assert IdOf(urls[k]) == Some(x);
      }
    }
  }

  /** The content-id loop of `_cargar_mas_articulos_vermas`. */
  method ExtraerIds(urls: seq<string>) returns (ids: seq<string>)
    ensures ids == ContentIds(urls)
  {
    ids := [];
    var i := 0;
    while i < |urls|
      invariant i <= |urls|
      invariant ids == ContentIds(urls[..i])
    {
      assert urls[..i + 1][..i] == urls[..i];
      var url := urls[i];
      if Contains(url, NotaMark) {
        var at := Find(url, NotaMark).value;
        ids := ids + [TakeUntil(url[at + |NotaMark|..], '/')];
      }
      i := i + 1;
    }
    assert urls[..i] == urls;
  }

  /** The URL a "Ver Más" id is read from: the id, the current year and month, and a fixed slug. */
  function NotaUrl(id: string, today: Today): (url: string)
  {
    NotaPrefix + id + "/" + NatToStr(today.year) + "/" + PadNat(today.month, 2) + "/articulo-generico"
  }

  /** The only "/nota/" in the prefix of a built URL is the one it ends with. */
  lemma NotaPrefixMark()
    ensures NotaPrefix == BaseUrl + NotaMark
    ensures forall k | 0 <= k < |BaseUrl| :: !OccursAt(NotaPrefix, NotaMark, k)
  {
    forall k | 0 <= k < |BaseUrl|
      ensures !OccursAt(NotaPrefix, NotaMark, k)
    {
      if k < 13 {
        SchemeHasNoMark(k);
      } else {
        HostHasNoMark(k);
      }
    }
  }

  lemma SchemeHasNoMark(k: int)
    requires 0 <= k < 13
    ensures NotaPrefix[k] != '/' || NotaPrefix[k + 1] != 'n'
  {
    assert k == 0 || k == 1 || k == 2 || k == 3 || k == 4 || k == 5 || k == 6 || k == 7 || k == 8 || k == 9 || k == 10 || k == 11 || k == 12;
  }

  lemma HostHasNoMark(k: int)
    requires 13 <= k < 25
    ensures NotaPrefix[k] != '/'
  {
    assert k == 13 || k == 14 || k == 15 || k == 16 || k == 17 || k == 18 || k == 19 || k == 20 || k == 21 || k == 22 || k == 23 || k == 24;
  }

  /** The id of a URL that starts with the prefix of built URLs is what follows it, up to a slash. */
  lemma IdAfterPrefix(tail: string)
    ensures IdOf(NotaPrefix + tail) == Some(TakeUntil(tail, '/'))
  {
    var url := NotaPrefix + tail;
    NotaPrefixMark();
    assert url[..|NotaPrefix|] == NotaPrefix;
    assert OccursAt(url, NotaMark, |BaseUrl|);
    forall k | 0 <= k < |BaseUrl|
      ensures !OccursAt(url, NotaMark, k)
    {
      assert !OccursAt(NotaPrefix, NotaMark, k);
      assert url[k..k + |NotaMark|] == NotaPrefix[k..k + |NotaMark|];
    }
    assert url[|NotaPrefix|..] == tail;
  }

  /** The id of a built URL is the id it was built from, when that id has no slash. */
  lemma NotaUrlId(id: string, today: Today)
    requires '/' !in id
    ensures IdOf(NotaUrl(id, today)) == Some(id)
  {
    var rest := NatToStr(today.year) + "/" + PadNat(today.month, 2) + "/articulo-generico";
    assert NotaUrl(id, today) == NotaPrefix + (id + ['/'] + rest);
    IdAfterPrefix(id + ['/'] + rest);
    TakeUntilBefore(id, '/', rest);
  }

  // ---------------------------------------------------------------------------------------
  // The articles, for any reading of article pages
  // ---------------------------------------------------------------------------------------

  /** The tuple `_extraer_contenido_articulo` gives for a URL. */
  type Reader = string -> Option<Extract>

  /**
   * What the scraper keeps while it reads articles: `urls_vistas`, the URLs in the database,
   * the articles it committed in order, whether it stopped on an old article, and whether
   * a commit raised.
   */
  datatype Phase = Phase(seen: set<string>, stored: set<string>, saved: seq<Article>, stopped: bool, failed: bool)

  /** The phase has ended: on an old article, or on a commit that raised. */
  predicate Halted(s: Phase) { s.stopped || s.failed }

  /** `fecha and fecha.date() < fecha_limite`: an article without a date is never too old. */
  predicate TooOld(fecha: Option<Date>, limit: Option<Date>)
  {
    fecha.Some? && PastLimit(fecha.value, limit)
  }

  /** The `Noticia` added for an article, its raw content cut to 60000 characters. */
  function NoticiaOf(x: Extract, url: string, raw: string): (a: Article)
    ensures |a.contenidoCrudo| <= RawLimit && a.url == url && a.media == MediaId
  {
    Article(x.titulo, x.contenido, Take(raw, RawLimit), x.fecha, url, MediaId)
  }

  /**
   * Whether `db.commit()` succeeds after `prior` were committed: the `fecha` column is
   * NOT NULL, so an article without a date never commits; otherwise the store decides.
   */
  predicate Commits(store: Store, prior: seq<Article>, a: Article)
  {
    a.fecha.Some? && store(prior, a)
  }

  /** `db.add` and `db.commit`: a committed article is held and counted; a commit that raises ends the phase. */
  function Insert(s: Phase, a: Article, store: Store): Phase
  {
    if Commits(store, s.saved, a) then s.(stored := s.stored + {a.url}, saved := s.saved + [a])
    else s.(failed := true)
  }

  /**
   * One URL of the section page: a URL already seen is passed over; a stored one is skipped
   * before its date is looked at; an old one stops the scraper; any other is inserted.
   */
  function InitialStep(s: Phase, url: string, read: Reader, site: Site, seccion: string): Phase
  {
    if Halted(s) || url in s.seen then s
    else
      var s1 := s.(seen := s.seen + {url});
      match read(url)
      case None => s1
      case Some(x) =>
        if url in s.stored then s1
        else if TooOld(x.fecha, site.limit) then s1.(stopped := true)
        else Insert(s1, NoticiaOf(x, url, seccion), site.store)
  }

  function InitialAll(urls: seq<string>, start: Phase, read: Reader, site: Site, seccion: string): Phase
    decreases |urls|
  {
    if |urls| == 0 then start
    else InitialStep(InitialAll(urls[..|urls| - 1], start, read, site, seccion), urls[|urls| - 1], read, site, seccion)
  }

  /**
   * The order of a set's iteration, the endpoint, the clock, the limit, the text of a
   * tuple and the database's verdict on a commit.
   */
  datatype Site = Site(limit: Option<Date>, today: Today, order: set<string> -> seq<string>,
                       server: Server, repr: Extract -> string, store: Store)

  /** A content id as the endpoint sends it: a JSON number or a JSON string. */
  datatype CId = CNum(n: int) | CStr(s: string)

  /** The endpoint's `contenidos` for a round and the ids sent; None where the round fails. */
  type Server = (nat, seq<string>) -> Option<seq<CId>>

  /**
   * One "Ver Más" id: a URL already seen is passed over; an old article stops the scraper
   * before the database is asked about it; a stored one is skipped; any other is inserted.
   */
  function MoreStep(s: Phase, id: string, read: Reader, site: Site): Phase
  {
    var url := NotaUrl(id, site.today);
    if Halted(s) || url in s.seen then s
    else
      var s1 := s.(seen := s.seen + {url});
      match read(url)
      case None => s1
      case Some(x) =>
        if TooOld(x.fecha, site.limit) then s1.(stopped := true)
        else if url in s.stored then s1
        else Insert(s1, NoticiaOf(x, url, site.repr(x)), site.store)
  }

  function MoreAll(ids: seq<string>, start: Phase, read: Reader, site: Site): Phase
    decreases |ids|
  {
    if |ids| == 0 then start
    else MoreStep(MoreAll(ids[..|ids| - 1], start, read, site), ids[|ids| - 1], read, site)
  }

  /** The articles a reader admits: titled, with a body, dated validly if at all. */
  ghost predicate ReadsOnly(read: Reader)
  {
    forall u :: read(u).Some? ==> (read(u).value.titulo != "" && read(u).value.contenido != ""
      && (read(u).value.fecha.Some? ==> Valid(read(u).value.fecha.value)))
  }

  /** The record carries the title, body and date read from its own URL. */
  predicate AsRead(a: Article, read: Reader)
  {
    read(a.url).Some? && a.titulo == read(a.url).value.titulo && a.contenido == read(a.url).value.contenido
      && a.fecha == read(a.url).value.fecha
  }

  /** The store refused, on some occasion, a dated record for the URL. */
  ghost predicate Refuses(store: Store, u: string)
  {
    exists prior: seq<Article>, a: Article | a.url == u && a.fecha.Some? :: !store(prior, a)
  }

  /** The article read from `u` is not too old, and undated or refused by the store: its commit raised. */
  ghost predicate FailedOn(u: string, read: Reader, site: Site)
  {
    read(u).Some? && !TooOld(read(u).value.fecha, site.limit) && (read(u).value.fecha.None? || Refuses(site.store, u))
  }

  /**
   * What the scraper keeps true of the database: it adds only URLs it did not hold and
   * holds every URL it added; every added article is what was read from its URL, titled,
   * with a body, not too old, with its raw content cut, and committed (so dated) after
   * the ones before it; a stop was caused by a URL it read whose article is too old; and
   * a failed commit by a URL it read whose article was undated or refused by the store.
   */
  ghost predicate Sound(s: Phase, stored0: set<string>, read: Reader, site: Site)
  {
    && (forall k | 0 <= k < |s.saved| :: s.saved[k].url !in stored0 && s.saved[k].url in s.stored && s.saved[k].url in s.seen)
    && (forall i, j | 0 <= i < j < |s.saved| :: s.saved[i].url != s.saved[j].url)
    && (forall k | 0 <= k < |s.saved| :: AsRead(s.saved[k], read) && s.saved[k].titulo != "" && s.saved[k].contenido != ""
          && !TooOld(s.saved[k].fecha, site.limit) && |s.saved[k].contenidoCrudo| <= RawLimit && s.saved[k].media == MediaId)
    && AllCommitted(site.store, s.saved)
    && stored0 <= s.stored
    && (forall u | u in s.stored :: u in stored0 || exists k | 0 <= k < |s.saved| :: s.saved[k].url == u)
    && (s.stopped ==> exists u | u in s.seen :: read(u).Some? && TooOld(read(u).value.fecha, site.limit))
    && (s.failed ==> exists u | u in s.seen :: FailedOn(u, read, site))
  }

  /**
   * Inserting one article the database does not hold keeps the phase sound, whether the
   * commit succeeds or raises.
   */
  lemma AddKeepsSound(s: Phase, s1: Phase, a: Article, stored0: set<string>, read: Reader, site: Site)
    requires Sound(s, stored0, read, site) && !Halted(s) && a.url !in s.stored && a.url in s1.seen && s.seen <= s1.seen
    requires AsRead(a, read) && a.titulo != "" && a.contenido != "" && !TooOld(a.fecha, site.limit)
    requires |a.contenidoCrudo| <= RawLimit && a.media == MediaId
    requires s1 == Phase(s1.seen, s.stored, s.saved, false, false)
    ensures Sound(Insert(s1, a, site.store), stored0, read, site)
  {
    if Commits(site.store, s.saved, a) {
      CommitKeepsSound(s, s1, a, stored0, read, site);
    } else {
      if a.fecha.Some? {
        assert !site.store(s.saved, a);
        assert Refuses(site.store, a.url);
      }
      assert FailedOn(a.url, read, site);
    }
  }

  lemma CommitKeepsSound(s: Phase, s1: Phase, a: Article, stored0: set<string>, read: Reader, site: Site)
    requires Sound(s, stored0, read, site) && !Halted(s) && a.url !in s.stored && a.url in s1.seen && s.seen <= s1.seen
    requires AsRead(a, read) && a.titulo != "" && a.contenido != "" && !TooOld(a.fecha, site.limit)
    requires |a.contenidoCrudo| <= RawLimit && a.media == MediaId
    requires s1 == Phase(s1.seen, s.stored, s.saved, false, false) && Commits(site.store, s.saved, a)
    ensures Sound(Phase(s1.seen, s.stored + {a.url}, s.saved + [a], false, false), stored0, read, site)
  {
    var r := Phase(s1.seen, s.stored + {a.url}, s.saved + [a], false, false);
    forall u | u in r.stored
      ensures u in stored0 || exists k | 0 <= k < |r.saved| :: r.saved[k].url == u
    {
      if u == a.url {
        assert r.saved[|s.saved|].url == u;
      } else if u !in stored0 {
        var k :| 0 <= k < |s.saved| && s.saved[k].url == u;
        assert r.saved[k].url == u;
      }
    }
    forall i, j | 0 <= i < j < |r.saved|
      ensures r.saved[i].url != r.saved[j].url
    {
      if j == |s.saved| {
        assert r.saved[i].url in s.stored;
      }
    }
    CommittedAppend(site.store, s.saved, a);
  }

  /** Each article was committed after the ones before it. */
  predicate AllCommitted(store: Store, saved: seq<Article>)
  {
    forall k | 0 <= k < |saved| :: Commits(store, saved[..k], saved[k])
  }

  lemma CommittedAppend(store: Store, saved: seq<Article>, a: Article)
    requires AllCommitted(store, saved) && Commits(store, saved, a)
    ensures AllCommitted(store, saved + [a])
  {
    var r := saved + [a];
    forall k | 0 <= k < |r|
      ensures Commits(store, r[..k], r[k])
    {
      if k < |saved| {
        assert r[..k] == saved[..k];
      } else {
        assert r[..k] == saved;
      }
    }
  }

  lemma InitialStepSound(s: Phase, url: string, read: Reader, site: Site, seccion: string, stored0: set<string>)
    requires Sound(s, stored0, read, site) && ReadsOnly(read)
    ensures Sound(InitialStep(s, url, read, site, seccion), stored0, read, site)
    ensures s.seen <= InitialStep(s, url, read, site, seccion).seen
  {
    if !Halted(s) && url !in s.seen && read(url).Some? && url !in s.stored && !TooOld(read(url).value.fecha, site.limit) {
      var x := read(url).value;
      AddKeepsSound(s, s.(seen := s.seen + {url}), NoticiaOf(x, url, seccion), stored0, read, site);
    }
  }

  lemma MoreStepSound(s: Phase, id: string, read: Reader, site: Site, stored0: set<string>)
    requires Sound(s, stored0, read, site) && ReadsOnly(read)
    ensures Sound(MoreStep(s, id, read, site), stored0, read, site)
    ensures s.seen <= MoreStep(s, id, read, site).seen
  {
    var url := NotaUrl(id, site.today);
    if !Halted(s) && url !in s.seen && read(url).Some? && url !in s.stored && !TooOld(read(url).value.fecha, site.limit) {
      var x := read(url).value;
      AddKeepsSound(s, s.(seen := s.seen + {url}), NoticiaOf(x, url, site.repr(x)), stored0, read, site);
    }
  }

  lemma {:induction false} InitialAllSound(urls: seq<string>, start: Phase, read: Reader, site: Site,
                                           seccion: string, stored0: set<string>)
    requires Sound(start, stored0, read, site) && ReadsOnly(read)
    ensures Sound(InitialAll(urls, start, read, site, seccion), stored0, read, site)
    decreases |urls|
  {
    if |urls| > 0 {
      InitialAllSound(urls[..|urls| - 1], start, read, site, seccion, stored0);
      InitialStepSound(InitialAll(urls[..|urls| - 1], start, read, site, seccion), urls[|urls| - 1], read, site, seccion, stored0);
    }
  }

  lemma {:induction false} MoreAllSound(ids: seq<string>, start: Phase, read: Reader, site: Site, stored0: set<string>)
    requires Sound(start, stored0, read, site) && ReadsOnly(read)
    ensures Sound(MoreAll(ids, start, read, site), stored0, read, site)
    decreases |ids|
  {
    if |ids| > 0 {
      MoreAllSound(ids[..|ids| - 1], start, read, site, stored0);
      MoreStepSound(MoreAll(ids[..|ids| - 1], start, read, site), ids[|ids| - 1], read, site, stored0);
    }
  }

  /** On the section page a URL the database holds is skipped whatever its date: such URLs never stop the scraper. */
  lemma {:induction false} StoredSkippedBeforeCutoff(urls: seq<string>, start: Phase, read: Reader, site: Site, seccion: string)
    requires !Halted(start) && forall k | 0 <= k < |urls| :: urls[k] in start.stored
    ensures var s := InitialAll(urls, start, read, site, seccion);
      !Halted(s) && s.saved == start.saved && s.stored == start.stored
    decreases |urls|
  {
    if |urls| > 0 {
      StoredSkippedBeforeCutoff(urls[..|urls| - 1], start, read, site, seccion);
    }
  }

  /** In a "Ver Más" round the date comes first: an old article stops the scraper even when the database holds it. */
  lemma OldStoredStopsMore(s: Phase, id: string, read: Reader, site: Site)
    requires !Halted(s) && NotaUrl(id, site.today) !in s.seen && NotaUrl(id, site.today) in s.stored
    requires read(NotaUrl(id, site.today)).Some? && TooOld(read(NotaUrl(id, site.today)).value.fecha, site.limit)
    ensures MoreStep(s, id, read, site).stopped && MoreStep(s, id, read, site).saved == s.saved
  {
  }

  /**
   * A new URL whose article has no date is inserted, and its commit raises: the phase ends
   * on it, with nothing added.
   */
  lemma UndatedFailsInitial(s: Phase, url: string, read: Reader, site: Site, seccion: string)
    requires !Halted(s) && url !in s.seen && url !in s.stored && read(url).Some? && read(url).value.fecha.None?
    ensures var r := InitialStep(s, url, read, site, seccion); r.failed && !r.stopped && r.saved == s.saved
  {
  }

  /** The same for a "Ver Más" id. */
  lemma UndatedFailsMore(s: Phase, id: string, read: Reader, site: Site)
    requires var url := NotaUrl(id, site.today);
      !Halted(s) && url !in s.seen && url !in s.stored && read(url).Some? && read(url).value.fecha.None?
    ensures var r := MoreStep(s, id, read, site); r.failed && !r.stopped && r.saved == s.saved
  {
  }

  // ---------------------------------------------------------------------------------------
  // The "Ver Más" rounds, for any reading of article pages
  // ---------------------------------------------------------------------------------------

  /** `str(cid)`. */
  function CIdText(c: CId): string
  {
    match c
    case CNum(n) => IntToStr(n)
    case CStr(s) => s
  }

  /** `{str(cid) for cid in contenidos if cid != 0}`: the number 0 is dropped, the string "0" is not. */
  function ServerIds(cids: seq<CId>): (ids: set<string>)
    ensures forall k | 0 <= k < |cids| && cids[k] != CNum(0) :: CIdText(cids[k]) in ids
  {
    set k | 0 <= k < |cids| && cids[k] != CNum(0) :: CIdText(cids[k])
  }

  /** Every id the endpoint gives comes from one of its contents other than the number 0. */
  lemma ServerIdsFrom(cids: seq<CId>, x: string)
    requires x in ServerIds(cids)
    ensures exists k | 0 <= k < |cids| :: cids[k] != CNum(0) && CIdText(cids[k]) == x
  {
  }

  function SetOf(xs: seq<string>): set<string> { set k | 0 <= k < |xs| :: xs[k] }

  /** The ids sent, the articles so far, the last round asked for, and whether the rounds ended. */
  datatype More = More(ids: seq<string>, phase: Phase, round: nat, ended: bool)

  /**
   * Round `page`: no answer or no contents ends the rounds; so does an answer with no id
   * outside those sent; otherwise the new ids are read in set order, and unless one stops
   * the scraper or a commit raises, the ids sent next are all those of the answer.
   */
  function RoundStep(m: More, page: nat, read: Reader, site: Site): More
  {
    if m.ended then m
    else
      match site.server(page, m.ids)
      case None => m.(ended := true)
      case Some(cids) =>
        var sids := ServerIds(cids);
        var nuevos := sids - SetOf(m.ids);
        if |cids| == 0 || nuevos == {} then m.(ended := true)
        else
          var ph := MoreAll(site.order(nuevos), m.phase, read, site);
          if Halted(ph) then More(m.ids, ph, page, true)
          else More(site.order(sids), ph, page, false)
  }

  /** Rounds 1 to `n`. */
  function RoundsAll(n: nat, start: More, read: Reader, site: Site): More
    decreases n
  {
    if n == 0 then start else RoundStep(RoundsAll(n - 1, start, read, site), n, read, site)
  }

  /** After a round that goes on, the ids sent next are the answer's ids and no others. */
  lemma IdsReplaced(m: More, page: nat, read: Reader, site: Site, x: string)
    requires Batches.Enumerates(site.order) && !RoundStep(m, page, read, site).ended && !m.ended
    ensures site.server(page, m.ids).Some?
    ensures x in SetOf(RoundStep(m, page, read, site).ids) <==> x in ServerIds(site.server(page, m.ids).value)
  {
    var sids := ServerIds(site.server(page, m.ids).value);
    var ids := RoundStep(m, page, read, site).ids;
    assert ids == site.order(sids);
    assert Batches.Lists(site.order(sids), sids);
    if x in SetOf(ids) {
      var k :| 0 <= k < |ids| && ids[k] == x;
      assert x in ids;
    }
    if x in sids {
      assert x in ids;
      var k :| 0 <= k < |ids| && ids[k] == x;
    }
  }

  /** Once the rounds end, later rounds change nothing. */
  lemma {:induction false} EndedStays(n: nat, m: nat, start: More, read: Reader, site: Site)
    requires n <= m && RoundsAll(n, start, read, site).ended
    ensures RoundsAll(m, start, read, site) == RoundsAll(n, start, read, site)
    decreases m
  {
    if m > n {
      EndedStays(n, m - 1, start, read, site);
    }
  }

  /** An answer without a new id ends the rounds with the articles read so far. */
  lemma NoNewIdsEnds(n: nat, start: More, read: Reader, site: Site)
    requires n < MaxRounds && !RoundsAll(n, start, read, site).ended
    requires var m := RoundsAll(n, start, read, site);
      site.server(n + 1, m.ids).Some? && ServerIds(site.server(n + 1, m.ids).value) <= SetOf(m.ids)
    ensures RoundsAll(MaxRounds, start, read, site).phase == RoundsAll(n, start, read, site).phase
    ensures RoundsAll(MaxRounds, start, read, site).ended
  {
    EndedStays(n + 1, MaxRounds, start, read, site);
  }

  /** The endpoint is asked for rounds 1 to `n` only: answers to later rounds do not matter. */
  lemma {:induction false} OnlyFirstRoundsAsked(n: nat, start: More, read: Reader, site: Site, other: Server)
    requires forall p: nat, ids: seq<string> | 1 <= p <= n :: other(p, ids) == site.server(p, ids)
    ensures RoundsAll(n, start, read, site.(server := other)) == RoundsAll(n, start, read, site)
    decreases n
  {
    if n > 0 {
      OnlyFirstRoundsAsked(n - 1, start, read, site, other);
      var m := RoundsAll(n - 1, start, read, site);
      assert other(n, m.ids) == site.server(n, m.ids);
      if !m.ended && site.server(n, m.ids).Some? {
        MoreAllSame(site.order(ServerIds(site.server(n, m.ids).value) - SetOf(m.ids)), m.phase, read, site, other);
      }
    }
  }

  /** Reading ids does not ask the endpoint. */
  lemma {:induction false} MoreAllSame(ids: seq<string>, start: Phase, read: Reader, site: Site, other: Server)
    ensures MoreAll(ids, start, read, site.(server := other)) == MoreAll(ids, start, read, site)
    decreases |ids|
  {
    if |ids| > 0 {
      MoreAllSame(ids[..|ids| - 1], start, read, site, other);
    }
  }

  lemma {:induction false} RoundsAllSound(n: nat, start: More, read: Reader, site: Site, stored0: set<string>)
    requires Sound(start.phase, stored0, read, site) && ReadsOnly(read)
    ensures Sound(RoundsAll(n, start, read, site).phase, stored0, read, site)
    decreases n
  {
    if n > 0 {
      RoundsAllSound(n - 1, start, read, site, stored0);
      var m := RoundsAll(n - 1, start, read, site);
      if !m.ended && site.server(n, m.ids).Some? {
        var nuevos := ServerIds(site.server(n, m.ids).value) - SetOf(m.ids);
        MoreAllSound(site.order(nuevos), m.phase, read, site, stored0);
      }
    }
  }

  /** Once a round's phase has ended, later ids change nothing. */
  lemma {:induction false} MoreStoppedStays(ids: seq<string>, i: nat, start: Phase, read: Reader, site: Site)
    requires i <= |ids| && Halted(MoreAll(ids[..i], start, read, site))
    ensures MoreAll(ids, start, read, site) == MoreAll(ids[..i], start, read, site)
    decreases |ids|
  {
    if i < |ids| {
      var init := ids[..|ids| - 1];
      assert init[..i] == ids[..i];
      MoreStoppedStays(init, i, start, read, site);
    } else {
      assert ids[..i] == ids;
    }
  }

  /**
   * A new id of round `n` whose article has no date ends the rounds: the `except` of the
   * round catches the commit's error, and nothing after the articles before it is added.
   */
  lemma UndatedEndsRounds(n: nat, i: nat, start: More, read: Reader, site: Site)
    requires 1 <= n <= MaxRounds && Batches.Enumerates(site.order)
    requires var m := RoundsAll(n - 1, start, read, site);
      !m.ended && site.server(n, m.ids).Some? && |site.server(n, m.ids).value| > 0
    requires var m := RoundsAll(n - 1, start, read, site);
      var ids := site.order(ServerIds(site.server(n, m.ids).value) - SetOf(m.ids));
      i < |ids| && !Halted(MoreAll(ids[..i], m.phase, read, site))
    requires var m := RoundsAll(n - 1, start, read, site);
      var ids := site.order(ServerIds(site.server(n, m.ids).value) - SetOf(m.ids));
      var url := NotaUrl(ids[i], site.today); var s := MoreAll(ids[..i], m.phase, read, site);
      url !in s.seen && url !in s.stored && read(url).Some? && read(url).value.fecha.None?
    ensures var m := RoundsAll(n - 1, start, read, site);
      var ids := site.order(ServerIds(site.server(n, m.ids).value) - SetOf(m.ids));
      var r := RoundsAll(MaxRounds, start, read, site);
      r.ended && r.phase.failed && !r.phase.stopped && r.phase.saved == MoreAll(ids[..i], m.phase, read, site).saved
  {
    var m := RoundsAll(n - 1, start, read, site);
    var nuevos := ServerIds(site.server(n, m.ids).value) - SetOf(m.ids);
    var ids := site.order(nuevos);
    var s := MoreAll(ids[..i], m.phase, read, site);
    assert nuevos != {} by {
      assert Batches.Lists(ids, nuevos);
      assert ids[i] in ids;
    }
    assert ids[..i + 1][..i] == ids[..i];
    UndatedFailsMore(s, ids[i], read, site);
    MoreStoppedStays(ids, i + 1, m.phase, read, site);
    assert RoundsAll(n, start, read, site).ended;
    EndedStays(n, MaxRounds, start, read, site);
  }

  // ---------------------------------------------------------------------------------------
  // The whole run, for any reading of article pages
  // ---------------------------------------------------------------------------------------

  /** The section page: the hrefs of its `h4.titulo` links (None where a link is missing) and its text. */
  datatype Seccion = Seccion(hrefs: seq<Option<string>>, html: string)

  /** The phase a run starts in: nothing seen, the database as it is. */
  function Empty(stored: set<string>): Phase { Phase({}, stored, [], false, false) }

  /**
   * `scrape`: nothing when the section page cannot be read; the section page's articles;
   * then, unless one of them stopped the scraper or a commit raised, the "Ver Más" rounds
   * starting from the ids of the URLs seen.
   */
  function RunAll(seccion: Option<Seccion>, read: Reader, site: Site, stored: set<string>): Phase
  {
    match seccion
    case None => Empty(stored)
    case Some(sec) =>
      var first := InitialAll(UrlsOfHrefs(sec.hrefs), Empty(stored), read, site, sec.html);
      if Halted(first) then first
      else RoundsAll(MaxRounds, More(ContentIds(site.order(first.seen)), first, 0, false), read, site).phase
  }

  /**
   * Every article a run adds is new to the database, added once, as read from its URL,
   * titled, with a body, dated, not older than the limit, cut to 60000 characters and
   * accepted by the store; the database afterwards holds what it held and those articles;
   * a run stops early only on an article with a date, and a commit raises only on an
   * article without one or one the store refused.
   */
  lemma RunAllSound(seccion: Option<Seccion>, read: Reader, site: Site, stored: set<string>)
    requires ReadsOnly(read)
    ensures Sound(RunAll(seccion, read, site, stored), stored, read, site)
  {
    if seccion.Some? {
      var sec := seccion.value;
      InitialAllSound(UrlsOfHrefs(sec.hrefs), Empty(stored), read, site, sec.html, stored);
      var first := InitialAll(UrlsOfHrefs(sec.hrefs), Empty(stored), read, site, sec.html);
      RoundsAllSound(MaxRounds, More(ContentIds(site.order(first.seen)), first, 0, false), read, site, stored);
    }
  }

  /** Articles without a date never stop a run, however old they are, and none of them is ever added. */
  lemma UndatedNeverStops(seccion: Option<Seccion>, read: Reader, site: Site, stored: set<string>)
    requires ReadsOnly(read) && forall u :: read(u).Some? ==> read(u).value.fecha.None?
    ensures !RunAll(seccion, read, site, stored).stopped
    ensures RunAll(seccion, read, site, stored).saved == []
  {
    RunAllSound(seccion, read, site, stored);
    var r := RunAll(seccion, read, site, stored);
    if |r.saved| > 0 {
      SavedIsDated(r, stored, read, site, 0);
      assert false;
    }
  }

  /** An added article was read from its URL with a date. */
  lemma SavedIsDated(s: Phase, stored0: set<string>, read: Reader, site: Site, k: nat)
    requires Sound(s, stored0, read, site) && k < |s.saved|
    ensures read(s.saved[k].url).Some? && read(s.saved[k].url).value.fecha.Some?
  {
    assert AsRead(s.saved[k], read);
    assert Commits(site.store, s.saved[..k], s.saved[k]);
  }

  /** With every article dated and a store that takes every record, no commit raises. */
  lemma DatedNeverFails(seccion: Option<Seccion>, read: Reader, site: Site, stored: set<string>)
    requires ReadsOnly(read) && forall u :: read(u).Some? ==> read(u).value.fecha.Some?
    requires forall prior, a :: site.store(prior, a)
    ensures !RunAll(seccion, read, site, stored).failed
  {
    RunAllSound(seccion, read, site, stored);
  }

  /**
   * A new section-page URL whose article has no date ends the run there: the commit raises,
   * the `except` of `scrape` catches it, and the "Ver Más" rounds never run.
   */
  lemma UndatedEndsRun(sec: Seccion, i: nat, read: Reader, site: Site, stored: set<string>)
    requires i < |UrlsOfHrefs(sec.hrefs)|
    requires var urls := UrlsOfHrefs(sec.hrefs); var s := InitialAll(urls[..i], Empty(stored), read, site, sec.html);
      !Halted(s) && urls[i] !in s.seen && urls[i] !in s.stored && read(urls[i]).Some? && read(urls[i]).value.fecha.None?
    ensures var urls := UrlsOfHrefs(sec.hrefs); var r := RunAll(Some(sec), read, site, stored);
      r.failed && !r.stopped && r.saved == InitialAll(urls[..i], Empty(stored), read, site, sec.html).saved
  {
    var urls := UrlsOfHrefs(sec.hrefs);
    var s := InitialAll(urls[..i], Empty(stored), read, site, sec.html);
    assert urls[..i + 1][..i] == urls[..i];
    UndatedFailsInitial(s, urls[i], read, site, sec.html);
    StoppedStays(urls, i + 1, Empty(stored), read, site, sec.html);
  }

  // ---------------------------------------------------------------------------------------
  // The scraper
  // ---------------------------------------------------------------------------------------

  /** `_extraer_contenido_articulo` over the article pages `fetch` gives. */
  function ReadOf(fetch: string -> Option<ArticlePage>): Reader
  {
    u => Extraer(fetch(u))
  }

  /** What the run does with `fetch` giving the article pages. */
  function Scraped(seccion: Option<Seccion>, fetch: string -> Option<ArticlePage>, site: Site, stored: set<string>): Phase
  {
    RunAll(seccion, ReadOf(fetch), site, stored)
  }

  /** Every article the scraper adds passes the checks of `_extraer_contenido_articulo`, the cutoff and the commit, once. */
  lemma ScrapedSound(seccion: Option<Seccion>, fetch: string -> Option<ArticlePage>, site: Site, stored: set<string>)
    ensures Sound(Scraped(seccion, fetch, site, stored), stored, ReadOf(fetch), site)
  {
    var read: Reader := ReadOf(fetch);
    forall u
      ensures read(u).Some? ==> (read(u).value.titulo != "" && read(u).value.contenido != ""
        && (read(u).value.fecha.Some? ==> Valid(read(u).value.fecha.value)))
    {
      assert read(u) == Extraer(fetch(u));
    }
    RunAllSound(seccion, read, site, stored);
  }

  /**
   * One URL of the section page. A commit that raises leaves the phase failed: the `except`
   * of `scrape` then ends the run.
   */
  method InitialUrl(url: string, read: Reader, site: Site, seccion: string, s: Phase)
    returns (s': Phase, added: bool)
    requires !Halted(s)
    ensures s' == InitialStep(s, url, read, site, seccion)
    ensures |s'.saved| == |s.saved| + (if added then 1 else 0)
  {
    s', added := s, false;
    if url in s.seen {
      return;
    }
    s' := s'.(seen := s.seen + {url});
    var contenido := read(url);
    if contenido.Some? {
      var x := contenido.value;
      if url in s.stored {
        return;
      }
      if site.limit.Some? && x.fecha.Some? && Before(x.fecha.value, site.limit.value) {
        s' := s'.(stopped := true);
        return;
      }
      var noticia := NoticiaOf(x, url, seccion);
      if !Commits(site.store, s.saved, noticia) {
        s' := s'.(failed := true);
        return;
      }
      s' := s'.(stored := s.stored + {url}, saved := s.saved + [noticia]);
      added := true;
    }
  }

  /** One id of a "Ver Más" round; a commit that raises leaves the phase failed. */
  method MoreId(id: string, read: Reader, site: Site, s: Phase) returns (s': Phase, added: bool)
    requires !Halted(s)
    ensures s' == MoreStep(s, id, read, site)
    ensures |s'.saved| == |s.saved| + (if added then 1 else 0)
  {
    s', added := s, false;
    var url := NotaUrl(id, site.today);
    if url in s.seen {
      return;
    }
    s' := s'.(seen := s.seen + {url});
    var contenido := read(url);
    if contenido.Some? {
      var x := contenido.value;
      if site.limit.Some? && x.fecha.Some? && Before(x.fecha.value, site.limit.value) {
        s' := s'.(stopped := true);
        return;
      }
      if url !in s.stored {
        var noticia := NoticiaOf(x, url, site.repr(x));
        if !Commits(site.store, s.saved, noticia) {
          s' := s'.(failed := true);
          return;
        }
        s' := s'.(stored := s.stored + {url}, saved := s.saved + [noticia]);
        added := true;
      }
    }
  }

  /** The ids of one round, in the order given, until one stops the scraper or a commit raises. */
  method ProcessIds(ids: seq<string>, read: Reader, site: Site, start: Phase)
    returns (s: Phase, added: nat)
    requires !Halted(start)
    ensures s == MoreAll(ids, start, read, site)
    ensures |s.saved| == |start.saved| + added
  {
    s, added := start, 0;
    var i := 0;
    while i < |ids|
      invariant i <= |ids|
      invariant s == MoreAll(ids[..i], start, read, site)
      invariant |s.saved| == |start.saved| + added
    {
      if Halted(s) {
        MoreStoppedStays(ids, i, start, read, site);
        return;
      }
      var one;
      s, one := MoreId(ids[i], read, site, s);
      if one {
        added := added + 1;
      }
      assert ids[..i + 1][..i] == ids[..i];
      i := i + 1;
    }
    assert ids[..i] == ids;
  }

  /** `_cargar_mas_articulos_vermas`: the rounds 1 to 20 from the ids of the URLs seen. */
  method CargarMasArticulos(read: Reader, site: Site, first: Phase)
    returns (adicionales: nat, m: More)
    requires !Halted(first)
    ensures var start := More(ContentIds(site.order(first.seen)), first, 0, false);
      m == RoundsAll(MaxRounds, start, read, site)
    ensures |m.phase.saved| == |first.saved| + adicionales
  {
    var contentIds := ExtraerIds(site.order(first.seen));
    adicionales, m := VerMasRounds(read, site, More(contentIds, first, 0, false), MaxRounds);
  }

  /** The rounds 1 to `maxPages`, until one ends them. */
  method VerMasRounds(read: Reader, site: Site, start: More, maxPages: nat)
    returns (adicionales: nat, m: More)
    requires !start.ended && !Halted(start.phase)
    ensures m == RoundsAll(maxPages, start, read, site)
    ensures |m.phase.saved| == |start.phase.saved| + adicionales
  {
    m, adicionales := start, 0;
    var done := 0;
    while done < maxPages
      invariant done <= maxPages
      invariant m == RoundsAll(done, start, read, site)
      invariant !m.ended && !Halted(m.phase)
      invariant |m.phase.saved| == |start.phase.saved| + adicionales
    {
      var added;
      m, added := VerMasRound(done + 1, read, site, start, m);
      adicionales := adicionales + added;
      if m.ended {
        EndedStays(done + 1, maxPages, start, read, site);
        return;
      }
      done := done + 1;
    }
  }

  /**
   * One "Ver Más" round: ask the endpoint, read the new ids, and replace the ids sent; a
   * stop on the date or a commit that raises ends the rounds.
   */
  method VerMasRound(page: nat, read: Reader, site: Site, ghost start: More, m: More)
    returns (m': More, added: nat)
    requires !m.ended && !Halted(m.phase)
    requires 1 <= page && m == RoundsAll(page - 1, start, read, site)
    ensures m' == RoundStep(m, page, read, site)
    ensures m' == RoundsAll(page, start, read, site)
    ensures |m'.phase.saved| == |m.phase.saved| + added
    ensures !m'.ended ==> !Halted(m'.phase)
  {
    added := 0;
    var answer := site.server(page, m.ids);
    if answer.None? || |answer.value| == 0 {
      m' := m.(ended := true);
      return;
    }
    var serverIds := ServerIds(answer.value);
    var nuevos := serverIds - SetOf(m.ids);
    if nuevos == {} {
      m' := m.(ended := true);
      return;
    }
    var ph;
    ph, added := ProcessIds(site.order(nuevos), read, site, m.phase);
    if ph.stopped || ph.failed {
      m' := More(m.ids, ph, page, true);
      return;
    }
    m' := More(site.order(serverIds), ph, page, false);
  }

  /**
   * `scrape`: the section page's articles, then, unless one of them stopped the scraper or
   * a commit raised, the "Ver Más" rounds; `count` is `noticias_guardadas`.
   */
  method Scrape(seccion: Option<Seccion>, fetch: string -> Option<ArticlePage>, site: Site, stored: set<string>)
    returns (count: nat, s: Phase)
    ensures s == Scraped(seccion, fetch, site, stored)
    ensures count == |s.saved|
  {
    s := Empty(stored);
    count := 0;
    if seccion.None? {
      return;
    }
    var sec := seccion.value;
    var read := ReadOf(fetch);
    var urls := ExtraerUrlsArticulos(sec.hrefs);
    count, s := InitialPage(urls, read, site, sec.html, stored);
    if s.stopped || s.failed {
      return;
    }
    var adicionales, m := CargarMasArticulos(read, site, s);
    s := m.phase;
    count := count + adicionales;
  }

  /** The loop over the section page's URLs, until an old article returns from `scrape` or a commit raises. */
  method InitialPage(urls: seq<string>, read: Reader, site: Site, html: string, stored: set<string>)
    returns (count: nat, s: Phase)
    ensures s == InitialAll(urls, Empty(stored), read, site, html)
    ensures count == |s.saved|
  {
    s := Empty(stored);
    count := 0;
    var i := 0;
    while i < |urls|
      invariant i <= |urls|
      invariant s == InitialAll(urls[..i], Empty(stored), read, site, html)
      invariant count == |s.saved| && !Halted(s)
    {
      var added;
      s, added := InitialUrl(urls[i], read, site, html, s);
      assert urls[..i + 1][..i] == urls[..i];
      if added {
        count := count + 1;
      }
      if s.stopped || s.failed {
        StoppedStays(urls, i + 1, Empty(stored), read, site, html);
        return;
      }
      i := i + 1;
    }
    assert urls[..i] == urls;
  }

  /** Once the section page's phase has ended, no later URL changes anything. */
  lemma {:induction false} StoppedStays(urls: seq<string>, i: nat, start: Phase, read: Reader, site: Site, seccion: string)
    requires i <= |urls| && Halted(InitialAll(urls[..i], start, read, site, seccion))
    ensures InitialAll(urls, start, read, site, seccion) == InitialAll(urls[..i], start, read, site, seccion)
    decreases |urls|
  {
    if i < |urls| {
      var init := urls[..|urls| - 1];
      assert init[..i] == urls[..i];
      StoppedStays(init, i, start, read, site, seccion);
    } else {
      assert urls[..i] == urls;
    }
  }
}

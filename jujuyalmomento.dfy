/**
 * The Jujuy al Momento crawlers: the police section (`JujuyAlMomentoScraper`) and four tag
 * listings (`JujuyAlMomentoTagScraper`). Both read numbered listing pages, take from each
 * page the URLs not seen yet in the run, and read every article from the JSON-LD
 * NewsArticle object of its page.
 *
 * A listing page is the set of absolute article URLs its links give (`current_page_urls`);
 * `pages[p]` is the answer to the request for page `p + 1`, and the sequence ends where a
 * listing request fails or answers with a blank body. Python iterates the set of new URLs
 * in an order it does not specify: `Run.order` is that order, a parameter. `Run.fetch`
 * gives the article page a URL answers with, `None` where the request fails or the body is
 * blank.
 *
 * A `datePublished` text that `datetime.fromisoformat` rejects raises ValueError, which the
 * `except` of `_scrape_article` does not list: it ends the page loop and with it the whole
 * crawl. The walk treats it as it treats an old article: the walk stops there.
 */
module JujuyAlMomento {
  import opened Wrappers
  import opened Text
  import opened Seqs
  import opened Dates
  import opened Crawl
  import opened Walks
  import opened Batches
  import opened JsonLd

  const BaseUrl: string := "https://www.jujuyalmomento.com"
  const PolicialesUrl: string := "https://www.jujuyalmomento.com/contenidos/policiales.html"
  const MediaName: string := "jujuyalmomento"

  /** The tag slugs the tag scraper reads, in order. */
  const Tags: seq<string> := ["siniestro-a421", "choque-a8930", "siniestro-vial-a3204", "vuelco-a12625"]

  // ---------------------------------------------------------------------------------------
  // Listing URLs
  // ---------------------------------------------------------------------------------------

  /** The police listing page `pagina` (counted from 1): page 1 carries no `page` parameter. */
  function PageUrl(pagina: nat): (u: string)
    ensures pagina == 1 <==> u == PolicialesUrl
    ensures pagina != 1 ==> StartsWith(u, PolicialesUrl + "?page=")
  {
    if pagina == 1 then PolicialesUrl else NumberedUrl(PolicialesUrl + "?page=", pagina)
  }

  /** The page number reads back from the `page` parameter. */
  lemma PageUrlReadBack(pagina: nat)
    requires pagina != 1
    ensures ParseInt(PageUrl(pagina)[|PolicialesUrl| + 6..]) == Some(pagina)
  {
    NumberedUrlReadBack(PolicialesUrl + "?page=", pagina);
  }

  /** Every police listing page has its own URL. */
  lemma PageUrlsDistinct(a: nat, b: nat)
    requires a != b
    ensures PageUrl(a) != PageUrl(b)
  {
    if a != 1 && b != 1 {
      NumberedUrlsDistinct(PolicialesUrl + "?page=", a, b);
    }
  }

  /** The listing page `pagina` (counted from 1) of a tag: `base/tag`, then `base/tag/1`, `base/tag/2`, ... */
  function TagPageUrl(tag: string, pagina: nat): (u: string)
    ensures pagina == 1 <==> u == BaseUrl + "/" + tag
    ensures pagina != 1 ==> StartsWith(u, BaseUrl + "/" + tag + "/")
  {
    if pagina == 1 then BaseUrl + "/" + tag else NumberedUrl(BaseUrl + "/" + tag + "/", pagina - 1)
  }

  /** The number after the tag is one less than the page number. */
  lemma TagPageUrlReadBack(tag: string, pagina: nat)
    requires pagina != 1
    ensures ParseInt(TagPageUrl(tag, pagina)[|BaseUrl| + |tag| + 2..]) == Some(pagina - 1)
  {
    NumberedUrlReadBack(BaseUrl + "/" + tag + "/", pagina - 1);
  }

  /** Every listing page of a tag has its own URL. */
  lemma TagPageUrlsDistinct(tag: string, a: nat, b: nat)
    requires a != b
    ensures TagPageUrl(tag, a) != TagPageUrl(tag, b)
  {
    if a != 1 && b != 1 {
      NumberedUrlsDistinct(BaseUrl + "/" + tag + "/", a - 1, b - 1);
    }
  }

  // ---------------------------------------------------------------------------------------
  // The JSON-LD NewsArticle
  // ---------------------------------------------------------------------------------------

  /** An article page: `contenido_crudo` (the article body element, else `<body>`, else '') and its ld+json script. */
  datatype ArticlePage = ArticlePage(crudo: string, script: Option<Json>)

  /**
   * The NewsArticle object of the parsed JSON-LD: the first list item whose `@type` is
   * NewsArticle, or the top-level object when it has that type. `None` also where `.get`
   * raises on a list item that is not an object, which the surrounding `except` turns into
   * no article.
   */
  function NewsArticle(data: Json): (r: Option<map<string, Json>>)
    ensures r.Some? ==> IsNews(r.value)
  {
    match data
    case JArray(items) => FirstNews(items)
    case JObject(fields) => if IsNews(fields) then Some(fields) else None
    case _ => None
  }

  /** `next((item for item in items if item.get('@type') == 'NewsArticle'), None)`, with `.get` raising on non-objects. */
  function FirstNews(items: seq<Json>): (r: Option<map<string, Json>>)
    ensures r.Some? ==> IsNews(r.value)
    decreases |items|
  {
    if |items| == 0 then None
    else match items[0]
      case JObject(fields) => if IsNews(fields) then Some(fields) else FirstNews(items[1..])
      case _ => None
  }

  /** The items before position `k` are objects of another type. */
  predicate OtherObjectsBefore(items: seq<Json>, k: int)
    requires 0 <= k <= |items|
  {
    forall j | 0 <= j < k :: items[j].JObject? && !IsNews(items[j].fields)
  }

  /** The generator picks the first NewsArticle when every item before it is an object. */
  lemma {:induction false} FirstNewsIs(items: seq<Json>, k: int)
    requires 0 <= k < |items| && items[k].JObject? && IsNews(items[k].fields)
    requires OtherObjectsBefore(items, k)
    ensures FirstNews(items) == Some(items[k].fields)
    decreases k
  {
    if k > 0 {
      assert items[0].JObject? && !IsNews(items[0].fields);
      FirstNewsIs(items[1..], k - 1);
    }
  }

  /** What the generator picks is a NewsArticle item with only other objects before it. */
  lemma {:induction false} FirstNewsSound(items: seq<Json>)
    requires FirstNews(items).Some?
    ensures exists k | 0 <= k < |items| ::
      items[k] == JObject(FirstNews(items).value) && OtherObjectsBefore(items, k)
    decreases |items|
  {
    if !(items[0].JObject? && IsNews(items[0].fields)) {
      FirstNewsSound(items[1..]);
      var k :| 0 <= k < |items[1..]| && items[1..][k] == JObject(FirstNews(items[1..]).value)
        && OtherObjectsBefore(items[1..], k);
      assert items[k + 1] == items[1..][k];
      assert OtherObjectsBefore(items, k + 1) by {
        forall j | 0 <= j < k + 1
          ensures items[j].JObject? && !IsNews(items[j].fields)
        {
          if j > 0 {
            assert items[j] == items[1..][j - 1];
          }
        }
      }
    } else {
      assert OtherObjectsBefore(items, 0);
    }
  }

  /** A list item that is not an object, met before any NewsArticle, loses the article. */
  lemma {:induction false} NonObjectFirstLosesArticle(items: seq<Json>, k: int)
    requires 0 <= k < |items| && !items[k].JObject? && OtherObjectsBefore(items, k)
    ensures FirstNews(items).None?
    decreases k
  {
    if k > 0 {
      assert items[0].JObject? && !IsNews(items[0].fields);
      NonObjectFirstLosesArticle(items[1..], k - 1);
    }
  }

  /** What `_scrape_article` makes of the JSON-LD: no article, a ValueError, or the three fields. */
  datatype Outcome = NoArticle | Malformed | Parsed(titulo: string, fecha: Date, contenido: string)

  /**
   * `_scrape_article` on the ld+json script: no script, unparsable JSON and no NewsArticle
   * give no article; so does a missing or false headline, datePublished or articleBody,
   * and a field of the wrong type (TypeError, AttributeError). A datePublished text that
   * `fromisoformat` rejects is a ValueError. Otherwise the stripped headline and body
   * and the date.
   */
  function ReadArticle(script: Option<Json>): (r: Outcome)
    ensures r.Parsed? ==> Valid(r.fecha)
    ensures !r.NoArticle? ==> script.Some? && NewsArticle(script.value).Some?
  {
    if script.None? then NoArticle
    else
      var news := NewsArticle(script.value);
      if news.None? then NoArticle
      else
        var titulo := Field(news.value, "headline");
        var fecha := Field(news.value, "datePublished");
        var contenido := Field(news.value, "articleBody");
        if !(Truthy(titulo) && Truthy(fecha) && Truthy(contenido)) || !fecha.value.JStr? then NoArticle
        else
          var d := DateTimeDate(fecha.value.s);
          if d.None? then Malformed
          else if !titulo.value.JStr? || !contenido.value.JStr? then NoArticle
          else Parsed(Strip(titulo.value.s), d.value, Strip(contenido.value.s))
  }

  /** A NewsArticle object with text headline, body and ISO date gives those, stripped, and the date. */
  lemma ReadArticleOf(fields: map<string, Json>, titulo: string, fecha: string, contenido: string)
    requires IsNews(fields) && titulo != "" && contenido != "" && DateTimeDate(fecha).Some?
    requires Field(fields, "headline") == Some(JStr(titulo))
    requires Field(fields, "datePublished") == Some(JStr(fecha))
    requires Field(fields, "articleBody") == Some(JStr(contenido))
    ensures ReadArticle(Some(JObject(fields))) == Parsed(Strip(titulo), DateTimeDate(fecha).value, Strip(contenido))
  {
  }

  /** A list whose first item is a NewsArticle object reads as that object. */
  lemma ListedNewsFirst(fields: map<string, Json>, rest: seq<Json>)
    requires IsNews(fields)
    ensures ReadArticle(Some(JArray([JObject(fields)] + rest))) == ReadArticle(Some(JObject(fields)))
  {
    FirstNewsIs([JObject(fields)] + rest, 0);
  }

  /** Without a headline, a date or a body the page gives no article, whatever the others hold. */
  lemma MissingFieldNoArticle(fields: map<string, Json>, key: string)
    requires key == "headline" || key == "datePublished" || key == "articleBody"
    requires !Truthy(Field(fields, key))
    ensures ReadArticle(Some(JObject(fields))) == NoArticle
  {
  }

  /** A text datePublished that is not an ISO date is a ValueError, whatever the headline and body are. */
  lemma UnreadableDateIsMalformed(fields: map<string, Json>, fecha: string)
    requires IsNews(fields) && fecha != "" && DateTimeDate(fecha).None?
    requires Truthy(Field(fields, "headline")) && Truthy(Field(fields, "articleBody"))
    requires Field(fields, "datePublished") == Some(JStr(fecha))
    ensures ReadArticle(Some(JObject(fields))) == Malformed
  {
  }

  // ---------------------------------------------------------------------------------------
  // What each new URL gives
  // ---------------------------------------------------------------------------------------

  /** The inputs of a run the model takes as parameters: set order, article pages and the limit. */
  datatype Run = Run(order: set<string> -> seq<string>, fetch: string -> Option<ArticlePage>, limit: Option<Date>)

  /** The article a URL gives when its page is fetched and its JSON-LD read. */
  function Offer(url: string, run: Run): (r: Option<Article>)
    ensures r.Some? ==> r.value.url == url && r.value.media == MediaName
    ensures r.Some? ==> r.value.fecha.Some? && Valid(r.value.fecha.value)
    ensures r.Some? <==> run.fetch(url).Some? && ReadArticle(run.fetch(url).value.script).Parsed?
  {
    var page := run.fetch(url);
    if page.None? then None
    else
      var o := ReadArticle(page.value.script);
      if o.Parsed? then Some(Article(o.titulo, o.contenido, page.value.crudo, Some(o.fecha), url, MediaName))
      else None
  }

  /** The page of the URL reads as an article dated before the limit. */
  predicate Old(url: string, run: Run)
  {
    Offer(url, run).Some? && PastLimit(Offer(url, run).value.fecha.value, run.limit)
  }

  /** The page of the URL has a datePublished that `fromisoformat` rejects. */
  predicate BadDate(url: string, run: Run)
  {
    run.fetch(url).Some? && ReadArticle(run.fetch(url).value.script).Malformed?
  }

  /** The verdict on a new URL: the walk stops at an old article or a bad date, takes an article, or skips. */
  function VisitOf(url: string, run: Run): (v: Visit)
    ensures v.url == url
    ensures v.verdict.Stop? <==> Old(url, run) || BadDate(url, run)
    ensures v.verdict.Take? ==> Offer(url, run) == Some(v.verdict.article) && WithinLimit(v.verdict.article, run.limit)
    ensures v.verdict.Skip? ==> Offer(url, run).None? && !BadDate(url, run)
  {
    if Old(url, run) || BadDate(url, run) then Visit(url, Stop)
    else if Offer(url, run).None? then Visit(url, Skip)
    else Visit(url, Take(Offer(url, run).value))
  }

  /** The walk's view of the first `n` listing pages, each URL judged by `VisitOf`. */
  function RunVisits(pages: seq<set<string>>, n: nat, run: Run): (vs: seq<Visit>)
    requires n <= |pages|
  {
    BatchVisits(pages, n, run.order, u => VisitOf(u, run))
  }

  /** The state of the walk after `n` listing pages. */
  function WalkAt(pages: seq<set<string>>, n: nat, run: Run): (w: Walk)
    requires n <= |pages|
  {
    BatchWalk(pages, n, run.order, u => VisitOf(u, run))
  }

  /** The number of listing pages the crawl reads once `n` are read without ending it. */
  function CrawlRead(pages: seq<set<string>>, n: nat, run: Run): (read: nat)
    requires n <= |pages|
    ensures n <= read <= |pages|
  {
    BatchRead(pages, n, run.order, u => VisitOf(u, run))
  }

  /** The state the crawl ends in. */
  function Crawled(pages: seq<set<string>>, run: Run): (w: Walk)
  {
    WalkAt(pages, CrawlRead(pages, 0, run), run)
  }

  /** Every visit of the walk is the verdict on its own URL. */
  lemma RunVisitsAre(pages: seq<set<string>>, n: nat, run: Run)
    requires n <= |pages|
    ensures forall k | 0 <= k < |RunVisits(pages, n, run)| ::
      RunVisits(pages, n, run)[k] == VisitOf(RunVisits(pages, n, run)[k].url, run)
  {
    var judge := u => VisitOf(u, run);
    assert JudgesOwnUrl(judge);
    BatchVisitsAre(pages, n, run.order, judge);
  }

  /** With the set iterated in full, every visit's URL is listed on a page read. */
  lemma RunVisitsListed(pages: seq<set<string>>, n: nat, run: Run)
    requires n <= |pages| && Enumerates(run.order)
    ensures forall k | 0 <= k < |RunVisits(pages, n, run)| ::
      ListedBefore(pages, n, RunVisits(pages, n, run)[k].url)
  {
    var judge := u => VisitOf(u, run);
    assert JudgesOwnUrl(judge);
    BatchVisitsListed(pages, n, run.order, judge);
  }

  /**
   * Every article the walk offers is what its URL's page gives, dated no earlier than the
   * limit, and no URL is offered twice (`OffersListed` adds that its URL is listed on a page read).
   */
  lemma OffersSound(pages: seq<set<string>>, n: nat, run: Run)
    requires n <= |pages|
    ensures var w := WalkAt(pages, n, run);
      && (forall a | a in w.offered :: Offer(a.url, run) == Some(a) && WithinLimit(a, run.limit))
      && (forall i, j | 0 <= i < j < |w.offered| :: w.offered[i].url != w.offered[j].url)
  {
    var vs := RunVisits(pages, n, run);
    assert WalkAt(pages, n, run) == WalkAll(vs, true);
    RunVisitsAre(pages, n, run);
    assert Consistent(vs);
    WalkDistinct(vs);
    forall a | a in WalkAll(vs, true).offered
      ensures Offer(a.url, run) == Some(a) && WithinLimit(a, run.limit)
    {
      WalkSound(vs, true, a);
      var k :| 0 <= k < |vs| && Judged(vs, k, true) && vs[k].verdict == Take(a);
      assert VisitOf(vs[k].url, run).verdict == Take(a);
    }
  }

  /** With the set iterated in full, every offered article comes from a URL listed on a page read. */
  lemma OffersListed(pages: seq<set<string>>, n: nat, run: Run)
    requires n <= |pages| && Enumerates(run.order)
    ensures forall a | a in WalkAt(pages, n, run).offered :: ListedBefore(pages, n, a.url)
  {
    var vs := RunVisits(pages, n, run);
    RunVisitsAre(pages, n, run);
    RunVisitsListed(pages, n, run);
    forall a | a in WalkAll(vs, true).offered
      ensures ListedBefore(pages, n, a.url)
    {
      WalkSound(vs, true, a);
      var k :| 0 <= k < |vs| && Judged(vs, k, true) && vs[k].verdict == Take(a);
      assert vs[k] == VisitOf(vs[k].url, run);
      assert ListedBefore(pages, n, vs[k].url);
    }
  }

  /** Every article of a new URL reached before the stop is offered, unless it is old or its date is bad. */
  lemma OffersComplete(pages: seq<set<string>>, n: nat, run: Run, k: int)
    requires n <= |pages| && 0 <= k < |RunVisits(pages, n, run)|
    ensures var vs := RunVisits(pages, n, run);
      var url := vs[k].url;
      Judged(vs, k, true) && Offer(url, run).Some? && !Old(url, run) && !BadDate(url, run) ==>
        Offer(url, run).value in WalkAt(pages, n, run).offered
  {
    var vs := RunVisits(pages, n, run);
    RunVisitsAre(pages, n, run);
    var url := vs[k].url;
    if Judged(vs, k, true) && Offer(url, run).Some? && !Old(url, run) && !BadDate(url, run) {
      assert vs[k] == VisitOf(url, run);
      WalkComplete(vs, true, k);
    }
  }

  /** The walk has stopped exactly when a new URL reached before any stop was old or had a bad date. */
  lemma StopsAtOldOrBadDate(pages: seq<set<string>>, n: nat, run: Run)
    requires n <= |pages|
    ensures var vs := RunVisits(pages, n, run);
      WalkAt(pages, n, run).stopped <==>
        exists k | 0 <= k < |vs| :: Judged(vs, k, true) && (Old(vs[k].url, run) || BadDate(vs[k].url, run))
  {
    var vs := RunVisits(pages, n, run);
    RunVisitsAre(pages, n, run);
    forall k | 0 <= k < |vs|
      ensures vs[k].verdict.Stop? <==> Old(vs[k].url, run) || BadDate(vs[k].url, run)
    {
      assert vs[k] == VisitOf(vs[k].url, run);
    }
    WalkStopsAtOld(vs, true);
  }

  /** Listing page `p` had new URLs and the walk was still going after it, so the crawl read on. */
  predicate PageReadOn(pages: seq<set<string>>, p: nat, run: Run)
    requires p < |pages|
  {
    pages[p] - WalkAt(pages, p, run).seen != {} && !WalkAt(pages, p + 1, run).stopped
  }

  /**
   * The crawl reads listing pages until the last one, a page without new URLs, or a page on
   * which the walk stopped; every page before that one had new URLs and left the walk going.
   */
  lemma CrawlEnds(pages: seq<set<string>>, run: Run)
    ensures var r := CrawlRead(pages, 0, run);
      && (r == |pages| || (0 < r && !PageReadOn(pages, r - 1, run)))
      && forall p: nat | p + 1 < r :: PageReadOn(pages, p, run)
  {
    var r := CrawlRead(pages, 0, run);
    assert r == |pages| || (0 < r && !PageReadOn(pages, r - 1, run)) by {
      BatchReadEnds(pages, run.order, u => VisitOf(u, run));
      if r < |pages| {
        PageReadOnIs(pages, r - 1, run);
      }
    }
    forall p: nat | p + 1 < r
      ensures PageReadOn(pages, p, run)
    {
      BatchReadOn(pages, run.order, u => VisitOf(u, run), p);
      PageReadOnIs(pages, p, run);
    }
  }

  /** The crawl's test for going on is the generic one with this site's judge. */
  lemma PageReadOnIs(pages: seq<set<string>>, p: nat, run: Run)
    requires p < |pages|
    ensures PageReadOn(pages, p, run) == ReadOn(pages, p, run.order, u => VisitOf(u, run))
  {
  }

  /** The URLs walked on a page are listed on it and were not marked seen before it was read. */
  lemma NoUrlVisitedTwice(pages: seq<set<string>>, n: nat, run: Run)
    requires n < |pages| && Enumerates(run.order)
    ensures AllNew(RunVisits(pages, n + 1, run), |RunVisits(pages, n, run)|, pages[n], WalkAt(pages, n, run).seen)
  {
    var judge := u => VisitOf(u, run);
    assert JudgesOwnUrl(judge);
    NoUrlRevisited(pages, n, run.order, judge);
  }

  /**
   * `for url in nuevas_urls` walks every new URL of a page the crawl reads: each URL of the
   * page not marked seen before it is judged by `VisitOf`, and is marked seen by the end of
   * the page unless the walk has stopped.
   */
  lemma NewUrlsJudged(pages: seq<set<string>>, p: nat, run: Run)
    requires p < CrawlRead(pages, 0, run) && Enumerates(run.order)
    ensures forall u | u in pages[p] - WalkAt(pages, p, run).seen ::
      VisitOf(u, run) in RunVisits(pages, p + 1, run)[|RunVisits(pages, p, run)|..]
    ensures forall u | u in pages[p] - WalkAt(pages, p, run).seen ::
      u in WalkAt(pages, p + 1, run).seen || WalkAt(pages, p + 1, run).stopped
  {
    var judge := u => VisitOf(u, run);
    assert JudgesOwnUrl(judge);
    BatchJudgesAllNew(pages, p, run.order, judge);
    assert RunVisits(pages, p, run) == BatchVisits(pages, p, run.order, judge);
    assert RunVisits(pages, p + 1, run) == BatchVisits(pages, p + 1, run.order, judge);
    assert WalkAt(pages, p, run) == BatchWalk(pages, p, run.order, judge);
    assert WalkAt(pages, p + 1, run) == BatchWalk(pages, p + 1, run.order, judge);
  }

  // ---------------------------------------------------------------------------------------
  // The crawl
  // ---------------------------------------------------------------------------------------

  /** `JujuyAlMomentoScraper.scrape`: the police listing, counted from an empty run. */
  method Scrape(pages: seq<set<string>>, run: Run, store: Store)
    returns (count: nat, offered: seq<Article>, read: nat, ended: bool)
    ensures read == CrawlRead(pages, 0, run)
    ensures var w := WalkAt(pages, read, run); offered == w.offered && ended == w.stopped
    ensures count == Accepted(store, offered)
  {
    count, offered, read, ended := CrawlPages(pages, run, store, []);
    AcceptedSplit(store, [], offered);
    assert [] + offered == offered;
  }

  /**
   * The loop `scrape` and `_scrape_tag` share: read listing pages in order with a seen set
   * that starts empty; a page without new URLs ends the crawl, and so does an old article
   * or a bad date. `prior` is what the run offered the store before this loop began.
   */
  method CrawlPages(pages: seq<set<string>>, run: Run, store: Store, prior: seq<Article>)
    returns (count: nat, offered: seq<Article>, read: nat, ended: bool)
    ensures read == CrawlRead(pages, 0, run)
    ensures var w := WalkAt(pages, read, run); offered == w.offered && ended == w.stopped
    ensures count == AcceptedAfter(store, prior, offered)
  {
    count, offered, read, ended := 0, [], 0, false;
    var seen: set<string> := {};
    while read < |pages|
      invariant read <= |pages|
      invariant Walk(seen, offered, false) == WalkAt(pages, read, run)
      invariant CrawlRead(pages, 0, run) == CrawlRead(pages, read, run)
      invariant count == AcceptedAfter(store, prior, offered)
      decreases |pages| - read
    {
      var nuevas := pages[read] - seen;
      ghost var before := RunVisits(pages, read, run);
      BatchStep(pages, read, run.order, u => VisitOf(u, run));
      read := read + 1;
      if nuevas == {} {
        break;
      }
      seen, offered, count, ended := ScrapePage(run.order(nuevas), run, store, prior, seen, offered, count, before, PageVisits(run.order(nuevas), u => VisitOf(u, run)));
      if ended {
        break;
      }
    }
  }

  /** The new URLs of one listing page, in order, until one of them ends the crawl. */
  method ScrapePage(urls: seq<string>, run: Run, store: Store, prior: seq<Article>, seen: set<string>,
                    offered: seq<Article>, count: nat, ghost before: seq<Visit>, ghost vs: seq<Visit>)
    returns (seen': set<string>, offered': seq<Article>, count': nat, ended: bool)
    requires |vs| == |urls| && forall k :: 0 <= k < |urls| ==> vs[k] == VisitOf(urls[k], run)
    requires Walk(seen, offered, false) == WalkAll(before, true)
    requires count == AcceptedAfter(store, prior, offered)
    ensures Walk(seen', offered', ended) == WalkAll(before + vs, true)
    ensures count' == AcceptedAfter(store, prior, offered')
  {
    seen', offered', count', ended := seen, offered, count, false;
    var i := 0;
    assert before + vs[..0] == before;
    while i < |urls| && !ended
      invariant 0 <= i <= |urls|
      invariant Walk(seen', offered', ended) == WalkAll(before + vs[..i], true)
      invariant count' == AcceptedAfter(store, prior, offered')
      decreases |urls| - i
    {
      seen', offered', count', ended := ScrapeUrl(urls, i, run, store, prior, seen', offered', count', before, vs);
      i := i + 1;
    }
    if i < |urls| {
      WalkStoppedStays(before + vs[..i], vs[i..], true);
      Seqs.PrefixRest(before, vs, i);
    } else {
      Seqs.PrefixRest(before, vs, i);
      Seqs.AppendNothing(before + vs[..i], vs[i..]);
    }
  }

  /**
   * One new URL: a URL already seen is passed over; otherwise it is marked seen, then
   * skipped when its page cannot be fetched or gives no article, ends the crawl on a bad
   * date or an article dated before the limit, and is otherwise offered to the store.
   */
  method ScrapeUrl(urls: seq<string>, i: nat, run: Run, store: Store, prior: seq<Article>, seen: set<string>,
                   offered: seq<Article>, count: nat, ghost before: seq<Visit>, ghost vs: seq<Visit>)
    returns (seen': set<string>, offered': seq<Article>, count': nat, ended: bool)
    requires i < |urls| && i < |vs| && vs[i] == VisitOf(urls[i], run)
    requires Walk(seen, offered, false) == WalkAll(before + vs[..i], true)
    requires count == AcceptedAfter(store, prior, offered)
    ensures Walk(seen', offered', ended) == WalkAll(before + vs[..i + 1], true)
    ensures count' == AcceptedAfter(store, prior, offered')
  {
    var url := urls[i];
    ghost var v := vs[i];
    PrefixSnoc(before, vs, i);
    WalkAllStep(before + vs[..i], v, true);
    seen', offered', count', ended := seen, offered, count, false;
    if url in seen {
      return;
    }
    seen' := seen + {url};
    var page := run.fetch(url);
    if page.None? {
      return;
    }
    var outcome := ReadArticle(page.value.script);
    if outcome.NoArticle? {
      return;
    }
    if outcome.Malformed? {
      ended := true;
      return;
    }
    if run.limit.Some? && Before(outcome.fecha, run.limit.value) {
      ended := true;
      return;
    }
    var article := Article(outcome.titulo, outcome.contenido, page.value.crudo, Some(outcome.fecha), url, MediaName);
    AcceptedAfterStep(store, prior, offered, article);
    if store(prior + offered, article) {
      count' := count + 1;
    }
    offered' := offered + [article];
  }

  /** The articles the tag listings offer, tag after tag, each tag's walk starting afresh. */
  function TagOffers(tagPages: seq<seq<set<string>>>, t: nat, run: Run): (offered: seq<Article>)
    requires t <= |tagPages|
    decreases t
  {
    if t == 0 then [] else TagOffers(tagPages, t - 1, run) + Crawled(tagPages[t - 1], run).offered
  }

  /**
   * `JujuyAlMomentoTagScraper.scrape`: the listings of the four tags in turn, each with a seen
   * set of its own; `tagPages[t]` is the listing of `Tags[t]`. The total is the sum of the
   * tags' counts, and each tag's count is what the store accepted of that tag's offers.
   */
  method ScrapeTags(tagPages: seq<seq<set<string>>>, run: Run, store: Store) returns (total: nat, counts: seq<nat>)
    requires |tagPages| == |Tags|
    ensures |counts| == |Tags| && total == Sum(counts)
    ensures forall t | 0 <= t < |Tags| ::
      counts[t] == AcceptedAfter(store, TagOffers(tagPages, t, run), Crawled(tagPages[t], run).offered)
    ensures total == Accepted(store, TagOffers(tagPages, |Tags|, run))
  {
    total, counts := 0, [];
    var offered: seq<Article> := [];
    for t := 0 to |Tags|
      invariant |counts| == t && total == Sum(counts)
      invariant offered == TagOffers(tagPages, t, run) && total == Accepted(store, offered)
      invariant forall j | 0 <= j < t ::
        counts[j] == AcceptedAfter(store, TagOffers(tagPages, j, run), Crawled(tagPages[j], run).offered)
    {
      var count;
      count, offered := ScrapeTag(tagPages, t, run, store, offered);
      SumAppend(counts, [count]);
      counts := counts + [count];
      total := total + count;
    }
  }

  /** `_scrape_tag`: one tag's listing, read with a seen set of its own after the tags before it. */
  method ScrapeTag(tagPages: seq<seq<set<string>>>, t: nat, run: Run, store: Store, offered: seq<Article>)
    returns (count: nat, offered': seq<Article>)
    requires t < |tagPages| && offered == TagOffers(tagPages, t, run)
    ensures count == AcceptedAfter(store, offered, Crawled(tagPages[t], run).offered)
    ensures offered' == TagOffers(tagPages, t + 1, run)
    ensures Accepted(store, offered') == Accepted(store, offered) + count
  {
    var tagOffered, read, ended;
    count, tagOffered, read, ended := CrawlPages(tagPages[t], run, store, offered);
    AcceptedSplit(store, offered, tagOffered);
    offered' := offered + tagOffered;
  }
}

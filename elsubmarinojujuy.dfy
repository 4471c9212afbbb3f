/**
 * The El Submarino Jujuy scraper (`ElSubmarinoJujuyScraper`): the listing of the
 * "accidente" tag read page by page, and for each listed article with a link the cutoff
 * on the date the listing shows, then the existence check in the database, then the
 * article page. The first listed article older than the limit ends the whole run; a
 * listed date that does not parse never does.
 *
 * `pages[p]` is the answer to the request for page `p + 1`: the `article.item-list`
 * elements of its `div.post-listing`, or `None` where the request raises, answers 404 or
 * answers with another error status. The article URL is the link's `href` as written.
 * Dates are read by `datetime.strptime(text, '%A, %d %B, %Y')` under the locale the
 * constructor managed to set: `Run.parse` is that reading, `None` where it raises.
 */
module ElSubmarinoJujuy {
  import opened Wrappers
  import opened Text
  import opened Dates
  import opened Crawl

  const BaseUrl: string := "https://elsubmarinojujuy.com.ar"
  const TagUrl: string := "https://elsubmarinojujuy.com.ar/tag/accidente/"
  const MediaId: string := "elsubmarinojujuy"
  const NoTitle: string := "Sin Título"
  const RawLimit: nat := 60000

  /** The listing URL of a page: the tag URL itself for page 1, `{tag_url}page/{page}/` after it. */
  function PageUrl(page: int): (u: string)
  {
    if page == 1 then TagUrl else NumberedUrl(TagUrl + "page/", page) + "/"
  }

  /** Every page after the first is the tag URL, "page/", the page number and a slash. */
  lemma PageUrlShape(page: int)
    requires page != 1
    ensures StartsWith(PageUrl(page), TagUrl + "page/") && EndsWith(PageUrl(page), "/")
    ensures ParseInt(PageUrl(page)[|TagUrl + "page/"|..|PageUrl(page)| - 1]) == Some(page)
  {
    var base := TagUrl + "page/";
    NumberedUrlReadBack(base, page);
    var u := PageUrl(page);
    assert u[..|u| - 1] == NumberedUrl(base, page);
    assert u[|base|..|u| - 1] == NumberedUrl(base, page)[|base|..];
  }

  /** Page 1 is the tag URL; every other page number reads back from its URL, so pages have different URLs. */
  lemma PageUrlReadBack(page: int, other: int)
    ensures page == 1 ==> PageUrl(page) == TagUrl
    ensures other != page ==> PageUrl(other) != PageUrl(page)
  {
    if other != page && other != 1 && page != 1 {
      LaterPagesDistinct(page, other);
    } else if other != page {
      LaterPageLonger(if page == 1 then other else page);
    }
  }

  lemma LaterPagesDistinct(page: int, other: int)
    requires page != 1 && other != 1 && page != other
    ensures PageUrl(other) != PageUrl(page)
  {
    PageUrlShape(page);
    PageUrlShape(other);
    var u, v := PageUrl(page), PageUrl(other);
    var n := |TagUrl + "page/"|;
    assert ParseInt(u[n..|u| - 1]) != ParseInt(v[n..|v| - 1]);
  }

  lemma LaterPageLonger(page: int)
    requires page != 1
    ensures |PageUrl(page)| > |TagUrl|
  {
    PageUrlShape(page);
  }

  // ---------------------------------------------------------------------------------------
  // `_scrape_article`
  // ---------------------------------------------------------------------------------------

  /**
   * An article page: the response text, the stripped text of `h1.post-title`, the
   * stripped text of `span.tie-date` ('' without one), and the stripped text of each `<p>`
   * of `div.entry`.
   */
  datatype DetailPage = DetailPage(html: string, title: Option<string>, fecha: string, entry: Option<seq<string>>)

  /** The date a `span.tie-date` text gives: none for an empty text or one that does not parse. */
  function DateOf(text: string, parse: string -> Option<Date>): (r: Option<Date>)
  {
    if text == "" then None else parse(text)
  }

  /**
   * The article `_scrape_article` builds from the page the URL answers with; `None` where
   * the request raises. A missing title is 'Sin Título', a date that does not parse is
   * None (whose insert the NOT NULL `fecha` column refuses, as the `Store` verdict covers),
   * and the raw content is the response text cut to 60000 characters.
   */
  function ArticleOf(url: string, page: Option<DetailPage>, parse: string -> Option<Date>): (r: Option<Article>)
    ensures r.Some? <==> page.Some?
    ensures r.Some? ==> r.value.url == url && r.value.media == MediaId
    ensures r.Some? ==> |r.value.contenidoCrudo| <= RawLimit && StartsWith(page.value.html, r.value.contenidoCrudo)
  {
    if page.None? then None
    else
      var p := page.value;
      var titulo := if p.title.Some? then p.title.value else NoTitle;
      var contenido := if p.entry.Some? then Join("\n", p.entry.value) else "";
      Some(Article(titulo, contenido, Take(p.html, RawLimit), DateOf(p.fecha, parse), url, MediaId))
  }

  /** Without a title element the title is 'Sin Título'; without `div.entry` the content is empty; short pages are kept whole. */
  lemma ArticleDefaults(url: string, p: DetailPage, parse: string -> Option<Date>)
    ensures p.title.None? ==> ArticleOf(url, Some(p), parse).value.titulo == NoTitle
    ensures p.title.Some? ==> ArticleOf(url, Some(p), parse).value.titulo == p.title.value
    ensures p.entry.None? ==> ArticleOf(url, Some(p), parse).value.contenido == ""
    ensures |p.html| <= RawLimit ==> ArticleOf(url, Some(p), parse).value.contenidoCrudo == p.html
    ensures |p.html| > RawLimit ==> ArticleOf(url, Some(p), parse).value.contenidoCrudo == p.html[..RawLimit]
    ensures p.fecha == "" ==> ArticleOf(url, Some(p), parse).value.fecha.None?
  {
  }

  /** Each paragraph of `div.entry` is a line of the content. */
  lemma ArticleHasParagraphs(url: string, p: DetailPage, parse: string -> Option<Date>, k: int)
    requires p.entry.Some? && 0 <= k < |p.entry.value|
    ensures Contains(ArticleOf(url, Some(p), parse).value.contenido, p.entry.value[k])
  {
    JoinContainsParts("\n", p.entry.value, k);
  }

  // ---------------------------------------------------------------------------------------
  // The article loop of one listing page, for any reader
  // ---------------------------------------------------------------------------------------

  /** A listed article: the `href` of its `h2.post-title a` link, and the stripped text of its `span.tie-date`. */
  datatype Entry = Entry(href: Option<string>, fecha: string)

  /** The article a URL gives, `None` where `_scrape_article` fails before the insert. */
  type Reader = string -> Option<Article>

  /** What the listing loop needs besides the reader: the date reading and the limit. */
  datatype Cutoff = Cutoff(parse: string -> Option<Date>, limit: Option<Date>)

  /** The listing's date of the entry parses and is older than the limit. */
  predicate ListedOld(e: Entry, c: Cutoff)
  {
    var d := DateOf(e.fecha, c.parse);
    d.Some? && PastLimit(d.value, c.limit)
  }

  /**
   * The URLs in the database, the articles offered to it in the run, and whether
   * `detener_por_fecha` was set.
   */
  datatype PageState = PageState(stored: set<string>, offered: seq<Article>, stopped: bool)

  /**
   * One iteration of the listing loop: an entry without a link is passed over; the
   * listing date is compared with the limit before the database is asked about the URL;
   * a stored URL is passed over; otherwise the article is read and offered, and a
   * successful insert stores its URL.
   */
  function EntryStep(s: PageState, e: Entry, read: Reader, c: Cutoff, store: Store): PageState
  {
    if s.stopped || e.href.None? then s
    else if ListedOld(e, c) then s.(stopped := true)
    else if e.href.value in s.stored then s
    else
      var a := read(e.href.value);
      if a.None? then s
      else PageState(if store(s.offered, a.value) then s.stored + {e.href.value} else s.stored, s.offered + [a.value], false)
  }

  /** The listing loop over a page's entries. */
  function PageAll(entries: seq<Entry>, start: PageState, read: Reader, c: Cutoff, store: Store): PageState
    decreases |entries|
  {
    if |entries| == 0 then start
    else EntryStep(PageAll(entries[..|entries| - 1], start, read, c, store), entries[|entries| - 1], read, c, store)
  }

  /** The cutoff comes before the existence check: a stored URL listed as old still stops the run. */
  lemma CutoffBeforeStored(s: PageState, e: Entry, read: Reader, c: Cutoff, store: Store)
    requires !s.stopped && e.href.Some? && e.href.value in s.stored
    ensures EntryStep(s, e, read, c, store).stopped <==> ListedOld(e, c)
    ensures !ListedOld(e, c) ==> EntryStep(s, e, read, c, store) == s
  {
  }

  /** A listing date that is missing or does not parse never stops the run. */
  lemma UnparsedNeverStops(s: PageState, e: Entry, read: Reader, c: Cutoff, store: Store)
    requires !s.stopped && (e.fecha == "" || c.parse(e.fecha).None?)
    ensures !EntryStep(s, e, read, c, store).stopped
  {
  }

  /** No entry of the list has a link and an old listing date. */
  predicate NoneOld(entries: seq<Entry>, c: Cutoff)
  {
    forall k | 0 <= k < |entries| :: entries[k].href.None? || !ListedOld(entries[k], c)
  }

  /** The page loop stops exactly when a linked entry is listed as old. */
  lemma {:induction false} PageStopsOnOld(entries: seq<Entry>, start: PageState, read: Reader, c: Cutoff, store: Store)
    requires !start.stopped
    ensures PageAll(entries, start, read, c, store).stopped <==> !NoneOld(entries, c)
    decreases |entries|
  {
    if |entries| > 0 {
      var init := entries[..|entries| - 1];
      PageStopsOnOld(init, start, read, c, store);
      assert forall k | 0 <= k < |init| :: init[k] == entries[k];
    }
  }

  /** Once the run stops, the rest of the page is not read. */
  lemma {:induction false} PageStoppedStays(entries: seq<Entry>, i: nat, start: PageState, read: Reader, c: Cutoff, store: Store)
    requires i <= |entries| && PageAll(entries[..i], start, read, c, store).stopped
    ensures PageAll(entries, start, read, c, store) == PageAll(entries[..i], start, read, c, store)
    decreases |entries|
  {
    if i < |entries| {
      var init := entries[..|entries| - 1];
      assert init[..i] == entries[..i];
      PageStoppedStays(init, i, start, read, c, store);
    } else {
      assert entries[..i] == entries;
    }
  }

  /** The URLs of the offers the database accepted. */
  function SavedUrls(store: Store, offered: seq<Article>): set<string>
  {
    set i | 0 <= i < |offered| && store(offered[..i], offered[i]) :: offered[i].url
  }

  lemma SavedUrlsStep(store: Store, offered: seq<Article>, a: Article)
    ensures SavedUrls(store, offered + [a]) == SavedUrls(store, offered) + (if store(offered, a) then {a.url} else {})
  {
    var all := offered + [a];
    assert forall i | 0 <= i < |offered| :: all[..i] == offered[..i] && all[i] == offered[i];
    assert all[..|offered|] == offered && all[|offered|] == a;
  }

  /**
   * What the database holds and what was offered to it agree: the stored URLs are the
   * initial ones and those of accepted offers; no offer names an initially stored URL,
   * nor the URL of an earlier accepted offer; every offer satisfies `ok`.
   */
  predicate StoreAccount(s: PageState, stored0: set<string>, store: Store, ok: Article -> bool)
  {
    && s.stored == stored0 + SavedUrls(store, s.offered)
    && (forall k | 0 <= k < |s.offered| :: s.offered[k].url !in stored0 && ok(s.offered[k]))
    && (forall i, j | 0 <= i < j < |s.offered| && store(s.offered[..i], s.offered[i]) :: s.offered[i].url != s.offered[j].url)
  }

  /** Every article the reader gives satisfies `ok` and carries the URL it was read from. */
  ghost predicate ReadsOnly(read: Reader, ok: Article -> bool)
  {
    forall u :: read(u).Some? ==> ok(read(u).value) && read(u).value.url == u
  }

  lemma StoreAccountStep(s: PageState, e: Entry, read: Reader, c: Cutoff, store: Store, stored0: set<string>, ok: Article -> bool)
    requires ReadsOnly(read, ok) && StoreAccount(s, stored0, store, ok)
    ensures StoreAccount(EntryStep(s, e, read, c, store), stored0, store, ok)
  {
    if !s.stopped && e.href.Some? && !ListedOld(e, c) && e.href.value !in s.stored && read(e.href.value).Some? {
      var a := read(e.href.value).value;
      var offered := s.offered + [a];
      SavedUrlsStep(store, s.offered, a);
      assert forall k | 0 <= k < |s.offered| :: offered[k] == s.offered[k] && offered[..k] == s.offered[..k];
      assert offered[|s.offered|] == a;
      forall i, j | 0 <= i < j < |offered| && store(offered[..i], offered[i])
        ensures offered[i].url != offered[j].url
      {
        if j == |s.offered| {
          assert offered[i].url in SavedUrls(store, s.offered);
        }
      }
    }
  }

  lemma {:induction false} PageAllAccount(entries: seq<Entry>, start: PageState, read: Reader, c: Cutoff, store: Store,
                                          stored0: set<string>, ok: Article -> bool)
    requires ReadsOnly(read, ok) && StoreAccount(start, stored0, store, ok)
    ensures StoreAccount(PageAll(entries, start, read, c, store), stored0, store, ok)
    decreases |entries|
  {
    if |entries| > 0 {
      PageAllAccount(entries[..|entries| - 1], start, read, c, store, stored0, ok);
      StoreAccountStep(PageAll(entries[..|entries| - 1], start, read, c, store), entries[|entries| - 1], read, c, store, stored0, ok);
    }
  }

  // ---------------------------------------------------------------------------------------
  // The listing pages, for any reader
  // ---------------------------------------------------------------------------------------

  /** The database's URLs, the articles offered, whether the pagination ended and whether it ended on the limit. */
  datatype RunState = RunState(stored: set<string>, offered: seq<Article>, ended: bool, stopped: bool)

  /** One iteration of the `while True` loop on the answer to one page request. */
  function PageRound(r: RunState, page: Option<seq<Entry>>, read: Reader, c: Cutoff, store: Store): RunState
  {
    if r.ended then r
    else if page.None? || |page.value| == 0 then r.(ended := true)
    else
      var s := PageAll(page.value, PageState(r.stored, r.offered, false), read, c, store);
      RunState(s.stored, s.offered, s.stopped, s.stopped)
  }

  /** The run over the first `n` page answers, starting from the URLs already stored. */
  function PagesAll(pages: seq<Option<seq<Entry>>>, n: nat, stored0: set<string>, read: Reader, c: Cutoff, store: Store): RunState
    requires n <= |pages|
    decreases n
  {
    if n == 0 then RunState(stored0, [], false, false)
    else PageRound(PagesAll(pages, n - 1, stored0, read, c, store), pages[n - 1], read, c, store)
  }

  /** Once the pagination ends no later page changes anything. */
  lemma {:induction false} EndedStays(pages: seq<Option<seq<Entry>>>, n: nat, m: nat, stored0: set<string>, read: Reader, c: Cutoff, store: Store)
    requires n <= m <= |pages| && PagesAll(pages, n, stored0, read, c, store).ended
    ensures PagesAll(pages, m, stored0, read, c, store) == PagesAll(pages, n, stored0, read, c, store)
    decreases m
  {
    if m > n {
      EndedStays(pages, n, m - 1, stored0, read, c, store);
    }
  }

  /** A failed request, a 404 or a page without articles ends the run with nothing more offered. */
  lemma NoArticlesEnds(pages: seq<Option<seq<Entry>>>, p: nat, stored0: set<string>, read: Reader, c: Cutoff, store: Store)
    requires p < |pages| && (pages[p].None? || |pages[p].value| == 0)
    ensures PagesAll(pages, |pages|, stored0, read, c, store).ended
    ensures PagesAll(pages, |pages|, stored0, read, c, store).offered == PagesAll(pages, p, stored0, read, c, store).offered
  {
    EndedStays(pages, p + 1, |pages|, stored0, read, c, store);
  }

  /** Page `p` is read and one of its linked entries is listed as old. */
  predicate PageHasOld(pages: seq<Option<seq<Entry>>>, p: nat, stored0: set<string>, read: Reader, c: Cutoff, store: Store)
    requires p < |pages|
  {
    !PagesAll(pages, p, stored0, read, c, store).ended && pages[p].Some? && !NoneOld(pages[p].value, c)
  }

  /** The run ends on the limit exactly when a page it reads lists a linked entry as old. */
  lemma {:induction false} StopsOnListedOld(pages: seq<Option<seq<Entry>>>, n: nat, stored0: set<string>, read: Reader, c: Cutoff, store: Store)
    requires n <= |pages|
    ensures PagesAll(pages, n, stored0, read, c, store).stopped <==> exists p | 0 <= p < n :: PageHasOld(pages, p, stored0, read, c, store)
    ensures PagesAll(pages, n, stored0, read, c, store).stopped ==> PagesAll(pages, n, stored0, read, c, store).ended
    decreases n
  {
    if n > 0 {
      StopsOnListedOld(pages, n - 1, stored0, read, c, store);
      var r := PagesAll(pages, n - 1, stored0, read, c, store);
      if !r.ended && pages[n - 1].Some? && |pages[n - 1].value| > 0 {
        PageStopsOnOld(pages[n - 1].value, PageState(r.stored, r.offered, false), read, c, store);
      }
      assert PagesAll(pages, n, stored0, read, c, store).stopped <==> r.stopped || PageHasOld(pages, n - 1, stored0, read, c, store);
      if PagesAll(pages, n, stored0, read, c, store).stopped {
        if r.stopped {
          var p :| 0 <= p < n - 1 && PageHasOld(pages, p, stored0, read, c, store);
          assert 0 <= p < n && PageHasOld(pages, p, stored0, read, c, store);
        }
      } else {
        forall p | 0 <= p < n
          ensures !PageHasOld(pages, p, stored0, read, c, store)
        {
        }
      }
    }
  }

  lemma {:induction false} PagesAllAccount(pages: seq<Option<seq<Entry>>>, n: nat, stored0: set<string>, read: Reader, c: Cutoff,
                                           store: Store, ok: Article -> bool)
    requires n <= |pages| && ReadsOnly(read, ok)
    ensures var r := PagesAll(pages, n, stored0, read, c, store); StoreAccount(PageState(r.stored, r.offered, r.stopped), stored0, store, ok)
    decreases n
  {
    if n > 0 {
      PagesAllAccount(pages, n - 1, stored0, read, c, store, ok);
      var r := PagesAll(pages, n - 1, stored0, read, c, store);
      if !r.ended && pages[n - 1].Some? && |pages[n - 1].value| > 0 {
        PageAllAccount(pages[n - 1].value, PageState(r.stored, r.offered, false), read, c, store, stored0, ok);
      }
    }
  }

  // ---------------------------------------------------------------------------------------
  // The scraper
  // ---------------------------------------------------------------------------------------

  /** The article pages each URL answers with (`None` where the request raises), the date reading and the limit. */
  datatype Run = Run(fetch: string -> Option<DetailPage>, parse: string -> Option<Date>, limit: Option<Date>)

  function CutoffOf(run: Run): Cutoff
  {
    Cutoff(run.parse, run.limit)
  }

  /** The run over the listing pages, reading articles with `ArticleOf`. */
  function Crawled(pages: seq<Option<seq<Entry>>>, n: nat, stored0: set<string>, run: Run, store: Store): RunState
    requires n <= |pages|
  {
    PagesAll(pages, n, stored0, u => ArticleOf(u, run.fetch(u), run.parse), CutoffOf(run), store)
  }

  /** What the scraper offers: from this site and cut to the raw-content limit. */
  predicate Offerable(a: Article)
  {
    a.media == MediaId && |a.contenidoCrudo| <= RawLimit
  }

  /**
   * One iteration of the listing loop; `count` is `noticias_guardadas`, one more each time
   * `_scrape_article` reports the insert done.
   */
  method ScrapeEntry(e: Entry, run: Run, store: Store, s: PageState, count: nat) returns (s': PageState, count': nat)
    requires !s.stopped && count == Accepted(store, s.offered)
    ensures s' == EntryStep(s, e, u => ArticleOf(u, run.fetch(u), run.parse), CutoffOf(run), store)
    ensures count' == Accepted(store, s'.offered)
  {
    s', count' := s, count;
    if e.href.None? {
      return;
    }
    var url := e.href.value;
    var fecha: Option<Date> := None;
    if e.fecha != "" {
      fecha := run.parse(e.fecha);
    }
    if run.limit.Some? && fecha.Some? && Before(fecha.value, run.limit.value) {
      s' := s.(stopped := true);
      return;
    }
    if url in s.stored {
      return;
    }
    var a := ArticleOf(url, run.fetch(url), run.parse);
    if a.None? {
      return;
    }
    var guardado := store(s.offered, a.value);
    AcceptedStep(store, s.offered, a.value);
    s' := PageState(if guardado then s.stored + {url} else s.stored, s.offered + [a.value], false);
    if guardado {
      count' := count + 1;
    }
  }

  /** The listing loop of one page; it ends early on an entry listed as old. */
  method ScrapePage(entries: seq<Entry>, run: Run, store: Store, stored: set<string>, offered: seq<Article>, count: nat)
    returns (s: PageState, count': nat)
    requires count == Accepted(store, offered)
    ensures s == PageAll(entries, PageState(stored, offered, false), u => ArticleOf(u, run.fetch(u), run.parse), CutoffOf(run), store)
    ensures count' == Accepted(store, s.offered)
  {
    var start := PageState(stored, offered, false);
    s, count' := start, count;
    var i := 0;
    while i < |entries|
      invariant i <= |entries|
      invariant s == PageAll(entries[..i], start, u => ArticleOf(u, run.fetch(u), run.parse), CutoffOf(run), store)
      invariant count' == Accepted(store, s.offered)
    {
      if s.stopped {
        PageStoppedStays(entries, i, start, u => ArticleOf(u, run.fetch(u), run.parse), CutoffOf(run), store);
        return;
      }
      s, count' := ScrapeEntry(entries[i], run, store, s, count');
      assert entries[..i + 1][..i] == entries[..i];
      i := i + 1;
    }
    assert entries[..i] == entries;
  }

  /**
   * `scrape`: the listing pages one after another until a failed request or 404, a page
   * without articles, an entry listed as old, or the end of the answered pages. `stored`
   * is the set of URLs in the database when the run starts.
   */
  method Scrape(pages: seq<Option<seq<Entry>>>, run: Run, store: Store, stored: set<string>)
    returns (count: nat, offered: seq<Article>, stopped: bool)
    ensures var r := Crawled(pages, |pages|, stored, run, store); offered == r.offered && stopped == r.stopped
    ensures count == Accepted(store, offered)
  {
    var r := RunState(stored, [], false, false);
    count := 0;
    var p := 0;
    while p < |pages| && !r.ended
      invariant p <= |pages|
      invariant r == Crawled(pages, p, stored, run, store)
      invariant count == Accepted(store, r.offered)
    {
      if pages[p].None? || |pages[p].value| == 0 {
        r := r.(ended := true);
      } else {
        var s;
        s, count := ScrapePage(pages[p].value, run, store, r.stored, r.offered, count);
        r := RunState(s.stored, s.offered, s.stopped, s.stopped);
      }
      p := p + 1;
    }
    if r.ended {
      EndedStays(pages, p, |pages|, stored, u => ArticleOf(u, run.fetch(u), run.parse), CutoffOf(run), store);
    }
    offered, stopped := r.offered, r.stopped;
  }

  /**
   * No offer names a URL stored before the run or saved earlier in it, every offer is
   * from this site and cut to 60000 characters, and the database then holds exactly the
   * initial URLs and those of the accepted offers.
   */
  lemma OffersSound(pages: seq<Option<seq<Entry>>>, run: Run, store: Store, stored: set<string>)
    ensures var r := Crawled(pages, |pages|, stored, run, store);
      StoreAccount(PageState(r.stored, r.offered, r.stopped), stored, store, Offerable)
  {
    var read: Reader := u => ArticleOf(u, run.fetch(u), run.parse);
    forall u | read(u).Some?
      ensures Offerable(read(u).value) && read(u).value.url == u
    {
      assert read(u) == ArticleOf(u, run.fetch(u), run.parse);
    }
    PagesAllAccount(pages, |pages|, stored, read, CutoffOf(run), store, Offerable);
  }

  /** Without a limit the scraper never ends on a listing date. */
  lemma NoLimitNeverStops(pages: seq<Option<seq<Entry>>>, run: Run, store: Store, stored: set<string>)
    requires run.limit.None?
    ensures !Crawled(pages, |pages|, stored, run, store).stopped
  {
    var read: Reader := u => ArticleOf(u, run.fetch(u), run.parse);
    StopsOnListedOld(pages, |pages|, stored, read, CutoffOf(run), store);
    forall p | 0 <= p < |pages|
      ensures !PageHasOld(pages, p, stored, read, CutoffOf(run), store)
    {
    }
  }
}

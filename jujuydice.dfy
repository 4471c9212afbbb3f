/**
 * The Jujuy Dice scraper (`JujuyDiceScraper`): numbered listing pages, each a list of
 * `article.noticia` elements. Every article whose URL the run has not seen is read from its
 * own page, completed with the listing's title and date where the page lacks them, skipped
 * without a title or a date, counted as old when it predates the limit, and offered to the
 * database otherwise. The third old article of one page ends the run; a page on which no
 * article was saved ends the pagination.
 *
 * `pages[p]` is the list of articles of the listing page `p + 1`; the sequence ends where a
 * listing request fails or the page has no articles. `Run.fetch` gives the article page a
 * URL answers with, `None` where the request fails.
 */
module JujuyDice {
  import opened Wrappers
  import opened Text
  import opened Seqs
  import opened Dates
  import opened Crawl

  const BaseUrl: string := "https://www.jujuydice.com.ar"
  /** `pagina_url_template` up to the page number. */
  const PageUrlPrefix: string := "https://www.jujuydice.com.ar/noticias/pagina-"
  const MediaName: string := "jujuydice"
  /** The number of old articles on one page that ends the run. */
  const OldLimit: nat := 3
  /** `contenido_crudo` keeps this many characters of the article page at most. */
  const RawLimit: nat := 60000

  /** The URL of listing page `pagina`. */
  function PageUrl(pagina: int): (u: string)
  {
    NumberedUrl(PageUrlPrefix, pagina)
  }

  /** The page number is the text after the prefix, so different pages have different URLs. */
  lemma PageUrlReadBack(pagina: int, other: int)
    ensures StartsWith(PageUrl(pagina), PageUrlPrefix)
    ensures ParseInt(PageUrl(pagina)[|PageUrlPrefix|..]) == Some(pagina)
    ensures pagina != other ==> PageUrl(pagina) != PageUrl(other)
  {
    NumberedUrlReadBack(PageUrlPrefix, pagina);
    if pagina != other {
      NumberedUrlsDistinct(PageUrlPrefix, pagina, other);
    }
  }

  // ---------------------------------------------------------------------------------------
  // `_parsear_fecha`
  // ---------------------------------------------------------------------------------------

  /** An empty text is no date; otherwise `strptime` with `%d/%m/%Y`, None on ValueError. */
  function ParsearFecha(texto: string): (r: Option<Date>)
    ensures r.Some? ==> Valid(r.value)
  {
    if texto == "" then None else StrptimeDmy(texto, '/')
  }

  /** The day-first form the site writes, with zero padding. */
  function SlashFormat(d: Date): string
    requires Valid(d)
  {
    PadNat(d.day, 2) + "/" + PadNat(d.month, 2) + "/" + PadNat(d.year, 4)
  }

  /** The empty text is no date, and every valid date written DD/MM/YYYY reads back. */
  lemma ParsearFechaReads(d: Date)
    requires Valid(d)
    ensures ParsearFecha("") == None
    ensures ParsearFecha(SlashFormat(d)) == Some(d)
  {
    StrptimeRoundTrip(d, '/');
    assert SlashFormat(d) == PadNat(d.day, 2) + ['/'] + PadNat(d.month, 2) + ['/'] + PadNat(d.year, 4);
  }

  /** Any other text is no date: a text that parses is a day, a month and four year digits between slashes. */
  lemma ParsearFechaOnlyDayMonthYear(texto: string)
    requires ParsearFecha(texto).Some?
    ensures var d := ParsearFecha(texto).value;
      exists dd, mm, yy :: texto == dd + "/" + mm + "/" + yy
        && DayDirective(dd) == Some(d.day) && MonthDirective(mm) == Some(d.month)
        && |yy| == 4 && AllDigits(yy) && DigitsValue(yy) == d.year
  {
    StrptimeReads(texto, '/');
  }

  /** The dots the page writes after the date are removed before it is parsed. */
  lemma DottedDateReads(d: Date, dots: string)
    requires Valid(d) && forall i | 0 <= i < |dots| :: dots[i] == '.'
    ensures ParsearFecha(RemoveChar(SlashFormat(d) + dots, '.')) == Some(d)
  {
    var t := SlashFormat(d);
    assert RemoveChar(t + dots, '.') == t by {
      RemoveCharAppend(t, dots, '.');
      RemoveCharAll(dots, '.');
      SlashFormatHasNoDot(d);
      assert t + "" == t;
    }
    ParsearFechaReads(d);
  }

  lemma SlashFormatHasNoDot(d: Date)
    requires Valid(d)
    ensures '.' !in SlashFormat(d)
  {
    var dd, mm, yy := PadNat(d.day, 2), PadNat(d.month, 2), PadNat(d.year, 4);
    DigitsHaveNo(dd, '.');
    DigitsHaveNo(mm, '.');
    DigitsHaveNo(yy, '.');
    var t := SlashFormat(d);
    forall i | 0 <= i < |t|
      ensures t[i] != '.'
    {
      if i < |dd| {
        assert t[i] == dd[i];
      } else if i == |dd| || i == |dd| + 1 + |mm| {
        assert t[i] == '/';
      } else if i < |dd| + 1 + |mm| {
        assert t[i] == mm[i - |dd| - 1];
      } else {
        assert t[i] == yy[i - |dd| - 2 - |mm|];
      }
    }
  }

  // ---------------------------------------------------------------------------------------
  // `_extraer_contenido_articulo` and the listing fallbacks
  // ---------------------------------------------------------------------------------------

  /**
   * What an article page holds: the text of its first `h1`, of its first `span.fecha` and of
   * its `div.cda[itemprop=articleBody]` (each None where the element is missing), and the
   * body of the response.
   */
  datatype DetailPage = DetailPage(h1: Option<string>, fecha: Option<string>, body: Option<string>, html: string)

  /** The tuple `(contenido, titulo, fecha, contenido_crudo)`. */
  datatype Extracted = Extracted(contenido: string, titulo: string, fecha: Option<Date>, crudo: string)

  /** `_extraer_contenido_articulo`: the empty tuple when the request fails. */
  function ExtraerContenido(page: Option<DetailPage>): (e: Extracted)
    ensures page.None? ==> e == Extracted("", "", None, "")
    ensures page.Some? ==> |e.crudo| <= RawLimit && StartsWith(page.value.html, e.crudo)
    ensures page.Some? && |page.value.html| <= RawLimit ==> e.crudo == page.value.html
    ensures e.fecha.Some? ==> Valid(e.fecha.value)
  {
    match page
    case None => Extracted("", "", None, "")
    case Some(p) =>
      var titulo := if p.h1.Some? then p.h1.value else "";
      var fecha := if p.fecha.Some? then ParsearFecha(RemoveChar(p.fecha.value, '.')) else None;
      var contenido := if p.body.Some? then p.body.value else "";
      Extracted(contenido, titulo, fecha, Take(p.html, RawLimit))
  }

  /**
   * One `article.noticia` of a listing: the absolute URL of its `h2.h2 > a` link (None where
   * the heading, the link or its href is missing or empty), the text of the link's
   * `span[itemprop=headline]` and of the article's `span.fecha`.
   */
  datatype Item = Item(url: Option<string>, headline: Option<string>, fecha: Option<string>)

  /** The title and date of an article after the fallbacks to the listing. */
  function CandidateOf(item: Item, e: Extracted): (c: Extracted)
    ensures c.contenido == e.contenido && c.crudo == e.crudo
    ensures c.fecha.Some? && (e.fecha.Some? ==> Valid(e.fecha.value)) ==> Valid(c.fecha.value)
  {
    var titulo := if e.titulo != "" then e.titulo else if item.headline.Some? then item.headline.value else "";
    var fecha := if e.fecha.Some? then e.fecha
                 else ParsearFecha(if item.fecha.Some? then RemoveChar(item.fecha.value, '.') else "");
    Extracted(e.contenido, titulo, fecha, e.crudo)
  }

  /** A title and a date found on the article page are kept whatever the listing says. */
  lemma PageValuesWin(a: Item, b: Item, e: Extracted)
    requires e.titulo != "" && e.fecha.Some?
    ensures CandidateOf(a, e) == CandidateOf(b, e) == e
  {
  }

  /** When the article page cannot be read, the listing's title and dotless date stand in. */
  lemma ListingValuesStandIn(item: Item, d: Date, dots: string, headline: string)
    requires Valid(d) && forall i | 0 <= i < |dots| :: dots[i] == '.'
    requires item.headline == Some(headline) && item.fecha == Some(SlashFormat(d) + dots)
    ensures CandidateOf(item, ExtraerContenido(None)) == Extracted("", headline, Some(d), "")
  {
    DottedDateReads(d, dots);
  }

  // ---------------------------------------------------------------------------------------
  // The verdict on one article
  // ---------------------------------------------------------------------------------------

  /** What the loop body does with an article it has not seen. */
  datatype Kind = Skip | Old | Keep(article: Article)

  /** The article pages the run reads, and `fecha_limite`. */
  datatype Run = Run(fetch: string -> Option<DetailPage>, limit: Option<Date>)

  /** An article the scraper may offer: titled, dated, not before the limit, its page cut at 60000 characters. */
  predicate Acceptable(a: Article, limit: Option<Date>)
  {
    a.titulo != "" && a.fecha.Some? && Valid(a.fecha.value) && !PastLimit(a.fecha.value, limit)
    && |a.contenidoCrudo| <= RawLimit && a.media == MediaName
  }

  /** The verdict on the article at `url` listed as `item`. */
  function KindOf(url: string, item: Item, run: Run): (k: Kind)
    ensures k.Keep? ==> k.article.url == url && Acceptable(k.article, run.limit)
    ensures k.Old? ==> run.limit.Some?
  {
    var c := CandidateOf(item, ExtraerContenido(run.fetch(url)));
    if c.titulo == "" || c.fecha.None? then Skip
    else if PastLimit(c.fecha.value, run.limit) then Old
    else Keep(Article(c.titulo, c.contenido, c.crudo, c.fecha, url, MediaName))
  }

  /** Without a title or a date an article is skipped: neither offered nor counted as old. */
  lemma UntitledOrUndatedSkipped(url: string, item: Item, run: Run)
    ensures var c := CandidateOf(item, ExtraerContenido(run.fetch(url)));
      KindOf(url, item, run) == Skip <==> c.titulo == "" || c.fecha.None?
  {
  }

  /** Without a limit no article is old. */
  lemma NoLimitNoOld(url: string, item: Item, run: Run)
    requires run.limit.None?
    ensures !KindOf(url, item, run).Old?
  {
  }

  // ---------------------------------------------------------------------------------------
  // One listing page, for any verdict
  // ---------------------------------------------------------------------------------------

  /** The verdict on an article, given its URL and listing entry. */
  type Judge = (string, Item) -> Kind

  /**
   * The state the article loop of one page keeps: `urls_vistas`, the articles offered in the
   * run so far, `articulos_procesados`, `articulos_antiguos`, and whether the run returned.
   */
  datatype PageState = PageState(seen: set<string>, offered: seq<Article>, saved: nat, antiguos: nat, stopped: bool)

  /** The state at the start of a page: both counters at zero. */
  function PageStart(seen: set<string>, offered: seq<Article>): PageState
  {
    PageState(seen, offered, 0, 0, false)
  }

  /** One iteration of the article loop. */
  function ItemStep(s: PageState, item: Item, kind: Judge, store: Store): PageState
  {
    if s.stopped || item.url.None? || item.url.value in s.seen then s
    else
      var url := item.url.value;
      var seen := s.seen + {url};
      match kind(url, item)
      case Skip => s.(seen := seen)
      case Old => s.(seen := seen, antiguos := s.antiguos + 1, stopped := s.antiguos + 1 >= OldLimit)
      case Keep(a) => s.(seen := seen, offered := s.offered + [a], saved := s.saved + (if store(s.offered, a) then 1 else 0))
  }

  /** The article loop over a page's list. */
  function PageAll(items: seq<Item>, start: PageState, kind: Judge, store: Store): PageState
    decreases |items|
  {
    if |items| == 0 then start
    else ItemStep(PageAll(items[..|items| - 1], start, kind, store), items[|items| - 1], kind, store)
  }

  /** The URLs the list links to. */
  function UrlsOf(items: seq<Item>): set<string>
    decreases |items|
  {
    if |items| == 0 then {}
    else
      var last := items[|items| - 1];
      UrlsOf(items[..|items| - 1]) + (if last.url.Some? then {last.url.value} else {})
  }

  /** The verdicts on the list's articles whose URL is not in `seen` nor earlier in the list. */
  function FreshKinds(items: seq<Item>, seen: set<string>, kind: Judge): seq<Kind>
    decreases |items|
  {
    if |items| == 0 then []
    else
      var init, last := items[..|items| - 1], items[|items| - 1];
      FreshKinds(init, seen, kind)
        + (if last.url.Some? && last.url.value !in seen + UrlsOf(init) then [kind(last.url.value, last)] else [])
  }

  predicate IsOld(k: Kind) { k.Old? }

  /** The articles of the verdicts that take one, in order. */
  function Taken(ks: seq<Kind>): seq<Article>
    decreases |ks|
  {
    if |ks| == 0 then []
    else Taken(ks[..|ks| - 1]) + (if ks[|ks| - 1].Keep? then [ks[|ks| - 1].article] else [])
  }

  lemma TakenStep(ks: seq<Kind>, k: Kind)
    ensures Taken(ks + [k]) == Taken(ks) + (if k.Keep? then [k.article] else [])
  {
    assert (ks + [k])[..|ks|] == ks;
  }

  /**
   * What one page's loop amounts to: it returns exactly when the new articles of the page
   * include three old ones; until then it counts the old ones, marks every URL of the page
   * seen and offers the taken articles in order.
   */
  predicate PageAccount(s: PageState, ks: seq<Kind>, seen: set<string>, urls: set<string>, offered: seq<Article>)
  {
    && (s.stopped <==> Count(ks, IsOld) >= OldLimit)
    && (!s.stopped ==> s.antiguos == Count(ks, IsOld) && s.seen == seen + urls && s.offered == offered + Taken(ks))
  }

  /** One more article keeps the account: it is judged exactly when its URL is new. */
  lemma PageAccountStep(prev: PageState, last: Item, kind: Judge, store: Store,
                        before: seq<Kind>, seen: set<string>, urls: set<string>, offered: seq<Article>)
    requires PageAccount(prev, before, seen, urls, offered)
    ensures PageAccount(ItemStep(prev, last, kind, store),
                        before + (if last.url.Some? && last.url.value !in seen + urls then [kind(last.url.value, last)] else []),
                        seen, urls + (if last.url.Some? then {last.url.value} else {}), offered)
  {
    var isNew := last.url.Some? && last.url.value !in seen + urls;
    var added := if isNew then [kind(last.url.value, last)] else [];
    CountAppend(before, added, IsOld);
    if isNew {
      TakenStep(before, kind(last.url.value, last));
    } else {
      AppendNothing(before, added);
    }
  }

  lemma {:induction false} PageAllAccount(items: seq<Item>, seen: set<string>, offered: seq<Article>, kind: Judge, store: Store)
    ensures PageAccount(PageAll(items, PageStart(seen, offered), kind, store), FreshKinds(items, seen, kind),
                        seen, UrlsOf(items), offered)
    decreases |items|
  {
    if |items| > 0 {
      var init, last := items[..|items| - 1], items[|items| - 1];
      PageAllAccount(init, seen, offered, kind, store);
      PageAccountStep(PageAll(init, PageStart(seen, offered), kind, store), last, kind, store,
                      FreshKinds(init, seen, kind), seen, UrlsOf(init), offered);
    }
  }

  /** Once the run returns, the rest of the page is not read. */
  lemma {:induction false} PageStoppedStays(items: seq<Item>, i: nat, start: PageState, kind: Judge, store: Store)
    requires i <= |items| && PageAll(items[..i], start, kind, store).stopped
    ensures PageAll(items, start, kind, store) == PageAll(items[..i], start, kind, store)
    decreases |items|
  {
    if i < |items| {
      var init := items[..|items| - 1];
      assert init[..i] == items[..i];
      PageStoppedStays(init, i, start, kind, store);
    } else {
      assert items[..i] == items;
    }
  }

  /** `articulos_procesados` counts the page's offers the store accepted. */
  lemma {:induction false} PageSavedAccepted(items: seq<Item>, start: PageState, kind: Judge, store: Store)
    ensures var s := PageAll(items, start, kind, store);
      |start.offered| <= |s.offered| && s.offered[..|start.offered|] == start.offered
      && Accepted(store, s.offered) + start.saved == Accepted(store, start.offered) + s.saved
    decreases |items|
  {
    if |items| > 0 {
      var prev := PageAll(items[..|items| - 1], start, kind, store);
      PageSavedAccepted(items[..|items| - 1], start, kind, store);
      var last := items[|items| - 1];
      if !prev.stopped && last.url.Some? && last.url.value !in prev.seen && kind(last.url.value, last).Keep? {
        var a := kind(last.url.value, last).article;
        AcceptedStep(store, prev.offered, a);
        assert (prev.offered + [a])[..|start.offered|] == prev.offered[..|start.offered|];
      }
    }
  }

  /** The offered articles satisfy `ok`, their URLs are marked seen, and no URL is offered twice. */
  predicate SoundOffers(offered: seq<Article>, seen: set<string>, ok: Article -> bool)
  {
    && (forall k | 0 <= k < |offered| :: ok(offered[k]) && offered[k].url in seen)
    && (forall i, j | 0 <= i < j < |offered| :: offered[i].url != offered[j].url)
  }

  /** Every article the verdict takes satisfies `ok` and carries the URL it was judged for. */
  ghost predicate TakesOnly(kind: Judge, ok: Article -> bool)
  {
    forall u, it :: kind(u, it).Keep? ==> ok(kind(u, it).article) && kind(u, it).article.url == u
  }

  lemma {:induction false} PageAllSound(items: seq<Item>, start: PageState, kind: Judge, store: Store, ok: Article -> bool)
    requires TakesOnly(kind, ok) && SoundOffers(start.offered, start.seen, ok)
    ensures var s := PageAll(items, start, kind, store); SoundOffers(s.offered, s.seen, ok) && start.seen <= s.seen
    decreases |items|
  {
    if |items| > 0 {
      var prev := PageAll(items[..|items| - 1], start, kind, store);
      PageAllSound(items[..|items| - 1], start, kind, store, ok);
      var last := items[|items| - 1];
      if !prev.stopped && last.url.Some? && last.url.value !in prev.seen && kind(last.url.value, last).Keep? {
        var a := kind(last.url.value, last).article;
        var offered := prev.offered + [a];
        assert a.url == last.url.value;
        forall i, j | 0 <= i < j < |offered|
          ensures offered[i].url != offered[j].url
        {
          if j == |prev.offered| {
            assert offered[i].url in prev.seen;
          }
        }
      }
    }
  }

  // ---------------------------------------------------------------------------------------
  // The listing pages, for any verdict
  // ---------------------------------------------------------------------------------------

  /**
   * The state of the run after the first `n` listing pages: the URLs seen, the articles
   * offered, the number of pages whose articles were processed, whether the pagination
   * ended and whether the run returned on old articles.
   */
  datatype RunState = RunState(seen: set<string>, offered: seq<Article>, read: nat, ended: bool, stopped: bool)

  function PagesAll(pages: seq<seq<Item>>, n: nat, kind: Judge, store: Store): RunState
    requires n <= |pages|
    decreases n
  {
    if n == 0 then RunState({}, [], 0, false, false)
    else
      var r := PagesAll(pages, n - 1, kind, store);
      if r.ended then r
      else if |pages[n - 1]| == 0 then r.(ended := true)
      else
        var s := PageAll(pages[n - 1], PageStart(r.seen, r.offered), kind, store);
        RunState(s.seen, s.offered, n, s.stopped || s.saved == 0, s.stopped)
  }

  /** While the pagination goes on every page was processed and nothing returned. */
  lemma {:induction false} GoingOn(pages: seq<seq<Item>>, n: nat, kind: Judge, store: Store)
    requires n <= |pages|
    ensures var r := PagesAll(pages, n, kind, store); (!r.ended ==> r.read == n && !r.stopped) && (r.stopped ==> r.ended)
    decreases n
  {
    if n > 0 {
      GoingOn(pages, n - 1, kind, store);
    }
  }

  /** Once the pagination ends no later page changes anything. */
  lemma {:induction false} EndedStays(pages: seq<seq<Item>>, n: nat, m: nat, kind: Judge, store: Store)
    requires n <= m <= |pages| && PagesAll(pages, n, kind, store).ended
    ensures PagesAll(pages, m, kind, store) == PagesAll(pages, n, kind, store)
    decreases m
  {
    if m > n {
      EndedStays(pages, n, m - 1, kind, store);
    }
  }

  /** Page `p` is processed and holds three old articles among those not seen before it. */
  predicate PageStops(pages: seq<seq<Item>>, p: nat, kind: Judge, store: Store)
    requires p < |pages|
  {
    var r := PagesAll(pages, p, kind, store);
    !r.ended && |pages[p]| > 0 && Count(FreshKinds(pages[p], r.seen, kind), IsOld) >= OldLimit
  }

  /** The run returns on old articles exactly when one page holds three of them: the counter starts over on each page. */
  lemma {:induction false} StopsOnThirdOldOfAPage(pages: seq<seq<Item>>, n: nat, kind: Judge, store: Store)
    requires n <= |pages|
    ensures PagesAll(pages, n, kind, store).stopped <==> exists p | 0 <= p < n :: PageStops(pages, p, kind, store)
    decreases n
  {
    if n > 0 {
      StopsOnThirdOldOfAPage(pages, n - 1, kind, store);
      GoingOn(pages, n - 1, kind, store);
      var r := PagesAll(pages, n - 1, kind, store);
      if !r.ended && |pages[n - 1]| > 0 {
        PageAllAccount(pages[n - 1], r.seen, r.offered, kind, store);
      }
      assert PagesAll(pages, n, kind, store).stopped <==> r.stopped || PageStops(pages, n - 1, kind, store);
      if PagesAll(pages, n, kind, store).stopped {
        if r.stopped {
          var p :| 0 <= p < n - 1 && PageStops(pages, p, kind, store);
          assert 0 <= p < n && PageStops(pages, p, kind, store);
        }
      } else {
        forall p | 0 <= p < n
          ensures !PageStops(pages, p, kind, store)
        {
        }
      }
    }
  }

  /** A page on which nothing was saved is the last one processed. */
  lemma ZeroSavedEnds(pages: seq<seq<Item>>, n: nat, kind: Judge, store: Store)
    requires n < |pages| && !PagesAll(pages, n, kind, store).ended && |pages[n]| > 0
    requires PageAll(pages[n], PageStart(PagesAll(pages, n, kind, store).seen, PagesAll(pages, n, kind, store).offered), kind, store).saved == 0
    ensures PagesAll(pages, |pages|, kind, store).read == n + 1
    ensures PagesAll(pages, |pages|, kind, store) == PagesAll(pages, n + 1, kind, store)
  {
    EndedStays(pages, n + 1, |pages|, kind, store);
  }

  /** The run's offers satisfy what every taken article satisfies, and name distinct URLs. */
  lemma {:induction false} PagesAllSound(pages: seq<seq<Item>>, n: nat, kind: Judge, store: Store, ok: Article -> bool)
    requires n <= |pages| && TakesOnly(kind, ok)
    ensures var r := PagesAll(pages, n, kind, store); SoundOffers(r.offered, r.seen, ok)
    decreases n
  {
    if n > 0 {
      PagesAllSound(pages, n - 1, kind, store, ok);
      var r := PagesAll(pages, n - 1, kind, store);
      PageAllSound(pages[n - 1], PageStart(r.seen, r.offered), kind, store, ok);
    }
  }

  // ---------------------------------------------------------------------------------------
  // The scraper
  // ---------------------------------------------------------------------------------------

  /** The article loop of one page, judging with `KindOf`. */
  function PageOf(items: seq<Item>, start: PageState, run: Run, store: Store): PageState
  {
    PageAll(items, start, (u, it) => KindOf(u, it, run), store)
  }

  /** The run over the listing pages, judging with `KindOf`. */
  function Crawled(pages: seq<seq<Item>>, n: nat, run: Run, store: Store): RunState
    requires n <= |pages|
  {
    PagesAll(pages, n, (u, it) => KindOf(u, it, run), store)
  }

  /** One iteration of the article loop, with the fallbacks written out as the loop body does. */
  method ScrapeItem(item: Item, run: Run, store: Store, s: PageState, count: nat) returns (s': PageState, count': nat)
    requires !s.stopped && count == Accepted(store, s.offered)
    ensures s' == ItemStep(s, item, (u, it) => KindOf(u, it, run), store)
    ensures count' == Accepted(store, s'.offered)
  {
    s', count' := s, count;
    if item.url.None? || item.url.value in s.seen {
      return;
    }
    var url := item.url.value;
    s' := s'.(seen := s.seen + {url});
    var e := ExtraerContenido(run.fetch(url));
    var titulo, fecha := e.titulo, e.fecha;
    if titulo == "" {
      titulo := if item.headline.Some? then item.headline.value else "";
    }
    if fecha.None? {
      var texto := if item.fecha.Some? then RemoveChar(item.fecha.value, '.') else "";
      fecha := ParsearFecha(texto);
    }
    if titulo == "" || fecha.None? {
      return;
    }
    if PastLimit(fecha.value, run.limit) {
      s' := s'.(antiguos := s.antiguos + 1, stopped := s.antiguos + 1 >= OldLimit);
      return;
    }
    var a := Article(titulo, e.contenido, e.crudo, fecha, url, MediaName);
    var saved := store(s.offered, a);
    AcceptedStep(store, s.offered, a);
    s' := s'.(offered := s.offered + [a]);
    if saved {
      s' := s'.(saved := s.saved + 1);
      count' := count + 1;
    }
  }

  /** The article loop of one page; it ends early when the run returns on old articles. */
  method ScrapePage(items: seq<Item>, run: Run, store: Store, seen: set<string>, offered: seq<Article>, count: nat)
    returns (s: PageState, count': nat)
    requires count == Accepted(store, offered)
    ensures s == PageOf(items, PageStart(seen, offered), run, store)
    ensures count' == Accepted(store, s.offered)
  {
    var start := PageStart(seen, offered);
    s, count' := start, count;
    var i := 0;
    while i < |items|
      invariant i <= |items|
      invariant s == PageOf(items[..i], start, run, store)
      invariant count' == Accepted(store, s.offered)
    {
      if s.stopped {
        PageStoppedStays(items, i, start, (u, it) => KindOf(u, it, run), store);
        return;
      }
      s, count' := ScrapeItem(items[i], run, store, s, count');
      assert items[..i + 1][..i] == items[..i];
      i := i + 1;
    }
    assert items[..i] == items;
  }

  /**
   * `scrape`: the listing pages one after another until a page without articles, a page
   * on which nothing was saved, the end of the readable pages, or the third old article of
   * a page. `count` is `noticias_guardadas`.
   */
  method Scrape(pages: seq<seq<Item>>, run: Run, store: Store)
    returns (count: nat, offered: seq<Article>, read: nat, stopped: bool)
    ensures var r := Crawled(pages, |pages|, run, store);
      offered == r.offered && read == r.read && stopped == r.stopped
    ensures count == Accepted(store, offered)
  {
    var seen: set<string> := {};
    offered, count, read, stopped := [], 0, 0, false;
    var p := 0;
    while p < |pages|
      invariant p <= |pages|
      invariant Crawled(pages, p, run, store) == RunState(seen, offered, p, false, false)
      invariant read == p && !stopped
      invariant count == Accepted(store, offered)
    {
      if |pages[p]| == 0 {
        EndedStays(pages, p + 1, |pages|, (u, it) => KindOf(u, it, run), store);
        return;
      }
      var s;
      s, count := ScrapePage(pages[p], run, store, seen, offered, count);
      seen, offered, read := s.seen, s.offered, p + 1;
      if s.stopped || s.saved == 0 {
        stopped := s.stopped;
        EndedStays(pages, p + 1, |pages|, (u, it) => KindOf(u, it, run), store);
        return;
      }
      p := p + 1;
    }
  }

  /** Every article the scraper offers is titled, dated, within the limit and cut, and no URL is offered twice. */
  lemma OffersSound(pages: seq<seq<Item>>, run: Run, store: Store)
    ensures SoundOffers(Crawled(pages, |pages|, run, store).offered, Crawled(pages, |pages|, run, store).seen,
                        a => Acceptable(a, run.limit))
  {
    var kind: Judge := (u, it) => KindOf(u, it, run);
    assert TakesOnly(kind, a => Acceptable(a, run.limit));
    PagesAllSound(pages, |pages|, kind, store, a => Acceptable(a, run.limit));
  }

  /** Page `p` is processed and holds three old articles not seen before it. */
  predicate PageReturns(pages: seq<seq<Item>>, p: nat, run: Run, store: Store)
    requires p < |pages|
  {
    PageStops(pages, p, (u, it) => KindOf(u, it, run), store)
  }

  /** The scraper returns early exactly when some processed page holds three old new articles. */
  lemma ReturnsOnThirdOld(pages: seq<seq<Item>>, run: Run, store: Store)
    ensures Crawled(pages, |pages|, run, store).stopped
        <==> exists p | 0 <= p < |pages| :: PageReturns(pages, p, run, store)
  {
    var kind: Judge := (u, it) => KindOf(u, it, run);
    StopsOnThirdOldOfAPage(pages, |pages|, kind, store);
    forall p | 0 <= p < |pages|
      ensures PageReturns(pages, p, run, store) == PageStops(pages, p, kind, store)
    {
    }
  }

  /** Without a limit the scraper never returns early. */
  lemma NoLimitNeverReturns(pages: seq<seq<Item>>, run: Run, store: Store)
    requires run.limit.None?
    ensures !Crawled(pages, |pages|, run, store).stopped
  {
    var kind: Judge := (u, it) => KindOf(u, it, run);
    StopsOnThirdOldOfAPage(pages, |pages|, kind, store);
    forall p | 0 <= p < |pages|
      ensures !PageStops(pages, p, kind, store)
    {
      var r := PagesAll(pages, p, kind, store);
      NoOldKinds(pages[p], r.seen, run);
    }
  }

  /** Without a limit none of a page's verdicts is old. */
  lemma {:induction false} NoOldKinds(items: seq<Item>, seen: set<string>, run: Run)
    requires run.limit.None?
    ensures Count(FreshKinds(items, seen, (u, it) => KindOf(u, it, run)), IsOld) == 0
    decreases |items|
  {
    if |items| > 0 {
      var kind: Judge := (u, it) => KindOf(u, it, run);
      var init, last := items[..|items| - 1], items[|items| - 1];
      NoOldKinds(init, seen, run);
      var added := if last.url.Some? && last.url.value !in seen + UrlsOf(init) then [kind(last.url.value, last)] else [];
      CountAppend(FreshKinds(init, seen, kind), added, IsOld);
      if |added| == 1 {
        NoLimitNoOld(last.url.value, last, run);
        assert Count(added, IsOld) == 0;
      }
    }
  }
}

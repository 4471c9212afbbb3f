/**
 * The Somos Jujuy scraper (`SomosJujuyScraper`): the police section read page by page
 * (`?page=1`, `?page=2`, ...), from each page the links whose href ends in `-n<digits>`
 * and was not seen before in the run, and for each link the article's JSON-LD
 * NewsArticle. The first article older than the limit ends the whole run. Every article
 * read is handed to the database with no existence check.
 *
 * `pages[p]` is the answer to the request for page `p + 1`: its body and the links its
 * `a[href*="/policiales/"]` selector finds, or `None` where the request raises or answers
 * with an error status. Each link carries its `href` and the URL `urljoin` builds from it.
 * An article page is given as its parsed ld+json scripts (`None` for a script that
 * `json.loads` rejects), its `h1.tit-ficha` text and its `article.content` element.
 */
module SomosJujuy {
  import opened Wrappers
  import opened Text
  import opened Seqs
  import opened Dates
  import opened Crawl
  import opened JsonLd

  const BaseUrl: string := "https://www.somosjujuy.com.ar"
  const PolicialesUrl: string := "https://www.somosjujuy.com.ar/policiales/"
  const MediaId: string := "somosjujuy"
  const NoTitle: string := "Título no encontrado"

  /** `f"{POLICIALES_URL}?page={pagina}"`. */
  function PageUrl(pagina: int): (u: string)
  {
    NumberedUrl(PolicialesUrl + "?page=", pagina)
  }

  /** The page number reads back from the end of a page URL, so different pages have different URLs. */
  lemma PageUrlReadBack(pagina: int, other: int)
    ensures StartsWith(PageUrl(pagina), PolicialesUrl + "?page=")
    ensures ParseInt(PageUrl(pagina)[|PolicialesUrl + "?page="|..]) == Some(pagina)
    ensures other != pagina ==> PageUrl(other) != PageUrl(pagina)
  {
    NumberedUrlReadBack(PolicialesUrl + "?page=", pagina);
    if other != pagina {
      NumberedUrlsDistinct(PolicialesUrl + "?page=", other, pagina);
    }
  }

  // ---------------------------------------------------------------------------------------
  // The article links of a listing page
  // ---------------------------------------------------------------------------------------

  /** The number of ASCII digits the text ends with. */
  function TrailingDigits(s: string): (k: nat)
    ensures k <= |s| && AllDigits(s[|s| - k..])
    ensures k < |s| ==> !IsAsciiDigit(s[|s| - k - 1])
    decreases |s|
  {
    if |s| == 0 || !IsAsciiDigit(s[|s| - 1]) then 0
    else
      var init := s[..|s| - 1];
      var k := TrailingDigits(init);
      DigitRunGrows(s, init, k);
      k + 1
  }

  /** A digit after a run of `k` trailing digits makes a run of `k + 1`. */
  lemma DigitRunGrows(s: string, init: string, k: nat)
    requires |s| > 0 && init == s[..|s| - 1] && IsAsciiDigit(s[|s| - 1])
    requires k <= |init| && AllDigits(init[|init| - k..])
    requires k < |init| ==> !IsAsciiDigit(init[|init| - k - 1])
    ensures AllDigits(s[|s| - (k + 1)..])
    ensures k + 1 < |s| ==> !IsAsciiDigit(s[|s| - (k + 1) - 1])
  {
    var run := s[|s| - (k + 1)..];
    forall i | 0 <= i < |run|
      ensures IsAsciiDigit(run[i])
    {
      if i < k {
        assert run[i] == init[|init| - k..][i];
      }
    }
    if k + 1 < |s| {
      assert s[|s| - (k + 1) - 1] == init[|init| - k - 1];
    }
  }

  /** The text ends in "-n" followed by one or more digits. */
  predicate TaggedEnd(t: string)
  {
    var k := TrailingDigits(t);
    k > 0 && EndsWith(t[..|t| - k], "-n")
  }

  /** `re.search(r'-n\d+$', href)`: `$` also matches just before a final newline. */
  predicate NewsHref(h: string)
  {
    TaggedEnd(h) || (|h| > 0 && h[|h| - 1] == '\n' && TaggedEnd(h[..|h| - 1]))
  }

  /** Text ending in a non-digit keeps its own count when digits are appended. */
  lemma {:induction false} TrailingDigitsAfter(p: string, d: string)
    requires |p| > 0 && !IsAsciiDigit(p[|p| - 1]) && AllDigits(d)
    ensures TrailingDigits(p + d) == |d|
    decreases |d|
  {
    if |d| == 0 {
      assert p + d == p;
    } else {
      var init := d[..|d| - 1];
      assert (p + d)[..|p + d| - 1] == p + init;
      TrailingDigitsAfter(p, init);
    }
  }

  /** Every href that ends in "-n" and digits matches, with or without a final newline. */
  lemma TaggedHrefsMatch(p: string, d: string)
    requires AllDigits(d) && d != ""
    ensures NewsHref(p + "-n" + d)
    ensures NewsHref(p + "-n" + d + "\n")
  {
    var t := p + "-n" + d;
    TrailingDigitsAfter(p + "-n", d);
    assert t[..|t| - |d|] == p + "-n";
    var h := t + "\n";
    assert h[..|h| - 1] == t;
  }

  /** Every matching href is some text, "-n", digits, and possibly a final newline. */
  lemma NewsHrefShape(h: string) returns (p: string, d: string)
    requires NewsHref(h)
    ensures AllDigits(d) && d != ""
    ensures h == p + "-n" + d || h == p + "-n" + d + "\n"
  {
    if TaggedEnd(h) {
      p, d := TaggedSplit(h);
    } else {
      p, d := TaggedSplit(h[..|h| - 1]);
      assert h == h[..|h| - 1] + "\n";
    }
  }

  /** A text ending in "-n" and digits is some text, "-n" and those digits. */
  lemma TaggedSplit(t: string) returns (p: string, d: string)
    requires TaggedEnd(t)
    ensures AllDigits(d) && d != "" && t == p + "-n" + d
  {
    var k := TrailingDigits(t);
    p, d := t[..|t| - k - 2], t[|t| - k..];
    assert t[..|t| - k] == p + "-n";
    assert t == t[..|t| - k] + d;
  }

  /** A link of the listing: its `href` and the URL `urljoin(BASE_URL, href)` gives. */
  datatype Link = Link(href: string, url: string)

  /** The listing loop's step: a matching href not seen yet is kept and marked seen. */
  function Filtered(links: seq<Link>, seen: set<string>): (r: (seq<Link>, set<string>))
    decreases |links|
  {
    if |links| == 0 then ([], seen)
    else
      var prev := Filtered(links[..|links| - 1], seen);
      var l := links[|links| - 1];
      if NewsHref(l.href) && l.href !in prev.1 then (prev.0 + [l], prev.1 + {l.href}) else prev
  }

  /** The hrefs of some links. */
  function HrefsOf(links: seq<Link>): set<string>
  {
    set k | 0 <= k < |links| :: links[k].href
  }

  /**
   * `links_filtrados` and `urls_vistas` after the filter: the kept links are links of the
   * page with matching hrefs, new to the run and to each other; the seen set grows by
   * exactly their hrefs, and every matching href of the page is then seen.
   */
  predicate FilterAccount(links: seq<Link>, seen: set<string>, kept: seq<Link>, seen': set<string>)
  {
    && (forall k | 0 <= k < |kept| :: kept[k] in links && NewsHref(kept[k].href) && kept[k].href !in seen)
    && (forall i, j | 0 <= i < j < |kept| :: kept[i].href != kept[j].href)
    && seen' == seen + HrefsOf(kept)
    && (forall k | 0 <= k < |links| && NewsHref(links[k].href) :: links[k].href in seen')
  }

  /** One more link keeps the account. */
  lemma FilterAccountStep(links: seq<Link>, seen: set<string>, kept: seq<Link>, seen': set<string>, l: Link)
    requires FilterAccount(links, seen, kept, seen')
    ensures var next := if NewsHref(l.href) && l.href !in seen' then (kept + [l], seen' + {l.href}) else (kept, seen');
      FilterAccount(links + [l], seen, next.0, next.1)
  {
    var all := links + [l];
    assert forall k | 0 <= k < |links| :: all[k] == links[k];
    assert all[|links|] == l;
    if NewsHref(l.href) && l.href !in seen' {
      var more := kept + [l];
      assert forall k | 0 <= k < |kept| :: more[k] == kept[k];
      assert more[|kept|] == l;
      assert HrefsOf(more) == HrefsOf(kept) + {l.href};
    }
  }

  lemma {:induction false} FilteredAccount(links: seq<Link>, seen: set<string>)
    ensures FilterAccount(links, seen, Filtered(links, seen).0, Filtered(links, seen).1)
    decreases |links|
  {
    if |links| > 0 {
      var init, l := links[..|links| - 1], links[|links| - 1];
      FilteredAccount(init, seen);
      var prev := Filtered(init, seen);
      FilterAccountStep(init, seen, prev.0, prev.1, l);
      assert init + [l] == links;
    }
  }

  /** A page whose matching hrefs are all seen keeps nothing and marks nothing. */
  lemma {:induction false} NothingNewKept(links: seq<Link>, seen: set<string>)
    requires forall k | 0 <= k < |links| :: !NewsHref(links[k].href) || links[k].href in seen
    ensures Filtered(links, seen) == ([], seen)
    decreases |links|
  {
    if |links| > 0 {
      var init := links[..|links| - 1];
      assert forall k | 0 <= k < |init| :: init[k] == links[k];
      NothingNewKept(init, seen);
    }
  }

  /** The listing loop: `links_filtrados` and `urls_vistas`. */
  method FiltrarLinks(links: seq<Link>, seen: set<string>) returns (kept: seq<Link>, seen': set<string>)
    ensures (kept, seen') == Filtered(links, seen)
  {
    kept, seen' := [], seen;
    var i := 0;
    while i < |links|
      invariant i <= |links|
      invariant (kept, seen') == Filtered(links[..i], seen)
    {
      assert links[..i + 1][..i] == links[..i];
      var href := links[i].href;
      if href != "" && NewsHref(href) && href !in seen' {
        kept := kept + [links[i]];
        seen' := seen' + {href};
      }
      i := i + 1;
    }
    assert links[..i] == links;
  }

  // ---------------------------------------------------------------------------------------
  // The article page
  // ---------------------------------------------------------------------------------------

  /**
   * An article page: each `application/ld+json` script as `json.loads` parses it (`None`
   * where it raises), the text of `h1.tit-ficha`, and the `article.content` element (its
   * whole text is not used here).
   */
  datatype ArticlePage = ArticlePage(scripts: seq<Option<Json>>, h1: Option<string>, content: Option<Container>)

  /**
   * `article_data`: the first script that parses to an object of type NewsArticle. A
   * script that does not parse raises before any later script is looked at, and the
   * article is dropped: `None` then as when there is no such object.
   */
  function LdArticle(scripts: seq<Option<Json>>): (r: Option<map<string, Json>>)
    ensures r.Some? ==> IsNews(r.value)
    decreases |scripts|
  {
    if |scripts| == 0 || scripts[0].None? then None
    else match scripts[0].value
      case JObject(fields) => if IsNews(fields) then Some(fields) else LdArticle(scripts[1..])
      case _ => LdArticle(scripts[1..])
  }

  /** The script parses to something other than a NewsArticle object. */
  predicate OtherScript(s: Option<Json>)
  {
    s.Some? && !(s.value.JObject? && IsNews(s.value.fields))
  }

  /** The first NewsArticle object is the article when every script before it parses. */
  lemma {:induction false} LdArticleIsFirst(scripts: seq<Option<Json>>, k: int)
    requires 0 <= k < |scripts| && scripts[k].Some? && scripts[k].value.JObject? && IsNews(scripts[k].value.fields)
    requires forall j | 0 <= j < k :: OtherScript(scripts[j])
    ensures LdArticle(scripts) == Some(scripts[k].value.fields)
    decreases k
  {
    if k > 0 {
      assert OtherScript(scripts[0]);
      LdArticleIsFirst(scripts[1..], k - 1);
    }
  }

  /** A script that does not parse, before any NewsArticle object, loses the article. */
  lemma {:induction false} UnparsableScriptLoses(scripts: seq<Option<Json>>, k: int)
    requires 0 <= k < |scripts| && scripts[k].None?
    requires forall j | 0 <= j < k :: OtherScript(scripts[j])
    ensures LdArticle(scripts).None?
    decreases k
  {
    if k > 0 {
      assert OtherScript(scripts[0]);
      UnparsableScriptLoses(scripts[1..], k - 1);
    }
  }

  /** Without a NewsArticle object among parsed scripts there is no article. */
  lemma {:induction false} NoNewsNoArticle(scripts: seq<Option<Json>>)
    requires forall j | 0 <= j < |scripts| :: scripts[j].None? || OtherScript(scripts[j])
    ensures LdArticle(scripts).None?
    decreases |scripts|
  {
    if |scripts| > 0 && scripts[0].Some? {
      assert OtherScript(scripts[0]);
      NoNewsNoArticle(scripts[1..]);
    }
  }

  /**
   * `_extract_title`: a true `headline`, else the stripped `h1.tit-ficha` text, else the
   * fixed text. `None` for a true headline that is not a string.
   */
  function Titulo(data: map<string, Json>, h1: Option<string>): (t: Option<string>)
  {
    var headline := Field(data, "headline");
    if Truthy(headline) then (if headline.value.JStr? then Some(headline.value.s) else None)
    else if h1.Some? then Some(Strip(h1.value))
    else Some(NoTitle)
  }

  /** The headline wins; without one the page's title element, and only then the fixed text. */
  lemma TituloFallbacks(data: map<string, Json>, headline: string, h1: string)
    ensures headline != "" ==> Titulo(data["headline" := JStr(headline)], None) == Some(headline)
    ensures headline != "" ==> Titulo(data["headline" := JStr(headline)], Some(h1)) == Some(headline)
    ensures Titulo(data["headline" := JStr("")], Some(h1)) == Some(Strip(h1))
    ensures Titulo(data - {"headline"}, Some(h1)) == Some(Strip(h1))
    ensures Titulo(data - {"headline"}, None) == Some(NoTitle)
  {
  }

  /**
   * `_extract_date`: the date of a true `datePublished` as `datetime.fromisoformat` reads
   * it, else today. `None` where `fromisoformat` raises, for a malformed text or a value
   * that is not a string.
   */
  function Fecha(data: map<string, Json>, today: Today): (r: Option<Date>)
    ensures r.Some? ==> Valid(r.value)
  {
    var published := Field(data, "datePublished");
    if !Truthy(published) then Some(today)
    else if published.value.JStr? then DateTimeDate(published.value.s)
    else None
  }

  /** A missing or empty date is today; an ISO date, with or without a time, is that date. */
  lemma FechaCases(data: map<string, Json>, today: Today, d: Date, time: string)
    requires Valid(d) && time != ""
    ensures Fecha(data - {"datePublished"}, today) == Some(today)
    ensures Fecha(data["datePublished" := JStr("")], today) == Some(today)
    ensures Fecha(data["datePublished" := JStr(IsoFormat(d))], today) == Some(d)
    ensures Fecha(data["datePublished" := JStr(IsoFormat(d) + "T" + time)], today) == Some(d)
  {
    DateTimeRoundTrip(d, 'T', time);
  }

  /** A datePublished that is not an ISO date drops the article instead of falling back to today. */
  lemma MalformedDateDrops(data: map<string, Json>, today: Today, text: string)
    requires text != "" && DateTimeDate(text).None?
    ensures Fecha(data["datePublished" := JStr(text)], today).None?
  {
  }

  /**
   * `_extract_content`: the stripped text of every `<p>` of the element, joined by blank
   * lines (empty paragraphs included), and the element's HTML; two empty texts without it.
   */
  function Contenido(content: Option<Container>): (r: (string, string))
  {
    if content.None? then ("", "")
    else (Join(ParagraphSep, Map(content.value.paragraphs, Strip)), content.value.html)
  }

  /** The content keeps one text per paragraph, each stripped, and the raw content is the element's HTML. */
  lemma ContenidoParts(content: Option<Container>, k: int)
    requires content.Some? && 0 <= k < |content.value.paragraphs|
    ensures Contains(Contenido(content).0, Strip(content.value.paragraphs[k]))
    ensures Contenido(content).1 == content.value.html
    ensures Contenido(None) == ("", "")
  {
    JoinContainsParts(ParagraphSep, Map(content.value.paragraphs, Strip), k);
  }

  // ---------------------------------------------------------------------------------------
  // The verdict on one article
  // ---------------------------------------------------------------------------------------

  /** What the loop body does with one link: drop it, end the run on its date, or save it. */
  datatype Kind = Skip | Old | Keep(article: Article)

  /** The article pages each URL answers with (`None` where the request raises), the limit, and today. */
  datatype Run = Run(fetch: string -> Option<ArticlePage>, limit: Option<Date>, today: Today)

  /** What the scraper hands to the database: dated, within the limit, and from this site. */
  predicate Acceptable(a: Article, limit: Option<Date>)
  {
    a.fecha.Some? && Valid(a.fecha.value) && !PastLimit(a.fecha.value, limit) && a.media == MediaId
  }

  /**
   * The loop body for the article at `url`: the date is read and compared with the limit
   * before the title and content are read.
   */
  function KindOf(url: string, run: Run): (k: Kind)
    ensures k.Keep? ==> k.article.url == url && Acceptable(k.article, run.limit)
    ensures k.Old? ==> run.limit.Some?
  {
    var page := run.fetch(url);
    if page.None? then Skip
    else
      var data := LdArticle(page.value.scripts);
      if data.None? then Skip
      else
        var fecha := Fecha(data.value, run.today);
        if fecha.None? then Skip
        else if PastLimit(fecha.value, run.limit) then Old
        else
          var titulo := Titulo(data.value, page.value.h1);
          if titulo.None? then Skip
          else
            var c := Contenido(page.value.content);
            Keep(Article(titulo.value, c.0, c.1, fecha, url, MediaId))
  }

  /** An article of a page with no JSON-LD NewsArticle is dropped, whatever its date. */
  lemma NoNewsArticleSkipped(url: string, run: Run)
    requires run.fetch(url).Some? && LdArticle(run.fetch(url).value.scripts).None?
    ensures KindOf(url, run) == Skip
  {
  }

  /** An undated NewsArticle is dated today, so it ends the run exactly when today is past the limit. */
  lemma UndatedIsToday(url: string, run: Run)
    requires run.fetch(url).Some? && LdArticle(run.fetch(url).value.scripts).Some?
    requires "datePublished" !in LdArticle(run.fetch(url).value.scripts).value
    ensures KindOf(url, run).Old? <==> PastLimit(run.today, run.limit)
    ensures KindOf(url, run).Keep? ==> KindOf(url, run).article.fecha == Some(run.today)
  {
  }

  /** Without a limit no article ends the run. */
  lemma NoLimitNoOld(url: string, run: Run)
    requires run.limit.None?
    ensures !KindOf(url, run).Old?
  {
  }

  // ---------------------------------------------------------------------------------------
  // The article loop of one page, for any verdict
  // ---------------------------------------------------------------------------------------

  /** The verdict on the article a URL leads to. */
  type Judge = string -> Kind

  /** The articles offered to the database so far in the run, and whether `seguir` turned false. */
  datatype PageState = PageState(offered: seq<Article>, stopped: bool)

  /** One iteration of the article loop. */
  function LinkStep(s: PageState, link: Link, kind: Judge): PageState
  {
    if s.stopped then s
    else match kind(link.url)
      case Skip => s
      case Old => s.(stopped := true)
      case Keep(a) => s.(offered := s.offered + [a])
  }

  /** The article loop over the kept links of a page. */
  function PageAll(links: seq<Link>, start: PageState, kind: Judge): PageState
    decreases |links|
  {
    if |links| == 0 then start
    else LinkStep(PageAll(links[..|links| - 1], start, kind), links[|links| - 1], kind)
  }

  /** The verdicts on the links, in order. */
  function KindsOf(links: seq<Link>, kind: Judge): (ks: seq<Kind>)
    ensures |ks| == |links|
    decreases |links|
  {
    if |links| == 0 then [] else KindsOf(links[..|links| - 1], kind) + [kind(links[|links| - 1].url)]
  }

  /** The articles of the verdicts that save one, in order. */
  function Taken(ks: seq<Kind>): seq<Article>
    decreases |ks|
  {
    if |ks| == 0 then []
    else Taken(ks[..|ks| - 1]) + (if ks[|ks| - 1].Keep? then [ks[|ks| - 1].article] else [])
  }

  /** No link of the list leads to an old article. */
  predicate NoneOld(links: seq<Link>, kind: Judge)
  {
    forall j | 0 <= j < |links| :: !kind(links[j].url).Old?
  }

  /** A page without old articles offers every article its links give, in order, and goes on. */
  lemma {:induction false} PageWithoutOld(links: seq<Link>, start: PageState, kind: Judge)
    requires !start.stopped && NoneOld(links, kind)
    ensures PageAll(links, start, kind) == PageState(start.offered + Taken(KindsOf(links, kind)), false)
    decreases |links|
  {
    if |links| > 0 {
      var init, l := links[..|links| - 1], links[|links| - 1];
      assert NoneOld(init, kind) by {
        assert forall j | 0 <= j < |init| :: init[j] == links[j];
      }
      PageWithoutOld(init, start, kind);
      var ks := KindsOf(init, kind);
      assert (ks + [kind(l.url)])[..|ks|] == ks;
    }
  }

  /** Once the run stops, the rest of the page is not read. */
  lemma {:induction false} PageStoppedStays(links: seq<Link>, i: nat, start: PageState, kind: Judge)
    requires i <= |links| && PageAll(links[..i], start, kind).stopped
    ensures PageAll(links, start, kind) == PageAll(links[..i], start, kind)
    decreases |links|
  {
    if i < |links| {
      var init := links[..|links| - 1];
      assert init[..i] == links[..i];
      PageStoppedStays(init, i, start, kind);
    } else {
      assert links[..i] == links;
    }
  }

  /**
   * The first old article ends the page and the run: what the links before it give is
   * offered, nothing after it is.
   */
  lemma PageUpToFirstOld(links: seq<Link>, i: nat, start: PageState, kind: Judge)
    requires !start.stopped && i < |links| && kind(links[i].url).Old? && NoneOld(links[..i], kind)
    ensures PageAll(links, start, kind) == PageState(start.offered + Taken(KindsOf(links[..i], kind)), true)
  {
    PageWithoutOld(links[..i], start, kind);
    assert links[..i + 1][..i] == links[..i];
    PageStoppedStays(links, i + 1, start, kind);
  }

  /** The page loop stops exactly when one of its links leads to an old article. */
  lemma {:induction false} PageStopsOnOld(links: seq<Link>, start: PageState, kind: Judge)
    requires !start.stopped
    ensures PageAll(links, start, kind).stopped <==> !NoneOld(links, kind)
    decreases |links|
  {
    if |links| > 0 {
      var init := links[..|links| - 1];
      PageStopsOnOld(init, start, kind);
      assert forall j | 0 <= j < |init| :: init[j] == links[j];
    }
  }

  /** The offers satisfy `ok`. */
  predicate SoundOffers(offered: seq<Article>, ok: Article -> bool)
  {
    forall k | 0 <= k < |offered| :: ok(offered[k])
  }

  /** Every article the verdict saves satisfies `ok`. */
  ghost predicate TakesOnly(kind: Judge, ok: Article -> bool)
  {
    forall u :: kind(u).Keep? ==> ok(kind(u).article)
  }

  lemma {:induction false} PageAllSound(links: seq<Link>, start: PageState, kind: Judge, ok: Article -> bool)
    requires TakesOnly(kind, ok) && SoundOffers(start.offered, ok)
    ensures SoundOffers(PageAll(links, start, kind).offered, ok)
    decreases |links|
  {
    if |links| > 0 {
      PageAllSound(links[..|links| - 1], start, kind, ok);
    }
  }

  // ---------------------------------------------------------------------------------------
  // The listing pages, for any verdict
  // ---------------------------------------------------------------------------------------

  /** A listing page as the request answers it: the body, and the links its selector finds. */
  datatype Listing = Listing(body: string, links: seq<Link>)

  /**
   * The state of the run after the first `n` requests: `urls_vistas`, `last_page_content`,
   * the articles offered, whether the pagination ended and whether it ended on an old article.
   */
  datatype RunState = RunState(seen: set<string>, last: Option<string>, offered: seq<Article>, ended: bool, stopped: bool)

  /**
   * The `while seguir` loop: a failed request, a body equal to the previous one or a page
   * without new article links ends it; otherwise the page's articles are read until an
   * old one.
   */
  function PagesAll(pages: seq<Option<Listing>>, n: nat, kind: Judge): RunState
    requires n <= |pages|
    decreases n
  {
    if n == 0 then RunState({}, None, [], false, false)
    else PageRound(PagesAll(pages, n - 1, kind), pages[n - 1], kind)
  }

  /** One iteration of the `while seguir` loop on the answer to one page request. */
  function PageRound(r: RunState, page: Option<Listing>, kind: Judge): RunState
  {
    if r.ended then r
    else if page.None? then r.(ended := true)
    else
      var l := page.value;
      if r.last == Some(l.body) then r.(ended := true)
      else
        var f := Filtered(l.links, r.seen);
        if |f.0| == 0 then r.(seen := f.1, last := Some(l.body), ended := true)
        else
          var s := PageAll(f.0, PageState(r.offered, false), kind);
          RunState(f.1, Some(l.body), s.offered, s.stopped, s.stopped)
  }

  /** While the pagination goes on, the last body is that of the last page and nothing stopped. */
  lemma {:induction false} GoingOn(pages: seq<Option<Listing>>, n: nat, kind: Judge)
    requires n <= |pages|
    ensures var r := PagesAll(pages, n, kind);
      && (r.stopped ==> r.ended)
      && (!r.ended && n > 0 ==> pages[n - 1].Some? && r.last == Some(pages[n - 1].value.body))
    decreases n
  {
    if n > 0 {
      GoingOn(pages, n - 1, kind);
    }
  }

  /** Once the pagination ends no later page changes anything. */
  lemma {:induction false} EndedStays(pages: seq<Option<Listing>>, n: nat, m: nat, kind: Judge)
    requires n <= m <= |pages| && PagesAll(pages, n, kind).ended
    ensures PagesAll(pages, m, kind) == PagesAll(pages, n, kind)
    decreases m
  {
    if m > n {
      EndedStays(pages, n, m - 1, kind);
      assert PagesAll(pages, m, kind) == PagesAll(pages, m - 1, kind) by { StepAfterEnd(pages, m - 1, kind); }
    }
  }

  /** A page requested after the end changes nothing. */
  lemma StepAfterEnd(pages: seq<Option<Listing>>, k: nat, kind: Judge)
    requires k < |pages| && PagesAll(pages, k, kind).ended
    ensures PagesAll(pages, k + 1, kind) == PagesAll(pages, k, kind)
  {
  }

  /** A page whose body repeats the previous page's ends the run without reading it. */
  lemma DuplicatePageEnds(pages: seq<Option<Listing>>, p: nat, kind: Judge)
    requires 0 < p < |pages| && !PagesAll(pages, p, kind).ended
    requires pages[p].Some? && pages[p - 1].Some? && pages[p].value.body == pages[p - 1].value.body
    ensures PagesAll(pages, |pages|, kind) == PagesAll(pages, p, kind).(ended := true)
  {
    GoingOn(pages, p, kind);
    EndedStays(pages, p + 1, |pages|, kind);
  }

  /** A page whose links give no new article link ends the run with nothing more offered. */
  lemma NoNewLinksEnds(pages: seq<Option<Listing>>, p: nat, kind: Judge)
    requires p < |pages| && !PagesAll(pages, p, kind).ended && pages[p].Some?
    requires forall k | 0 <= k < |pages[p].value.links| ::
      !NewsHref(pages[p].value.links[k].href) || pages[p].value.links[k].href in PagesAll(pages, p, kind).seen
    ensures PagesAll(pages, |pages|, kind).ended
    ensures PagesAll(pages, |pages|, kind).offered == PagesAll(pages, p, kind).offered
  {
    NothingNewKept(pages[p].value.links, PagesAll(pages, p, kind).seen);
    EndedStays(pages, p + 1, |pages|, kind);
  }

  /** Page `p` is read and one of its new article links leads to an old article. */
  predicate PageHasOld(pages: seq<Option<Listing>>, p: nat, kind: Judge)
    requires p < |pages|
  {
    var r := PagesAll(pages, p, kind);
    && !r.ended && pages[p].Some? && r.last != Some(pages[p].value.body)
    && !NoneOld(Filtered(pages[p].value.links, r.seen).0, kind)
  }

  /** The run ends on the limit exactly when a page it reads holds an old article. */
  lemma StopsOnFirstOld(pages: seq<Option<Listing>>, n: nat, kind: Judge)
    requires n <= |pages|
    ensures PagesAll(pages, n, kind).stopped <==> exists p | 0 <= p < n :: PageHasOld(pages, p, kind)
  {
    if PagesAll(pages, n, kind).stopped {
      assert n > 0;
      var p := StoppedByOld(pages, n, kind);
    } else {
      forall p | 0 <= p < n
        ensures !PageHasOld(pages, p, kind)
      {
        GoingNoOld(pages, n, p, kind);
      }
    }
  }

  /** A stopped run has a page, read before it stopped, that holds an old article. */
  lemma {:induction false} StoppedByOld(pages: seq<Option<Listing>>, n: nat, kind: Judge) returns (p: nat)
    requires 0 < n <= |pages| && PagesAll(pages, n, kind).stopped
    ensures p < n && PageHasOld(pages, p, kind)
    decreases n
  {
    StopsStep(pages, n - 1, kind);
    if PagesAll(pages, n - 1, kind).stopped {
      assert n - 1 > 0;
      p := StoppedByOld(pages, n - 1, kind);
    } else {
      p := n - 1;
    }
  }

  /** A run that has not stopped read no page holding an old article. */
  lemma {:induction false} GoingNoOld(pages: seq<Option<Listing>>, n: nat, p: nat, kind: Judge)
    requires p < n <= |pages| && !PagesAll(pages, n, kind).stopped
    ensures !PageHasOld(pages, p, kind)
    decreases n
  {
    if p + 1 == n {
      StepGoing(pages, p, kind);
    } else {
      StepGoing(pages, n - 1, kind);
      GoingNoOld(pages, n - 1, p, kind);
    }
  }

  /** A page after which the run goes on holds no old article, and the run was going before it. */
  lemma StepGoing(pages: seq<Option<Listing>>, k: nat, kind: Judge)
    requires k < |pages| && !PagesAll(pages, k + 1, kind).stopped
    ensures !PagesAll(pages, k, kind).stopped && !PageHasOld(pages, k, kind)
  {
    StopsStep(pages, k, kind);
  }

  /** One more page stops the run exactly when the run had stopped or that page holds an old article. */
  lemma StopsStep(pages: seq<Option<Listing>>, n: nat, kind: Judge)
    requires n < |pages|
    ensures PagesAll(pages, n + 1, kind).stopped <==> PagesAll(pages, n, kind).stopped || PageHasOld(pages, n, kind)
  {
    GoingOn(pages, n, kind);
    var r := PagesAll(pages, n, kind);
    if !r.ended && pages[n].Some? && r.last != Some(pages[n].value.body) {
      var f := Filtered(pages[n].value.links, r.seen);
      PageStopsOnOld(f.0, PageState(r.offered, false), kind);
    }
  }

  /** The run's offers satisfy what every saved article satisfies. */
  lemma {:induction false} PagesAllSound(pages: seq<Option<Listing>>, n: nat, kind: Judge, ok: Article -> bool)
    requires n <= |pages| && TakesOnly(kind, ok)
    ensures SoundOffers(PagesAll(pages, n, kind).offered, ok)
    decreases n
  {
    if n > 0 {
      PagesAllSound(pages, n - 1, kind, ok);
      var r := PagesAll(pages, n - 1, kind);
      if !r.ended && pages[n - 1].Some? {
        PageAllSound(Filtered(pages[n - 1].value.links, r.seen).0, PageState(r.offered, false), kind, ok);
      }
    }
  }

  // ---------------------------------------------------------------------------------------
  // The scraper
  // ---------------------------------------------------------------------------------------

  /** The article loop of one page, judging with `KindOf`. */
  function PageOf(links: seq<Link>, start: PageState, run: Run): PageState
  {
    PageAll(links, start, u => KindOf(u, run))
  }

  /** The run over the listing pages, judging with `KindOf`. */
  function Crawled(pages: seq<Option<Listing>>, n: nat, run: Run): RunState
    requires n <= |pages|
  {
    PagesAll(pages, n, u => KindOf(u, run))
  }

  /** One iteration of the article loop; `count` is `noticias_guardadas`, one more per commit. */
  method ScrapeLink(link: Link, run: Run, store: Store, s: PageState, count: nat) returns (s': PageState, count': nat)
    requires !s.stopped && count == Accepted(store, s.offered)
    ensures s' == LinkStep(s, link, u => KindOf(u, run))
    ensures count' == Accepted(store, s'.offered)
  {
    s', count' := s, count;
    var page := run.fetch(link.url);
    if page.None? {
      return;
    }
    var data := LdArticle(page.value.scripts);
    if data.None? {
      return;
    }
    var fecha := Fecha(data.value, run.today);
    if fecha.None? {
      return;
    }
    if PastLimit(fecha.value, run.limit) {
      s' := s.(stopped := true);
      return;
    }
    var titulo := Titulo(data.value, page.value.h1);
    if titulo.None? {
      return;
    }
    var contenido, crudo := "", "";
    if page.value.content.Some? {
      crudo := page.value.content.value.html;
      contenido := Join(ParagraphSep, Map(page.value.content.value.paragraphs, Strip));
    }
    var a := Article(titulo.value, contenido, crudo, fecha, link.url, MediaId);
    var committed := store(s.offered, a);
    AcceptedStep(store, s.offered, a);
    s' := s.(offered := s.offered + [a]);
    if committed {
      count' := count + 1;
    }
  }

  /** The article loop of one page; it ends early on an old article. */
  method ScrapePage(links: seq<Link>, run: Run, store: Store, offered: seq<Article>, count: nat)
    returns (s: PageState, count': nat)
    requires count == Accepted(store, offered)
    ensures s == PageOf(links, PageState(offered, false), run)
    ensures count' == Accepted(store, s.offered)
  {
    var start := PageState(offered, false);
    s, count' := start, count;
    var i := 0;
    while i < |links|
      invariant i <= |links|
      invariant s == PageOf(links[..i], start, run)
      invariant count' == Accepted(store, s.offered)
    {
      if s.stopped {
        PageStoppedStays(links, i, start, u => KindOf(u, run));
        return;
      }
      s, count' := ScrapeLink(links[i], run, store, s, count');
      assert links[..i + 1][..i] == links[..i];
      i := i + 1;
    }
    assert links[..i] == links;
  }

  /** One iteration of the `while seguir` loop, on the answer to one page request. */
  method ScrapeRound(page: Option<Listing>, run: Run, store: Store, r: RunState, count: nat)
    returns (r': RunState, count': nat)
    requires !r.ended && count == Accepted(store, r.offered)
    ensures r' == PageRound(r, page, u => KindOf(u, run))
    ensures count' == Accepted(store, r'.offered)
  {
    r', count' := r, count;
    if page.None? || r.last == Some(page.value.body) {
      r' := r.(ended := true);
      return;
    }
    var l := page.value;
    var kept, seen := FiltrarLinks(l.links, r.seen);
    if |kept| == 0 {
      r' := r.(seen := seen, last := Some(l.body), ended := true);
      return;
    }
    var s;
    s, count' := ScrapePage(kept, run, store, r.offered, count);
    r' := RunState(seen, Some(l.body), s.offered, s.stopped, s.stopped);
  }

  /**
   * `scrape`: the listing pages one after another until a failed request, a repeated
   * body, a page without new article links, an old article, or the end of the answered
   * pages. `count` is `noticias_guardadas`: every article read is offered to the database.
   */
  method Scrape(pages: seq<Option<Listing>>, run: Run, store: Store) returns (count: nat, offered: seq<Article>, stopped: bool)
    ensures var r := Crawled(pages, |pages|, run); offered == r.offered && stopped == r.stopped
    ensures count == Accepted(store, offered)
  {
    var r := RunState({}, None, [], false, false);
    count := 0;
    var p := 0;
    while p < |pages| && !r.ended
      invariant p <= |pages|
      invariant r == Crawled(pages, p, run)
      invariant count == Accepted(store, r.offered)
    {
      r, count := ScrapeRound(pages[p], run, store, r, count);
      p := p + 1;
    }
    if r.ended {
      EndedStays(pages, p, |pages|, u => KindOf(u, run));
    }
    offered, stopped := r.offered, r.stopped;
  }

  /** Every article the scraper offers is dated, within the limit and from this site. */
  lemma OffersSound(pages: seq<Option<Listing>>, run: Run)
    ensures SoundOffers(Crawled(pages, |pages|, run).offered, a => Acceptable(a, run.limit))
  {
    var kind: Judge := u => KindOf(u, run);
    assert TakesOnly(kind, a => Acceptable(a, run.limit));
    PagesAllSound(pages, |pages|, kind, a => Acceptable(a, run.limit));
  }

  /** Without a limit the scraper never ends on an old article. */
  lemma NoLimitNeverStops(pages: seq<Option<Listing>>, run: Run)
    requires run.limit.None?
    ensures !Crawled(pages, |pages|, run).stopped
  {
    var kind: Judge := u => KindOf(u, run);
    StopsOnFirstOld(pages, |pages|, kind);
    forall p | 0 <= p < |pages|
      ensures !PageHasOld(pages, p, kind)
    {
    }
  }

  /** A database that accepts every insert counts every article offered. */
  lemma EveryOfferCounted(store: Store, offered: seq<Article>)
    requires forall prior, a :: store(prior, a)
    ensures Accepted(store, offered) == |offered|
  {
    AcceptedAll(store, offered);
  }
}

/**
 * The Informate Salta crawler: the first listing page is the police category itself, the
 * later ones come from the site's paging endpoint. Each listing article with a link is
 * taken once per run; its date is the "D/M/Y" text of the listing (today when missing or
 * unreadable), and the first one dated before the limit ends the crawl.
 *
 * A listing page is the sequence of its `article.post.post__noticia` elements, in page
 * order; `pages[p]` is the answer to `PageRequest(p + 1)`. The sequence ends where a
 * listing request fails, is redirected away, or answers with a blank body: the crawl stops
 * there in all three cases without reading anything.
 */
module InformateSalta {
  import opened Wrappers
  import opened Text
  import opened Seqs
  import opened Dates
  import opened Crawl
  import opened Walks

  const BaseUrl: string := "https://informatesalta.com.ar"
  const PolicialesUrl: string := "https://informatesalta.com.ar/categoria/13/policiales"
  const AjaxUrl: string := "https://informatesalta.com.ar/default/listar_contenido"
  const CategoryId: int := 13
  const MediaName: string := "informate_salta"

  /** Words that mark a paragraph as navigation or advertising in the fallback. */
  const FallbackKeywords: seq<string> := ["sesión", "notificaciones", "dólar", "temas", "publicidad", "newsletter"]

  /** The selectors `_extract_content` tries in turn for the article body. */
  const ContentSelectors: seq<string> := ["main", ".main", "article", ".post__contenido", ".contenido", ".article-content"]

  /** A listing request: a plain GET, or a GET to the paging endpoint with its query parameters. */
  datatype Request = Get(url: string) | PagedGet(url: string, categoria: int, p: int)

  /** The request for listing page `pagina`: the category page first, the paging endpoint after it. */
  function PageRequest(pagina: int): (r: Request)
  {
    if pagina == 1 then Get(PolicialesUrl) else PagedGet(AjaxUrl, CategoryId, pagina)
  }

  /** Only the first page is fetched from the category URL; each later page asks for its own number. */
  lemma PageRequestsDistinct(a: int, b: int)
    requires a != b
    ensures PageRequest(a) != PageRequest(b)
    ensures PageRequest(a).Get? <==> a == 1
    ensures PageRequest(a).PagedGet? ==> PageRequest(a).p == a && PageRequest(a).categoria == CategoryId
  {
  }

  // ---------------------------------------------------------------------------------------
  // The listing date
  // ---------------------------------------------------------------------------------------

  /**
   * `day, month, year = map(int, text.split('/'))` followed by `datetime.date(year, month, day)`:
   * `None` wherever that raises ValueError (not exactly three pieces, a piece that is not a
   * number, or a date that does not exist) and where it raises OverflowError, which
   * `DateOverflows` tells apart.
   */
  function SlashDate(text: string): (r: Option<Date>)
    ensures r.Some? ==> Valid(r.value)
    ensures |Split(text, '/')| != 3 ==> r.None?
  {
    var parts := Split(text, '/');
    if |parts| != 3 then None
    else
      var d := ParseInt(parts[0]);
      var m := ParseInt(parts[1]);
      var y := ParseInt(parts[2]);
      if d.None? || m.None? || y.None? then None
      else MakeDate(y.value, m.value, d.value)
  }

  /** The range of a C `int`, to which `datetime.date` converts each of its arguments. */
  predicate InCInt(n: int)
  {
    -0x8000_0000 <= n < 0x8000_0000
  }

  /**
   * Whether the stripped `post__fecha` text splits into three integers one of which does not
   * fit a C `int`: `datetime.date` then raises OverflowError, which the `except ValueError`
   * does not catch, so the item is dropped by the per-article `except Exception`.
   */
  predicate DateOverflows(fecha: Option<string>)
  {
    && fecha.Some?
    && var parts := Split(Strip(fecha.value), '/');
    && |parts| == 3
    && ParseInt(parts[0]).Some? && ParseInt(parts[1]).Some? && ParseInt(parts[2]).Some?
    && !(InCInt(ParseInt(parts[0]).value) && InCInt(ParseInt(parts[1]).value) && InCInt(ParseInt(parts[2]).value))
  }

  /**
   * The date of a listing article whose date does not overflow: the stripped `post__fecha`
   * text read as D/M/Y, and `today` when the element is missing or its text cannot be read
   * as a date.
   */
  function ListingDate(fecha: Option<string>, today: Date): (d: Date)
    ensures fecha.None? ==> d == today
    ensures d == today || (fecha.Some? && SlashDate(Strip(fecha.value)) == Some(d))
  {
    if fecha.None? then today
    else
      var parsed := SlashDate(Strip(fecha.value));
      if parsed.Some? then parsed.value else today
  }

  /** Three numbers written with '/' between them read back as the date they name, if it exists. */
  lemma SlashReads(day: nat, month: nat, year: nat, dw: nat, mw: nat, yw: nat)
    ensures SlashDate(SlashText(day, month, year, dw, mw, yw)) == MakeDate(year, month, day)
    ensures Strip(SlashText(day, month, year, dw, mw, yw)) == SlashText(day, month, year, dw, mw, yw)
  {
    var dd, mm, yy := PadNat(day, dw), PadNat(month, mw), PadNat(year, yw);
    SlashTextReads(dd, mm, yy);
  }

  /** Day, month and year padded to the given widths, with '/' between them. */
  function SlashText(day: nat, month: nat, year: nat, dw: nat, mw: nat, yw: nat): string
  {
    PadNat(day, dw) + "/" + PadNat(month, mw) + "/" + PadNat(year, yw)
  }

  /** Three runs of digits with '/' between them read as the date their values name. */
  lemma SlashTextReads(dd: string, mm: string, yy: string)
    requires |dd| >= 1 && |mm| >= 1 && |yy| >= 1 && AllDigits(dd) && AllDigits(mm) && AllDigits(yy)
    ensures SlashDate(dd + "/" + mm + "/" + yy) == MakeDate(DigitsValue(yy), DigitsValue(mm), DigitsValue(dd))
    ensures Strip(dd + "/" + mm + "/" + yy) == dd + "/" + mm + "/" + yy
  {
    SlashPieces(dd, mm, yy);
    SlashDateFromPieces(dd + "/" + mm + "/" + yy, dd, mm, yy);
    DigitEndsStripped(dd, mm, yy);
  }

  /** The date read from text whose '/' pieces are three runs of digits. */
  lemma SlashDateFromPieces(text: string, dd: string, mm: string, yy: string)
    requires |dd| >= 1 && |mm| >= 1 && |yy| >= 1 && AllDigits(dd) && AllDigits(mm) && AllDigits(yy)
    requires Split(text, '/') == [dd, mm, yy]
    ensures SlashDate(text) == MakeDate(DigitsValue(yy), DigitsValue(mm), DigitsValue(dd))
  {
    DigitsParse(dd);
    DigitsParse(mm);
    DigitsParse(yy);
  }

  /** A date printed as DD/MM/YYYY reads back as that date. */
  lemma SlashDateRoundTrip(d: Date, today: Date)
    requires Valid(d)
    ensures SlashDate(SlashFormat(d)) == Some(d)
    ensures ListingDate(Some(SlashFormat(d)), today) == d
  {
    SlashReads(d.day, d.month, d.year, 2, 2, 4);
  }

  /** Numbers within a C `int` that name no date (a 31st of April, a month 13) give today. */
  lemma NonexistentDateIsToday(day: nat, month: nat, year: nat, today: Date)
    requires !Valid(Date(year, month, day))
    requires day < 0x8000_0000 && month < 0x8000_0000 && year < 0x8000_0000
    ensures !DateOverflows(Some(PadNat(day, 2) + "/" + PadNat(month, 2) + "/" + PadNat(year, 4)))
    ensures ListingDate(Some(PadNat(day, 2) + "/" + PadNat(month, 2) + "/" + PadNat(year, 4)), today) == today
  {
    InRangeNoOverflow(day, month, year);
    SlashReads(day, month, year, 2, 2, 4);
  }

  /** Padded numbers that all fit a C `int` do not overflow `datetime.date`. */
  lemma InRangeNoOverflow(day: nat, month: nat, year: nat)
    requires day < 0x8000_0000 && month < 0x8000_0000 && year < 0x8000_0000
    ensures !DateOverflows(Some(PadNat(day, 2) + "/" + PadNat(month, 2) + "/" + PadNat(year, 4)))
  {
    SlashParts(PadNat(day, 2), PadNat(month, 2), PadNat(year, 4));
  }

  /** The pieces `split('/')` and `int` find in three runs of digits with '/' between them. */
  lemma SlashParts(dd: string, mm: string, yy: string)
    requires |dd| >= 1 && |mm| >= 1 && |yy| >= 1 && AllDigits(dd) && AllDigits(mm) && AllDigits(yy)
    ensures Split(Strip(dd + "/" + mm + "/" + yy), '/') == [dd, mm, yy]
    ensures ParseInt(dd) == Some(DigitsValue(dd) as int) && ParseInt(mm) == Some(DigitsValue(mm) as int)
    ensures ParseInt(yy) == Some(DigitsValue(yy) as int)
  {
    DigitEndsStripped(dd, mm, yy);
    SlashPieces(dd, mm, yy);
    DigitsParse(dd);
    DigitsParse(mm);
    DigitsParse(yy);
  }

  /**
   * A year, month or day too large for a C `int` makes `datetime.date` raise OverflowError:
   * the item is skipped, however old, and offers nothing.
   */
  lemma OverflowSkips(item: Item, day: nat, month: nat, year: nat, limit: Option<Date>, today: Date)
    requires item.fecha == Some(PadNat(day, 2) + "/" + PadNat(month, 2) + "/" + PadNat(year, 4))
    requires day >= 0x8000_0000 || month >= 0x8000_0000 || year >= 0x8000_0000
    ensures DateOverflows(item.fecha)
    ensures VisitOf(item, limit, today).verdict.Skip? && Offer(item, today).None?
  {
    OutOfRangeOverflows(day, month, year);
  }

  /** Padded numbers one of which does not fit a C `int` overflow `datetime.date`. */
  lemma OutOfRangeOverflows(day: nat, month: nat, year: nat)
    requires day >= 0x8000_0000 || month >= 0x8000_0000 || year >= 0x8000_0000
    ensures DateOverflows(Some(PadNat(day, 2) + "/" + PadNat(month, 2) + "/" + PadNat(year, 4)))
  {
    SlashParts(PadNat(day, 2), PadNat(month, 2), PadNat(year, 4));
  }

  /** Text that is not three '/'-separated pieces, or no date element at all, gives today. */
  lemma UnreadableDateIsToday(fecha: Option<string>, today: Date)
    requires fecha.None? || |Split(Strip(fecha.value), '/')| != 3
    ensures ListingDate(fecha, today) == today
  {
  }

  // ---------------------------------------------------------------------------------------
  // The listing article
  // ---------------------------------------------------------------------------------------

  /**
   * One listing article: the absolute URL of its `a.post__imagen` (`None` without the link
   * or its `href`), the text of its `h2.post__titulo`, the text of its `span.post__fecha`,
   * and the detail page (`None` when fetching it raises).
   */
  datatype Item = Item(url: Option<string>, titulo: Option<string>, fecha: Option<string>, detail: Option<SelectorPage>)

  /** The stripped title, when the article has a non-empty one. */
  function Title(item: Item): (t: Option<string>)
    ensures t.Some? ==> t.value != "" && item.titulo.Some? && t.value == Strip(item.titulo.value)
    ensures t.None? ==> item.titulo.None? || Strip(item.titulo.value) == ""
  {
    if item.titulo.Some? && Strip(item.titulo.value) != "" then Some(Strip(item.titulo.value)) else None
  }

  /** The article an item yields once it is past the seen and cutoff tests, if any. */
  function Offer(item: Item, today: Date): (r: Option<Article>)
    ensures r.Some? <==> item.url.Some? && Title(item).Some? && !DateOverflows(item.fecha) && item.detail.Some?
    ensures r.Some? ==> r.value.url == item.url.value && r.value.titulo == Title(item).value
    ensures r.Some? ==> r.value.fecha == Some(ListingDate(item.fecha, today)) && r.value.media == MediaName
  {
    if item.url.None? || Title(item).None? || DateOverflows(item.fecha) || item.detail.None? then None
    else
      var c := SelectorContent(FallbackKeywords, item.detail.value);
      Some(Article(Title(item).value, c.0, c.1, Some(ListingDate(item.fecha, today)), item.url.value, MediaName))
  }

  /**
   * A titled item dated before the limit: the one that ends the crawl (an untitled one, or
   * one whose date overflows, is skipped first).
   */
  predicate Old(item: Item, limit: Option<Date>, today: Date)
  {
    Title(item).Some? && !DateOverflows(item.fecha) && PastLimit(ListingDate(item.fecha, today), limit)
  }

  /** The walk's view of a linked item. */
  function VisitOf(item: Item, limit: Option<Date>, today: Date): (v: Visit)
    ensures item.url.Some? ==> v.url == item.url.value
    ensures v.verdict.Stop? <==> Old(item, limit, today)
    ensures v.verdict.Take? ==> Offer(item, today) == Some(v.verdict.article) && WithinLimit(v.verdict.article, limit)
    ensures v.verdict.Skip? ==> Offer(item, today).None? && !Old(item, limit, today)
  {
    var url := if item.url.Some? then item.url.value else "";
    if Old(item, limit, today) then Visit(url, Stop)
    else if Offer(item, today).None? then Visit(url, Skip)
    else Visit(url, Take(Offer(item, today).value))
  }

  /** The items that have a link, in order: the others are passed over before the seen test. */
  function Linked(items: seq<Item>): (links: seq<Item>)
    ensures |links| <= |items|
    decreases |items|
  {
    if |items| == 0 then []
    else
      var last := items[|items| - 1];
      Linked(items[..|items| - 1]) + (if last.url.Some? then [last] else [])
  }

  /** Every linked item is an item with a link, and every item with a link is among them. */
  lemma {:induction false} LinkedExactly(items: seq<Item>, x: Item)
    ensures x in Linked(items) <==> x in items && x.url.Some?
    decreases |items|
  {
    if |items| > 0 {
      var init := items[..|items| - 1];
      LinkedExactly(init, x);
      assert items == init + [items[|items| - 1]];
    }
  }

  lemma {:induction false} LinkedAppend(a: seq<Item>, b: seq<Item>)
    ensures Linked(a + b) == Linked(a) + Linked(b)
    decreases |b|
  {
    if |b| == 0 {
      assert a + b == a;
    } else {
      var init := b[..|b| - 1];
      assert (a + b)[..|a + b| - 1] == a + init;
      assert (a + b)[|a + b| - 1] == b[|b| - 1];
      LinkedAppend(a, init);
    }
  }

  /** The walk's view of each linked item, in order. */
  function Visits(links: seq<Item>, limit: Option<Date>, today: Date): (vs: seq<Visit>)
    ensures |vs| == |links|
    decreases |links|
  {
    if |links| == 0 then [] else Visits(links[..|links| - 1], limit, today) + [VisitOf(links[|links| - 1], limit, today)]
  }

  lemma {:induction false} VisitsAt(links: seq<Item>, limit: Option<Date>, today: Date, k: int)
    requires 0 <= k < |links|
    ensures Visits(links, limit, today)[k] == VisitOf(links[k], limit, today)
    decreases |links|
  {
    if k < |links| - 1 {
      VisitsAt(links[..|links| - 1], limit, today, k);
    }
  }

  lemma {:induction false} VisitsAppend(a: seq<Item>, b: seq<Item>, limit: Option<Date>, today: Date)
    ensures Visits(a + b, limit, today) == Visits(a, limit, today) + Visits(b, limit, today)
    decreases |b|
  {
    if |b| == 0 {
      assert a + b == a;
    } else {
      var init := b[..|b| - 1];
      assert (a + b)[..|a + b| - 1] == a + init;
      assert (a + b)[|a + b| - 1] == b[|b| - 1];
      VisitsAppend(a, init, limit, today);
    }
  }

  /** The walk's view of the items of a run, in order. */
  function View(items: seq<Item>, limit: Option<Date>, today: Date): (vs: seq<Visit>)
  {
    Visits(Linked(items), limit, today)
  }

  /** The view of two runs of items is the view of each in turn. */
  lemma ViewAppend(a: seq<Item>, b: seq<Item>, limit: Option<Date>, today: Date)
    ensures View(a + b, limit, today) == View(a, limit, today) + View(b, limit, today)
  {
    LinkedAppend(a, b);
    VisitsAppend(Linked(a), Linked(b), limit, today);
  }

  /** One more item adds its visit when it has a link, and nothing otherwise. */
  lemma ViewStep(items: seq<Item>, i: int, limit: Option<Date>, today: Date)
    requires 0 <= i < |items|
    ensures items[i].url.None? ==> View(items[..i + 1], limit, today) == View(items[..i], limit, today)
    ensures items[i].url.Some? ==>
      View(items[..i + 1], limit, today) == View(items[..i], limit, today) + [VisitOf(items[i], limit, today)]
  {
    assert items[..i + 1][..i] == items[..i];
    var links := Linked(items[..i]);
    if items[i].url.Some? {
      assert (links + [items[i]])[..|links|] == links;
    } else {
      assert Linked(items[..i + 1]) == links;
    }
  }

  // ---------------------------------------------------------------------------------------
  // The crawl
  // ---------------------------------------------------------------------------------------

  /**
   * `scrape`: reads listing pages in order and walks their articles with a seen set. An
   * article without a link is passed over; a new URL is marked seen, then skipped without
   * a title, ends the crawl when its date is before the limit, and is otherwise offered to
   * the store when its detail page can be fetched. An empty listing page ends the crawl,
   * and so does a failed one.
   *
   * `read` is the number of listing pages fetched, and `reachedLimit` says that an old
   * article stopped the crawl.
   */
  method Scrape(pages: seq<seq<Item>>, limit: Option<Date>, today: Date, store: Store)
    returns (count: nat, offered: seq<Article>, read: nat, reachedLimit: bool)
    ensures read <= |pages| && (|pages| > 0 ==> read > 0)
    ensures Filled(pages, read - 1)
    ensures read < |pages| ==> reachedLimit || |pages[read - 1]| == 0
    ensures var w := WalkAll(View(Flatten(pages[..read]), limit, today), true);
      offered == w.offered && reachedLimit == w.stopped
    ensures count == Accepted(store, offered)
  {
    count, offered, read, reachedLimit := 0, [], 0, false;
    var seen: set<string> := {};
    while read < |pages| && !reachedLimit
      invariant read <= |pages| && (reachedLimit ==> read > 0)
      invariant Filled(pages, read)
      invariant Walk(seen, offered, reachedLimit) == WalkAll(View(Flatten(pages[..read]), limit, today), true)
      invariant count == Accepted(store, offered)
      decreases |pages| - read
    {
      var items := pages[read];
      ghost var before := View(Flatten(pages[..read]), limit, today);
      FlattenStep(pages, read);
      ViewAppend(Flatten(pages[..read]), items, limit, today);
      read := read + 1;
      if |items| == 0 {
        assert Linked(items) == [];
        AppendNothing(before, View(items, limit, today));
        break;
      }
      FilledStep(pages, read - 1);
      seen, offered, count, reachedLimit := ScrapePage(items, limit, today, store, seen, offered, count, before);
    }
  }

  /** The articles of one listing page, in order, until one of them is old. */
  method ScrapePage(items: seq<Item>, limit: Option<Date>, today: Date, store: Store, seen: set<string>,
                    offered: seq<Article>, count: nat, ghost before: seq<Visit>)
    returns (seen': set<string>, offered': seq<Article>, count': nat, reachedLimit: bool)
    requires Walk(seen, offered, false) == WalkAll(before, true) && count == Accepted(store, offered)
    ensures Walk(seen', offered', reachedLimit) == WalkAll(before + View(items, limit, today), true)
    ensures count' == Accepted(store, offered')
  {
    seen', offered', count', reachedLimit := seen, offered, count, false;
    var i := 0;
    PageStart(before, items, limit, today);
    while i < |items| && !reachedLimit
      invariant 0 <= i <= |items|
      invariant Walk(seen', offered', reachedLimit) == WalkAll(before + View(items[..i], limit, today), true)
      invariant count' == Accepted(store, offered')
      decreases |items| - i
    {
      var item := items[i];
      ghost var v := VisitOf(item, limit, today);
      PageStep(before, items, i, limit, today);
      if item.url.Some? {
        WalkAllStep(before + View(items[..i], limit, today), v, true);
        seen', offered', count', reachedLimit := ScrapeItem(item, limit, today, store, seen', offered', count', v);
      }
      i := i + 1;
    }
    if i < |items| {
      WalkStoppedStays(before + View(items[..i], limit, today), View(items[i..], limit, today), true);
      PageRest(before, items, i, limit, today);
    } else {
      assert items[..i] == items;
    }
  }

  lemma PageStart(before: seq<Visit>, items: seq<Item>, limit: Option<Date>, today: Date)
    ensures before + View(items[..0], limit, today) == before
  {
    assert items[..0] == [] && Linked([]) == [];
  }

  lemma PageStep(before: seq<Visit>, items: seq<Item>, i: int, limit: Option<Date>, today: Date)
    requires 0 <= i < |items|
    ensures items[i].url.None? ==> before + View(items[..i + 1], limit, today) == before + View(items[..i], limit, today)
    ensures items[i].url.Some? ==>
      before + View(items[..i + 1], limit, today) == (before + View(items[..i], limit, today)) + [VisitOf(items[i], limit, today)]
  {
    ViewStep(items, i, limit, today);
  }

  lemma PageRest(before: seq<Visit>, items: seq<Item>, i: int, limit: Option<Date>, today: Date)
    requires 0 <= i <= |items|
    ensures (before + View(items[..i], limit, today)) + View(items[i..], limit, today) == before + View(items, limit, today)
  {
    var a, b := View(items[..i], limit, today), View(items[i..], limit, today);
    assert a + b == View(items, limit, today) by {
      ViewAppend(items[..i], items[i..], limit, today);
      assert items[..i] + items[i..] == items;
    }
    assert (before + a) + b == before + (a + b);
  }

  /**
   * One turn of the per-article loop for an article with a link: a seen URL is passed
   * over; a new one is marked seen, then skipped without a title or when its date overflows
   * a C `int`, reported old when its date is before the limit, skipped when the detail page
   * cannot be fetched, and
   * otherwise extracted and offered to the store.
   */
  method ScrapeItem(item: Item, limit: Option<Date>, today: Date, store: Store, seen: set<string>,
                    offered: seq<Article>, count: nat, ghost v: Visit)
    returns (seen': set<string>, offered': seq<Article>, count': nat, isOld: bool)
    requires item.url.Some? && v == VisitOf(item, limit, today) && count == Accepted(store, offered)
    ensures Walk(seen', offered', isOld) == WalkStep(Walk(seen, offered, false), v, true)
    ensures count' == Accepted(store, offered')
  {
    seen', offered', count', isOld := seen, offered, count, false;
    var url := item.url.value;
    if url in seen {
      return;
    }
    seen' := seen + {url};
    if item.titulo.None? {
      return;
    }
    var titulo := Strip(item.titulo.value);
    if titulo == "" {
      return;
    }
    if DateOverflows(item.fecha) {
      return;
    }
    var date := ListingDate(item.fecha, today);
    if PastLimit(date, limit) {
      isOld := true;
      return;
    }
    if item.detail.None? {
      return;
    }
    var contenido, crudo := ExtractSelected(FallbackKeywords, item.detail.value);
    var article := Article(titulo, contenido, crudo, Some(date), url, MediaName);
    assert Offer(item, today) == Some(article);
    AcceptedStep(store, offered, article);
    if store(offered, article) {
      count' := count + 1;
    }
    offered' := offered + [article];
  }

  // ---------------------------------------------------------------------------------------
  // What the crawl guarantees
  // ---------------------------------------------------------------------------------------

  /**
   * Every article offered comes from a listing article with a link, is dated no earlier
   * than the limit, and is offered once per URL.
   */
  lemma OffersSound(items: seq<Item>, limit: Option<Date>, today: Date)
    ensures var offered := WalkAll(View(items, limit, today), true).offered;
      && (forall a | a in offered :: WithinLimit(a, limit) && exists x | x in items :: Offer(x, today) == Some(a))
      && (forall i, j | 0 <= i < j < |offered| :: offered[i].url != offered[j].url)
  {
    var links := Linked(items);
    var vs := Visits(links, limit, today);
    var offered := WalkAll(vs, true).offered;
    forall a | a in offered
      ensures WithinLimit(a, limit) && exists x | x in items :: Offer(x, today) == Some(a)
    {
      WalkSound(vs, true, a);
      var k :| 0 <= k < |vs| && Judged(vs, k, true) && vs[k].verdict == Take(a);
      VisitsAt(links, limit, today, k);
      LinkedExactly(items, links[k]);
    }
    forall k | 0 <= k < |vs|
      ensures vs[k].verdict.Take? ==> vs[k].verdict.article.url == vs[k].url
    {
      VisitsAt(links, limit, today, k);
    }
    WalkDistinct(vs);
  }

  /** The crawl stops exactly when a linked article it judges is titled and dated before the limit. */
  lemma StopsAtOldItem(items: seq<Item>, limit: Option<Date>, today: Date)
    ensures var links := Linked(items);
      var vs := Visits(links, limit, today);
      WalkAll(vs, true).stopped <==> exists j | 0 <= j < |vs| :: Judged(vs, j, true) && Old(links[j], limit, today)
  {
    var links := Linked(items);
    var vs := Visits(links, limit, today);
    forall j | 0 <= j < |vs|
      ensures vs[j].verdict.Stop? <==> Old(links[j], limit, today)
    {
      VisitsAt(links, limit, today, j);
    }
    WalkStopsAtOld(vs, true);
  }

  /** Every linked article judged before the stop that yields an article has it offered. */
  lemma JudgedArticlesOffered(items: seq<Item>, limit: Option<Date>, today: Date, k: int)
    requires 0 <= k < |Linked(items)|
    ensures var links := Linked(items);
      var vs := Visits(links, limit, today);
      Judged(vs, k, true) && Offer(links[k], today).Some? && !Old(links[k], limit, today) ==>
        Offer(links[k], today).value in WalkAll(vs, true).offered
  {
    var links := Linked(items);
    var vs := Visits(links, limit, today);
    if Judged(vs, k, true) && Offer(links[k], today).Some? && !Old(links[k], limit, today) {
      VisitsAt(links, limit, today, k);
      WalkComplete(vs, true, k);
    }
  }

  /**
   * An article without a date element is dated today, so when the limit is later than
   * today the first titled new article ends the crawl.
   */
  lemma UndatedIsToday(item: Item, limit: Date, today: Date)
    requires item.fecha.None? && Title(item).Some? && Before(today, limit)
    ensures Old(item, Some(limit), today)
  {
  }
}

/**
 * The El Tribuno (Jujuy) crawler: it pages through the police section and, for each
 * listing item, reads the date from the first three '-' fields of the link's last path
 * segment. It stores every item that has a heading and a detail page, until an item dated
 * before the limit shows up. It keeps no seen set and does no existence check.
 *
 * A listing page is the sequence of its items (the `<article>` elements, or the
 * `.article-item` elements when there is no `<article>`); `pages[p]` is the answer to
 * `PageUrl(p + 1)`, and the sequence ends where a listing request fails.
 */
module ElTribuno {
  import opened Wrappers
  import opened Text
  import opened Seqs
  import opened Dates
  import opened Crawl
  import opened Walks

  const BaseUrl: string := "https://eltribunodejujuy.com/seccion/policiales"
  const MediaName: string := "eltribuno"

  /** `url_pagina`: the section itself for the first page, the section plus `/N` after it. */
  function PageUrl(pagina: int): (u: string)
  {
    if pagina > 1 then NumberedUrl(BaseUrl + "/", pagina) else BaseUrl
  }

  /** Each page number has its own listing URL. */
  lemma PageUrlsDistinct(a: int, b: int)
    requires 1 <= a && 1 <= b && a != b
    ensures PageUrl(a) != PageUrl(b)
  {
    if a > 1 && b > 1 {
      NumberedUrlsDistinct(BaseUrl + "/", a, b);
    } else {
      var n := if a > 1 then a else b;
      assert |IntToStr(n)| >= 1;
      assert |PageUrl(n)| > |BaseUrl|;
    }
  }

  // ---------------------------------------------------------------------------------------
  // The date in the link
  // ---------------------------------------------------------------------------------------

  /**
   * The date of an item: the first three '-' fields of the URL's last segment read with
   * `int` as year, month and day. `None` when there are fewer than three fields, and also
   * when a field is not a number or the date does not exist (the ValueError is caught by
   * the per-item handler, which skips the item either way).
   */
  function SegmentDate(url: string): (d: Option<Date>)
    ensures d.Some? ==> Valid(d.value)
    ensures |Split(LastSegment(url), '-')| < 3 ==> d.None?
  {
    var parts := Split(LastSegment(url), '-');
    if |parts| < 3 then None
    else
      var y := ParseInt(parts[0]);
      var m := ParseInt(parts[1]);
      var dd := ParseInt(parts[2]);
      if y.None? || m.None? || dd.None? then None
      else MakeDate(y.value, m.value, dd.value)
  }

  /** `n-` in decimal, then the rest of the segment. */
  function Field(n: nat, rest: string): string
  {
    NatToStr(n) + "-" + rest
  }

  /**
   * Reading the date back from a link whose last segment starts with the year, month and
   * day of `d` gives `d`, whatever the rest of the segment and whatever comes before it.
   */
  lemma SegmentDateRoundTrip(prefix: string, d: Date, rest: string)
    requires Valid(d) && '/' !in rest
    ensures SegmentDate(prefix + "/" + Field(d.year, Field(d.month, Field(d.day, rest)))) == Some(d)
  {
    var seg := Field(d.year, Field(d.month, Field(d.day, rest)));
    DigitsHaveNo(NatToStr(d.year), '/');
    DigitsHaveNo(NatToStr(d.month), '/');
    DigitsHaveNo(NatToStr(d.day), '/');
    LastSegmentOf(prefix, seg);
    var parts := SegmentFields(d.year, d.month, d.day, rest);
    NatToStrParses(d.year);
    NatToStrParses(d.month);
    NatToStrParses(d.day);
  }

  /** The first three '-' fields of the segment are the three numbers as written. */
  lemma SegmentFields(y: nat, m: nat, d: nat, rest: string) returns (parts: seq<string>)
    ensures parts == Split(Field(y, Field(m, Field(d, rest))), '-')
    ensures |parts| >= 3 && parts[0] == NatToStr(y) && parts[1] == NatToStr(m) && parts[2] == NatToStr(d)
  {
    DigitsHaveNo(NatToStr(y), '-');
    DigitsHaveNo(NatToStr(m), '-');
    DigitsHaveNo(NatToStr(d), '-');
    SplitField(NatToStr(y), '-', Field(m, Field(d, rest)));
    SplitField(NatToStr(m), '-', Field(d, rest));
    SplitField(NatToStr(d), '-', rest);
    parts := Split(Field(y, Field(m, Field(d, rest))), '-');
  }

  // ---------------------------------------------------------------------------------------
  // The listing item and the detail page
  // ---------------------------------------------------------------------------------------

  /**
   * One listing item: the URL its first `<a>` points to (`None` when the item has no link
   * or the link no `href`), the text of its first `h2`, `h3` or `.title` element if any,
   * and the `<article>` of the detail page (`Some(None)` when the page has none, `None`
   * when fetching it raises).
   */
  datatype Item = Item(url: Option<string>, heading: Option<string>, detail: Option<Option<Container>>)

  /**
   * `_extract_content`: every paragraph of the first `<article>`, stripped, joined by blank
   * lines (empty paragraphs included), with the article's HTML; two empty strings without one.
   */
  function Content(article: Option<Container>): (r: (string, string))
    ensures article.None? ==> r == ("", "")
    ensures article.Some? ==> r.1 == article.value.html
  {
    if article.Some? then (Join(ParagraphSep, Map(article.value.paragraphs, Strip)), article.value.html)
    else ("", "")
  }

  /** Each paragraph of the article appears, stripped, in the content. */
  lemma ContentHasEveryParagraph(c: Container, k: int)
    requires 0 <= k < |c.paragraphs|
    ensures Contains(Content(Some(c)).0, Strip(c.paragraphs[k]))
  {
    var texts := Map(c.paragraphs, Strip);
    JoinContainsParts(ParagraphSep, texts, k);
  }

  /** Empty paragraphs are kept: the content has one separator fewer than the article has paragraphs. */
  lemma ContentKeepsEmptyParagraphs(c: Container)
    requires |c.paragraphs| > 0 && forall k | 0 <= k < |c.paragraphs| :: Strip(c.paragraphs[k]) == ""
    ensures |Content(Some(c)).0| == 2 * (|c.paragraphs| - 1)
  {
    EmptyJoinLength(Map(c.paragraphs, Strip));
  }

  lemma {:induction false} EmptyJoinLength(parts: seq<string>)
    requires |parts| > 0 && forall k | 0 <= k < |parts| :: parts[k] == ""
    ensures |Join(ParagraphSep, parts)| == 2 * (|parts| - 1)
    decreases |parts|
  {
    if |parts| > 1 {
      EmptyJoinLength(parts[1..]);
    }
  }

  /** The article an item yields once it is past the cutoff test, if any. */
  function Offer(item: Item): (r: Option<Article>)
    ensures r.Some? ==> item.url.Some? && r.value.url == item.url.value && r.value.media == MediaName
    ensures r.Some? ==> r.value.fecha == SegmentDate(item.url.value) && r.value.fecha.Some?
    ensures r.Some? <==> item.url.Some? && SegmentDate(item.url.value).Some? && item.heading.Some? && item.detail.Some?
  {
    if item.url.None? || item.heading.None? || item.detail.None? then None
    else
      var date := SegmentDate(item.url.value);
      if date.None? then None
      else
        var c := Content(item.detail.value);
        Some(Article(Strip(item.heading.value), c.0, c.1, date, item.url.value, MediaName))
  }

  /** An item dated before the limit: the one that ends the crawl. */
  predicate Old(item: Item, limit: Option<Date>)
  {
    item.url.Some? && SegmentDate(item.url.value).Some? && PastLimit(SegmentDate(item.url.value).value, limit)
  }

  /** The walk's view of an item: an old item stops it, an item with an article is taken, any other is skipped. */
  function VisitOf(item: Item, limit: Option<Date>): (v: Visit)
    ensures v.verdict.Stop? <==> Old(item, limit)
    ensures v.verdict.Take? ==> Offer(item) == Some(v.verdict.article) && WithinLimit(v.verdict.article, limit)
    ensures v.verdict.Skip? ==> Offer(item).None? && !Old(item, limit)
  {
    var url := if item.url.Some? then item.url.value else "";
    if Old(item, limit) then Visit(url, Stop)
    else if Offer(item).None? then Visit(url, Skip)
    else Visit(url, Take(Offer(item).value))
  }

  /** The walk's view of each item, in order. */
  function Visits(items: seq<Item>, limit: Option<Date>): (vs: seq<Visit>)
    ensures |vs| == |items|
    decreases |items|
  {
    if |items| == 0 then [] else Visits(items[..|items| - 1], limit) + [VisitOf(items[|items| - 1], limit)]
  }

  lemma {:induction false} VisitsAt(items: seq<Item>, limit: Option<Date>, k: int)
    requires 0 <= k < |items|
    ensures Visits(items, limit)[k] == VisitOf(items[k], limit)
    decreases |items|
  {
    if k < |items| - 1 {
      VisitsAt(items[..|items| - 1], limit, k);
    }
  }

  /** The view of two runs of items is the view of each in turn. */
  lemma {:induction false} VisitsAppend(a: seq<Item>, b: seq<Item>, limit: Option<Date>)
    ensures Visits(a + b, limit) == Visits(a, limit) + Visits(b, limit)
    decreases |b|
  {
    if |b| == 0 {
      assert a + b == a;
    } else {
      var init := b[..|b| - 1];
      assert (a + b)[..|a + b| - 1] == a + init;
      assert (a + b)[|a + b| - 1] == b[|b| - 1];
      VisitsAppend(a, init, limit);
    }
  }

  /** `vs` is the walk's view of `items`, one visit per item. */
  predicate JudgedAs(vs: seq<Visit>, items: seq<Item>, limit: Option<Date>)
  {
    |vs| == |items| && forall k | 0 <= k < |items| :: vs[k] == VisitOf(items[k], limit)
  }

  /** The walk's view of each item is its verdict. */
  lemma VisitsPointwise(items: seq<Item>, limit: Option<Date>)
    ensures JudgedAs(Visits(items, limit), items, limit)
  {
    forall k | 0 <= k < |items|
      ensures Visits(items, limit)[k] == VisitOf(items[k], limit)
    {
      VisitsAt(items, limit, k);
    }
  }

  // ---------------------------------------------------------------------------------------
  // The crawl
  // ---------------------------------------------------------------------------------------

  /**
   * `scrape`: reads listing pages in order and judges every item of each. An item without
   * a link or a readable date is skipped, one dated before the limit ends the crawl, and
   * one with a heading and a fetchable detail page is added and committed. An empty listing
   * page ends the crawl, and so does a failed one.
   *
   * `read` is the number of listing pages fetched, and `reachedLimit` says that an old
   * item stopped the crawl.
   */
  method Scrape(pages: seq<seq<Item>>, limit: Option<Date>, store: Store)
    returns (count: nat, offered: seq<Article>, read: nat, reachedLimit: bool)
    ensures read <= |pages| && (|pages| > 0 ==> read > 0)
    ensures Filled(pages, read - 1)
    ensures read < |pages| ==> reachedLimit || |pages[read - 1]| == 0
    ensures var w := WalkAll(Visits(Flatten(pages[..read]), limit), false);
      offered == w.offered && reachedLimit == w.stopped
    ensures count == Accepted(store, offered)
  {
    count, offered, read, reachedLimit := 0, [], 0, false;
    while read < |pages| && !reachedLimit
      invariant read <= |pages| && (reachedLimit ==> read > 0)
      invariant Filled(pages, read)
      invariant var w := WalkAll(Visits(Flatten(pages[..read]), limit), false);
        offered == w.offered && reachedLimit == w.stopped
      invariant count == Accepted(store, offered)
      decreases |pages| - read
    {
      var items := pages[read];
      ghost var before := Visits(Flatten(pages[..read]), limit);
      FlattenStep(pages, read);
      VisitsAppend(Flatten(pages[..read]), items, limit);
      read := read + 1;
      if |items| == 0 {
        AppendNothing(before, Visits(items, limit));
        break;
      }
      FilledStep(pages, read - 1);
      ghost var vs := Visits(items, limit);
      VisitsPointwise(items, limit);
      offered, count, reachedLimit := ScrapePage(items, limit, store, offered, count, before, vs);
    }
  }

  /** The items of one listing page, in order, until one of them is old; `vs` is how the walk sees them. */
  method ScrapePage(items: seq<Item>, limit: Option<Date>, store: Store, offered: seq<Article>, count: nat,
                    ghost before: seq<Visit>, ghost vs: seq<Visit>)
    returns (offered': seq<Article>, count': nat, reachedLimit: bool)
    requires JudgedAs(vs, items, limit)
    requires var w := WalkAll(before, false); offered == w.offered && !w.stopped
    requires count == Accepted(store, offered)
    ensures var w := WalkAll(before + vs, false); offered' == w.offered && reachedLimit == w.stopped
    ensures count' == Accepted(store, offered')
  {
    offered', count', reachedLimit := offered, count, false;
    var i := 0;
    PrefixRest(before, vs, 0);
    assert before + vs[..0] == before;
    while i < |items| && !reachedLimit
      invariant 0 <= i <= |items|
      invariant var w := WalkAll(before + vs[..i], false); offered' == w.offered && reachedLimit == w.stopped
      invariant count' == Accepted(store, offered')
      decreases |items| - i
    {
      PrefixSnoc(before, vs, i);
      WalkAllStep(before + vs[..i], vs[i], false);
      offered', count', reachedLimit := ScrapeItem(items[i], limit, store, offered', count', WalkAll(before + vs[..i], false), vs[i]);
      i := i + 1;
    }
    if i < |items| {
      WalkStoppedStays(before + vs[..i], vs[i..], false);
      PrefixRest(before, vs, i);
    } else {
      assert vs[..i] == vs;
    }
  }

  /**
   * One turn of the per-item loop: an item without a link or a readable date is skipped,
   * one dated before the limit is reported old, one without a heading or a detail page is
   * skipped, and any other is extracted and offered to the store.
   */
  method ScrapeItem(item: Item, limit: Option<Date>, store: Store, offered: seq<Article>, count: nat,
                    ghost w: Walk, ghost v: Visit)
    returns (offered': seq<Article>, count': nat, isOld: bool)
    requires v == VisitOf(item, limit) && w.offered == offered && !w.stopped
    requires count == Accepted(store, offered)
    ensures offered' == WalkStep(w, v, false).offered && isOld == WalkStep(w, v, false).stopped
    ensures count' == Accepted(store, offered')
  {
    offered', count', isOld := offered, count, false;
    if item.url.None? {
      return;
    }
    var url := item.url.value;
    var date := SegmentDate(url);
    if date.None? {
      return;
    }
    if PastLimit(date.value, limit) {
      isOld := true;
      return;
    }
    if item.heading.None? || item.detail.None? {
      return;
    }
    var article := Article(Strip(item.heading.value), Content(item.detail.value).0, Content(item.detail.value).1,
                           date, url, MediaName);
    assert Offer(item) == Some(article);
    AcceptedStep(store, offered, article);
    if store(offered, article) {
      count' := count + 1;
    }
    offered' := offered + [article];
  }

  // ---------------------------------------------------------------------------------------
  // What the crawl guarantees
  // ---------------------------------------------------------------------------------------

  /** Every article offered comes from an item read and is dated no earlier than the limit. */
  lemma OffersSound(items: seq<Item>, limit: Option<Date>, a: Article)
    requires a in WalkAll(Visits(items, limit), false).offered
    ensures WithinLimit(a, limit) && a.fecha.Some?
    ensures exists k | 0 <= k < |items| :: Offer(items[k]) == Some(a)
  {
    var vs := Visits(items, limit);
    WalkSound(vs, false, a);
    var k :| 0 <= k < |vs| && Judged(vs, k, false) && vs[k].verdict == Take(a);
    VisitsAt(items, limit, k);
  }

  /** The crawl stops exactly when some item before it is dated before the limit. */
  lemma StopsAtOldItem(items: seq<Item>, limit: Option<Date>)
    ensures var vs := Visits(items, limit);
      WalkAll(vs, false).stopped <==> exists j | 0 <= j < |items| :: Old(items[j], limit)
  {
    var vs := Visits(items, limit);
    VisitsPointwise(items, limit);
    WalkStopsAtOld(vs, false);
    if exists j | 0 <= j < |items| :: Old(items[j], limit) {
      var j :| 0 <= j < |items| && Old(items[j], limit);
      FirstOld(vs, false, j);
    }
  }

  /**
   * With no seen set, every item before the first old one that yields an article has it
   * offered, at its own position: a URL listed twice is offered twice.
   */
  lemma ItemsBeforeStopOffered(items: seq<Item>, limit: Option<Date>, k: int)
    requires 0 <= k < |items| && Offer(items[k]).Some?
    requires forall j | 0 <= j <= k :: !Old(items[j], limit)
    ensures Offer(items[k]).value in WalkAll(Visits(items, limit), false).offered
  {
    var vs := Visits(items, limit);
    VisitsPointwise(items, limit);
    assert Judged(vs, k, false);
    WalkComplete(vs, false, k);
  }
}

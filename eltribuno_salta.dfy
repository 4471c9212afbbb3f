/**
 * The El Tribuno (Salta) crawler: it pages through the police section, takes the links
 * whose path carries the publication date, and offers each new article to the store
 * until a link dated before the limit shows up.
 *
 * A listing page is the sequence of matching links it shows, in page order; `pages[p]`
 * is the answer to `PageUrl(p + 1)`, and the sequence ends where a listing request fails.
 * The detail page of a link is `None` when fetching it raises.
 */
module ElTribunoSalta {
  import opened Wrappers
  import opened Text
  import opened Seqs
  import opened Dates
  import opened Crawl
  import opened Walks

  const PolicialesUrl: string := "https://www.eltribuno.com/seccion/policiales"
  const MediaName: string := "eltribuno_salta"

  /** Words that mark a paragraph as navigation or advertising in the fallback. */
  const FallbackKeywords: seq<string> := ["sesión", "notificaciones", "dólar", "temas", "publicidad"]

  /** `url_pagina`: the section itself for the first page, the section plus `/N` after it. */
  function PageUrl(pagina: int): (u: string)
  {
    if pagina > 1 then NumberedUrl(PolicialesUrl + "/", pagina) else PolicialesUrl
  }

  /** Each page number has its own listing URL. */
  lemma PageUrlsDistinct(a: int, b: int)
    requires 1 <= a && 1 <= b && a != b
    ensures PageUrl(a) != PageUrl(b)
  {
    if a > 1 && b > 1 {
      NumberedUrlsDistinct(PolicialesUrl + "/", a, b);
    } else {
      var n := if a > 1 then a else b;
      assert |IntToStr(n)| >= 1;
      assert |PageUrl(n)| > |PolicialesUrl|;
    }
  }

  // ---------------------------------------------------------------------------------------
  // The date in the link
  // ---------------------------------------------------------------------------------------

  const Marker: string := "/policiales/"

  /** Where `\d{1,2}-` matched at `i` ends: one or two digits, as many as there are, then '-'. */
  function ShortField(s: string, i: nat): (r: Option<nat>)
    ensures r.Some? ==> i + 2 <= r.value <= i + 3 && r.value <= |s|
    ensures r.Some? ==> AllDigits(s[i..r.value - 1]) && s[r.value - 1] == '-'
  {
    if i < |s| && IsAsciiDigit(s[i]) then
      var j := if i + 1 < |s| && IsAsciiDigit(s[i + 1]) then i + 2 else i + 1;
      if j < |s| && s[j] == '-' then
        assert s[i..j] == if j == i + 2 then [s[i], s[i + 1]] else [s[i]];
        Some(j + 1)
      else None
    else None
  }

  /** Where `n` fields `\d{1,2}-` in a row, matched from `i`, end. */
  function ShortFields(s: string, i: nat, n: nat): (r: Option<nat>)
    ensures r.Some? ==> i <= r.value <= |s| || (n == 0 && r.value == i)
    decreases n
  {
    if n == 0 then Some(i)
    else
      var e := ShortField(s, i);
      if e.None? then None else ShortFields(s, e.value, n - 1)
  }

  /** The year, month and day groups of a date match. */
  datatype DateText = DateText(year: string, month: string, day: string)

  predicate DigitGroups(t: DateText)
  {
    AllDigits(t.year) && AllDigits(t.month) && AllDigits(t.day)
  }

  /** `/policiales/\d{4}-` at `i`. */
  predicate HeadAt(s: string, i: nat)
  {
    i + 17 <= |s| && s[i..i + 12] == Marker && AllDigits(s[i + 12..i + 16]) && s[i + 16] == '-'
  }

  /**
   * `/policiales/(\d{4})-(\d{1,2})-(\d{1,2})-\d{1,2}-\d{1,2}-\d{1,2}-` matched at `i`:
   * the three captured groups.
   */
  function DateMatchAt(s: string, i: nat): (r: Option<DateText>)
    ensures r.Some? ==> DigitGroups(r.value) && OccursAt(s, Marker, i)
  {
    if !HeadAt(s, i) then None
    else
      var m := ShortField(s, i + 17);
      if m.None? then None
      else
        var d := ShortField(s, m.value);
        if d.None? || ShortFields(s, d.value, 3).None? then None
        else Some(DateText(s[i + 12..i + 16], s[i + 17..m.value - 1], s[m.value..d.value - 1]))
  }

  /** `re.search`: the leftmost match at or after `from`. */
  function DateSearch(s: string, from: nat): (r: Option<DateText>)
    ensures r.Some? ==> DigitGroups(r.value)
    decreases |s| - from
  {
    if from > |s| then None
    else if DateMatchAt(s, from).Some? then DateMatchAt(s, from)
    else DateSearch(s, from + 1)
  }

  /**
   * The date of the link: the captured groups as `datetime.date(year, month, day)`;
   * `None` both when the pattern is absent and when the date does not exist (the
   * ValueError is caught by the per-link handler, which skips the link either way).
   */
  function UrlDate(url: string): (d: Option<Date>)
    ensures d.Some? ==> Valid(d.value)
  {
    var t := DateSearch(url, 0);
    if t.None? then None
    else MakeDate(DigitsValue(t.value.year), DigitsValue(t.value.month), DigitsValue(t.value.day))
  }

  /** A URL without the section marker has no date, so its link is skipped. */
  lemma NoMarkerNoDate(url: string)
    requires !Contains(url, Marker)
    ensures UrlDate(url).None?
  {
    NoMarkerNoMatch(url, 0);
  }

  lemma {:induction false} NoMarkerNoMatch(s: string, from: nat)
    requires !Contains(s, Marker)
    ensures DateSearch(s, from).None?
    decreases |s| - from
  {
    if from <= |s| {
      if DateMatchAt(s, from).Some? {
        assert false;
      }
      NoMarkerNoMatch(s, from + 1);
    }
  }

  /** `n-` in decimal, then the rest of the path. */
  function Field(n: nat, rest: string): string
  {
    NatToStr(n) + "-" + rest
  }

  /** The path the site gives an article published on `d` at `h:mi:sec`. */
  function ArticlePath(d: Date, h: nat, mi: nat, sec: nat, slug: string): string
    requires Valid(d)
  {
    Marker + Field(d.year, Field(d.month, Field(d.day, Field(h, Field(mi, Field(sec, slug))))))
  }

  /**
   * Reading the date back from an article path gives the date it was written with,
   * whatever precedes the path (so long as the marker does not already occur there).
   */
  lemma UrlDateRoundTrip(base: string, d: Date, h: nat, mi: nat, sec: nat, slug: string)
    requires Valid(d) && 1000 <= d.year && h < 100 && mi < 100 && sec < 100
    requires !Contains(base + "/policiales", Marker)
    ensures UrlDate(base + ArticlePath(d, h, mi, sec, slug)) == Some(d)
  {
    var s := base + ArticlePath(d, h, mi, sec, slug);
    var b := |base|;
    assert s[b..] == ArticlePath(d, h, mi, sec, slug);
    assert s[..b + 12] == base + Marker;
    forall i | 0 <= i < b
      ensures DateMatchAt(s, i).None?
    {
      NoEarlierMatch(base, s, i);
    }
    DateSearchSkip(s, b);
    DateMatchReads(s, b, d, h, mi, sec, slug);
    NatToStrValue(d.year);
    NatToStrValue(d.month);
    NatToStrValue(d.day);
  }

  /** The marker cannot match inside the part before the path. */
  lemma NoEarlierMatch(base: string, s: string, i: nat)
    requires !Contains(base + "/policiales", Marker)
    requires |base| + 12 <= |s| && s[..|base| + 12] == base + Marker
    requires i < |base|
    ensures DateMatchAt(s, i).None?
  {
    if DateMatchAt(s, i).Some? {
      var t := base + "/policiales";
      assert s[..|base| + 11] == t;
      assert t[i..i + 12] == s[i..i + 12];
      assert OccursAt(t, Marker, i);
      assert false;
    }
  }

  /** The search passes over the positions before `upto`, where nothing matches. */
  lemma {:induction false} DateSearchSkip(s: string, upto: nat)
    requires upto <= |s|
    requires forall i | 0 <= i < upto :: DateMatchAt(s, i).None?
    ensures DateSearch(s, 0) == DateSearch(s, upto)
    decreases upto
  {
    if upto > 0 {
      DateSearchSkip(s, upto - 1);
    }
  }

  /** The match at the start of an article path captures the written year, month and day. */
  lemma DateMatchReads(s: string, b: nat, d: Date, h: nat, mi: nat, sec: nat, slug: string)
    requires Valid(d) && 1000 <= d.year && h < 100 && mi < 100 && sec < 100
    requires b <= |s| && s[b..] == ArticlePath(d, h, mi, sec, slug)
    ensures DateMatchAt(s, b) == Some(DateText(NatToStr(d.year), NatToStr(d.month), NatToStr(d.day)))
  {
    var y, mo, da := NatToStr(d.year), NatToStr(d.month), NatToStr(d.day);
    var hs, ms, ss := NatToStr(h), NatToStr(mi), NatToStr(sec);
    assert |y| == 4 && |mo| <= 2 && |da| <= 2 && |hs| <= 2 && |ms| <= 2 && |ss| <= 2 by {
      FourDigitYear(d.year);
      NatToStrLength(d.month);
      NatToStrLength(d.day);
      NatToStrLength(h);
      NatToStrLength(mi);
      NatToStrLength(sec);
    }
    assert s[b..] == Marker + (y + "-" + (mo + "-" + (da + "-" + (hs + "-" + (ms + "-" + (ss + "-" + slug))))));
    PathPiecesMatch(s, b, y, mo, da, hs, ms, ss, slug);
  }

  /** An article path written out as digit pieces matches, capturing the year, month and day pieces. */
  lemma PathPiecesMatch(s: string, b: nat, y: string, mo: string, da: string, hs: string, ms: string, ss: string, slug: string)
    requires |y| == 4 && AllDigits(y)
    requires 1 <= |mo| <= 2 && AllDigits(mo) && 1 <= |da| <= 2 && AllDigits(da)
    requires 1 <= |hs| <= 2 && AllDigits(hs) && 1 <= |ms| <= 2 && AllDigits(ms) && 1 <= |ss| <= 2 && AllDigits(ss)
    requires b <= |s| && s[b..] == Marker + (y + "-" + (mo + "-" + (da + "-" + (hs + "-" + (ms + "-" + (ss + "-" + slug))))))
    ensures DateMatchAt(s, b) == Some(DateText(y, mo, da))
  {
    TailAfterDate(s, b, y, mo, da, hs + "-" + (ms + "-" + (ss + "-" + slug)));
    ClockPiecesRead(s, b + 17 + |mo| + 1 + |da| + 1, hs, ms, ss, slug);
    DatePiecesMatch(s, b, y, mo, da, hs + "-" + (ms + "-" + (ss + "-" + slug)));
  }

  /** What follows the year, month and day pieces and their dashes is the rest of the path. */
  lemma TailAfterDate(s: string, b: nat, y: string, mo: string, da: string, clock: string)
    requires |y| == 4
    requires b <= |s| && s[b..] == Marker + (y + "-" + (mo + "-" + (da + "-" + clock)))
    ensures b + 17 + |mo| + 1 + |da| + 1 <= |s| && s[b + 17 + |mo| + 1 + |da| + 1..] == clock
  {
    var k := 17 + |mo| + 1 + |da| + 1;
    assert s[b..][k..] == clock;
  }

  /** Hour, minute and second pieces match `\d{1,2}-` three times. */
  lemma ClockPiecesRead(s: string, e: nat, hs: string, ms: string, ss: string, slug: string)
    requires 1 <= |hs| <= 2 && AllDigits(hs) && 1 <= |ms| <= 2 && AllDigits(ms) && 1 <= |ss| <= 2 && AllDigits(ss)
    requires e <= |s| && s[e..] == hs + "-" + (ms + "-" + (ss + "-" + slug))
    ensures ShortFields(s, e, 3).Some?
  {
    var e2 := e + |hs| + 1;
    var e3 := e2 + |ms| + 1;
    assert ShortField(s, e) == Some(e2) && s[e2..] == ms + "-" + (ss + "-" + slug) by {
      DigitFieldReads(s, e, hs, ms + "-" + (ss + "-" + slug));
    }
    assert ShortField(s, e2) == Some(e3) && s[e3..] == ss + "-" + slug by {
      DigitFieldReads(s, e2, ms, ss + "-" + slug);
    }
    assert ShortField(s, e3) == Some(e3 + |ss| + 1) by {
      DigitFieldReads(s, e3, ss, slug);
    }
    ShortFieldsThree(s, e, e2, e3, e3 + |ss| + 1);
  }

  /** Three short fields in a row are what `ShortFields` counts to three. */
  lemma ShortFieldsThree(s: string, e1: nat, e2: nat, e3: nat, e4: nat)
    requires ShortField(s, e1) == Some(e2) && ShortField(s, e2) == Some(e3) && ShortField(s, e3) == Some(e4)
    ensures ShortFields(s, e1, 3) == Some(e4)
  {
    assert ShortFields(s, e4, 0) == Some(e4);
    assert ShortFields(s, e3, 1) == Some(e4);
    assert ShortFields(s, e2, 2) == Some(e4);
  }

  /** Marker, year, month and day pieces followed by a clock of three short fields match. */
  lemma DatePiecesMatch(s: string, b: nat, y: string, mo: string, da: string, clock: string)
    requires |y| == 4 && AllDigits(y)
    requires 1 <= |mo| <= 2 && AllDigits(mo) && 1 <= |da| <= 2 && AllDigits(da)
    requires b <= |s| && s[b..] == Marker + (y + "-" + (mo + "-" + (da + "-" + clock)))
    requires ShortFields(s, b + 17 + |mo| + 1 + |da| + 1, 3).Some?
    ensures DateMatchAt(s, b) == Some(DateText(y, mo, da))
  {
    DatePiecesRead(s, b, y, mo, da, clock);
    DateMatchGroups(s, b, y, mo, da);
  }

  /** The marker, a four-digit year and two short digit fields at `b`, each read as written. */
  lemma DatePiecesRead(s: string, b: nat, y: string, mo: string, da: string, clock: string)
    requires |y| == 4 && AllDigits(y)
    requires 1 <= |mo| <= 2 && AllDigits(mo) && 1 <= |da| <= 2 && AllDigits(da)
    requires b <= |s| && s[b..] == Marker + (y + "-" + (mo + "-" + (da + "-" + clock)))
    ensures HeadAt(s, b) && s[b + 12..b + 16] == y
    ensures ShortField(s, b + 17) == Some(b + 17 + |mo| + 1) && s[b + 17..b + 17 + |mo|] == mo
    ensures ShortField(s, b + 17 + |mo| + 1) == Some(b + 17 + |mo| + 1 + |da| + 1)
    ensures s[b + 17 + |mo| + 1..b + 17 + |mo| + 1 + |da|] == da
  {
    HeadReads(s, b, y, mo + "-" + (da + "-" + clock));
    MonthDayReads(s, b + 17, mo, da, clock);
  }

  /** Two short digit fields at `m`, each read as written. */
  lemma MonthDayReads(s: string, m: nat, mo: string, da: string, rest: string)
    requires 1 <= |mo| <= 2 && AllDigits(mo) && 1 <= |da| <= 2 && AllDigits(da)
    requires m <= |s| && s[m..] == mo + "-" + (da + "-" + rest)
    ensures ShortField(s, m) == Some(m + |mo| + 1) && s[m..m + |mo|] == mo
    ensures ShortField(s, m + |mo| + 1) == Some(m + |mo| + 1 + |da| + 1)
    ensures s[m + |mo| + 1..m + |mo| + 1 + |da|] == da
  {
    assert ShortField(s, m) == Some(m + |mo| + 1) && s[m..m + |mo|] == mo
        && s[m + |mo| + 1..] == da + "-" + rest by {
      DigitFieldReads(s, m, mo, da + "-" + rest);
    }
    DigitFieldReads(s, m + |mo| + 1, da, rest);
  }

  /** One or two digits and a dash at `i` are one short field. */
  lemma DigitFieldReads(s: string, i: nat, f: string, r: string)
    requires 1 <= |f| <= 2 && AllDigits(f) && i <= |s| && s[i..] == f + "-" + r
    ensures ShortField(s, i) == Some(i + |f| + 1) && s[i..i + |f|] == f && s[i + |f| + 1..] == r
  {
    FieldAt(s, i, f, r);
    assert s[i] == f[0];
    if |f| == 2 {
      assert s[i + 1] == f[1];
    }
  }

  /** The match is the head followed by five short fields, and captures what they hold. */
  lemma DateMatchGroups(s: string, b: nat, y: string, mo: string, da: string)
    requires HeadAt(s, b) && s[b + 12..b + 16] == y
    requires ShortField(s, b + 17) == Some(b + 17 + |mo| + 1) && s[b + 17..b + 17 + |mo|] == mo
    requires ShortField(s, b + 17 + |mo| + 1) == Some(b + 17 + |mo| + 1 + |da| + 1)
    requires s[b + 17 + |mo| + 1..b + 17 + |mo| + 1 + |da|] == da
    requires ShortFields(s, b + 17 + |mo| + 1 + |da| + 1, 3).Some?
    ensures DateMatchAt(s, b) == Some(DateText(y, mo, da))
  {
    var m := ShortField(s, b + 17).value;
    assert s[b + 17..m - 1] == mo;
    assert s[m..ShortField(s, m).value - 1] == da;
  }

  /** The marker, four digits and a dash at `b`. */
  lemma HeadReads(s: string, b: nat, y: string, r: string)
    requires |y| == 4 && AllDigits(y)
    requires b <= |s| && s[b..] == Marker + (y + "-" + r)
    ensures HeadAt(s, b) && s[b + 12..b + 16] == y && s[b + 17..] == r
  {
    PieceAt(s, b, Marker, y + "-" + r);
    FieldAt(s, b + 12, y, r);
  }

  lemma FourDigitYear(n: nat)
    requires 1000 <= n <= 9999
    ensures |NatToStr(n)| == 4
  {
    NatToStrLength(n);
    assert DecimalLength(n) == 1 + DecimalLength(n / 10);
    assert DecimalLength(n / 10) == 1 + DecimalLength(n / 100);
    assert DecimalLength(n / 100) == 1 + DecimalLength(n / 1000);
  }

  lemma PieceAt(s: string, i: nat, p: string, r: string)
    requires i <= |s| && s[i..] == p + r
    ensures i + |p| <= |s| && s[i..i + |p|] == p && s[i + |p|..] == r
  {
    assert s[i..][..|p|] == p;
    assert s[i..][|p|..] == r;
  }

  lemma FieldAt(s: string, i: nat, f: string, r: string)
    requires i <= |s| && s[i..] == f + "-" + r
    ensures i + |f| < |s| && s[i..i + |f|] == f && s[i + |f|] == '-' && s[i + |f| + 1..] == r
  {
    assert s[i..][..|f|] == f;
    assert s[i..][|f|] == '-';
    assert s[i..][|f| + 1..] == r;
  }

  // ---------------------------------------------------------------------------------------
  // The title
  // ---------------------------------------------------------------------------------------

  /**
   * The title taken from the URL when the link has none: the '-' fields of the last
   * segment from the seventh on, joined by spaces, any '-' replaced by a space, title-cased;
   * empty when there are fewer than seven fields.
   */
  function UrlTitle(url: string): (t: string)
  {
    var parts := Split(LastSegment(url), '-');
    if |parts| >= 7 then TitleCase(ReplaceChar(Join(" ", parts[6..]), '-', ' ')) else ""
  }

  /**
   * For a URL whose last segment is six dash-free fields and a slug, the URL title is the
   * slug with its dashes read as spaces, title-cased.
   */
  lemma UrlTitleIsSlug(prefix: string, fields: seq<string>, slug: string)
    requires |fields| == 6
    requires forall k | 0 <= k < 6 :: '-' !in fields[k] && '/' !in fields[k]
    requires '/' !in slug
    ensures UrlTitle(prefix + "/" + Join("-", fields) + "-" + slug) == TitleCase(ReplaceChar(slug, '-', ' '))
  {
    var seg := Join("-", fields) + "-" + slug;
    JoinHasNo(fields, '-', '/');
    assert prefix + "/" + Join("-", fields) + "-" + slug == prefix + ['/'] + seg;
    SplitLastPiece(prefix, seg, '/');
    SlugFields(fields, slug);
    var tail := Split(slug, '-');
    ReplaceJoin(tail, '-', ' ');
    JoinSplit(slug, '-');
    var spaced := ReplaceChar(slug, '-', ' ');
    assert ReplaceChar(spaced, '-', ' ') == spaced;
  }

  /** Splitting six dash-free fields and a slug at '-' gives the fields, then the slug's pieces. */
  lemma SlugFields(fields: seq<string>, slug: string)
    requires |fields| == 6
    requires forall k | 0 <= k < 6 :: '-' !in fields[k]
    ensures Split(Join("-", fields) + "-" + slug, '-') == fields + Split(slug, '-')
  {
    var tail := Split(slug, '-');
    var parts := fields + tail;
    JoinAppend("-", fields, tail);
    JoinSplit(slug, '-');
    SplitJoin(parts, '-');
  }

  // ---------------------------------------------------------------------------------------
  // The listing and the detail page
  // ---------------------------------------------------------------------------------------

  /** A detail page: the `<article>` and `.nota--gral` elements if present, all `<p>` texts, the body. */
  datatype DetailPage = DetailPage(article: Option<Container>, notaGral: Option<Container>, paragraphs: seq<string>, body: string)

  /**
   * One matching `<a>` of a listing: the absolute URL, the link text, the text of its first
   * `h2`/`h3`/`.title` child if any, and the detail page (`None` when fetching it raises).
   * The two texts are independent here; on a real page the child is a descendant of the
   * `<a>`, so its text is part of the link's text and the child fallback never decides.
   */
  datatype Link = Link(url: string, text: string, childTitle: Option<string>, detail: Option<DetailPage>)

  /** `_extract_content`: `<article>`, else `.nota--gral`, else the page-wide paragraph fallback. */
  function Content(page: DetailPage): (r: (string, string))
  {
    if page.article.Some? then ContainerContent(page.article.value)
    else if page.notaGral.Some? then ContainerContent(page.notaGral.value)
    else FallbackContent(FallbackKeywords, page.paragraphs, page.body)
  }

  method ExtractContent(page: DetailPage) returns (contenido: string, crudo: string)
    ensures (contenido, crudo) == Content(page)
  {
    if page.article.Some? {
      contenido, crudo := ContainerContent(page.article.value).0, page.article.value.html;
    } else if page.notaGral.Some? {
      contenido, crudo := ContainerContent(page.notaGral.value).0, page.notaGral.value.html;
    } else {
      var main := MainParagraphs(FallbackKeywords, page.paragraphs);
      if |main| > 0 {
        contenido, crudo := Join(ParagraphSep, main[..Min(10, |main|)]), page.body;
      } else {
        contenido, crudo := "", "";
      }
    }
  }

  /** The title: the link text, else the child heading, else the URL. */
  function LinkTitle(link: Link): (t: string)
    ensures Strip(link.text) != "" ==> t == Strip(link.text)
    ensures t == "" ==> Strip(link.text) == "" && UrlTitle(link.url) == ""
  {
    var own := Strip(link.text);
    var child := if own == "" && link.childTitle.Some? then Strip(link.childTitle.value) else own;
    if child == "" then UrlTitle(link.url) else child
  }

  /** The article a link yields once it is past the seen and cutoff tests, if any. */
  function Offer(link: Link): (r: Option<Article>)
    ensures r.Some? ==> r.value.url == link.url && r.value.fecha == UrlDate(link.url)
    ensures r.Some? ==> r.value.titulo != "" && r.value.media == MediaName
  {
    var date := UrlDate(link.url);
    var titulo := LinkTitle(link);
    if date.None? || titulo == "" || link.detail.None? then None
    else
      var c := Content(link.detail.value);
      Some(Article(titulo, c.0, c.1, date, link.url, MediaName))
  }

  /** A link dated before the limit: the one that ends the crawl. */
  predicate Old(link: Link, limit: Option<Date>)
  {
    UrlDate(link.url).Some? && PastLimit(UrlDate(link.url).value, limit)
  }

  /** The walk's view of a link: an old link stops it, a link with an article is taken, any other is skipped. */
  function VisitOf(link: Link, limit: Option<Date>): (v: Visit)
    ensures v.url == link.url
    ensures v.verdict.Stop? <==> Old(link, limit)
    ensures v.verdict.Take? ==> Offer(link) == Some(v.verdict.article) && WithinLimit(v.verdict.article, limit)
    ensures v.verdict.Skip? ==> Offer(link).None? && !Old(link, limit)
  {
    if Old(link, limit) then Visit(link.url, Stop)
    else if Offer(link).None? then Visit(link.url, Skip)
    else Visit(link.url, Take(Offer(link).value))
  }

  /** The walk's view of each link, in order. */
  function Visits(links: seq<Link>, limit: Option<Date>): (vs: seq<Visit>)
    ensures |vs| == |links|
    decreases |links|
  {
    if |links| == 0 then [] else Visits(links[..|links| - 1], limit) + [VisitOf(links[|links| - 1], limit)]
  }

  lemma {:induction false} VisitsAt(links: seq<Link>, limit: Option<Date>, k: int)
    requires 0 <= k < |links|
    ensures Visits(links, limit)[k] == VisitOf(links[k], limit)
    decreases |links|
  {
    if k < |links| - 1 {
      VisitsAt(links[..|links| - 1], limit, k);
    }
  }

  /** The view of two runs of links is the view of each in turn. */
  lemma {:induction false} VisitsAppend(a: seq<Link>, b: seq<Link>, limit: Option<Date>)
    ensures Visits(a + b, limit) == Visits(a, limit) + Visits(b, limit)
    decreases |b|
  {
    if |b| == 0 {
      assert a + b == a;
    } else {
      var init := b[..|b| - 1];
      assert (a + b)[..|a + b| - 1] == a + init;
      assert (a + b)[|a + b| - 1] == b[|b| - 1];
      VisitsAppend(a, init, limit);
    }
  }

  // ---------------------------------------------------------------------------------------
  // The crawl
  // ---------------------------------------------------------------------------------------

  /**
   * `scrape`: reads listing pages in order and walks their links with a seen set. A new
   * link is marked seen; it is skipped without a date, ends the crawl when dated before
   * the limit, and is otherwise offered to the store when it has a title and its detail
   * page can be fetched. An empty listing page ends the crawl, and so does a failed one.
   *
   * `read` is the number of listing pages fetched, and `reachedLimit` says that an old
   * link stopped the crawl.
   */
  method Scrape(pages: seq<seq<Link>>, limit: Option<Date>, store: Store)
    returns (count: nat, offered: seq<Article>, read: nat, reachedLimit: bool)
    ensures read <= |pages| && (|pages| > 0 ==> read > 0)
    ensures Filled(pages, read - 1)
    ensures read < |pages| ==> reachedLimit || |pages[read - 1]| == 0
    ensures var w := WalkAll(Visits(Flatten(pages[..read]), limit), true);
      offered == w.offered && reachedLimit == w.stopped
    ensures count == Accepted(store, offered)
  {
    count, offered, read, reachedLimit := 0, [], 0, false;
    var seen: set<string> := {};
    while read < |pages| && !reachedLimit
      invariant read <= |pages| && (reachedLimit ==> read > 0)
      invariant Filled(pages, read)
      invariant Walk(seen, offered, reachedLimit) == WalkAll(Visits(Flatten(pages[..read]), limit), true)
      invariant count == Accepted(store, offered)
      decreases |pages| - read
    {
      var links := pages[read];
      ghost var before := Visits(Flatten(pages[..read]), limit);
      FlattenStep(pages, read);
      VisitsAppend(Flatten(pages[..read]), links, limit);
      read := read + 1;
      if |links| == 0 {
        AppendNothing(before, Visits(links, limit));
        break;
      }
      FilledStep(pages, read - 1);
      ghost var vs := Visits(links, limit);
      VisitsPointwise(links, limit);
      seen, offered, count, reachedLimit := ScrapePage(links, limit, store, seen, offered, count, before, vs);
    }
  }

  /** `vs` is the walk's view of `links`, one visit per link. */
  predicate JudgedAs(vs: seq<Visit>, links: seq<Link>, limit: Option<Date>)
  {
    |vs| == |links| && forall k | 0 <= k < |links| :: vs[k] == VisitOf(links[k], limit)
  }

  /** The walk's view of each link is its verdict. */
  lemma VisitsPointwise(links: seq<Link>, limit: Option<Date>)
    ensures JudgedAs(Visits(links, limit), links, limit)
  {
    forall k | 0 <= k < |links|
      ensures Visits(links, limit)[k] == VisitOf(links[k], limit)
    {
      VisitsAt(links, limit, k);
    }
  }

  /** The links of one listing page, in order, until one of them is old; `vs` is how the walk sees them. */
  method ScrapePage(links: seq<Link>, limit: Option<Date>, store: Store, seen: set<string>, offered: seq<Article>,
                    count: nat, ghost before: seq<Visit>, ghost vs: seq<Visit>)
    returns (seen': set<string>, offered': seq<Article>, count': nat, reachedLimit: bool)
    requires JudgedAs(vs, links, limit)
    requires Walk(seen, offered, false) == WalkAll(before, true) && count == Accepted(store, offered)
    ensures Walk(seen', offered', reachedLimit) == WalkAll(before + vs, true)
    ensures count' == Accepted(store, offered')
  {
    seen', offered', count', reachedLimit := seen, offered, count, false;
    var i := 0;
    PrefixRest(before, vs, 0);
    assert before + vs[..0] == before;
    while i < |links| && !reachedLimit
      invariant 0 <= i <= |links|
      invariant Walk(seen', offered', reachedLimit) == WalkAll(before + vs[..i], true)
      invariant count' == Accepted(store, offered')
      decreases |links| - i
    {
      var link := links[i];
      PrefixSnoc(before, vs, i);
      WalkAllStep(before + vs[..i], vs[i], true);
      seen', offered', count', reachedLimit := ScrapeLink(link, limit, store, seen', offered', count', vs[i]);
      i := i + 1;
    }
    if i < |links| {
      WalkStoppedStays(before + vs[..i], vs[i..], true);
      PrefixRest(before, vs, i);
    } else {
      assert vs[..i] == vs;
    }
  }

  /**
   * One turn of the per-link loop: a seen URL is passed over; a new one is marked seen,
   * then skipped without a date, reported old when dated before the limit, skipped
   * without a title or a detail page, and otherwise extracted and offered to the store.
   */
  method ScrapeLink(link: Link, limit: Option<Date>, store: Store, seen: set<string>, offered: seq<Article>, count: nat,
                    ghost v: Visit)
    returns (seen': set<string>, offered': seq<Article>, count': nat, isOld: bool)
    requires v == VisitOf(link, limit) && count == Accepted(store, offered)
    ensures Walk(seen', offered', isOld) == WalkStep(Walk(seen, offered, false), v, true)
    ensures count' == Accepted(store, offered')
  {
    seen', offered', count', isOld := seen, offered, count, false;
    if link.url in seen {
      return;
    }
    seen' := seen + {link.url};
    var date := UrlDate(link.url);
    if date.None? {
      return;
    }
    if PastLimit(date.value, limit) {
      isOld := true;
      return;
    }
    var titulo := LinkTitle(link);
    if titulo == "" || link.detail.None? {
      return;
    }
    var contenido, crudo := ExtractContent(link.detail.value);
    var article := Article(titulo, contenido, crudo, date, link.url, MediaName);
    assert Offer(link) == Some(article);
    AcceptedStep(store, offered, article);
    if store(offered, article) {
      count' := count + 1;
    }
    offered' := offered + [article];
  }

  // ---------------------------------------------------------------------------------------
  // What the crawl guarantees
  // ---------------------------------------------------------------------------------------

  /**
   * Every article offered comes from a link read, is dated no earlier than the limit, and
   * is offered once per URL.
   */
  lemma OffersSound(links: seq<Link>, limit: Option<Date>)
    ensures var offered := WalkAll(Visits(links, limit), true).offered;
      && (forall a | a in offered :: WithinLimit(a, limit) && exists l | l in links :: Offer(l) == Some(a))
      && (forall i, j | 0 <= i < j < |offered| :: offered[i].url != offered[j].url)
  {
    var vs := Visits(links, limit);
    var offered := WalkAll(vs, true).offered;
    forall a | a in offered
      ensures WithinLimit(a, limit) && exists l | l in links :: Offer(l) == Some(a)
    {
      WalkSound(vs, true, a);
      var k :| 0 <= k < |vs| && Judged(vs, k, true) && vs[k].verdict == Take(a);
      VisitsAt(links, limit, k);
      assert links[k] in links;
    }
    forall k | 0 <= k < |vs|
      ensures vs[k].verdict.Take? ==> vs[k].verdict.article.url == vs[k].url
    {
      VisitsAt(links, limit, k);
    }
    WalkDistinct(vs);
  }

  /** The crawl stops exactly when a link it judges is dated before the limit. */
  lemma StopsAtOldLink(links: seq<Link>, limit: Option<Date>)
    ensures var vs := Visits(links, limit);
      WalkAll(vs, true).stopped <==> exists j | 0 <= j < |vs| :: Judged(vs, j, true) && Old(links[j], limit)
  {
    var vs := Visits(links, limit);
    VisitsPointwise(links, limit);
    WalkStopsAtOld(vs, true);
  }

  /** Every link judged before the stop that yields an article has that article offered. */
  lemma JudgedArticlesOffered(links: seq<Link>, limit: Option<Date>, k: int)
    requires 0 <= k < |links|
    ensures var vs := Visits(links, limit);
      Judged(vs, k, true) && Offer(links[k]).Some? && !Old(links[k], limit) ==>
        Offer(links[k]).value in WalkAll(vs, true).offered
  {
    var vs := Visits(links, limit);
    if Judged(vs, k, true) && Offer(links[k]).Some? && !Old(links[k], limit) {
      VisitsAt(links, limit, k);
      WalkComplete(vs, true, k);
    }
  }
}

/**
 * The Que Pasa Salta crawler: the first listing page is the police section itself, the
 * later ones are POSTed to the site's AJAX endpoint, which counts pages from zero. Each
 * listing article whose link points at a note, an article or the police section is taken
 * once per run; its date is read from the listing in one of three forms (today when
 * missing or unreadable), and the first one dated before the limit ends the crawl.
 *
 * A listing page is the sequence of the elements the listing selectors find, in page
 * order; `pages[p]` is the answer to `PageRequest(p + 1)`. The sequence ends where a
 * listing request fails or answers with a blank body: the crawl stops there in both cases
 * without reading anything.
 */
module QuePasaSalta {
  import opened Wrappers
  import opened Text
  import opened Seqs
  import opened Dates
  import opened Crawl
  import opened Walks
  import opened Patterns

  const BaseUrl: string := "https://www.quepasasalta.com.ar"
  const PolicialesUrl: string := "https://www.quepasasalta.com.ar/seccion/policiales/"
  const AjaxUrl: string := "https://www.quepasasalta.com.ar/0/seccion/list/ajax.vnc"
  const CategoryId: int := 49
  const ItemsPerPage: int := 21
  const MediaName: string := "quepasasalta"

  /** A link is an article when its URL holds one of these. */
  const ArticlePatterns: seq<string> := ["/nota/", "/articulo/", "/policiales/"]

  /** Words that mark a paragraph as navigation or advertising in the fallback. */
  const FallbackKeywords: seq<string> :=
    ["sesión", "notificaciones", "dólar", "temas", "publicidad", "newsletter", "comentarios"]

  /** The selectors `_extract_content` tries in turn for the article body. */
  const ContentSelectors: seq<string> :=
    ["main", ".main", "article", ".contenido", ".article-content", ".noticia-contenido", ".post-content", ".entry-content"]

  // ---------------------------------------------------------------------------------------
  // Listing requests
  // ---------------------------------------------------------------------------------------

  /** A listing request: a plain GET, or a POST to the AJAX endpoint with its form fields. */
  datatype Request = Get(url: string) | Post(url: string, id: int, page: int, itemsPerPage: int)

  /** The request for listing page `pagina` (counted from one). */
  function PageRequest(pagina: int): (r: Request)
  {
    if pagina == 1 then Get(PolicialesUrl) else Post(AjaxUrl, CategoryId, pagina - 1, ItemsPerPage)
  }

  /**
   * Only the first page is fetched from the section URL; every later page asks the AJAX
   * endpoint for its zero-based number, so listing page 2 is AJAX page 1.
   */
  lemma AjaxPagesZeroBased(a: int, b: int)
    requires a != b
    ensures PageRequest(a) != PageRequest(b)
    ensures PageRequest(a).Get? <==> a == 1
    ensures PageRequest(a).Post? ==> PageRequest(a).page == a - 1 && PageRequest(a).id == CategoryId
  {
  }

  // ---------------------------------------------------------------------------------------
  // `_parse_date`
  // ---------------------------------------------------------------------------------------

  /** `re.match(r'\d{1,2}/\d{1,2}/\d{4}', t)`: the text starts like a D/M/YYYY date. */
  predicate SlashShape(t: string)
  {
    DayFirstAt(t, 0, '/').Some?
  }

  /** `re.match(r'\d{4}-\d{1,2}-\d{1,2}', t)`: the text starts like a YYYY-M-D date. */
  predicate DashShape(t: string)
  {
    YearFirstAt(t, 0).Some?
  }

  /** `a, b, c = map(int, t.split(sep))`: None where that raises ValueError. */
  function ThreeInts(t: string, sep: char): (r: Option<(int, int, int)>)
    ensures |Split(t, sep)| != 3 ==> r.None?
  {
    var parts := Split(t, sep);
    if |parts| != 3 then None
    else
      var a, b, c := ParseInt(parts[0]), ParseInt(parts[1]), ParseInt(parts[2]);
      if a.None? || b.None? || c.None? then None else Some((a.value, b.value, c.value))
  }

  /**
   * The groups of `re.match(r'(\d{1,2})\s+de\s+(\w+)\s+de\s+(\d{4})', t)`: the day digits,
   * the month word and the year digits.
   */
  function Spelled(t: string): (r: Option<(string, string, string)>)
  {
    var m := SpelledOutAt(t, 0);
    if m.Some? && |m.value.0| <= 2 then m else None
  }

  /**
   * `_parse_date` on the stripped date text: D/M/YYYY, then YYYY-M-D, then "D de <mes> de
   * YYYY" in lower case with a known Spanish month; `today` for anything else and wherever
   * the conversion raises. A text that starts like one form is not tried against the next.
   */
  function ParseDate(t: string, today: Date): (d: Date)
    ensures d == today || Valid(d)
  {
    if SlashShape(t) then
      var n := ThreeInts(t, '/');
      if n.Some? then DateOrToday(n.value.2, n.value.1, n.value.0, today) else today
    else if DashShape(t) then
      var n := ThreeInts(t, '-');
      if n.Some? then DateOrToday(n.value.0, n.value.1, n.value.2, today) else today
    else
      var g := Spelled(Lower(t));
      if g.None? || MonthNumber(g.value.1).None? then today
      else
        var day, year := ParseInt(g.value.0), ParseInt(g.value.2);
        if day.Some? && year.Some? then DateOrToday(year.value, MonthNumber(g.value.1).value, day.value, today)
        else today
  }

  /** The date of a listing article: its date element's stripped text, or today without one. */
  function ItemDate(fecha: Option<string>, today: Date): (d: Date)
    ensures fecha.None? ==> d == today
    ensures fecha.Some? ==> d == ParseDate(Strip(fecha.value), today)
  {
    if fecha.None? then today else ParseDate(Strip(fecha.value), today)
  }

  // The three forms, piece by piece.

  /** Two digits, '/', two digits, '/', then at least four digits: the D/M/YYYY shape. */
  lemma SlashShapeOf(dd: string, mm: string, rest: string)
    requires |dd| == 2 && |mm| == 2 && AllDigits(dd) && AllDigits(mm)
    requires |rest| >= 4 && AllDigits(rest[..4])
    ensures SlashShape(dd + "/" + mm + "/" + rest)
  {
    var t := dd + "/" + mm + "/" + rest;
    assert t[..2] == dd && t[2] == '/' && t[3..5] == mm && t[5] == '/' && t[6..10] == rest[..4];
    ShortNumberOf(t, 0, dd, '/');
    ShortNumberOf(t, 3, mm, '/');
  }

  /** The D/M/YYYY branch on text whose '/' pieces are three runs of digits. */
  lemma SlashDateFromPieces(t: string, dd: string, mm: string, yy: string, today: Date)
    requires SlashShape(t) && Split(t, '/') == [dd, mm, yy]
    requires |dd| >= 1 && |mm| >= 1 && |yy| >= 1 && AllDigits(dd) && AllDigits(mm) && AllDigits(yy)
    ensures ParseDate(t, today) == DateOrToday(DigitsValue(yy), DigitsValue(mm), DigitsValue(dd), today)
  {
    DigitsParse(dd);
    DigitsParse(mm);
    DigitsParse(yy);
  }

  /** The D/M/YYYY branch gives today when the last piece is not a number. */
  lemma SlashDateBadYear(t: string, dd: string, mm: string, last: string, today: Date)
    requires SlashShape(t) && Split(t, '/') == [dd, mm, last] && ParseInt(last).None?
    ensures ParseDate(t, today) == today
  {
  }

  /** Text with a digit at position 1 and at position 2 does not start like D/M/YYYY. */
  lemma NotSlashShape(t: string)
    requires |t| >= 3 && IsAsciiDigit(t[1]) && IsAsciiDigit(t[2])
    ensures !SlashShape(t)
  {
  }

  /** Four digits, '-', two digits, '-', two digits: the YYYY-M-D shape. */
  lemma DashShapeOf(yy: string, mm: string, dd: string)
    requires |yy| == 4 && |mm| == 2 && |dd| == 2 && AllDigits(yy) && AllDigits(mm) && AllDigits(dd)
    ensures DashShape(yy + "-" + mm + "-" + dd)
  {
    var t := yy + "-" + mm + "-" + dd;
    assert t[..4] == yy && t[4..5] == "-" && t[5..7] == mm && t[7] == '-' && t[8..9] == dd[..1];
    ShortNumberOf(t, 5, mm, '-');
  }

  /** The YYYY-M-D branch on text that is not D/M/YYYY and whose '-' pieces are runs of digits. */
  lemma DashDateFromPieces(t: string, yy: string, mm: string, dd: string, today: Date)
    requires !SlashShape(t) && DashShape(t) && Split(t, '-') == [yy, mm, dd]
    requires |dd| >= 1 && |mm| >= 1 && |yy| >= 1 && AllDigits(dd) && AllDigits(mm) && AllDigits(yy)
    ensures ParseDate(t, today) == DateOrToday(DigitsValue(yy), DigitsValue(mm), DigitsValue(dd), today)
  {
    DigitsParse(dd);
    DigitsParse(mm);
    DigitsParse(yy);
  }

  /** The spelled branch on text that matches neither numeric form. */
  lemma SpelledDate(t: string, ds: string, w: string, yy: string, today: Date)
    requires !SlashShape(t) && !DashShape(t) && Spelled(Lower(t)) == Some((ds, w, yy))
    requires |ds| >= 1 && |yy| >= 1 && AllDigits(ds) && AllDigits(yy)
    ensures ParseDate(t, today) ==
      if MonthNumber(w).Some? then DateOrToday(DigitsValue(yy), MonthNumber(w).value, DigitsValue(ds), today)
      else today
  {
    DigitsParse(ds);
    DigitsParse(yy);
  }

  // The three forms read back.

  /** DD/MM/YYYY text reads as the date it names, and as today when no such date exists. */
  lemma SlashReads(day: nat, month: nat, year: nat, today: Date)
    requires day < 100 && month < 100 && year < 10000
    ensures var t := PadNat(day, 2) + "/" + PadNat(month, 2) + "/" + PadNat(year, 4);
      ParseDate(t, today) == DateOrToday(year, month, day, today) && Strip(t) == t
  {
    var dd, mm, yy := PadNat(day, 2), PadNat(month, 2), PadNat(year, 4);
    LeadingPadding(day, 2);
    LeadingPadding(month, 2);
    LeadingPadding(year, 4);
    assert yy[..4] == yy;
    SlashShapeOf(dd, mm, yy);
    SlashPieces(dd, mm, yy);
    SlashDateFromPieces(dd + "/" + mm + "/" + yy, dd, mm, yy, today);
    DigitEndsStripped(dd, mm, yy);
  }

  /** A date printed as DD/MM/YYYY reads back as that date. */
  lemma SlashRoundTrip(d: Date, today: Date)
    requires Valid(d)
    ensures ParseDate(SlashFormat(d), today) == d
    ensures ItemDate(Some(SlashFormat(d)), today) == d
  {
    SlashReads(d.day, d.month, d.year, today);
  }

  /** DD/MM/YYYY numbers that name no date (a 31st of April, a month 13) give today. */
  lemma NonexistentSlashDateIsToday(day: nat, month: nat, year: nat, today: Date)
    requires day < 100 && month < 100 && year < 10000 && !Valid(Date(year, month, day))
    ensures ParseDate(PadNat(day, 2) + "/" + PadNat(month, 2) + "/" + PadNat(year, 4), today) == today
  {
    SlashReads(day, month, year, today);
  }

  /**
   * Text after the year breaks `int()` on the last piece, so "12/05/2024 10:30" gives today
   * even though it starts like a D/M/YYYY date.
   */
  lemma TrailingTextIsToday(d: Date, tail: string, today: Date)
    requires Valid(d) && '/' !in tail && |tail| > 0 && !IsSpace(tail[|tail| - 1])
    ensures ParseDate(SlashFormat(d) + " " + tail, today) == today
  {
    var dd, mm, yy := PadNat(d.day, 2), PadNat(d.month, 2), PadNat(d.year, 4);
    LeadingPadding(d.day, 2);
    LeadingPadding(d.month, 2);
    LeadingPadding(d.year, 4);
    var last := yy + " " + tail;
    assert last[..4] == yy;
    SlashShapeOf(dd, mm, last);
    assert SlashFormat(d) + " " + tail == dd + "/" + mm + "/" + last;
    DigitsHaveNo(dd, '/');
    DigitsHaveNo(mm, '/');
    LastPieceNoSlash(yy, tail);
    assert dd + "/" + mm + "/" + last == dd + ['/'] + mm + ['/'] + last;
    SplitThree(dd, mm, last, '/');
    SpaceInsideBreaksInt(yy, tail);
    SlashDateBadYear(dd + "/" + mm + "/" + last, dd, mm, last, today);
  }

  lemma LastPieceNoSlash(yy: string, tail: string)
    requires AllDigits(yy) && '/' !in tail
    ensures '/' !in yy + " " + tail
  {
    DigitsHaveNo(yy, '/');
  }

  /** `int()` refuses digits followed by a space and more text that ends in a non-space. */
  lemma SpaceInsideBreaksInt(yy: string, tail: string)
    requires |yy| >= 1 && AllDigits(yy) && |tail| > 0 && !IsSpace(tail[|tail| - 1])
    ensures ParseInt(yy + " " + tail).None?
  {
    var last := yy + " " + tail;
    assert last[0] == yy[0] && IsAsciiDigit(yy[0]);
    assert last[|last| - 1] == tail[|tail| - 1];
    StripNoSpace(last);
    assert last[|yy|] == ' ';
  }

  /** ISO text YYYY-MM-DD reads back as its date. */
  lemma IsoReadsBack(d: Date, today: Date)
    requires Valid(d)
    ensures ParseDate(IsoFormat(d), today) == d
    ensures ItemDate(Some(IsoFormat(d)), today) == d
  {
    var dd, mm, yy := PadNat(d.day, 2), PadNat(d.month, 2), PadNat(d.year, 4);
    LeadingPadding(d.day, 2);
    LeadingPadding(d.month, 2);
    LeadingPadding(d.year, 4);
    var t := IsoFormat(d);
    assert t == yy + "-" + mm + "-" + dd;
    assert t[1] == yy[1] && t[2] == yy[2];
    NotSlashShape(t);
    DashShapeOf(yy, mm, dd);
    assert t == yy + ['-'] + mm + ['-'] + dd;
    DigitPieces(yy, mm, dd, '-');
    DashDateFromPieces(t, yy, mm, dd, today);
    assert t[0] == yy[0] && t[|t| - 1] == dd[1];
    StripNoSpace(t);
  }

  /** "D de <mes> de YYYY" as the sites write it, with the day unpadded. */
  function SpelledFormat(day: nat, month: string, year: nat): string
  {
    NatToStr(day) + " de " + month + " de " + PadNat(year, 4)
  }

  /** A word in lower case that `\w` covers, such as a month name. */
  predicate LowerWord(w: string)
  {
    w != "" && forall k | 0 <= k < |w| :: IsWordChar(w[k]) && !IsUpperChar(w[k])
  }

  /** The spelled form, with a one- or two-digit day, matches neither numeric form. */
  lemma SpelledNotNumeric(ds: string, rest: string)
    requires 1 <= |ds| <= 2 && AllDigits(ds) && |rest| >= 2 && rest[0] == ' ' && rest[1] == 'd'
    ensures !SlashShape(ds + rest) && !DashShape(ds + rest)
  {
    var t := ds + rest;
    assert t[|ds|] == ' ' && t[|ds| + 1] == 'd';
  }

  /** Lower case leaves the spelled form alone. */
  lemma SpelledIsLower(ds: string, w: string, yy: string)
    requires AllDigits(ds) && AllDigits(yy) && LowerWord(w)
    ensures var t := ds + " de " + w + " de " + yy; Lower(t) == t
  {
    var t := ds + " de " + w + " de " + yy;
    var wb := |ds| + 4;
    var we := wb + |w|;
    forall k | 0 <= k < |t|
      ensures !IsUpperChar(t[k])
    {
      if wb <= k < we {
        assert t[k] == w[k - wb];
      } else if k < |ds| {
        assert t[k] == ds[k];
      } else if k >= we + 4 {
        assert t[k] == yy[k - we - 4];
      }
    }
  }

  /** The spelled form gives up its three groups. */
  lemma SpelledGroupsOf(ds: string, w: string, yy: string)
    requires 1 <= |ds| <= 2 && AllDigits(ds) && |yy| == 4 && AllDigits(yy) && LowerWord(w)
    ensures Spelled(ds + " de " + w + " de " + yy) == Some((ds, w, yy))
  {
    SpelledOutOf(ds, w, yy, "");
    assert ds + " de " + w + " de " + yy + "" == ds + " de " + w + " de " + yy;
  }

  /** The spelled text of a day, a lower-case word and a year, in the spelled branch. */
  lemma SpelledTextReads(ds: string, w: string, yy: string, today: Date)
    requires 1 <= |ds| <= 2 && AllDigits(ds) && |yy| == 4 && AllDigits(yy) && LowerWord(w)
    ensures ParseDate(ds + " de " + w + " de " + yy, today) ==
      if MonthNumber(w).Some? then DateOrToday(DigitsValue(yy), MonthNumber(w).value, DigitsValue(ds), today)
      else today
  {
    var t := ds + " de " + w + " de " + yy;
    SpelledNotNumeric(ds, " de " + w + " de " + yy);
    assert ds + (" de " + w + " de " + yy) == t;
    SpelledIsLower(ds, w, yy);
    SpelledGroupsOf(ds, w, yy);
    SpelledDate(t, ds, w, yy, today);
  }

  /** A spelled date with a word for its month reads as that date when the word is a month name. */
  lemma SpelledReads(day: nat, w: string, year: nat, today: Date)
    requires 1 <= day < 100 && year < 10000 && LowerWord(w)
    ensures ParseDate(SpelledFormat(day, w, year), today) ==
      if MonthNumber(w).Some? then DateOrToday(year, MonthNumber(w).value, day, today) else today
  {
    NatToStrLength(day);
    NatToStrValue(day);
    LeadingPadding(year, 4);
    SpelledTextReads(NatToStr(day), w, PadNat(year, 4), today);
  }

  /** A date with its month spelled out in Spanish reads back as that date. */
  lemma SpelledRoundTrip(d: Date, today: Date)
    requires Valid(d)
    ensures ParseDate(SpelledFormat(d.day, MonthNames[d.month - 1], d.year), today) == d
  {
    MonthNamesLowerWords(d.month - 1);
    SpelledReads(d.day, MonthNames[d.month - 1], d.year, today);
    MonthNamesRecognised(d.month);
  }

  /** The month names are lower-case words. */
  lemma MonthNamesLowerWords(k: int)
    requires 0 <= k < 12
    ensures LowerWord(MonthNames[k])
  {
  }

  /** A word that is not a month name gives today, whatever the day and year. */
  lemma UnknownMonthIsToday(day: nat, w: string, year: nat, today: Date)
    requires 1 <= day < 100 && year < 10000 && LowerWord(w) && w !in MonthNames
    ensures ParseDate(SpelledFormat(day, w, year), today) == today
  {
    SpelledReads(day, w, year, today);
  }

  // ---------------------------------------------------------------------------------------
  // The listing article
  // ---------------------------------------------------------------------------------------

  /**
   * One listing article: the absolute URL of its first link (`None` without one), the text
   * of its title element, the text of its date element, and the detail page (`None` when
   * fetching it raises).
   */
  datatype Item = Item(url: Option<string>, titulo: Option<string>, fecha: Option<string>, detail: Option<SelectorPage>)

  /** `any(pattern in url for pattern in [...])`. */
  predicate IsArticleUrl(url: string)
  {
    exists k | 0 <= k < |ArticlePatterns| :: Contains(url, ArticlePatterns[k])
  }

  /** The section's own address passes the article filter: `/policiales/` is one of the patterns. */
  lemma SectionUrlPasses()
    ensures IsArticleUrl(PolicialesUrl)
  {
    assert PolicialesUrl[39..51] == "/policiales/";
    assert OccursAt(PolicialesUrl, ArticlePatterns[2], 39);
  }

  /** An item the crawl looks at: it has a link, and the link passes the article filter. */
  predicate IsCandidate(item: Item)
  {
    item.url.Some? && IsArticleUrl(item.url.value)
  }

  /** The stripped title, when the article has a non-empty one. */
  function Title(item: Item): (t: Option<string>)
    ensures t.Some? ==> t.value != "" && item.titulo.Some? && t.value == Strip(item.titulo.value)
    ensures t.None? ==> item.titulo.None? || Strip(item.titulo.value) == ""
  {
    if item.titulo.Some? && Strip(item.titulo.value) != "" then Some(Strip(item.titulo.value)) else None
  }

  /** The article an item yields once it is past the seen and cutoff tests, if any. */
  function Offer(item: Item, today: Date): (r: Option<Article>)
    ensures r.Some? <==> item.url.Some? && Title(item).Some? && item.detail.Some?
    ensures r.Some? ==> r.value.url == item.url.value && r.value.titulo == Title(item).value
    ensures r.Some? ==> r.value.fecha == Some(ItemDate(item.fecha, today)) && r.value.media == MediaName
  {
    if item.url.None? || Title(item).None? || item.detail.None? then None
    else
      var c := SelectorContent(FallbackKeywords, item.detail.value);
      Some(Article(Title(item).value, c.0, c.1, Some(ItemDate(item.fecha, today)), item.url.value, MediaName))
  }

  /** A titled item dated before the limit: the one that ends the crawl (an untitled one is skipped first). */
  predicate Old(item: Item, limit: Option<Date>, today: Date)
  {
    Title(item).Some? && PastLimit(ItemDate(item.fecha, today), limit)
  }

  /** The walk's view of a candidate item. */
  function VisitOf(item: Item, limit: Option<Date>, today: Date): (v: Visit)
    ensures item.url.Some? ==> v.url == item.url.value
    ensures v.verdict.Stop? <==> Old(item, limit, today)
    ensures v.verdict.Take? ==> Offer(item, today) == Some(v.verdict.article) && WithinLimit(v.verdict.article, limit)
    ensures v.verdict.Skip? ==> Offer(item, today).None? && !Old(item, limit, today)
  {
    var url := if item.url.Some? then item.url.value else "";
    if Old(item, limit, today) then Visit(url, Stop)
    else if Offer(item, today).None? then Visit(url, Skip)
    else Visit(url, Take(Offer(item, today).value))
  }

  /** The candidate items, in order: the others are passed over before the seen test. */
  function Candidates(items: seq<Item>): (cs: seq<Item>)
    ensures |cs| <= |items|
    decreases |items|
  {
    if |items| == 0 then []
    else
      var last := items[|items| - 1];
      Candidates(items[..|items| - 1]) + (if IsCandidate(last) then [last] else [])
  }

  /** The candidates are exactly the items whose link passes the article filter. */
  lemma {:induction false} CandidatesExactly(items: seq<Item>, x: Item)
    ensures x in Candidates(items) <==> x in items && IsCandidate(x)
    decreases |items|
  {
    if |items| > 0 {
      var init := items[..|items| - 1];
      CandidatesExactly(init, x);
      assert items == init + [items[|items| - 1]];
    }
  }

  lemma {:induction false} CandidatesAppend(a: seq<Item>, b: seq<Item>)
    ensures Candidates(a + b) == Candidates(a) + Candidates(b)
    decreases |b|
  {
    if |b| == 0 {
      assert a + b == a;
    } else {
      var init := b[..|b| - 1];
      assert (a + b)[..|a + b| - 1] == a + init;
      assert (a + b)[|a + b| - 1] == b[|b| - 1];
      CandidatesAppend(a, init);
    }
  }

  /** The walk's view of each candidate, in order. */
  function Visits(cs: seq<Item>, limit: Option<Date>, today: Date): (vs: seq<Visit>)
    ensures |vs| == |cs|
    decreases |cs|
  {
    if |cs| == 0 then [] else Visits(cs[..|cs| - 1], limit, today) + [VisitOf(cs[|cs| - 1], limit, today)]
  }

  lemma {:induction false} VisitsAt(cs: seq<Item>, limit: Option<Date>, today: Date, k: int)
    requires 0 <= k < |cs|
    ensures Visits(cs, limit, today)[k] == VisitOf(cs[k], limit, today)
    decreases |cs|
  {
    if k < |cs| - 1 {
      VisitsAt(cs[..|cs| - 1], limit, today, k);
    }
  }

  lemma {:induction false} VisitsAppend(a: seq<Item>, b: seq<Item>, limit: Option<Date>, today: Date)
    ensures Visits(a + b, limit, today) == Visits(a, limit, today) + Visits(b, limit, today)
    decreases |b|
  {
    if |b| == 0 {
      assert a + b == a;
    } else {
      var init := b[..|b| - 1];
      assert (a + b)[..|a + b| - 1] == a + init;
      assert (a + b)[|a + b| - 1] == b[|b| - 1];
      VisitsAppend(a, init, limit, today);
    }
  }

  /** The walk's view of the items of a run, in order. */
  function View(items: seq<Item>, limit: Option<Date>, today: Date): (vs: seq<Visit>)
  {
    Visits(Candidates(items), limit, today)
  }

  lemma ViewAppend(a: seq<Item>, b: seq<Item>, limit: Option<Date>, today: Date)
    ensures View(a + b, limit, today) == View(a, limit, today) + View(b, limit, today)
  {
    CandidatesAppend(a, b);
    VisitsAppend(Candidates(a), Candidates(b), limit, today);
  }

  /** One more item adds its visit when it is a candidate, and nothing otherwise. */
  lemma ViewStep(items: seq<Item>, i: int, limit: Option<Date>, today: Date)
    requires 0 <= i < |items|
    ensures !IsCandidate(items[i]) ==> View(items[..i + 1], limit, today) == View(items[..i], limit, today)
    ensures IsCandidate(items[i]) ==>
      View(items[..i + 1], limit, today) == View(items[..i], limit, today) + [VisitOf(items[i], limit, today)]
  {
    assert items[..i + 1][..i] == items[..i];
    var cs := Candidates(items[..i]);
    if IsCandidate(items[i]) {
      assert (cs + [items[i]])[..|cs|] == cs;
    } else {
      assert Candidates(items[..i + 1]) == cs;
    }
  }

  // ---------------------------------------------------------------------------------------
  // The crawl
  // ---------------------------------------------------------------------------------------

  /**
   * `scrape`: reads listing pages in order and walks their articles with a seen set. An
   * article without a link, or whose link passes no article pattern, is passed over; a
   * new URL is marked seen, then skipped without a title, ends the crawl when its date is
   * before the limit, and is otherwise offered to the store when its detail page can be
   * fetched. A listing page without articles ends the crawl, and so does a failed one.
   *
   * `read` is the number of listing pages fetched, and `reachedLimit` says that an old
   * article stopped the crawl.
   */
  method Scrape(pages: seq<seq<Item>>, limit: Option<Date>, today: Date, store: Store)
    returns (count: nat, offered: seq<Article>, read: nat, reachedLimit: bool)
    ensures read <= |pages| && (|pages| > 0 ==> read > 0)
    ensures Filled(pages, read - 1)
    ensures read < |pages| ==> reachedLimit || |pages[read - 1]| == 0
    ensures var w := WalkAll(View(Flatten(pages[..read]), limit, today), true);
      offered == w.offered && reachedLimit == w.stopped
    ensures count == Accepted(store, offered)
  {
    count, offered, read, reachedLimit := 0, [], 0, false;
    var seen: set<string> := {};
    while read < |pages| && !reachedLimit
      invariant read <= |pages| && (reachedLimit ==> read > 0)
      invariant Filled(pages, read)
      invariant Walk(seen, offered, reachedLimit) == WalkAll(View(Flatten(pages[..read]), limit, today), true)
      invariant count == Accepted(store, offered)
      decreases |pages| - read
    {
      var items := pages[read];
      ghost var before := View(Flatten(pages[..read]), limit, today);
      FlattenStep(pages, read);
      ViewAppend(Flatten(pages[..read]), items, limit, today);
      read := read + 1;
      if |items| == 0 {
        assert Candidates(items) == [];
        AppendNothing(before, View(items, limit, today));
        break;
      }
      FilledStep(pages, read - 1);
      seen, offered, count, reachedLimit := ScrapePage(items, limit, today, store, seen, offered, count, before);
    }
  }

  /** The articles of one listing page, in order, until one of them is old. */
  method ScrapePage(items: seq<Item>, limit: Option<Date>, today: Date, store: Store, seen: set<string>,
                    offered: seq<Article>, count: nat, ghost before: seq<Visit>)
    returns (seen': set<string>, offered': seq<Article>, count': nat, reachedLimit: bool)
    requires Walk(seen, offered, false) == WalkAll(before, true) && count == Accepted(store, offered)
    ensures Walk(seen', offered', reachedLimit) == WalkAll(before + View(items, limit, today), true)
    ensures count' == Accepted(store, offered')
  {
    seen', offered', count', reachedLimit := seen, offered, count, false;
    var i := 0;
    PageStart(before, items, limit, today);
    while i < |items| && !reachedLimit
      invariant 0 <= i <= |items|
      invariant Walk(seen', offered', reachedLimit) == WalkAll(before + View(items[..i], limit, today), true)
      invariant count' == Accepted(store, offered')
      decreases |items| - i
    {
      var item := items[i];
      ghost var v := VisitOf(item, limit, today);
      PageStep(before, items, i, limit, today);
      if item.url.Some? && IsArticleUrl(item.url.value) {
        WalkAllStep(before + View(items[..i], limit, today), v, true);
        seen', offered', count', reachedLimit := ScrapeItem(item, limit, today, store, seen', offered', count', v);
      }
      i := i + 1;
    }
    if i < |items| {
      WalkStoppedStays(before + View(items[..i], limit, today), View(items[i..], limit, today), true);
      PageRest(before, items, i, limit, today);
    } else {
      assert items[..i] == items;
    }
  }

  lemma PageStart(before: seq<Visit>, items: seq<Item>, limit: Option<Date>, today: Date)
    ensures before + View(items[..0], limit, today) == before
  {
    assert items[..0] == [] && Candidates([]) == [];
  }

  lemma PageStep(before: seq<Visit>, items: seq<Item>, i: int, limit: Option<Date>, today: Date)
    requires 0 <= i < |items|
    ensures !IsCandidate(items[i]) ==> before + View(items[..i + 1], limit, today) == before + View(items[..i], limit, today)
    ensures IsCandidate(items[i]) ==>
      before + View(items[..i + 1], limit, today) == (before + View(items[..i], limit, today)) + [VisitOf(items[i], limit, today)]
  {
    ViewStep(items, i, limit, today);
  }

  lemma PageRest(before: seq<Visit>, items: seq<Item>, i: int, limit: Option<Date>, today: Date)
    requires 0 <= i <= |items|
    ensures (before + View(items[..i], limit, today)) + View(items[i..], limit, today) == before + View(items, limit, today)
  {
    ViewAppend(items[..i], items[i..], limit, today);
    assert items[..i] + items[i..] == items;
  }

  /**
   * One turn of the per-article loop for a candidate: a seen URL is passed over; a new one
   * is marked seen, then skipped without a title, reported old when its date is before the
   * limit, skipped when the detail page cannot be fetched, and otherwise extracted and
   * offered to the store.
   */
  method ScrapeItem(item: Item, limit: Option<Date>, today: Date, store: Store, seen: set<string>,
                    offered: seq<Article>, count: nat, ghost v: Visit)
    returns (seen': set<string>, offered': seq<Article>, count': nat, isOld: bool)
    requires item.url.Some? && v == VisitOf(item, limit, today) && count == Accepted(store, offered)
    ensures Walk(seen', offered', isOld) == WalkStep(Walk(seen, offered, false), v, true)
    ensures count' == Accepted(store, offered')
  {
    seen', offered', count', isOld := seen, offered, count, false;
    var url := item.url.value;
    if url in seen {
      return;
    }
    seen' := seen + {url};
    if item.titulo.None? {
      return;
    }
    var titulo := Strip(item.titulo.value);
    if titulo == "" {
      return;
    }
    var date := ItemDate(item.fecha, today);
    if PastLimit(date, limit) {
      isOld := true;
      return;
    }
    if item.detail.None? {
      return;
    }
    var contenido, crudo := ExtractSelected(FallbackKeywords, item.detail.value);
    var article := Article(titulo, contenido, crudo, Some(date), url, MediaName);
    assert Offer(item, today) == Some(article);
    AcceptedStep(store, offered, article);
    if store(offered, article) {
      count' := count + 1;
    }
    offered' := offered + [article];
  }

  // ---------------------------------------------------------------------------------------
  // What the crawl guarantees
  // ---------------------------------------------------------------------------------------

  /**
   * Every article offered comes from a listing article whose link passes the article
   * filter, is dated no earlier than the limit, and is offered once per URL.
   */
  lemma OffersSound(items: seq<Item>, limit: Option<Date>, today: Date)
    ensures var offered := WalkAll(View(items, limit, today), true).offered;
      && (forall a | a in offered ::
            WithinLimit(a, limit) && IsArticleUrl(a.url) && exists x | x in items :: Offer(x, today) == Some(a))
      && (forall i, j | 0 <= i < j < |offered| :: offered[i].url != offered[j].url)
  {
    var cs := Candidates(items);
    var vs := Visits(cs, limit, today);
    var offered := WalkAll(vs, true).offered;
    forall a | a in offered
      ensures WithinLimit(a, limit) && IsArticleUrl(a.url) && exists x | x in items :: Offer(x, today) == Some(a)
    {
      WalkSound(vs, true, a);
      var k :| 0 <= k < |vs| && Judged(vs, k, true) && vs[k].verdict == Take(a);
      VisitsAt(cs, limit, today, k);
      CandidatesExactly(items, cs[k]);
    }
    forall k | 0 <= k < |vs|
      ensures vs[k].verdict.Take? ==> vs[k].verdict.article.url == vs[k].url
    {
      VisitsAt(cs, limit, today, k);
    }
    WalkDistinct(vs);
  }

  /** The crawl stops exactly when a candidate it judges is titled and dated before the limit. */
  lemma StopsAtOldItem(items: seq<Item>, limit: Option<Date>, today: Date)
    ensures var cs := Candidates(items);
      var vs := Visits(cs, limit, today);
      WalkAll(vs, true).stopped <==> exists j | 0 <= j < |vs| :: Judged(vs, j, true) && Old(cs[j], limit, today)
  {
    var cs := Candidates(items);
    var vs := Visits(cs, limit, today);
    forall j | 0 <= j < |vs|
      ensures vs[j].verdict.Stop? <==> Old(cs[j], limit, today)
    {
      VisitsAt(cs, limit, today, j);
    }
    WalkStopsAtOld(vs, true);
  }

  /** Every candidate judged before the stop that yields an article has it offered. */
  lemma JudgedArticlesOffered(items: seq<Item>, limit: Option<Date>, today: Date, k: int)
    requires 0 <= k < |Candidates(items)|
    ensures var cs := Candidates(items);
      var vs := Visits(cs, limit, today);
      Judged(vs, k, true) && Offer(cs[k], today).Some? && !Old(cs[k], limit, today) ==>
        Offer(cs[k], today).value in WalkAll(vs, true).offered
  {
    var cs := Candidates(items);
    var vs := Visits(cs, limit, today);
    if Judged(vs, k, true) && Offer(cs[k], today).Some? && !Old(cs[k], limit, today) {
      VisitsAt(cs, limit, today, k);
      WalkComplete(vs, true, k);
    }
  }

  /** The fallback filter never keeps a paragraph that mentions comments. */
  lemma CommentsNeverKept(paragraphs: seq<string>, k: int)
    requires 0 <= k < |MainTexts(FallbackKeywords, paragraphs)|
    ensures !Contains(Lower(MainTexts(FallbackKeywords, paragraphs)[k]), "comentarios")
  {
    MainTextsSound(FallbackKeywords, paragraphs, k);
    assert FallbackKeywords[6] == "comentarios";
  }
}

/**
 * The Todo Jujuy scraper (`TodoJujuyScraper`): listing pages of the police section counted
 * from 0, article links that end in `n<digits>`, and for each titled link a detail page
 * that gives the date (headline date, then the generic date elements), the content and
 * the final title. The cutoff is applied to the detail page's date, so the first old
 * article ends the whole crawl. There is no seen set: a link repeated on the listing is
 * fetched and offered to the store again.
 *
 * The detail page is given as what its selectors find; a detail page whose request
 * raises is `None`. The link's URL is the one `urljoin` built from its `href`.
 */
module TodoJujuy {
  import opened Wrappers
  import opened Text
  import opened Dates
  import opened Crawl
  import opened Walks
  import opened Patterns

  const BaseUrl: string := "https://www.todojujuy.com"
  const PolicialesUrl: string := "https://www.todojujuy.com/policiales"
  const MediaName: string := "todojujuy"

  // ---------------------------------------------------------------------------------------
  // Listing pages
  // ---------------------------------------------------------------------------------------

  /** Listing page `pagina`, counting from 0: the section itself, then `/1`, `/2`, ... */
  function PageUrl(pagina: nat): (u: string)
    ensures pagina == 0 <==> u == PolicialesUrl
    ensures pagina > 0 ==> StartsWith(u, PolicialesUrl + "/")
  {
    if pagina > 0 then NumberedUrl(PolicialesUrl + "/", pagina) else PolicialesUrl
  }

  /** The page number reads back from the end of a numbered listing URL. */
  lemma PageUrlReadBack(pagina: nat)
    requires pagina > 0
    ensures ParseInt(PageUrl(pagina)[|PolicialesUrl| + 1..]) == Some(pagina)
  {
    NumberedUrlReadBack(PolicialesUrl + "/", pagina);
  }

  /** Every listing page has its own URL. */
  lemma PageUrlsDistinct(a: nat, b: nat)
    requires a != b
    ensures PageUrl(a) != PageUrl(b)
  {
    if a > 0 && b > 0 {
      NumberedUrlsDistinct(PolicialesUrl + "/", a, b);
    }
  }

  // ---------------------------------------------------------------------------------------
  // Article identifiers: `n\d+$`
  // ---------------------------------------------------------------------------------------

  /** The text `$` anchors to: `$` also matches just before a final newline. */
  function Anchored(url: string): (s: string)
    ensures |url| > 0 && url[|url| - 1] == '\n' ==> s == url[..|url| - 1]
    ensures !(|url| > 0 && url[|url| - 1] == '\n') ==> s == url
  {
    if |url| > 0 && url[|url| - 1] == '\n' then url[..|url| - 1] else url
  }

  /** Where the run of digits at the end of `s` starts. */
  function TrailingDigitsStart(s: string): (k: nat)
    ensures k <= |s| && AllDigits(s[k..])
    ensures k > 0 ==> !IsAsciiDigit(s[k - 1])
    decreases |s|
  {
    if |s| > 0 && IsAsciiDigit(s[|s| - 1]) then
      var k := TrailingDigitsStart(s[..|s| - 1]);
      assert s[k..] == s[..|s| - 1][k..] + [s[|s| - 1]];
      k
    else |s|
  }

  /**
   * The group of `re.search(r'n(\d+)$', url)`: the digits that end the URL, when an 'n'
   * comes right before them. Only the last run of digits can reach the end, so the match,
   * if any, is there.
   */
  function ArticleId(url: string): (id: Option<string>)
    ensures id.Some? ==> id.value != "" && AllDigits(id.value) && EndsWith(Anchored(url), "n" + id.value)
  {
    var s := Anchored(url);
    var k := TrailingDigitsStart(s);
    if 0 < k < |s| && s[k - 1] == 'n' then
      assert s[k - 1..] == "n" + s[k..];
      Some(s[k..])
    else None
  }

  /** The trailing digit run of a text is found where it starts. */
  lemma {:induction false} TrailingDigitsStartAt(s: string, k: nat)
    requires k <= |s| && AllDigits(s[k..]) && (k > 0 ==> !IsAsciiDigit(s[k - 1]))
    ensures TrailingDigitsStart(s) == k
    decreases |s|
  {
    if k < |s| {
      var init := s[..|s| - 1];
      assert IsAsciiDigit(s[|s| - 1]) by { assert s[|s| - 1] == s[k..][|s| - 1 - k]; }
      assert init[k..] == s[k..][..|s| - 1 - k];
      assert k > 0 ==> init[k - 1] == s[k - 1];
      TrailingDigitsStartAt(init, k);
    }
  }

  /** A URL that ends in 'n' and a number has that number for its identifier. */
  lemma ArticleIdOf(prefix: string, digits: string)
    requires digits != "" && AllDigits(digits)
    ensures ArticleId(prefix + "n" + digits) == Some(digits)
  {
    var url := prefix + "n" + digits;
    assert url[|url| - 1] == digits[|digits| - 1];
    assert Anchored(url) == url;
    var k := |prefix| + 1;
    assert url[k..] == digits && url[k - 1] == 'n';
    TrailingDigitsStartAt(url, k);
  }

  /** A final newline does not change the identifier. */
  lemma ArticleIdBeforeNewline(url: string)
    requires url == "" || url[|url| - 1] != '\n'
    ensures ArticleId(url + "\n") == ArticleId(url)
  {
    assert (url + "\n")[..|url|] == url;
  }

  // ---------------------------------------------------------------------------------------
  // The detail page
  // ---------------------------------------------------------------------------------------

  /** An element a date selector finds: its `datetime` attribute, if any, and its text. */
  datatype DateElement = DateElement(datetime: Option<string>, text: string)

  /**
   * A detail page as the extractors see it, each selector's find in the order the code
   * tries them:
   * - `headline`: the text of `h1.news-headline__title`;
   * - `titleTag`: the text of `<title>`;
   * - `titleElements`: `select_one` of `h1`, `.article-title`, `.news-title`, `.headline`;
   * - `headlineDate`: the text of `span.news-headline__date`;
   * - `dateElements`: `select_one` of `time`, `.date`, `.fecha`, `.article-date`, `[datetime]`;
   * - `containers`: `div.col-12 col-lg-8`, `<article>` and `<body>`.
   */
  datatype ArticlePage = ArticlePage(
    headline: Option<string>,
    titleTag: Option<string>,
    titleElements: seq<Option<string>>,
    headlineDate: Option<string>,
    dateElements: seq<Option<DateElement>>,
    containers: seq<Option<Container>>)

  // ---------------------------------------------------------------------------------------
  // `_extract_date`
  // ---------------------------------------------------------------------------------------

  /**
   * The headline date: the leftmost "<digits> de <word> de <4 digits>" in the stripped
   * text, with the word lower-cased and a known month. `None` falls through to the other
   * date elements; a date that does not exist gives today, as the surrounding `except` does.
   */
  function HeadlineDate(text: Option<string>, today: Date): (r: Option<Date>)
    ensures r.Some? ==> r.value == today || Valid(r.value)
  {
    if text.None? then None
    else
      var m := Search(Strip(text.value), SpelledOut);
      if m.None? then None
      else
        var mes := MonthNumber(Lower(m.value.1));
        if mes.None? then None
        else
          var dia, anio := ParseInt(m.value.0), ParseInt(m.value.2);
          Some(if dia.Some? && anio.Some? then DateOrToday(anio.value, mes.value, dia.value, today) else today)
  }

  /** The generic date patterns, in the order they are tried. */
  const NumericPatterns: seq<DatePattern> := [DayFirst('/'), DayFirst('-'), YearFirst]

  /**
   * The date of a numeric match: year first when the first group has four digits, day first
   * otherwise; today where `int` or `datetime.date` raises.
   */
  function GroupsDate(g: (string, string, string), today: Date): (d: Date)
    ensures d == today || Valid(d)
  {
    var a, b, c := ParseInt(g.0), ParseInt(g.1), ParseInt(g.2);
    if a.None? || b.None? || c.None? then today
    else if |g.0| == 4 then DateOrToday(a.value, b.value, c.value, today)
    else DateOrToday(c.value, b.value, a.value, today)
  }

  /** The first of the patterns `ps` that `re.search` finds in the text, and the date it gives. */
  function PatternsDate(text: string, ps: seq<DatePattern>, today: Date): (r: Option<Date>)
    requires forall k | 0 <= k < |ps| :: WellFormed(ps[k])
    ensures r.Some? ==> r.value == today || Valid(r.value)
    decreases |ps|
  {
    if |ps| == 0 then None
    else
      var m := Search(text, ps[0]);
      if m.Some? then Some(GroupsDate(m.value, today)) else PatternsDate(text, ps[1..], today)
  }

  /**
   * What one date element gives: its `datetime` attribute up to the first 'T' when that is
   * an ISO date, else the first numeric pattern in its stripped text; `None` passes on to
   * the next selector.
   */
  function ElementDate(e: DateElement, today: Date): (r: Option<Date>)
    ensures r.Some? ==> r.value == today || Valid(r.value)
  {
    var iso := if e.datetime.Some? && e.datetime.value != "" then DateTimeDate(TakeUntil(e.datetime.value, 'T')) else None;
    if iso.Some? then iso
    else
      var text := Strip(e.text);
      if text == "" then None else PatternsDate(text, NumericPatterns, today)
  }

  /** The date elements in selector order: the first that gives a date, else today. */
  function SelectorDate(els: seq<Option<DateElement>>, today: Date): (d: Date)
    ensures d == today || Valid(d)
    decreases |els|
  {
    if |els| == 0 then today
    else if els[0].Some? && ElementDate(els[0].value, today).Some? then ElementDate(els[0].value, today).value
    else SelectorDate(els[1..], today)
  }

  /** `_extract_date`: the headline date, else the date elements, else today. */
  function ArticleDate(page: ArticlePage, today: Date): (d: Date)
    ensures d == today || Valid(d)
  {
    var h := HeadlineDate(page.headlineDate, today);
    if h.Some? then h.value else SelectorDate(page.dateElements, today)
  }

  /** The loop over the generic patterns of one element's text. */
  method MatchPatterns(text: string, today: Date) returns (r: Option<Date>)
    ensures r == PatternsDate(text, NumericPatterns, today)
  {
    var ps := NumericPatterns;
    var i := 0;
    r := None;
    while i < |ps|
      invariant 0 <= i <= |ps|
      invariant PatternsDate(text, ps, today) == PatternsDate(text, ps[i..], today)
      decreases |ps| - i
    {
      assert ps[i..][1..] == ps[i + 1..];
      var m := Search(text, ps[i]);
      if m.Some? {
        r := Some(GroupsDate(m.value, today));
        return;
      }
      i := i + 1;
    }
  }

  /** `_extract_date` with its loops: the headline, then each selector in turn. */
  method ExtractDate(page: ArticlePage, today: Date) returns (fecha: Date)
    ensures fecha == ArticleDate(page, today)
  {
    var h := HeadlineDate(page.headlineDate, today);
    if h.Some? {
      return h.value;
    }
    var els := page.dateElements;
    var i := 0;
    while i < |els|
      invariant 0 <= i <= |els|
      invariant SelectorDate(els, today) == SelectorDate(els[i..], today)
      decreases |els| - i
    {
      assert els[i..][1..] == els[i + 1..];
      if els[i].Some? {
        var e := els[i].value;
        var found: Option<Date> := None;
        if e.datetime.Some? && e.datetime.value != "" {
          found := DateTimeDate(TakeUntil(e.datetime.value, 'T'));
        }
        if found.None? {
          var text := Strip(e.text);
          if text != "" {
            found := MatchPatterns(text, today);
          }
        }
        if found.Some? {
          return found.value;
        }
      }
      i := i + 1;
    }
    return today;
  }

  // The date forms read back.

  /** The headline form "D de <mes> de YYYY", followed by anything, spelled for a date. */
  function HeadlineText(d: Date, tail: string): string
    requires Valid(d)
  {
    NatToStr(d.day) + " de " + MonthNames[d.month - 1] + " de " + PadNat(d.year, 4) + tail
  }

  /** The headline date of a text whose spelled-out match has digit groups: the month table decides. */
  lemma HeadlineDateOf(text: string, ds: string, w: string, yy: string, today: Date)
    requires Search(Strip(text), SpelledOut) == Some((ds, w, yy))
    requires |ds| >= 1 && AllDigits(ds) && |yy| >= 1 && AllDigits(yy)
    ensures var mes := MonthNumber(Lower(w));
      HeadlineDate(Some(text), today)
      == if mes.None? then None else Some(DateOrToday(DigitsValue(yy), mes.value, DigitsValue(ds), today))
  {
    DigitsParse(ds);
    DigitsParse(yy);
  }

  /** The headline text of a date is matched with the day, the month name and the year as groups. */
  lemma HeadlineGroups(day: nat, month: int, year: nat, tail: string)
    requires 1 <= month <= 12 && year < 10000 && (|tail| > 0 ==> !IsSpace(tail[|tail| - 1]))
    ensures var yy := PadNat(year, 4);
      Search(Strip(NatToStr(day) + " de " + MonthNames[month - 1] + " de " + yy + tail), SpelledOut)
      == Some((NatToStr(day), MonthNames[month - 1], yy))
  {
    LeadingPadding(year, 4);
    MonthNameIsLowerWord(month - 1);
    SpelledSearchOf(NatToStr(day), MonthNames[month - 1], PadNat(year, 4), tail);
  }

  /** A spelled headline date with a month of the table gives `datetime.date` of its numbers, or today. */
  lemma HeadlineNumbers(day: nat, month: int, year: nat, tail: string, today: Date)
    requires 1 <= month <= 12 && year < 10000 && (|tail| > 0 ==> !IsSpace(tail[|tail| - 1]))
    ensures HeadlineDate(Some(NatToStr(day) + " de " + MonthNames[month - 1] + " de " + PadNat(year, 4) + tail), today)
         == Some(DateOrToday(year, month, day, today))
  {
    var ds, w, yy := NatToStr(day), MonthNames[month - 1], PadNat(year, 4);
    HeadlineGroups(day, month, year, tail);
    LeadingPadding(year, 4);
    NatToStrValue(day);
    HeadlineDateOf(ds + " de " + w + " de " + yy + tail, ds, w, yy, today);
    MonthNameIsLowerWord(month - 1);
    MonthNamesRecognised(month);
  }

  /** A headline such as "8 de mayo de 2025 - 12:16" gives its date, whatever the other elements hold. */
  lemma HeadlineRoundTrip(d: Date, tail: string, page: ArticlePage, today: Date)
    requires Valid(d) && (|tail| > 0 ==> !IsSpace(tail[|tail| - 1]))
    requires page.headlineDate == Some(HeadlineText(d, tail))
    ensures ArticleDate(page, today) == d
  {
    HeadlineNumbers(d.day, d.month, d.year, tail, today);
  }

  /** A headline whose month word the table does not know falls through to the date elements. */
  lemma UnknownMonthFallsThrough(page: ArticlePage, today: Date)
    requires page.headlineDate.Some?
    requires var m := Search(Strip(page.headlineDate.value), SpelledOut);
      m.Some? && Lower(m.value.1) !in MonthNames
    ensures ArticleDate(page, today) == SelectorDate(page.dateElements, today)
  {
  }

  /** A headline date that does not exist, such as the 31st of February, gives today. */
  lemma NonexistentHeadlineDateIsToday(day: nat, month: int, year: nat, tail: string, page: ArticlePage, today: Date)
    requires 1 <= day && 1 <= month <= 12 && 1 <= year <= 9999 && !Valid(Date(year, month, day))
    requires |tail| > 0 ==> !IsSpace(tail[|tail| - 1])
    requires page.headlineDate == Some(NatToStr(day) + " de " + MonthNames[month - 1] + " de " + PadNat(year, 4) + tail)
    ensures ArticleDate(page, today) == today
  {
    HeadlineNumbers(day, month, year, tail, today);
  }

  /** An element with no `datetime` attribute and text with no blank at either end is read by the generic patterns. */
  lemma ElementTextDate(text: string, today: Date)
    requires text != "" && Strip(text) == text
    ensures ElementDate(DateElement(None, text), today) == PatternsDate(text, NumericPatterns, today)
  {
  }

  /** The generic patterns are tried in order: day first with '/', day first with '-', then year first. */
  lemma NumericPatternsInOrder(text: string, today: Date)
    ensures var slash, dash, iso := Search(text, DayFirst('/')), Search(text, DayFirst('-')), Search(text, YearFirst);
      PatternsDate(text, NumericPatterns, today)
      == if slash.Some? then Some(GroupsDate(slash.value, today))
         else if dash.Some? then Some(GroupsDate(dash.value, today))
         else if iso.Some? then Some(GroupsDate(iso.value, today))
         else None
  {
    var ps := NumericPatterns;
    assert ps[1..] == [DayFirst('-'), YearFirst] && ps[1..][1..] == [YearFirst] && ps[1..][1..][1..] == [];
  }

  /** Groups made of digits give `datetime.date` of their values, year first when the first group has four digits. */
  lemma GroupsDigits(a: string, b: string, c: string, today: Date)
    requires |a| >= 1 && AllDigits(a) && |b| >= 1 && AllDigits(b) && |c| >= 1 && AllDigits(c)
    ensures GroupsDate((a, b, c), today)
         == if |a| == 4 then DateOrToday(DigitsValue(a), DigitsValue(b), DigitsValue(c), today)
            else DateOrToday(DigitsValue(c), DigitsValue(b), DigitsValue(a), today)
  {
    DigitsParse(a);
    DigitsParse(b);
    DigitsParse(c);
  }

  /** The first generic pattern finds the D/M/YYYY form of a date at its start, with its three groups. */
  lemma SlashSearch(d: Date)
    requires Valid(d)
    ensures Strip(SlashFormat(d)) == SlashFormat(d)
    ensures Search(SlashFormat(d), DayFirst('/')) == Some((PadNat(d.day, 2), PadNat(d.month, 2), PadNat(d.year, 4)))
  {
    var dd, mm, yy := PadNat(d.day, 2), PadNat(d.month, 2), PadNat(d.year, 4);
    LeadingPadding(d.day, 2);
    LeadingPadding(d.month, 2);
    LeadingPadding(d.year, 4);
    assert SlashFormat(d) == dd + ['/'] + mm + ['/'] + yy;
    DayFirstOf(dd, mm, yy, '/');
    DigitEndsStripped(dd, mm, yy);
  }

  /** Text in the D/M/YYYY form is read day first by the first generic pattern. */
  lemma SlashTextReads(d: Date, today: Date)
    requires Valid(d)
    ensures ElementDate(DateElement(None, SlashFormat(d)), today) == Some(d)
  {
    var t := SlashFormat(d);
    SlashSearch(d);
    ElementTextDate(t, today);
    NumericPatternsInOrder(t, today);
    LeadingPadding(d.day, 2);
    LeadingPadding(d.year, 4);
    GroupsDigits(PadNat(d.day, 2), PadNat(d.month, 2), PadNat(d.year, 4), today);
  }

  /** An ISO date holds no character but digits and dashes. */
  lemma IsoHasNo(d: Date, c: char)
    requires Valid(d) && c != '-' && !IsAsciiDigit(c)
    ensures c !in IsoFormat(d)
  {
    DigitsHaveNo(PadNat(d.year, 4), c);
    DigitsHaveNo(PadNat(d.month, 2), c);
    DigitsHaveNo(PadNat(d.day, 2), c);
  }

  /** The only dashes of an ISO date are at positions 4 and 7. */
  lemma IsoDashes(d: Date, x: int)
    requires Valid(d) && 0 <= x < |IsoFormat(d)| && IsoFormat(d)[x] == '-'
    ensures |IsoFormat(d)| == 10 && (x == 4 || x == 7)
  {
    var y, m, dd := PadNat(d.year, 4), PadNat(d.month, 2), PadNat(d.day, 2);
    LeadingPadding(d.year, 4);
    LeadingPadding(d.month, 2);
    LeadingPadding(d.day, 2);
    var t := IsoFormat(d);
    assert t == y + "-" + m + "-" + dd;
    if x < 4 {
      DigitAt(y, x);
    } else if 4 < x < 7 {
      DigitAt(m, x - 5);
    } else if 7 < x {
      DigitAt(dd, x - 8);
    }
  }

  lemma DigitAt(s: string, i: int)
    requires AllDigits(s) && 0 <= i < |s|
    ensures s[i] != '-'
  {
    DigitsHaveNo(s, '-');
  }

  /** The day-first dash pattern finds nothing in an ISO date: four digits never follow its second dash. */
  lemma IsoNotDayFirst(d: Date)
    requires Valid(d)
    ensures Search(IsoFormat(d), DayFirst('-')).None?
  {
    var t := IsoFormat(d);
    forall j | 0 <= j <= |t|
      ensures DayFirstAt(t, j, '-').None?
    {
      var a := ShortNumberThen(t, j, '-');
      if a.Some? {
        IsoDashes(d, a.value - 1);
        var b := ShortNumberThen(t, a.value, '-');
        if b.Some? {
          IsoDashes(d, b.value - 1);
        }
      }
    }
  }

  /** The year-first pattern finds the ISO form of a date at its start, with its three groups. */
  lemma IsoSearch(d: Date)
    requires Valid(d)
    ensures Strip(IsoFormat(d)) == IsoFormat(d)
    ensures Search(IsoFormat(d), YearFirst) == Some((PadNat(d.year, 4), PadNat(d.month, 2), PadNat(d.day, 2)))
  {
    var y, m, dd := PadNat(d.year, 4), PadNat(d.month, 2), PadNat(d.day, 2);
    LeadingPadding(d.year, 4);
    LeadingPadding(d.month, 2);
    LeadingPadding(d.day, 2);
    var t := IsoFormat(d);
    assert t[..4] == y && t[4..5] == "-" && t[5..7] == m && t[7] == '-' && t[8..10] == dd;
    ShortNumberOf(t, 5, m, '-');
    assert YearFirstAt(t, 0) == Some((y, m, dd));
    assert t[0] == y[0] && t[9] == dd[1];
    StripNoSpace(t);
    SearchFindsFirst(t, YearFirst, 0);
  }

  /** The YYYY-MM-DD form read from an element's text is read year first. */
  lemma IsoTextReads(d: Date, today: Date)
    requires Valid(d)
    ensures ElementDate(DateElement(None, IsoFormat(d)), today) == Some(d)
  {
    var t := IsoFormat(d);
    IsoSearch(d);
    IsoHasNo(d, '/');
    DayFirstNeedsSeparator(t, '/');
    IsoNotDayFirst(d);
    ElementTextDate(t, today);
    NumericPatternsInOrder(t, today);
    LeadingPadding(d.year, 4);
    LeadingPadding(d.day, 2);
    GroupsDigits(PadNat(d.year, 4), PadNat(d.month, 2), PadNat(d.day, 2), today);
  }

  /**
   * A `datetime` attribute holding an ISO date gives that date, whether a time follows after
   * 'T' or after a space.
   */
  lemma DatetimeAttributeReads(d: Date, time: string, text: string, today: Date)
    requires Valid(d)
    ensures ElementDate(DateElement(Some(IsoFormat(d) + "T" + time), text), today) == Some(d)
    ensures |time| > 0 && 'T' !in time ==>
      ElementDate(DateElement(Some(IsoFormat(d) + " " + time), text), today) == Some(d)
  {
    var s := IsoFormat(d);
    IsoHasNo(d, 'T');
    DateTimeRoundTrip(d, ' ', "0");
    assert TakeUntil(s + "T" + time, 'T') == s by {
      TakeUntilFirst(s, "T" + time, 'T');
      assert s + "T" + time == s + ("T" + time);
    }
    assert DateTimeDate(s) == Some(d);
    if |time| > 0 && 'T' !in time {
      DateTimeRoundTrip(d, ' ', time);
      assert s + " " + time == s + [' '] + time;
      assert TakeUntil(s + " " + time, 'T') == s + " " + time by {
        TakeUntilNone(s + " " + time, 'T');
      }
    }
  }

  /** `split(c)[0]` of a text without `c` is the whole text. */
  lemma {:induction false} TakeUntilNone(s: string, c: char)
    requires c !in s
    ensures TakeUntil(s, c) == s
    decreases |s|
  {
    if |s| > 0 {
      TakeUntilNone(s[1..], c);
      assert s == [s[0]] + s[1..];
    }
  }

  /** `split(c)[0]` of a text whose first `c` comes right after a prefix is that prefix. */
  lemma {:induction false} TakeUntilFirst(s: string, rest: string, c: char)
    requires c !in s && |rest| > 0 && rest[0] == c
    ensures TakeUntil(s + rest, c) == s
    decreases |s|
  {
    if |s| > 0 {
      assert (s + rest)[1..] == s[1..] + rest;
      TakeUntilFirst(s[1..], rest, c);
    }
  }

  /** The date elements are tried in order: those before the first one that gives a date are passed over. */
  lemma {:induction false} SelectorDateIsFirst(els: seq<Option<DateElement>>, k: int, today: Date)
    requires 0 <= k < |els| && els[k].Some? && ElementDate(els[k].value, today).Some?
    requires forall j | 0 <= j < k :: els[j].None? || ElementDate(els[j].value, today).None?
    ensures SelectorDate(els, today) == ElementDate(els[k].value, today).value
    decreases k
  {
    if k > 0 {
      SelectorDateIsFirst(els[1..], k - 1, today);
    }
  }

  /** With no headline date and no element that gives a date, the article is dated today. */
  lemma {:induction false} NoDateIsToday(els: seq<Option<DateElement>>, today: Date)
    requires forall j | 0 <= j < |els| :: els[j].None? || ElementDate(els[j].value, today).None?
    ensures SelectorDate(els, today) == today
    decreases |els|
  {
    if |els| > 0 {
      NoDateIsToday(els[1..], today);
    }
  }

  // ---------------------------------------------------------------------------------------
  // `_extract_title`
  // ---------------------------------------------------------------------------------------

  /** The first title element with non-empty stripped text, else the fallback. */
  function FirstTitle(els: seq<Option<string>>, fallback: string): (r: string)
    ensures fallback != "" ==> r != ""
    decreases |els|
  {
    if |els| == 0 then fallback
    else if els[0].Some? && Strip(els[0].value) != "" then Strip(els[0].value)
    else FirstTitle(els[1..], fallback)
  }

  /** The title elements' choice is the first element with text, or the fallback. */
  lemma {:induction false} FirstTitleSource(els: seq<Option<string>>, fallback: string)
    ensures var r := FirstTitle(els, fallback);
      r == fallback || exists k | 0 <= k < |els| :: els[k].Some? && r == Strip(els[k].value) && r != ""
    decreases |els|
  {
    if |els| > 0 && !(els[0].Some? && Strip(els[0].value) != "") {
      FirstTitleSource(els[1..], fallback);
      var r := FirstTitle(els, fallback);
      if r != fallback {
        var k :| 0 <= k < |els[1..]| && els[1..][k].Some? && r == Strip(els[1..][k].value) && r != "";
        assert els[k + 1] == els[1..][k];
      }
    }
  }

  /**
   * `_extract_title`: the headline's text, even when empty; else the `<title>` text when it
   * is non-empty and differs from the listing title; else the first title element with
   * text; else the listing title.
   */
  function FinalTitle(page: ArticlePage, fallback: string): (r: string)
  {
    if page.headline.Some? then Strip(page.headline.value)
    else if page.titleTag.Some? && Strip(page.titleTag.value) != "" && Strip(page.titleTag.value) != fallback
    then Strip(page.titleTag.value)
    else FirstTitle(page.titleElements, fallback)
  }

  /** Without the headline element, the final title is never empty when the listing title is not. */
  lemma FinalTitleNonEmpty(page: ArticlePage, fallback: string)
    requires page.headline.None? && fallback != ""
    ensures FinalTitle(page, fallback) != ""
  {
  }

  /** The final title is the headline, the `<title>`, a title element or the listing title. */
  lemma FinalTitleSource(page: ArticlePage, fallback: string)
    ensures var r := FinalTitle(page, fallback);
      || (page.headline.Some? && r == Strip(page.headline.value))
      || (page.titleTag.Some? && r == Strip(page.titleTag.value))
      || (exists k | 0 <= k < |page.titleElements| :: page.titleElements[k].Some? && r == Strip(page.titleElements[k].value))
      || r == fallback
  {
    FirstTitleSource(page.titleElements, fallback);
  }

  /** A headline element with no text gives an empty title, whatever the listing title was. */
  lemma EmptyHeadlineWins(page: ArticlePage, fallback: string)
    requires page.headline.Some? && Strip(page.headline.value) == ""
    ensures FinalTitle(page, fallback) == ""
  {
  }

  /** `_extract_title` with its selector loop. */
  method ExtractTitle(page: ArticlePage, fallback: string) returns (titulo: string)
    ensures titulo == FinalTitle(page, fallback)
  {
    if page.headline.Some? {
      return Strip(page.headline.value);
    }
    if page.titleTag.Some? {
      var text := Strip(page.titleTag.value);
      if text != "" && text != fallback {
        return text;
      }
    }
    var els := page.titleElements;
    var i := 0;
    while i < |els|
      invariant 0 <= i <= |els|
      invariant FirstTitle(els, fallback) == FirstTitle(els[i..], fallback)
      decreases |els| - i
    {
      assert els[i..][1..] == els[i + 1..];
      if els[i].Some? {
        var text := Strip(els[i].value);
        if text != "" {
          return text;
        }
      }
      i := i + 1;
    }
    return fallback;
  }

  // ---------------------------------------------------------------------------------------
  // `_extract_content`
  // ---------------------------------------------------------------------------------------

  /** A stripped paragraph the content keeps: non-empty, and neither the copyright line nor the channel invitation. */
  predicate Kept(text: string)
  {
    text != "" && !Contains(text, "Copyright ©") && !Contains(text, "Sumate al Canal")
  }

  /** The `contenido_parts` the paragraph loop collects. */
  function KeptTexts(paragraphs: seq<string>): (parts: seq<string>)
    ensures |parts| <= |paragraphs|
    decreases |paragraphs|
  {
    if |paragraphs| == 0 then []
    else
      var text := Strip(paragraphs[|paragraphs| - 1]);
      KeptTexts(paragraphs[..|paragraphs| - 1]) + (if Kept(text) then [text] else [])
  }

  /** Every collected part is kept and is the stripped text of one of the paragraphs. */
  lemma {:induction false} KeptTextsSound(paragraphs: seq<string>, k: int)
    requires 0 <= k < |KeptTexts(paragraphs)|
    ensures Kept(KeptTexts(paragraphs)[k])
    ensures exists j | 0 <= j < |paragraphs| :: KeptTexts(paragraphs)[k] == Strip(paragraphs[j])
    decreases |paragraphs|
  {
    var init := paragraphs[..|paragraphs| - 1];
    var parts := KeptTexts(paragraphs);
    if k < |KeptTexts(init)| {
      KeptTextsSound(init, k);
      var j :| 0 <= j < |init| && KeptTexts(init)[k] == Strip(init[j]);
      assert parts[k] == Strip(paragraphs[j]);
    } else {
      assert parts[k] == Strip(paragraphs[|paragraphs| - 1]);
    }
  }

  /** Every paragraph whose stripped text is kept is collected. */
  lemma {:induction false} KeptTextsComplete(paragraphs: seq<string>, j: int)
    requires 0 <= j < |paragraphs| && Kept(Strip(paragraphs[j]))
    ensures Strip(paragraphs[j]) in KeptTexts(paragraphs)
    decreases |paragraphs|
  {
    var init := paragraphs[..|paragraphs| - 1];
    var last := Strip(paragraphs[|paragraphs| - 1]);
    var tail := if Kept(last) then [last] else [];
    assert KeptTexts(paragraphs) == KeptTexts(init) + tail;
    if j < |init| {
      assert Strip(init[j]) == Strip(paragraphs[j]);
      KeptTextsComplete(init, j);
      assert Strip(paragraphs[j]) in KeptTexts(init);
    } else {
      assert Strip(paragraphs[j]) == last && tail == [last];
      assert last in tail;
    }
  }

  /**
   * `_extract_content`: the first container found, its kept paragraphs joined by blank
   * lines and its HTML; with no container at all, both empty (the `except` branch).
   */
  function PageContent(page: ArticlePage): (r: (string, string))
    ensures FirstFound(page.containers).None? ==> r == ("", "")
    ensures FirstFound(page.containers).Some? ==> r.1 == FirstFound(page.containers).value.html
  {
    var c := FirstFound(page.containers);
    if c.None? then ("", "") else (Join(ParagraphSep, KeptTexts(c.value.paragraphs)), c.value.html)
  }

  /** No part of the content is the copyright line or the channel invitation. */
  lemma BoilerplateLeftOut(page: ArticlePage, k: int)
    requires FirstFound(page.containers).Some?
    requires 0 <= k < |KeptTexts(FirstFound(page.containers).value.paragraphs)|
    ensures var part := KeptTexts(FirstFound(page.containers).value.paragraphs)[k];
      part != "" && !Contains(part, "Copyright ©") && !Contains(part, "Sumate al Canal")
      && Contains(PageContent(page).0, part)
  {
    var ps := FirstFound(page.containers).value.paragraphs;
    KeptTextsSound(ps, k);
    JoinContainsParts(ParagraphSep, KeptTexts(ps), k);
  }

  /** The paragraph loop of `_extract_content` over the first container found. */
  method ExtractContent(page: ArticlePage) returns (contenido: string, crudo: string)
    ensures (contenido, crudo) == PageContent(page)
  {
    var c := FirstFound(page.containers);
    if c.None? {
      return "", "";
    }
    var paragraphs := c.value.paragraphs;
    var parts: seq<string> := [];
    for i := 0 to |paragraphs|
      invariant parts == KeptTexts(paragraphs[..i])
    {
      assert paragraphs[..i + 1][..i] == paragraphs[..i];
      var text := Strip(paragraphs[i]);
      if Kept(text) {
        parts := parts + [text];
      }
    }
    assert paragraphs[..|paragraphs|] == paragraphs;
    contenido, crudo := Join(ParagraphSep, parts), c.value.html;
  }

  // ---------------------------------------------------------------------------------------
  // The listing link
  // ---------------------------------------------------------------------------------------

  /**
   * One `<a>` whose `href` ends in `n<digits>`: the absolute URL, the link's text, the text
   * of its first `h2`, `h3` or `.title` child, and the detail page (`None` when the request
   * raises). The two texts are independent here; on a real page the child is a descendant of
   * the `<a>`, so its text is part of the link's text and the child fallback never decides.
   */
  datatype Link = Link(url: string, text: string, childTitle: Option<string>, detail: Option<ArticlePage>)

  /** The joined URL still ends in an article identifier. */
  predicate IsCandidate(link: Link)
  {
    ArticleId(link.url).Some?
  }

  /** The listing title: the link's stripped text, else its title child's; `None` when both are empty. */
  function Title(link: Link): (t: Option<string>)
    ensures t.Some? ==> t.value != ""
    ensures Strip(link.text) != "" ==> t == Some(Strip(link.text))
    ensures t.None? <==> Strip(link.text) == "" && (link.childTitle.None? || Strip(link.childTitle.value) == "")
  {
    var own := Strip(link.text);
    if own != "" then Some(own)
    else if link.childTitle.Some? && Strip(link.childTitle.value) != "" then Some(Strip(link.childTitle.value))
    else None
  }

  /** The article a candidate yields once fetched, if it is titled and its page can be fetched. */
  function Offer(link: Link, today: Date): (r: Option<Article>)
    ensures r.Some? <==> Title(link).Some? && link.detail.Some?
    ensures r.Some? ==> r.value.url == link.url && r.value.media == MediaName
    ensures r.Some? ==> r.value.fecha == Some(ArticleDate(link.detail.value, today))
    ensures r.Some? ==> r.value.titulo == FinalTitle(link.detail.value, Title(link).value)
  {
    if Title(link).None? || link.detail.None? then None
    else
      var page := link.detail.value;
      var c := PageContent(page);
      Some(Article(FinalTitle(page, Title(link).value), c.0, c.1, Some(ArticleDate(page, today)), link.url, MediaName))
  }

  /** A titled link whose detail page is dated before the limit: the one that ends the crawl. */
  predicate Old(link: Link, limit: Option<Date>, today: Date)
  {
    Title(link).Some? && link.detail.Some? && PastLimit(ArticleDate(link.detail.value, today), limit)
  }

  /** The walk's view of a candidate link. */
  function VisitOf(link: Link, limit: Option<Date>, today: Date): (v: Visit)
    ensures v.url == link.url
    ensures v.verdict.Stop? <==> Old(link, limit, today)
    ensures v.verdict.Take? ==> Offer(link, today) == Some(v.verdict.article) && WithinLimit(v.verdict.article, limit)
    ensures v.verdict.Skip? ==> Offer(link, today).None? && !Old(link, limit, today)
  {
    if Old(link, limit, today) then Visit(link.url, Stop)
    else if Offer(link, today).None? then Visit(link.url, Skip)
    else Visit(link.url, Take(Offer(link, today).value))
  }

  /** The candidate links, in order. */
  function Candidates(links: seq<Link>): (cs: seq<Link>)
    ensures |cs| <= |links|
    decreases |links|
  {
    if |links| == 0 then []
    else
      var last := links[|links| - 1];
      Candidates(links[..|links| - 1]) + (if IsCandidate(last) then [last] else [])
  }

  /** The candidates are exactly the links whose URL ends in an article identifier. */
  lemma {:induction false} CandidatesExactly(links: seq<Link>, x: Link)
    ensures x in Candidates(links) <==> x in links && IsCandidate(x)
    decreases |links|
  {
    if |links| > 0 {
      var init := links[..|links| - 1];
      CandidatesExactly(init, x);
      assert links == init + [links[|links| - 1]];
    }
  }

  lemma {:induction false} CandidatesAppend(a: seq<Link>, b: seq<Link>)
    ensures Candidates(a + b) == Candidates(a) + Candidates(b)
    decreases |b|
  {
    if |b| == 0 {
      assert a + b == a;
    } else {
      var init := b[..|b| - 1];
      assert (a + b)[..|a + b| - 1] == a + init;
      assert (a + b)[|a + b| - 1] == b[|b| - 1];
      CandidatesAppend(a, init);
    }
  }

  /** The walk's view of each candidate, in order. */
  function Visits(cs: seq<Link>, limit: Option<Date>, today: Date): (vs: seq<Visit>)
    ensures |vs| == |cs|
  {
    seq(|cs|, k requires 0 <= k < |cs| => VisitOf(cs[k], limit, today))
  }

  lemma VisitsAppend(a: seq<Link>, b: seq<Link>, limit: Option<Date>, today: Date)
    ensures Visits(a + b, limit, today) == Visits(a, limit, today) + Visits(b, limit, today)
  {
    var l, r := Visits(a + b, limit, today), Visits(a, limit, today) + Visits(b, limit, today);
    forall k | 0 <= k < |l|
      ensures l[k] == r[k]
    {
      if k < |a| {
        assert (a + b)[k] == a[k];
      } else {
        assert (a + b)[k] == b[k - |a|];
      }
    }
  }

  /** The walk's view of the links of a run, in order. */
  function View(links: seq<Link>, limit: Option<Date>, today: Date): (vs: seq<Visit>)
  {
    Visits(Candidates(links), limit, today)
  }

  lemma ViewAppend(a: seq<Link>, b: seq<Link>, limit: Option<Date>, today: Date)
    ensures View(a + b, limit, today) == View(a, limit, today) + View(b, limit, today)
  {
    CandidatesAppend(a, b);
    VisitsAppend(Candidates(a), Candidates(b), limit, today);
  }

  /** One more link adds its visit when it is a candidate, and nothing otherwise. */
  lemma ViewStep(links: seq<Link>, i: int, limit: Option<Date>, today: Date)
    requires 0 <= i < |links|
    ensures !IsCandidate(links[i]) ==> View(links[..i + 1], limit, today) == View(links[..i], limit, today)
    ensures IsCandidate(links[i]) ==>
      View(links[..i + 1], limit, today) == View(links[..i], limit, today) + [VisitOf(links[i], limit, today)]
  {
    assert links[..i + 1] == links[..i] + [links[i]];
    assert View(links[..i + 1], limit, today) == View(links[..i], limit, today) + View([links[i]], limit, today) by {
      ViewAppend(links[..i], [links[i]], limit, today);
    }
    ViewOfOne(links[i], limit, today);
  }

  /** A single link's view is its visit when it is a candidate, and empty otherwise. */
  lemma ViewOfOne(x: Link, limit: Option<Date>, today: Date)
    ensures View([x], limit, today) == if IsCandidate(x) then [VisitOf(x, limit, today)] else []
  {
    assert [x][..0] == [];
  }

  // ---------------------------------------------------------------------------------------
  // The crawl
  // ---------------------------------------------------------------------------------------

  /**
   * `scrape`: reads listing pages 0, 1, 2, ... and walks their links without a seen set.
   * A link whose URL does not end in an article identifier is passed over; an untitled one
   * is skipped; a titled one is fetched, and ends the crawl when its page is dated before
   * the limit, and is otherwise offered to the store. A page without links ends the crawl,
   * and so does a failed one.
   *
   * `read` is the number of listing pages fetched, and `reachedLimit` says that an old
   * article stopped the crawl.
   */
  method Scrape(pages: seq<seq<Link>>, limit: Option<Date>, today: Date, store: Store)
    returns (count: nat, offered: seq<Article>, read: nat, reachedLimit: bool)
    ensures read <= |pages| && (|pages| > 0 ==> read > 0)
    ensures Filled(pages, read - 1)
    ensures read < |pages| ==> reachedLimit || |pages[read - 1]| == 0
    ensures var w := WalkAll(View(Flatten(pages[..read]), limit, today), false);
      offered == w.offered && reachedLimit == w.stopped
    ensures count == Accepted(store, offered)
  {
    count, offered, read, reachedLimit := 0, [], 0, false;
    while read < |pages| && !reachedLimit
      invariant read <= |pages| && (reachedLimit ==> read > 0)
      invariant Filled(pages, read)
      invariant var w := WalkAll(View(Flatten(pages[..read]), limit, today), false);
        offered == w.offered && reachedLimit == w.stopped
      invariant count == Accepted(store, offered)
      decreases |pages| - read
    {
      var links := pages[read];
      ghost var before := View(Flatten(pages[..read]), limit, today);
      FlattenStep(pages, read);
      ViewAppend(Flatten(pages[..read]), links, limit, today);
      read := read + 1;
      if |links| == 0 {
        assert Candidates(links) == [];
        assert before + View(links, limit, today) == before;
        break;
      }
      FilledStep(pages, read - 1);
      offered, count, reachedLimit := ScrapePage(links, limit, today, store, offered, count, before);
    }
  }

  /** The links of one listing page, in order, until one of them is old. */
  method ScrapePage(links: seq<Link>, limit: Option<Date>, today: Date, store: Store,
                    offered: seq<Article>, count: nat, ghost before: seq<Visit>)
    returns (offered': seq<Article>, count': nat, reachedLimit: bool)
    requires var w := WalkAll(before, false); offered == w.offered && !w.stopped
    requires count == Accepted(store, offered)
    ensures var w := WalkAll(before + View(links, limit, today), false);
      offered' == w.offered && reachedLimit == w.stopped
    ensures count' == Accepted(store, offered')
  {
    offered', count', reachedLimit := offered, count, false;
    var i := 0;
    PageStart(before, links, limit, today);
    while i < |links| && !reachedLimit
      invariant 0 <= i <= |links|
      invariant var w := WalkAll(before + View(links[..i], limit, today), false);
        offered' == w.offered && reachedLimit == w.stopped
      invariant count' == Accepted(store, offered')
      decreases |links| - i
    {
      offered', count', reachedLimit := ScrapeAt(links, i, limit, today, store, offered', count', before);
      i := i + 1;
    }
    if i < |links| {
      WalkStoppedStays(before + View(links[..i], limit, today), View(links[i..], limit, today), false);
      PageRest(before, links, i, limit, today);
    } else {
      assert links[..i] == links;
    }
  }

  /** The body of the per-link loop: a link whose URL has no article identifier is passed over. */
  method ScrapeAt(links: seq<Link>, i: nat, limit: Option<Date>, today: Date, store: Store,
                  offered: seq<Article>, count: nat, ghost before: seq<Visit>)
    returns (offered': seq<Article>, count': nat, isOld: bool)
    requires i < |links|
    requires var w := WalkAll(before + View(links[..i], limit, today), false); offered == w.offered && !w.stopped
    requires count == Accepted(store, offered)
    ensures var w := WalkAll(before + View(links[..i + 1], limit, today), false);
      offered' == w.offered && isOld == w.stopped
    ensures count' == Accepted(store, offered')
  {
    offered', count', isOld := offered, count, false;
    var link := links[i];
    PageStep(before, links, i, limit, today);
    if ArticleId(link.url).Some? {
      ghost var v := VisitOf(link, limit, today);
      ghost var w := WalkAll(before + View(links[..i], limit, today), false);
      WalkAllStep(before + View(links[..i], limit, today), v, false);
      offered', count', isOld := ScrapeLink(link, limit, today, store, offered, count, w, v);
    }
  }

  lemma PageStart(before: seq<Visit>, links: seq<Link>, limit: Option<Date>, today: Date)
    ensures before + View(links[..0], limit, today) == before
  {
    assert links[..0] == [] && Candidates([]) == [];
  }

  lemma PageStep(before: seq<Visit>, links: seq<Link>, i: int, limit: Option<Date>, today: Date)
    requires 0 <= i < |links|
    ensures !IsCandidate(links[i]) ==> before + View(links[..i + 1], limit, today) == before + View(links[..i], limit, today)
    ensures IsCandidate(links[i]) ==>
      before + View(links[..i + 1], limit, today) == (before + View(links[..i], limit, today)) + [VisitOf(links[i], limit, today)]
  {
    ViewStep(links, i, limit, today);
  }

  lemma PageRest(before: seq<Visit>, links: seq<Link>, i: int, limit: Option<Date>, today: Date)
    requires 0 <= i <= |links|
    ensures (before + View(links[..i], limit, today)) + View(links[i..], limit, today) == before + View(links, limit, today)
  {
    ViewAppend(links[..i], links[i..], limit, today);
    assert links[..i] + links[i..] == links;
  }

  /**
   * One turn of the per-link loop for a candidate: an untitled link is skipped; a titled
   * one is fetched (skipped when that raises); an old date ends the crawl; otherwise the
   * content and final title are extracted and the article is offered to the store.
   */
  method ScrapeLink(link: Link, limit: Option<Date>, today: Date, store: Store,
                    offered: seq<Article>, count: nat, ghost w: Walk, ghost v: Visit)
    returns (offered': seq<Article>, count': nat, isOld: bool)
    requires v == VisitOf(link, limit, today) && w.offered == offered && !w.stopped
    requires count == Accepted(store, offered)
    ensures offered' == WalkStep(w, v, false).offered && isOld == WalkStep(w, v, false).stopped
    ensures count' == Accepted(store, offered')
  {
    offered', count', isOld := offered, count, false;
    var titulo := Strip(link.text);
    if titulo == "" && link.childTitle.Some? {
      titulo := Strip(link.childTitle.value);
    }
    if titulo == "" || link.detail.None? {
      assert Offer(link, today).None? && !Old(link, limit, today);
      assert v.verdict.Skip?;
      return;
    }
    assert Title(link) == Some(titulo);
    var page := link.detail.value;
    var fecha := ExtractDate(page, today);
    if limit.Some? && Before(fecha, limit.value) {
      assert Old(link, limit, today) && v.verdict.Stop?;
      isOld := true;
      return;
    }
    assert !Old(link, limit, today);
    var contenido, crudo := ExtractContent(page);
    var tituloFinal := ExtractTitle(page, titulo);
    var article := Article(tituloFinal, contenido, crudo, Some(fecha), link.url, MediaName);
    assert Offer(link, today) == Some(article);
    assert v.verdict == Take(article);
    AcceptedStep(store, offered, article);
    if store(offered, article) {
      count' := count + 1;
    }
    offered' := offered + [article];
  }

  // ---------------------------------------------------------------------------------------
  // What the crawl guarantees
  // ---------------------------------------------------------------------------------------

  /**
   * Every article offered comes from a listing link whose URL ends in an article
   * identifier, and is dated today or a real date no earlier than the limit.
   */
  lemma OffersSound(links: seq<Link>, limit: Option<Date>, today: Date)
    ensures forall a | a in WalkAll(View(links, limit, today), false).offered ::
      && WithinLimit(a, limit) && ArticleId(a.url).Some?
      && a.fecha.Some? && (a.fecha.value == today || Valid(a.fecha.value))
      && exists x | x in links :: Offer(x, today) == Some(a)
  {
    var cs := Candidates(links);
    var vs := Visits(cs, limit, today);
    forall a | a in WalkAll(vs, false).offered
      ensures && WithinLimit(a, limit) && ArticleId(a.url).Some?
              && a.fecha.Some? && (a.fecha.value == today || Valid(a.fecha.value))
              && exists x | x in links :: Offer(x, today) == Some(a)
    {
      WalkSound(vs, false, a);
      var k :| 0 <= k < |vs| && Judged(vs, k, false) && vs[k].verdict == Take(a);
      CandidatesExactly(links, cs[k]);
    }
  }

  /** The crawl stops exactly when a candidate reached before any stop is titled, fetched and old. */
  lemma StopsAtOldLink(links: seq<Link>, limit: Option<Date>, today: Date)
    ensures var cs := Candidates(links);
      var vs := Visits(cs, limit, today);
      WalkAll(vs, false).stopped <==> exists j | 0 <= j < |vs| :: Reached(vs, j, false) && Old(cs[j], limit, today)
  {
    var cs := Candidates(links);
    var vs := Visits(cs, limit, today);
    forall j | 0 <= j < |vs|
      ensures vs[j].verdict.Stop? <==> Old(cs[j], limit, today)
    {
    }
    WalkStopsAtOld(vs, false);
  }

  /** Every candidate reached before the stop that yields an article has it offered. */
  lemma ReachedArticlesOffered(links: seq<Link>, limit: Option<Date>, today: Date, k: int)
    requires 0 <= k < |Candidates(links)|
    ensures var cs := Candidates(links);
      var vs := Visits(cs, limit, today);
      Reached(vs, k, false) && Offer(cs[k], today).Some? && !Old(cs[k], limit, today) ==>
        Offer(cs[k], today).value in WalkAll(vs, false).offered
  {
    var cs := Candidates(links);
    var vs := Visits(cs, limit, today);
    if Reached(vs, k, false) && Offer(cs[k], today).Some? && !Old(cs[k], limit, today) {
      WalkComplete(vs, false, k);
    }
  }

  /** A candidate link appended twice adds its visit twice to the view. */
  lemma ViewTwice(links: seq<Link>, x: Link, limit: Option<Date>, today: Date)
    requires IsCandidate(x)
    ensures View(links + [x, x], limit, today) == View(links, limit, today) + [VisitOf(x, limit, today), VisitOf(x, limit, today)]
  {
    assert View(links + [x, x], limit, today) == View(links, limit, today) + View([x, x], limit, today) by {
      ViewAppend(links, [x, x], limit, today);
    }
    assert Candidates([x, x]) == [x, x] by {
      CandidatesAppend([x], [x]);
      assert [x] + [x] == [x, x];
      ViewOfOne(x, limit, today);
    }
    VisitsOfTwo(x, limit, today);
  }

  lemma VisitsOfTwo(x: Link, limit: Option<Date>, today: Date)
    ensures Visits([x, x], limit, today) == [VisitOf(x, limit, today), VisitOf(x, limit, today)]
  {
  }

  /** A link repeated on the listing is offered to the store once for each time it appears. */
  lemma RepeatedLinkOfferedAgain(links: seq<Link>, x: Link, limit: Option<Date>, today: Date)
    requires IsCandidate(x) && Offer(x, today).Some? && !Old(x, limit, today)
    requires !WalkAll(View(links, limit, today), false).stopped
    ensures WalkAll(View(links + [x, x], limit, today), false).offered
         == WalkAll(View(links, limit, today), false).offered + [Offer(x, today).value, Offer(x, today).value]
  {
    ViewTwice(links, x, limit, today);
    WalkTakenTwice(View(links, limit, today), VisitOf(x, limit, today));
  }
}

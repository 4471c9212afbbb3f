/**
 * What the per-site scrapers share: the record each one hands to the database, the
 * cutoff test against `fecha_limite`, the paragraph joins of `_extract_content`, and
 * numbered listing URLs.
 *
 * The database insert (`_guardar_noticia`, or `db.add` followed by `db.commit`) is an
 * abstract `Store`: whether the insert of an article succeeds, given the articles offered
 * before it in the same run. A scraper's count is the number of accepted offers.
 */
module Crawl {
  import opened Wrappers
  import opened Text
  import opened Seqs
  import opened Dates

  /** The `noticia_data` dictionary a scraper builds for one article. */
  datatype Article = Article(
    titulo: string,
    contenido: string,
    contenidoCrudo: string,
    fecha: Option<Date>,
    url: string,
    media: string)

  /** Whether the insert of the second argument succeeds after the first argument's offers. */
  type Store = (seq<Article>, Article) -> bool

  /** The number of offers the store accepted, in the order they were made. */
  function Accepted(store: Store, offered: seq<Article>): (n: nat)
    ensures n <= |offered|
    decreases |offered|
  {
    if |offered| == 0 then 0
    else
      var earlier := offered[..|offered| - 1];
      Accepted(store, earlier) + (if store(earlier, offered[|offered| - 1]) then 1 else 0)
  }

  /** One more offer adds one exactly when the store accepts it. */
  lemma AcceptedStep(store: Store, offered: seq<Article>, a: Article)
    ensures Accepted(store, offered + [a]) == Accepted(store, offered) + (if store(offered, a) then 1 else 0)
  {
    assert (offered + [a])[..|offered|] == offered;
  }

  /** The number of `offered` the store accepted when the run had already offered `prior`. */
  function AcceptedAfter(store: Store, prior: seq<Article>, offered: seq<Article>): (n: nat)
    ensures n <= |offered|
    decreases |offered|
  {
    if |offered| == 0 then 0
    else
      var earlier := offered[..|offered| - 1];
      AcceptedAfter(store, prior, earlier) + (if store(prior + earlier, offered[|offered| - 1]) then 1 else 0)
  }

  lemma AcceptedAfterStep(store: Store, prior: seq<Article>, offered: seq<Article>, a: Article)
    ensures AcceptedAfter(store, prior, offered + [a])
         == AcceptedAfter(store, prior, offered) + (if store(prior + offered, a) then 1 else 0)
  {
    assert (offered + [a])[..|offered|] == offered;
  }

  /** Counting a run in two parts: the offers before, then those after. */
  lemma {:induction false} AcceptedSplit(store: Store, prior: seq<Article>, offered: seq<Article>)
    ensures Accepted(store, prior + offered) == Accepted(store, prior) + AcceptedAfter(store, prior, offered)
    decreases |offered|
  {
    if |offered| == 0 {
      assert prior + offered == prior;
    } else {
      var earlier := offered[..|offered| - 1];
      var a := offered[|offered| - 1];
      AcceptedSplit(store, prior, earlier);
      assert prior + offered == (prior + earlier) + [a];
      AcceptedStep(store, prior + earlier, a);
    }
  }

  /** A store that accepts every offer counts every offer. */
  lemma {:induction false} AcceptedAll(store: Store, offered: seq<Article>)
    requires forall k | 0 <= k < |offered| :: store(offered[..k], offered[k])
    ensures Accepted(store, offered) == |offered|
    decreases |offered|
  {
    if |offered| > 0 {
      var earlier := offered[..|offered| - 1];
      assert forall k | 0 <= k < |earlier| :: earlier[..k] == offered[..k] && earlier[k] == offered[k];
      AcceptedAll(store, earlier);
    }
  }

  // ---------------------------------------------------------------------------------------
  // The cutoff date
  // ---------------------------------------------------------------------------------------

  /** `self.fecha_limite and d < self.fecha_limite`: a date object is always truthy. */
  predicate PastLimit(d: Date, limit: Option<Date>)
  {
    limit.Some? && Before(d, limit.value)
  }

  /** An article that does not predate the limit (an article without a date never does). */
  predicate WithinLimit(a: Article, limit: Option<Date>)
  {
    a.fecha.None? || !PastLimit(a.fecha.value, limit)
  }

  /** Without a limit nothing is past it. */
  lemma NoLimitNothingPast(d: Date)
    ensures !PastLimit(d, None)
  {
  }

  /** A date past a limit is past every later limit too. */
  lemma PastLaterLimit(d: Date, limit: Date, later: Date)
    requires PastLimit(d, Some(limit)) && !Before(later, limit)
    ensures PastLimit(d, Some(later))
  {
    BeforeTotal(limit, later);
    if limit != later {
      BeforeTransitive(d, limit, later);
    }
  }

  // ---------------------------------------------------------------------------------------
  // Numbered listing URLs
  // ---------------------------------------------------------------------------------------

  /** `f"{base}{n}"`: a listing URL that ends with a page number. */
  function NumberedUrl(base: string, n: int): (u: string)
  {
    base + IntToStr(n)
  }

  /** The page number can be read back from the end of a numbered URL. */
  lemma NumberedUrlReadBack(base: string, n: int)
    ensures |base| <= |NumberedUrl(base, n)|
    ensures ParseInt(NumberedUrl(base, n)[|base|..]) == Some(n)
  {
    assert NumberedUrl(base, n)[|base|..] == IntToStr(n);
    IntToStrParses(n);
  }

  /** Different page numbers give different URLs. */
  lemma NumberedUrlsDistinct(base: string, a: int, b: int)
    requires a != b
    ensures NumberedUrl(base, a) != NumberedUrl(base, b)
  {
    NumberedUrlReadBack(base, a);
    NumberedUrlReadBack(base, b);
  }

  // ---------------------------------------------------------------------------------------
  // Paragraph joins of `_extract_content`
  // ---------------------------------------------------------------------------------------

  /** The separator between paragraphs: a blank line. */
  const ParagraphSep: string := "\n\n"

  predicate NonEmpty(s: string) { s != "" }

  /** `[p.get_text().strip() for p in paragraphs if p.get_text().strip()]`. */
  function NonEmptyTexts(paragraphs: seq<string>): (texts: seq<string>)
    ensures forall k | 0 <= k < |texts| :: texts[k] != ""
  {
    Filter(Map(paragraphs, Strip), NonEmpty)
  }

  /** An element holding the article: its HTML, the text of each of its `<p>`, its whole text. */
  datatype Container = Container(html: string, paragraphs: seq<string>, text: string)

  /**
   * The container branch of `_extract_content`: the non-empty paragraphs joined by blank
   * lines, or the container's whole stripped text when no paragraph has any; the raw
   * content is the container's HTML.
   */
  function ContainerContent(c: Container): (r: (string, string))
    ensures r.1 == c.html
  {
    var clean := Join(ParagraphSep, NonEmptyTexts(c.paragraphs));
    (if clean == "" then Strip(c.text) else clean, c.html)
  }

  /** Every paragraph with text appears in the container content. */
  lemma ContainerContentHasParagraph(c: Container, k: int)
    requires 0 <= k < |c.paragraphs| && Strip(c.paragraphs[k]) != ""
    ensures Contains(ContainerContent(c).0, Strip(c.paragraphs[k]))
  {
    var texts := Map(c.paragraphs, Strip);
    FilterKeeps(texts, NonEmpty, k);
    var parts := NonEmptyTexts(c.paragraphs);
    var j :| 0 <= j < |parts| && parts[j] == texts[k];
    JoinContainsParts(ParagraphSep, parts, j);
    JoinFirstNonEmpty(ParagraphSep, parts);
  }

  /** The whole container text is used exactly when no paragraph has text. */
  lemma ContainerContentFallsBack(c: Container)
    ensures (forall k | 0 <= k < |c.paragraphs| :: Strip(c.paragraphs[k]) == "")
        <==> ContainerContent(c).0 == Strip(c.text) && Join(ParagraphSep, NonEmptyTexts(c.paragraphs)) == ""
  {
    var texts := Map(c.paragraphs, Strip);
    var parts := NonEmptyTexts(c.paragraphs);
    CountIsFilterLength(texts, NonEmpty);
    CountZero(texts, NonEmpty);
    JoinFirstNonEmpty(ParagraphSep, parts);
  }

  /** A join whose first part is non-empty is non-empty. */
  lemma JoinFirstNonEmpty(sep: string, parts: seq<string>)
    ensures |parts| > 0 && parts[0] != "" ==> Join(sep, parts) != ""
  {
    if |parts| > 1 {
      assert |Join(sep, parts)| >= |parts[0]|;
    }
  }

  // ---------------------------------------------------------------------------------------
  // The fallback paragraph filter
  // ---------------------------------------------------------------------------------------

  /**
   * The test a stripped paragraph passes in the fallback of `_extract_content`: non-empty,
   * longer than 20 characters, no keyword in its lower-cased text, not opening with '¿'
   * and not entirely in capitals.
   */
  predicate KeepParagraph(keywords: seq<string>, text: string)
  {
    && text != ""
    && |text| > 20
    && (forall k | 0 <= k < |keywords| :: !Contains(Lower(text), keywords[k]))
    && !StartsWith(text, "¿")
    && !PyIsUpper(text)
  }

  /** The `main_paragraphs` the fallback loop collects. */
  function MainTexts(keywords: seq<string>, paragraphs: seq<string>): (main: seq<string>)
    ensures |main| <= |paragraphs|
    decreases |paragraphs|
  {
    if |paragraphs| == 0 then []
    else
      var text := Strip(paragraphs[|paragraphs| - 1]);
      MainTexts(keywords, paragraphs[..|paragraphs| - 1]) + (if KeepParagraph(keywords, text) then [text] else [])
  }

  /** The fallback loop over all `<p>` of the page. */
  method MainParagraphs(keywords: seq<string>, paragraphs: seq<string>) returns (main: seq<string>)
    ensures main == MainTexts(keywords, paragraphs)
  {
    main := [];
    for i := 0 to |paragraphs|
      invariant main == MainTexts(keywords, paragraphs[..i])
    {
      assert paragraphs[..i + 1][..i] == paragraphs[..i];
      var text := Strip(paragraphs[i]);
      if KeepParagraph(keywords, text) {
        main := main + [text];
      }
    }
    assert paragraphs[..|paragraphs|] == paragraphs;
  }

  /** Every collected paragraph passes the test and is the stripped text of a page paragraph. */
  lemma {:induction false} MainTextsSound(keywords: seq<string>, paragraphs: seq<string>, k: int)
    requires 0 <= k < |MainTexts(keywords, paragraphs)|
    ensures KeepParagraph(keywords, MainTexts(keywords, paragraphs)[k])
    ensures exists j | 0 <= j < |paragraphs| :: MainTexts(keywords, paragraphs)[k] == Strip(paragraphs[j])
    decreases |paragraphs|
  {
    var init := paragraphs[..|paragraphs| - 1];
    var main := MainTexts(keywords, paragraphs);
    if k < |MainTexts(keywords, init)| {
      MainTextsSound(keywords, init, k);
      var j :| 0 <= j < |init| && MainTexts(keywords, init)[k] == Strip(init[j]);
      assert main[k] == Strip(paragraphs[j]);
    } else {
      assert main[k] == Strip(paragraphs[|paragraphs| - 1]);
    }
  }

  /** Every page paragraph whose stripped text passes the test is collected. */
  lemma {:induction false} MainTextsComplete(keywords: seq<string>, paragraphs: seq<string>, j: int)
    requires 0 <= j < |paragraphs| && KeepParagraph(keywords, Strip(paragraphs[j]))
    ensures Strip(paragraphs[j]) in MainTexts(keywords, paragraphs)
    decreases |paragraphs|
  {
    var init := paragraphs[..|paragraphs| - 1];
    var text := Strip(paragraphs[|paragraphs| - 1]);
    assert MainTexts(keywords, paragraphs) == MainTexts(keywords, init) + (if KeepParagraph(keywords, text) then [text] else []);
    if j < |init| {
      assert init[j] == paragraphs[j];
      MainTextsComplete(keywords, init, j);
    } else {
      assert j == |paragraphs| - 1;
      assert text == Strip(paragraphs[j]);
    }
  }

  /** Collecting over two runs of paragraphs is collecting over each in turn. */
  lemma {:induction false} MainTextsAppend(keywords: seq<string>, a: seq<string>, b: seq<string>)
    ensures MainTexts(keywords, a + b) == MainTexts(keywords, a) + MainTexts(keywords, b)
    decreases |b|
  {
    if |b| > 0 {
      var b' := b[..|b| - 1];
      assert (a + b)[..|a + b| - 1] == a + b';
      assert (a + b)[|a + b| - 1] == b[|b| - 1];
      MainTextsAppend(keywords, a, b');
    } else {
      assert a + b == a;
    }
  }

  /** A keyword list that holds every keyword of another keeps only paragraphs the other keeps. */
  lemma {:induction false} MoreKeywordsKeepFewer(fewer: seq<string>, more: seq<string>, paragraphs: seq<string>)
    requires forall k | 0 <= k < |fewer| :: fewer[k] in more
    ensures |MainTexts(more, paragraphs)| <= |MainTexts(fewer, paragraphs)|
    ensures forall t | t in MainTexts(more, paragraphs) :: t in MainTexts(fewer, paragraphs)
    decreases |paragraphs|
  {
    if |paragraphs| > 0 {
      var init := paragraphs[..|paragraphs| - 1];
      MoreKeywordsKeepFewer(fewer, more, init);
      var text := Strip(paragraphs[|paragraphs| - 1]);
      if KeepParagraph(more, text) {
        forall k | 0 <= k < |fewer|
          ensures !Contains(Lower(text), fewer[k])
        {
          var i :| 0 <= i < |more| && more[i] == fewer[k];
        }
      }
    }
  }

  function Min(a: int, b: int): int { if a < b then a else b }

  /**
   * The fallback of `_extract_content`: the first ten collected paragraphs joined by blank
   * lines with the page body as raw content, or two empty strings when none is collected.
   */
  function FallbackContent(keywords: seq<string>, paragraphs: seq<string>, body: string): (r: (string, string))
  {
    var main := MainTexts(keywords, paragraphs);
    if |main| > 0 then (Join(ParagraphSep, main[..Min(10, |main|)]), body) else ("", "")
  }

  /** The fallback text is empty exactly when no paragraph is collected. */
  lemma FallbackEmptyIffNoneKept(keywords: seq<string>, paragraphs: seq<string>, body: string)
    ensures FallbackContent(keywords, paragraphs, body).0 == "" <==> |MainTexts(keywords, paragraphs)| == 0
  {
    var main := MainTexts(keywords, paragraphs);
    if |main| > 0 {
      MainTextsSound(keywords, paragraphs, 0);
      JoinFirstNonEmpty(ParagraphSep, main[..Min(10, |main|)]);
    }
  }

  /** Each of the first ten collected paragraphs appears in the fallback text. */
  lemma FallbackHasMainParagraph(keywords: seq<string>, paragraphs: seq<string>, body: string, k: int)
    requires 0 <= k < 10 && k < |MainTexts(keywords, paragraphs)|
    ensures Contains(FallbackContent(keywords, paragraphs, body).0, MainTexts(keywords, paragraphs)[k])
  {
    var main := MainTexts(keywords, paragraphs);
    JoinContainsParts(ParagraphSep, main[..Min(10, |main|)], k);
  }

  /** Once ten paragraphs are collected, later paragraphs of the page change nothing. */
  lemma FallbackIgnoresLaterParagraphs(keywords: seq<string>, paragraphs: seq<string>, later: seq<string>, body: string)
    requires |MainTexts(keywords, paragraphs)| >= 10
    ensures FallbackContent(keywords, paragraphs + later, body) == FallbackContent(keywords, paragraphs, body)
  {
    MainTextsAppend(keywords, paragraphs, later);
    var main := MainTexts(keywords, paragraphs);
    assert (main + MainTexts(keywords, later))[..10] == main[..10];
  }

  // ---------------------------------------------------------------------------------------
  // Selector-driven extraction
  // ---------------------------------------------------------------------------------------

  /**
   * A detail page as a selector-driven `_extract_content` sees it: what `select_one` finds
   * for each of the site's content selectors in turn, the element around the first `<p>` of
   * the page (looked at only when there is a `<p>`), the texts of all `<p>` elements, and
   * the page's `<body>` as text.
   */
  datatype SelectorPage = SelectorPage(selected: seq<Option<Container>>, paragraphParent: Container,
                                       paragraphs: seq<string>, body: string)

  /** The first selector that finds something. */
  function FirstFound(cs: seq<Option<Container>>): (r: Option<Container>)
    ensures r.None? <==> forall k | 0 <= k < |cs| :: cs[k].None?
    ensures r.Some? ==> r in cs
    decreases |cs|
  {
    if |cs| == 0 then None else if cs[0].Some? then cs[0] else FirstFound(cs[1..])
  }

  /** The selectors before the one `FirstFound` returns find nothing. */
  lemma {:induction false} FirstFoundIsFirst(cs: seq<Option<Container>>, k: int)
    requires 0 <= k < |cs| && cs[k].Some?
    ensures FirstFound(cs).Some?
    ensures FirstFound(cs) != cs[k] ==> exists j | 0 <= j < k :: cs[j] == FirstFound(cs)
    decreases k
  {
    if k > 0 && cs[0].None? {
      FirstFoundIsFirst(cs[1..], k - 1);
      if FirstFound(cs) != cs[k] {
        var j :| 0 <= j < k - 1 && cs[1..][j] == FirstFound(cs[1..]);
        assert cs[j + 1] == FirstFound(cs);
      }
    }
  }

  /** The element whose paragraphs make the content: a selector's, else the first paragraph's parent. */
  function ContentElement(page: SelectorPage): (r: Option<Container>)
    ensures r.None? <==> (forall k | 0 <= k < |page.selected| :: page.selected[k].None?) && |page.paragraphs| == 0
  {
    var found := FirstFound(page.selected);
    if found.None? && |page.paragraphs| > 0 then Some(page.paragraphParent) else found
  }

  /**
   * The selector-driven `_extract_content`: the content element's paragraphs, else the
   * page-wide paragraph filter with the site's keywords.
   */
  function SelectorContent(keywords: seq<string>, page: SelectorPage): (r: (string, string))
  {
    var element := ContentElement(page);
    if element.Some? then ContainerContent(element.value)
    else FallbackContent(keywords, page.paragraphs, page.body)
  }

  /**
   * The page-wide filter is never what produces content: it is reached only when the page
   * has no `<p>` at all, and then it collects nothing.
   */
  lemma FallbackNeverContributes(keywords: seq<string>, page: SelectorPage)
    ensures ContentElement(page).None? ==> SelectorContent(keywords, page) == ("", "")
    ensures ContentElement(page).Some? ==> SelectorContent(keywords, page) == ContainerContent(ContentElement(page).value)
  {
    if ContentElement(page).None? {
      assert MainTexts(keywords, page.paragraphs) == [];
    }
  }

  /** The selector loop, then the first paragraph's parent, then the fallback loop. */
  method ExtractSelected(keywords: seq<string>, page: SelectorPage) returns (contenido: string, crudo: string)
    ensures (contenido, crudo) == SelectorContent(keywords, page)
  {
    var found: Option<Container> := None;
    var i := 0;
    while i < |page.selected| && found.None?
      invariant 0 <= i <= |page.selected|
      invariant found.None? ==> FirstFound(page.selected) == FirstFound(page.selected[i..])
      invariant found.Some? ==> found == FirstFound(page.selected)
      decreases |page.selected| - i
    {
      assert page.selected[i..][1..] == page.selected[i + 1..];
      found := page.selected[i];
      i := i + 1;
    }
    if found.None? {
      assert page.selected[i..] == [];
      if |page.paragraphs| > 0 {
        found := Some(page.paragraphParent);
      }
    }
    if found.Some? {
      contenido, crudo := ContainerContent(found.value).0, found.value.html;
    } else {
      contenido, crudo := FallbackContent(keywords, page.paragraphs, page.body).0, "";
      crudo := FallbackContent(keywords, page.paragraphs, page.body).1;
    }
  }
}

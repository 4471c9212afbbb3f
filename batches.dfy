/**
 * The crawl of the scrapers that read each listing page as a set of URLs: the URLs of a
 * page that the walk has not marked seen are walked in the order the set is iterated; a
 * page with none of them ends the crawl, and so does a stop.
 *
 * The order of set iteration and the verdict on each URL are parameters, so the facts
 * here hold whatever a scraper decides about its URLs.
 */
module Batches {
  import opened Walks

  /** `order` lists exactly the members of the set it is given, as iteration over a set does. */
  ghost predicate Enumerates(order: set<string> -> seq<string>)
  {
    forall s: set<string> :: Lists(order(s), s)
  }

  /** The sequence holds exactly the members of the set. */
  predicate Lists(xs: seq<string>, s: set<string>)
  {
    (forall x | x in xs :: x in s) && (forall x | x in s :: x in xs)
  }

  /** The verdict on a URL is a verdict about that URL. */
  ghost predicate JudgesOwnUrl(judge: string -> Visit)
  {
    forall u :: judge(u).url == u
  }

  /** The visits of a page's new URLs, in the order they are walked. */
  function PageVisits(urls: seq<string>, judge: string -> Visit): (vs: seq<Visit>)
    ensures |vs| == |urls|
  {
    seq(|urls|, k requires 0 <= k < |urls| => judge(urls[k]))
  }

  /**
   * The walk's view of the first `n` listing pages: each page contributes its URLs that the
   * walk had not marked seen when the page was read, in `order`; none when there are none.
   */
  function BatchVisits(pages: seq<set<string>>, n: nat, order: set<string> -> seq<string>,
                       judge: string -> Visit): (vs: seq<Visit>)
    requires n <= |pages|
    decreases n
  {
    if n == 0 then []
    else
      var before := BatchVisits(pages, n - 1, order, judge);
      var unseen := pages[n - 1] - WalkAll(before, true).seen;
      before + (if unseen == {} then [] else PageVisits(order(unseen), judge))
  }

  /** The state of the walk after `n` listing pages. */
  function BatchWalk(pages: seq<set<string>>, n: nat, order: set<string> -> seq<string>,
                     judge: string -> Visit): (w: Walk)
    requires n <= |pages|
  {
    WalkAll(BatchVisits(pages, n, order, judge), true)
  }

  /** Page `m` had new URLs and left the walk going, so the crawl read on. */
  predicate ReadOn(pages: seq<set<string>>, m: nat, order: set<string> -> seq<string>, judge: string -> Visit)
    requires m < |pages|
  {
    pages[m] - BatchWalk(pages, m, order, judge).seen != {} && !BatchWalk(pages, m + 1, order, judge).stopped
  }

  /**
   * Reading on from page `n` while `goesOn` holds of the page just read: the number of pages
   * read, stopping after the first page of which it fails, or at `last`.
   */
  function ReadUntil(goesOn: nat -> bool, n: nat, last: nat): (read: nat)
    requires n <= last
    ensures n <= read <= last
    decreases last - n
  {
    if n == last then n
    else if !goesOn(n) then n + 1
    else ReadUntil(goesOn, n + 1, last)
  }

  /** The reading stops after all pages or after the first page of which `goesOn` fails. */
  lemma {:induction false} ReadUntilEnds(goesOn: nat -> bool, n: nat, last: nat)
    requires n <= last
    ensures var r := ReadUntil(goesOn, n, last); r == last || (n < r && !goesOn(r - 1))
    decreases last - n
  {
    if n < last && goesOn(n) {
      ReadUntilEnds(goesOn, n + 1, last);
    }
  }

  /** Every page read before the last one is one of which `goesOn` holds. */
  lemma {:induction false} ReadUntilGoesOn(goesOn: nat -> bool, n: nat, last: nat, m: nat)
    requires n <= m && n <= last && m + 1 < ReadUntil(goesOn, n, last)
    ensures goesOn(m)
    decreases m - n
  {
    if m > n {
      ReadUntilGoesOn(goesOn, n + 1, last, m);
    }
  }

  /**
   * The number of listing pages the crawl reads once `n` are read without ending it: a page
   * with no new URL ends it, and so does a stop.
   */
  function BatchRead(pages: seq<set<string>>, n: nat, order: set<string> -> seq<string>,
                     judge: string -> Visit): (read: nat)
    requires n <= |pages|
    ensures n <= read <= |pages|
  {
    ReadUntil((m: nat) => m < |pages| && ReadOn(pages, m, order, judge), n, |pages|)
  }

  /** One page after another: the walk after page `n + 1` continues the walk after page `n`. */
  lemma BatchStep(pages: seq<set<string>>, n: nat, order: set<string> -> seq<string>, judge: string -> Visit)
    requires n < |pages|
    ensures var before := BatchVisits(pages, n, order, judge);
      var unseen := pages[n] - WalkAll(before, true).seen;
      && BatchVisits(pages, n + 1, order, judge) == before + (if unseen == {} then [] else PageVisits(order(unseen), judge))
      && (unseen == {} ==> BatchWalk(pages, n + 1, order, judge) == BatchWalk(pages, n, order, judge))
  {
    var before := BatchVisits(pages, n, order, judge);
    assert before + [] == before;
  }

  /** Every visit of the walk is the verdict on its own URL. */
  lemma {:induction false} BatchVisitsAre(pages: seq<set<string>>, n: nat, order: set<string> -> seq<string>,
                                          judge: string -> Visit)
    requires n <= |pages| && JudgesOwnUrl(judge)
    ensures forall k | 0 <= k < |BatchVisits(pages, n, order, judge)| ::
      BatchVisits(pages, n, order, judge)[k] == judge(BatchVisits(pages, n, order, judge)[k].url)
    decreases n
  {
    if n > 0 {
      BatchVisitsAre(pages, n - 1, order, judge);
      var before := BatchVisits(pages, n - 1, order, judge);
      var unseen := pages[n - 1] - WalkAll(before, true).seen;
      var page := if unseen == {} then [] else PageVisits(order(unseen), judge);
      var vs := BatchVisits(pages, n, order, judge);
      assert vs == before + page;
      forall k | 0 <= k < |vs|
        ensures vs[k] == judge(vs[k].url)
      {
        if k < |before| {
          assert vs[k] == before[k];
        } else {
          var j := k - |before|;
          assert unseen != {} && page == PageVisits(order(unseen), judge);
          var u := order(unseen)[j];
          assert vs[k] == page[j] == judge(u);
          assert judge(u).url == u;
        }
      }
    }
  }

  /** The URL is on one of the first `n` pages. */
  predicate ListedBefore(pages: seq<set<string>>, n: nat, url: string)
  {
    exists p | 0 <= p < n && p < |pages| :: url in pages[p]
  }

  /** Every URL the walk visits is listed on one of the pages read, when `order` lists only members. */
  lemma {:induction false} BatchVisitsListed(pages: seq<set<string>>, n: nat, order: set<string> -> seq<string>,
                                             judge: string -> Visit)
    requires n <= |pages| && Enumerates(order) && JudgesOwnUrl(judge)
    ensures forall k | 0 <= k < |BatchVisits(pages, n, order, judge)| ::
      ListedBefore(pages, n, BatchVisits(pages, n, order, judge)[k].url)
    decreases n
  {
    if n > 0 {
      BatchVisitsListed(pages, n - 1, order, judge);
      var before := BatchVisits(pages, n - 1, order, judge);
      var unseen := pages[n - 1] - WalkAll(before, true).seen;
      var page := if unseen == {} then [] else PageVisits(order(unseen), judge);
      var vs := BatchVisits(pages, n, order, judge);
      assert vs == before + page;
      forall k | 0 <= k < |vs|
        ensures ListedBefore(pages, n, vs[k].url)
      {
        if k < |before| {
          assert vs[k] == before[k];
        } else {
          var j := k - |before|;
          assert unseen != {} && page == PageVisits(order(unseen), judge);
          assert vs[k] == page[j] == judge(order(unseen)[j]);
          assert order(unseen)[j] in unseen;
          assert vs[k].url in pages[n - 1];
        }
      }
    }
  }

  /** The visits from `from` on are of URLs of `page` outside `seen`. */
  predicate AllNew(vs: seq<Visit>, from: nat, page: set<string>, seen: set<string>)
  {
    forall k | from <= k < |vs| :: vs[k].url in page && vs[k].url !in seen
  }

  /** A page's URLs marked seen before it is read are not visited again when it is read. */
  lemma NoUrlRevisited(pages: seq<set<string>>, n: nat, order: set<string> -> seq<string>, judge: string -> Visit)
    requires n < |pages| && Enumerates(order) && JudgesOwnUrl(judge)
    ensures AllNew(BatchVisits(pages, n + 1, order, judge), |BatchVisits(pages, n, order, judge)|,
                   pages[n], BatchWalk(pages, n, order, judge).seen)
  {
    BatchStep(pages, n, order, judge);
    var before := BatchVisits(pages, n, order, judge);
    var unseen := pages[n] - WalkAll(before, true).seen;
    var vs := BatchVisits(pages, n + 1, order, judge);
    forall k | |before| <= k < |vs|
      ensures vs[k].url in pages[n] && vs[k].url !in WalkAll(before, true).seen
    {
      var urls := order(unseen);
      assert vs[k] == judge(urls[k - |before|]);
      assert urls[k - |before|] in unseen;
    }
  }

  /**
   * Every URL of page `n` that the walk had not marked seen is walked when the page is read:
   * one of the page's visits is the verdict on it, and by the end of the page it is marked
   * seen unless the walk has stopped.
   */
  lemma BatchJudgesAllNew(pages: seq<set<string>>, n: nat, order: set<string> -> seq<string>,
                          judge: string -> Visit)
    requires n < |pages| && Enumerates(order) && JudgesOwnUrl(judge)
    ensures forall u | u in pages[n] - BatchWalk(pages, n, order, judge).seen ::
      judge(u) in BatchVisits(pages, n + 1, order, judge)[|BatchVisits(pages, n, order, judge)|..]
    ensures forall u | u in pages[n] - BatchWalk(pages, n, order, judge).seen ::
      u in BatchWalk(pages, n + 1, order, judge).seen || BatchWalk(pages, n + 1, order, judge).stopped
  {
    BatchStep(pages, n, order, judge);
    var before := BatchVisits(pages, n, order, judge);
    var unseen := pages[n] - WalkAll(before, true).seen;
    assert Lists(order(unseen), unseen);
    forall u | u in unseen
      ensures judge(u) in BatchVisits(pages, n + 1, order, judge)[|before|..]
      ensures u in WalkAll(BatchVisits(pages, n + 1, order, judge), true).seen
           || WalkAll(BatchVisits(pages, n + 1, order, judge), true).stopped
    {
      PageVisitOf(before, order(unseen), judge, u, BatchVisits(pages, n + 1, order, judge));
    }
  }

  /** A URL of the page's order gets a visit on the page, and is marked seen unless the walk stopped. */
  lemma PageVisitOf(before: seq<Visit>, urls: seq<string>, judge: string -> Visit, u: string, vs: seq<Visit>)
    requires vs == before + PageVisits(urls, judge) && u in urls && JudgesOwnUrl(judge)
    ensures judge(u) in vs[|before|..]
    ensures u in WalkAll(vs, true).seen || WalkAll(vs, true).stopped
  {
    var j :| 0 <= j < |urls| && urls[j] == u;
    var k := |before| + j;
    assert vs[|before|..] == PageVisits(urls, judge);
    assert vs[k] == judge(u) && vs[k].url == u;
    if !WalkAll(vs, true).stopped {
      WalkState(vs, true);
      assert Reached(vs, k, true);
    }
  }

  /** The crawl reads on until the last page, a page without new URLs, or a page whose walk stopped. */
  lemma BatchReadEnds(pages: seq<set<string>>, order: set<string> -> seq<string>, judge: string -> Visit)
    ensures var r := BatchRead(pages, 0, order, judge);
      r == |pages| || (0 < r && !ReadOn(pages, r - 1, order, judge))
  {
    ReadUntilEnds((m: nat) => m < |pages| && ReadOn(pages, m, order, judge), 0, |pages|);
  }

  /** Every page read before the last one had new URLs and left the walk going. */
  lemma BatchReadOn(pages: seq<set<string>>, order: set<string> -> seq<string>, judge: string -> Visit, p: nat)
    requires p + 1 < BatchRead(pages, 0, order, judge)
    ensures ReadOn(pages, p, order, judge)
  {
    ReadUntilGoesOn((m: nat) => m < |pages| && ReadOn(pages, m, order, judge), 0, |pages|, p);
  }
}

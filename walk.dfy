/**
 * The walk every scraper makes over the links of its listing pages, one after another:
 * a link already seen is passed over (for the scrapers that keep a seen set); a new one
 * is marked seen and judged, and the verdict either skips it, offers its article, or
 * stops the walk because the link is older than the limit.
 *
 * A scraper's method is proved to end in the state `WalkAll` gives for the links it read;
 * what the walk guarantees (only judged links are offered, every judged article is
 * offered, the walk stops exactly at the first judged old link, no URL is offered twice)
 * is proved here once.
 */
module Walks {
  import opened Wrappers
  import opened Dates
  import opened Crawl

  /** The links of the pages read so far, page after page. */
  function Flatten<T>(pages: seq<seq<T>>): (xs: seq<T>)
    decreases |pages|
  {
    if |pages| == 0 then [] else Flatten(pages[..|pages| - 1]) + pages[|pages| - 1]
  }

  lemma FlattenStep<T>(pages: seq<seq<T>>, p: int)
    requires 0 <= p < |pages|
    ensures Flatten(pages[..p + 1]) == Flatten(pages[..p]) + pages[p]
  {
    assert pages[..p + 1][..p] == pages[..p];
  }

  /** None of the first `n` pages is empty. */
  predicate Filled<T>(pages: seq<seq<T>>, n: int)
  {
    forall p | 0 <= p < n && p < |pages| :: |pages[p]| > 0
  }

  lemma FilledStep<T>(pages: seq<seq<T>>, n: int)
    requires 0 <= n < |pages| && Filled(pages, n) && |pages[n]| > 0
    ensures Filled(pages, n + 1)
  {
  }

  /** What a scraper decides about a link it judges. */
  datatype Verdict = Skip | Stop | Take(article: Article)

  /** A link as the walk sees it: its URL and the scraper's verdict on it. */
  datatype Visit = Visit(url: string, verdict: Verdict)

  /** The URLs marked seen, the articles offered so far, and whether an old link stopped the walk. */
  datatype Walk = Walk(seen: set<string>, offered: seq<Article>, stopped: bool)

  /** One link: nothing happens after a stop or to a seen URL; otherwise it is marked seen and judged. */
  function WalkStep(w: Walk, v: Visit, dedupe: bool): (r: Walk)
  {
    if w.stopped || (dedupe && v.url in w.seen) then w
    else
      var seen := w.seen + {v.url};
      match v.verdict
      case Skip => Walk(seen, w.offered, false)
      case Stop => Walk(seen, w.offered, true)
      case Take(a) => Walk(seen, w.offered + [a], false)
  }

  /** The state after walking `vs` from the start. */
  function WalkAll(vs: seq<Visit>, dedupe: bool): (w: Walk)
    decreases |vs|
  {
    if |vs| == 0 then Walk({}, [], false)
    else WalkStep(WalkAll(vs[..|vs| - 1], dedupe), vs[|vs| - 1], dedupe)
  }

  lemma WalkAllStep(vs: seq<Visit>, v: Visit, dedupe: bool)
    ensures WalkAll(vs + [v], dedupe) == WalkStep(WalkAll(vs, dedupe), v, dedupe)
  {
    assert (vs + [v])[..|vs|] == vs;
  }

  /** Without a seen set, a link that yields an article and comes twice in a row is offered twice. */
  lemma WalkTakenTwice(vs: seq<Visit>, v: Visit)
    requires v.verdict.Take? && !WalkAll(vs, false).stopped
    ensures WalkAll(vs + [v, v], false).offered == WalkAll(vs, false).offered + [v.verdict.article, v.verdict.article]
  {
    WalkAllStep(vs, v, false);
    WalkAllStep(vs + [v], v, false);
    assert vs + [v, v] == (vs + [v]) + [v];
  }

  /** Once stopped, the links after the old one change nothing. */
  lemma {:induction false} WalkStoppedStays(vs: seq<Visit>, more: seq<Visit>, dedupe: bool)
    requires WalkAll(vs, dedupe).stopped
    ensures WalkAll(vs + more, dedupe) == WalkAll(vs, dedupe)
    decreases |more|
  {
    if |more| == 0 {
      assert vs + more == vs;
    } else {
      var init := more[..|more| - 1];
      WalkStoppedStays(vs, init, dedupe);
      assert vs + more == (vs + init) + [more[|more| - 1]];
      WalkAllStep(vs + init, more[|more| - 1], dedupe);
    }
  }

  // ---------------------------------------------------------------------------------------
  // Which links are judged
  // ---------------------------------------------------------------------------------------

  /** The link at `k` is the first with its URL, or the scraper keeps no seen set. */
  predicate Fresh(vs: seq<Visit>, k: int, dedupe: bool)
    requires 0 <= k < |vs|
  {
    !dedupe || forall j | 0 <= j < k :: vs[j].url != vs[k].url
  }

  /** No link judged before position `k` was old. */
  predicate Reached(vs: seq<Visit>, k: int, dedupe: bool)
    requires 0 <= k <= |vs|
  {
    forall j | 0 <= j < k :: !(Fresh(vs, j, dedupe) && vs[j].verdict.Stop?)
  }

  /** The scraper judges the link at `k`: it is reached and fresh. */
  predicate Judged(vs: seq<Visit>, k: int, dedupe: bool)
    requires 0 <= k < |vs|
  {
    Reached(vs, k, dedupe) && Fresh(vs, k, dedupe)
  }

  /** Every verdict that takes an article takes it under the link's own URL. */
  predicate Consistent(vs: seq<Visit>)
  {
    forall k | 0 <= k < |vs| :: vs[k].verdict.Take? ==> vs[k].verdict.article.url == vs[k].url
  }

  /** Judging is decided by the links up to the judged one. */
  lemma PrefixJudging(vs: seq<Visit>, v: Visit, dedupe: bool)
    ensures forall k | 0 <= k < |vs| :: Fresh(vs + [v], k, dedupe) == Fresh(vs, k, dedupe)
    ensures forall k | 0 <= k <= |vs| :: Reached(vs + [v], k, dedupe) == Reached(vs, k, dedupe)
  {
    var ws := vs + [v];
    assert forall k | 0 <= k < |vs| :: ws[k] == vs[k];
    forall k | 0 <= k < |vs|
      ensures Fresh(ws, k, dedupe) == Fresh(vs, k, dedupe)
    {
    }
  }

  /**
   * The state of the walk: it has stopped exactly when a judged link was old, and the
   * URLs marked seen are those of the reached links.
   */
  lemma {:induction false} WalkState(vs: seq<Visit>, dedupe: bool)
    ensures WalkAll(vs, dedupe).stopped <==> !Reached(vs, |vs|, dedupe)
    ensures forall u :: u in WalkAll(vs, dedupe).seen <==>
      exists k | 0 <= k < |vs| :: Reached(vs, k, dedupe) && vs[k].url == u
    decreases |vs|
  {
    if |vs| > 0 {
      var init, v := vs[..|vs| - 1], vs[|vs| - 1];
      assert vs == init + [v];
      WalkState(init, dedupe);
      PrefixJudging(init, v, dedupe);
      var w := WalkAll(init, dedupe);
      var n := |init|;
      if !w.stopped {
        if dedupe && v.url in w.seen {
          var k :| 0 <= k < n && Reached(init, k, dedupe) && init[k].url == v.url;
          assert vs[k].url == vs[n].url;
          assert !Fresh(vs, n, dedupe);
        } else if dedupe {
          forall j | 0 <= j < n
            ensures vs[j].url != v.url
          {
            assert Reached(init, j, dedupe);
          }
          assert Fresh(vs, n, dedupe);
        }
      }
    }
  }

  /** Every offered article was taken by a judged link (soundness). */
  lemma {:induction false} WalkSound(vs: seq<Visit>, dedupe: bool, a: Article)
    requires a in WalkAll(vs, dedupe).offered
    ensures exists k | 0 <= k < |vs| :: Judged(vs, k, dedupe) && vs[k].verdict == Take(a)
    decreases |vs|
  {
    var init, v := vs[..|vs| - 1], vs[|vs| - 1];
    assert vs == init + [v];
    var w := WalkAll(init, dedupe);
    PrefixJudging(init, v, dedupe);
    if a in w.offered {
      WalkSound(init, dedupe, a);
      var k :| 0 <= k < |init| && Judged(init, k, dedupe) && init[k].verdict == Take(a);
      assert vs[k] == init[k];
    } else {
      WalkState(init, dedupe);
      var n := |init|;
      if dedupe {
        forall j | 0 <= j < n
          ensures vs[j].url != v.url
        {
          if vs[j].url == v.url {
            assert Reached(init, j, dedupe);
          }
        }
      }
      assert Judged(vs, n, dedupe);
    }
  }

  /** Every article a judged link takes is offered (completeness). */
  lemma {:induction false} WalkComplete(vs: seq<Visit>, dedupe: bool, k: int)
    requires 0 <= k < |vs| && Judged(vs, k, dedupe) && vs[k].verdict.Take?
    ensures vs[k].verdict.article in WalkAll(vs, dedupe).offered
    decreases |vs|
  {
    var init, v := vs[..|vs| - 1], vs[|vs| - 1];
    assert vs == init + [v];
    PrefixJudging(init, v, dedupe);
    var n := |init|;
    if k < n {
      assert init[k] == vs[k];
      WalkComplete(init, dedupe, k);
      WalkOfferedGrows(init, v, dedupe);
    } else {
      WalkState(init, dedupe);
      assert Reached(init, n, dedupe);
    }
  }

  /** A step never withdraws an offer. */
  lemma WalkOfferedGrows(vs: seq<Visit>, v: Visit, dedupe: bool)
    ensures WalkAll(vs, dedupe).offered <= WalkAll(vs + [v], dedupe).offered
  {
    WalkAllStep(vs, v, dedupe);
  }

  /** Links walked later never unmark a URL. */
  lemma {:induction false} WalkSeenGrows(vs: seq<Visit>, more: seq<Visit>, dedupe: bool)
    ensures WalkAll(vs, dedupe).seen <= WalkAll(vs + more, dedupe).seen
    decreases |more|
  {
    if |more| == 0 {
      assert vs + more == vs;
    } else {
      var init := more[..|more| - 1];
      WalkSeenGrows(vs, init, dedupe);
      assert vs + more == (vs + init) + [more[|more| - 1]];
      WalkAllStep(vs + init, more[|more| - 1], dedupe);
    }
  }

  /** With a seen set, every offered URL is marked seen, so no URL is offered twice. */
  lemma {:induction false} WalkDistinct(vs: seq<Visit>)
    requires Consistent(vs)
    ensures var w := WalkAll(vs, true);
      && (forall k | 0 <= k < |w.offered| :: w.offered[k].url in w.seen)
      && (forall i, j | 0 <= i < j < |w.offered| :: w.offered[i].url != w.offered[j].url)
    decreases |vs|
  {
    if |vs| > 0 {
      var init, v := vs[..|vs| - 1], vs[|vs| - 1];
      assert vs == init + [v];
      assert forall k | 0 <= k < |init| :: init[k] == vs[k];
      WalkDistinct(init);
      var w := WalkAll(init, true);
      WalkAllStep(init, v, true);
      if !w.stopped && v.url !in w.seen && v.verdict.Take? {
        var a := v.verdict.article;
        assert a.url == v.url by {
          assert vs[|init|] == v;
        }
        var r := WalkAll(vs, true);
        assert r.offered == w.offered + [a] && r.seen == w.seen + {v.url};
        assert forall k | 0 <= k < |w.offered| :: w.offered[k].url != a.url;
      }
    }
  }

  /** The walk stops exactly when some judged link is old. */
  lemma WalkStopsAtOld(vs: seq<Visit>, dedupe: bool)
    ensures WalkAll(vs, dedupe).stopped <==>
      exists k | 0 <= k < |vs| :: Judged(vs, k, dedupe) && vs[k].verdict.Stop?
  {
    WalkState(vs, dedupe);
    if !Reached(vs, |vs|, dedupe) {
      var j :| 0 <= j < |vs| && Fresh(vs, j, dedupe) && vs[j].verdict.Stop?;
      FirstOld(vs, dedupe, j);
    }
  }

  /** Among the old fresh links, the first one is judged. */
  lemma {:induction false} FirstOld(vs: seq<Visit>, dedupe: bool, j: int)
    requires 0 <= j < |vs| && Fresh(vs, j, dedupe) && vs[j].verdict.Stop?
    ensures exists k | 0 <= k <= j :: Judged(vs, k, dedupe) && vs[k].verdict.Stop?
    decreases j
  {
    if !Reached(vs, j, dedupe) {
      var i :| 0 <= i < j && Fresh(vs, i, dedupe) && vs[i].verdict.Stop?;
      FirstOld(vs, dedupe, i);
    }
  }
}

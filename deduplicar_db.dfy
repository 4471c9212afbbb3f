/**
 * The duplicate-removal script: for every URL stored more than once, the row with the
 * smallest id is kept and the other rows with that URL are deleted.
 */
module Deduplicar {
  import opened Wrappers
  import opened Seqs
  import opened Noticias

  /** The primary key: no two rows share an id. */
  predicate UniqueIds(table: seq<Noticia>)
  {
    forall i, j | 0 <= i < j < |table| :: table[i].id != table[j].id
  }

  /** Rows stored under `url`. */
  function UrlCount(table: seq<Noticia>, url: string): (n: nat)
    ensures n <= |table|
  {
    Count(table, (r: Noticia) => r.url == url)
  }

  /** The smallest id among the rows stored under `url`, if there are any. */
  function MinId(table: seq<Noticia>, url: string): (m: Option<int>)
    ensures m.None? <==> forall k | 0 <= k < |table| :: table[k].url != url
    ensures m.Some? ==> exists k | 0 <= k < |table| :: table[k].url == url && table[k].id == m.value
    ensures m.Some? ==> forall k | 0 <= k < |table| && table[k].url == url :: m.value <= table[k].id
    decreases |table|
  {
    if |table| == 0 then None
    else
      var rest := MinId(table[1..], url);
      assert forall k | 1 <= k < |table| :: table[k] == table[1..][k - 1];
      if table[0].url != url then rest
      else if rest.None? || table[0].id <= rest.value then Some(table[0].id)
      else rest
  }

  /** A row survives when it holds the smallest id of its URL. */
  predicate Kept(table: seq<Noticia>, r: Noticia)
  {
    MinId(table, r.url) == Some(r.id)
  }

  /** The table once every URL keeps only its lowest-id row. */
  function Deduplicated(table: seq<Noticia>): (t: seq<Noticia>)
    ensures |t| <= |table|
  {
    Filter(table, (r: Noticia) => Kept(table, r))
  }

  /**
   * What the `GROUP BY url HAVING count(id) > 1` query returns: each URL stored more than
   * once, listed once, in an order the database chooses.
   */
  predicate IsDuplicateListing(table: seq<Noticia>, urls: seq<string>)
  {
    && (forall i, j | 0 <= i < j < |urls| :: urls[i] != urls[j])
    && (forall i | 0 <= i < |urls| :: UrlCount(table, urls[i]) > 1)
    && (forall k | 0 <= k < |table| :: UrlCount(table, table[k].url) > 1 ==> table[k].url in urls)
  }

  /** The rows deleted for the listed URLs: all but one per URL. */
  function Excess(table: seq<Noticia>, urls: seq<string>): (n: int)
    decreases |urls|
  {
    if |urls| == 0 then 0
    else Excess(table, urls[..|urls| - 1]) + UrlCount(table, urls[|urls| - 1]) - 1
  }

  /** The rows left after the URLs in `done` have been handled. */
  function Handled(table: seq<Noticia>, done: seq<string>): seq<Noticia>
  {
    Filter(table, (r: Noticia) => r.url !in done || Kept(table, r))
  }

  /** Deleting every row of `url` except the one with the smallest id. */
  function DeleteCopies(rows: seq<Noticia>, url: string): (t: seq<Noticia>)
    ensures |t| <= |rows|
  {
    Filter(rows, (r: Noticia) => r.url != url || Some(r.id) == MinId(rows, url))
  }

  /** `deduplicar_noticias`: walks the duplicated URLs, deleting all but the lowest id of each. */
  method DeduplicarNoticias(table: seq<Noticia>, urls: seq<string>) returns (newTable: seq<Noticia>, total: int)
    requires IsDuplicateListing(table, urls)
    ensures newTable == Deduplicated(table)
    ensures total == Excess(table, urls)
  {
    newTable := table;
    total := 0;
    HandledNothing(table);
    for i := 0 to |urls|
      invariant newTable == Handled(table, urls[..i])
      invariant total == Excess(table, urls[..i])
    {
      var url := urls[i];
      LoopStep(table, urls, i);
      var removed := UrlCount(newTable, url) - 1;
      newTable := DeleteCopies(newTable, url);
      total := total + removed;
    }
    assert urls[..|urls|] == urls;
    HandledAllIsDeduplicated(table, urls);
  }

  // ---------------------------------------------------------------------------------------
  // Loop steps
  // ---------------------------------------------------------------------------------------

  lemma HandledNothing(table: seq<Noticia>)
    ensures Handled(table, []) == table
  {
    FilterAll(table, (r: Noticia) => r.url !in [] || Kept(table, r));
  }

  /** One turn of the loop: the next URL's copies go, and its count less one is added. */
  lemma LoopStep(table: seq<Noticia>, urls: seq<string>, i: int)
    requires 0 <= i < |urls|
    requires forall a, b | 0 <= a < b < |urls| :: urls[a] != urls[b]
    ensures DeleteCopies(Handled(table, urls[..i]), urls[i]) == Handled(table, urls[..i + 1])
    ensures Excess(table, urls[..i + 1])
         == Excess(table, urls[..i]) + UrlCount(Handled(table, urls[..i]), urls[i]) - 1
  {
    var url := urls[i];
    assert url !in urls[..i];
    HandledRowsOfPending(table, urls[..i], url);
    HandleStep(table, urls[..i], url);
    assert urls[..i + 1] == urls[..i] + [url];
    assert urls[..i + 1][..i] == urls[..i];
  }

  /** A filter that keeps every row of `url` keeps that URL's count and smallest id. */
  lemma {:induction false} FilterKeepsUrl(xs: seq<Noticia>, p: Noticia -> bool, url: string)
    requires forall k | 0 <= k < |xs| && xs[k].url == url :: p(xs[k])
    ensures MinId(Filter(xs, p), url) == MinId(xs, url)
    ensures UrlCount(Filter(xs, p), url) == UrlCount(xs, url)
    decreases |xs|
  {
    if |xs| > 0 {
      FilterKeepsUrl(xs[1..], p, url);
      var head := if p(xs[0]) then [xs[0]] else [];
      var rest := Filter(xs[1..], p);
      assert Filter(xs, p) == head + rest;
      if p(xs[0]) {
        assert (head + rest)[1..] == rest;
      } else {
        assert head + rest == rest;
      }
    }
  }

  /** A URL not yet handled still has all its rows, so its count and smallest id are the original ones. */
  lemma HandledRowsOfPending(table: seq<Noticia>, done: seq<string>, url: string)
    requires url !in done
    ensures MinId(Handled(table, done), url) == MinId(table, url)
    ensures UrlCount(Handled(table, done), url) == UrlCount(table, url)
  {
    FilterKeepsUrl(table, (r: Noticia) => r.url !in done || Kept(table, r), url);
  }

  /** Handling one more URL is one more filter over the current rows. */
  lemma HandleStep(table: seq<Noticia>, done: seq<string>, url: string)
    requires url !in done
    ensures DeleteCopies(Handled(table, done), url) == Handled(table, done + [url])
  {
    var h := Handled(table, done);
    HandledRowsOfPending(table, done, url);
    var p := (r: Noticia) => r.url !in done || Kept(table, r);
    var q := (r: Noticia) => r.url != url || Some(r.id) == MinId(h, url);
    var after := (r: Noticia) => r.url !in done + [url] || Kept(table, r);
    assert h == Filter(table, p);
    assert DeleteCopies(h, url) == Filter(h, q);
    FilterFilter(table, p, q, after);
    assert Handled(table, done + [url]) == Filter(table, after);
  }

  /** A row alone under its URL is the smallest id of that URL. */
  lemma SoleRowKept(table: seq<Noticia>, k: int)
    requires 0 <= k < |table| && UrlCount(table, table[k].url) <= 1
    ensures Kept(table, table[k])
  {
    var url := table[k].url;
    var m := MinId(table, url);
    var j :| 0 <= j < |table| && table[j].url == url && table[j].id == m.value;
    if j != k {
      var p := (r: Noticia) => r.url == url;
      if j < k { CountAtLeastTwo(table, p, j, k); } else { CountAtLeastTwo(table, p, k, j); }
    }
  }

  /** Once every duplicated URL has been handled, exactly the lowest-id rows remain. */
  lemma HandledAllIsDeduplicated(table: seq<Noticia>, urls: seq<string>)
    requires IsDuplicateListing(table, urls)
    ensures Handled(table, urls) == Deduplicated(table)
  {
    forall k | 0 <= k < |table|
      ensures (table[k].url !in urls || Kept(table, table[k])) == Kept(table, table[k])
    {
      if table[k].url !in urls {
        SoleRowKept(table, k);
      }
    }
    FilterCongruent(table, (r: Noticia) => r.url !in urls || Kept(table, r), (r: Noticia) => Kept(table, r));
  }

  // ---------------------------------------------------------------------------------------
  // Properties of the result
  // ---------------------------------------------------------------------------------------

  /** Filtering keeps ids unique. */
  lemma {:induction false} FilterUniqueIds(xs: seq<Noticia>, p: Noticia -> bool)
    requires UniqueIds(xs)
    ensures UniqueIds(Filter(xs, p))
    decreases |xs|
  {
    if |xs| > 0 {
      FilterUniqueIds(xs[1..], p);
      var rest := Filter(xs[1..], p);
      forall k | 0 <= k < |rest|
        ensures rest[k].id != xs[0].id
      {
        var j :| 0 <= j < |xs[1..]| && xs[1..][j] == rest[k];
        assert xs[j + 1] == rest[k];
      }
    }
  }

  /** Afterwards each URL is stored at most once. */
  lemma UrlsUniqueAfter(table: seq<Noticia>)
    requires UniqueIds(table)
    ensures var t := Deduplicated(table);
      forall i, j | 0 <= i < j < |t| :: t[i].url != t[j].url
  {
    var t := Deduplicated(table);
    FilterUniqueIds(table, (r: Noticia) => Kept(table, r));
    forall i, j | 0 <= i < j < |t|
      ensures t[i].url != t[j].url
    {
      assert Kept(table, t[i]) && Kept(table, t[j]);
    }
  }

  /** A row whose URL is stored once is untouched. */
  lemma SoleRowsUntouched(table: seq<Noticia>, k: int)
    requires 0 <= k < |table| && UrlCount(table, table[k].url) == 1
    ensures table[k] in Deduplicated(table)
  {
    SoleRowKept(table, k);
    FilterKeeps(table, (r: Noticia) => Kept(table, r), k);
  }

  /** Every URL of the table is still stored, under its smallest id. */
  lemma EveryUrlSurvives(table: seq<Noticia>, k: int)
    requires 0 <= k < |table|
    ensures exists r | r in Deduplicated(table) :: r.url == table[k].url && Some(r.id) == MinId(table, table[k].url)
  {
    var url := table[k].url;
    var m := MinId(table, url);
    var j :| 0 <= j < |table| && table[j].url == url && table[j].id == m.value;
    FilterKeeps(table, (r: Noticia) => Kept(table, r), j);
  }

  /** Every remaining row was already in the table. */
  lemma DeduplicatedIsSubset(table: seq<Noticia>, r: Noticia)
    requires r in Deduplicated(table)
    ensures r in table && Kept(table, r)
  {
  }
}

/**
 * The DOI harvester: page through a Crossref query with a cursor, retrying each
 * request up to three times, and write every new DOI once. The server's replies are
 * given, in the order they arrive; each reply says how each of the three attempts
 * would answer, which items the page holds and which cursor comes next.
 */
module DoiHarvest {
  import opened Wrappers

  /** One item of a page; `None` marks a missing `DOI` key. */
  datatype Item = Item(doi: Option<string>)

  /** The server's side of one page request. */
  datatype Exchange = Exchange(status: nat -> int, items: seq<Item>, nextCursor: Option<string>)

  const Attempts: nat := 3
  const FirstCursor: string := "*"
  const StatusOk: int := 200

  /** Python truthiness of an optional string. */
  predicate Truthy(s: Option<string>) {
    s.Some? && s.value != []
  }

  // ---------------------------------------------------------------- one request

  /** Some attempt among the three gets a 200. */
  predicate Succeeds(status: nat -> int) {
    exists a :: 0 <= a < Attempts && status(a) == StatusOk
  }

  /**
   * The retry loop: request until a 200 or three attempts; the request succeeds
   * exactly when one of the three attempts does, and stops at the first that does.
   */
  method Request(status: nat -> int) returns (ok: bool, tries: nat)
    ensures ok <==> Succeeds(status)
    ensures 1 <= tries <= Attempts
    ensures ok ==> status(tries - 1) == StatusOk
    ensures !ok ==> tries == Attempts
    ensures forall a :: 0 <= a < tries - 1 ==> status(a) != StatusOk
  {
    tries := 0;
    var code := 0;
    while tries < Attempts
      invariant 0 <= tries <= Attempts
      invariant forall a :: 0 <= a < tries ==> status(a) != StatusOk
      invariant tries > 0 ==> code == status(tries - 1)
    {
      code := status(tries);
      tries := tries + 1;
      if code == StatusOk {
        break;
      }
    }
    ok := code == StatusOk;
  }

  // ---------------------------------------------------------------- de-duplication

  /** The DOIs written for a stream of items: each truthy DOI the first time it appears. */
  function Dedup(dois: seq<Option<string>>): seq<string> {
    if dois == [] then []
    else
      var kept := Dedup(dois[..|dois| - 1]);
      var d := dois[|dois| - 1];
      if Truthy(d) && d.value !in kept then kept + [d.value] else kept
  }

  predicate NoDuplicates(s: seq<string>) {
    forall i, j :: 0 <= i < j < |s| ==> s[i] != s[j]
  }

  /** Each DOI is written at most once, and exactly the non-empty DOIs that occur are written. */
  lemma {:induction false} DedupMeaning(dois: seq<Option<string>>)
    ensures NoDuplicates(Dedup(dois))
    ensures forall d :: d in Dedup(dois) <==> Some(d) in dois && d != []
  {
    if dois != [] {
      var init := dois[..|dois| - 1];
      DedupMeaning(init);
      assert dois == init + [dois[|dois| - 1]];
    }
  }

  /**
   * What is written is never revised: the DOIs written for a stream are a prefix of
   * those written once more items follow. With `DedupMeaning`, this puts the DOIs
   * in the order of their first occurrence.
   */
  lemma {:induction false} DedupAppendOnly(xs: seq<Option<string>>, ys: seq<Option<string>>)
    ensures |Dedup(xs)| <= |Dedup(xs + ys)| && Dedup(xs + ys)[..|Dedup(xs)|] == Dedup(xs)
  {
    if ys != [] {
      var init := ys[..|ys| - 1];
      DedupAppendOnly(xs, init);
      assert (xs + ys)[..|xs + ys| - 1] == xs + init;
    } else {
      assert xs + ys == xs;
    }
  }

  /** The elements of a sequence, as `seen` holds them. */
  function Elements(s: seq<string>): set<string> {
    set d | d in s
  }

  function ItemDois(items: seq<Item>): seq<Option<string>> {
    seq(|items|, i requires 0 <= i < |items| => items[i].doi)
  }

  /**
   * The `for it in items` loop: write each DOI that is non-empty and not yet seen,
   * and count it.
   */
  method WritePage(items: seq<Item>, written: seq<string>, seen: set<string>, total: nat,
                   ghost before: seq<Option<string>>)
    returns (written': seq<string>, seen': set<string>, total': nat)
    requires written == Dedup(before) && seen == Elements(written) && total == |written|
    ensures written' == Dedup(before + ItemDois(items))
    ensures seen' == Elements(written') && total' == |written'|
  {
    written', seen', total' := written, seen, total;
    var k := 0;
    assert before + ItemDois(items[..0]) == before;
    while k < |items|
      invariant 0 <= k <= |items|
      invariant written' == Dedup(before + ItemDois(items[..k]))
      invariant seen' == Elements(written') && total' == |written'|
    {
      var doi := items[k].doi;
      ghost var xs := before + ItemDois(items[..k]);
      assert before + ItemDois(items[..k + 1]) == xs + [doi];
      assert (xs + [doi])[..|xs + [doi]| - 1] == xs;
      if doi.Some? && doi.value != [] && doi.value !in seen' {
        written' := written' + [doi.value];
        seen' := seen' + {doi.value};
        total' := total' + 1;
      }
      k := k + 1;
    }
    assert items[..k] == items;
  }

  // ---------------------------------------------------------------- the page loop

  /** The loop ends at this reply: the request failed, the page is empty, or no next cursor came. */
  predicate Stops(e: Exchange) {
    !Succeeds(e.status) || e.items == [] || !Truthy(e.nextCursor)
  }

  /** The reply's items are written: the request succeeded and the page is not empty. */
  predicate WritesItems(e: Exchange) {
    Succeeds(e.status) && e.items != []
  }

  /** The reply at which the harvest ends. */
  function FirstStop(exchanges: seq<Exchange>): (n: nat)
    requires exists k :: 0 <= k < |exchanges| && Stops(exchanges[k])
    ensures n < |exchanges| && Stops(exchanges[n])
    ensures forall k :: 0 <= k < n ==> !Stops(exchanges[k])
  {
    if Stops(exchanges[0]) then 0
    else
      var k :| 0 <= k < |exchanges| && Stops(exchanges[k]);
      assert Stops(exchanges[1..][k - 1]);
      assert forall j :: 1 <= j < |exchanges| ==> exchanges[j] == exchanges[1..][j - 1];
      FirstStop(exchanges[1..]) + 1
  }

  /** The DOIs of the pages whose items were written, in page order. */
  function PageDois(pages: seq<Exchange>): seq<Option<string>> {
    if pages == [] then []
    else PageDois(pages[..|pages| - 1]) + ItemDois(pages[|pages| - 1].items)
  }

  /** The pages whose items get written when the harvest ends at reply `n`. */
  function PagesRead(exchanges: seq<Exchange>, n: nat): seq<Exchange>
    requires n < |exchanges|
  {
    exchanges[..n] + (if WritesItems(exchanges[n]) then [exchanges[n]] else [])
  }

  /** One more page appends its items' DOIs. */
  lemma PageDoisStep(exchanges: seq<Exchange>, n: nat)
    requires n < |exchanges|
    ensures PageDois(exchanges[..n + 1]) == PageDois(exchanges[..n]) + ItemDois(exchanges[n].items)
  {
    assert exchanges[..n + 1][..n] == exchanges[..n];
  }

  /** The cursor sent with request `k`: "*" first, then the next cursor of the previous reply. */
  function CursorFor(exchanges: seq<Exchange>, k: nat): string
    requires k <= |exchanges|
  {
    if k == 0 then FirstCursor else exchanges[k - 1].nextCursor.GetOr("")
  }

  /**
   * `fetch_all_dois`: request page after page, starting from cursor "*" and then
   * with each reply's next cursor, until a request fails three times, a page is
   * empty or no next cursor comes; every new DOI is written once and counted. The
   * harvest ends only when the server ends it, so the replies must hold such a stop.
   */
  method FetchAllDois(exchanges: seq<Exchange>)
    returns (written: seq<string>, totalFetched: nat, cursorsSent: seq<string>)
    requires exists k :: 0 <= k < |exchanges| && Stops(exchanges[k])
    ensures var n := FirstStop(exchanges);
      && written == Dedup(PageDois(PagesRead(exchanges, n)))
      && totalFetched == |written|
      && |cursorsSent| == n + 1
      && forall k :: 0 <= k <= n ==> cursorsSent[k] == CursorFor(exchanges, k)
  {
    ghost var stop := FirstStop(exchanges);
    var cursor := FirstCursor;
    var seen: set<string> := {};
    written, totalFetched, cursorsSent := [], 0, [];
    var n := 0;
    while true
      invariant n <= stop
      invariant written == Dedup(PageDois(exchanges[..n]))
      invariant seen == Elements(written) && totalFetched == |written|
      invariant |cursorsSent| == n && forall k :: 0 <= k < n ==> cursorsSent[k] == CursorFor(exchanges, k)
      invariant cursor == CursorFor(exchanges, n)
      decreases stop - n
    {
      cursorsSent := cursorsSent + [cursor];
      assert forall k :: 0 <= k <= n ==> cursorsSent[k] == CursorFor(exchanges, k);
      var ok, _ := Request(exchanges[n].status);
      if !ok {
        StopAt(exchanges, n);
        break;
      }
      var items := exchanges[n].items;
      if items == [] {
        StopAt(exchanges, n);
        break;
      }
      written, seen, totalFetched := WritePage(items, written, seen, totalFetched, PageDois(exchanges[..n]));
      PageDoisStep(exchanges, n);
      var next := exchanges[n].nextCursor;
      if !Truthy(next) {
        StopAt(exchanges, n);
        break;
      }
      assert !Stops(exchanges[n]);
      cursor := next.value;
      n := n + 1;
    }
  }

  /** A stop no later than the first stop is the first stop; the pages written out end there. */
  lemma StopAt(exchanges: seq<Exchange>, n: nat)
    requires exists k :: 0 <= k < |exchanges| && Stops(exchanges[k])
    requires n < |exchanges| && n <= FirstStop(exchanges) && Stops(exchanges[n])
    ensures n == FirstStop(exchanges)
    ensures PagesRead(exchanges, n) == if WritesItems(exchanges[n]) then exchanges[..n + 1] else exchanges[..n]
  {
    if WritesItems(exchanges[n]) {
      assert exchanges[..n] + [exchanges[n]] == exchanges[..n + 1];
    } else {
      assert exchanges[..n] + [] == exchanges[..n];
    }
  }

  /** Each request after the first carries the non-empty cursor the previous reply named. */
  lemma CursorsFollowReplies(exchanges: seq<Exchange>, k: nat)
    requires exists j :: 0 <= j < |exchanges| && Stops(exchanges[j])
    requires 0 < k <= FirstStop(exchanges)
    ensures Truthy(exchanges[k - 1].nextCursor) && CursorFor(exchanges, k) == exchanges[k - 1].nextCursor.value
  {
  }

  /**
   * The counter and the file agree: every DOI written is distinct, `total_fetched`
   * is their number, and a DOI is written exactly when some page that was written
   * out holds it.
   */
  lemma HarvestMeaning(exchanges: seq<Exchange>)
    requires exists k :: 0 <= k < |exchanges| && Stops(exchanges[k])
    ensures var written := Dedup(PageDois(PagesRead(exchanges, FirstStop(exchanges))));
      NoDuplicates(written)
      && forall d :: d in written <==> d != [] && Some(d) in PageDois(PagesRead(exchanges, FirstStop(exchanges)))
  {
    DedupMeaning(PageDois(PagesRead(exchanges, FirstStop(exchanges))));
  }

  /** Every page before the last one requested was fetched, non-empty and pointed to a next cursor. */
  lemma EarlierPagesContinued(exchanges: seq<Exchange>, k: nat)
    requires exists j :: 0 <= j < |exchanges| && Stops(exchanges[j])
    requires k < FirstStop(exchanges)
    ensures Succeeds(exchanges[k].status) && exchanges[k].items != [] && Truthy(exchanges[k].nextCursor)
  {
  }
}

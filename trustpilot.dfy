/**
 * The web-page source: `scrape_trustpilot_page` (one page, fetched and
 * filtered to the window) and `scrape_trustpilot` (a probe of the first
 * pages, the page schedule, and the loop over completed page results with
 * its consecutive-empty counter and review limit). The HTML parser is a
 * function parameter; the pages completing in the thread pool are a given
 * arrival sequence.
 */
module Trustpilot {

  import opened Records
  import opened Numbers
  import opened Fetch
  import opened Fingerprints

  const MaxPagesTrustpilot: nat := 50
  /** `range(1, min(6, MAX_PAGES_TRUSTPILOT + 1))`: the probe looks at pages 1 to 5. */
  const ProbePages: nat := if MaxPagesTrustpilot < 5 then MaxPagesTrustpilot else 5
  /** The probe ends early on a page of only old rows when its number exceeds this. */
  const EarlyProbePages: nat := 2
  /** The schedule runs past the estimate by this many pages. */
  const ExtraPages: nat := 9
  const ReviewLimit: nat := 1000
  const EmptyPagesToStop: nat := 3

  /** The URL of page `page`: the base URL for the first page, `?page=N` after it. */
  function PageUrl(base: string, page: nat): string
  {
    if page == 1 then base else base + "?page=" + ShowNat(page)
  }

  /** The URLs of pages 1 through `n`, in order. */
  function PageUrls(base: string, n: nat): seq<string>
  {
    seq(n, k requires 0 <= k < n => PageUrl(base, k + 1))
  }

  lemma PageUrlsSnoc(base: string, n: nat)
    ensures PageUrls(base, n + 1) == PageUrls(base, n) + [PageUrl(base, n + 1)]
  {
  }

  /** Distinct pages have distinct URLs. */
  lemma PageUrlInjective(base: string, p: nat, q: nat)
    requires 1 <= p && 1 <= q && PageUrl(base, p) == PageUrl(base, q)
    ensures p == q
  {
    var head := base + "?page=";
    if p != 1 && q != 1 {
      var u, v := PageUrl(base, p), PageUrl(base, q);
      assert u == head + ShowNat(p) && v == head + ShowNat(q);
      assert u[|head|..] == ShowNat(p);
      assert v[|head|..] == ShowNat(q);
      ShowNatInjective(p, q);
    }
  }

  // ---------------------------------------------------------------------
  // The window test on parsed rows

  /**
   * `dateparser.parse(r["review_date"]) >= cutoff`: the ISO date parses to
   * its midnight, taken as UTC.
   */
  predicate Recent(r: Review, cutoff: int)
  {
    IsWithinLast12Months(DayStart(r.date), cutoff)
  }

  /** The rows inside the window, in order. */
  function RecentRows(rows: seq<Review>, cutoff: int): (kept: seq<Review>)
    ensures |kept| <= |rows|
  {
    if rows == [] then []
    else
      var last := rows[|rows| - 1];
      RecentRows(rows[..|rows| - 1], cutoff) + (if Recent(last, cutoff) then [last] else [])
  }

  /** The number of rows before the window, as the probe counts `old_reviews`. */
  function OldCount(rows: seq<Review>, cutoff: int): nat
  {
    if rows == [] then 0
    else OldCount(rows[..|rows| - 1], cutoff) + (if Recent(rows[|rows| - 1], cutoff) then 0 else 1)
  }

  /**
   * The kept rows are in the window and come from the input; the window
   * splits the rows into the kept ones and the old ones; a page of only
   * old rows keeps nothing, and a page of only recent rows is kept whole.
   */
  lemma {:induction false} RecentRowsMeaning(rows: seq<Review>, cutoff: int)
    ensures forall k :: 0 <= k < |RecentRows(rows, cutoff)| ==>
      Recent(RecentRows(rows, cutoff)[k], cutoff) && RecentRows(rows, cutoff)[k] in rows
    ensures |RecentRows(rows, cutoff)| + OldCount(rows, cutoff) == |rows|
    ensures OldCount(rows, cutoff) == |rows| <==> forall k :: 0 <= k < |rows| ==> !Recent(rows[k], cutoff)
    ensures OldCount(rows, cutoff) == 0 <==> RecentRows(rows, cutoff) == rows
  {
    if rows != [] {
      var init := rows[..|rows| - 1];
      var last := rows[|rows| - 1];
      RecentRowsMeaning(init, cutoff);
      assert rows == init + [last];
      var kept := RecentRows(rows, cutoff);
      var ki := RecentRows(init, cutoff);
      forall k | 0 <= k < |kept| ensures Recent(kept[k], cutoff) && kept[k] in rows {
        if k < |ki| {
          assert kept[k] == ki[k];
          assert ki[k] in init;
        }
      }
      if forall k :: 0 <= k < |rows| ==> !Recent(rows[k], cutoff) {
        assert forall k :: 0 <= k < |init| ==> !Recent(init[k], cutoff) by {
          forall k | 0 <= k < |init| ensures !Recent(init[k], cutoff) {
            assert init[k] == rows[k];
          }
        }
      }
      if OldCount(rows, cutoff) == |rows| {
        forall k | 0 <= k < |rows| ensures !Recent(rows[k], cutoff) {
          if k < |init| {
            assert rows[k] == init[k];
          }
        }
      }
      if kept == rows {
        assert |ki| == |init|;
      }
    }
  }

  /** `len(in_window)` stays zero for a page of only old rows: what the probe's test and the worker's filter share. */
  lemma AllOldKeepsNothing(rows: seq<Review>, cutoff: int)
    ensures OldCount(rows, cutoff) == |rows| <==> RecentRows(rows, cutoff) == []
  {
    RecentRowsMeaning(rows, cutoff);
  }

  /** The worker's filter loop over the parsed rows. */
  method KeepRecentRows(rows: seq<Review>, cutoff: int) returns (inWindow: seq<Review>)
    ensures inWindow == RecentRows(rows, cutoff)
  {
    inWindow := [];
    var i := 0;
    while i < |rows|
      invariant 0 <= i <= |rows|
      invariant inWindow == RecentRows(rows[..i], cutoff)
    {
      assert rows[..i + 1][..i] == rows[..i];
      if DayStart(rows[i].date) >= cutoff {
        inWindow := inWindow + [rows[i]];
      }
      i := i + 1;
    }
    assert rows[..|rows|] == rows;
  }

  /** The probe's count of rows before the window. */
  method CountOld(rows: seq<Review>, cutoff: int) returns (oldRows: nat)
    ensures oldRows == OldCount(rows, cutoff)
  {
    oldRows := 0;
    var i := 0;
    while i < |rows|
      invariant 0 <= i <= |rows|
      invariant oldRows == OldCount(rows[..i], cutoff)
    {
      assert rows[..i + 1][..i] == rows[..i];
      if DayStart(rows[i].date) < cutoff {
        oldRows := oldRows + 1;
      }
      i := i + 1;
    }
    assert rows[..|rows|] == rows;
  }

  // ---------------------------------------------------------------------
  // scrape_trustpilot_page

  /** One page request: the shutdown flag as the worker or the probe sees it, and the attempts of its `http_get`. */
  datatype PageVisit = PageVisit(shutdown: bool, attempts: seq<Attempt<string>>)

  /** What the worker returns: the number of parsed rows, and those inside the window. */
  datatype PageYield = PageYield(total: nat, rows: seq<Review>)

  /** `scrape_trustpilot_page`, with `parsePage` standing for `parse_page`. */
  function PageYieldOf(v: PageVisit, cutoff: int, parsePage: string -> seq<Review>): PageYield
    requires MaxRetries <= |v.attempts|
  {
    if v.shutdown then PageYield(0, [])
    else
      var html := TextFetch(v.attempts, 0).result;
      if html.None? then PageYield(0, [])
      else
        var rows := parsePage(html.value);
        if rows == [] then PageYield(0, []) else PageYield(|rows|, RecentRows(rows, cutoff))
  }

  method ScrapeTrustpilotPage(v: PageVisit, cutoff: int, parsePage: string -> seq<Review>)
    returns (total: nat, inWindow: seq<Review>)
    requires MaxRetries <= |v.attempts|
    ensures PageYield(total, inWindow) == PageYieldOf(v, cutoff, parsePage)
  {
    if v.shutdown {
      return 0, [];
    }
    var html, _, _ := HttpGet(v.attempts);
    if html.None? {
      return 0, [];
    }
    var rows := parsePage(html.value);
    if rows == [] {
      return 0, [];
    }
    inWindow := KeepRecentRows(rows, cutoff);
    total := |rows|;
  }

  /** What every worker result satisfies: no more kept rows than parsed ones, all inside the window. */
  predicate WorkerShaped(y: PageYield, cutoff: int)
  {
    |y.rows| <= y.total && forall k :: 0 <= k < |y.rows| ==> Recent(y.rows[k], cutoff)
  }

  /**
   * A worker reports zero rows exactly when shutdown was requested, the
   * page could not be fetched, or it parsed to no rows; otherwise it
   * reports how many rows it parsed and keeps those inside the window.
   */
  lemma PageYieldFacts(v: PageVisit, cutoff: int, parsePage: string -> seq<Review>)
    requires MaxRetries <= |v.attempts|
    ensures var y := PageYieldOf(v, cutoff, parsePage);
      var html := TextFetch(v.attempts, 0).result;
      WorkerShaped(y, cutoff)
      && (y.total == 0 <==> v.shutdown || html.None? || parsePage(html.value) == [])
      && (y.total > 0 ==> y.total == |parsePage(html.value)| && y.rows == RecentRows(parsePage(html.value), cutoff))
  {
    var html := TextFetch(v.attempts, 0).result;
    if !v.shutdown && html.Some? {
      RecentRowsMeaning(parsePage(html.value), cutoff);
    }
  }

  // ---------------------------------------------------------------------
  // The probe of scrape_trustpilot

  /** What a probed page shows once requested: no HTML, no parsed rows, or rows (all old or not). */
  datatype ProbeView = NoHtml | NoRows | Rows(allOld: bool)

  function ProbeViewOf(v: PageVisit, cutoff: int, parsePage: string -> seq<Review>): ProbeView
    requires MaxRetries <= |v.attempts|
  {
    var html := TextFetch(v.attempts, 0).result;
    if html.None? then NoHtml
    else
      var rows := parsePage(html.value);
      if rows == [] then NoRows else Rows(OldCount(rows, cutoff) == |rows|)
  }

  predicate WellFed(visits: seq<PageVisit>)
  {
    forall j :: 0 <= j < |visits| ==> MaxRetries <= |visits[j].attempts|
  }

  /** The view of every probe page, as the probe would see it on reaching that page. */
  function ProbeViews(visits: seq<PageVisit>, cutoff: int, parsePage: string -> seq<Review>): (views: seq<ProbeView>)
    requires WellFed(visits)
    ensures |views| == |visits|
    ensures forall j :: 0 <= j < |visits| ==> views[j] == ProbeViewOf(visits[j], cutoff, parsePage)
  {
    seq(|visits|, j requires 0 <= j < |visits| && WellFed(visits) => ProbeViewOf(visits[j], cutoff, parsePage))
  }

  /** How the probe ends: shut down (the whole scrape returns nothing), or with an estimate; `probed` pages were requested. */
  datatype Probe = Aborted(probed: nat) | Estimated(est: nat, probed: nat)

  /** Whether the probe goes on to the next page after page number `page` showed `view`. */
  predicate Continues(view: ProbeView, page: nat)
  {
    view.NoHtml? || (view.Rows? && !(view.allOld && page > EarlyProbePages))
  }

  /** The probe loop from page number `page`, with the estimate `est` so far. */
  function ProbeLoop(visits: seq<PageVisit>, views: seq<ProbeView>, page: nat, est: nat): (r: Probe)
    requires 1 <= page <= ProbePages + 1 && ProbePages <= |visits| == |views|
    ensures page - 1 <= r.probed <= ProbePages
    decreases ProbePages + 1 - page
  {
    if page > ProbePages then Estimated(est, ProbePages)
    else if visits[page - 1].shutdown then Aborted(page - 1)
    else
      match views[page - 1]
      case NoHtml => ProbeLoop(visits, views, page + 1, est)
      case NoRows => Estimated(est, page)
      case Rows(allOld) =>
        if allOld && page > EarlyProbePages then Estimated(page, page)
        else ProbeLoop(visits, views, page + 1, page)
  }

  /**
   * Which pages the probe requests, from page `page`: at most `ProbePages`,
   * none once the shutdown flag is seen, every page but the last letting it
   * go on, and an early end due to the last page's view.
   */
  lemma {:induction false} ProbeLoopPages(visits: seq<PageVisit>, views: seq<ProbeView>, page: nat, est: nat)
    requires 1 <= page <= ProbePages + 1 && ProbePages <= |visits| == |views|
    ensures var r := ProbeLoop(visits, views, page, est);
      (forall j :: page - 1 <= j < r.probed ==> !visits[j].shutdown)
      && (forall j :: page - 1 <= j < r.probed - 1 ==> Continues(views[j], j + 1))
      && (r.Aborted? ==> r.probed < ProbePages && visits[r.probed].shutdown)
      && (r.Estimated? && r.probed < ProbePages ==> r.probed >= page && !Continues(views[r.probed - 1], r.probed))
    decreases ProbePages + 1 - page
  {
    if page <= ProbePages && !visits[page - 1].shutdown {
      var view := views[page - 1];
      if view.NoHtml? {
        assert ProbeLoop(visits, views, page, est) == ProbeLoop(visits, views, page + 1, est);
        ProbeLoopPages(visits, views, page + 1, est);
      } else if view.Rows? && !(view.allOld && page > EarlyProbePages) {
        assert ProbeLoop(visits, views, page, est) == ProbeLoop(visits, views, page + 1, page);
        ProbeLoopPages(visits, views, page + 1, page);
      } else if view.Rows? {
        assert ProbeLoop(visits, views, page, est) == Estimated(page, page);
      } else {
        assert ProbeLoop(visits, views, page, est) == Estimated(est, page);
      }
    }
  }

  /**
   * The estimate, from page `page` with the estimate `est` so far: the last
   * requested page that parsed to rows (0 when none did), and no later
   * requested page did.
   */
  lemma {:induction false} ProbeLoopEstimate(visits: seq<PageVisit>, views: seq<ProbeView>, page: nat, est: nat)
    requires 1 <= page <= ProbePages + 1 && ProbePages <= |visits| == |views|
    requires est < page && (est > 0 ==> views[est - 1].Rows?)
    requires forall j :: est <= j < page - 1 ==> views[j].NoHtml?
    ensures var r := ProbeLoop(visits, views, page, est);
      r.Estimated? ==>
        r.est <= r.probed && (r.est > 0 ==> views[r.est - 1].Rows?)
        && (forall j :: r.est <= j < r.probed ==> !views[j].Rows?)
    decreases ProbePages + 1 - page
  {
    if page <= ProbePages && !visits[page - 1].shutdown {
      var view := views[page - 1];
      if view.NoHtml? {
        assert ProbeLoop(visits, views, page, est) == ProbeLoop(visits, views, page + 1, est);
        ProbeLoopEstimate(visits, views, page + 1, est);
      } else if view.Rows? && !(view.allOld && page > EarlyProbePages) {
        assert ProbeLoop(visits, views, page, est) == ProbeLoop(visits, views, page + 1, page);
        ProbeLoopEstimate(visits, views, page + 1, page);
      } else if view.Rows? {
        assert ProbeLoop(visits, views, page, est) == Estimated(page, page);
      } else {
        assert ProbeLoop(visits, views, page, est) == Estimated(est, page);
      }
    }
  }

  /** From the first page: what `scrape_trustpilot` learns from its probe. */
  lemma ProbeFacts(visits: seq<PageVisit>, views: seq<ProbeView>)
    requires ProbePages <= |visits| == |views|
    ensures var r := ProbeLoop(visits, views, 1, 0);
      r.probed <= ProbePages
      && (forall j :: 0 <= j < r.probed ==> !visits[j].shutdown)
      && (r.Aborted? ==> visits[r.probed].shutdown)
      && (r.Estimated? ==>
            r.est <= r.probed && (r.est > 0 ==> views[r.est - 1].Rows?)
            && (r.est == 0 ==> forall j :: 0 <= j < r.probed ==> !views[j].Rows?))
  {
    ProbeLoopPages(visits, views, 1, 0);
    ProbeLoopEstimate(visits, views, 1, 0);
  }

  /** One probe page once the shutdown flag is found clear: fetch, parse and count the old rows. */
  method ProbeOne(v: PageVisit, cutoff: int, parsePage: string -> seq<Review>) returns (view: ProbeView)
    requires MaxRetries <= |v.attempts|
    ensures view == ProbeViewOf(v, cutoff, parsePage)
  {
    var html, _, _ := HttpGet(v.attempts);
    if html.None? {
      return NoHtml;
    }
    var rows := parsePage(html.value);
    if rows == [] {
      return NoRows;
    }
    var oldRows := CountOld(rows, cutoff);
    view := Rows(oldRows == |rows|);
  }

  /**
   * One page of the probe loop, page number `page`: whether the loop ends
   * here (and then whether by shutdown, and the probe's outcome), the
   * estimate after it, and whether the page was requested.
   */
  method ProbeStep(visits: seq<PageVisit>, cutoff: int, parsePage: string -> seq<Review>, page: nat, est: nat,
                   ghost views: seq<ProbeView>)
    returns (done: bool, aborted: bool, est': nat, requested: bool)
    requires 1 <= page <= ProbePages && ProbePages <= |visits| == |views| && est < page
    requires MaxRetries <= |visits[page - 1].attempts|
    requires views[page - 1] == ProbeViewOf(visits[page - 1], cutoff, parsePage)
    ensures requested <==> !visits[page - 1].shutdown
    ensures aborted <==> !requested
    ensures aborted ==> done
    ensures est' < page + 1
    ensures done ==> ProbeLoop(visits, views, page, est) == (if aborted then Aborted(page - 1) else Estimated(est', page))
    ensures !done ==> !aborted && ProbeLoop(visits, views, page, est) == ProbeLoop(visits, views, page + 1, est')
  {
    if visits[page - 1].shutdown {
      return true, true, est, false;
    }
    var view := ProbeOne(visits[page - 1], cutoff, parsePage);
    if view.NoRows? {
      return true, false, est, true;
    }
    if view.Rows? {
      return view.allOld && page > EarlyProbePages, false, page, true;
    }
    return false, false, est, true;
  }

  /** The probe loop: whether it was shut down, the estimate, and the URLs it requested. */
  method ProbeTrustpilot(base: string, visits: seq<PageVisit>, cutoff: int, parsePage: string -> seq<Review>,
                         ghost views: seq<ProbeView>)
    returns (aborted: bool, est: nat, urls: seq<string>)
    requires ProbePages <= |visits| && WellFed(visits)
    requires views == ProbeViews(visits, cutoff, parsePage)
    ensures var r := ProbeLoop(visits, views, 1, 0);
      (aborted <==> r.Aborted?) && (r.Estimated? ==> est == r.est) && urls == PageUrls(base, r.probed)
  {
    ghost var final := ProbeLoop(visits, views, 1, 0);
    est := 0;
    urls := [];
    var page := 1;
    while page <= ProbePages
      invariant 1 <= page <= ProbePages + 1 && est < page
      invariant urls == PageUrls(base, page - 1)
      invariant ProbeLoop(visits, views, page, est) == final
    {
      var done, requested;
      done, aborted, est, requested := ProbeStep(visits, cutoff, parsePage, page, est, views);
      if requested {
        PageUrlsSnoc(base, page - 1);
        urls := urls + [PageUrl(base, page)];
      }
      if done {
        return;
      }
      page := page + 1;
    }
    assert final == Estimated(est, ProbePages);
    aborted := false;
  }

  // ---------------------------------------------------------------------
  // The page schedule

  /** One scheduled page: its number and URL. */
  datatype Job = Job(page: nat, url: string)

  /** `range(1, min(estimated_pages + 10, MAX_PAGES_TRUSTPILOT + 1))` has this many pages. */
  function ScheduledCount(est: nat): nat
  {
    if est + ExtraPages < MaxPagesTrustpilot then est + ExtraPages else MaxPagesTrustpilot
  }

  /** Pages 1 through `ScheduledCount(est)`, in order, with their URLs. */
  function Schedule(base: string, est: nat): seq<Job>
  {
    seq(ScheduledCount(est), k requires 0 <= k => Job(k + 1, PageUrl(base, k + 1)))
  }

  /** The loop building `urls_to_scrape`. */
  method SchedulePages(base: string, est: nat) returns (jobs: seq<Job>)
    ensures jobs == Schedule(base, est)
  {
    jobs := [];
    var page := 1;
    var stop := if est + ExtraPages + 1 < MaxPagesTrustpilot + 1 then est + ExtraPages + 1 else MaxPagesTrustpilot + 1;
    while page < stop
      invariant 1 <= page <= stop
      invariant jobs == Schedule(base, est)[..page - 1]
    {
      jobs := jobs + [Job(page, PageUrl(base, page))];
      page := page + 1;
    }
  }

  /**
   * The schedule never exceeds `MaxPagesTrustpilot` pages; for an estimate
   * the probe can produce it is the estimate plus `ExtraPages` pages, and
   * the scheduled URLs are pairwise distinct.
   */
  lemma ScheduleFacts(base: string, est: nat)
    ensures |Schedule(base, est)| <= MaxPagesTrustpilot
    ensures est <= ProbePages ==> |Schedule(base, est)| == est + ExtraPages
    ensures forall i, j :: 0 <= i < j < |Schedule(base, est)| ==> Schedule(base, est)[i].url != Schedule(base, est)[j].url
  {
    var s := Schedule(base, est);
    forall i, j | 0 <= i < j < |s| ensures s[i].url != s[j].url {
      if s[i].url == s[j].url {
        PageUrlInjective(base, i + 1, j + 1);
      }
    }
  }

  // ---------------------------------------------------------------------
  // The result loop of scrape_trustpilot

  /** A completed page: the worker's result, or an exception raised by `future.result()`. */
  datatype Completion = Done(y: PageYield) | Crashed

  /** One turn of the result loop: the shutdown flag at its top, and the next page to complete. */
  datatype Arrival = Arrival(shutdown: bool, c: Completion)

  /** Why the result loop ended. */
  datatype TpStop = Shutdown | EmptyPages | ReviewLimitReached | Exhausted

  /**
   * The loop variables: results taken, the consecutive-empty counter, and
   * every in-window row offered for deduplication so far (`all_rows` is
   * their deduplication).
   */
  datatype TpState = TpState(next: nat, empties: nat, cands: seq<Review>)

  datatype TpRun = TpRun(state: TpState, stop: TpStop)

  datatype TpTurn = TpTurn(state: TpState, stop: Option<TpStop>)

  function RowsOf(c: Completion): seq<Review>
  {
    if c.Done? then c.y.rows else []
  }

  /** How many rows `all_rows` holds once the rows `cands` have been offered to it. */
  function AllRowsCount(cands: seq<Review>): nat
  {
    |Dedup(cands, Key80)|
  }

  /** One result taken once the shutdown flag is found clear, with `held` its effect on the row count. */
  function TakeTurn(c: Completion, held: nat, st: TpState): (t: TpTurn)
    ensures t.state.next == st.next + 1
  {
    var next := st.next + 1;
    match c
    case Crashed => TpTurn(TpState(next, st.empties, st.cands), None)
    case Done(y) =>
      if y.total == 0 && st.empties + 1 >= EmptyPagesToStop then
        TpTurn(TpState(next, st.empties + 1, st.cands), Some(EmptyPages))
      else
        var empties := if y.total == 0 then st.empties + 1 else 0;
        TpTurn(TpState(next, empties, st.cands + y.rows), if held > ReviewLimit then Some(ReviewLimitReached) else None)
  }

  /**
   * The result loop from state `st`, over the results in the order they
   * complete; `count` gives the size of `all_rows` for the rows offered so
   * far (`AllRowsCount` in `scrape_trustpilot`, kept a parameter so that
   * the facts about the loop's control do not depend on it).
   */
  function TpLoop(arrivals: seq<Arrival>, st: TpState, count: seq<Review> -> nat): (r: TpRun)
    requires st.next <= |arrivals|
    ensures st.next <= r.state.next <= |arrivals|
    decreases |arrivals| - st.next
  {
    if st.next == |arrivals| then TpRun(st, Exhausted)
    else if arrivals[st.next].shutdown then TpRun(st, Shutdown)
    else
      var c := arrivals[st.next].c;
      var t := TakeTurn(c, count(st.cands + RowsOf(c)), st);
      if t.stop.Some? then TpRun(t.state, t.stop.value) else TpLoop(arrivals, t.state, count)
  }

  /**
   * Reference definition of the counter after `n` results: the results in
   * a row, ending with result `n`, that reported zero rows, with exceptions
   * passed over (they leave the counter alone).
   */
  function TrailingEmpty(arrivals: seq<Arrival>, n: nat): nat
    requires n <= |arrivals|
  {
    if n == 0 then 0
    else
      var c := arrivals[n - 1].c;
      if c.Crashed? then TrailingEmpty(arrivals, n - 1)
      else if c.y.total == 0 then TrailingEmpty(arrivals, n - 1) + 1
      else 0
  }

  /** Reference definition of the rows offered by the first `n` results, in arrival order. */
  function Offered(arrivals: seq<Arrival>, n: nat): seq<Review>
    requires n <= |arrivals|
  {
    if n == 0 then [] else Offered(arrivals, n - 1) + RowsOf(arrivals[n - 1].c)
  }

  /**
   * One turn and the counter: the loop stops on empty pages exactly when a
   * zero count makes the counter `EmptyPagesToStop`; otherwise the counter
   * is that of the reference definition.
   */
  lemma {:induction false} TakeTurnCounter(arrivals: seq<Arrival>, held: nat, st: TpState)
    requires st.next < |arrivals|
    requires st.empties == TrailingEmpty(arrivals, st.next) < EmptyPagesToStop
    ensures var t := TakeTurn(arrivals[st.next].c, held, st);
      var n := t.state.next;
      (t.stop == Some(EmptyPages) <==> TrailingEmpty(arrivals, n) >= EmptyPagesToStop)
      && (t.stop == Some(EmptyPages) ==> TrailingEmpty(arrivals, n) == EmptyPagesToStop)
      && (t.stop != Some(EmptyPages) ==> t.state.empties == TrailingEmpty(arrivals, n) < EmptyPagesToStop)
  {
  }

  /**
   * One turn and the rows offered: those of the reference definition, but
   * for a result ending the loop on empty pages, whose rows are not offered.
   */
  lemma {:induction false} TakeTurnCands(arrivals: seq<Arrival>, held: nat, st: TpState)
    requires st.next < |arrivals|
    requires st.cands == Offered(arrivals, st.next)
    ensures var t := TakeTurn(arrivals[st.next].c, held, st);
      var n := t.state.next;
      (t.stop == Some(EmptyPages) ==> t.state.cands == Offered(arrivals, n - 1))
      && (t.stop != Some(EmptyPages) ==> t.state.cands == Offered(arrivals, n))
  {
    assert Offered(arrivals, st.next + 1) == st.cands + RowsOf(arrivals[st.next].c);
  }

  /**
   * Why the loop ends, from a state reached by it: no result is taken once
   * the shutdown flag is seen, and the loop runs out of results only after
   * taking them all.
   */
  lemma {:induction false} TpLoopStops(arrivals: seq<Arrival>, st: TpState, count: seq<Review> -> nat)
    requires st.next <= |arrivals|
    ensures var r := TpLoop(arrivals, st, count);
      var n := r.state.next;
      (forall j :: st.next <= j < n ==> !arrivals[j].shutdown)
      && (r.stop == Exhausted ==> n == |arrivals|)
      && (r.stop == Shutdown ==> n < |arrivals| && arrivals[n].shutdown)
    decreases |arrivals| - st.next
  {
    if st.next < |arrivals| && !arrivals[st.next].shutdown {
      var c := arrivals[st.next].c;
      var t := TakeTurn(c, count(st.cands + RowsOf(c)), st);
      if t.stop.None? {
        assert TpLoop(arrivals, st, count) == TpLoop(arrivals, t.state, count);
        TpLoopStops(arrivals, t.state, count);
      } else {
        assert TpLoop(arrivals, st, count) == TpRun(t.state, t.stop.value);
      }
    }
  }

  /**
   * The counter, from a state reached by the loop: it stays below
   * `EmptyPagesToStop` after every result but the last, and the loop stops
   * on empty pages exactly when it reaches it: after any other stop it is
   * still below, and it is the counter the loop holds.
   */
  lemma {:induction false} TpLoopCounter(arrivals: seq<Arrival>, st: TpState, count: seq<Review> -> nat)
    requires st.next <= |arrivals|
    requires st.empties == TrailingEmpty(arrivals, st.next) < EmptyPagesToStop
    ensures var r := TpLoop(arrivals, st, count);
      var n := r.state.next;
      (forall j :: st.next < j < n ==> TrailingEmpty(arrivals, j) < EmptyPagesToStop)
      && (r.stop == EmptyPages ==> st.next < n && TrailingEmpty(arrivals, n) == EmptyPagesToStop)
      && (r.stop != EmptyPages ==> r.state.empties == TrailingEmpty(arrivals, n) < EmptyPagesToStop)
    decreases |arrivals| - st.next
  {
    if st.next < |arrivals| && !arrivals[st.next].shutdown {
      var c := arrivals[st.next].c;
      var held := count(st.cands + RowsOf(c));
      TakeTurnCounter(arrivals, held, st);
      var t := TakeTurn(c, held, st);
      if t.stop.None? {
        assert TpLoop(arrivals, st, count) == TpLoop(arrivals, t.state, count);
        TpLoopCounter(arrivals, t.state, count);
      } else {
        assert TpLoop(arrivals, st, count) == TpRun(t.state, t.stop.value);
      }
    }
  }

  /**
   * The rows offered, from a state reached by the loop: those of the
   * results taken, but the last on an empty-page stop.
   */
  lemma {:induction false} TpLoopCands(arrivals: seq<Arrival>, st: TpState, count: seq<Review> -> nat)
    requires st.next <= |arrivals|
    requires st.cands == Offered(arrivals, st.next)
    ensures var r := TpLoop(arrivals, st, count);
      var n := r.state.next;
      (r.stop == EmptyPages ==> st.next < n && r.state.cands == Offered(arrivals, n - 1))
      && (r.stop != EmptyPages ==> r.state.cands == Offered(arrivals, n))
    decreases |arrivals| - st.next
  {
    if st.next < |arrivals| && !arrivals[st.next].shutdown {
      var c := arrivals[st.next].c;
      var held := count(st.cands + RowsOf(c));
      TakeTurnCands(arrivals, held, st);
      var t := TakeTurn(c, held, st);
      if t.stop.None? {
        assert TpLoop(arrivals, st, count) == TpLoop(arrivals, t.state, count);
        TpLoopCands(arrivals, t.state, count);
      } else {
        assert TpLoop(arrivals, st, count) == TpRun(t.state, t.stop.value);
      }
    } else {
      assert TpLoop(arrivals, st, count).state == st && TpLoop(arrivals, st, count).stop != EmptyPages;
    }
  }

  /**
   * The row limit, from a state reached by the loop: it stops on the limit
   * exactly when `all_rows` ends up holding more than `ReviewLimit` rows.
   */
  lemma {:induction false} TpLoopLimit(arrivals: seq<Arrival>, st: TpState, count: seq<Review> -> nat)
    requires st.next <= |arrivals|
    requires count(st.cands) <= ReviewLimit
    ensures var r := TpLoop(arrivals, st, count);
      (r.stop == ReviewLimitReached <==> count(r.state.cands) > ReviewLimit)
      && (r.stop == ReviewLimitReached ==> st.next < r.state.next)
    decreases |arrivals| - st.next
  {
    if st.next < |arrivals| && !arrivals[st.next].shutdown {
      var c := arrivals[st.next].c;
      var held := count(st.cands + RowsOf(c));
      var t := TakeTurn(c, held, st);
      if t.stop != Some(EmptyPages) && c.Done? {
        assert t.state.cands == st.cands + RowsOf(c);
        assert count(t.state.cands) == held;
      }
      if t.stop.None? {
        assert TpLoop(arrivals, st, count) == TpLoop(arrivals, t.state, count);
        TpLoopLimit(arrivals, t.state, count);
      } else {
        assert TpLoop(arrivals, st, count) == TpRun(t.state, t.stop.value);
      }
    } else {
      assert TpLoop(arrivals, st, count).state == st;
    }
  }

  /** After every result but the last, `all_rows` holds at most `ReviewLimit` rows. */
  lemma {:induction false} TpLoopBelow(arrivals: seq<Arrival>, st: TpState, count: seq<Review> -> nat)
    requires st.next <= |arrivals|
    requires st.cands == Offered(arrivals, st.next) && count(st.cands) <= ReviewLimit
    ensures var r := TpLoop(arrivals, st, count);
      forall j :: st.next < j < r.state.next ==> count(Offered(arrivals, j)) <= ReviewLimit
    decreases |arrivals| - st.next
  {
    if st.next < |arrivals| && !arrivals[st.next].shutdown {
      var c := arrivals[st.next].c;
      var held := count(st.cands + RowsOf(c));
      var t := TakeTurn(c, held, st);
      if t.stop.None? {
        assert TpLoop(arrivals, st, count) == TpLoop(arrivals, t.state, count);
        assert t.state.cands == Offered(arrivals, st.next + 1) by {
          TakeTurnCands(arrivals, held, st);
        }
        assert count(t.state.cands) <= ReviewLimit by {
          if c.Crashed? {
            assert t.state.cands == st.cands;
          }
        }
        TpLoopBelow(arrivals, t.state, count);
      } else {
        assert TpLoop(arrivals, st, count) == TpRun(t.state, t.stop.value);
      }
    }
  }

  /**
   * From the start, for any arrival order: no result is taken after the
   * shutdown flag is seen, and the loop stops at the first result after
   * which three results in a row reported zero rows or `all_rows` holds
   * more than `ReviewLimit` rows, and at no earlier one; when it runs out
   * of results or sees the shutdown flag, neither condition holds after
   * the last result taken either.
   */
  lemma TpRunFacts(arrivals: seq<Arrival>)
    ensures var r := TpLoop(arrivals, TpState(0, 0, []), AllRowsCount);
      var n := r.state.next;
      (forall j :: 0 <= j < n ==> !arrivals[j].shutdown)
      && (forall j :: 0 < j < n ==>
            TrailingEmpty(arrivals, j) < EmptyPagesToStop && AllRowsCount(Offered(arrivals, j)) <= ReviewLimit)
      && (r.stop == Exhausted ==> n == |arrivals|)
      && (r.stop == Shutdown ==> n < |arrivals| && arrivals[n].shutdown)
      && (r.stop == EmptyPages ==> TrailingEmpty(arrivals, n) == EmptyPagesToStop)
      && (r.stop == ReviewLimitReached ==> AllRowsCount(Offered(arrivals, n)) > ReviewLimit)
      && (r.stop != EmptyPages ==> TrailingEmpty(arrivals, n) < EmptyPagesToStop)
      && (r.stop == Exhausted || r.stop == Shutdown ==> AllRowsCount(Offered(arrivals, n)) <= ReviewLimit)
  {
    var st := TpState(0, 0, []);
    TpLoopStops(arrivals, st, AllRowsCount);
    TpLoopCounter(arrivals, st, AllRowsCount);
    TpLoopCands(arrivals, st, AllRowsCount);
    TpLoopLimit(arrivals, st, AllRowsCount);
    TpLoopBelow(arrivals, st, AllRowsCount);
  }

  /** A counter of `k` after `n` results means the last `k` results that did not crash all reported zero rows. */
  lemma {:induction false} TrailingEmptyMeaning(arrivals: seq<Arrival>, n: nat)
    requires n <= |arrivals|
    ensures TrailingEmpty(arrivals, n) <= n
    ensures TrailingEmpty(arrivals, n) > 0 ==> exists j :: 0 <= j < n && arrivals[j].c.Done? && arrivals[j].c.y.total == 0
    ensures n > 0 && arrivals[n - 1].c.Done? && arrivals[n - 1].c.y.total > 0 ==> TrailingEmpty(arrivals, n) == 0
  {
    if n > 0 {
      TrailingEmptyMeaning(arrivals, n - 1);
      var c := arrivals[n - 1].c;
      if c.Done? && c.y.total == 0 {
        assert arrivals[n - 1].c.Done? && arrivals[n - 1].c.y.total == 0;
      }
    }
  }

  /** Every row offered by results the workers produced is inside the window. */
  lemma {:induction false} OfferedRecent(arrivals: seq<Arrival>, n: nat, cutoff: int)
    requires n <= |arrivals|
    requires forall j :: 0 <= j < |arrivals| && arrivals[j].c.Done? ==> WorkerShaped(arrivals[j].c.y, cutoff)
    ensures forall k :: 0 <= k < |Offered(arrivals, n)| ==> Recent(Offered(arrivals, n)[k], cutoff)
  {
    if n > 0 {
      OfferedRecent(arrivals, n - 1, cutoff);
      var a, b := Offered(arrivals, n - 1), RowsOf(arrivals[n - 1].c);
      assert Offered(arrivals, n) == a + b;
      forall k | 0 <= k < |a + b| ensures Recent((a + b)[k], cutoff) {
        if k < |a| {
          assert (a + b)[k] == a[k];
        } else {
          assert (a + b)[k] == b[k - |a|];
        }
      }
    }
  }

  /**
   * The output of the result loop: its fingerprints are pairwise distinct
   * and, when every result is a worker's, every row is inside the window.
   */
  lemma TpOutputValid(arrivals: seq<Arrival>, cutoff: int)
    requires forall j :: 0 <= j < |arrivals| && arrivals[j].c.Done? ==> WorkerShaped(arrivals[j].c.y, cutoff)
    ensures var out := Dedup(TpLoop(arrivals, TpState(0, 0, []), AllRowsCount).state.cands, Key80);
      (forall i, j :: 0 <= i < j < |out| ==> Key80(out[i]) != Key80(out[j]))
      && forall k :: 0 <= k < |out| ==> Recent(out[k], cutoff)
  {
    var r := TpLoop(arrivals, TpState(0, 0, []), AllRowsCount);
    TpLoopCands(arrivals, TpState(0, 0, []), AllRowsCount);
    var n := if r.stop == EmptyPages then r.state.next - 1 else r.state.next;
    OfferedRecent(arrivals, n, cutoff);
    var cands := r.state.cands;
    var out := Dedup(cands, Key80);
    forall k | 0 <= k < |out| ensures Recent(out[k], cutoff) {
      DedupSubset(cands, Key80, k);
    }
    DedupDistinct(cands, Key80);
  }

  // ---------------------------------------------------------------------
  // scrape_trustpilot

  /** `all_rows` and `seen_keys` for the rows `cands` offered so far. */
  predicate Holds(allRows: seq<Review>, seen: set<Key>, cands: seq<Review>)
  {
    allRows == Dedup(cands, Key80) && seen == KeysOf(Dedup(cands, Key80), Key80)
  }

  /** One row of a page's result: append it unless its fingerprint was seen. */
  method OfferRow(r: Review, allRows: seq<Review>, seen: set<Key>, ghost cands: seq<Review>)
    returns (allRows': seq<Review>, seen': set<Key>)
    requires Holds(allRows, seen, cands)
    ensures Holds(allRows', seen', cands + [r])
  {
    DedupSnoc(cands, r, Key80);
    var key := Key80(r);
    if key in seen {
      return allRows, seen;
    }
    KeysOfSnoc(Dedup(cands, Key80), r, Key80);
    return allRows + [r], seen + {key};
  }

  /** The deduplication loop over one page's rows. */
  method OfferRows(rows: seq<Review>, allRows: seq<Review>, seen: set<Key>, ghost cands: seq<Review>)
    returns (allRows': seq<Review>, seen': set<Key>)
    requires Holds(allRows, seen, cands)
    ensures Holds(allRows', seen', cands + rows)
  {
    allRows', seen' := allRows, seen;
    var i := 0;
    assert cands + rows[..0] == cands;
    while i < |rows|
      invariant 0 <= i <= |rows|
      invariant Holds(allRows', seen', cands + rows[..i])
    {
      assert cands + rows[..i + 1] == (cands + rows[..i]) + [rows[i]];
      allRows', seen' := OfferRow(rows[i], allRows', seen', cands + rows[..i]);
      i := i + 1;
    }
    assert rows[..|rows|] == rows;
  }

  /** The body of the result loop once the shutdown flag is found clear. */
  method TakeResult(c: Completion, next: nat, empties: nat, allRows: seq<Review>, seen: set<Key>,
                    ghost cands: seq<Review>)
    returns (empties': nat, allRows': seq<Review>, seen': set<Key>, stop: Option<TpStop>, ghost cands': seq<Review>)
    requires Holds(allRows, seen, cands)
    ensures var t := TakeTurn(c, AllRowsCount(cands + RowsOf(c)), TpState(next, empties, cands));
      t.state == TpState(next + 1, empties', cands') && t.stop == stop
    ensures Holds(allRows', seen', cands')
  {
    empties', allRows', seen', cands' := empties, allRows, seen, cands;
    if c.Crashed? {
      return empties', allRows', seen', None, cands';
    }
    var total, pageReviews := c.y.total, c.y.rows;
    if total == 0 {
      empties' := empties' + 1;
      if empties' >= EmptyPagesToStop {
        return empties', allRows', seen', Some(EmptyPages), cands';
      }
    } else {
      empties' := 0;
    }
    allRows', seen' := OfferRows(pageReviews, allRows', seen', cands);
    cands' := cands + pageReviews;
    stop := if |allRows'| > ReviewLimit then Some(ReviewLimitReached) else None;
  }

  /** The result loop of `scrape_trustpilot`, over the results in the order they complete. */
  method ProcessResults(arrivals: seq<Arrival>) returns (allRows: seq<Review>)
    ensures allRows == Dedup(TpLoop(arrivals, TpState(0, 0, []), AllRowsCount).state.cands, Key80)
  {
    ghost var final := TpLoop(arrivals, TpState(0, 0, []), AllRowsCount);
    ghost var cands: seq<Review> := [];
    var seen: set<Key> := {};
    allRows := [];
    var empties := 0;
    var i := 0;
    while i < |arrivals|
      invariant i <= |arrivals|
      invariant TpLoop(arrivals, TpState(i, empties, cands), AllRowsCount) == final
      invariant Holds(allRows, seen, cands)
    {
      if arrivals[i].shutdown {
        break;
      }
      var stop;
      empties, allRows, seen, stop, cands := TakeResult(arrivals[i].c, i, empties, allRows, seen, cands);
      i := i + 1;
      if stop.Some? {
        break;
      }
    }
  }

  /**
   * `scrape_trustpilot` for the clock reading `now`: the probe over
   * `visits`, then, unless it was shut down or found no page with rows, the
   * schedule and the result loop over `arrivals`.
   */
  method ScrapeTrustpilot(base: string, now: int, visits: seq<PageVisit>, arrivals: seq<Arrival>,
                          parsePage: string -> seq<Review>)
    returns (reviews: seq<Review>, probeUrls: seq<string>, jobs: seq<Job>)
    requires ProbePages <= |visits| && WellFed(visits)
    ensures var cutoff := Last12mCutoff(now);
      var p := ProbeLoop(visits, ProbeViews(visits, cutoff, parsePage), 1, 0);
      probeUrls == PageUrls(base, p.probed)
      && (p.Aborted? || p.est == 0 ==> reviews == [] && jobs == [])
      && (p.Estimated? && p.est > 0 ==>
            jobs == Schedule(base, p.est) && reviews == Dedup(TpLoop(arrivals, TpState(0, 0, []), AllRowsCount).state.cands, Key80))
  {
    var cutoff := Last12mCutoff(now);
    var aborted, est;
    aborted, est, probeUrls := ProbeTrustpilot(base, visits, cutoff, parsePage, ProbeViews(visits, cutoff, parsePage));
    if aborted || est == 0 {
      return [], probeUrls, [];
    }
    jobs := SchedulePages(base, est);
    reviews := ProcessResults(arrivals);
  }
}

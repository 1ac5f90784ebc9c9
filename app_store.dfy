/**
 * The feed source: `rss_url`, `parse_rss_reviews`, and the page loop and
 * deduplication of `scrape_app_store`.
 */
module AppStore {

  import opened Records
  import opened Text
  import opened Names
  import opened Numbers
  import opened Fingerprints
  import opened Fetch

  const MaxPagesAppStore: int := 20

  // ---------------------------------------------------------------------
  // The feed, as the JSON decoder hands it over

  /**
   * `e.get(name, {}).get("label")`: the field is absent or has no label
   * (None), has a label, or is present but not an object, so that `.get`
   * raises.
   */
  datatype Field = Missing | Label(text: string) | Broken

  /** One element of the `entry` list; an element that is not an object makes every `.get` on it raise. */
  datatype Entry =
    | Entry(rating: Field, content: Field, updated: Field, releaseDate: Field, author: Field, title: Field)
    | Unreadable

  /** `json_obj.get("feed", {}).get("entry", [])`, a lone entry already wrapped in a list; or a `feed` that is not an object. */
  datatype Feed = Entries(entries: seq<Entry>) | FeedBroken

  /** A decoded JSON document: falsy (`{}`, `[]`, `null`, ...), some other non-object, or an object with its feed. */
  datatype Json = EmptyJson | NonObject | Object(feed: Feed)

  function LabelOf(f: Field): Option<string>
    requires !f.Broken?
  {
    if f.Label? then Some(f.text) else None
  }

  /** The text `str(rating)` of the rating label; a missing label is `None`. */
  function RatingText(f: Field): string
    requires !f.Broken?
  {
    if f.Label? then f.text else "None"
  }

  /** `rss_url`. */
  function RssUrl(country: string, appId: string, page: nat): string
  {
    "https://itunes.apple.com/" + country + "/rss/customerreviews/page=" + ShowNat(page)
    + "/id=" + appId + "/sortby=mostrecent/json"
  }

  /** The feed URLs of pages 1 through `n`, in order. */
  function RssUrls(country: string, appId: string, n: nat): seq<string>
  {
    seq(n, k requires 0 <= k < n => RssUrl(country, appId, k + 1))
  }

  lemma RssUrlsSnoc(country: string, appId: string, n: nat)
    ensures RssUrls(country, appId, n + 1) == RssUrls(country, appId, n) + [RssUrl(country, appId, n + 1)]
  {
  }

  /** Distinct pages have distinct feed URLs. */
  lemma RssUrlInjective(country: string, appId: string, p: nat, q: nat)
    requires RssUrl(country, appId, p) == RssUrl(country, appId, q)
    ensures p == q
  {
    var head := "https://itunes.apple.com/" + country + "/rss/customerreviews/page=";
    var tail := "/id=" + appId + "/sortby=mostrecent/json";
    var u, v := RssUrl(country, appId, p), RssUrl(country, appId, q);
    assert u == head + ShowNat(p) + tail;
    assert v == head + ShowNat(q) + tail;
    assert |ShowNat(p)| == |ShowNat(q)|;
    assert u[|head|..|head| + |ShowNat(p)|] == ShowNat(p);
    assert v[|head|..|head| + |ShowNat(q)|] == ShowNat(q);
    ShowNatInjective(p, q);
  }

  // ---------------------------------------------------------------------
  // parse_rss_reviews

  /** What the loop body does with one entry: append a row, `continue`, or raise (which ends the whole parse with []). */
  datatype Verdict = Keep(row: Timed) | Skip | Raise

  /** Whether a kept row meets what every parsed row promises. */
  predicate ValidRow(t: Timed)
  {
    1 <= t.review.star <= 5 && IsClean(t.review.text) && t.review.platform == AppStore
    && InitialsShape(t.review.reviewer, "")
  }

  /** An optional label as the string the `or` chain yields (None counts as empty). */
  function OrEmpty(o: Option<string>): string
  {
    if o.Some? then o.value else []
  }

  /**
   * `updated_str`: the `updated` label when it is non-empty, otherwise the
   * `im:releaseDate` label (empty when absent); None where a `.get` raises.
   */
  function StampText(e: Entry): Option<string>
    requires e.Entry?
  {
    if e.updated.Broken? then None
    else if e.updated.Label? && e.updated.text != [] then Some(e.updated.text)
    else if e.releaseDate.Broken? then None
    else Some(OrEmpty(LabelOf(e.releaseDate)))
  }

  /** The rest of the entry body once rating and timestamp are known: the author's initials, then the text from the content or else the title. */
  function FinishEntry(e: Entry, star: int, dt: Stamp): (v: Verdict)
    requires e.Entry? && !e.content.Broken? && 1 <= star <= 5
    ensures v.Keep? ==> ValidRow(v.row)
    ensures v.Keep? ==> v.row.at == dt.instant && v.row.review.date == Day(dt) && v.row.review.star == star
    ensures v.Keep? && e.content.Label? && CleanText(Some(e.content.text)).Some? ==>
      CleanText(Some(e.content.text)) == Some(v.row.review.text)
    ensures v.Keep? && (e.content.Missing? || (e.content.Label? && CleanText(Some(e.content.text)).None?)) ==>
      e.title.Label? && CleanText(Some(e.title.text)) == Some(v.row.review.text)
  {
    if e.author.Broken? then Raise
    else
      var fromContent := CleanText(LabelOf(e.content));
      if fromContent.None? && e.title.Broken? then Raise
      else
        var text := if fromContent.Some? then fromContent else CleanText(LabelOf(e.title));
        if text.None? then Skip
        else Keep(Timed(dt.instant, Review(Day(dt), star, ToInitials(LabelOf(e.author)), text.value, AppStore)))
  }

  /**
   * The body of the entry loop of `parse_rss_reviews`, in the order its
   * statements run; `parseTime` is `dateparser.parse`, None where it raises.
   */
  function ReadEntry(e: Entry, parseTime: string -> Option<Stamp>): (v: Verdict)
    ensures v.Keep? ==> ValidRow(v.row)
    ensures v.Keep? ==>
      e.Entry? && !e.content.Broken? && e.rating.Label?
      && ClampStarRating(e.rating.text) == Some(v.row.review.star)
    ensures v.Keep? ==>
      StampText(e).Some? && parseTime(StampText(e).value).Some?
      && v.row.at == parseTime(StampText(e).value).value.instant
      && v.row.review.date == Day(parseTime(StampText(e).value).value)
    ensures v.Keep? && e.content.Label? && CleanText(Some(e.content.text)).Some? ==>
      CleanText(Some(e.content.text)) == Some(v.row.review.text)
    ensures v.Keep? && (e.content.Missing? || (e.content.Label? && CleanText(Some(e.content.text)).None?)) ==>
      e.title.Label? && CleanText(Some(e.title.text)) == Some(v.row.review.text)
  {
    if e.Unreadable? || e.rating.Broken? || e.content.Broken? then Raise
    else if e.rating.Missing? && e.content.Missing? then Skip
    else
      var star := ClampStarRating(RatingText(e.rating));
      if star.None? then Skip
      else
        assert e.rating.Label? by {
          if e.rating.Missing? {
            MissingRatingIsSkipped();
          }
        }
        match StampText(e)
        case None => Raise
        case Some(stamp) =>
          if stamp == [] then Skip
          else match parseTime(stamp)
            case None => Skip
            case Some(dt) => FinishEntry(e, star.value, dt)
  }

  /** The rows of the first entries, or None once one of them raised. */
  function RssRows(es: seq<Entry>, parseTime: string -> Option<Stamp>): Option<seq<Timed>>
  {
    if es == [] then Some([])
    else match RssRows(es[..|es| - 1], parseTime)
      case None => None
      case Some(rows) =>
        match ReadEntry(es[|es| - 1], parseTime)
        case Raise => None
        case Skip => Some(rows)
        case Keep(t) => Some(rows + [t])
  }

  /** `parse_rss_reviews`: the rows of all entries, or [] when anything raised. */
  function ParseRss(data: Json, parseTime: string -> Option<Stamp>): seq<Timed>
  {
    if data.Object? && data.feed.Entries? then
      match RssRows(data.feed.entries, parseTime)
      case Some(rows) => rows
      case None => []
    else []
  }

  /** `parse_rss_reviews`, with its entry loop. */
  method ParseRssReviews(data: Json, parseTime: string -> Option<Stamp>) returns (out: seq<Timed>)
    ensures out == ParseRss(data, parseTime)
  {
    out := [];
    if !(data.Object? && data.feed.Entries?) {
      return [];
    }
    var es := data.feed.entries;
    var i := 0;
    while i < |es|
      invariant 0 <= i <= |es|
      invariant RssRows(es[..i], parseTime) == Some(out)
    {
      assert es[..i + 1][..i] == es[..i];
      var v := ReadEntry(es[i], parseTime);
      match v {
        case Raise =>
          RaiseIsFinal(es, i + 1, parseTime);
          return [];
        case Skip =>
        case Keep(t) =>
          out := out + [t];
      }
      i := i + 1;
    }
    assert es[..|es|] == es;
  }

  /** Once an entry raised, the later entries do not matter. */
  lemma {:induction false} RaiseIsFinal(es: seq<Entry>, k: nat, parseTime: string -> Option<Stamp>)
    requires k <= |es|
    requires RssRows(es[..k], parseTime).None?
    ensures RssRows(es, parseTime).None?
    decreases |es| - k
  {
    if k < |es| {
      assert es[..k + 1][..k] == es[..k];
      RaiseIsFinal(es, k + 1, parseTime);
    } else {
      assert es[..k] == es;
    }
  }

  /** Every row the parse returns has a rating in 1..5, clean non-empty text and well-formed initials. */
  lemma {:induction false} RssRowsValid(es: seq<Entry>, parseTime: string -> Option<Stamp>)
    ensures RssRows(es, parseTime).Some? ==>
      forall k :: 0 <= k < |RssRows(es, parseTime).value| ==> ValidRow(RssRows(es, parseTime).value[k])
  {
    if es != [] {
      RssRowsValid(es[..|es| - 1], parseTime);
    }
  }

  lemma ParseRssValid(data: Json, parseTime: string -> Option<Stamp>)
    ensures forall k :: 0 <= k < |ParseRss(data, parseTime)| ==> ValidRow(ParseRss(data, parseTime)[k])
  {
    if data.Object? && data.feed.Entries? {
      RssRowsValid(data.feed.entries, parseTime);
    }
  }

  // ---------------------------------------------------------------------
  // One page: the in-window rows and the oldest timestamp

  /** The rows inside the window, in order. */
  function InWindow(ts: seq<Timed>, cutoff: int): (r: seq<Timed>)
    ensures |r| <= |ts|
    ensures forall k :: 0 <= k < |r| ==> IsWithinLast12Months(r[k].at, cutoff)
  {
    if ts == [] then []
    else
      var last := if IsWithinLast12Months(ts[|ts| - 1].at, cutoff) then [ts[|ts| - 1]] else [];
      InWindow(ts[..|ts| - 1], cutoff) + last
  }

  /** The earliest instant of a non-empty page. */
  function Oldest(ts: seq<Timed>): (m: int)
    requires ts != []
    ensures forall k :: 0 <= k < |ts| ==> m <= ts[k].at
    ensures exists k :: 0 <= k < |ts| && m == ts[k].at
  {
    if |ts| == 1 then ts[0].at
    else
      var m := Oldest(ts[..|ts| - 1]);
      assert forall k :: 0 <= k < |ts| - 1 ==> ts[..|ts| - 1][k] == ts[k];
      if ts[|ts| - 1].at < m then ts[|ts| - 1].at else m
  }

  /** A page whose oldest row is inside the window is kept whole. */
  lemma {:induction false} RecentPageKeptWhole(ts: seq<Timed>, cutoff: int)
    requires ts != [] && IsWithinLast12Months(Oldest(ts), cutoff)
    ensures InWindow(ts, cutoff) == ts
  {
    if |ts| > 1 {
      var init := ts[..|ts| - 1];
      assert Oldest(init) <= init[0].at;
      assert forall k :: 0 <= k < |init| ==> init[k] == ts[k];
      RecentPageKeptWhole(init, cutoff);
      assert ts == init + [ts[|ts| - 1]];
    }
  }

  /** The per-row loop of one page: append the in-window rows and track the oldest timestamp. */
  method KeepRecent(parsed: seq<Timed>, cutoff: int) returns (kept: seq<Timed>, oldest: int)
    requires parsed != []
    ensures kept == InWindow(parsed, cutoff)
    ensures oldest == Oldest(parsed)
  {
    kept := [];
    var least: Option<int> := None;
    var i := 0;
    while i < |parsed|
      invariant 0 <= i <= |parsed|
      invariant kept == InWindow(parsed[..i], cutoff)
      invariant least.None? <==> i == 0
      invariant i > 0 ==> least == Some(Oldest(parsed[..i]))
    {
      var r := parsed[i];
      assert parsed[..i + 1][..i] == parsed[..i];
      if least.None? || r.at < least.value {
        least := Some(r.at);
      }
      if IsWithinLast12Months(r.at, cutoff) {
        kept := kept + [r];
      }
      i := i + 1;
    }
    assert parsed[..|parsed|] == parsed;
    oldest := least.value;
  }

  // ---------------------------------------------------------------------
  // The page loop of scrape_app_store

  /** What the loop sees for one page: the shutdown flag at its top, and the attempts of its fetch. */
  datatype AppPage = AppPage(shutdown: bool, attempts: seq<Attempt<Option<Json>>>)

  /** Why a fetched page ends the loop: no data, no parsed rows, or an oldest row before the cutoff. */
  datatype PageEnd = NoData | NoRows | OldPage

  /** Why the page loop ended. */
  datatype AppStop = Shutdown | PageLimit | Ended(reason: PageEnd)

  /** The rows gathered, the number of pages requested, and why the loop ended. */
  datatype AppRun = AppRun(rows: seq<Timed>, fetched: nat, stop: AppStop)

  /** What one fetched page adds, and the reason to stop after it, if any. */
  datatype PageStep = PageStep(kept: seq<Timed>, stop: Option<PageEnd>)

  predicate WellFed(pages: seq<AppPage>)
  {
    forall j :: 0 <= j < |pages| ==> MaxRetries <= |pages[j].attempts|
  }

  function AppPageStep(pg: AppPage, cutoff: int, parseTime: string -> Option<Stamp>): (st: PageStep)
    requires MaxRetries <= |pg.attempts|
    ensures KeepsInWindow(st, cutoff)
  {
    var data := JsonFetch(pg.attempts, 0).result;
    if data.None? || data.value.EmptyJson? then PageStep([], Some(NoData))
    else
      var parsed := ParseRss(data.value, parseTime);
      if parsed == [] then PageStep([], Some(NoRows))
      else PageStep(InWindow(parsed, cutoff), if IsWithinLast12Months(Oldest(parsed), cutoff) then None else Some(OldPage))
  }

  /** The step of every page, as the loop would compute it when it reaches that page. */
  function AppSteps(pages: seq<AppPage>, cutoff: int, parseTime: string -> Option<Stamp>): (steps: seq<PageStep>)
    requires WellFed(pages)
    ensures |steps| == |pages|
    ensures forall j :: 0 <= j < |pages| ==> steps[j] == AppPageStep(pages[j], cutoff, parseTime)
  {
    seq(|pages|, j requires 0 <= j < |pages| && WellFed(pages) => AppPageStep(pages[j], cutoff, parseTime))
  }

  /**
   * The page loop from page number `page`, with the rows gathered so far;
   * `steps[j]` is what page `j + 1` gives once fetched.
   */
  function AppLoop(pages: seq<AppPage>, steps: seq<PageStep>, page: nat, maxPages: int, rows: seq<Timed>): AppRun
    requires 1 <= page
    requires maxPages <= |pages| == |steps|
    decreases maxPages - page + 1
  {
    if page > maxPages then AppRun(rows, page - 1, PageLimit)
    else if pages[page - 1].shutdown then AppRun(rows, page - 1, Shutdown)
    else
      var st := steps[page - 1];
      if st.stop.Some? then AppRun(rows + st.kept, page, Ended(st.stop.value))
      else AppLoop(pages, steps, page + 1, maxPages, rows + st.kept)
  }

  /** The in-window rows of pages `a + 1` through `b`, in page order. */
  function Gathered(steps: seq<PageStep>, a: nat, b: nat): seq<Timed>
    requires a <= b <= |steps|
    decreases b - a
  {
    if a == b then [] else steps[a].kept + Gathered(steps, a + 1, b)
  }

  /**
   * The page loop, from page `page`: pages are requested in order, never
   * beyond `maxPages`, none once the shutdown flag is seen; every page but
   * the last let the loop continue; the loop stops for the reason the last
   * page gives; and the rows are the in-window rows of exactly the pages
   * requested, in page order.
   */
  lemma {:induction false} AppLoopFacts(pages: seq<AppPage>, steps: seq<PageStep>, page: nat, maxPages: int, rows: seq<Timed>)
    requires 1 <= page && (page <= maxPages + 1 || page == 1)
    requires maxPages <= |pages| == |steps|
    ensures var r := AppLoop(pages, steps, page, maxPages, rows);
      page - 1 <= r.fetched && (r.fetched <= maxPages || r.fetched == 0)
      && (forall j :: page - 1 <= j < r.fetched ==> !pages[j].shutdown)
      && (forall j :: page - 1 <= j < r.fetched - 1 ==> steps[j].stop.None?)
      && (r.stop == Shutdown ==>
            r.fetched < maxPages && pages[r.fetched].shutdown
            && (r.fetched == page - 1 || steps[r.fetched - 1].stop.None?))
      && (r.stop == PageLimit ==>
            r.fetched == (if maxPages < 0 then 0 else maxPages)
            && (r.fetched == page - 1 || steps[r.fetched - 1].stop.None?))
      && (r.stop.Ended? ==> r.fetched >= page && steps[r.fetched - 1].stop == Some(r.stop.reason))
      && r.rows == rows + Gathered(steps, page - 1, r.fetched)
    decreases maxPages - page + 1
  {
    if page <= maxPages && !pages[page - 1].shutdown {
      var st := steps[page - 1];
      if st.stop.None? {
        AppLoopFacts(pages, steps, page + 1, maxPages, rows + st.kept);
        var r := AppLoop(pages, steps, page + 1, maxPages, rows + st.kept);
        assert Gathered(steps, page - 1, r.fetched) == st.kept + Gathered(steps, page, r.fetched);
      } else {
        assert Gathered(steps, page - 1, page) == st.kept + Gathered(steps, page, page);
      }
    } else {
      assert Gathered(steps, page - 1, page - 1) == [];
    }
  }

  /** Every row a step keeps is inside the window. */
  predicate KeepsInWindow(st: PageStep, cutoff: int)
  {
    forall k :: 0 <= k < |st.kept| ==> IsWithinLast12Months(st.kept[k].at, cutoff)
  }

  /** Every gathered row is inside the window when every step keeps only such rows. */
  lemma {:induction false} GatheredInWindow(steps: seq<PageStep>, a: nat, b: nat, cutoff: int)
    requires a <= b <= |steps|
    requires forall j :: a <= j < b ==> KeepsInWindow(steps[j], cutoff)
    ensures forall k :: 0 <= k < |Gathered(steps, a, b)| ==> IsWithinLast12Months(Gathered(steps, a, b)[k].at, cutoff)
    decreases b - a
  {
    if a < b {
      GatheredInWindow(steps, a + 1, b, cutoff);
      var g: seq<Timed>, h: seq<Timed> := steps[a].kept, Gathered(steps, a + 1, b);
      var gh := g + h;
      assert Gathered(steps, a, b) == gh;
      assert KeepsInWindow(steps[a], cutoff);
      forall k | 0 <= k < |gh| ensures IsWithinLast12Months(gh[k].at, cutoff) {
        if k < |g| {
          assert gh[k] == g[k];
        } else {
          assert gh[k] == h[k - |g|];
        }
      }
    }
  }

  /** Every row `scrape_app_store` keeps, before deduplication, has its timestamp at or after the cutoff. */
  lemma AppStoreRowsInWindow(pages: seq<AppPage>, maxPages: int, cutoff: int, parseTime: string -> Option<Stamp>)
    requires maxPages <= |pages| && WellFed(pages)
    ensures var rows := AppLoop(pages, AppSteps(pages, cutoff, parseTime), 1, maxPages, []).rows;
      forall k :: 0 <= k < |rows| ==> IsWithinLast12Months(rows[k].at, cutoff)
  {
    var steps := AppSteps(pages, cutoff, parseTime);
    AppLoopFacts(pages, steps, 1, maxPages, []);
    var r := AppLoop(pages, steps, 1, maxPages, []);
    forall j | 0 <= j < r.fetched ensures KeepsInWindow(steps[j], cutoff) {
      assert steps[j] == AppPageStep(pages[j], cutoff, parseTime);
    }
    GatheredInWindow(steps, 0, r.fetched, cutoff);
    assert r.rows == Gathered(steps, 0, r.fetched);
  }

  /**
   * The first page whose oldest row is older than the cutoff ends the loop
   * right after it: its in-window rows are kept and no further page is
   * requested.
   */
  lemma StopsAfterFirstOldPage(pages: seq<AppPage>, steps: seq<PageStep>, k: nat, maxPages: int)
    requires maxPages <= |pages| == |steps|
    requires k < maxPages
    requires forall j :: 0 <= j <= k ==> !pages[j].shutdown
    requires forall j :: 0 <= j < k ==> steps[j].stop.None?
    requires steps[k].stop == Some(OldPage)
    ensures AppLoop(pages, steps, 1, maxPages, []).fetched == k + 1
    ensures AppLoop(pages, steps, 1, maxPages, []).stop == Ended(OldPage)
    ensures AppLoop(pages, steps, 1, maxPages, []).rows == Gathered(steps, 0, k + 1)
  {
    AppLoopFacts(pages, steps, 1, maxPages, []);
  }

  /** What a real page step means: a stop for no data or no rows adds nothing, an old page is one whose oldest row is outside. */
  lemma PageStepMeaning(pg: AppPage, cutoff: int, parseTime: string -> Option<Stamp>)
    requires MaxRetries <= |pg.attempts|
    ensures var st := AppPageStep(pg, cutoff, parseTime);
      var data := JsonFetch(pg.attempts, 0).result;
      (st.stop == Some(NoData) <==> data.None? || data.value.EmptyJson?)
      && (st.stop == Some(NoData) || st.stop == Some(NoRows) ==> st.kept == [])
      && (st.stop == Some(OldPage) || st.stop.None? ==>
            data.Some? && ParseRss(data.value, parseTime) != []
            && st.kept == InWindow(ParseRss(data.value, parseTime), cutoff)
            && (st.stop.None? <==> IsWithinLast12Months(Oldest(ParseRss(data.value, parseTime)), cutoff)))
      && (st.stop.None? ==> st.kept == ParseRss(data.value, parseTime))
  {
    var data := JsonFetch(pg.attempts, 0).result;
    if data.Some? && !data.value.EmptyJson? {
      var parsed := ParseRss(data.value, parseTime);
      if parsed != [] && IsWithinLast12Months(Oldest(parsed), cutoff) {
        RecentPageKeptWhole(parsed, cutoff);
      }
    }
  }

  // ---------------------------------------------------------------------
  // scrape_app_store

  /** The final pass of `scrape_app_store`: the first row of each fingerprint, as output rows. */
  method DedupAppStore(rows: seq<Timed>) returns (clean: seq<Review>)
    ensures clean == Reviews(Dedup(rows, Key100))
  {
    var seen: set<Key> := {};
    clean := [];
    var i := 0;
    while i < |rows|
      invariant 0 <= i <= |rows|
      invariant Tracks(clean, seen, rows[..i])
    {
      assert rows[..i + 1] == rows[..i] + [rows[i]];
      var grew;
      clean, seen, grew := DedupStep(rows[i], clean, seen, rows[..i]);
      i := i + 1;
    }
    assert rows[..|rows|] == rows;
  }

  /**
   * The body of the page loop once the page is requested: fetch, parse,
   * keep the in-window rows, and say whether the loop breaks after it.
   */
  method FetchPage(pg: AppPage, cutoff: int, parseTime: string -> Option<Stamp>)
    returns (kept: seq<Timed>, stop: Option<PageEnd>)
    requires MaxRetries <= |pg.attempts|
    ensures PageStep(kept, stop) == AppPageStep(pg, cutoff, parseTime)
  {
    var data, _, _ := HttpGetJson(pg.attempts);
    if data.None? || data.value.EmptyJson? {
      return [], Some(NoData);
    }
    var parsed := ParseRssReviews(data.value, parseTime);
    if parsed == [] {
      return [], Some(NoRows);
    }
    var oldest;
    kept, oldest := KeepRecent(parsed, cutoff);
    stop := if IsWithinLast12Months(oldest, cutoff) then None else Some(OldPage);
  }

  /**
   * The page loop of `scrape_app_store`: the rows gathered and the URLs
   * requested (pages 1, 2, ... in order); `steps` are the page steps the
   * pages give.
   */
  method AppStorePages(appId: string, country: string, maxPages: int, cutoff: int,
                       pages: seq<AppPage>, parseTime: string -> Option<Stamp>, ghost steps: seq<PageStep>)
    returns (rows: seq<Timed>, urls: seq<string>)
    requires maxPages <= |pages| && WellFed(pages)
    requires steps == AppSteps(pages, cutoff, parseTime)
    ensures var run := AppLoop(pages, steps, 1, maxPages, []);
      rows == run.rows && urls == RssUrls(country, appId, run.fetched)
  {
    ghost var final := AppLoop(pages, steps, 1, maxPages, []);
    rows := [];
    urls := [];
    var page := 1;
    while page <= maxPages
      invariant 1 <= page && (page <= maxPages + 1 || page == 1)
      invariant urls == RssUrls(country, appId, page - 1)
      invariant AppLoop(pages, steps, page, maxPages, rows) == final
    {
      if pages[page - 1].shutdown {
        break;
      }
      RssUrlsSnoc(country, appId, page - 1);
      urls := urls + [RssUrl(country, appId, page)];
      var kept, stop := FetchPage(pages[page - 1], cutoff, parseTime);
      assert steps[page - 1] == PageStep(kept, stop);
      rows := rows + kept;
      if stop.Some? {
        break;
      }
      page := page + 1;
    }
  }

  /** `scrape_app_store`: the deduplicated rows of the page loop, and the URLs it requested. */
  method ScrapeAppStore(appId: string, country: string, maxPages: int, now: int,
                        pages: seq<AppPage>, parseTime: string -> Option<Stamp>)
    returns (reviews: seq<Review>, urls: seq<string>)
    requires maxPages <= |pages| && WellFed(pages)
    ensures var run := AppLoop(pages, AppSteps(pages, Last12mCutoff(now), parseTime), 1, maxPages, []);
      reviews == Reviews(Dedup(run.rows, Key100))
      && |urls| == run.fetched
      && forall k :: 0 <= k < |urls| ==> urls[k] == RssUrl(country, appId, k + 1)
  {
    var cutoff := Last12mCutoff(now);
    var rows;
    rows, urls := AppStorePages(appId, country, maxPages, cutoff, pages, parseTime, AppSteps(pages, cutoff, parseTime));
    reviews := DedupAppStore(rows);
  }
}

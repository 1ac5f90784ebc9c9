/** The common review record, timestamps and the twelve-month harvest window. */
module Records {

  datatype Option<T> = None | Some(value: T)

  /** Seconds in one day, and the length of the harvest window in days. */
  const SecondsPerDay: int := 86400
  const WindowDays: int := 365
  const WindowSeconds: int := WindowDays * SecondsPerDay

  /**
   * A parsed timestamp: `instant` is seconds since the epoch in UTC (what the
   * time comparisons use) and `offset` is the UTC offset, in seconds, that the
   * parsed value carries (0 for naive values, which the scraper labels UTC).
   */
  datatype Stamp = Stamp(instant: int, offset: int)

  /** `dt.date()`: the calendar day, as a day number, of the timestamp's own wall clock. */
  function Day(dt: Stamp): int
  {
    (dt.instant + dt.offset) / SecondsPerDay
  }

  /** Start of a calendar day, as the instant a date-only string parses to (naive, taken as UTC). */
  function DayStart(day: int): int
  {
    day * SecondsPerDay
  }

  datatype Platform = AppStore | GooglePlay | Trustpilot

  /** The `platform` column written for each source. */
  function PlatformName(p: Platform): string
  {
    match p
    case AppStore => "App Store"
    case GooglePlay => "Google Play Store"
    case Trustpilot => "Trustpilot"
  }

  /** One normalised review; `date` is the day number behind the ISO `review_date` string. */
  datatype Review = Review(date: int, star: int, reviewer: string, text: string, platform: Platform)

  /** A review together with the instant it was parsed from, as the feed and store scrapers hold it. */
  datatype Timed = Timed(at: int, review: Review)

  /** The deduplication fingerprint: (review_date, star_rating, text prefix). */
  datatype Key = Key(date: int, star: int, prefix: string)

  /** `last_12m_cutoff`: the instant 365 days before `now`. */
  function Last12mCutoff(now: int): (cutoff: int)
    ensures forall dt :: IsWithinLast12Months(dt, cutoff) <==> now - dt <= WindowSeconds
    ensures cutoff < now
  {
    now - WindowSeconds
  }

  /** `is_within_last_12_months`: inclusive comparison against the cutoff. */
  predicate IsWithinLast12Months(dt: int, cutoff: int)
  {
    dt >= cutoff
  }

  /** A later timestamp is inside the window whenever an earlier one is. */
  lemma WindowIsUpwardClosed(dt1: int, dt2: int, cutoff: int)
    requires dt1 <= dt2
    ensures IsWithinLast12Months(dt1, cutoff) ==> IsWithinLast12Months(dt2, cutoff)
  {
  }

  /** The day number of a timestamp brackets its instant (shifted by its offset). */
  lemma DayBrackets(dt: Stamp)
    ensures DayStart(Day(dt)) <= dt.instant + dt.offset < DayStart(Day(dt)) + SecondsPerDay
  {
  }
}

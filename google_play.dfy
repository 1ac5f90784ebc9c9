/**
 * The store source: the row filter and the continuation-token loop of
 * `scrape_google_play`, with its consecutive-error counter, inline retry,
 * few-new-reviews heuristic and token exhaustion.
 */
module GooglePlay {

  import opened Records
  import opened Text
  import opened Names
  import opened Fingerprints

  const MaxPagesGooglePlay: nat := 50
  const MaxConsecutiveErrors: nat := 3
  /** The loop stops when a page past `GracePages` adds fewer than `FewReviews` new rows. */
  const FewReviews: int := 10
  const GracePages: nat := 10
  /** Past this page a page adding few rows is only reported. */
  const NoticePages: nat := 5

  /** One row of a batch as the store library returns it; any field may be missing. */
  datatype PlayRow = PlayRow(at: Option<Stamp>, score: Option<int>, userName: Option<string>, content: Option<string>)

  /** One call of the store library: a batch and the next continuation token, or a raised exception. */
  datatype PlayCall = Batch(rows: seq<PlayRow>, token: Option<string>) | Failed

  /** One loop turn: the shutdown flag at its top, its call, and the inline retry used when the call fails. */
  datatype PlayStep = PlayStep(shutdown: bool, call: PlayCall, retry: PlayCall)

  /**
   * The loop variables: pages begun, the continuation token, the error
   * counter, and every accepted row so far in order (the output is their
   * deduplication).
   */
  datatype PlayState = PlayState(page: nat, token: Option<string>, errors: nat, cands: seq<Timed>)

  datatype PlayStop = Shutdown | TooManyErrors | EmptyBatch | FewNewReviews | NoToken | PageLimit

  /** The final state, why the loop ended, and the rows the last page added. */
  datatype PlayRun = PlayRun(state: PlayState, stop: PlayStop, added: int)

  /** What every row the loop appends satisfies. */
  predicate ValidPlayRow(t: Timed, cutoff: int)
  {
    1 <= t.review.star <= 5 && IsWithinLast12Months(t.at, cutoff)
    && t.review.text != [] && Strip(t.review.text) == t.review.text
    && t.review.platform == GooglePlay && InitialsShape(t.review.reviewer, " ")
  }

  predicate AllValid(ts: seq<Timed>, cutoff: int)
  {
    forall k :: 0 <= k < |ts| ==> ValidPlayRow(ts[k], cutoff)
  }

  /** `int(r.get("score") or 0)`. */
  function ScoreOf(r: PlayRow): int
  {
    if r.score.None? then 0 else r.score.value
  }

  /** `r.get("userName") or "Anonymous"`. */
  function UserOf(r: PlayRow): string
  {
    if r.userName.None? || r.userName.value == [] then "Anonymous" else r.userName.value
  }

  /** `(r.get("content") or "").strip()`. */
  function TextOf(r: PlayRow): string
  {
    Strip(if r.content.None? then [] else r.content.value)
  }

  /**
   * The filters of the batch loop: a timestamp is required and must not be
   * before the cutoff, the score must lie in 1..5, and the stripped text
   * must be non-empty.
   */
  function PlayAccept(r: PlayRow, cutoff: int): Option<Timed>
  {
    if r.at.None? then None
    else
      var dt := r.at.value;
      if dt.instant < cutoff then None
      else
        var score := ScoreOf(r);
        if score < 1 || score > 5 then None
        else
          var anon := AnonymizeNameGoogle(UserOf(r));
          var text := TextOf(r);
          if text == [] then None
          else Some(Timed(dt.instant, Review(Day(dt), score, anon, text, GooglePlay)))
  }

  /**
   * A row passes exactly when it has a timestamp not before the cutoff, a
   * score in 1..5 and non-empty stripped text; the row kept is then valid,
   * with the row's own date, score, stripped text and anonymized user.
   */
  lemma {:induction false} PlayAcceptMeaning(r: PlayRow, cutoff: int)
    ensures var t := PlayAccept(r, cutoff);
      (t.Some? <==> r.at.Some? && r.at.value.instant >= cutoff && 1 <= ScoreOf(r) <= 5 && TextOf(r) != [])
      && (t.Some? ==>
            ValidPlayRow(t.value, cutoff)
            && t.value.at == r.at.value.instant && t.value.review.date == Day(r.at.value)
            && t.value.review.star == ScoreOf(r) && t.value.review.text == TextOf(r)
            && t.value.review.reviewer == AnonymizeNameGoogle(UserOf(r)))
  {
    if r.at.Some? && r.at.value.instant >= cutoff && 1 <= ScoreOf(r) <= 5 && TextOf(r) != [] {
      var text := TextOf(r);
      var rv := Review(Day(r.at.value), ScoreOf(r), AnonymizeNameGoogle(UserOf(r)), text, GooglePlay);
      assert PlayAccept(r, cutoff) == Some(Timed(r.at.value.instant, rv));
      StripFixesStripped(text);
      assert InitialsShape(rv.reviewer, " ");
    }
  }

  /** The row, when it passes the filters. */
  function AcceptOne(r: PlayRow, cutoff: int): (ts: seq<Timed>)
    ensures |ts| <= 1
    ensures ts != [] <==> PlayAccept(r, cutoff).Some?
  {
    var t := PlayAccept(r, cutoff);
    if t.Some? then [t.value] else []
  }

  /** The rows of a batch that pass the filters, in order. */
  function Accepted(batch: seq<PlayRow>, cutoff: int): (ts: seq<Timed>)
    ensures |ts| <= |batch|
  {
    if batch == [] then []
    else Accepted(batch[..|batch| - 1], cutoff) + AcceptOne(batch[|batch| - 1], cutoff)
  }

  /** Every row a batch yields is valid. */
  lemma {:induction false} AcceptedValid(batch: seq<PlayRow>, cutoff: int)
    ensures AllValid(Accepted(batch, cutoff), cutoff)
  {
    if batch != [] {
      var last := batch[|batch| - 1];
      AcceptedValid(batch[..|batch| - 1], cutoff);
      PlayAcceptMeaning(last, cutoff);
      AllValidAppend(Accepted(batch[..|batch| - 1], cutoff), AcceptOne(last, cutoff), cutoff);
    }
  }

  lemma {:induction false} AcceptedSnoc(cands: seq<Timed>, batch: seq<PlayRow>, i: int, cutoff: int)
    requires 0 <= i < |batch|
    ensures cands + Accepted(batch[..i + 1], cutoff) == (cands + Accepted(batch[..i], cutoff)) + AcceptOne(batch[i], cutoff)
  {
    assert batch[..i + 1][..i] == batch[..i];
  }

  /**
   * Reference definition of the error counter after `n` turns: the number
   * of turns in a row, ending with turn `n`, whose call and inline retry
   * both failed.
   */
  function TrailingFailures(ss: seq<PlayStep>, n: nat): nat
    requires n <= |ss|
  {
    if n == 0 then 0
    else if ss[n - 1].call.Failed? && ss[n - 1].retry.Failed? then TrailingFailures(ss, n - 1) + 1
    else 0
  }

  /** The batch a turn works on when its call or its retry succeeded. */
  function Obtained(step: PlayStep): PlayCall
  {
    if step.call.Batch? then step.call else step.retry
  }

  /** The rows each turn would accept, were it to reach its batch: `accs[j]` for turn `j`. */
  function PlayAccepted(steps: seq<PlayStep>, cutoff: int): (accs: seq<seq<Timed>>)
    ensures |accs| == |steps|
    ensures forall j :: 0 <= j < |steps| ==>
      accs[j] == (if Obtained(steps[j]).Batch? then Accepted(Obtained(steps[j]).rows, cutoff) else [])
  {
    seq(|steps|, j requires 0 <= j < |steps| =>
      if Obtained(steps[j]).Batch? then Accepted(Obtained(steps[j]).rows, cutoff) else [])
  }

  /** What one turn leaves: the new loop variables, whether the loop breaks, and the rows the batch added. */
  datatype Turn = Turn(state: PlayState, stop: Option<PlayStop>, added: int)

  /** How many rows appending `acc` adds to the deduplicated output. */
  function Added(cands: seq<Timed>, acc: seq<Timed>): int
  {
    |Dedup(cands + acc, Key100)| - |Dedup(cands, Key100)|
  }

  /**
   * One turn of the loop once the shutdown flag is found clear, with `acc`
   * the rows its batch yields through the filters and `added` how many of
   * them are new.
   */
  function PlayTurn(step: PlayStep, acc: seq<Timed>, added: int, st: PlayState): (t: Turn)
    ensures t.state.page == st.page + 1
  {
    var page := st.page + 1;
    if step.call.Failed? && st.errors + 1 >= MaxConsecutiveErrors then
      Turn(PlayState(page, st.token, st.errors + 1, st.cands), Some(TooManyErrors), 0)
    else if step.call.Failed? && step.retry.Failed? then
      Turn(PlayState(page, st.token, st.errors + 1, st.cands), None, 0)
    else
      var got := Obtained(step);
      if got.rows == [] then Turn(PlayState(page, got.token, 0, st.cands), Some(EmptyBatch), 0)
      else
        Turn(PlayState(page, got.token, 0, st.cands + acc), BatchStop(added, page, got.token), added)
  }

  /** The break tests after a non-empty batch on page `page` that added `added` new rows. */
  function BatchStop(added: int, page: nat, token: Option<string>): Option<PlayStop>
  {
    if added < FewReviews && page > GracePages then Some(FewNewReviews)
    else if token.None? then Some(NoToken)
    else None
  }

  /**
   * The loop of `scrape_google_play` from state `st`, with `accs` the rows
   * each turn's batch yields through the filters.
   */
  function PlayLoop(steps: seq<PlayStep>, accs: seq<seq<Timed>>, st: PlayState): (r: PlayRun)
    requires st.page <= MaxPagesGooglePlay <= |steps| == |accs|
    ensures st.page <= r.state.page <= MaxPagesGooglePlay
    decreases MaxPagesGooglePlay - st.page
  {
    if st.page == MaxPagesGooglePlay then PlayRun(st, PageLimit, 0)
    else if steps[st.page].shutdown then PlayRun(st, Shutdown, 0)
    else
      var t := PlayTurn(steps[st.page], accs[st.page], Added(st.cands, accs[st.page]), st);
      if t.stop.Some? then PlayRun(t.state, t.stop.value, t.added)
      else PlayLoop(steps, accs, t.state)
  }

  /** The run of `scrape_google_play` for the clock reading `now`. */
  function PlayRunFrom(steps: seq<PlayStep>, now: int): PlayRun
    requires MaxPagesGooglePlay <= |steps|
  {
    PlayLoop(steps, PlayAccepted(steps, Last12mCutoff(now)), PlayState(0, None, 0, []))
  }

  lemma {:induction false} AllValidAppend(a: seq<Timed>, b: seq<Timed>, cutoff: int)
    requires AllValid(a, cutoff) && AllValid(b, cutoff)
    ensures AllValid(a + b, cutoff)
  {
    forall k | 0 <= k < |a + b| ensures ValidPlayRow((a + b)[k], cutoff) {
      if k < |a| {
        assert (a + b)[k] == a[k];
      } else {
        assert (a + b)[k] == b[k - |a|];
      }
    }
  }

  /**
   * One turn: the loop breaks on errors exactly when the call fails with
   * `MaxConsecutiveErrors - 1` double failures just before it; otherwise
   * the counter stays the number of double failures in a row; and every
   * other break happens for the reason it names.
   */
  lemma {:induction false} PlayTurnFacts(steps: seq<PlayStep>, acc: seq<Timed>, added: int, st: PlayState)
    requires st.page < |steps|
    requires st.errors == TrailingFailures(steps, st.page) < MaxConsecutiveErrors
    ensures var t := PlayTurn(steps[st.page], acc, added, st);
      var p := t.state.page;
      (t.stop == Some(TooManyErrors) <==>
         steps[p - 1].call.Failed? && TrailingFailures(steps, p - 1) == MaxConsecutiveErrors - 1)
      && (t.stop == Some(TooManyErrors) ==> t.state.errors == MaxConsecutiveErrors)
      && (t.stop != Some(TooManyErrors) ==> t.state.errors == TrailingFailures(steps, p) < MaxConsecutiveErrors)
      && (t.stop == Some(EmptyBatch) ==> Obtained(steps[p - 1]).Batch? && Obtained(steps[p - 1]).rows == [])
      && (t.stop == Some(FewNewReviews) ==> t.added < FewReviews && p > GracePages)
      && (t.stop == Some(NoToken) ==> t.state.token.None?)
  {
  }

  /** One turn only appends rows, and only valid ones. */
  lemma {:induction false} PlayTurnRows(step: PlayStep, acc: seq<Timed>, added: int, st: PlayState, cutoff: int)
    requires AllValid(acc, cutoff) && AllValid(st.cands, cutoff)
    ensures var t := PlayTurn(step, acc, added, st);
      st.cands <= t.state.cands && AllValid(t.state.cands, cutoff)
  {
    AllValidAppend(st.cands, acc, cutoff);
  }

  /**
   * Why the loop ends, from a state reached by it: the page count never
   * exceeds `MaxPagesGooglePlay`; no page is begun once the shutdown flag is
   * seen; and each stop other than the error stop happens for the reason it
   * names.
   */
  lemma {:induction false} PlayLoopStops(steps: seq<PlayStep>, accs: seq<seq<Timed>>, st: PlayState)
    requires st.page <= MaxPagesGooglePlay <= |steps| == |accs|
    requires st.errors == TrailingFailures(steps, st.page) < MaxConsecutiveErrors
    ensures var r := PlayLoop(steps, accs, st);
      var p := r.state.page;
      st.page <= p <= MaxPagesGooglePlay
      && (forall j :: st.page <= j < p ==> !steps[j].shutdown)
      && (r.stop == PageLimit ==> p == MaxPagesGooglePlay)
      && (r.stop == Shutdown ==> p < MaxPagesGooglePlay && steps[p].shutdown)
      && (r.stop == EmptyBatch ==> p >= 1 && Obtained(steps[p - 1]).Batch? && Obtained(steps[p - 1]).rows == [])
      && (r.stop == FewNewReviews ==> r.added < FewReviews && p > GracePages)
      && (r.stop == NoToken ==> r.state.token.None?)
    decreases MaxPagesGooglePlay - st.page
  {
    if st.page < MaxPagesGooglePlay && !steps[st.page].shutdown {
      var added := Added(st.cands, accs[st.page]);
      PlayTurnFacts(steps, accs[st.page], added, st);
      var t := PlayTurn(steps[st.page], accs[st.page], added, st);
      if t.stop.None? {
        assert PlayLoop(steps, accs, st) == PlayLoop(steps, accs, t.state);
        PlayLoopStops(steps, accs, t.state);
      } else {
        assert PlayLoop(steps, accs, st) == PlayRun(t.state, t.stop.value, t.added);
        assert steps[t.state.page - 1] == steps[st.page];
      }
    }
  }

  /**
   * The error counter, from a state reached by the loop: it is the number
   * of pages in a row whose call and retry both failed, and the loop stops
   * on errors exactly at the call that would make it `MaxConsecutiveErrors`.
   */
  lemma {:induction false} PlayLoopErrors(steps: seq<PlayStep>, accs: seq<seq<Timed>>, st: PlayState)
    requires st.page <= MaxPagesGooglePlay <= |steps| == |accs|
    requires st.errors == TrailingFailures(steps, st.page) < MaxConsecutiveErrors
    ensures var r := PlayLoop(steps, accs, st);
      var p := r.state.page;
      (r.stop == TooManyErrors ==>
         st.page < p && steps[p - 1].call.Failed? && TrailingFailures(steps, p - 1) == MaxConsecutiveErrors - 1
         && r.state.errors == MaxConsecutiveErrors)
      && (r.stop != TooManyErrors ==> r.state.errors == TrailingFailures(steps, p) < MaxConsecutiveErrors)
    decreases MaxPagesGooglePlay - st.page
  {
    if st.page < MaxPagesGooglePlay && !steps[st.page].shutdown {
      var added := Added(st.cands, accs[st.page]);
      PlayTurnFacts(steps, accs[st.page], added, st);
      var t := PlayTurn(steps[st.page], accs[st.page], added, st);
      if t.stop.None? {
        assert PlayLoop(steps, accs, st) == PlayLoop(steps, accs, t.state);
        PlayLoopErrors(steps, accs, t.state);
      } else {
        assert PlayLoop(steps, accs, st) == PlayRun(t.state, t.stop.value, t.added);
      }
    }
  }

  /**
   * Reference definition of the rows gathered by the first `j` turns, were
   * none of them to break: each turn whose call or retry returned a batch
   * appends what that batch yields.
   */
  function CandsAfter(steps: seq<PlayStep>, accs: seq<seq<Timed>>, j: nat): seq<Timed>
    requires j <= |steps| == |accs|
  {
    if j == 0 then []
    else CandsAfter(steps, accs, j - 1) + (if Obtained(steps[j - 1]).Batch? then accs[j - 1] else [])
  }

  /**
   * The break conditions of turn `j` (from 1), stated on the turns before
   * it: its call fails with two double failures just before it, or the
   * batch it obtained is empty, has no next token, or, past page
   * `GracePages`, adds fewer than `FewReviews` new rows.
   */
  predicate StopsAt(steps: seq<PlayStep>, accs: seq<seq<Timed>>, j: nat)
    requires 1 <= j <= |steps| == |accs|
  {
    var got := Obtained(steps[j - 1]);
    (steps[j - 1].call.Failed? && TrailingFailures(steps, j - 1) + 1 >= MaxConsecutiveErrors)
    || (got.Batch? && (got.rows == [] || got.token.None?
                       || (j > GracePages && Added(CandsAfter(steps, accs, j - 1), accs[j - 1]) < FewReviews)))
  }

  /**
   * One turn breaks exactly when its break conditions hold, appends the
   * rows of the reference definition, and keeps the error counter.
   */
  lemma {:induction false} PlayTurnStopsAt(steps: seq<PlayStep>, accs: seq<seq<Timed>>, st: PlayState)
    requires st.page < |steps| == |accs|
    requires st.errors == TrailingFailures(steps, st.page) < MaxConsecutiveErrors
    requires st.cands == CandsAfter(steps, accs, st.page)
    ensures var t := PlayTurn(steps[st.page], accs[st.page], Added(st.cands, accs[st.page]), st);
      (t.stop.Some? <==> StopsAt(steps, accs, st.page + 1))
      && (t.stop.None? ==> t.state.errors == TrailingFailures(steps, st.page + 1) < MaxConsecutiveErrors)
      && (t.stop == Some(TooManyErrors) || t.stop == Some(EmptyBatch) ==> t.state.cands == st.cands)
      && (t.stop != Some(TooManyErrors) && t.stop != Some(EmptyBatch) ==> t.state.cands == CandsAfter(steps, accs, st.page + 1))
  {
    assert CandsAfter(steps, accs, st.page + 1)
      == st.cands + (if Obtained(steps[st.page]).Batch? then accs[st.page] else []);
  }

  /**
   * The loop ends at the first turn whose break conditions hold: none of
   * the turns it took before the last met them, and the last did unless
   * the loop ended on shutdown or on the page limit.
   */
  lemma {:induction false} PlayLoopFirstStop(steps: seq<PlayStep>, accs: seq<seq<Timed>>, st: PlayState)
    requires st.page <= MaxPagesGooglePlay <= |steps| == |accs|
    requires st.errors == TrailingFailures(steps, st.page) < MaxConsecutiveErrors
    requires st.cands == CandsAfter(steps, accs, st.page)
    ensures var r := PlayLoop(steps, accs, st);
      var p := r.state.page;
      (forall j :: st.page < j < p ==> !StopsAt(steps, accs, j))
      && (r.stop != Shutdown && r.stop != PageLimit ==> st.page < p && StopsAt(steps, accs, p))
    decreases MaxPagesGooglePlay - st.page
  {
    if st.page < MaxPagesGooglePlay && !steps[st.page].shutdown {
      var added := Added(st.cands, accs[st.page]);
      PlayTurnStopsAt(steps, accs, st);
      var t := PlayTurn(steps[st.page], accs[st.page], added, st);
      if t.stop.None? {
        assert PlayLoop(steps, accs, st) == PlayLoop(steps, accs, t.state);
        PlayLoopFirstStop(steps, accs, t.state);
        var p := PlayLoop(steps, accs, t.state).state.page;
        forall j | st.page < j < p ensures !StopsAt(steps, accs, j) {
          if j == st.page + 1 {
            assert !StopsAt(steps, accs, st.page + 1);
          }
        }
      } else {
        assert PlayLoop(steps, accs, st) == PlayRun(t.state, t.stop.value, t.added);
        assert t.state.page == st.page + 1 && StopsAt(steps, accs, st.page + 1);
      }
    }
  }

  /** The loop only appends rows, and every row it appends is valid. */
  lemma {:induction false} PlayLoopRows(steps: seq<PlayStep>, accs: seq<seq<Timed>>, st: PlayState, cutoff: int)
    requires st.page <= MaxPagesGooglePlay <= |steps| == |accs|
    requires forall j :: 0 <= j < |accs| ==> AllValid(accs[j], cutoff)
    requires AllValid(st.cands, cutoff)
    ensures var r := PlayLoop(steps, accs, st);
      st.cands <= r.state.cands && AllValid(r.state.cands, cutoff)
    decreases MaxPagesGooglePlay - st.page
  {
    if st.page < MaxPagesGooglePlay && !steps[st.page].shutdown {
      var added := Added(st.cands, accs[st.page]);
      PlayTurnRows(steps[st.page], accs[st.page], added, st, cutoff);
      var t := PlayTurn(steps[st.page], accs[st.page], added, st);
      if t.stop.None? {
        assert PlayLoop(steps, accs, st) == PlayLoop(steps, accs, t.state);
        PlayLoopRows(steps, accs, t.state, cutoff);
      } else {
        assert PlayLoop(steps, accs, st).state == t.state;
      }
    }
  }

  /** Every row a batch yields through the filters is valid. */
  lemma {:induction false} PlayAcceptedValid(steps: seq<PlayStep>, cutoff: int)
    ensures forall j :: 0 <= j < |steps| ==> AllValid(PlayAccepted(steps, cutoff)[j], cutoff)
  {
    var accs := PlayAccepted(steps, cutoff);
    forall j | 0 <= j < |steps| ensures AllValid(accs[j], cutoff) {
      var got := Obtained(steps[j]);
      if got.Batch? {
        assert accs[j] == Accepted(got.rows, cutoff);
        AcceptedValid(got.rows, cutoff);
      } else {
        assert accs[j] == [];
      }
    }
  }

  /**
   * The same from the first page, whatever each batch yields: what
   * `scrape_google_play` guarantees about why its run ends, and that it
   * ends at the first turn whose break conditions hold, on shutdown, or
   * after `MaxPagesGooglePlay` pages.
   */
  lemma {:induction false} PlayRunFacts(steps: seq<PlayStep>, accs: seq<seq<Timed>>)
    requires MaxPagesGooglePlay <= |steps| == |accs|
    ensures var r := PlayLoop(steps, accs, PlayState(0, None, 0, []));
      var p := r.state.page;
      p <= MaxPagesGooglePlay
      && (forall j :: 0 <= j < p ==> !steps[j].shutdown)
      && (steps[0].shutdown ==> r.state.cands == [] && r.stop == Shutdown)
      && (r.stop == FewNewReviews ==> p > GracePages)
      && (r.stop == PageLimit ==> p == MaxPagesGooglePlay)
      && (r.stop == Shutdown ==> p < MaxPagesGooglePlay && steps[p].shutdown)
      && (forall j :: 0 < j < p ==> !StopsAt(steps, accs, j))
      && (r.stop != Shutdown && r.stop != PageLimit ==> 0 < p && StopsAt(steps, accs, p))
  {
    PlayLoopStops(steps, accs, PlayState(0, None, 0, []));
    PlayLoopFirstStop(steps, accs, PlayState(0, None, 0, []));
  }

  /** From the first page: the run stops on errors only after three failed calls in a row. */
  lemma {:induction false} PlayRunErrors(steps: seq<PlayStep>, accs: seq<seq<Timed>>)
    requires MaxPagesGooglePlay <= |steps| == |accs|
    ensures var r := PlayLoop(steps, accs, PlayState(0, None, 0, []));
      var p := r.state.page;
      r.stop == TooManyErrors ==> p >= MaxConsecutiveErrors && forall j :: p - MaxConsecutiveErrors <= j < p ==> steps[j].call.Failed?
  {
    var st := PlayState(0, None, 0, []);
    PlayLoopErrors(steps, accs, st);
    var r := PlayLoop(steps, accs, st);
    if r.stop == TooManyErrors {
      ErrorStopMeaning(steps, r.state.page);
    }
  }

  /** Every row the store loop accepts is valid. */
  lemma {:induction false} PlayRunValid(steps: seq<PlayStep>, now: int)
    requires MaxPagesGooglePlay <= |steps|
    ensures AllValid(PlayRunFrom(steps, now).state.cands, Last12mCutoff(now))
  {
    var cutoff := Last12mCutoff(now);
    PlayAcceptedValid(steps, cutoff);
    PlayLoopRows(steps, PlayAccepted(steps, cutoff), PlayState(0, None, 0, []), cutoff);
  }

  /** The error stop at turn `p` means its call and the two calls before it failed. */
  lemma {:induction false} ErrorStopMeaning(steps: seq<PlayStep>, p: nat)
    requires 1 <= p <= |steps|
    requires steps[p - 1].call.Failed? && TrailingFailures(steps, p - 1) == MaxConsecutiveErrors - 1
    ensures p >= MaxConsecutiveErrors && forall j :: p - MaxConsecutiveErrors <= j < p ==> steps[j].call.Failed?
  {
    TrailingFailuresMeaning(steps, p - 1);
  }

  /** A counter of `k` after `n` turns means turns `n - k + 1` to `n` all failed, call and retry. */
  lemma {:induction false} TrailingFailuresMeaning(ss: seq<PlayStep>, n: nat)
    requires n <= |ss|
    ensures TrailingFailures(ss, n) <= n
    ensures forall j :: n - TrailingFailures(ss, n) <= j < n ==> ss[j].call.Failed? && ss[j].retry.Failed?
  {
    if n > 0 {
      TrailingFailuresMeaning(ss, n - 1);
    }
  }

  /** Each page adds a non-negative number of rows: the output only grows. */
  lemma {:induction false} AddedIsNonNegative(cands: seq<Timed>, batch: seq<PlayRow>, cutoff: int)
    ensures Dedup(cands, Key100) <= Dedup(cands + Accepted(batch, cutoff), Key100)
  {
    DedupPrefix(cands, Accepted(batch, cutoff), Key100);
  }

  /** Every output row of the store loop is valid and its fingerprints are distinct. */
  lemma {:induction false} PlayOutputValid(steps: seq<PlayStep>, now: int)
    requires MaxPagesGooglePlay <= |steps|
    ensures var out := Dedup(PlayRunFrom(steps, now).state.cands, Key100);
      AllValid(out, Last12mCutoff(now))
      && forall i, j :: 0 <= i < j < |out| ==> Key100(out[i]) != Key100(out[j])
  {
    PlayRunValid(steps, now);
    var cands := PlayRunFrom(steps, now).state.cands;
    var out := Dedup(cands, Key100);
    forall k | 0 <= k < |out| ensures ValidPlayRow(out[k], Last12mCutoff(now)) {
      DedupSubset(cands, Key100, k);
    }
    DedupDistinct(cands, Key100);
  }

  // ---------------------------------------------------------------------
  // scrape_google_play

  /**
   * The batch loop: filter each row, skip a fingerprint already seen, and
   * append the rest; `cands` are the rows accepted before this batch.
   */
  method AppendBatch(batch: seq<PlayRow>, cutoff: int, rows: seq<Review>, seen: set<Key>, ghost cands: seq<Timed>)
    returns (rows': seq<Review>, seen': set<Key>, added: int)
    requires Tracks(rows, seen, cands)
    ensures var c := cands + Accepted(batch, cutoff);
      Tracks(rows', seen', c)
      && added == |Dedup(c, Key100)| - |Dedup(cands, Key100)|
  {
    rows', seen', added := rows, seen, 0;
    ghost var c := cands;
    var i := 0;
    assert batch[..0] == [] && cands + [] == cands;
    while i < |batch|
      invariant 0 <= i <= |batch|
      invariant c == cands + Accepted(batch[..i], cutoff)
      invariant Tracks(rows', seen', c)
      invariant added == |Dedup(c, Key100)| - |Dedup(cands, Key100)|
    {
      var grew;
      rows', seen', grew := AppendRow(batch[i], cutoff, rows', seen', c);
      if grew {
        added := added + 1;
      }
      AcceptedSnoc(cands, batch, i, cutoff);
      c := c + AcceptOne(batch[i], cutoff);
      i := i + 1;
    }
    assert batch[..|batch|] == batch;
  }

  /** One turn of the batch loop: filter the row and append it unless its fingerprint was seen. */
  method AppendRow(row: PlayRow, cutoff: int, rows: seq<Review>, seen: set<Key>, ghost c: seq<Timed>)
    returns (rows': seq<Review>, seen': set<Key>, grew: bool)
    requires Tracks(rows, seen, c)
    ensures var c' := c + AcceptOne(row, cutoff);
      Tracks(rows', seen', c')
      && |Dedup(c', Key100)| == |Dedup(c, Key100)| + (if grew then 1 else 0)
  {
    var t := PlayAccept(row, cutoff);
    if t.None? {
      assert c + AcceptOne(row, cutoff) == c;
      return rows, seen, false;
    }
    assert c + AcceptOne(row, cutoff) == c + [t.value];
    rows', seen', grew := DedupStep(t.value, rows, seen, c);
  }

  /** `scrape_google_play`: the deduplicated accepted rows of the loop, as output rows. */
  method ScrapeGooglePlay(now: int, steps: seq<PlayStep>) returns (reviews: seq<Review>)
    requires MaxPagesGooglePlay <= |steps|
    ensures reviews == Reviews(Dedup(PlayRunFrom(steps, now).state.cands, Key100))
  {
    var cutoff := Last12mCutoff(now);
    reviews := PlayPages(steps, cutoff, PlayAccepted(steps, cutoff));
  }

  /** The loop of `scrape_google_play`, with `accs` what each batch yields through the filters. */
  method PlayPages(steps: seq<PlayStep>, cutoff: int, ghost accs: seq<seq<Timed>>) returns (reviews: seq<Review>)
    requires MaxPagesGooglePlay <= |steps|
    requires accs == PlayAccepted(steps, cutoff)
    ensures reviews == Reviews(Dedup(PlayLoop(steps, accs, PlayState(0, None, 0, [])).state.cands, Key100))
  {
    ghost var final := PlayLoop(steps, accs, PlayState(0, None, 0, []));
    ghost var cands: seq<Timed> := [];
    reviews := [];
    var seen: set<Key> := {};
    var token: Option<string> := None;
    var page := 0;
    var errors := 0;
    while page < MaxPagesGooglePlay
      invariant page <= MaxPagesGooglePlay
      invariant PlayLoop(steps, accs, PlayState(page, token, errors, cands)) == final
      invariant Tracks(reviews, seen, cands)
    {
      if steps[page].shutdown {
        break;
      }
      var stop;
      page, token, errors, reviews, seen, stop, cands := PlayTurnStep(steps[page], cutoff, page, token, errors, reviews, seen, cands, accs[page], Added(cands, accs[page]));
      if stop.Some? {
        break;
      }
    }
    assert final.state.cands == cands;
  }

  /**
   * The body of the loop once the shutdown flag is found clear: the call,
   * the error counting and inline retry, the batch, and the break tests.
   */
  method PlayTurnStep(step: PlayStep, cutoff: int, page: nat, token: Option<string>, errors: nat,
                      rows: seq<Review>, seen: set<Key>, ghost cands: seq<Timed>, ghost acc: seq<Timed>, ghost added: int)
    returns (page': nat, token': Option<string>, errors': nat, rows': seq<Review>, seen': set<Key>,
             stop: Option<PlayStop>, ghost cands': seq<Timed>)
    requires acc == (if Obtained(step).Batch? then Accepted(Obtained(step).rows, cutoff) else [])
    requires added == Added(cands, acc)
    requires Tracks(rows, seen, cands)
    ensures var t := PlayTurn(step, acc, added, PlayState(page, token, errors, cands));
      t.state == PlayState(page', token', errors', cands') && t.stop == stop
    ensures Tracks(rows', seen', cands')
  {
    page', token', errors', rows', seen', cands' := page + 1, token, errors, rows, seen, cands;
    var batch: seq<PlayRow>;
    if step.call.Batch? {
      batch, token' := step.call.rows, step.call.token;
      errors' := 0;
    } else {
      errors' := errors' + 1;
      if errors' >= MaxConsecutiveErrors {
        return page', token', errors', rows', seen', Some(TooManyErrors), cands';
      }
      if step.retry.Failed? {
        return page', token', errors', rows', seen', None, cands';
      }
      batch, token' := step.retry.rows, step.retry.token;
      errors' := 0;
    }
    assert Obtained(step) == Batch(batch, token') && acc == Accepted(batch, cutoff);
    if batch == [] {
      return page', token', errors', rows', seen', Some(EmptyBatch), cands';
    }
    rows', seen', stop := TakeBatch(batch, token', cutoff, page', rows', seen', cands);
    cands' := cands + acc;
  }

  /** A non-empty batch: append its new rows, then the break tests on the count added. */
  method TakeBatch(batch: seq<PlayRow>, token: Option<string>, cutoff: int, page: nat,
                   rows: seq<Review>, seen: set<Key>, ghost cands: seq<Timed>)
    returns (rows': seq<Review>, seen': set<Key>, stop: Option<PlayStop>)
    requires Tracks(rows, seen, cands)
    ensures var c := cands + Accepted(batch, cutoff);
      Tracks(rows', seen', c)
      && stop == BatchStop(Added(cands, Accepted(batch, cutoff)), page, token)
  {
    var added;
    rows', seen', added := AppendBatch(batch, cutoff, rows, seen, cands);
    if added < FewReviews && page > NoticePages {
      if page > GracePages {
        return rows', seen', Some(FewNewReviews);
      }
    }
    if token.None? {
      return rows', seen', Some(NoToken);
    }
    stop := None;
  }
}

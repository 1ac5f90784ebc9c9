/**
 * The two retry loops around an HTTP GET: `http_get_json` (feed source)
 * and `http_get` (web-page source). The network is a sequence of attempt
 * observations; sleeps are recorded as the wait they would last.
 */
module Fetch {

  import opened Records

  const MaxRetries: nat := 3
  const BackoffBase: real := 1.2
  const BackoffFactor: real := 1.5

  /** What one request produced: a response with a status and a body, or a raised `RequestException`. */
  datatype Outcome<B> = Reply(status: int, body: B) | Raised

  /** One loop turn: whether the shutdown flag was set at its top, and what its request would produce. */
  datatype Attempt<B> = Attempt(shutdown: bool, outcome: Outcome<B>)

  /** The value returned, how many requests were sent, and the backoff sleeps taken, in order. */
  datatype Fetched<T> = Fetched(result: Option<T>, sent: nat, waits: seq<real>)

  /** The statuses `http_get_json` backs off and retries on. */
  predicate Transient(status: int)
  {
    status == 429 || status == 500 || status == 502 || status == 503 || status == 504
  }

  function Pow(b: real, n: nat): real
  {
    if n == 0 then 1.0 else b * Pow(b, n - 1)
  }

  /** The sleep after the failed attempt numbered `attempt` (from 1) of `http_get_json`. */
  function JsonBackoff(attempt: nat): real
    requires attempt >= 1
  {
    BackoffBase * Pow(BackoffFactor, attempt - 1)
  }

  /** The sleep after the failed attempt numbered `attempt` (from 1) of `http_get`. */
  function TextBackoff(attempt: nat): real
  {
    BackoffBase * attempt as real
  }

  function Later<T>(f: Fetched<T>, wait: real): Fetched<T>
  {
    Fetched(f.result, f.sent, [wait] + f.waits)
  }

  // ---------------------------------------------------------------------
  // http_get_json

  /**
   * Whether `http_get_json` sleeps and tries again after this outcome: a
   * raised request error, a transient status, or a 200 whose body is not
   * JSON (`resp.json()` then raises a `RequestException`). `None` stands
   * for an undecodable body.
   */
  predicate JsonRetries<J>(o: Outcome<Option<J>>)
  {
    o.Raised? || Transient(o.status) || (o.status == 200 && o.body.None?)
  }

  /** The reply `http_get_json` returns: a 200 with a decodable body. */
  predicate JsonAccepted<J>(o: Outcome<Option<J>>)
  {
    o.Reply? && o.status == 200 && o.body.Some?
  }

  /** Any other status ends the loop with None and no retry. */
  predicate JsonRefused<J>(o: Outcome<Option<J>>)
  {
    o.Reply? && o.status != 200 && !Transient(o.status)
  }

  /** The loop of `http_get_json` from attempt index `i` (attempt number `i + 1`). */
  function JsonFetch<J>(attempts: seq<Attempt<Option<J>>>, i: nat): Fetched<J>
    requires i <= MaxRetries <= |attempts|
    decreases MaxRetries - i
  {
    if i == MaxRetries then Fetched(None, MaxRetries, [])
    else if attempts[i].shutdown then Fetched(None, i, [])
    else
      var o := attempts[i].outcome;
      if JsonAccepted(o) then Fetched(o.body, i + 1, [])
      else if JsonRetries(o) then Later(JsonFetch(attempts, i + 1), JsonBackoff(i + 1))
      else Fetched(None, i + 1, [])
  }

  /** `http_get_json`, over the attempts its requests would see. */
  method HttpGetJson<J>(attempts: seq<Attempt<Option<J>>>) returns (data: Option<J>, sent: nat, waits: seq<real>)
    requires MaxRetries <= |attempts|
    ensures Fetched(data, sent, waits) == JsonFetch(attempts, 0)
  {
    waits := [];
    var attempt := 1;
    while attempt <= MaxRetries
      invariant 1 <= attempt <= MaxRetries + 1
      invariant var rest := JsonFetch(attempts, attempt - 1);
        JsonFetch(attempts, 0) == Fetched(rest.result, rest.sent, waits + rest.waits)
    {
      var a := attempts[attempt - 1];
      if a.shutdown {
        return None, attempt - 1, waits;
      }
      match a.outcome {
        case Reply(status, body) =>
          if status == 200 {
            if body.Some? {
              return body, attempt, waits;
            }
          } else if !Transient(status) {
            return None, attempt, waits;
          }
        case Raised =>
      }
      ghost var rest := JsonFetch(attempts, attempt);
      assert JsonFetch(attempts, attempt - 1) == Later(rest, JsonBackoff(attempt));
      assert waits + ([JsonBackoff(attempt)] + rest.waits) == (waits + [JsonBackoff(attempt)]) + rest.waits;
      waits := waits + [JsonBackoff(attempt)];
      attempt := attempt + 1;
    }
    return None, MaxRetries, waits;
  }

  /**
   * What the JSON loop guarantees, from attempt index `i`: at most
   * `MaxRetries` requests; none once the shutdown flag is seen; every
   * request before the last one was retried; a value only from a 200 with a
   * decodable body; None only on shutdown, on a refused status, or when
   * the retries are used up, and never right after a 200 with a decodable
   * body; and one backoff, growing by 1.5 each time,
   * after each retried request.
   */
  lemma {:induction false} JsonFetchFacts<J>(attempts: seq<Attempt<Option<J>>>, i: nat)
    requires i <= MaxRetries <= |attempts|
    ensures var r := JsonFetch(attempts, i);
      i <= r.sent <= MaxRetries
      && (forall j :: i <= j < r.sent ==> !attempts[j].shutdown)
      && (forall j :: i <= j < r.sent - 1 ==> JsonRetries(attempts[j].outcome))
      && (r.result.Some? ==> r.sent > i && attempts[r.sent - 1].outcome == Reply(200, r.result))
      && (r.result.None? ==>
            (r.sent < MaxRetries && r.sent < |attempts| && attempts[r.sent].shutdown)
            || (r.sent > i && JsonRefused(attempts[r.sent - 1].outcome))
            || (r.sent == MaxRetries && (r.sent == i || JsonRetries(attempts[r.sent - 1].outcome))))
      && (r.result.None? && r.sent > i ==>
            JsonRefused(attempts[r.sent - 1].outcome) || JsonRetries(attempts[r.sent - 1].outcome))
      && |r.waits| == (if r.result.Some? || (r.sent > i && JsonRefused(attempts[r.sent - 1].outcome)) then r.sent - i - 1 else r.sent - i)
      && (forall k :: 0 <= k < |r.waits| ==> r.waits[k] == JsonBackoff(i + k + 1))
    decreases MaxRetries - i
  {
    if i < MaxRetries && !attempts[i].shutdown {
      var o := attempts[i].outcome;
      if !JsonAccepted(o) && JsonRetries(o) {
        JsonFetchFacts(attempts, i + 1);
        var rest := JsonFetch(attempts, i + 1);
        assert JsonFetch(attempts, i).waits == [JsonBackoff(i + 1)] + rest.waits;
      }
    }
  }

  /** The same from the first attempt: what a caller of `http_get_json` can rely on. */
  lemma HttpGetJsonContract<J>(attempts: seq<Attempt<Option<J>>>)
    requires MaxRetries <= |attempts|
    ensures var r := JsonFetch(attempts, 0);
      r.sent <= MaxRetries
      && (attempts[0].shutdown ==> r == Fetched(None, 0, []))
      && (r.result.Some? ==> attempts[r.sent - 1].outcome == Reply(200, r.result))
      && (!attempts[0].shutdown && JsonRefused(attempts[0].outcome) ==> r == Fetched(None, 1, []))
      && (forall j :: 0 <= j < r.sent - 1 ==> JsonRetries(attempts[j].outcome))
      && (!attempts[0].shutdown && JsonAccepted(attempts[0].outcome) ==> r == Fetched(attempts[0].outcome.body, 1, []))
      && (r.result.None? && r.sent > 0 ==> !JsonAccepted(attempts[r.sent - 1].outcome))
  {
    JsonFetchFacts(attempts, 0);
  }

  // ---------------------------------------------------------------------
  // http_get

  /** Whether `http_get` returns the body of this outcome: a 200 with a non-empty text. */
  predicate TextAccepted(o: Outcome<string>)
  {
    o.Reply? && o.status == 200 && o.body != []
  }

  /** The loop of `http_get` from attempt index `i`: every other outcome sleeps and retries. */
  function TextFetch(attempts: seq<Attempt<string>>, i: nat): Fetched<string>
    requires i <= MaxRetries <= |attempts|
    decreases MaxRetries - i
  {
    if i == MaxRetries then Fetched(None, MaxRetries, [])
    else if attempts[i].shutdown then Fetched(None, i, [])
    else if TextAccepted(attempts[i].outcome) then Fetched(Some(attempts[i].outcome.body), i + 1, [])
    else Later(TextFetch(attempts, i + 1), TextBackoff(i + 1))
  }

  /** `http_get`, over the attempts its requests would see. */
  method HttpGet(attempts: seq<Attempt<string>>) returns (text: Option<string>, sent: nat, waits: seq<real>)
    requires MaxRetries <= |attempts|
    ensures Fetched(text, sent, waits) == TextFetch(attempts, 0)
  {
    waits := [];
    var attempt := 1;
    while attempt <= MaxRetries
      invariant 1 <= attempt <= MaxRetries + 1
      invariant var rest := TextFetch(attempts, attempt - 1);
        TextFetch(attempts, 0) == Fetched(rest.result, rest.sent, waits + rest.waits)
    {
      var a := attempts[attempt - 1];
      if a.shutdown {
        return None, attempt - 1, waits;
      }
      if a.outcome.Reply? && a.outcome.status == 200 && a.outcome.body != [] {
        return Some(a.outcome.body), attempt, waits;
      }
      ghost var rest := TextFetch(attempts, attempt);
      assert TextFetch(attempts, attempt - 1) == Later(rest, TextBackoff(attempt));
      assert waits + ([TextBackoff(attempt)] + rest.waits) == (waits + [TextBackoff(attempt)]) + rest.waits;
      waits := waits + [TextBackoff(attempt)];
      attempt := attempt + 1;
    }
    return None, MaxRetries, waits;
  }

  /**
   * What the text loop guarantees, from attempt index `i`: at most
   * `MaxRetries` requests, none after shutdown, every earlier request
   * retried whatever its status, a non-empty body only from a 200, None
   * never right after an accepted reply, and a
   * linearly growing backoff after each retried request.
   */
  lemma {:induction false} TextFetchFacts(attempts: seq<Attempt<string>>, i: nat)
    requires i <= MaxRetries <= |attempts|
    ensures var r := TextFetch(attempts, i);
      i <= r.sent <= MaxRetries
      && (forall j :: i <= j < r.sent ==> !attempts[j].shutdown)
      && (forall j :: i <= j < r.sent - 1 ==> !TextAccepted(attempts[j].outcome))
      && (r.result.Some? ==> r.sent > i && attempts[r.sent - 1].outcome == Reply(200, r.result.value) && r.result.value != [])
      && (r.result.None? ==>
            (r.sent < MaxRetries && attempts[r.sent].shutdown)
            || (r.sent == MaxRetries && (r.sent == i || !TextAccepted(attempts[r.sent - 1].outcome))))
      && (r.result.None? && r.sent > i ==> !TextAccepted(attempts[r.sent - 1].outcome))
      && |r.waits| == (if r.result.Some? then r.sent - i - 1 else r.sent - i)
      && (forall k :: 0 <= k < |r.waits| ==> r.waits[k] == TextBackoff(i + k + 1))
    decreases MaxRetries - i
  {
    if i < MaxRetries && !attempts[i].shutdown && !TextAccepted(attempts[i].outcome) {
      TextFetchFacts(attempts, i + 1);
      var rest := TextFetch(attempts, i + 1);
      assert TextFetch(attempts, i).waits == [TextBackoff(i + 1)] + rest.waits;
    }
  }
}

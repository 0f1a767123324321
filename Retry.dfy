/**
 * The retry loop of `GameScraper.extract_game_iframe`, as a function of what
 * the browser does on each attempt. One attempt probes the session
 * (re-creating it when the probe reports it dead), navigates to the page,
 * waits for it to settle, queries its iframes and keeps the first one with a
 * source. The loop makes at most three attempts; an attempt that raises is
 * followed by a backoff wait when another attempt remains; an attempt that
 * saves a record or finds none ends the loop. A URL containing "random" in
 * any case is skipped before anything is done.
 *
 * Sleeps, navigations and session probes leave no data behind, so they are
 * recorded as a trace of events.
 */
module Retry {
  import opened Wrappers
  import opened Text
  import opened Sequences
  import opened Frames

  const MaxRetries: nat := 3

  /** Seconds waited after navigating, for the page to settle. */
  const SettleSeconds: nat := 3

  /** Seconds waited after a failed attempt when another one remains. */
  const BackoffSeconds: nat := 2

  /** Seconds waited after each detail page in the run over all links. */
  const PauseSeconds: nat := 1

  /** What the scraper asks of the browser and the clock, in order. */
  datatype Event =
    | ProbeSession          // reading `driver.current_url`
    | StartSession          // `setup_driver`: quit any old session and start a new one
    | Navigate(url: string) // `driver.get(url)`
    | Sleep(seconds: nat)   // `asyncio.sleep(seconds)`

  /**
   * The session probe: the session answers; or the probe raises an error
   * other than a WebDriver one, which no handler of the probe catches; or it
   * raises a WebDriver error and `setup_driver` is called, which succeeds or
   * raises.
   */
  datatype SessionState = Alive | ProbeRaises | Dead(relaunched: bool)

  /** Loading a detail page: `driver.get` raises, `find_elements` raises, or the page's iframes. */
  datatype PageLoad = NavigationFails | QueryFails | Loaded(frames: seq<FrameElem>)

  /** Everything one attempt observes: the session, the page and the wall-clock time when a record is built. */
  datatype Attempt = Attempt(session: SessionState, page: PageLoad, clock: string)

  /** How one attempt of the loop body ends. */
  datatype Outcome = Saved(record: FrameRecord) | NothingFound | Raised

  /** What one attempt yields: how it ends, and what it asked of the browser and the clock. */
  datatype Try = Try(outcome: Outcome, events: seq<Event>)

  /** What a call of `extract_game_iframe` amounts to. */
  datatype Extraction = Extraction(record: Option<FrameRecord>, attempts: nat, events: seq<Event>)

  /** `'random' in url.lower()`. */
  predicate IsRandom(url: string) {
    Contains(Lower(url), "random")
  }

  /** After the probe, the attempt goes on to navigate: the session answered, or was restarted. */
  predicate Usable(s: SessionState) {
    s == Alive || s == Dead(true)
  }

  /** The events of one attempt of the loop body, up to where it ends. */
  function AttemptEvents(url: string, a: Attempt): seq<Event> {
    [ProbeSession]
    + (if a.session.Dead? then [StartSession] else [])
    + (if !Usable(a.session) then []
       else [Navigate(url)] + (if a.page.NavigationFails? then [] else [Sleep(SettleSeconds)]))
  }

  /** How one attempt of the loop body ends. */
  function AttemptOutcome(name: string, url: string, a: Attempt): Outcome {
    if !Usable(a.session) then Raised
    else match a.page
      case NavigationFails => Raised
      case QueryFails => Raised
      case Loaded(frames) =>
        match Select(frames, name, url, a.clock)
        case Chosen(r) => Saved(r)
        case NoSource => NothingFound
        case ReadFails => Raised
  }

  /**
   * A probe that raises an error other than a WebDriver one skips the
   * restart and the navigation: the attempt raises after the probe alone.
   */
  lemma BareProbeFailure(name: string, url: string, a: Attempt)
    requires a.session == ProbeRaises
    ensures AttemptOutcome(name, url, a) == Raised
    ensures AttemptEvents(url, a) == [ProbeSession]
  {
    assert [ProbeSession] + [] + [] == [ProbeSession];
  }

  /** One attempt on the page `url` of the game `name`. */
  function Perform(name: string, url: string, a: Attempt): Try {
    Try(AttemptOutcome(name, url, a), AttemptEvents(url, a))
  }

  /** The attempts of one call, numbered from 0, where `env(k)` is what attempt `k` observes. */
  function Tries(name: string, url: string, env: nat -> Attempt): nat -> Try {
    (k: nat) => Perform(name, url, env(k))
  }

  /**
   * The retry loop from attempt number `k` (counted from 0) on: an attempt
   * that raises is followed by the backoff wait and the next attempt while
   * one remains; any other outcome ends the loop.
   */
  function Retries(tries: nat -> Try, k: nat): Extraction
    requires k < MaxRetries
    decreases MaxRetries - k
  {
    var t := tries(k);
    match t.outcome
    case Saved(r) => Extraction(Some(r), k + 1, t.events)
    case NothingFound => Extraction(None, k + 1, t.events)
    case Raised =>
      if k + 1 < MaxRetries then
        var rest := Retries(tries, k + 1);
        Extraction(rest.record, rest.attempts, t.events + [Sleep(BackoffSeconds)] + rest.events)
      else Extraction(None, k + 1, t.events)
  }

  /**
   * `extract_game_iframe(name, url)`. The test for a "random" URL is made at
   * the top of every attempt, but the URL does not change, so only the first
   * attempt can stop there.
   */
  function Extract(name: string, url: string, env: nat -> Attempt): Extraction {
    if IsRandom(url) then Extraction(None, 1, [])
    else Retries(Tries(name, url, env), 0)
  }

  /** Every attempt before `k` raised. */
  predicate Failed(tries: nat -> Try, k: nat) {
    forall j :: 0 <= j < k ==> tries(j).outcome.Raised?
  }

  /** The events of `k` failed attempts, each followed by its backoff wait. */
  function FailedPrefix(tries: nat -> Try, k: nat): seq<Event> {
    if k == 0 then [] else FailedPrefix(tries, k - 1) + tries(k - 1).events + [Sleep(BackoffSeconds)]
  }

  /** An attempt that raises, with another one left, is followed by the backoff wait and the next attempt. */
  lemma RaisedStep(tries: nat -> Try, k: nat)
    requires k + 1 < MaxRetries && tries(k).outcome.Raised?
    ensures var e, rest := Retries(tries, k), Retries(tries, k + 1);
            e.record == rest.record && e.attempts == rest.attempts
            && e.events == tries(k).events + [Sleep(BackoffSeconds)] + rest.events
  {
  }

  /** The loop from attempt 0 continues as the loop from attempt `k`, after the events `pre`. */
  predicate ContinuesAs(tries: nat -> Try, k: nat, pre: seq<Event>)
    requires k < MaxRetries
  {
    var e, rest := Retries(tries, 0), Retries(tries, k);
    e.record == rest.record && e.attempts == rest.attempts && e.events == pre + rest.events
  }

  /** After `k` failed attempts, the loop goes on as the loop from attempt `k`. */
  lemma {:induction false} Unroll(tries: nat -> Try, k: nat)
    requires k < MaxRetries && Failed(tries, k)
    ensures var e, rest := Retries(tries, 0), Retries(tries, k);
            e.record == rest.record && e.attempts == rest.attempts && e.events == FailedPrefix(tries, k) + rest.events
    decreases k
  {
    if k == 0 {
      assert [] + Retries(tries, 0).events == Retries(tries, 0).events;
    } else {
      Unroll(tries, k - 1);
      UnrollStep(tries, k);
    }
  }

  /** One more failed attempt moves the continuation one attempt further. */
  lemma UnrollStep(tries: nat -> Try, k: nat)
    requires 0 < k < MaxRetries && tries(k - 1).outcome.Raised?
    requires ContinuesAs(tries, k - 1, FailedPrefix(tries, k - 1))
    ensures ContinuesAs(tries, k, FailedPrefix(tries, k))
  {
    var rest := Retries(tries, k);
    var pre := FailedPrefix(tries, k - 1);
    var ev := tries(k - 1).events + [Sleep(BackoffSeconds)];
    RaisedStep(tries, k - 1);
    assert Retries(tries, 0).events == pre + (ev + rest.events);
    AppendAssoc(pre, ev, rest.events);
  }

  lemma {:induction false} AttemptsFrom(tries: nat -> Try, k: nat)
    requires k < MaxRetries
    ensures var e := Retries(tries, k);
            k < e.attempts <= MaxRetries && (Failed(tries, k) ==> Failed(tries, e.attempts - 1))
    decreases MaxRetries - k
  {
    if tries(k).outcome.Raised? && k + 1 < MaxRetries {
      AttemptsFrom(tries, k + 1);
    }
  }

  /** The first attempt that does not raise ends the loop, with its record if it saved one. */
  lemma StopsAt(tries: nat -> Try, k: nat)
    requires k < MaxRetries && Failed(tries, k) && !tries(k).outcome.Raised?
    ensures var e, o := Retries(tries, 0), tries(k).outcome;
            && e.record == (if o.Saved? then Some(o.record) else None)
            && e.attempts == k + 1
            && e.events == FailedPrefix(tries, k) + tries(k).events
  {
    Unroll(tries, k);
  }

  /** When the last attempt raises too, the loop gives up: no record, and no wait after the last attempt. */
  lemma GivesUp(tries: nat -> Try)
    requires Failed(tries, MaxRetries)
    ensures var e := Retries(tries, 0);
            && e.record == None
            && e.attempts == MaxRetries
            && e.events == FailedPrefix(tries, MaxRetries - 1) + tries(MaxRetries - 1).events
  {
    Unroll(tries, MaxRetries - 1);
  }

  /** A record comes from the last attempt, which saved it. */
  lemma {:induction false} SavedFrom(tries: nat -> Try, k: nat)
    requires k < MaxRetries && Retries(tries, k).record.Some?
    ensures var e := Retries(tries, k);
            e.attempts >= 1 && tries(e.attempts - 1).outcome == Saved(e.record.value)
    decreases MaxRetries - k
  {
    if tries(k).outcome.Raised? {
      SavedFrom(tries, k + 1);
    }
  }

  /** With no backoff wait inside an attempt, the loop waits once between consecutive attempts. */
  lemma {:induction false} BackoffsFrom(tries: nat -> Try, k: nat)
    requires k < MaxRetries
    requires forall j :: Sleep(BackoffSeconds) !in tries(j).events
    ensures var e := Retries(tries, k);
            multiset(e.events)[Sleep(BackoffSeconds)] == e.attempts - k - 1
    decreases MaxRetries - k
  {
    var t := tries(k);
    assert multiset(t.events)[Sleep(BackoffSeconds)] == 0;
    if t.outcome.Raised? && k + 1 < MaxRetries {
      BackoffsFrom(tries, k + 1);
      RaisedStep(tries, k);
      CountAround(t.events, Sleep(BackoffSeconds), Retries(tries, k + 1).events);
    }
  }

  /** An event no attempt yields, other than the backoff wait, never occurs in the loop. */
  lemma {:induction false} AbsentFrom(tries: nat -> Try, k: nat, x: Event)
    requires k < MaxRetries && x != Sleep(BackoffSeconds)
    requires forall j :: x !in tries(j).events
    ensures x !in Retries(tries, k).events
    decreases MaxRetries - k
  {
    if tries(k).outcome.Raised? && k + 1 < MaxRetries {
      AbsentFrom(tries, k + 1, x);
    }
  }

  /** The attempt raises. */
  predicate Raises(name: string, url: string, a: Attempt) {
    AttemptOutcome(name, url, a).Raised?
  }

  /** Every attempt of the call before `k` raised. */
  predicate RaisedBefore(name: string, url: string, env: nat -> Attempt, k: nat) {
    forall j {:trigger Raises(name, url, env(j))} :: 0 <= j < k ==> Raises(name, url, env(j))
  }

  lemma RaisedBeforeFailed(name: string, url: string, env: nat -> Attempt, k: nat)
    ensures RaisedBefore(name, url, env, k) <==> Failed(Tries(name, url, env), k)
  {
    var tries := Tries(name, url, env);
    forall j | 0 <= j < k ensures Raises(name, url, env(j)) <==> tries(j).outcome.Raised? {
      assert tries(j) == Perform(name, url, env(j));
    }
  }

  /**
   * The call makes between one and three attempts, and every attempt but the
   * last one raised: the loop only goes round again after an exception.
   */
  lemma AttemptsBounded(name: string, url: string, env: nat -> Attempt)
    ensures var e := Extract(name, url, env);
            1 <= e.attempts <= MaxRetries && (!IsRandom(url) ==> RaisedBefore(name, url, env, e.attempts - 1))
  {
    if !IsRandom(url) {
      var e := Extract(name, url, env);
      AttemptsFrom(Tries(name, url, env), 0);
      RaisedBeforeFailed(name, url, env, 0);
      RaisedBeforeFailed(name, url, env, e.attempts - 1);
    }
  }

  /** A URL containing "random" in any case: nothing is saved, and the session is neither probed nor navigated. */
  lemma RandomSkipped(name: string, url: string, env: nat -> Attempt)
    requires IsRandom(url)
    ensures Extract(name, url, env) == Extraction(None, 1, [])
  {
  }

  /**
   * An attempt that finds no iframe, or only iframes without a source, ends
   * the call: no record and no further attempt.
   */
  lemma NothingFoundStops(name: string, url: string, env: nat -> Attempt, k: nat)
    requires !IsRandom(url) && k < MaxRetries && RaisedBefore(name, url, env, k)
    requires AttemptOutcome(name, url, env(k)) == NothingFound
    ensures var e := Extract(name, url, env);
            e.record == None && e.attempts == k + 1
            && e.events == FailedPrefix(Tries(name, url, env), k) + AttemptEvents(url, env(k))
  {
    RaisedBeforeFailed(name, url, env, k);
    StopsAt(Tries(name, url, env), k);
  }

  /** A page with no iframe at all yields no record and is not retried. */
  lemma NoIframeNoRetry(name: string, url: string, env: nat -> Attempt)
    requires !IsRandom(url)
    requires Usable(env(0).session) && env(0).page == Loaded([])
    ensures var e := Extract(name, url, env);
            e.record == None && e.attempts == 1
  {
    assert AttemptOutcome(name, url, env(0)) == NothingFound;
    NothingFoundStops(name, url, env, 0);
  }

  /**
   * When every attempt raises, the call makes exactly three attempts, saves
   * nothing, and waits the backoff delay between attempts and not after the
   * last one; it returns normally.
   */
  lemma AllRaise(name: string, url: string, env: nat -> Attempt)
    requires !IsRandom(url) && RaisedBefore(name, url, env, MaxRetries)
    ensures var e := Extract(name, url, env);
            && e.record == None
            && e.attempts == MaxRetries
            && e.events == AttemptEvents(url, env(0)) + [Sleep(BackoffSeconds)]
                         + AttemptEvents(url, env(1)) + [Sleep(BackoffSeconds)]
                         + AttemptEvents(url, env(2))
  {
    var tries := Tries(name, url, env);
    RaisedBeforeFailed(name, url, env, MaxRetries);
    GivesUp(tries);
    assert FailedPrefix(tries, 2) == FailedPrefix(tries, 1) + tries(1).events + [Sleep(BackoffSeconds)];
    assert FailedPrefix(tries, 1) == [] + tries(0).events + [Sleep(BackoffSeconds)];
  }

  /**
   * The record saved, if any, is the one the first iframe with a source gives
   * on the page of the attempt that saved it, every earlier attempt having
   * raised; that attempt is the last one.
   */
  lemma SavedIsFirstSourced(name: string, url: string, env: nat -> Attempt)
    requires Extract(name, url, env).record.Some?
    ensures var e := Extract(name, url, env);
            var a := env(e.attempts - 1);
            && !IsRandom(url)
            && RaisedBefore(name, url, env, e.attempts - 1)
            && Usable(a.session) && a.page.Loaded?
            && Select(a.page.frames, name, url, a.clock) == Chosen(e.record.value)
  {
    AttemptsBounded(name, url, env);
    var tries := Tries(name, url, env);
    SavedFrom(tries, 0);
    var e := Extract(name, url, env);
    assert tries(e.attempts - 1) == Perform(name, url, env(e.attempts - 1));
  }

  /** A saved record names the game and page of the call. */
  lemma SavedFields(name: string, url: string, env: nat -> Attempt)
    requires Extract(name, url, env).record.Some?
    ensures var r := Extract(name, url, env).record.value;
            r.gameName == name && r.gameUrl == url && !IsRandom(url)
  {
    SavedIsFirstSourced(name, url, env);
    var e := Extract(name, url, env);
    var a := env(e.attempts - 1);
    ChosenFields(a.page.frames, name, url, a.clock);
  }

  /** The backoff wait happens once between consecutive attempts, and only there. */
  lemma BackoffBetweenAttempts(name: string, url: string, env: nat -> Attempt)
    ensures var e := Extract(name, url, env);
            multiset(e.events)[Sleep(BackoffSeconds)] == e.attempts - 1
  {
    if !IsRandom(url) {
      var tries := Tries(name, url, env);
      assert forall j :: tries(j) == Perform(name, url, env(j));
      BackoffsFrom(tries, 0);
    }
  }

  /** The pause between games never occurs inside one extraction. */
  lemma NoPause(name: string, url: string, env: nat -> Attempt)
    ensures Sleep(PauseSeconds) !in Extract(name, url, env).events
  {
    if !IsRandom(url) {
      var tries := Tries(name, url, env);
      assert forall j :: tries(j) == Perform(name, url, env(j));
      AbsentFrom(tries, 0, Sleep(PauseSeconds));
    }
  }
}

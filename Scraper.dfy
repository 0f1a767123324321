/**
 * The scraper object `GameScraper`: its output file, and the order in which
 * it drives the browser. `process_all_games` discovers the game links on the
 * home page, then extracts the iframe of each game page in the order of the
 * list, pausing after each one.
 *
 * What the browser shows is an input: the listing page, and for the link at
 * position `i` of the list, `world(i)` is what each attempt on that game's
 * page observes.
 */
module Scraper {
  import opened Wrappers
  import opened Text
  import opened Sequences
  import opened Links
  import opened Frames
  import opened Retry
  import opened Store

  /** The records a run over `links` saves, in order. */
  function RunRecords(links: seq<GameLink>, world: nat -> nat -> Attempt): seq<FrameRecord> {
    if |links| == 0 then []
    else
      var n := |links| - 1;
      RunRecords(links[..n], world) + ToSeq(Extract(links[n].text, links[n].href, world(n)).record)
  }

  /** What a run over `links` asks of the browser and the clock, in order. */
  function RunEvents(links: seq<GameLink>, world: nat -> nat -> Attempt): seq<Event> {
    if |links| == 0 then []
    else
      var n := |links| - 1;
      RunEvents(links[..n], world) + Extract(links[n].text, links[n].href, world(n)).events + [Sleep(PauseSeconds)]
  }

  /** Rows of the output file, one per record. */
  function Rows(records: seq<FrameRecord>): seq<Row> {
    seq(|records|, k requires 0 <= k < |records| => RowOf(records[k]))
  }

  /** Rows of a concatenation are the concatenated rows. */
  lemma RowsAppend(a: seq<FrameRecord>, b: seq<FrameRecord>)
    ensures Rows(a + b) == Rows(a) + Rows(b)
  {
  }

  /** Taking one more link of the list adds that link's extraction and pause to the run. */
  lemma RunStep(links: seq<GameLink>, world: nat -> nat -> Attempt, i: nat)
    requires i < |links|
    ensures var e := Extract(links[i].text, links[i].href, world(i));
            && RunEvents(links[..i + 1], world) == RunEvents(links[..i], world) + (e.events + [Sleep(PauseSeconds)])
            && RunRecords(links[..i + 1], world) == RunRecords(links[..i], world) + ToSeq(e.record)
  {
    var e := Extract(links[i].text, links[i].href, world(i));
    assert links[..i + 1][..i] == links[..i];
    AppendAssoc(RunEvents(links[..i], world), e.events, [Sleep(PauseSeconds)]);
  }

  /**
   * A run saves no more records than there are links, and each record comes
   * from one of the links, with the link's text as the game's name and its
   * href as the page; none comes from a "random" page. That each link adds
   * at most one record, after those of the links before it, is `RunStep` and
   * `RunRecordsLast`.
   */
  lemma {:induction false} RecordsFollowLinks(links: seq<GameLink>, world: nat -> nat -> Attempt)
    ensures |RunRecords(links, world)| <= |links|
    ensures forall k :: 0 <= k < |RunRecords(links, world)| ==>
              exists i :: 0 <= i < |links| && FromLink(RunRecords(links, world)[k], links[i])
  {
    if |links| > 0 {
      var n := |links| - 1;
      var init := links[..n];
      RecordsFollowLinks(init, world);
      var e := Extract(links[n].text, links[n].href, world(n));
      var records := RunRecords(links, world);
      forall k | 0 <= k < |records| ensures exists i :: 0 <= i < |links| && FromLink(records[k], links[i]) {
        if k < |RunRecords(init, world)| {
          var i :| 0 <= i < |init| && FromLink(RunRecords(init, world)[k], init[i]);
          assert links[i] == init[i];
        } else {
          SavedFields(links[n].text, links[n].href, world(n));
          assert FromLink(records[k], links[n]);
        }
      }
    }
  }

  /** The record names the link's game and page, and the page is not a "random" one. */
  predicate FromLink(r: FrameRecord, l: GameLink) {
    r.gameName == l.text && r.gameUrl == l.href && !IsRandom(l.href)
  }

  /** In a list sorted by text, a link's text is at most that of any later link. */
  lemma SortedPair(links: seq<GameLink>, i: nat, j: nat)
    requires SortedByText(links) && i <= j < |links|
    ensures TextLe(links[i].text, links[j].text)
  {
    var tail := links[i..];
    assert SortedByText(tail);
    assert tail[j - i] == links[j];
    SortedFirstLeast(tail, links[j]);
  }

  /** Non-decreasing by game name. */
  predicate SortedByName(records: seq<FrameRecord>) {
    forall k :: 0 < k < |records| ==> TextLe(records[k - 1].gameName, records[k].gameName)
  }

  lemma SortedByNameAppend(before: seq<FrameRecord>, last: seq<FrameRecord>)
    requires SortedByName(before) && |last| <= 1
    requires |before| > 0 && |last| == 1 ==> TextLe(before[|before| - 1].gameName, last[0].gameName)
    ensures SortedByName(before + last)
  {
    var records := before + last;
    forall k | 0 < k < |records| ensures TextLe(records[k - 1].gameName, records[k].gameName) {
      if k < |before| {
        assert records[k - 1] == before[k - 1] && records[k] == before[k];
      } else {
        assert records[k - 1] == before[|before| - 1] && records[k] == last[0];
      }
    }
  }

  /** The last link of a run adds at most one record, named after that link, to the records of the links before it. */
  lemma RunRecordsLast(links: seq<GameLink>, world: nat -> nat -> Attempt)
    requires |links| > 0
    ensures var n := |links| - 1;
            var all, init := RunRecords(links, world), RunRecords(links[..n], world);
            && |init| <= |all| <= |init| + 1
            && all[..|init|] == init
            && (|all| > |init| ==> all[|init|].gameName == links[n].text)
  {
    var n := |links| - 1;
    var e := Extract(links[n].text, links[n].href, world(n));
    if e.record.Some? {
      SavedFields(links[n].text, links[n].href, world(n));
    }
  }

  /**
   * The records of a run over links sorted by text are sorted by game name:
   * `process_all_games` extracts the games in the order of the list.
   */
  lemma {:induction false} RecordsSorted(links: seq<GameLink>, world: nat -> nat -> Attempt)
    requires SortedByText(links)
    ensures SortedByName(RunRecords(links, world))
  {
    if |links| > 0 {
      var n := |links| - 1;
      var init := links[..n];
      assert SortedByText(init);
      RecordsSorted(init, world);
      var all, before := RunRecords(links, world), RunRecords(init, world);
      RunRecordsLast(links, world);
      var last := all[|before|..];
      assert all == before + last;
      if |last| == 1 && |before| > 0 {
        RecordsFollowLinks(init, world);
        var i :| 0 <= i < |init| && FromLink(before[|before| - 1], init[i]);
        SortedPair(links, i, n);
      }
      SortedByNameAppend(before, last);
    }
  }

  /** A run pauses once per link, after its extraction and nowhere else. */
  lemma {:induction false} PauseAfterEachLink(links: seq<GameLink>, world: nat -> nat -> Attempt)
    ensures multiset(RunEvents(links, world))[Sleep(PauseSeconds)] == |links|
  {
    if |links| > 0 {
      var n := |links| - 1;
      PauseAfterEachLink(links[..n], world);
      NoPause(links[n].text, links[n].href, world(n));
    }
  }

  /**
   * Every record a completed run saves is about a link `get_game_links`
   * accepted: its page is on the site, shaped like a game page and outside
   * the excluded sections, and its game name is the link's non-empty text.
   */
  lemma RecordsQualified(q: Query, links: seq<GameLink>, world: nat -> nat -> Attempt)
    requires Discovered(q, links)
    ensures forall r :: r in RunRecords(links, world) ==> Accepts(r.gameUrl, r.gameName) && !IsRandom(r.gameUrl)
  {
    DiscoveredAccepted(q, links);
    RecordsFollowLinks(links, world);
    var records := RunRecords(links, world);
    forall r | r in records ensures Accepts(r.gameUrl, r.gameName) && !IsRandom(r.gameUrl) {
      var k :| 0 <= k < |records| && records[k] == r;
      var i :| 0 <= i < |links| && FromLink(records[k], links[i]);
      assert links[i] in links;
    }
  }

  /** `GameScraper`: the output file it writes, and the trace of what it has asked of the browser. */
  class GameScraper {
    const csv: CsvFile
    var trace: seq<Event>

    ghost predicate Valid()
      reads this, csv
    {
      csv.Valid()
    }

    /**
     * `__init__`: starts a browser session (`setup_driver`), then `init_csv`
     * creates the output file with its header unless it exists already.
     */
    constructor (file: CsvFile)
      requires file.Valid()
      modifies file
      ensures Valid() && csv == file
      ensures trace == [StartSession]
      ensures file.present
      ensures file.rows == if old(file.present) then old(file.rows) else [Header]
    {
      csv := file;
      trace := [StartSession];
      new;
      csv.InitCsv();
    }

    /**
     * `get_game_links`: open the home page and wait for it to settle; a
     * navigation that raises propagates (`None` here). Otherwise the links
     * found, or the empty list when the query raises.
     */
    method GetGameLinks(page: ListingPage) returns (links: Option<seq<GameLink>>)
      modifies this
      ensures page.NavigationFails? <==> links.None?
      ensures page.Loaded? ==> Discovered(page.query, links.value)
      ensures trace == old(trace) + [Navigate(Home)] + (if page.Loaded? then [Sleep(SettleSeconds)] else [])
    {
      trace := trace + [Navigate(Home)];
      if page.NavigationFails? {
        return None;
      }
      trace := trace + [Sleep(SettleSeconds)];
      var found := DiscoverLinks(page.query);
      links := Some(found);
    }

    /**
     * One pass through the `try` block of `extract_game_iframe` for a URL
     * that is not skipped: probe the session and restart it if it is dead,
     * navigate, wait, query the iframes, and save the record of the first
     * one with a source.
     */
    method RunAttempt(name: string, url: string, a: Attempt) returns (outcome: Outcome)
      requires Valid()
      modifies this, csv
      ensures Valid()
      ensures outcome == AttemptOutcome(name, url, a)
      ensures trace == old(trace) + AttemptEvents(url, a)
      ensures csv.rows == old(csv.rows) + (if outcome.Saved? then [RowOf(outcome.record)] else [])
      ensures csv.present == (old(csv.present) || outcome.Saved?)
    {
      trace := trace + [ProbeSession];
      if a.session.ProbeRaises? {
        return Raised;
      }
      if a.session.Dead? {
        trace := trace + [StartSession];
        if !a.session.relaunched {
          return Raised;
        }
      }
      trace := trace + [Navigate(url)];
      if a.page.NavigationFails? {
        return Raised;
      }
      trace := trace + [Sleep(SettleSeconds)];
      if a.page.QueryFails? {
        return Raised;
      }
      var sel := SelectFrame(a.page.frames, name, url, a.clock);
      match sel
      case Chosen(r) =>
        RowUnderHeader(r);
        csv.SaveToCsv(GameData(r));
        outcome := Saved(r);
      case NoSource =>
        outcome := NothingFound;
      case ReadFails =>
        outcome := Raised;
    }

    /**
     * `extract_game_iframe(name, url)`: up to three attempts, each after the
     * first preceded by the backoff wait; the call ends at the first attempt
     * that does not raise, and never raises itself.
     */
    method ExtractGameIframe(name: string, url: string, env: nat -> Attempt)
      requires Valid()
      modifies this, csv
      ensures Valid()
      ensures var e := Extract(name, url, env);
              && trace == old(trace) + e.events
              && csv.rows == old(csv.rows) + Rows(ToSeq(e.record))
              && csv.present == (old(csv.present) || e.record.Some?)
    {
      if IsRandom(url) {
        assert trace == old(trace) + Extract(name, url, env).events by {
          RandomSkipped(name, url, env);
        }
        return;
      }
      ghost var tries := Tries(name, url, env);
      for k := 0 to MaxRetries
        invariant Valid()
        invariant Failed(tries, k)
        invariant csv.rows == old(csv.rows) && csv.present == old(csv.present)
        invariant k < MaxRetries ==> trace == old(trace) + FailedPrefix(tries, k)
        invariant k == MaxRetries ==>
                    trace == old(trace) + FailedPrefix(tries, k - 1) + tries(k - 1).events
      {
        ghost var failed := FailedPrefix(tries, k);
        ghost var before := trace;
        var outcome := RunAttempt(name, url, env(k));
        ghost var current := tries(k).events;
        assert tries(k) == Perform(name, url, env(k));
        if !outcome.Raised? {
          assert trace == old(trace) + Extract(name, url, env).events
              && csv.rows == old(csv.rows) + Rows(ToSeq(Extract(name, url, env).record)) by {
            StopsAt(tries, k);
            AppendAssoc(old(trace), failed, current);
          }
          return;
        }
        if k < MaxRetries - 1 {
          trace := trace + [Sleep(BackoffSeconds)];
          assert trace == old(trace) + FailedPrefix(tries, k + 1) by {
            AppendAssoc(before, current, [Sleep(BackoffSeconds)]);
            AppendAssoc(failed, current, [Sleep(BackoffSeconds)]);
            AppendAssoc(old(trace), failed, current + [Sleep(BackoffSeconds)]);
          }
        }
      }
      assert trace == old(trace) + Extract(name, url, env).events && Extract(name, url, env).record == None by {
        GivesUp(tries);
        AppendAssoc(old(trace), FailedPrefix(tries, MaxRetries - 1), tries(MaxRetries - 1).events);
      }
    }

    /**
     * `process_all_games`: discover the links, then extract each game's
     * iframe in the order of the list, pausing after each. `completed` is
     * false when opening the home page raises, which ends the run.
     */
    method ProcessAllGames(page: ListingPage, world: nat -> nat -> Attempt) returns (completed: bool, ghost links: seq<GameLink>)
      requires Valid()
      modifies this, csv
      ensures Valid()
      ensures completed <==> page.Loaded?
      ensures !completed ==> trace == old(trace) + [Navigate(Home)] && csv.rows == old(csv.rows)
      ensures completed ==>
                && Discovered(page.query, links)
                && trace == old(trace) + [Navigate(Home), Sleep(SettleSeconds)] + RunEvents(links, world)
                && csv.rows == old(csv.rows) + Rows(RunRecords(links, world))
      ensures csv.present == (old(csv.present) || (completed && RunRecords(links, world) != []))
    {
      var found := GetGameLinks(page);
      if found.None? {
        return false, [];
      }
      var games := found.value;
      completed, links := true, games;
      ghost var start := trace;
      ghost var rows := csv.rows;
      assert start == old(trace) + [Navigate(Home), Sleep(SettleSeconds)] by {
        AppendAssoc(old(trace), [Navigate(Home)], [Sleep(SettleSeconds)]);
        assert [Navigate(Home)] + [Sleep(SettleSeconds)] == [Navigate(Home), Sleep(SettleSeconds)];
      }
      assert games[..0] == [];
      for i := 0 to |games|
        invariant Valid()
        invariant trace == start + RunEvents(games[..i], world)
        invariant csv.rows == rows + Rows(RunRecords(games[..i], world))
        invariant csv.present == (old(csv.present) || RunRecords(games[..i], world) != [])
      {
        ghost var e := Extract(games[i].text, games[i].href, world(i));
        ghost var before := trace;
        ExtractGameIframe(games[i].text, games[i].href, world(i));
        trace := trace + [Sleep(PauseSeconds)];
        assert trace == start + RunEvents(games[..i + 1], world) by {
          RunStep(games, world, i);
          AppendAssoc(before, e.events, [Sleep(PauseSeconds)]);
          AppendAssoc(start, RunEvents(games[..i], world), e.events + [Sleep(PauseSeconds)]);
        }
        assert csv.rows == rows + Rows(RunRecords(games[..i + 1], world)) by {
          RunStep(games, world, i);
          RowsAppend(RunRecords(games[..i], world), ToSeq(e.record));
          AppendAssoc(rows, Rows(RunRecords(games[..i], world)), Rows(ToSeq(e.record)));
        }
        assert csv.present == (old(csv.present) || RunRecords(games[..i + 1], world) != []) by {
          RunStep(games, world, i);
        }
      }
      assert games[..|games|] == games;
    }
  }
}

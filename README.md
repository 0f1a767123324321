# game_scraper in Dafny

A model of `GameScraper`, the Selenium scraper of `www.onlinegames.io`. It
discovers the game links on the home page, visits each game page, and appends
at most one CSV row per game. The row describes the page's first `iframe`
that has a source. A game gets no row when its URL contains "random", when
none of its iframes has a source, or when all three attempts raise.

The browser is an input to the model:

- the listing page: navigation raises, the anchor query raises, or the anchors
  in document order;
- for each attempt on a game page: whether the session answers, the probe
  raises, or the session is restarted; what the page load gives; and the
  clock reading.

The model states what the scraper does with those inputs: the CSV file it
leaves behind and the sequence of browser and clock requests it makes
(probes, session restarts, navigations, sleeps).

Modules:

- `Text`: the Python string operations the code uses — `strip`, `split`, `lower`, `in`, `<=` on strings, and `f"{n}"`.
- `Sequences`: filtering, collecting, and lists without repeats.
- `Links`: `get_game_links` after navigation. This covers the XPath query, the acceptance test of each anchor, the scan that skips anchors whose reads raise, `list(set(...))`, and the sort by text.
- `Frames`: the loop over a game page's iframes and the record it builds.
- `Store`: `init_csv`, `save_to_csv`, and the output file.
- `Retry`: `extract_game_iframe`. A specification function gives the outcome of the retry loop over three attempts, with lemmas about it.
- `Scraper`: the class `GameScraper`. Its methods change the output file and the request trace. `ExtractGameIframe` and `ProcessAllGames` are proved against the `Retry` and `Scraper` specification functions.

Three behaviours of the code that are easy to miss:

- `get_game_links` navigates to the home page outside its `try` block (`game_scraper/scraper.py:78`). A navigation failure therefore propagates out of `process_all_games` rather than giving an empty list. Only a failing query or scan gives `[]`. `GetGameLinks` returns `None` for that case, and `ProcessAllGames` reports the run as not completed.
- Inside `extract_game_iframe`, a failed session restart re-raises into the attempt's `except` (`game_scraper/scraper.py:149-151`, `:183-188`). It counts as a failed attempt and is retried. Only the launch in `__init__` is fatal.
- The retry loop also ends without a record when the page has iframes but none has a non-empty `src` (`game_scraper/scraper.py:159-181`), as well as when it has no iframe.

## Model

| member | source | states |
|---|---|---|
| Text.Strip | game_scraper/scraper.py:93 | definition of `str.strip(chars)`; meaning in Text.StripMeaning |
| Text.Split | game_scraper/scraper.py:102 | definition of `str.split(sep)`; meaning in Text.SplitJoin, Text.JoinSplit, Text.SplitCount |
| Text.Lower | game_scraper/scraper.py:99 | `str.lower()` character by character, ASCII letters only (see Left out) |
| Text.Contains | game_scraper/scraper.py:99 | definition of the substring test `in`; meaning in Text.ContainsAt |
| Text.StartsWith | game_scraper/scraper.py:98 | definition of `str.startswith` as the prefix relation |
| Text.TextLe | game_scraper/scraper.py:115 | definition of string `<=`, the sort key's order; a total order by Text.TextLeTotal, Text.TextLeTrans, Text.TextLeAntisym |
| Text.Decimal | game_scraper/scraper.py:170 | `f"{idx}"`: decimal digits, no leading zero; reads back by Text.DecimalRoundTrip |
| Links.XPathSelects | game_scraper/scraper.py:84-87 | definition of the XPath predicate: raw `href` contains `onlinegames.io/`, not under the sidebar `nav`, no `/t/`, not the home URL; used by Links.DiscoveredExactly |
| Links.Selected | game_scraper/scraper.py:84-87 | definition: the anchors the query returns, in document order |
| Links.IsExcluded | game_scraper/scraper.py:99 | definition of the excluded-segment test on the lower-cased href |
| Links.HasGameShape | game_scraper/scraper.py:102-103 | definition of the four-parts test; meaning in Links.GameShape |
| Links.Accepts | game_scraper/scraper.py:96-103 | definition of the acceptance test; guaranteed of every result by Links.CandidatesAccepted, Links.DiscoveredAccepted |
| Links.CandidateOf | game_scraper/scraper.py:90-111 | definition of one element's contribution: nothing when its read raises, else its (stripped text, href) when accepted; used by Links.DiscoveredExactly, Links.StaleSkipped |
| Links.Candidates | game_scraper/scraper.py:89-111 | definition of the scan's result; computed by Links.ScanAnchors |
| Links.Discovered | game_scraper/scraper.py:82-131 | what `get_game_links` returns once the home page loaded; established by Links.DiscoverLinks |
| Frames.IdOr | game_scraper/scraper.py:170 | definition of `get_attribute("id") or f"iframe_{idx}"`; meaning in Frames.DefaultIdIsPosition |
| Frames.ClassOr | game_scraper/scraper.py:171 | definition of `get_attribute("class") or "无class"` |
| Frames.MakeRecord | game_scraper/scraper.py:166-173 | definition of the record built for an iframe; fields stated by Frames.ChosenFields |
| Frames.SelectFrom | game_scraper/scraper.py:161-177 | definition of the iframe loop from a position on; meaning in Frames.PassOver, Frames.SelectMeaning |
| Frames.Select | game_scraper/scraper.py:159-177 | definition of the iframe loop; computed by Frames.SelectFrame, meaning in Frames.SelectMeaning |
| Store.GameData | game_scraper/scraper.py:166-173 | definition of the dict `game_data`; its row stated by Store.RowUnderHeader |
| Store.DictRow | game_scraper/scraper.py:72-73 | definition of the row `DictWriter.writerow` writes; meaning in Store.LookupAt, Store.RowUnderHeader |
| Retry.IsRandom | game_scraper/scraper.py:142 | definition of `'random' in url.lower()`; consequence in Retry.RandomSkipped |
| Retry.Usable | game_scraper/scraper.py:147-153 | definition: the attempt goes on to navigate after the probe |
| Retry.AttemptEvents | game_scraper/scraper.py:146-154 | definition of one attempt's events; produced by Scraper.GameScraper.RunAttempt, properties in Retry.BareProbeFailure, Retry.AllRaise |
| Retry.AttemptOutcome | game_scraper/scraper.py:146-184 | definition of how one attempt ends; produced by Scraper.GameScraper.RunAttempt, properties in Retry.BareProbeFailure, Retry.SavedIsFirstSourced |
| Retry.Retries | game_scraper/scraper.py:135-189 | definition of the retry loop from an attempt on; meaning in Retry.Unroll, Retry.StopsAt, Retry.GivesUp, Retry.AttemptsFrom, Retry.BackoffsFrom |
| Retry.Extract | game_scraper/scraper.py:133-189 | definition of one call of `extract_game_iframe`; followed by Scraper.GameScraper.ExtractGameIframe, meaning in Retry.AttemptsBounded, Retry.AllRaise, Retry.NothingFoundStops, Retry.SavedIsFirstSourced |
| Scraper.RunRecords | game_scraper/scraper.py:195-198 | definition of the records of a run; followed by Scraper.GameScraper.ProcessAllGames, meaning in Scraper.RecordsFollowLinks, Scraper.RecordsSorted, Scraper.RecordsQualified |
| Scraper.RunEvents | game_scraper/scraper.py:195-198 | definition of the events of a run; followed by Scraper.GameScraper.ProcessAllGames, meaning in Scraper.PauseAfterEachLink |
| Text.StripMeaning | game_scraper/scraper.py:93 | `strip` keeps a slice of the string with only stripped characters around it, and neither end of the result is a stripped character |
| Text.TrimLeft | game_scraper/scraper.py:102 | `lstrip` drops a prefix made only of the given characters, and the result does not start with one |
| Text.TrimRight | game_scraper/scraper.py:102 | `rstrip` drops a suffix made only of the given characters, and the result does not end with one |
| Text.SplitJoin | game_scraper/scraper.py:102 | joining the parts of `split` with the separator gives back the string |
| Text.JoinSplit | game_scraper/scraper.py:102 | splitting a join of separator-free parts gives back the parts |
| Text.SplitCount | game_scraper/scraper.py:102-103 | `split` yields one more part than there are separators, and no part contains the separator |
| Text.ContainsAt | game_scraper/scraper.py:99 | the `in` test on strings holds exactly when the substring occurs at some position |
| Text.TextLeTotal | game_scraper/scraper.py:115 | string comparison, the sort key's order, is total |
| Text.TextLeTrans | game_scraper/scraper.py:115 | string comparison is transitive |
| Text.TextLeAntisym | game_scraper/scraper.py:115 | two strings each at most the other are equal |
| Text.DecimalRoundTrip | game_scraper/scraper.py:170 | the decimal text of an index reads back as that index |
| Sequences.CollectExact | game_scraper/scraper.py:89-111 | the scan's result holds a value exactly when some element yields it |
| Sequences.CollectAppend | game_scraper/scraper.py:89-111 | scanning a concatenation concatenates the scans |
| Sequences.DistinctPermutation | game_scraper/scraper.py:114-115 | a reordering (same multiset) of a list without repeats has no repeats either |
| Links.ScanAnchors | game_scraper/scraper.py:89-111 | the scan loop builds exactly the candidate list: for each selected element in order, its (stripped text, href) when it passes the acceptance test |
| Links.CandidatesAccepted | game_scraper/scraper.py:96-105 | every collected pair has a non-empty href on the site, a non-empty stripped text, no excluded segment in the lower-cased href, and four parts once stripped of `/` and split |
| Links.StaleSkipped | game_scraper/scraper.py:109-111 | an element whose read raises is skipped alone: the scan of the elements around it is unchanged |
| Links.DiscoveredExactly | game_scraper/scraper.py:84-111 | a link is found exactly when some anchor the XPath selects yields it |
| Links.Dedup | game_scraper/scraper.py:114 | `list(set(games))` has no repeats and the same members as `games` |
| Links.SortByText | game_scraper/scraper.py:115 | sorting leaves the array ordered by text and a permutation of what it held |
| Links.InsertIntoSorted | game_scraper/scraper.py:115 | one insertion step extends the sorted prefix by one, permutes the array, and leaves the elements after position `i` untouched |
| Links.DiscoverLinks | game_scraper/scraper.py:82-131 | a failing query gives `[]`; otherwise the result has no repeats, is sorted by text, and holds exactly the links of selected, accepted anchors |
| Links.DiscoveredAccepted | game_scraper/scraper.py:96-105 | every returned link passes the acceptance test |
| Links.SortedUnique | game_scraper/scraper.py:114-115 | when no two links share a text, the result does not depend on the order the set yields |
| Links.SortedFirstLeast | game_scraper/scraper.py:115 | the first link of a sorted list has the least text |
| Links.GameShape | game_scraper/scraper.py:101-103 | an href on the site has four parts exactly when, after the home URL and without trailing slashes, it is one non-empty segment with no `/` |
| Links.HomeRejected | game_scraper/scraper.py:86 | the home URL itself never passes the acceptance test |
| Frames.SelectFrame | game_scraper/scraper.py:159-177 | the iframe loop stops at the first read that raises or at the first non-empty `src`, with the record built from that iframe |
| Frames.SelectMeaning | game_scraper/scraper.py:159-177 | the loop yields the record of the first iframe with a non-empty source; no record when every iframe, possibly none, lacks one; a raised read otherwise |
| Frames.ChosenFields | game_scraper/scraper.py:166-173 | a record names the game and page of the call, carries the clock reading, and has a non-empty `src` |
| Frames.DefaultIdIsPosition | game_scraper/scraper.py:161-170 | a chosen iframe without an id is recorded under `iframe_` followed by digits that read back as its position among all the page's iframes, skipped ones included |
| Frames.PassOver | game_scraper/scraper.py:161-164 | skipping iframes without a source leaves the outcome to the iframes after them |
| Store.RowUnderHeader | game_scraper/scraper.py:59-73 | the record dict's keys are the header, in order, so each cell of a saved row sits under the column naming its field |
| Store.LookupAt | game_scraper/scraper.py:72-73 | `DictWriter` finds each key's own value in the dict |
| Store.CsvFile.InitCsv | game_scraper/scraper.py:55-67 | a missing file is created holding the header only; an existing file is left unchanged; a failing creation is not modelled (see Left out) |
| Store.CsvFile.SaveToCsv | game_scraper/scraper.py:69-73 | one row is appended, creating the file if it is missing, with cells in the order of the dict's keys |
| Store.FreshStore | game_scraper/scraper.py:55-73 | from a missing file, the header followed by one row per saved record, in order |
| Retry.BareProbeFailure | game_scraper/scraper.py:147-151 | a probe raising an error other than a WebDriver one ends the attempt as raised, after the probe alone: no restart, no navigation |
| Retry.UnrollStep | game_scraper/scraper.py:183-188 | one more failed attempt adds its events and the backoff wait before the rest of the loop |
| Retry.Unroll | game_scraper/scraper.py:136-188 | after `k` failed attempts the loop continues as the loop from attempt `k`, after the events of the failed attempts and their backoff waits |
| Retry.AttemptsFrom | game_scraper/scraper.py:135-136 | the loop from attempt `k` makes more than `k` attempts and at most three |
| Retry.StopsAt | game_scraper/scraper.py:175-181 | the first attempt that does not raise ends the loop, with its record if it saved one |
| Retry.GivesUp | game_scraper/scraper.py:183-189 | when all three attempts raise, the loop saves nothing and has no wait after the last attempt |
| Retry.SavedFrom | game_scraper/scraper.py:175-177 | a record comes from the last attempt, which saved it |
| Retry.BackoffsFrom | game_scraper/scraper.py:185-188 | the backoff wait occurs once between consecutive attempts |
| Retry.AbsentFrom | game_scraper/scraper.py:136-188 | an event that no attempt yields, other than the backoff wait, never occurs in the loop |
| Retry.RaisedBeforeFailed | game_scraper/scraper.py:183-188 | every earlier attempt raising is the same as the loop's failure condition |
| Retry.AttemptsBounded | game_scraper/scraper.py:135-189 | between one and three attempts, each but the last one having raised |
| Retry.RandomSkipped | game_scraper/scraper.py:141-144 | a URL containing "random" in any case saves nothing, with no probe, navigation or sleep |
| Retry.NothingFoundStops | game_scraper/scraper.py:159-181 | an attempt that finds no iframe with a source ends the call with no record and no further attempt |
| Retry.NoIframeNoRetry | game_scraper/scraper.py:178-181 | a page with no iframe gives no record after a single attempt |
| Retry.AllRaise | game_scraper/scraper.py:183-189 | when every attempt raises: exactly three attempts, no record, the backoff wait only between attempts, and a normal return |
| Retry.SavedIsFirstSourced | game_scraper/scraper.py:159-177 | a saved record is the first iframe with a source on the page of the attempt that saved it, after failed attempts only |
| Retry.SavedFields | game_scraper/scraper.py:166-168 | a saved record names the game and page of the call, which is not a "random" page |
| Retry.BackoffBetweenAttempts | game_scraper/scraper.py:183-188 | a call waits the backoff delay exactly once fewer times than it makes attempts |
| Retry.NoPause | game_scraper/scraper.py:133-189 | a call never waits the pause between games |
| Scraper.RunStep | game_scraper/scraper.py:195-198 | one more link adds that link's extraction and pause to the run |
| Scraper.RecordsFollowLinks | game_scraper/scraper.py:195-198 | a run saves no more records than there are links; each record names the text and href of one of the links, and none comes from a "random" page (the one-record-per-link step is Scraper.RunStep and Scraper.RunRecordsLast) |
| Scraper.RunRecordsLast | game_scraper/scraper.py:195-198 | the last link of a run adds at most one record, named after that link, after the records of the earlier links |
| Scraper.RecordsSorted | game_scraper/scraper.py:193-198 | over links sorted by text, the saved records are sorted by game name |
| Scraper.PauseAfterEachLink | game_scraper/scraper.py:195-198 | a run waits the pause exactly once per link |
| Scraper.RecordsQualified | game_scraper/scraper.py:193-198 | every record of a completed run is about a link the discovery accepted |
| Scraper.GameScraper.constructor | game_scraper/scraper.py:16-20 | the session is started, then `init_csv` creates the file with its header unless it exists; a failing launch or file creation is not modelled (see Left out) |
| Scraper.GameScraper.GetGameLinks | game_scraper/scraper.py:75-131 | navigation that raises propagates; otherwise a settle wait and the discovered links |
| Scraper.GameScraper.RunAttempt | game_scraper/scraper.py:137-184 | one attempt probes (a probe raising a non-WebDriver error ends it), restarts a session the probe found dead, navigates, waits, queries, and saves the first sourced iframe; its outcome, trace and file change are those of the attempt specification |
| Scraper.GameScraper.ExtractGameIframe | game_scraper/scraper.py:133-189 | the retry loop appends the events of the extraction specification to the trace, and appends one row exactly when that specification saves a record |
| Scraper.GameScraper.ProcessAllGames | game_scraper/scraper.py:191-198 | a completed run has discovered the links and, in their order, appends each link's extraction events and pause, and its records' rows; the file exists afterwards exactly when it existed before or a record was saved, so an existing file never disappears |

## Left out

- `setup_driver`'s Chrome options and driver path (`game_scraper/scraper.py:22-53`): the model records a restart as one `StartSession` event. Quitting the old driver before launching a new one is part of that event.
- Scraper.GameScraper.constructor: only a successful construction is modelled. `__init__` (`game_scraper/scraper.py:16-20`) can fail in two ways. The browser launch can raise, before the CSV file is touched. Or `init_csv` can raise after the launch. Either exception leaves `__init__`. `main` builds the scraper outside its `try` (`game_scraper/scraper.py:207`), so the program then ends before any navigation.
- Store.CsvFile.InitCsv: creating the file never fails in the model. In the source, `open(self.csv_file, 'w', ...)` (`game_scraper/scraper.py:58`) can raise, for example in a directory the user cannot write to. The exception leaves `__init__` and ends the program, as the constructor line above says.
- `cleanup` and `main` (`game_scraper/scraper.py:200-215`): they only tear down the driver and start the event loop; they change no state the model tracks.
- Logging through `print`: the model assumes every `print` succeeds, and then it has no effect on the file or the browser. A `print` can raise when the console encoding cannot represent its text. The messages at `game_scraper/scraper.py:176`, `:179` and `:184` contain ✓ (U+2713), ⚠ (U+26A0) and ✗ (U+2717), which GBK, for example, cannot encode. On such an output, a `print` inside the attempt's `try` raises like any other failure and is caught at `:183`. The `print` at `:184` then raises again inside the `except`. That exception leaves `extract_game_iframe` and `process_all_games`, and the run ends. With `:176` this happens after `:175` has already saved the row. The model does not capture this ending.
- The asynchronous machinery: each `asyncio.sleep` is recorded as a `Sleep` event and no time passes. The program runs strictly in sequence, so nothing else is lost.
- `datetime.now().strftime(...)`: the clock reading of each attempt is an input string.
- The `csv` module's quoting, newline and UTF-8 encoding: a row is the list of its cell values.
- Store.CsvFile.SaveToCsv: the write never fails in the model. In the source an I/O error raises inside the attempt and is retried like any other failure.
- Text.Lower: maps only the ASCII letters and keeps the length. Python also lower-cases other letters, and can lengthen the string. Only two non-ASCII characters give ASCII output: the Kelvin sign U+212A becomes `k`, and U+0130 becomes `i` followed by U+0307. Neither changes the tests the code makes on lower-cased text (`random` and the excluded segments at `game_scraper/scraper.py:99` and `:142`). No tested string contains `k`. Every `i` in a tested string (only in `/privacy-policy/`) is followed by a letter, never by U+0307. The substring test `in` does not depend on the lengths matching.
- XPath evaluation: the query is a predicate on each anchor's raw `href` attribute and an input flag for lying under `nav[@class='sidebar']`. The document tree is not modelled.
- Links.DiscoverLinks: the order among links with equal text is left open. Python's `list(set(...))` yields hash order, which the stable sort keeps among equal keys. `Links.SortedUnique` shows that the result is fixed when texts are unique.
- Reads of an element's `href` or text that raise during the scan are one case, `Stale`, since the scan skips the element either way. Likewise, an iframe whose attribute read raises is `Detached`.
- Retry.Extract: the "random" test is made once before the loop; the source repeats it at the top of each attempt. The URL does not change and the test is the first thing an attempt does, so only the first attempt can stop there.
- The browser's state across attempts and games: each attempt's session state is an input. So the model does not force the sequence the source produces once a restart fails. In that sequence, `setup_driver` has already quit the old driver (`game_scraper/scraper.py:44`), so every later probe raises a non-WebDriver error (`ProbeRaises`), is not restarted, and saves nothing. The model allows that sequence but also allows later attempts to find the session alive.
- The unused imports (`requests`, `zipfile`, `BytesIO`, `time`) have no behaviour to model.

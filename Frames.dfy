/**
 * Choosing the game's iframe on a detail page (the inner loop of
 * `GameScraper.extract_game_iframe`): the first iframe, in document order,
 * whose `src` is non-empty gives the one record of the page, with a default
 * id and class where the element has none.
 */
module Frames {
  import opened Wrappers
  import opened Text

  /** The id given to an iframe without one is this prefix and the iframe's position. */
  const IdPrefix: string := "iframe_"

  /** The class recorded for an iframe without one. */
  const NoClass: string := "\U{65E0}class"

  /**
   * An `iframe` element as `get_attribute` reads it: each attribute is a
   * string or `None` when absent. `Detached` when reading it raises.
   */
  datatype FrameElem = Frame(src: Option<string>, id: Option<string>, cls: Option<string>) | Detached

  /** One row of the output file, field by field (the dict `game_data`). */
  datatype FrameRecord = FrameRecord(
    gameName: string,
    gameUrl: string,
    iframeSrc: string,
    iframeId: string,
    iframeClass: string,
    timestamp: string)

  /** How the iframe loop ends: a record was built, no iframe had a source, or a read raised. */
  datatype Selection = Chosen(record: FrameRecord) | NoSource | ReadFails

  /** Python truthiness of an attribute read: present and non-empty. */
  predicate Truthy(o: Option<string>) {
    o.Some? && o.value != ""
  }

  /** `iframe.get_attribute("id") or f"iframe_{idx}"`. */
  function IdOr(id: Option<string>, idx: nat): string {
    if Truthy(id) then id.value else IdPrefix + Decimal(idx)
  }

  /** `iframe.get_attribute("class") or "无class"`. */
  function ClassOr(cls: Option<string>): string {
    if Truthy(cls) then cls.value else NoClass
  }

  /** The record built for the iframe at position `idx` of the page. */
  function MakeRecord(name: string, url: string, f: FrameElem, idx: nat, clock: string): FrameRecord
    requires f.Frame? && Truthy(f.src)
  {
    FrameRecord(name, url, f.src.value, IdOr(f.id, idx), ClassOr(f.cls), clock)
  }

  /** Every iframe at a position in `[from, to)` was read and has no source: the loop passed over it. */
  predicate PassedOver(frames: seq<FrameElem>, from: nat, to: nat) {
    forall j :: from <= j < to && j < |frames| ==> frames[j].Frame? && !Truthy(frames[j].src)
  }

  /** The iframe at `i` is the first one with a source, every iframe before it having been read. */
  predicate FirstSourced(frames: seq<FrameElem>, i: nat) {
    i < |frames| && PassedOver(frames, 0, i) && frames[i].Frame? && Truthy(frames[i].src)
  }

  /** The iframe at `i` is the first one whose read raises, every iframe before it having no source. */
  predicate FirstDetached(frames: seq<FrameElem>, i: nat) {
    i < |frames| && PassedOver(frames, 0, i) && frames[i].Detached?
  }

  /** The iframe loop from position `from` on. */
  function SelectFrom(frames: seq<FrameElem>, from: nat, name: string, url: string, clock: string): Selection
    decreases |frames| - from
  {
    if from >= |frames| then NoSource
    else match frames[from]
      case Detached => ReadFails
      case Frame(src, _, _) =>
        if Truthy(src) then Chosen(MakeRecord(name, url, frames[from], from, clock))
        else SelectFrom(frames, from + 1, name, url, clock)
  }

  /** The iframe loop over all the iframes of a page. */
  function Select(frames: seq<FrameElem>, name: string, url: string, clock: string): Selection {
    SelectFrom(frames, 0, name, url, clock)
  }

  /** The loop over the page's iframes: stop at the first read that raises or the first non-empty `src`. */
  method SelectFrame(frames: seq<FrameElem>, name: string, url: string, clock: string) returns (sel: Selection)
    ensures sel == Select(frames, name, url, clock)
  {
    for idx := 0 to |frames|
      invariant Select(frames, name, url, clock) == SelectFrom(frames, idx, name, url, clock)
    {
      if frames[idx].Detached? {
        return ReadFails;
      }
      var src := frames[idx].src;
      if !Truthy(src) {
        continue;
      }
      var id := IdOr(frames[idx].id, idx);
      var cls := ClassOr(frames[idx].cls);
      return Chosen(FrameRecord(name, url, src.value, id, cls, clock));
    }
    return NoSource;
  }

  /** Passing over the iframes in `[from, i)` leaves the loop's outcome to the iframes from `i` on. */
  lemma {:induction false} PassOver(frames: seq<FrameElem>, from: nat, i: nat, name: string, url: string, clock: string)
    requires from <= i <= |frames| && PassedOver(frames, from, i)
    ensures SelectFrom(frames, from, name, url, clock) == SelectFrom(frames, i, name, url, clock)
    decreases i - from
  {
    if from < i {
      PassOver(frames, from + 1, i, name, url, clock);
    }
  }

  /** The loop stops at the first position it does not pass over, or runs off the end. */
  lemma {:induction false} FirstStop(frames: seq<FrameElem>, from: nat)
    requires from <= |frames| && PassedOver(frames, 0, from)
    ensures PassedOver(frames, 0, |frames|)
         || (exists i :: FirstSourced(frames, i))
         || (exists i :: FirstDetached(frames, i))
    decreases |frames| - from
  {
    if from < |frames| {
      if frames[from].Detached? {
        assert FirstDetached(frames, from);
      } else if Truthy(frames[from].src) {
        assert FirstSourced(frames, from);
      } else {
        FirstStop(frames, from + 1);
      }
    }
  }

  /**
   * What the iframe loop yields: the record of the first iframe with a
   * non-empty source, provided every earlier iframe could be read; no record
   * when every iframe is read and has an empty or absent source (in
   * particular when there is no iframe); and a raised read otherwise.
   */
  lemma SelectMeaning(frames: seq<FrameElem>, name: string, url: string, clock: string)
    ensures forall i: nat :: FirstSourced(frames, i) ==>
              Select(frames, name, url, clock) == Chosen(MakeRecord(name, url, frames[i], i, clock))
    ensures Select(frames, name, url, clock).Chosen? <==> exists i :: FirstSourced(frames, i)
    ensures Select(frames, name, url, clock) == NoSource <==> PassedOver(frames, 0, |frames|)
    ensures Select(frames, name, url, clock) == ReadFails <==> exists i :: FirstDetached(frames, i)
  {
    forall i: nat | FirstSourced(frames, i)
      ensures Select(frames, name, url, clock) == Chosen(MakeRecord(name, url, frames[i], i, clock))
    {
      PassOver(frames, 0, i, name, url, clock);
    }
    forall i: nat | FirstDetached(frames, i)
      ensures Select(frames, name, url, clock) == ReadFails
    {
      PassOver(frames, 0, i, name, url, clock);
    }
    if PassedOver(frames, 0, |frames|) {
      PassOver(frames, 0, |frames|, name, url, clock);
    }
    FirstStop(frames, 0);
  }

  /** A record is only ever about the page it was built for, and its `src` is non-empty. */
  lemma ChosenFields(frames: seq<FrameElem>, name: string, url: string, clock: string)
    requires Select(frames, name, url, clock).Chosen?
    ensures var r := Select(frames, name, url, clock).record;
            r.gameName == name && r.gameUrl == url && r.timestamp == clock && r.iframeSrc != ""
  {
    SelectMeaning(frames, name, url, clock);
  }

  /**
   * An iframe chosen without an id of its own is recorded under an id that
   * reads back as its position among all the page's iframes, the skipped
   * ones included.
   */
  lemma DefaultIdIsPosition(frames: seq<FrameElem>, name: string, url: string, clock: string, i: nat)
    requires FirstSourced(frames, i) && !Truthy(frames[i].id)
    ensures Select(frames, name, url, clock).Chosen?
    ensures var id := Select(frames, name, url, clock).record.iframeId;
            && IdPrefix <= id
            && (forall k :: |IdPrefix| <= k < |id| ==> '0' <= id[k] <= '9')
            && ParseDecimal(id[|IdPrefix|..]) == i
  {
    SelectMeaning(frames, name, url, clock);
    var id := Select(frames, name, url, clock).record.iframeId;
    assert id == IdPrefix + Decimal(i);
    assert id[|IdPrefix|..] == Decimal(i);
    DecimalRoundTrip(i);
  }
}

/**
 * The output file `games_data.csv` as a sequence of rows of strings
 * (`GameScraper.init_csv` and `GameScraper.save_to_csv`). The header row is
 * written from one list of field names; each data row is written by a
 * `DictWriter` whose field names are the keys of the record's dict, in
 * insertion order. The quoting and encoding done by the `csv` module are not
 * modelled: a row is the list of its cell values.
 */
module Store {
  import opened Frames

  type Row = seq<string>

  /** A Python dict as its items in insertion order; its keys are distinct. */
  type Dict = seq<(string, string)>

  /** The field names `init_csv` writes as the header, in this order. */
  const Header: Row := ["game_name", "game_url", "iframe_src", "iframe_id", "iframe_class", "timestamp"]

  /** The dict `game_data` that `extract_game_iframe` builds for a record. */
  function GameData(r: FrameRecord): Dict {
    [ ("game_name", r.gameName),
      ("game_url", r.gameUrl),
      ("iframe_src", r.iframeSrc),
      ("iframe_id", r.iframeId),
      ("iframe_class", r.iframeClass),
      ("timestamp", r.timestamp) ]
  }

  /** `d.keys()`, in insertion order. */
  function Keys(d: Dict): seq<string> {
    seq(|d|, k requires 0 <= k < |d| => d[k].0)
  }

  /** `d[key]`, or the empty string `DictWriter` writes for a field the dict lacks. */
  function Lookup(d: Dict, key: string): string {
    if |d| == 0 then ""
    else if d[0].0 == key then d[0].1
    else Lookup(d[1..], key)
  }

  /** The row `DictWriter(f, fieldnames).writerow(d)` writes: the value of each field name, in order. */
  function DictRow(fieldnames: seq<string>, d: Dict): Row {
    seq(|fieldnames|, k requires 0 <= k < |fieldnames| => Lookup(d, fieldnames[k]))
  }

  /** A record's row with one cell per header column. */
  function RowOf(r: FrameRecord): Row {
    [r.gameName, r.gameUrl, r.iframeSrc, r.iframeId, r.iframeClass, r.timestamp]
  }

  /**
   * `save_to_csv` writes with the record dict's own keys as field names; those
   * keys are the header `init_csv` wrote, in the same order, so every cell of
   * a data row sits under the header column that names its field.
   */
  lemma RowUnderHeader(r: FrameRecord)
    ensures Keys(GameData(r)) == Header
    ensures DictRow(Keys(GameData(r)), GameData(r)) == RowOf(r)
    ensures |RowOf(r)| == |Header|
  {
    var d := GameData(r);
    assert Keys(d) == Header;
    HeaderDistinct();
    forall k | 0 <= k < |Header| ensures Lookup(d, Header[k]) == RowOf(r)[k] {
      LookupAt(d, k);
    }
  }

  lemma HeaderDistinct()
    ensures forall i, j :: 0 <= i < j < |Header| ==> Header[i] != Header[j]
  {
  }

  /** With no earlier item under the same key, looking a key up finds its own item. */
  lemma {:induction false} LookupAt(d: Dict, i: nat)
    requires i < |d| && forall j :: 0 <= j < i ==> d[j].0 != d[i].0
    ensures Lookup(d, d[i].0) == d[i].1
  {
    if i > 0 {
      LookupAt(d[1..], i - 1);
    }
  }

  /** The file on disk: whether it exists, and its rows. */
  class CsvFile {
    var present: bool
    var rows: seq<Row>

    /** A file that does not exist has no rows. */
    ghost predicate Valid()
      reads this
    {
      !present ==> rows == []
    }

    /** The file as found when the program starts. */
    constructor (present: bool, rows: seq<Row>)
      requires !present ==> rows == []
      ensures Valid() && this.present == present && this.rows == rows
    {
      this.present := present;
      this.rows := rows;
    }

    /** `init_csv`: a missing file is created holding the header row only; an existing file is left alone. */
    method InitCsv()
      requires Valid()
      modifies this
      ensures Valid() && present
      ensures rows == if old(present) then old(rows) else [Header]
    {
      if !present {
        present := true;
        rows := [Header];
      }
    }

    /**
     * `save_to_csv`: opening in append mode creates the file if it is
     * missing, then one row is written at the end, its cells taken from the
     * dict in the order of the dict's own keys.
     */
    method SaveToCsv(data: Dict)
      requires Valid()
      modifies this
      ensures Valid() && present
      ensures rows == old(rows) + [DictRow(Keys(data), data)]
    {
      present := true;
      rows := rows + [DictRow(Keys(data), data)];
    }
  }

  /**
   * Starting from a missing file, `init_csv` followed by one `save_to_csv`
   * per record leaves the header and then one row per record, in the order
   * they were saved, each row's cells in header order.
   */
  method FreshStore(records: seq<FrameRecord>) returns (rows: seq<Row>)
    ensures |rows| == |records| + 1
    ensures rows[0] == Header
    ensures forall k :: 0 <= k < |records| ==> rows[k + 1] == RowOf(records[k])
  {
    var file := new CsvFile(false, []);
    file.InitCsv();
    for i := 0 to |records|
      invariant file.Valid()
      invariant |file.rows| == i + 1 && file.rows[0] == Header
      invariant forall k :: 0 <= k < i ==> file.rows[k + 1] == RowOf(records[k])
    {
      RowUnderHeader(records[i]);
      file.SaveToCsv(GameData(records[i]));
    }
    rows := file.rows;
  }
}

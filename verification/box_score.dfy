/**
 * The box-score scraper. A fetched page is modelled as the sequence of its
 * `<table>` elements, each given by its text content and the stripped text
 * of the `<td>` cells of each of its `<tr>` rows. A table takes part when
 * its text contains the at-bats marker "AB"; its first (header) and last
 * (totals) rows are skipped, and every other row with at least eleven cells
 * yields one record, read at fixed cell positions.
 */
module BoxScore {
  import opened Wrappers
  import opened Text
  import GameId

  /** The stripped texts of one row's `<td>` cells, in document order. */
  type Row = seq<string>

  /** One `<table>` element: its full text and its rows. */
  datatype Table = Table(text: string, rows: seq<Row>)

  /** A fetched box-score page: the url it came from and its tables, in document order. */
  datatype Page = Page(url: string, tables: seq<Table>)

  /** One batting line of one player in one game; statistics stay strings, as scraped. */
  datatype GameRecord = GameRecord(gameId: string, player: string, ab: string, r: string, h: string, hr: string, rbi: string)

  /** The text that marks a batting table. */
  const Marker: string := "AB"

  /** The fewest cells a player row has. */
  const MinCells: nat := 11

  /** Cell positions of the extracted fields. */
  const PlayerCell: nat := 1
  const RunsCell: nat := 3
  const AtBatsCell: nat := 4
  const HitsCell: nat := 5
  const HomeRunsCell: nat := 9
  const RbiCell: nat := 10

  /** Python's `rows[1:-1]`: everything but the first and the last row. */
  function BodyRows(rows: seq<Row>): (body: seq<Row>)
    ensures |rows| <= 2 ==> body == []
    ensures |rows| > 2 ==> |body| == |rows| - 2
    ensures forall k :: 0 <= k < |body| ==> body[k] == rows[k + 1]
  {
    if |rows| <= 2 then [] else rows[1..|rows| - 1]
  }

  /** The record a row yields, if it is a player row. */
  function ExtractRow(gameId: string, row: Row): (rec: Option<GameRecord>)
    ensures rec.Some? <==> |row| >= MinCells
    ensures rec.Some? ==>
      (rec.value.gameId == gameId && rec.value.player == row[PlayerCell] &&
       rec.value.ab == row[AtBatsCell] && rec.value.r == row[RunsCell] && rec.value.h == row[HitsCell] &&
       rec.value.hr == row[HomeRunsCell] && rec.value.rbi == row[RbiCell])
  {
    if |row| >= MinCells then
      Some(GameRecord(gameId, row[PlayerCell], row[AtBatsCell], row[RunsCell], row[HitsCell], row[HomeRunsCell], row[RbiCell]))
    else None
  }

  /** The records one row yields: one for a player row, none otherwise. */
  function RowRecords(gameId: string, row: Row): seq<GameRecord> {
    match ExtractRow(gameId, row)
    case Some(rec) => [rec]
    case None => []
  }

  /** The records of a run of rows, in row order. */
  function RowsRecords(gameId: string, rows: seq<Row>): seq<GameRecord> {
    if rows == [] then [] else RowRecords(gameId, rows[0]) + RowsRecords(gameId, rows[1..])
  }

  /** Whether a table takes part: its text contains the marker. */
  predicate IsBattingTable(t: Table) {
    Contains(t.text, Marker)
  }

  /** The records one table contributes; a table that is not a batting table, or has no row between its first and last, contributes none. */
  function TableRecords(gameId: string, t: Table): (recs: seq<GameRecord>)
    ensures !IsBattingTable(t) || |t.rows| <= 2 ==> recs == []
  {
    if IsBattingTable(t) then RowsRecords(gameId, BodyRows(t.rows)) else []
  }

  /** The records of a page's tables, in table order. */
  function PageRecords(gameId: string, tables: seq<Table>): seq<GameRecord> {
    if tables == [] then [] else TableRecords(gameId, tables[0]) + PageRecords(gameId, tables[1..])
  }

  /** What scraping one page yields: its records, or the failure to find its game id. */
  function ScrapePage(page: Page): Result<seq<GameRecord>, GameId.ScrapeError> {
    match GameId.Extract(page.url)
    case Err(e) => Err(e)
    case Ok(gameId) => Ok(PageRecords(gameId, page.tables))
  }

  /** `scrape_game_box_score`: the game id from the url, then the records of every batting table. */
  method ScrapeGameBoxScore(url: string, tables: seq<Table>) returns (result: Result<seq<GameRecord>, GameId.ScrapeError>)
    ensures result == ScrapePage(Page(url, tables))
  {
    var playerData: seq<GameRecord> := [];
    var found := GameId.Extract(url);
    if found.Err? {
      return Err(found.error);
    }
    var gameId := found.value;
    for i := 0 to |tables|
      invariant playerData == PageRecords(gameId, tables[..i])
    {
      var table := tables[i];
      ghost var before := playerData;
      if Contains(table.text, Marker) {
        var rows := BodyRows(table.rows);
        for j := 0 to |rows|
          invariant playerData == before + RowsRecords(gameId, rows[..j])
        {
          var cols := rows[j];
          ghost var mid := playerData;
          if |cols| >= MinCells {
            playerData := playerData + [GameRecord(gameId, cols[PlayerCell], cols[AtBatsCell], cols[RunsCell],
                                                   cols[HitsCell], cols[HomeRunsCell], cols[RbiCell])];
          }
          assert playerData == mid + RowRecords(gameId, cols);
          TakeOneMore(rows, j);
          RowsRecordsSnoc(gameId, rows[..j], cols);
        }
        TakeAll(rows);
      }
      assert playerData == before + TableRecords(gameId, table);
      TakeOneMore(tables, i);
      PageRecordsSnoc(gameId, tables[..i], table);
    }
    TakeAll(tables);
    return Ok(playerData);
  }

  lemma TakeOneMore<T>(s: seq<T>, n: nat)
    requires n < |s|
    ensures s[..n + 1] == s[..n] + [s[n]]
  {
  }

  lemma TakeAll<T>(s: seq<T>)
    ensures s[..|s|] == s
  {
  }

  /** Row records of two consecutive runs of rows are the records of each, in order. */
  lemma {:induction false} RowsRecordsAppend(gameId: string, a: seq<Row>, b: seq<Row>)
    ensures RowsRecords(gameId, a + b) == RowsRecords(gameId, a) + RowsRecords(gameId, b)
    decreases |a|
  {
    if a == [] {
      assert a + b == b;
    } else {
      assert (a + b)[1..] == a[1..] + b;
      RowsRecordsAppend(gameId, a[1..], b);
    }
  }

  /** Page records of two consecutive runs of tables are the records of each, in order. */
  lemma {:induction false} PageRecordsAppend(gameId: string, a: seq<Table>, b: seq<Table>)
    ensures PageRecords(gameId, a + b) == PageRecords(gameId, a) + PageRecords(gameId, b)
    decreases |a|
  {
    if a == [] {
      assert a + b == b;
    } else {
      assert (a + b)[1..] == a[1..] + b;
      PageRecordsAppend(gameId, a[1..], b);
    }
  }

  /** Records of a run of rows followed by one more row. */
  lemma RowsRecordsSnoc(gameId: string, rows: seq<Row>, row: Row)
    ensures RowsRecords(gameId, rows + [row]) == RowsRecords(gameId, rows) + RowRecords(gameId, row)
  {
    RowsRecordsAppend(gameId, rows, [row]);
    assert RowsRecords(gameId, [row]) == RowRecords(gameId, row) + RowsRecords(gameId, []);
  }

  /** Records of a run of tables followed by one more table. */
  lemma PageRecordsSnoc(gameId: string, tables: seq<Table>, t: Table)
    ensures PageRecords(gameId, tables + [t]) == PageRecords(gameId, tables) + TableRecords(gameId, t)
  {
    PageRecordsAppend(gameId, tables, [t]);
    assert PageRecords(gameId, [t]) == TableRecords(gameId, t) + PageRecords(gameId, []);
  }

  /** A table without the marker contributes nothing wherever it stands among the others. */
  lemma NonBattingTableIgnored(gameId: string, before: seq<Table>, t: Table, after: seq<Table>)
    requires !IsBattingTable(t)
    ensures PageRecords(gameId, before + [t] + after) == PageRecords(gameId, before + after)
  {
    ConsTail([t] + after, t, after);
    assert PageRecords(gameId, [t] + after) == PageRecords(gameId, after);
    Reassociate(before, [t], after);
    PageRecordsAppend(gameId, before, [t] + after);
    PageRecordsAppend(gameId, before, after);
  }

  /** A row with fewer than eleven cells yields nothing wherever it stands among the others. */
  lemma ShortRowIgnored(gameId: string, before: seq<Row>, row: Row, after: seq<Row>)
    requires |row| < MinCells
    ensures RowsRecords(gameId, before + [row] + after) == RowsRecords(gameId, before + after)
  {
    ConsTail([row] + after, row, after);
    assert RowsRecords(gameId, [row] + after) == RowsRecords(gameId, after);
    Reassociate(before, [row], after);
    RowsRecordsAppend(gameId, before, [row] + after);
    RowsRecordsAppend(gameId, before, after);
  }

  lemma ConsTail<T>(s: seq<T>, x: T, rest: seq<T>)
    requires s == [x] + rest
    ensures s != [] && s[0] == x && s[1..] == rest
  {
  }

  lemma Reassociate<T>(a: seq<T>, b: seq<T>, c: seq<T>)
    ensures a + b + c == a + (b + c)
  {
  }

  /** The number of player rows (at least eleven cells) among `rows`, counted from the end. */
  function PlayerRowCount(rows: seq<Row>): nat {
    if rows == [] then 0 else PlayerRowCount(rows[..|rows| - 1]) + (if |rows[|rows| - 1]| >= MinCells then 1 else 0)
  }

  /** Each player row yields exactly one record and no other row yields any. */
  lemma {:induction false} RowsRecordsCount(gameId: string, rows: seq<Row>)
    ensures |RowsRecords(gameId, rows)| == PlayerRowCount(rows)
    decreases |rows|
  {
    if rows != [] {
      var init, last := rows[..|rows| - 1], rows[|rows| - 1];
      assert rows == init + [last];
      RowsRecordsAppend(gameId, init, [last]);
      RowsRecordsCount(gameId, init);
      assert RowsRecords(gameId, [last]) == RowRecords(gameId, last) + RowsRecords(gameId, []);
    }
  }

  /** When every row is a player row, the k-th record is read from the k-th row. */
  lemma {:induction false} AllPlayerRows(gameId: string, rows: seq<Row>)
    requires forall k :: 0 <= k < |rows| ==> |rows[k]| >= MinCells
    ensures |RowsRecords(gameId, rows)| == |rows|
    ensures forall k :: 0 <= k < |rows| ==> Some(RowsRecords(gameId, rows)[k]) == ExtractRow(gameId, rows[k])
    decreases |rows|
  {
    if rows != [] {
      AllPlayerRows(gameId, rows[1..]);
      var recs := RowsRecords(gameId, rows);
      assert recs == RowRecords(gameId, rows[0]) + RowsRecords(gameId, rows[1..]);
      forall k | 0 <= k < |rows| ensures Some(recs[k]) == ExtractRow(gameId, rows[k]) {
        if k > 0 {
          assert recs[k] == RowsRecords(gameId, rows[1..])[k - 1];
          assert rows[k] == rows[1..][k - 1];
        }
      }
    }
  }

  /**
   * A batting table made of a header, N player rows and a totals row yields
   * exactly N records, the k-th read from the k-th player row.
   */
  lemma BattingTableRecords(gameId: string, text: string, header: Row, players: seq<Row>, totals: Row)
    requires Contains(text, Marker)
    requires forall k :: 0 <= k < |players| ==> |players[k]| >= MinCells
    ensures var recs := TableRecords(gameId, Table(text, [header] + players + [totals]));
      |recs| == |players| &&
      forall k :: 0 <= k < |players| ==> Some(recs[k]) == ExtractRow(gameId, players[k])
  {
    var rows := [header] + players + [totals];
    if |rows| > 2 {
      assert BodyRows(rows) == players;
    } else {
      assert players == [];
    }
    AllPlayerRows(gameId, players);
  }

  /** A batting table of a header, one player row and a totals row yields exactly that row's record. */
  lemma OnePlayerTable(gameId: string, text: string, header: Row, player: Row, totals: Row)
    requires Contains(text, Marker) && |player| >= MinCells
    ensures TableRecords(gameId, Table(text, [header, player, totals])) ==
      [GameRecord(gameId, player[PlayerCell], player[AtBatsCell], player[RunsCell], player[HitsCell], player[HomeRunsCell], player[RbiCell])]
  {
    assert BodyRows([header, player, totals]) == [player];
    assert RowsRecords(gameId, [player]) == RowRecords(gameId, player) + RowsRecords(gameId, []);
  }

  /** A page of one table yields that table's records. */
  lemma OneTablePage(gameId: string, t: Table)
    ensures PageRecords(gameId, [t]) == TableRecords(gameId, t)
  {
    assert PageRecords(gameId, [t]) == TableRecords(gameId, t) + PageRecords(gameId, []);
  }

  /** Where a record in a run of rows comes from: a player row of that run. */
  lemma {:induction false} RowsRecordsProvenance(gameId: string, rows: seq<Row>, k: nat)
    requires k < |RowsRecords(gameId, rows)|
    ensures exists j :: 0 <= j < |rows| && ExtractRow(gameId, rows[j]) == Some(RowsRecords(gameId, rows)[k])
    decreases |rows|
  {
    var head := RowRecords(gameId, rows[0]);
    assert RowsRecords(gameId, rows) == head + RowsRecords(gameId, rows[1..]);
    if k < |head| {
      assert ExtractRow(gameId, rows[0]) == Some(RowsRecords(gameId, rows)[k]);
    } else {
      RowsRecordsProvenance(gameId, rows[1..], k - |head|);
      var j :| 0 <= j < |rows[1..]| && ExtractRow(gameId, rows[1..][j]) == Some(RowsRecords(gameId, rows[1..])[k - |head|]);
      assert rows[j + 1] == rows[1..][j];
    }
  }

  /**
   * Every record of a page carries the page's game id and is read from a
   * player row strictly between the first and the last row of a batting table.
   */
  lemma {:induction false} PageRecordsProvenance(gameId: string, tables: seq<Table>, k: nat)
    requires k < |PageRecords(gameId, tables)|
    ensures PageRecords(gameId, tables)[k].gameId == gameId
    ensures exists i, j ::
      (0 <= i < |tables| && IsBattingTable(tables[i]) && 1 <= j < |tables[i].rows| - 1 &&
       ExtractRow(gameId, tables[i].rows[j]) == Some(PageRecords(gameId, tables)[k]))
    decreases |tables|
  {
    var t := tables[0];
    var head := TableRecords(gameId, t);
    var recs := PageRecords(gameId, tables);
    assert recs == head + PageRecords(gameId, tables[1..]);
    if k < |head| {
      assert IsBattingTable(t);
      RowsRecordsProvenance(gameId, BodyRows(t.rows), k);
      var j :| 0 <= j < |BodyRows(t.rows)| && ExtractRow(gameId, BodyRows(t.rows)[j]) == Some(head[k]);
      assert t.rows[j + 1] == BodyRows(t.rows)[j];
      assert recs[k] == head[k];
    } else {
      PageRecordsProvenance(gameId, tables[1..], k - |head|);
      var i, j :| 0 <= i < |tables[1..]| && IsBattingTable(tables[1..][i]) && 1 <= j < |tables[1..][i].rows| - 1 &&
        ExtractRow(gameId, tables[1..][i].rows[j]) == Some(PageRecords(gameId, tables[1..])[k - |head|]);
      assert tables[i + 1] == tables[1..][i];
    }
  }
}

/**
 * The sheet payload: the merged table is cut down to a fixed list of columns,
 * chosen by name, and written as one header row of column names followed by
 * one row of cell values per merged row. A lookup column of an unmatched row
 * is missing; this model writes it as a blank cell, where the script's table
 * holds a NaN.
 */
module Publish {
  import opened Wrappers
  import opened BoxScore
  import opened Merge
  import Aggregate
  import GameId

  /** The value of one spreadsheet cell. */
  datatype Cell = Str(s: string) | Num(n: int) | Blank

  /** The columns of `merged_df`: the stats columns, then the lookup's. */
  datatype Column = GameIdCol | PlayerCol | AtBatsCol | RunsCol | HitsCol | HomeRunsCol | RbiCol | FullNameCol | PlayerIdCol

  /** The label of a column, as the header row shows it. */
  function Name(c: Column): string {
    match c
    case GameIdCol => "Game_ID"
    case PlayerCol => "Player"
    case AtBatsCol => "AB"
    case RunsCol => "R"
    case HitsCol => "H"
    case HomeRunsCol => "HR"
    case RbiCol => "RBI"
    case FullNameCol => "fullName"
    case PlayerIdCol => "playerId"
  }

  /** The columns written to the sheet, in order. */
  const SheetColumns: seq<Column> := [GameIdCol, PlayerCol, PlayerIdCol, RunsCol, AtBatsCol, HitsCol, HomeRunsCol, RbiCol]

  /** The value of a merged row in one column; a lookup column of an unmatched row is blank. */
  function ColumnOf(m: MergedRow, c: Column): Cell {
    match c
    case GameIdCol => Str(m.stats.gameId)
    case PlayerCol => Str(m.stats.player)
    case AtBatsCol => Str(m.stats.ab)
    case RunsCol => Str(m.stats.r)
    case HitsCol => Str(m.stats.h)
    case HomeRunsCol => Str(m.stats.hr)
    case RbiCol => Str(m.stats.rbi)
    case FullNameCol => if m.fullName.Some? then Str(m.fullName.value) else Blank
    case PlayerIdCol => if m.playerId.Some? then Num(m.playerId.value) else Blank
  }

  /** `merged_df[columns].values.tolist()`: one list of cells per row, in row order and column order. */
  function Select(rows: seq<MergedRow>, cols: seq<Column>): (table: seq<seq<Cell>>)
    ensures |table| == |rows|
    ensures forall k :: 0 <= k < |rows| ==> |table[k]| == |cols|
  {
    seq(|rows|, k requires 0 <= k < |rows| => seq(|cols|, j requires 0 <= j < |cols| => ColumnOf(rows[k], cols[j])))
  }

  /** `[columns.values.tolist()]`: the column labels, as text cells. */
  function Header(cols: seq<Column>): (h: seq<Cell>)
    ensures |h| == |cols|
  {
    seq(|cols|, j requires 0 <= j < |cols| => Str(Name(cols[j])))
  }

  /** `[header] + values`: the header row, then the data rows in order. */
  function Payload(header: seq<Cell>, body: seq<seq<Cell>>): (p: seq<seq<Cell>>)
    ensures |p| == 1 + |body|
    ensures p[0] == header
    ensures forall k :: 0 <= k < |body| ==> p[k + 1] == body[k]
  {
    [header] + body
  }

  /** A merged row as it should appear on the sheet, spelled out field by field. */
  function SheetRow(m: MergedRow): (row: seq<Cell>)
    ensures |row| == |SheetColumns|
  {
    [Str(m.stats.gameId), Str(m.stats.player), if m.playerId.Some? then Num(m.playerId.value) else Blank,
     Str(m.stats.r), Str(m.stats.ab), Str(m.stats.h), Str(m.stats.hr), Str(m.stats.rbi)]
  }

  /** The sheet's header row reads Game_ID, Player, playerId, R, AB, H, HR, RBI. */
  lemma SheetHeader()
    ensures Header(SheetColumns) ==
      [Str("Game_ID"), Str("Player"), Str("playerId"), Str("R"), Str("AB"), Str("H"), Str("HR"), Str("RBI")]
  {
  }

  /** Selecting the sheet's columns yields every merged row's fields in the sheet's order. */
  lemma SelectSheetColumns(merged: seq<MergedRow>)
    ensures forall k :: 0 <= k < |merged| ==> Select(merged, SheetColumns)[k] == SheetRow(merged[k])
  {
    forall k | 0 <= k < |merged| ensures Select(merged, SheetColumns)[k] == SheetRow(merged[k]) {
      var m := merged[k];
      assert Select(merged, SheetColumns)[k] ==
        [ColumnOf(m, GameIdCol), ColumnOf(m, PlayerCol), ColumnOf(m, PlayerIdCol), ColumnOf(m, RunsCol),
         ColumnOf(m, AtBatsCol), ColumnOf(m, HitsCol), ColumnOf(m, HomeRunsCol), ColumnOf(m, RbiCol)];
    }
  }

  /** The data written to the sheet: the header, then the selected row of every merged row. */
  function SheetData(merged: seq<MergedRow>): (data: seq<seq<Cell>>)
    ensures |data| == 1 + |merged|
    ensures data[0] == Header(SheetColumns)
    ensures forall k :: 0 <= k < |merged| ==> data[k + 1] == SheetRow(merged[k])
  {
    SelectSheetColumns(merged);
    Payload(Header(SheetColumns), Select(merged, SheetColumns))
  }

  /** The whole pipeline on fetched pages and a fetched lookup: scrape, combine, merge, shape. */
  function Run(pages: seq<Page>, lookup: seq<LookupEntry>): (r: Result<seq<seq<Cell>>, GameId.ScrapeError>)
    ensures r.Err? <==> Aggregate.AllGames(pages).Err?
    ensures r.Ok? ==> |r.value| >= 1 + |Aggregate.AllGames(pages).value|
    ensures r.Ok? ==> r.value[0] == Header(SheetColumns)
    ensures r.Ok? && (forall a, b :: 0 <= a < b < |lookup| ==> Text.Normalize(lookup[a].fullName) != Text.Normalize(lookup[b].fullName)) ==>
      |r.value| == 1 + |Aggregate.AllGames(pages).value|
  {
    match Aggregate.AllGames(pages)
    case Err(e) => Err(e)
    case Ok(stats) =>
      MergeStatsLength(stats, lookup);
      Ok(SheetData(MergeStats(stats, lookup)))
  }

  /** The id cell of a written row is blank exactly when the row found no lookup entry. */
  lemma SheetRowId(m: MergedRow)
    ensures SheetColumns[2] == PlayerIdCol
    ensures SheetRow(m)[2] == Blank <==> m.playerId.None?
    ensures m.playerId.Some? ==> SheetRow(m)[2] == Num(m.playerId.value)
  {
  }

  /** A box-score page at the pipeline's host with one batting table of a header, one player row and a totals row. */
  function OnePlayerPage(id: string, text: string, header: Row, player: Row, totals: Row): Page {
    Page(GameId.NcaaHost + GameId.Prefix + id + GameId.Suffix, [Table(text, [header, player, totals])])
  }

  /** A sheet of one merged row is the header and that row. */
  lemma OneRowSheet(m: MergedRow)
    ensures SheetData([m]) == [Header(SheetColumns), SheetRow(m)]
  {
    var data := SheetData([m]);
    assert data == [data[0], data[1]];
  }

  /**
   * End to end: a page with one player row, and a lookup whose normalised
   * names are distinct and one of which equals the player's, produce a sheet
   * of the header and one row carrying the game id from the url, the
   * normalised player name, that entry's id and the statistics from the row.
   */
  lemma OnePlayerRun(id: string, text: string, header: Row, player: Row, totals: Row, lookup: seq<LookupEntry>, i: nat)
    requires |id| > 0 && Text.AllDigits(id) && Text.Contains(text, Marker) && |player| >= MinCells
    requires forall a, b :: 0 <= a < b < |lookup| ==>
      Text.Normalize(lookup[a].fullName) != Text.Normalize(lookup[b].fullName)
    requires i < |lookup| && Text.Normalize(lookup[i].fullName) == Text.Normalize(player[PlayerCell])
    ensures Run([OnePlayerPage(id, text, header, player, totals)], lookup) ==
      Ok([[Str("Game_ID"), Str("Player"), Str("playerId"), Str("R"), Str("AB"), Str("H"), Str("HR"), Str("RBI")],
          [Str(id), Str(Text.Normalize(player[PlayerCell])), Num(lookup[i].playerId), Str(player[RunsCell]),
           Str(player[AtBatsCell]), Str(player[HitsCell]), Str(player[HomeRunsCell]), Str(player[RbiCell])]])
  {
    var page := OnePlayerPage(id, text, header, player, totals);
    var t := Table(text, [header, player, totals]);
    var rec := GameRecord(id, player[PlayerCell], player[AtBatsCell], player[RunsCell], player[HitsCell], player[HomeRunsCell], player[RbiCell]);
    GameId.NcaaUrlGameId(id);
    OnePlayerTable(id, text, header, player, totals);
    OneTablePage(id, t);
    Aggregate.OnePage(page);
    assert Aggregate.AllGames([page]) == Ok([rec]);
    MergeOneUnique(rec, lookup, i);
    var m := MergedRow(rec.(player := Text.Normalize(rec.player)), Some(Text.Normalize(rec.player)), Some(lookup[i].playerId));
    OneRowSheet(m);
    SheetHeader();
  }
}

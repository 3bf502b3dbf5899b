/**
 * Combining the games: each url is scraped in list order, and the resulting
 * per-game record lists are concatenated (`pd.concat(..., ignore_index=True)`),
 * keeping game order and, within a game, row order. Scraping stops at the
 * first url whose game id cannot be found, as the raised exception does.
 */
module Aggregate {
  import opened Wrappers
  import opened BoxScore
  import GameId

  /** Concatenation of the per-game record lists, in game order. */
  function Flatten(games: seq<seq<GameRecord>>): (all: seq<GameRecord>)
  {
    if games == [] then [] else games[0] + Flatten(games[1..])
  }

  /** Total number of records over all games. */
  function TotalCount(games: seq<seq<GameRecord>>): nat {
    if games == [] then 0 else TotalCount(games[..|games| - 1]) + |games[|games| - 1]|
  }

  /** The list comprehension over the urls: every page's records, or the first page's failure. */
  function ScrapeAll(pages: seq<Page>): (r: Result<seq<seq<GameRecord>>, GameId.ScrapeError>)
    ensures r.Ok? <==> forall i :: 0 <= i < |pages| ==> ScrapePage(pages[i]).Ok?
    ensures r.Ok? ==> |r.value| == |pages| && forall i :: 0 <= i < |pages| ==> Ok(r.value[i]) == ScrapePage(pages[i])
    ensures r.Err? ==>
      exists i :: (0 <= i < |pages| && ScrapePage(pages[i]) == Err(r.error) &&
                   forall j :: 0 <= j < i ==> ScrapePage(pages[j]).Ok?)
  {
    if pages == [] then Ok([])
    else
      match ScrapePage(pages[0])
      case Err(e) => Err(e)
      case Ok(first) =>
        match ScrapeAll(pages[1..])
        case Err(e) =>
          assert forall j :: 1 <= j < |pages| ==> pages[j] == pages[1..][j - 1];
          Err(e)
        case Ok(rest) =>
          assert forall j :: 1 <= j < |pages| ==> pages[j] == pages[1..][j - 1];
          Ok([first] + rest)
  }

  /** `all_games_df`: the concatenated records of all pages. */
  function AllGames(pages: seq<Page>): Result<seq<GameRecord>, GameId.ScrapeError> {
    match ScrapeAll(pages)
    case Err(e) => Err(e)
    case Ok(games) => Ok(Flatten(games))
  }

  /** Concatenating two runs of games is concatenating their flattenings. */
  lemma {:induction false} FlattenAppend(a: seq<seq<GameRecord>>, b: seq<seq<GameRecord>>)
    ensures Flatten(a + b) == Flatten(a) + Flatten(b)
    decreases |a|
  {
    if a == [] {
      assert a + b == b;
    } else {
      assert (a + b)[1..] == a[1..] + b;
      FlattenAppend(a[1..], b);
    }
  }

  /** The combined table has as many rows as all games together. */
  lemma {:induction false} FlattenLength(games: seq<seq<GameRecord>>)
    ensures |Flatten(games)| == TotalCount(games)
    decreases |games|
  {
    if games != [] {
      var init, last := games[..|games| - 1], games[|games| - 1];
      assert games == init + [last];
      FlattenAppend(init, [last]);
      FlattenLength(init);
      assert Flatten([last]) == last + Flatten([]);
    }
  }

  /** Row k of game i sits at offset (records of games before i) + k of the combined table. */
  lemma FlattenIndex(games: seq<seq<GameRecord>>, i: nat, k: nat)
    requires i < |games| && k < |games[i]|
    ensures TotalCount(games[..i]) + k < |Flatten(games)|
    ensures Flatten(games)[TotalCount(games[..i]) + k] == games[i][k]
  {
    assert games == games[..i] + [games[i]] + games[i + 1..];
    FlattenAppend(games[..i] + [games[i]], games[i + 1..]);
    FlattenAppend(games[..i], [games[i]]);
    assert Flatten([games[i]]) == games[i] + Flatten([]);
    FlattenLength(games[..i]);
  }

  /** Three games of sizes a, b and c combine into one table of a + b + c rows, game by game. */
  lemma ThreeGames(a: seq<GameRecord>, b: seq<GameRecord>, c: seq<GameRecord>)
    ensures Flatten([a, b, c]) == a + b + c
    ensures |Flatten([a, b, c])| == |a| + |b| + |c|
  {
    assert [a, b, c][1..] == [b, c];
    assert [b, c][1..] == [c];
    assert [c][1..] == [];
    calc {
      Flatten([a, b, c]);
      a + Flatten([b, c]);
      a + (b + Flatten([c]));
      a + (b + (c + Flatten([])));
      { assert c + [] == c; }
      a + b + c;
    }
  }

  /** A single url's run is that page's scrape. */
  lemma OnePage(page: Page)
    ensures AllGames([page]) == ScrapePage(page)
  {
    assert [page][0] == page && [page][1..] == [];
    match ScrapePage(page)
    case Err(e) =>
      assert ScrapeAll([page]) == Err(e);
    case Ok(recs) =>
      assert ScrapeAll([page][1..]) == Ok([]);
      assert [recs] + [] == [recs];
      assert ScrapeAll([page]) == Ok([recs]);
      assert Flatten([recs]) == recs + Flatten([]);
      assert recs + [] == recs;
  }
}

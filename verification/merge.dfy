/**
 * Resolving player ids: both the stats `Player` column and the lookup's
 * `fullName` column are lower-cased then stripped, and the stats are left-
 * joined to the lookup on equal names, as `pd.merge(how="left")` does: every
 * stats row is kept in order, repeated once per matching lookup entry (in
 * lookup order), and kept once with no name and no id when nothing matches.
 */
module Merge {
  import opened Wrappers
  import opened Text
  import opened BoxScore

  /** One entry of the player lookup, reduced to its `fullName` and `playerId` columns. */
  datatype LookupEntry = LookupEntry(fullName: string, playerId: int)

  /** A row of `merged_df`: the stats row, then the lookup columns, absent (NaN) when unmatched. */
  datatype MergedRow = MergedRow(stats: GameRecord, fullName: Option<string>, playerId: Option<int>)

  /** `all_games_df['Player'].str.lower().str.strip()`: only the player column changes. */
  function NormalizePlayers(rows: seq<GameRecord>): (out: seq<GameRecord>)
    ensures |out| == |rows|
  {
    seq(|rows|, k requires 0 <= k < |rows| => rows[k].(player := Normalize(rows[k].player)))
  }

  /** `lookup_subset['fullName'].str.lower().str.strip()`: only the name column changes. */
  function NormalizeNames(lookup: seq<LookupEntry>): (out: seq<LookupEntry>)
    ensures |out| == |lookup|
  {
    seq(|lookup|, k requires 0 <= k < |lookup| => lookup[k].(fullName := Normalize(lookup[k].fullName)))
  }

  /** Each normalised entry keeps its id and carries its normalised name. */
  lemma NormalizedNames(lookup: seq<LookupEntry>)
    ensures forall k :: 0 <= k < |lookup| ==>
      NormalizeNames(lookup)[k] == LookupEntry(Normalize(lookup[k].fullName), lookup[k].playerId)
  {
  }

  /** Each normalised stats row carries its normalised player name and every other field unchanged. */
  lemma NormalizedPlayers(rows: seq<GameRecord>)
    ensures forall k :: 0 <= k < |rows| ==>
      NormalizePlayers(rows)[k] ==
        GameRecord(rows[k].gameId, Normalize(rows[k].player), rows[k].ab, rows[k].r, rows[k].h, rows[k].hr, rows[k].rbi)
  {
  }

  /** The lookup entries whose name equals `name`, in lookup order. */
  function Matches(name: string, lookup: seq<LookupEntry>): (ms: seq<LookupEntry>)
    ensures |ms| <= |lookup|
    ensures forall k :: 0 <= k < |ms| ==> ms[k].fullName == name
  {
    if lookup == [] then []
    else (if lookup[0].fullName == name then [lookup[0]] else []) + Matches(name, lookup[1..])
  }

  /** Matches keep lookup order: the matches in two runs of entries are those of the first run, then those of the second. */
  lemma {:induction false} MatchesAppend(name: string, a: seq<LookupEntry>, b: seq<LookupEntry>)
    ensures Matches(name, a + b) == Matches(name, a) + Matches(name, b)
    decreases |a|
  {
    if a == [] {
      assert a + b == b;
    } else {
      assert (a + b)[0] == a[0] && (a + b)[1..] == a[1..] + b;
      MatchesAppend(name, a[1..], b);
    }
  }

  /** How many output rows one stats row becomes: one per match, and one if there is none. */
  function Multiplicity(row: GameRecord, lookup: seq<LookupEntry>): nat {
    var n := |Matches(row.player, lookup)|;
    if n == 0 then 1 else n
  }

  /** The output rows of one stats row. */
  function JoinRow(row: GameRecord, lookup: seq<LookupEntry>): (out: seq<MergedRow>)
    ensures |out| == Multiplicity(row, lookup)
    ensures Matches(row.player, lookup) == [] ==> out == [MergedRow(row, None, None)]
    ensures forall k :: 0 <= k < |Matches(row.player, lookup)| ==>
      out[k].fullName == Some(row.player) && out[k].playerId == Some(Matches(row.player, lookup)[k].playerId)
  {
    var ms := Matches(row.player, lookup);
    if ms == [] then [MergedRow(row, None, None)]
    else seq(|ms|, k requires 0 <= k < |ms| => MergedRow(row, Some(ms[k].fullName), Some(ms[k].playerId)))
  }

  /** Every output row of one stats row carries that stats row unchanged. */
  lemma JoinRowKeepsStats(row: GameRecord, lookup: seq<LookupEntry>)
    ensures forall k :: 0 <= k < |JoinRow(row, lookup)| ==> JoinRow(row, lookup)[k].stats == row
  {
  }

  /** `pd.merge(left, lookup, how="left", left_on="Player", right_on="fullName")`. */
  function LeftJoin(left: seq<GameRecord>, lookup: seq<LookupEntry>): seq<MergedRow> {
    if left == [] then [] else JoinRow(left[0], lookup) + LeftJoin(left[1..], lookup)
  }

  /** `merged_df`: normalise both keys, then left-join. */
  function MergeStats(stats: seq<GameRecord>, lookup: seq<LookupEntry>): seq<MergedRow> {
    LeftJoin(NormalizePlayers(stats), NormalizeNames(lookup))
  }

  /** The stats part of each output row, in output order. */
  function StatsColumn(out: seq<MergedRow>): seq<GameRecord> {
    seq(|out|, k requires 0 <= k < |out| => out[k].stats)
  }

  /** The lookup's name column, in lookup order. */
  function Names(lookup: seq<LookupEntry>): seq<string> {
    seq(|lookup|, k requires 0 <= k < |lookup| => lookup[k].fullName)
  }

  /** The matches of a name are as many as the occurrences of that name in the lookup's name column. */
  lemma {:induction false} MatchesCount(name: string, lookup: seq<LookupEntry>)
    ensures |Matches(name, lookup)| == multiset(Names(lookup))[name]
    decreases |lookup|
  {
    if lookup != [] {
      MatchesCount(name, lookup[1..]);
      assert Names(lookup) == [lookup[0].fullName] + Names(lookup[1..]);
    }
  }

  /** Left-joining two runs of stats rows is left-joining each, in order: the join keeps the stats order. */
  lemma {:induction false} LeftJoinAppend(a: seq<GameRecord>, b: seq<GameRecord>, lookup: seq<LookupEntry>)
    ensures LeftJoin(a + b, lookup) == LeftJoin(a, lookup) + LeftJoin(b, lookup)
    decreases |a|
  {
    if a == [] {
      assert a + b == b;
    } else {
      assert (a + b)[1..] == a[1..] + b;
      LeftJoinAppend(a[1..], b, lookup);
    }
  }

  /** `n` copies of one stats row. */
  function Repeat(row: GameRecord, n: nat): (rows: seq<GameRecord>)
    ensures |rows| == n && forall k :: 0 <= k < n ==> rows[k] == row
  {
    seq(n, _ => row)
  }

  /** Reference shape of the join's stats column: each input row, in order, repeated by its multiplicity. */
  function Expanded(left: seq<GameRecord>, lookup: seq<LookupEntry>): seq<GameRecord> {
    if left == [] then [] else Repeat(left[0], Multiplicity(left[0], lookup)) + Expanded(left[1..], lookup)
  }

  /** The output rows of one stats row carry that row, as many times as its multiplicity. */
  lemma JoinRowStats(row: GameRecord, lookup: seq<LookupEntry>)
    ensures StatsColumn(JoinRow(row, lookup)) == Repeat(row, Multiplicity(row, lookup))
  {
    JoinRowKeepsStats(row, lookup);
  }

  /**
   * The join keeps the stats order: its stats column lists every input row in
   * input order, each repeated once per match (once when unmatched), with no
   * other rows between.
   */
  lemma {:induction false} LeftJoinOrder(left: seq<GameRecord>, lookup: seq<LookupEntry>)
    ensures StatsColumn(LeftJoin(left, lookup)) == Expanded(left, lookup)
    decreases |left|
  {
    if left != [] {
      LeftJoinOrder(left[1..], lookup);
      JoinRowStats(left[0], lookup);
      StatsColumnAppend(JoinRow(left[0], lookup), LeftJoin(left[1..], lookup));
    }
  }

  /** Every match is an entry of the lookup. */
  lemma {:induction false} MatchesFromLookup(name: string, lookup: seq<LookupEntry>)
    ensures forall k :: 0 <= k < |Matches(name, lookup)| ==> Matches(name, lookup)[k] in lookup
    decreases |lookup|
  {
    if lookup != [] {
      MatchesFromLookup(name, lookup[1..]);
      var head := if lookup[0].fullName == name then [lookup[0]] else [];
      var ms := Matches(name, lookup);
      assert ms == head + Matches(name, lookup[1..]);
      forall k | 0 <= k < |ms| ensures ms[k] in lookup {
        if k >= |head| {
          assert ms[k] == Matches(name, lookup[1..])[k - |head|];
        }
      }
    }
  }

  /**
   * Where an output row's id comes from: it is null exactly when the row's
   * name matches no lookup entry, and otherwise it is the id of a lookup entry
   * carrying that name.
   */
  lemma {:induction false} LeftJoinIds(left: seq<GameRecord>, lookup: seq<LookupEntry>, j: nat)
    requires j < |LeftJoin(left, lookup)|
    ensures LeftJoin(left, lookup)[j].playerId.None? <==> Matches(LeftJoin(left, lookup)[j].stats.player, lookup) == []
    ensures LeftJoin(left, lookup)[j].playerId.Some? ==>
      exists e :: e in lookup && e.fullName == LeftJoin(left, lookup)[j].stats.player &&
                  e.playerId == LeftJoin(left, lookup)[j].playerId.value
    decreases |left|
  {
    var head, tail := JoinRow(left[0], lookup), LeftJoin(left[1..], lookup);
    assert LeftJoin(left, lookup) == head + tail;
    if j < |head| {
      JoinRowKeepsStats(left[0], lookup);
      var ms := Matches(left[0].player, lookup);
      if ms != [] {
        MatchesFromLookup(left[0].player, lookup);
        assert ms[j] in lookup;
      }
    } else {
      LeftJoinIds(left[1..], lookup, j - |head|);
    }
  }

  /** One more occurrence adds one more block of `m` output rows. */
  lemma CountStep(b: bool, c: nat, m: nat)
    ensures (if b then m else 0) + c * m == ((if b then 1 else 0) + c) * m
  {
    if b {
      assert (1 + c) * m == m + c * m;
    }
  }

  /** Occurrences in a non-empty sequence: the head's, then the tail's. */
  lemma CountCons(rows: seq<GameRecord>, row: GameRecord)
    requires rows != []
    ensures multiset(rows)[row] == (if rows[0] == row then 1 else 0) + multiset(rows[1..])[row]
  {
    assert rows == [rows[0]] + rows[1..];
  }

  /** A sequence whose every element is `row` holds `row` as many times as it is long. */
  lemma {:induction false} SameRowsCount(rows: seq<GameRecord>, row: GameRecord)
    requires forall k :: 0 <= k < |rows| ==> rows[k] == row
    ensures multiset(rows)[row] == |rows|
    decreases |rows|
  {
    if rows != [] {
      assert rows == [rows[0]] + rows[1..];
      SameRowsCount(rows[1..], row);
    }
  }

  lemma StatsColumnAppend(a: seq<MergedRow>, b: seq<MergedRow>)
    ensures StatsColumn(a + b) == StatsColumn(a) + StatsColumn(b)
  {
  }

  /** The output rows of one stats row hold that row Multiplicity times, and no other row. */
  lemma JoinRowCount(first: GameRecord, lookup: seq<LookupEntry>, row: GameRecord)
    ensures multiset(StatsColumn(JoinRow(first, lookup)))[row] == (if first == row then Multiplicity(row, lookup) else 0)
  {
    var col := StatsColumn(JoinRow(first, lookup));
    JoinRowKeepsStats(first, lookup);
    if first == row {
      SameRowsCount(col, row);
    } else {
      assert forall k :: 0 <= k < |col| ==> col[k] != row;
      assert row !in multiset(col);
    }
  }

  /**
   * Multiplicity law of the left join: a stats row occurring c times in the
   * input occurs c * k times in the output when its name matches k >= 1
   * lookup entries, and c times when it matches none.
   */
  lemma {:induction false} LeftJoinMultiplicity(left: seq<GameRecord>, lookup: seq<LookupEntry>, row: GameRecord)
    ensures multiset(StatsColumn(LeftJoin(left, lookup)))[row] == multiset(left)[row] * Multiplicity(row, lookup)
    decreases |left|
  {
    if left != [] {
      var head, tail := JoinRow(left[0], lookup), LeftJoin(left[1..], lookup);
      LeftJoinMultiplicity(left[1..], lookup, row);
      JoinRowCount(left[0], lookup, row);
      StatsColumnAppend(head, tail);
      CountCons(left, row);
      CountStep(left[0] == row, multiset(left[1..])[row], Multiplicity(row, lookup));
    }
  }

  lemma ProductPositive(a: nat, b: nat)
    requires a >= 1 && b >= 1
    ensures a * b >= 1
  {
  }

  /** No stats row is dropped: each appears somewhere in the output. */
  lemma EveryStatsRowKept(left: seq<GameRecord>, lookup: seq<LookupEntry>, i: nat)
    requires i < |left|
    ensures exists j :: 0 <= j < |LeftJoin(left, lookup)| && LeftJoin(left, lookup)[j].stats == left[i]
  {
    var row := left[i];
    LeftJoinMultiplicity(left, lookup, row);
    assert row in multiset(left);
    var col := StatsColumn(LeftJoin(left, lookup));
    ProductPositive(multiset(left)[row], Multiplicity(row, lookup));
    assert row in multiset(col);
    var j :| 0 <= j < |col| && col[j] == row;
  }

  /** The join never shortens the stats table. */
  lemma {:induction false} LeftJoinLength(left: seq<GameRecord>, lookup: seq<LookupEntry>)
    ensures |LeftJoin(left, lookup)| >= |left|
    decreases |left|
  {
    if left != [] {
      LeftJoinLength(left[1..], lookup);
    }
  }

  /** A name carried by no entry has no match. */
  lemma {:induction false} NoMatchWhenAbsent(name: string, lookup: seq<LookupEntry>)
    requires forall j :: 0 <= j < |lookup| ==> lookup[j].fullName != name
    ensures Matches(name, lookup) == []
    decreases |lookup|
  {
    if lookup != [] {
      NoMatchWhenAbsent(name, lookup[1..]);
    }
  }

  /** With at most one lookup entry per name, each name has at most one match. */
  lemma {:induction false} UniqueNameAtMostOneMatch(name: string, lookup: seq<LookupEntry>)
    requires forall i, j :: 0 <= i < j < |lookup| ==> lookup[i].fullName != lookup[j].fullName
    ensures |Matches(name, lookup)| <= 1
    decreases |lookup|
  {
    if lookup != [] {
      UniqueNameAtMostOneMatch(name, lookup[1..]);
      if lookup[0].fullName == name {
        NoMatchWhenAbsent(name, lookup[1..]);
      }
    }
  }

  /** A stats row with at most one match becomes exactly one output row. */
  lemma SingleJoinRow(row: GameRecord, lookup: seq<LookupEntry>)
    requires |Matches(row.player, lookup)| <= 1
    ensures StatsColumn(JoinRow(row, lookup)) == [row]
  {
    JoinRowKeepsStats(row, lookup);
  }

  /** With at most one lookup entry per name, the join is row-for-row: the output's stats column is the input. */
  lemma {:induction false} UniqueNamesRowForRow(left: seq<GameRecord>, lookup: seq<LookupEntry>)
    requires forall i, j :: 0 <= i < j < |lookup| ==> lookup[i].fullName != lookup[j].fullName
    ensures |LeftJoin(left, lookup)| == |left|
    ensures StatsColumn(LeftJoin(left, lookup)) == left
    decreases |left|
  {
    if left != [] {
      var head, tail := JoinRow(left[0], lookup), LeftJoin(left[1..], lookup);
      UniqueNamesRowForRow(left[1..], lookup);
      UniqueNameAtMostOneMatch(left[0].player, lookup);
      SingleJoinRow(left[0], lookup);
      StatsColumnAppend(head, tail);
      assert left == [left[0]] + left[1..];
    }
  }

  /** Every entry carrying the name is among its matches. */
  lemma {:induction false} MatchesHas(name: string, lookup: seq<LookupEntry>, i: nat)
    requires i < |lookup| && lookup[i].fullName == name
    ensures exists k :: 0 <= k < |Matches(name, lookup)| && Matches(name, lookup)[k] == lookup[i]
    decreases |lookup|
  {
    var head := if lookup[0].fullName == name then [lookup[0]] else [];
    assert Matches(name, lookup) == head + Matches(name, lookup[1..]);
    if i > 0 {
      MatchesHas(name, lookup[1..], i - 1);
      var k :| 0 <= k < |Matches(name, lookup[1..])| && Matches(name, lookup[1..])[k] == lookup[1..][i - 1];
      assert Matches(name, lookup)[|head| + k] == lookup[i];
    } else {
      assert Matches(name, lookup)[0] == lookup[0];
    }
  }

  /** With at most one lookup entry per name, a name carried by entry i matches that entry alone. */
  lemma UniqueMatch(name: string, lookup: seq<LookupEntry>, i: nat)
    requires forall a, b :: 0 <= a < b < |lookup| ==> lookup[a].fullName != lookup[b].fullName
    requires i < |lookup| && lookup[i].fullName == name
    ensures Matches(name, lookup) == [lookup[i]]
  {
    UniqueNameAtMostOneMatch(name, lookup);
    MatchesHas(name, lookup, i);
  }

  /**
   * With distinct normalised lookup names, a stats row whose normalised name
   * equals entry i's merges into exactly one row, carrying that entry's id.
   */
  lemma MergeOneUnique(row: GameRecord, lookup: seq<LookupEntry>, i: nat)
    requires forall a, b :: 0 <= a < b < |lookup| ==> Normalize(lookup[a].fullName) != Normalize(lookup[b].fullName)
    requires i < |lookup| && Normalize(lookup[i].fullName) == Normalize(row.player)
    ensures MergeStats([row], lookup) ==
      [MergedRow(row.(player := Normalize(row.player)), Some(Normalize(row.player)), Some(lookup[i].playerId))]
  {
    var name := Normalize(row.player);
    var row' := row.(player := name);
    var lookup' := NormalizeNames(lookup);
    NormalizedNames(lookup);
    UniqueMatch(name, lookup', i);
    var out := JoinRow(row', lookup');
    JoinRowKeepsStats(row', lookup');
    assert |out| == 1 && out[0] == MergedRow(row', Some(name), Some(lookup[i].playerId));
    MergeSingle(row, lookup);
  }

  /** A stats row whose normalised name is no entry's normalised name is kept once, with no name and no id. */
  lemma MergeOneUnmatched(row: GameRecord, lookup: seq<LookupEntry>)
    requires forall k :: 0 <= k < |lookup| ==> Normalize(lookup[k].fullName) != Normalize(row.player)
    ensures MergeStats([row], lookup) == [MergedRow(row.(player := Normalize(row.player)), None, None)]
  {
    var row' := row.(player := Normalize(row.player));
    NormalizedNames(lookup);
    NoMatchWhenAbsent(row'.player, NormalizeNames(lookup));
    MergeSingle(row, lookup);
  }

  /** A lookup entry carrying the row's name contributes an output row with its id. */
  lemma JoinRowHasEntry(row: GameRecord, lookup: seq<LookupEntry>, i: nat)
    requires i < |lookup| && lookup[i].fullName == row.player
    ensures exists k ::
      (0 <= k < |JoinRow(row, lookup)| &&
       JoinRow(row, lookup)[k] == MergedRow(row, Some(row.player), Some(lookup[i].playerId)))
  {
    MatchesHas(row.player, lookup, i);
    var ms := Matches(row.player, lookup);
    var k :| 0 <= k < |ms| && ms[k] == lookup[i];
    JoinRowKeepsStats(row, lookup);
    assert JoinRow(row, lookup)[k] == MergedRow(row, Some(row.player), Some(lookup[i].playerId));
  }

  /** Merging a single stats row is joining its normalised form against the normalised lookup. */
  lemma MergeSingle(row: GameRecord, lookup: seq<LookupEntry>)
    ensures MergeStats([row], lookup) == JoinRow(row.(player := Normalize(row.player)), NormalizeNames(lookup))
  {
    var row' := row.(player := Normalize(row.player));
    assert NormalizePlayers([row]) == [row'];
    assert LeftJoin([row'], NormalizeNames(lookup)) == JoinRow(row', NormalizeNames(lookup)) + LeftJoin([], NormalizeNames(lookup));
  }

  /**
   * Case and surrounding whitespace do not matter: a stats row whose player
   * normalises to the same string as an entry's name is joined to that entry.
   */
  lemma MatchIgnoresCaseAndSpace(row: GameRecord, lookup: seq<LookupEntry>, i: nat)
    requires i < |lookup| && Normalize(row.player) == Normalize(lookup[i].fullName)
    ensures exists k ::
      (0 <= k < |MergeStats([row], lookup)| &&
       MergeStats([row], lookup)[k] == MergedRow(row.(player := Normalize(row.player)), Some(Normalize(row.player)), Some(lookup[i].playerId)))
  {
    var name := Normalize(row.player);
    var row' := row.(player := name);
    var lookup' := NormalizeNames(lookup);
    MergeSingle(row, lookup);
    assert lookup'[i] == LookupEntry(name, lookup[i].playerId);
    JoinRowHasEntry(row', lookup', i);
  }

  /** The merge's normalisation is stable: normalising already merged keys again changes nothing. */
  lemma NormalizePlayersIdempotent(rows: seq<GameRecord>)
    ensures NormalizePlayers(NormalizePlayers(rows)) == NormalizePlayers(rows)
  {
    forall k | 0 <= k < |rows| ensures Normalize(Normalize(rows[k].player)) == Normalize(rows[k].player) {
      NormalizeIdempotent(rows[k].player);
    }
  }

  /**
   * The lookup `[{"fullName": "john smith", "playerId": 42}]` resolves the
   * scraped "John Smith": the merged row carries the lower-cased name and id 42,
   * and the statistics unchanged.
   */
  lemma JohnSmithMerge(gameId: string)
    ensures MergeStats([GameRecord(gameId, "John Smith", "4", "1", "2", "0", "1")], [LookupEntry("john smith", 42)]) ==
      [MergedRow(GameRecord(gameId, "john smith", "4", "1", "2", "0", "1"), Some("john smith"), Some(42))]
  {
    NormalizeJohnSmith();
    MergeOneUnique(GameRecord(gameId, "John Smith", "4", "1", "2", "0", "1"), [LookupEntry("john smith", 42)], 0);
  }

  /**
   * The merged table has at least one row per stats row, and exactly one
   * when the normalised lookup names are distinct.
   */
  lemma MergeStatsLength(stats: seq<GameRecord>, lookup: seq<LookupEntry>)
    ensures |MergeStats(stats, lookup)| >= |stats|
    ensures (forall a, b :: 0 <= a < b < |lookup| ==> Normalize(lookup[a].fullName) != Normalize(lookup[b].fullName)) ==>
      |MergeStats(stats, lookup)| == |stats|
  {
    LeftJoinLength(NormalizePlayers(stats), NormalizeNames(lookup));
    if forall a, b :: 0 <= a < b < |lookup| ==> Normalize(lookup[a].fullName) != Normalize(lookup[b].fullName) {
      NormalizedNames(lookup);
      UniqueNamesRowForRow(NormalizePlayers(stats), NormalizeNames(lookup));
    }
  }
}

/**
 * The app's score ledger: the player's totals, updated when a game ends, and
 * the shared leaderboard of total scores with the player's rank in it.
 */
module Ledger {
  import opened Wrappers

  // ---------------------------------------------------------------------------
  // Player totals

  /** The player's totals, the app's `userStats`. */
  datatype Stats = Stats(
    totalScore: int,
    gamesPlayed: int,
    snakeGames: int,
    tetrisGames: int,
    snakeHighScore: int,
    tetrisHighScore: int)

  /** The totals of a player with no saved games. */
  const NoGames: Stats := Stats(0, 0, 0, 0, 0, 0)

  /** The game types that keep their own count and high score. */
  predicate Tracked(gameType: string) {
    gameType == "snake" || gameType == "tetris"
  }

  /** How many games of a tracked type the totals count. */
  function Games(s: Stats, gameType: string): int {
    if gameType == "snake" then s.snakeGames else s.tetrisGames
  }

  /** The high score the totals keep for a tracked type. */
  function High(s: Stats, gameType: string): int {
    if gameType == "snake" then s.snakeHighScore else s.tetrisHighScore
  }

  /**
   * The totals after one finished game: every game adds to the total score and
   * the game count, and a tracked type also counts the game and keeps the best
   * of its old high score and this one.
   */
  function Recorded(stats: Stats, gameType: string, score: int): (r: Stats)
    ensures r.totalScore == stats.totalScore + score && r.gamesPlayed == stats.gamesPlayed + 1
    ensures forall t | Tracked(t) ::
      Games(r, t) == Games(stats, t) + (if gameType == t then 1 else 0)
      && High(r, t) == (if gameType == t then Max(High(stats, t), score) else High(stats, t))
    ensures !Tracked(gameType) ==>
      r == stats.(totalScore := stats.totalScore + score, gamesPlayed := stats.gamesPlayed + 1)
  {
    var snake, tetris := gameType == "snake", gameType == "tetris";
    Stats(
      stats.totalScore + score,
      stats.gamesPlayed + 1,
      stats.snakeGames + (if snake then 1 else 0),
      stats.tetrisGames + (if tetris then 1 else 0),
      if snake then Max(stats.snakeHighScore, score) else stats.snakeHighScore,
      if tetris then Max(stats.tetrisHighScore, score) else stats.tetrisHighScore)
  }

  /**
   * The stats part of handleGameEnd: a copy of the totals whose fields are
   * bumped one by one, with a high score replaced only by a strictly greater one.
   */
  method UpdateStats(stats: Stats, gameType: string, score: int) returns (newStats: Stats)
    ensures newStats == Recorded(stats, gameType, score)
  {
    newStats := stats;
    newStats := newStats.(totalScore := newStats.totalScore + score);
    newStats := newStats.(gamesPlayed := newStats.gamesPlayed + 1);
    if gameType == "snake" {
      newStats := newStats.(snakeGames := newStats.snakeGames + 1);
      if score > newStats.snakeHighScore {
        newStats := newStats.(snakeHighScore := score);
      }
    } else if gameType == "tetris" {
      newStats := newStats.(tetrisGames := newStats.tetrisGames + 1);
      if score > newStats.tetrisHighScore {
        newStats := newStats.(tetrisHighScore := score);
      }
    }
  }

  /** A finished game as handleGameEnd receives it. */
  datatype Game = Game(gameType: string, score: int)

  /** The totals after a run of finished games, oldest first. */
  function Played(stats: Stats, games: seq<Game>): Stats
    decreases |games|
  {
    if games == [] then stats
    else
      var last := games[|games| - 1];
      Recorded(Played(stats, games[..|games| - 1]), last.gameType, last.score)
  }

  function SumScores(games: seq<Game>): int
    decreases |games|
  {
    if games == [] then 0 else SumScores(games[..|games| - 1]) + games[|games| - 1].score
  }

  /** How many of the games are of the given type. */
  function CountOf(games: seq<Game>, gameType: string): nat
    decreases |games|
  {
    if games == [] then 0
    else CountOf(games[..|games| - 1], gameType) + (if games[|games| - 1].gameType == gameType then 1 else 0)
  }

  /**
   * Over any run of games: the total score is the old one plus every score,
   * the game counts grow by the number of games, and a tracked type's high
   * score is the greatest of its old value and that type's scores.
   */
  lemma {:induction false} PlayedTotals(stats: Stats, games: seq<Game>, t: string)
    requires Tracked(t)
    ensures var r := Played(stats, games);
      && r.totalScore == stats.totalScore + SumScores(games)
      && r.gamesPlayed == stats.gamesPlayed + |games|
      && Games(r, t) == Games(stats, t) + CountOf(games, t)
      && High(r, t) >= High(stats, t)
      && (forall i | 0 <= i < |games| && games[i].gameType == t :: High(r, t) >= games[i].score)
      && (High(r, t) == High(stats, t) || exists i | 0 <= i < |games| :: games[i].gameType == t && High(r, t) == games[i].score)
    decreases |games|
  {
    if games != [] {
      var n := |games| - 1;
      var prefix := games[..n];
      PlayedTotals(stats, prefix, t);
      var p := Played(stats, prefix);
      assert forall i | 0 <= i < n :: games[i] == prefix[i];
      var r := Played(stats, games);
      assert r == Recorded(p, games[n].gameType, games[n].score);
      if High(r, t) != High(stats, t) && High(r, t) != High(p, t) {
        assert games[n].gameType == t && High(r, t) == games[n].score;
      }
    }
  }

  // ---------------------------------------------------------------------------
  // The leaderboard

  /** A leaderboard entry: a player and their total score. */
  datatype Entry = Entry(userId: int, username: string, score: int)

  /** How many entries the leaderboard keeps. */
  const LeaderboardSize: nat := 100

  /** Scores never increase down the list. */
  ghost predicate Descending(lb: seq<Entry>) {
    forall i, j | 0 <= i < j < |lb| :: lb[i].score >= lb[j].score
  }

  /** At most one entry per player. */
  ghost predicate Unique(lb: seq<Entry>) {
    forall i, j | 0 <= i < j < |lb| :: lb[i].userId != lb[j].userId
  }

  /** findIndex on the player's id: the first entry of that player, or -1. */
  function IndexOf(lb: seq<Entry>, id: int): (i: int)
    ensures -1 <= i < |lb|
    ensures i >= 0 ==> lb[i].userId == id && forall k | 0 <= k < i :: lb[k].userId != id
    ensures i < 0 <==> forall k | 0 <= k < |lb| :: lb[k].userId != id
    decreases |lb|
  {
    if lb == [] then -1
    else if lb[0].userId == id then 0
    else
      var j := IndexOf(lb[1..], id);
      if j < 0 then -1 else j + 1
  }

  /** getUserRank: the 1-based position of the player's first entry, or none. */
  function Rank(lb: seq<Entry>, id: int): (r: Option<nat>)
    ensures r.None? <==> forall k | 0 <= k < |lb| :: lb[k].userId != id
    ensures r.Some? ==>
      && 1 <= r.value <= |lb|
      && lb[r.value - 1].userId == id
      && forall k | 0 <= k < r.value - 1 :: lb[k].userId != id
  {
    var i := IndexOf(lb, id);
    if i >= 0 then Some(i + 1) else None
  }

  /** In a list with one entry per player, a player's rank finds any entry of theirs. */
  lemma RankOfUnique(lb: seq<Entry>, k: nat)
    requires Unique(lb) && k < |lb|
    ensures Rank(lb, lb[k].userId) == Some(k + 1)
  {
  }

  /**
   * The list with the player's total in it: an existing entry of theirs gets
   * the new score and name in place, otherwise a new entry is appended.
   */
  function Upserted(lb: seq<Entry>, id: int, name: string, total: int): (r: seq<Entry>)
    ensures Entry(id, name, total) in r
    ensures |r| == if exists k | 0 <= k < |lb| :: lb[k].userId == id then |lb| else |lb| + 1
    ensures forall k | 0 <= k < |lb| && k != IndexOf(lb, id) :: r[k] == lb[k]
    ensures IndexOf(lb, id) >= 0 ==> r[IndexOf(lb, id)] == Entry(id, name, total)
    ensures forall x | x in r :: x == Entry(id, name, total) || x in lb
  {
    var i := IndexOf(lb, id);
    if i >= 0 then
      var r := lb[i := Entry(id, name, total)];
      assert r[i] == Entry(id, name, total);
      r
    else
      var r := lb + [Entry(id, name, total)];
      assert r[|lb|] == Entry(id, name, total);
      r
  }

  /** Upserting keeps one entry per player, and the player's one entry is the new one. */
  lemma UpsertedUnique(lb: seq<Entry>, id: int, name: string, total: int)
    requires Unique(lb)
    ensures var r := Upserted(lb, id, name, total);
      Unique(r) && forall x | x in r && x.userId == id :: x == Entry(id, name, total)
  {
    var r := Upserted(lb, id, name, total);
    var i := IndexOf(lb, id);
    forall x | x in r && x.userId == id
      ensures x == Entry(id, name, total)
    {
      var k :| 0 <= k < |r| && r[k] == x;
      assert k == i || k == |lb|;
    }
  }

  /**
   * Insert `e` into a descending list after every entry scoring at least as
   * much, so that entries with equal scores keep their order.
   */
  function Insert(e: Entry, s: seq<Entry>): (r: seq<Entry>)
    ensures multiset(r) == multiset(s) + multiset{e} && |r| == |s| + 1
    decreases |s|
  {
    if s == [] || s[0].score < e.score then [e] + s
    else
      assert s == [s[0]] + s[1..];
      [s[0]] + Insert(e, s[1..])
  }

  /** Every entry of a descending list after the first scores at most as much as the first. */
  lemma HeadIsBest(s: seq<Entry>, x: Entry)
    requires Descending(s) && |s| > 0 && x in s[1..]
    ensures x.score <= s[0].score
  {
    var k :| 0 <= k < |s[1..]| && s[1..][k] == x;
    assert s[k + 1] == x;
  }

  /** An entry scoring at least as much as every entry of a descending list can go in front of it. */
  lemma PrependDescending(x: Entry, t: seq<Entry>)
    requires Descending(t) && forall y | y in t :: y.score <= x.score
    ensures Descending([x] + t)
  {
    var r := [x] + t;
    forall i, j | 0 <= i < j < |r|
      ensures r[i].score >= r[j].score
    {
      assert r[j] == t[j - 1];
      if i > 0 {
        assert r[i] == t[i - 1];
      }
    }
  }

  /** An entry of a player absent from a list with one entry per player can go in front of it. */
  lemma PrependUnique(x: Entry, t: seq<Entry>)
    requires Unique(t) && forall y | y in t :: y.userId != x.userId
    ensures Unique([x] + t)
  {
    var r := [x] + t;
    forall i, j | 0 <= i < j < |r|
      ensures r[i].userId != r[j].userId
    {
      assert r[j] == t[j - 1];
      if i > 0 {
        assert r[i] == t[i - 1];
      }
    }
  }

  /** Every entry of Insert(e, s) is e or an entry of s. */
  lemma InsertFrom(e: Entry, s: seq<Entry>, y: Entry)
    requires y in Insert(e, s)
    ensures y == e || y in s
  {
    assert y in multiset(Insert(e, s));
  }

  /** Inserting into a descending list gives a descending list. */
  lemma {:induction false} InsertDescending(e: Entry, s: seq<Entry>)
    requires Descending(s)
    ensures Descending(Insert(e, s))
    decreases |s|
  {
    if s == [] || s[0].score < e.score {
      PrependDescending(e, s);
    } else {
      var t := s[1..];
      InsertDescending(e, t);
      forall y | y in Insert(e, t)
        ensures y.score <= s[0].score
      {
        InsertFrom(e, t, y);
        if y != e {
          HeadIsBest(s, y);
        }
      }
      PrependDescending(s[0], Insert(e, t));
    }
  }

  /** Inserting an entry of a player not yet in the list keeps one entry per player. */
  lemma {:induction false} InsertUnique(e: Entry, s: seq<Entry>)
    requires Unique(s) && forall x | x in s :: x.userId != e.userId
    ensures Unique(Insert(e, s))
    decreases |s|
  {
    if s == [] || s[0].score < e.score {
      PrependUnique(e, s);
    } else {
      var t := s[1..];
      assert forall x | x in t :: x in s;
      InsertUnique(e, t);
      forall y | y in Insert(e, t)
        ensures y.userId != s[0].userId
      {
        InsertFrom(e, t, y);
        if y != e {
          var k :| 0 <= k < |t| && t[k] == y;
          assert s[k + 1] == y;
        }
      }
      PrependUnique(s[0], Insert(e, t));
    }
  }

  /**
   * `lb.sort((a, b) => b.score - a.score)`: the entries by non-increasing
   * score, equal scores in their original order.
   */
  function SortedByScore(s: seq<Entry>): (r: seq<Entry>)
    ensures Descending(r)
    ensures multiset(r) == multiset(s) && |r| == |s|
    ensures Unique(s) ==> Unique(r)
    decreases |s|
  {
    if s == [] then []
    else
      var sorted := SortedByScore(s[..|s| - 1]);
      SortStep(s, sorted);
      Insert(s[|s| - 1], sorted)
  }

  /** Inserting the last entry into the sorted rest sorts the whole list. */
  lemma SortStep(s: seq<Entry>, sorted: seq<Entry>)
    requires |s| > 0 && Descending(sorted) && multiset(sorted) == multiset(s[..|s| - 1]) && |sorted| == |s| - 1
    requires Unique(s[..|s| - 1]) ==> Unique(sorted)
    ensures var r := Insert(s[|s| - 1], sorted);
      Descending(r) && multiset(r) == multiset(s) && |r| == |s| && (Unique(s) ==> Unique(r))
  {
    var n := |s| - 1;
    assert s == s[..n] + [s[n]];
    InsertDescending(s[n], sorted);
    if Unique(s) {
      assert Unique(s[..n]);
      SortedUnique(s, sorted);
    }
  }

  /** The entries scoring exactly v, in list order. */
  function WithScore(s: seq<Entry>, v: int): seq<Entry>
    decreases |s|
  {
    if s == [] then [] else (if s[0].score == v then [s[0]] else []) + WithScore(s[1..], v)
  }

  lemma {:induction false} WithScoreAppend(a: seq<Entry>, b: seq<Entry>, v: int)
    ensures WithScore(a + b, v) == WithScore(a, v) + WithScore(b, v)
    decreases |a|
  {
    if a == [] {
      assert a + b == b;
    } else {
      assert (a + b)[1..] == a[1..] + b;
      WithScoreAppend(a[1..], b, v);
      Associative(if a[0].score == v then [a[0]] else [], WithScore(a[1..], v), WithScore(b, v));
    }
  }

  /** A list whose first entry scores below v, and that is descending, has no entry scoring v. */
  lemma {:induction false} WithScoreBelow(s: seq<Entry>, v: int)
    requires Descending(s) && |s| > 0 && s[0].score < v
    ensures WithScore(s, v) == []
    decreases |s|
  {
    if |s| > 1 {
      WithScoreBelow(s[1..], v);
    }
  }

  /** The entries scoring v of a list with `x` in front. */
  lemma WithScoreCons(x: Entry, t: seq<Entry>, v: int)
    ensures WithScore([x] + t, v) == (if x.score == v then [x] else []) + WithScore(t, v)
  {
    assert ([x] + t)[1..] == t;
  }

  lemma Associative(a: seq<Entry>, b: seq<Entry>, c: seq<Entry>)
    ensures a + (b + c) == (a + b) + c
  {
  }

  lemma DescendingTail(s: seq<Entry>)
    requires Descending(s) && |s| > 0
    ensures Descending(s[1..])
  {
  }

  /** Insertion puts `e` after every entry with its score. */
  lemma {:induction false} InsertStable(e: Entry, s: seq<Entry>, v: int)
    requires Descending(s)
    ensures WithScore(Insert(e, s), v) == WithScore(s, v) + WithScore([e], v)
    decreases |s|
  {
    var mine := if e.score == v then [e] else [];
    WithScoreCons(e, [], v);
    assert [e] + [] == [e] && mine + [] == mine;
    if s == [] {
      assert Insert(e, s) == [e];
      assert [] + mine == mine;
    } else if s[0].score < e.score {
      assert Insert(e, s) == [e] + s;
      WithScoreCons(e, s, v);
      if e.score == v {
        WithScoreBelow(s, v);
        assert mine + [] == [] + mine;
      }
    } else {
      var t := s[1..];
      assert Insert(e, s) == [s[0]] + Insert(e, t);
      assert s == [s[0]] + t;
      var head := if s[0].score == v then [s[0]] else [];
      WithScoreCons(s[0], Insert(e, t), v);
      WithScoreCons(s[0], t, v);
      DescendingTail(s);
      InsertStable(e, t, v);
      Associative(head, WithScore(t, v), mine);
    }
  }

  /** Sorting is stable: the entries with any one score keep their order. */
  lemma {:induction false} SortStable(s: seq<Entry>, v: int)
    ensures WithScore(SortedByScore(s), v) == WithScore(s, v)
    decreases |s|
  {
    if s != [] {
      var n := |s| - 1;
      var sorted := SortedByScore(s[..n]);
      SortStable(s[..n], v);
      assert s == s[..n] + [s[n]];
      StableStep(s[..n], s[n], sorted, v);
    }
  }

  /** Inserting one more entry into a stably sorted list keeps the order per score of the longer list. */
  lemma StableStep(a: seq<Entry>, e: Entry, sorted: seq<Entry>, v: int)
    requires Descending(sorted) && WithScore(sorted, v) == WithScore(a, v)
    ensures WithScore(Insert(e, sorted), v) == WithScore(a + [e], v)
  {
    InsertStable(e, sorted, v);
    WithScoreAppend(a, [e], v);
  }

  /** The last entry of a list with one entry per player is of a player not in the sorted rest. */
  lemma SortedUnique(s: seq<Entry>, sorted: seq<Entry>)
    requires |s| > 0 && multiset(sorted) == multiset(s[..|s| - 1])
    requires Unique(s) && Unique(sorted)
    ensures Unique(Insert(s[|s| - 1], sorted))
  {
    var n := |s| - 1;
    {
      forall x | x in sorted
        ensures x.userId != s[n].userId
      {
        assert x in multiset(s[..n]);
        var k :| 0 <= k < n && s[..n][k] == x;
        assert s[k] == x;
      }
      InsertUnique(s[n], sorted);
    }
  }

  /**
   * `lb` is the best of `all` as the leaderboard keeps them: descending, as
   * long as `all` up to LeaderboardSize, drawn from `all` (all of it when
   * there is room), and no entry left out scores more than one kept.
   */
  ghost predicate TopOf(all: seq<Entry>, lb: seq<Entry>) {
    && Descending(lb)
    && |lb| == Min(LeaderboardSize, |all|)
    && multiset(lb) <= multiset(all)
    && (|lb| < LeaderboardSize ==> multiset(lb) == multiset(all))
    && forall k, x | 0 <= k < |lb| && multiset(lb)[x] < multiset(all)[x] :: x.score <= lb[k].score
  }

  /**
   * What updateLeaderboard leaves, given the list it read: the best entries of
   * the upserted list, no new duplicate, and a rank for the player that finds
   * their new entry, or none only when the board is full of entries scoring
   * at least as much.
   */
  ghost predicate UpdatedFrom(stored: seq<Entry>, id: int, name: string, total: int, lb: seq<Entry>) {
    && TopOf(Upserted(stored, id, name, total), lb)
    && (Unique(stored) ==> Unique(lb))
    && (Rank(lb, id).None? ==> |lb| == LeaderboardSize && forall k | 0 <= k < |lb| :: lb[k].score >= total)
    && (Unique(stored) && Rank(lb, id).Some? ==> lb[Rank(lb, id).value - 1] == Entry(id, name, total))
  }

  /**
   * updateLeaderboard on the list read from storage (empty when nothing is
   * stored or the read fails): update or append the player's entry, sort by
   * score and keep the first LeaderboardSize.
   */
  method UpdateLeaderboard(stored: seq<Entry>, userId: int, username: string, totalScore: int)
    returns (lb: seq<Entry>)
    ensures UpdatedFrom(stored, userId, username, totalScore, lb)
    ensures var all := Upserted(stored, userId, username, totalScore);
      lb == SortedByScore(all)[..Min(LeaderboardSize, |all|)]
  {
    var list := stored;
    var existing := IndexOf(list, userId);
    if existing >= 0 {
      list := list[existing := list[existing].(score := totalScore)];
      list := list[existing := list[existing].(username := username)];
    } else {
      list := list + [Entry(userId, username, totalScore)];
    }
    ghost var all := Upserted(stored, userId, username, totalScore);
    assert list == all;
    list := SortedByScore(list);
    assert |list| == |all|;
    lb := list[..Min(LeaderboardSize, |list|)];
    UpdateMeetsSpec(stored, userId, username, totalScore, list);
  }

  /** Sorting the upserted list and keeping its first LeaderboardSize entries is what the update promises. */
  lemma UpdateMeetsSpec(stored: seq<Entry>, id: int, name: string, total: int, sorted: seq<Entry>)
    requires sorted == SortedByScore(Upserted(stored, id, name, total))
    ensures UpdatedFrom(stored, id, name, total, sorted[..Min(LeaderboardSize, |sorted|)])
  {
    var all := Upserted(stored, id, name, total);
    SortedTop(all);
    var lb := sorted[..Min(LeaderboardSize, |sorted|)];
    if Unique(stored) {
      UpsertedUnique(stored, id, name, total);
    }
    RankAfterUpdate(stored, id, name, total, lb);
  }

  /** Sorting and keeping the first LeaderboardSize gives the best entries, one per player if they were. */
  lemma SortedTop(all: seq<Entry>)
    ensures var sorted := SortedByScore(all);
      var lb := sorted[..Min(LeaderboardSize, |sorted|)];
      TopOf(all, lb) && (Unique(all) ==> Unique(lb))
  {
    var sorted := SortedByScore(all);
    TopOfDescending(all, sorted, Min(LeaderboardSize, |sorted|));
  }

  /** The first m entries of a descending permutation of `all` are its best. */
  lemma TopOfDescending(all: seq<Entry>, sorted: seq<Entry>, m: nat)
    requires Descending(sorted) && multiset(sorted) == multiset(all) && m == Min(LeaderboardSize, |sorted|)
    ensures TopOf(all, sorted[..m]) && (Unique(sorted) ==> Unique(sorted[..m]))
  {
    TopOrdered(sorted, m);
    TopKeepsBest(sorted, m);
    assert |sorted| == |multiset(all)| == |all|;
    if m < LeaderboardSize {
      assert sorted[..m] == sorted;
    }
  }

  /** The player's rank on the best entries of the upserted list. */
  lemma RankAfterUpdate(stored: seq<Entry>, id: int, name: string, total: int, lb: seq<Entry>)
    requires TopOf(Upserted(stored, id, name, total), lb)
    requires Unique(stored) ==> Unique(lb)
    ensures UpdatedFrom(stored, id, name, total, lb)
  {
    var all := Upserted(stored, id, name, total);
    var e := Entry(id, name, total);
    if Rank(lb, id).None? {
      assert e !in multiset(lb);
      assert e in multiset(all);
    }
    if Unique(stored) && Rank(lb, id).Some? {
      UpsertedUnique(stored, id, name, total);
      var x := lb[Rank(lb, id).value - 1];
      assert x in multiset(lb);
      assert x in all;
    }
  }

  /** The first m entries of a descending list are descending, and one per player if the list is. */
  lemma TopOrdered(sorted: seq<Entry>, m: nat)
    requires Descending(sorted) && m <= |sorted|
    ensures Descending(sorted[..m]) && multiset(sorted[..m]) <= multiset(sorted)
    ensures Unique(sorted) ==> Unique(sorted[..m])
  {
    assert sorted == sorted[..m] + sorted[m..];
  }

  /** Truncating a descending list drops no entry scoring more than one it keeps. */
  lemma TopKeepsBest(sorted: seq<Entry>, m: nat)
    requires Descending(sorted) && m <= |sorted|
    ensures forall k, x | 0 <= k < m && multiset(sorted[..m])[x] < multiset(sorted)[x] :: x.score <= sorted[k].score
  {
    assert sorted == sorted[..m] + sorted[m..];
    assert multiset(sorted) == multiset(sorted[..m]) + multiset(sorted[m..]);
    forall k, x | 0 <= k < m && multiset(sorted[..m])[x] < multiset(sorted)[x]
      ensures x.score <= sorted[k].score
    {
      assert x in multiset(sorted[m..]);
      DroppedScoresLess(sorted, m, x, k);
    }
  }

  /** An entry of a descending list that its first m entries lack scores at most as much as each of them. */
  lemma TopMissing(sorted: seq<Entry>, m: nat, e: Entry)
    requires Descending(sorted) && m <= |sorted|
    requires e in multiset(sorted) && forall k | 0 <= k < m :: sorted[k] != e
    ensures m < |sorted| && forall k | 0 <= k < m :: sorted[k].score >= e.score
  {
    assert sorted == sorted[..m] + sorted[m..];
    assert e !in sorted[..m];
    assert e in sorted[m..];
    forall k | 0 <= k < m
      ensures sorted[k].score >= e.score
    {
      DroppedScoresLess(sorted, m, e, k);
    }
  }

  /** In a descending list, an entry past position m scores at most what any entry before m does. */
  lemma DroppedScoresLess(sorted: seq<Entry>, m: nat, x: Entry, k: nat)
    requires Descending(sorted) && k < m <= |sorted| && x in multiset(sorted[m..])
    ensures x.score <= sorted[k].score
  {
    var j :| 0 <= j < |sorted[m..]| && sorted[m..][j] == x;
    assert sorted[m + j] == x;
  }

  /**
   * handleGameEnd, once its I/O is set aside: record the game in the totals,
   * then put the player's new total score on the leaderboard read from storage.
   */
  method HandleGameEnd(stats: Stats, stored: seq<Entry>, userId: int, username: string, gameType: string, score: int)
    returns (newStats: Stats, lb: seq<Entry>)
    ensures newStats == Recorded(stats, gameType, score)
    ensures UpdatedFrom(stored, userId, username, newStats.totalScore, lb)
    ensures var all := Upserted(stored, userId, username, newStats.totalScore);
      lb == SortedByScore(all)[..Min(LeaderboardSize, |all|)]
  {
    newStats := UpdateStats(stats, gameType, score);
    lb := UpdateLeaderboard(stored, userId, username, newStats.totalScore);
  }

  /**
   * Ties keep the stored order: a new player posting the same total as the
   * one stored entry goes after it and ranks second.
   */
  lemma TieRanksAfterStored(name: string)
    ensures var all := Upserted([Entry(1, "a", 5)], 2, name, 5);
      && SortedByScore(all)[..Min(LeaderboardSize, |all|)] == [Entry(1, "a", 5), Entry(2, name, 5)]
      && Rank(SortedByScore(all), 2) == Some(2)
  {
    var e1, e2 := Entry(1, "a", 5), Entry(2, name, 5);
    assert IndexOf([e1], 2) == -1;
    assert Upserted([e1], 2, name, 5) == [e1, e2];
    SortTie(e1, e2);
    assert IndexOf([e1, e2], 2) == 1;
  }

  /** Two entries with equal scores stay in their order. */
  lemma SortTie(e1: Entry, e2: Entry)
    requires e1.score == e2.score
    ensures SortedByScore([e1, e2]) == [e1, e2]
  {
    assert [e1, e2][..1] == [e1] && [e1][..0] == [];
    assert SortedByScore([e1]) == [e1];
    assert [e1][1..] == [];
    assert Insert(e2, [e1]) == [e1, e2];
  }

  /**
   * A first snake game on an empty store: the totals hold just that game, and
   * the leaderboard holds exactly the player's entry with that score.
   */
  lemma FirstGameOnEmptyStore(id: int, name: string, score: int, lb: seq<Entry>)
    requires score >= 0
    requires UpdatedFrom([], id, name, Recorded(NoGames, "snake", score).totalScore, lb)
    ensures Recorded(NoGames, "snake", score) == Stats(score, 1, 1, 0, score, 0)
    ensures lb == [Entry(id, name, score)]
  {
    var e := Entry(id, name, score);
    var stats := Recorded(NoGames, "snake", score);
    assert stats == Stats(score, 1, 1, 0, score, 0);
    assert Upserted([], id, name, stats.totalScore) == [e];
    OnlyEntry(e, lb);
  }

  /** The best of a one-entry list is that list. */
  lemma OnlyEntry(e: Entry, lb: seq<Entry>)
    requires TopOf([e], lb)
    ensures lb == [e]
  {
    assert |lb| == 1;
    assert lb[0] in multiset(lb);
  }
}

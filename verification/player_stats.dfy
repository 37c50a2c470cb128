/** `getUniquePlayers` of hooplinks/services/gameService.ts: one directory row per distinct player
    id across all games, with how many roster entries carry that id and the latest creation time
    of a game holding one, sorted with the most entries first. */
module PlayerStats {
  import opened Wrappers
  import opened Seqs
  import opened Types
  import opened Roster

  /** A roster entry met while walking the games, with the creation time of its game. */
  datatype Visit = Visit(entry: PlayerEntry, at: int)

  /** A directory row. `name` and `phone` are those of the first entry met for the id. */
  datatype PlayerRow = PlayerRow(userId: string, name: string, phone: Option<string>, gamesPlayed: nat, lastPlayed: int)

  function VisitOf(u: string): Visit -> bool { (v: Visit) => v.entry.userId == u }

  function RowOf(u: string): PlayerRow -> bool { (r: PlayerRow) => r.userId == u }

  function PlayedIs(n: nat): PlayerRow -> bool { (r: PlayerRow) => r.gamesPlayed == n }

  /** The entries of one roster, in order, paired with the game's creation time. */
  function RosterVisits(players: seq<PlayerEntry>, at: int): (r: seq<Visit>)
    ensures |r| == |players| && forall k :: 0 <= k < |r| ==> r[k] == Visit(players[k], at)
    decreases |players|
  {
    if |players| == 0 then [] else [Visit(players[0], at)] + RosterVisits(players[1..], at)
  }

  /** The order in which the nested `forEach` loops meet roster entries. */
  function Visits(games: seq<Game>): seq<Visit>
    decreases |games|
  {
    if |games| == 0 then []
    else Visits(games[..|games| - 1]) + RosterVisits(games[|games| - 1].players, games[|games| - 1].createdAt)
  }

  /** A visit is met exactly when its entry is on the roster of a game created at its time. */
  lemma {:induction false} VisitsMembers(games: seq<Game>)
    ensures forall v :: v in Visits(games) <==> exists g :: g in games && v.entry in g.players && v.at == g.createdAt
    decreases |games|
  {
    if |games| > 0 {
      var n := |games| - 1;
      VisitsMembers(games[..n]);
      var last := RosterVisits(games[n].players, games[n].createdAt);
      SplitLast(games);
      forall v ensures v in Visits(games) <==> exists g :: g in games && v.entry in g.players && v.at == g.createdAt {
        if v in last {
          var k :| 0 <= k < |last| && last[k] == v;
          assert v.entry == games[n].players[k];
        }
        if v.entry in games[n].players && v.at == games[n].createdAt {
          var k :| 0 <= k < |games[n].players| && games[n].players[k] == v.entry;
          assert last[k] == v;
        }
      }
    }
  }

  /** The number of roster entries carrying id `u`, summed over all games. */
  function Appearances(games: seq<Game>, u: string): nat
    decreases |games|
  {
    if |games| == 0 then 0
    else Appearances(games[..|games| - 1], u) + |Filter(UserIs(u), games[|games| - 1].players)|
  }

  lemma {:induction false} RosterVisitsCount(players: seq<PlayerEntry>, at: int, u: string)
    ensures |Filter(VisitOf(u), RosterVisits(players, at))| == |Filter(UserIs(u), players)|
    decreases |players|
  {
    if |players| > 0 {
      RosterVisitsCount(players[1..], at, u);
      FilterAppend(VisitOf(u), [Visit(players[0], at)], RosterVisits(players[1..], at));
    }
  }

  /** Counting the visits of `u` counts `u`'s roster entries over all games. */
  lemma {:induction false} VisitsCount(games: seq<Game>, u: string)
    ensures |Filter(VisitOf(u), Visits(games))| == Appearances(games, u)
    decreases |games|
  {
    if |games| > 0 {
      var n := |games| - 1;
      VisitsCount(games[..n], u);
      FilterAppend(VisitOf(u), Visits(games[..n]), RosterVisits(games[n].players, games[n].createdAt));
      RosterVisitsCount(games[n].players, games[n].createdAt, u);
    }
  }

  /** One step of the map-building loop: a known id has its count raised and its latest time
      kept at the maximum; a new id gets a row at the end with count 1. */
  function Record(rows: seq<PlayerRow>, v: Visit): seq<PlayerRow> {
    match FindIndex(RowOf(v.entry.userId), rows)
    case Some(i) =>
      rows[i := rows[i].(gamesPlayed := rows[i].gamesPlayed + 1,
                         lastPlayed := if v.at > rows[i].lastPlayed then v.at else rows[i].lastPlayed)]
    case None =>
      rows + [PlayerRow(v.entry.userId, v.entry.name, v.entry.phone, 1, v.at)]
  }

  /** `Array.from(playersMap.values())` after all visits: rows in insertion order. */
  function Tally(vs: seq<Visit>): seq<PlayerRow>
    decreases |vs|
  {
    if |vs| == 0 then [] else Record(Tally(vs[..|vs| - 1]), vs[|vs| - 1])
  }

  predicate DistinctIds(rows: seq<PlayerRow>) {
    forall i, j :: 0 <= i < j < |rows| ==> rows[i].userId != rows[j].userId
  }

  function RowIds(rows: seq<PlayerRow>): set<string> {
    set r | r in rows :: r.userId
  }

  function VisitIds(vs: seq<Visit>): set<string> {
    set v | v in vs :: v.entry.userId
  }

  /** The position of the first visit of `u`, or `|vs|` when there is none. */
  function FirstVisit(u: string, vs: seq<Visit>): nat {
    FindIndex(VisitOf(u), vs).GetOr(|vs|)
  }

  /** The largest time among the visits of `u`, `None` when there is none. */
  function LatestVisit(vs: seq<Visit>, u: string): (r: Option<int>)
    decreases |vs|
  {
    if |vs| == 0 then None
    else
      var prior := LatestVisit(vs[..|vs| - 1], u);
      var v := vs[|vs| - 1];
      if v.entry.userId != u then prior
      else if prior.Some? && prior.value >= v.at then prior
      else Some(v.at)
  }

  /** `LatestVisit` is the maximum: it is the time of some visit of `u` and no visit of `u` is
      later; it is `None` exactly when `u` is never met. */
  lemma {:induction false} LatestVisitIsMax(vs: seq<Visit>, u: string)
    ensures LatestVisit(vs, u).None? <==> forall v :: v in vs ==> v.entry.userId != u
    ensures LatestVisit(vs, u).Some? ==>
      && (exists v :: v in vs && v.entry.userId == u && v.at == LatestVisit(vs, u).value)
      && (forall v :: v in vs && v.entry.userId == u ==> v.at <= LatestVisit(vs, u).value)
    decreases |vs|
  {
    if |vs| > 0 {
      var n := |vs| - 1;
      LatestVisitIsMax(vs[..n], u);
      SplitLast(vs);
      assert vs[n] in vs;
      assert forall v :: v in vs ==> v in vs[..n] || v == vs[n];
      if LatestVisit(vs[..n], u).Some? {
        var w :| w in vs[..n] && w.entry.userId == u && w.at == LatestVisit(vs[..n], u).value;
        assert w in vs;
      }
    }
  }

  /** What a row must say about the visits: its count is the number of visits of its id, its
      latest time is the latest among them, and its name and phone are those of the first. */
  predicate RowFacts(row: PlayerRow, vs: seq<Visit>) {
    && row.gamesPlayed == |Filter(VisitOf(row.userId), vs)|
    && LatestVisit(vs, row.userId) == Some(row.lastPlayed)
    && match FindIndex(VisitOf(row.userId), vs)
       case None => false
       case Some(k) => vs[k].entry.name == row.name && vs[k].entry.phone == row.phone
  }

  predicate AllRowFacts(rows: seq<PlayerRow>, vs: seq<Visit>) {
    forall i :: 0 <= i < |rows| ==> RowFacts(rows[i], vs)
  }

  /** Rows appear in the order their ids were first met. */
  predicate FirstMetOrder(rows: seq<PlayerRow>, vs: seq<Visit>) {
    forall i, j :: 0 <= i < j < |rows| ==> FirstVisit(rows[i].userId, vs) < FirstVisit(rows[j].userId, vs)
  }

  /** `rows` is the directory of `vs`: one row per id met, in the order ids were first met, each
      with the facts of `RowFacts`. */
  predicate Tallied(rows: seq<PlayerRow>, vs: seq<Visit>) {
    && DistinctIds(rows)
    && RowIds(rows) == VisitIds(vs)
    && AllRowFacts(rows, vs)
    && FirstMetOrder(rows, vs)
  }

  lemma RowFactsOther(row: PlayerRow, vs: seq<Visit>, v: Visit)
    requires RowFacts(row, vs) && row.userId != v.entry.userId
    ensures RowFacts(row, vs + [v])
    ensures FirstVisit(row.userId, vs + [v]) == FirstVisit(row.userId, vs)
  {
    FilterAppend(VisitOf(row.userId), vs, [v]);
    FindIndexAppend(VisitOf(row.userId), vs, [v]);
    assert (vs + [v])[..|vs|] == vs;
  }

  lemma RowFactsSame(row: PlayerRow, vs: seq<Visit>, v: Visit)
    requires RowFacts(row, vs) && row.userId == v.entry.userId
    ensures RowFacts(row.(gamesPlayed := row.gamesPlayed + 1,
                          lastPlayed := if v.at > row.lastPlayed then v.at else row.lastPlayed), vs + [v])
    ensures FirstVisit(row.userId, vs + [v]) == FirstVisit(row.userId, vs)
  {
    FilterAppend(VisitOf(row.userId), vs, [v]);
    FindIndexAppend(VisitOf(row.userId), vs, [v]);
    assert (vs + [v])[..|vs|] == vs;
  }

  lemma RowFactsNew(vs: seq<Visit>, v: Visit)
    requires v.entry.userId !in VisitIds(vs)
    ensures RowFacts(PlayerRow(v.entry.userId, v.entry.name, v.entry.phone, 1, v.at), vs + [v])
    ensures FirstVisit(v.entry.userId, vs + [v]) == |vs|
  {
    var u := v.entry.userId;
    forall k | 0 <= k < |vs| ensures !VisitOf(u)(vs[k]) {
      assert vs[k] in vs;
    }
    FilterDropsAll(VisitOf(u), vs);
    FilterAppend(VisitOf(u), vs, [v]);
    FindIndexAppendFirst(VisitOf(u), vs, v);
    LatestVisitIsMax(vs, u);
    assert (vs + [v])[..|vs|] == vs;
  }

  /** One `Record` step keeps the directory faithful to the visits met so far. */
  lemma RecordStep(rows: seq<PlayerRow>, vs: seq<Visit>, v: Visit)
    requires Tallied(rows, vs)
    ensures Tallied(Record(rows, v), vs + [v])
  {
    match FindIndex(RowOf(v.entry.userId), rows)
    case Some(i) => RecordKnown(rows, vs, v, i);
    case None => RecordNew(rows, vs, v);
  }

  /** Changing one row without changing its id keeps ids distinct and the id set. */
  lemma UpdateKeepsIds(rows: seq<PlayerRow>, i: nat, x: PlayerRow)
    requires i < |rows| && x.userId == rows[i].userId
    ensures DistinctIds(rows) ==> DistinctIds(rows[i := x])
    ensures RowIds(rows[i := x]) == RowIds(rows)
  {
    var r := rows[i := x];
    forall y | y in r ensures y.userId in RowIds(rows) {
      var j :| 0 <= j < |r| && r[j] == y;
      assert rows[j] in rows;
    }
    forall y | y in rows ensures y.userId in RowIds(r) {
      var j :| 0 <= j < |rows| && rows[j] == y;
      assert r[j] in r;
    }
  }

  /** Appending a row with a new id keeps ids distinct and adds the id. */
  lemma AppendKeepsIds(rows: seq<PlayerRow>, x: PlayerRow)
    requires x.userId !in RowIds(rows)
    ensures DistinctIds(rows) ==> DistinctIds(rows + [x])
    ensures RowIds(rows + [x]) == RowIds(rows) + {x.userId}
  {
  }

  lemma VisitIdsAppend(vs: seq<Visit>, v: Visit)
    ensures VisitIds(vs + [v]) == VisitIds(vs) + {v.entry.userId}
  {
  }

  function NewRow(v: Visit): PlayerRow {
    PlayerRow(v.entry.userId, v.entry.name, v.entry.phone, 1, v.at)
  }

  function Bumped(row: PlayerRow, v: Visit): PlayerRow {
    row.(gamesPlayed := row.gamesPlayed + 1, lastPlayed := if v.at > row.lastPlayed then v.at else row.lastPlayed)
  }

  lemma KnownRowFacts(rows: seq<PlayerRow>, vs: seq<Visit>, v: Visit, i: nat)
    requires i < |rows| && rows[i].userId == v.entry.userId && DistinctIds(rows) && AllRowFacts(rows, vs)
    ensures AllRowFacts(rows[i := Bumped(rows[i], v)], vs + [v])
    ensures forall j :: 0 <= j < |rows| ==> FirstVisit(rows[j].userId, vs + [v]) == FirstVisit(rows[j].userId, vs)
  {
    var r := rows[i := Bumped(rows[i], v)];
    forall j | 0 <= j < |rows|
      ensures RowFacts(r[j], vs + [v])
      ensures FirstVisit(rows[j].userId, vs + [v]) == FirstVisit(rows[j].userId, vs)
    {
      if j == i {
        RowFactsSame(rows[j], vs, v);
      } else {
        RowFactsOther(rows[j], vs, v);
      }
    }
  }

  /** Bumping the row of a known id keeps the ids distinct and equal to the ids met. */
  lemma BumpedIds(rows: seq<PlayerRow>, vs: seq<Visit>, v: Visit, i: nat)
    requires i < |rows| && rows[i].userId == v.entry.userId
    requires DistinctIds(rows) && RowIds(rows) == VisitIds(vs)
    ensures DistinctIds(rows[i := Bumped(rows[i], v)])
    ensures RowIds(rows[i := Bumped(rows[i], v)]) == VisitIds(vs + [v])
  {
    UpdateKeepsIds(rows, i, Bumped(rows[i], v));
    VisitIdsAppend(vs, v);
    assert rows[i] in rows;
  }

  lemma RecordKnown(rows: seq<PlayerRow>, vs: seq<Visit>, v: Visit, i: nat)
    requires Tallied(rows, vs) && FindIndex(RowOf(v.entry.userId), rows) == Some(i)
    ensures Tallied(Record(rows, v), vs + [v])
  {
    assert rows[i].userId == v.entry.userId by {
      assert RowOf(v.entry.userId)(rows[i]);
    }
    var r := rows[i := Bumped(rows[i], v)];
    assert Record(rows, v) == r;
    BumpedIds(rows, vs, v, i);
    KnownRowFacts(rows, vs, v, i);
    SameIdsKeepOrder(rows, r, vs, vs + [v]);
  }

  lemma SameIdsKeepOrder(rows: seq<PlayerRow>, r: seq<PlayerRow>, vs: seq<Visit>, vs': seq<Visit>)
    requires |r| == |rows| && forall j :: 0 <= j < |rows| ==> r[j].userId == rows[j].userId
    requires forall j :: 0 <= j < |rows| ==> FirstVisit(rows[j].userId, vs') == FirstVisit(rows[j].userId, vs)
    requires FirstMetOrder(rows, vs)
    ensures FirstMetOrder(r, vs')
  {
  }

  lemma NewRowFacts(rows: seq<PlayerRow>, vs: seq<Visit>, v: Visit)
    requires AllRowFacts(rows, vs) && v.entry.userId !in VisitIds(vs)
    requires forall j :: 0 <= j < |rows| ==> rows[j].userId != v.entry.userId
    ensures AllRowFacts(rows + [NewRow(v)], vs + [v])
    ensures forall j :: 0 <= j < |rows| ==> FirstVisit(rows[j].userId, vs + [v]) == FirstVisit(rows[j].userId, vs) < |vs|
    ensures FirstVisit(v.entry.userId, vs + [v]) == |vs|
  {
    RowFactsNew(vs, v);
    forall j | 0 <= j < |rows|
      ensures RowFacts(rows[j], vs + [v])
      ensures FirstVisit(rows[j].userId, vs + [v]) == FirstVisit(rows[j].userId, vs) < |vs|
    {
      RowFactsOther(rows[j], vs, v);
    }
  }

  /** Appending the row of an id not met before keeps the ids distinct and equal to the ids met. */
  lemma NewIds(rows: seq<PlayerRow>, vs: seq<Visit>, v: Visit)
    requires DistinctIds(rows) && RowIds(rows) == VisitIds(vs)
    requires forall j :: 0 <= j < |rows| ==> rows[j].userId != v.entry.userId
    ensures v.entry.userId !in VisitIds(vs)
    ensures DistinctIds(rows + [NewRow(v)])
    ensures RowIds(rows + [NewRow(v)]) == VisitIds(vs + [v])
  {
    assert v.entry.userId !in RowIds(rows);
    AppendKeepsIds(rows, NewRow(v));
    VisitIdsAppend(vs, v);
  }

  lemma RecordNew(rows: seq<PlayerRow>, vs: seq<Visit>, v: Visit)
    requires Tallied(rows, vs) && FindIndex(RowOf(v.entry.userId), rows).None?
    ensures Tallied(Record(rows, v), vs + [v])
  {
    assert forall j :: 0 <= j < |rows| ==> !RowOf(v.entry.userId)(rows[j]);
    assert Record(rows, v) == rows + [NewRow(v)];
    NewIds(rows, vs, v);
    NewRowFacts(rows, vs, v);
    NewRowKeepsOrder(rows, vs, v);
  }

  /** The row of an id met last goes last in first-met order. */
  lemma NewRowKeepsOrder(rows: seq<PlayerRow>, vs: seq<Visit>, v: Visit)
    requires FirstMetOrder(rows, vs)
    requires forall j :: 0 <= j < |rows| ==> FirstVisit(rows[j].userId, vs + [v]) == FirstVisit(rows[j].userId, vs) < |vs|
    requires FirstVisit(v.entry.userId, vs + [v]) == |vs|
    ensures FirstMetOrder(rows + [NewRow(v)], vs + [v])
  {
  }

  /** The map-building loop yields the directory of the visits. */
  lemma {:induction false} TallyCorrect(vs: seq<Visit>)
    ensures Tallied(Tally(vs), vs)
    decreases |vs|
  {
    if |vs| > 0 {
      var n := |vs| - 1;
      TallyCorrect(vs[..n]);
      RecordStep(Tally(vs[..n]), vs[..n], vs[n]);
      SplitLast(vs);
    }
  }

  /** Places `x` after every row with at least as many games, scanning from the end. */
  function Insert(sorted: seq<PlayerRow>, x: PlayerRow): seq<PlayerRow>
    decreases |sorted|
  {
    if |sorted| == 0 then [x]
    else if sorted[|sorted| - 1].gamesPlayed >= x.gamesPlayed then sorted + [x]
    else Insert(sorted[..|sorted| - 1], x) + [sorted[|sorted| - 1]]
  }

  /** `.sort((a, b) => b.gamesPlayed - a.gamesPlayed)`, a stable sort, as an insertion sort. */
  function SortByGamesPlayed(rows: seq<PlayerRow>): seq<PlayerRow>
    decreases |rows|
  {
    if |rows| == 0 then [] else Insert(SortByGamesPlayed(rows[..|rows| - 1]), rows[|rows| - 1])
  }

  predicate MostPlayedFirst(rows: seq<PlayerRow>) {
    forall i, j :: 0 <= i < j < |rows| ==> rows[i].gamesPlayed >= rows[j].gamesPlayed
  }

  lemma {:induction false} InsertMultiset(t: seq<PlayerRow>, x: PlayerRow)
    ensures multiset(Insert(t, x)) == multiset(t) + multiset{x}
    decreases |t|
  {
    if |t| > 0 && t[|t| - 1].gamesPlayed < x.gamesPlayed {
      var n := |t| - 1;
      InsertMultiset(t[..n], x);
      SplitLast(t);
    }
  }

  /** The rows of `Insert(t, x)` are `x` and the rows of `t`. */
  lemma InsertMembers(t: seq<PlayerRow>, x: PlayerRow)
    ensures forall y :: y in Insert(t, x) <==> y == x || y in t
  {
  }

  /** A row with no more games than any row of a sorted sequence can go at its end. */
  lemma SortedAppend(front: seq<PlayerRow>, x: PlayerRow)
    requires MostPlayedFirst(front)
    requires forall k :: 0 <= k < |front| ==> front[k].gamesPlayed >= x.gamesPlayed
    ensures MostPlayedFirst(front + [x])
  {
  }

  /** A lower bound on the games of every row, and of `x`, bounds every row of the insertion. */
  lemma InsertLowerBound(s: seq<PlayerRow>, x: PlayerRow, b: nat)
    requires forall k :: 0 <= k < |s| ==> s[k].gamesPlayed >= b
    requires x.gamesPlayed >= b
    ensures forall k :: 0 <= k < |Insert(s, x)| ==> Insert(s, x)[k].gamesPlayed >= b
  {
  }

  lemma {:induction false} InsertSorted(t: seq<PlayerRow>, x: PlayerRow)
    requires MostPlayedFirst(t)
    ensures MostPlayedFirst(Insert(t, x))
    decreases |t|
  {
    if |t| == 0 {
    } else if t[|t| - 1].gamesPlayed >= x.gamesPlayed {
      SortedAppend(t, x);
    } else {
      var n := |t| - 1;
      InsertSorted(t[..n], x);
      assert forall k :: 0 <= k < n ==> t[..n][k].gamesPlayed >= t[n].gamesPlayed;
      InsertLowerBound(t[..n], x, t[n].gamesPlayed);
      SortedAppend(Insert(t[..n], x), t[n]);
    }
  }

  /** Two rows with different counts never both pass the same count's filter. */
  lemma SingletonFiltersDisjoint(a: PlayerRow, b: PlayerRow, n: nat)
    requires a.gamesPlayed != b.gamesPlayed
    ensures Filter(PlayedIs(n), [a]) == [] || Filter(PlayedIs(n), [b]) == []
  {
  }

  /** One step of `InsertStable`: `x` moves in front of a last row with fewer games. */
  lemma InsertStableStep(t: seq<PlayerRow>, x: PlayerRow, n: nat)
    requires |t| > 0 && t[|t| - 1].gamesPlayed < x.gamesPlayed
    requires Filter(PlayedIs(n), Insert(t[..|t| - 1], x)) == Filter(PlayedIs(n), t[..|t| - 1]) + Filter(PlayedIs(n), [x])
    ensures Filter(PlayedIs(n), Insert(t, x)) == Filter(PlayedIs(n), t) + Filter(PlayedIs(n), [x])
  {
    var m := |t| - 1;
    var p := PlayedIs(n);
    var front := Insert(t[..m], x);
    assert Insert(t, x) == front + [t[m]];
    SplitLast(t);
    FilterAppend(p, front, [t[m]]);
    FilterAppend(p, t[..m], [t[m]]);
    SingletonFiltersDisjoint(x, t[m], n);
    var a, fx, fm := Filter(p, t[..m]), Filter(p, [x]), Filter(p, [t[m]]);
    SwapEmptyTail(a, fx, fm);
  }

  /** Inserting `x` puts it after every row with the same count: restricted to any one count,
      insertion is appending. */
  lemma {:induction false} InsertStable(t: seq<PlayerRow>, x: PlayerRow, n: nat)
    ensures Filter(PlayedIs(n), Insert(t, x)) == Filter(PlayedIs(n), t) + Filter(PlayedIs(n), [x])
    decreases |t|
  {
    if |t| == 0 {
      assert Insert(t, x) == [x] && t == [];
    } else if t[|t| - 1].gamesPlayed >= x.gamesPlayed {
      FilterAppend(PlayedIs(n), t, [x]);
    } else {
      InsertStable(t[..|t| - 1], x, n);
      InsertStableStep(t, x, n);
    }
  }

  lemma {:induction false} InsertDistinct(t: seq<PlayerRow>, x: PlayerRow)
    requires DistinctIds(t) && x.userId !in RowIds(t)
    ensures DistinctIds(Insert(t, x))
    decreases |t|
  {
    if |t| == 0 {
    } else if t[|t| - 1].gamesPlayed >= x.gamesPlayed {
      AppendKeepsIds(t, x);
    } else {
      var n := |t| - 1;
      SplitLast(t);
      PrefixIds(t[..n], t[n]);
      InsertDistinct(t[..n], x);
      var front := Insert(t[..n], x);
      InsertMembers(t[..n], x);
      assert t[n].userId !in RowIds(front) by {
        assert t[n] in t;
        forall y | y in front ensures y.userId != t[n].userId {
          if y != x {
            assert y in t[..n];
          }
        }
      }
      AppendKeepsIds(front, t[n]);
    }
  }

  /** The ids of a prefix: distinctness carries over, and the last row's id is not among them. */
  lemma PrefixIds(front: seq<PlayerRow>, last: PlayerRow)
    requires DistinctIds(front + [last])
    ensures DistinctIds(front) && RowIds(front) <= RowIds(front + [last])
    ensures last.userId !in RowIds(front)
  {
    var t := front + [last];
    forall y | y in front ensures y in t && y.userId != last.userId {
      var k :| 0 <= k < |front| && front[k] == y;
      assert t[k] == y && t[|front|] == last;
    }
    forall i, j | 0 <= i < j < |front| ensures front[i].userId != front[j].userId {
      assert t[i] == front[i] && t[j] == front[j];
    }
  }

  /** The sort orders by count, most first, keeps every row with its multiplicity, and keeps the
      rows of each count in their original relative order (stability). */
  lemma {:induction false} SortCorrect(rows: seq<PlayerRow>)
    ensures MostPlayedFirst(SortByGamesPlayed(rows))
    ensures multiset(SortByGamesPlayed(rows)) == multiset(rows)
    ensures forall n: nat :: Filter(PlayedIs(n), SortByGamesPlayed(rows)) == Filter(PlayedIs(n), rows)
    decreases |rows|
  {
    if |rows| > 0 {
      var m := |rows| - 1;
      var front := SortByGamesPlayed(rows[..m]);
      SortCorrect(rows[..m]);
      InsertSorted(front, rows[m]);
      InsertMultiset(front, rows[m]);
      SplitLast(rows);
      forall n: nat ensures Filter(PlayedIs(n), SortByGamesPlayed(rows)) == Filter(PlayedIs(n), rows) {
        InsertStable(front, rows[m], n);
        FilterAppend(PlayedIs(n), rows[..m], [rows[m]]);
      }
    }
  }

  lemma SortMembers(rows: seq<PlayerRow>)
    ensures forall y :: y in SortByGamesPlayed(rows) <==> y in rows
  {
    SortCorrect(rows);
    var r := SortByGamesPlayed(rows);
    assert forall y :: y in r <==> y in multiset(r);
    assert forall y :: y in rows <==> y in multiset(rows);
  }

  lemma {:induction false} SortDistinct(rows: seq<PlayerRow>)
    requires DistinctIds(rows)
    ensures DistinctIds(SortByGamesPlayed(rows))
    decreases |rows|
  {
    if |rows| > 0 {
      var m := |rows| - 1;
      var front := SortByGamesPlayed(rows[..m]);
      SortDistinct(rows[..m]);
      SortMembers(rows[..m]);
      assert rows[m].userId !in RowIds(front) by {
        forall y | y in front ensures y.userId != rows[m].userId {
          var k :| 0 <= k < m && rows[..m][k] == y;
        }
      }
      InsertDistinct(front, rows[m]);
    }
  }

  /** `getUniquePlayers`: the directory rows, most games first. */
  function GetUniquePlayers(games: seq<Game>): (r: seq<PlayerRow>)
    ensures MostPlayedFirst(r)
    ensures multiset(r) == multiset(Tally(Visits(games)))
  {
    SortCorrect(Tally(Visits(games)));
    SortByGamesPlayed(Tally(Visits(games)))
  }

  /** A player id has a directory row exactly when it is on some game's roster. */
  lemma RowIdsAreRosterIds(games: seq<Game>)
    ensures forall u :: u in RowIds(Tally(Visits(games))) <==> exists g, p :: g in games && p in g.players && p.userId == u
  {
    TallyCorrect(Visits(games));
    forall u ensures u in VisitIds(Visits(games)) <==> exists g, p :: g in games && p in g.players && p.userId == u {
      VisitIdOnRoster(games, u);
    }
  }

  /** An id is met among the visits exactly when some roster carries it. */
  lemma VisitIdOnRoster(games: seq<Game>, u: string)
    ensures u in VisitIds(Visits(games)) <==> exists g, p :: g in games && p in g.players && p.userId == u
  {
  }

  /** Every row of the directory carries the facts of `RowFacts`. */
  lemma TallyRowFacts(vs: seq<Visit>, row: PlayerRow)
    requires row in Tally(vs)
    ensures RowFacts(row, vs)
  {
    TallyCorrect(vs);
    var rows := Tally(vs);
    var k :| 0 <= k < |rows| && rows[k] == row;
  }

  /** A row's latest time bounds the creation time of every game holding its id. */
  lemma RowLatestIsUpperBound(games: seq<Game>, row: PlayerRow)
    requires LatestVisit(Visits(games), row.userId) == Some(row.lastPlayed)
    ensures forall g, p :: g in games && p in g.players && p.userId == row.userId ==> g.createdAt <= row.lastPlayed
  {
    var vs := Visits(games);
    VisitsMembers(games);
    LatestVisitIsMax(vs, row.userId);
    forall g, p | g in games && p in g.players && p.userId == row.userId
      ensures g.createdAt <= row.lastPlayed
    {
      assert Visit(p, g.createdAt) in vs;
    }
  }

  /** A row's latest time is the creation time of some game holding its id. */
  lemma RowLatestIsAttained(games: seq<Game>, row: PlayerRow)
    requires LatestVisit(Visits(games), row.userId) == Some(row.lastPlayed)
    ensures exists g, p :: g in games && p in g.players && p.userId == row.userId && g.createdAt == row.lastPlayed
  {
    var vs := Visits(games);
    VisitsMembers(games);
    LatestVisitIsMax(vs, row.userId);
    var v :| v in vs && v.entry.userId == row.userId && v.at == row.lastPlayed;
    var g :| g in games && v.entry in g.players && v.at == g.createdAt;
  }

  /** The facts of one directory row, stated over the games. */
  lemma RowSummary(games: seq<Game>, row: PlayerRow)
    requires row in Tally(Visits(games))
    ensures row.gamesPlayed == Appearances(games, row.userId)
    ensures forall g, p :: g in games && p in g.players && p.userId == row.userId ==> g.createdAt <= row.lastPlayed
    ensures exists g, p :: g in games && p in g.players && p.userId == row.userId && g.createdAt == row.lastPlayed
  {
    TallyRowFacts(Visits(games), row);
    VisitsCount(games, row.userId);
    RowLatestIsUpperBound(games, row);
    RowLatestIsAttained(games, row);
  }

  /** Each player id on any roster gets exactly one row; its count is the number of roster
      entries carrying the id over all games, and its latest time is the creation time of the
      newest game holding such an entry. */
  lemma UniquePlayersSummary(games: seq<Game>)
    ensures var r := GetUniquePlayers(games);
      && DistinctIds(r)
      && (forall u :: u in RowIds(r) <==> exists g, p :: g in games && p in g.players && p.userId == u)
      && forall i :: 0 <= i < |r| ==>
           && r[i].gamesPlayed == Appearances(games, r[i].userId)
           && (forall g, p :: g in games && p in g.players && p.userId == r[i].userId ==> g.createdAt <= r[i].lastPlayed)
           && (exists g, p :: g in games && p in g.players && p.userId == r[i].userId && g.createdAt == r[i].lastPlayed)
  {
    var rows := Tally(Visits(games));
    var r := GetUniquePlayers(games);
    TallyCorrect(Visits(games));
    SortDistinct(rows);
    SortMembers(rows);
    assert RowIds(r) == RowIds(rows);
    RowIdsAreRosterIds(games);
    forall i | 0 <= i < |r|
      ensures r[i].gamesPlayed == Appearances(games, r[i].userId)
      ensures forall g, p :: g in games && p in g.players && p.userId == r[i].userId ==> g.createdAt <= r[i].lastPlayed
      ensures exists g, p :: g in games && p in g.players && p.userId == r[i].userId && g.createdAt == r[i].lastPlayed
    {
      assert r[i] in r;
      RowSummary(games, r[i]);
    }
  }

  /** Players with equally many games keep the order in which they were first met: restricted to
      any one count, the result is the insertion-ordered directory, whose rows are in first-met
      order. */
  lemma UniquePlayersTiesKeepFirstMetOrder(games: seq<Game>)
    ensures forall n: nat :: Filter(PlayedIs(n), GetUniquePlayers(games)) == Filter(PlayedIs(n), Tally(Visits(games)))
    ensures FirstMetOrder(Tally(Visits(games)), Visits(games))
  {
    SortCorrect(Tally(Visits(games)));
    TallyCorrect(Visits(games));
  }
}

/** The pure pieces of hooplinks/App.tsx: the home page's game filter, the confirmed count and
    "full" badge of a game card, and the "my games" list. */
module GameFilter {
  import opened Seqs
  import opened Types
  import opened Roster
  import opened Wrappers
  import opened GameService

  /** The skill drop-down: `'All'`, or one skill level (`'All Levels'` is a level, not `'All'`). */
  datatype SkillFilter = AnySkill | OnlySkill(level: SkillLevel)

  datatype Filters = Filters(skill: SkillFilter, date: string, location: string)

  /** The filters' initial state: `'All'`, `''`, `''`. */
  const DefaultFilters := Filters(AnySkill, "", "")

  /** `toLowerCase` restricted to ASCII letters. */
  function LowerChar(c: char): char {
    if 'A' <= c <= 'Z' then (c as int + 32) as char else c
  }

  function Lower(s: string): string
    decreases |s|
  {
    if |s| == 0 then "" else [LowerChar(s[0])] + Lower(s[1..])
  }

  /** Lower-casing keeps the length, changes every character by `LowerChar`, and is idempotent. */
  lemma {:induction false} LowerFacts(s: string)
    ensures |Lower(s)| == |s|
    ensures forall i :: 0 <= i < |s| ==> Lower(s)[i] == LowerChar(s[i])
    ensures Lower(Lower(s)) == Lower(s)
    decreases |s|
  {
    if |s| > 0 {
      LowerFacts(s[1..]);
      assert Lower(s)[1..] == Lower(s[1..]);
    }
  }

  /** `hay.includes(needle)`, searching from the front. */
  function Includes(hay: string, needle: string): bool
    decreases |hay|
  {
    if |needle| > |hay| then false
    else if hay[..|needle|] == needle then true
    else Includes(hay[1..], needle)
  }

  /** `needle` occurs in `hay` starting at index `i`. */
  predicate OccursAt(hay: string, needle: string, i: int) {
    0 <= i <= |hay| - |needle| && hay[i..i + |needle|] == needle
  }

  /** `Includes` holds exactly when `needle` occurs in `hay` at some position. */
  lemma {:induction false} IncludesIffOccurs(hay: string, needle: string)
    ensures Includes(hay, needle) <==> exists i :: OccursAt(hay, needle, i)
    decreases |hay|
  {
    if |needle| <= |hay| && hay[..|needle|] != needle {
      IncludesIffOccurs(hay[1..], needle);
      if exists i :: OccursAt(hay, needle, i) {
        var i :| OccursAt(hay, needle, i);
        assert i != 0;
        assert hay[1..][i - 1..i - 1 + |needle|] == hay[i..i + |needle|];
        assert OccursAt(hay[1..], needle, i - 1);
      }
      if Includes(hay[1..], needle) {
        var j :| OccursAt(hay[1..], needle, j);
        assert hay[1..][j..j + |needle|] == hay[j + 1..j + 1 + |needle|];
        assert OccursAt(hay, needle, j + 1);
      }
    } else if |needle| <= |hay| {
      assert OccursAt(hay, needle, 0);
    }
  }

  /** The test each game must pass: skill `'All'` or equal, date empty or equal, and location
      empty or a case-insensitive substring of the game's location. */
  predicate Keeps(f: Filters, g: Game) {
    && (f.skill.AnySkill? || f.skill.level == g.skillLevel)
    && (f.date == "" || g.date == f.date)
    && (f.location == "" || Includes(Lower(g.location), Lower(f.location)))
  }

  function KeepsGame(f: Filters): Game -> bool { (g: Game) => Keeps(f, g) }

  /** `filteredGames`: the games passing the filters, in their stored order. */
  function FilteredGames(games: seq<Game>, f: Filters): (r: seq<Game>)
    ensures IsSubsequence(r, games)
    ensures forall g :: g in r <==> g in games && Keeps(f, g)
    ensures forall g :: multiset(r)[g] == if Keeps(f, g) then multiset(games)[g] else 0
  {
    FilterIsSubsequence(KeepsGame(f), games);
    FilterMembers(KeepsGame(f), games);
    FilterMultiset(KeepsGame(f), games);
    Filter(KeepsGame(f), games)
  }

  /** With the filters at their initial values every game is listed, in order. */
  lemma DefaultFiltersKeepAll(games: seq<Game>)
    ensures FilteredGames(games, DefaultFilters) == games
  {
    FilterKeepsAll(KeepsGame(DefaultFilters), games);
  }

  /** The location test ignores the case of both the filter text and the game's location. */
  lemma LocationFilterIgnoresCase(f: Filters, g: Game)
    ensures Keeps(f, g) == Keeps(f.(location := Lower(f.location)), g)
    ensures Keeps(f, g) == Keeps(f, g.(location := Lower(g.location)))
  {
    LowerFacts(f.location);
    LowerFacts(g.location);
  }

  /** The "n / maxPlayers" card count: entries with status `confirmed`. */
  function DisplayedCount(g: Game): nat {
    ConfirmedCount(g.players)
  }

  /** `isFull`, and the WAITLIST badge: no confirmed seat is left. */
  predicate IsFull(g: Game) {
    DisplayedCount(g) >= g.maxPlayers
  }

  /** The confirmed and the waitlisted entries together make up the roster. */
  lemma {:induction false} ConfirmedPlusWaitlisted(players: seq<PlayerEntry>)
    ensures ConfirmedCount(players) + |Filter(IsWaitlisted, players)| == |players|
    decreases |players|
  {
    if |players| > 0 {
      ConfirmedPlusWaitlisted(players[1..]);
    }
  }

  /** The badge agrees with the service: a game shows WAITLIST exactly when a newcomer, joining
      or added by hand, would be waitlisted. */
  lemma FullIffNewcomerWaitlisted(g: Game, user: User, phone: Option<string>, guestName: string,
                                  suffix: string, now: int)
    requires !HasPlayer(g.players, user.id)
    ensures IsFull(g) <==> Join(g, user, phone, now).players[|g.players|].status == Waitlist
    ensures IsFull(g) <==> AddGuest(g, guestName, phone, suffix, now).players[|g.players|].status == Waitlist
  {
  }

  /** A game is one of the user's games when the user has an entry on its roster. */
  predicate IsMine(uid: string, g: Game) {
    HasPlayer(g.players, uid)
  }

  function MineFor(uid: string): Game -> bool { (g: Game) => IsMine(uid, g) }

  /** `myGames`: the games whose roster holds the user, in stored order. */
  function MyGames(games: seq<Game>, uid: string): (r: seq<Game>)
    ensures IsSubsequence(r, games)
    ensures forall g :: g in r <==> g in games && exists i :: 0 <= i < |g.players| && g.players[i].userId == uid
    ensures forall g :: multiset(r)[g] == if IsMine(uid, g) then multiset(games)[g] else 0
  {
    FilterIsSubsequence(MineFor(uid), games);
    FilterMembers(MineFor(uid), games);
    FilterMultiset(MineFor(uid), games);
    Filter(MineFor(uid), games)
  }

  /** "My games" follows the service: after a join the game is listed for the user. */
  lemma JoinedGameIsMine(s: Store, gameId: string, user: User, phone: Option<string>, now: int)
    requires FindGame(s.games, gameId).Some?
    ensures var i := FindGame(s.games, gameId).value;
      var joined := JoinGame(s, gameId, user, phone, now).store;
      joined.games[i] in MyGames(joined.games, user.id)
  {
  }

  /** After a leave the game is no longer listed for the user. */
  lemma LeftGameIsNotMine(s: Store, gameId: string, u: string)
    requires FindGame(s.games, gameId).Some?
    ensures var i := FindGame(s.games, gameId).value;
      var left := LeaveGame(s, gameId, u).store;
      left.games[i] !in MyGames(left.games, u)
  {
  }
}

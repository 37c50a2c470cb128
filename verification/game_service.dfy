/** The operations of hooplinks/services/gameService.ts over the two stored collections. Each
    operation reads the whole store and writes it back, so it is a function from the old store to
    the new one; the game an operation returns, or `null`, is the `game` of its `Reply`. */
module GameService {
  import opened Wrappers
  import opened Seqs
  import opened Types
  import opened Roster

  /** The `hoopslink_games` and `hoopslink_notifications` collections. */
  datatype Store = Store(games: seq<Game>, notifications: seq<Notification>)

  /** The store after an operation, with the game it returns (`None` for `null`). */
  datatype Reply = Reply(store: Store, game: Option<Game>)

  function GameIdIs(id: string): Game -> bool { (g: Game) => g.id == id }

  function GameIdIsNot(id: string): Game -> bool { (g: Game) => g.id != id }

  function ForUser(u: string): Notification -> bool { (n: Notification) => n.userId == u }

  function NotForUser(u: string): Notification -> bool { (n: Notification) => n.userId != u }

  /** `games.findIndex(g => g.id === gameId)`: the first game with that id. */
  function FindGame(games: seq<Game>, gameId: string): (r: Option<nat>)
    ensures r.Some? ==>
      && r.value < |games| && games[r.value].id == gameId
      && forall j :: 0 <= j < r.value ==> games[j].id != gameId
    ensures r.None? <==> forall j :: 0 <= j < |games| ==> games[j].id != gameId
  {
    FindIndex(GameIdIs(gameId), games)
  }

  /** Every game of `r` but the one at `i` is as in `s`, and notifications are untouched. */
  predicate OnlyGameChanged(s: Store, r: Store, i: nat) {
    && r.notifications == s.notifications
    && |r.games| == |s.games|
    && forall j :: 0 <= j < |s.games| && j != i ==> r.games[j] == s.games[j]
  }

  /** `games[index] = game; saveGames(games)` */
  function Put(s: Store, i: nat, g: Game): (r: Store)
    requires i < |s.games|
    ensures OnlyGameChanged(s, r, i) && r.games[i] == g
  {
    s.(games := s.games[i := g])
  }

  /** Writing back a game with the same id keeps it the first game with that id. */
  lemma PutKeepsFound(s: Store, gameId: string, i: nat, g: Game)
    requires FindGame(s.games, gameId) == Some(i) && g.id == gameId
    ensures FindGame(Put(s, i, g).games, gameId) == Some(i)
  {
  }

  /** No game has more confirmed entries than seats. */
  predicate WithinCapacity(s: Store) {
    forall j :: 0 <= j < |s.games| ==> ConfirmedCount(s.games[j].players) <= s.games[j].maxPlayers
  }

  /** `createGame`: appends a new unlocked game with an empty roster. */
  function CreateGame(s: Store, d: GameDraft, id: string, now: int): (r: Reply)
    ensures r.game.Some? && r.store.games == s.games + [r.game.value]
    ensures r.store.notifications == s.notifications
    ensures r.game.value == Game(id, d.title, d.organizerId, d.organizerName, d.date, d.time, d.location,
      d.locationUrl, d.maxPlayers, d.skillLevel, d.notes, [], false, now)
    ensures ConfirmedCount(r.game.value.players) == 0
    ensures WithinCapacity(s) && d.maxPlayers >= 0 ==> WithinCapacity(r.store)
  {
    var g := Game(id, d.title, d.organizerId, d.organizerName, d.date, d.time, d.location,
      d.locationUrl, d.maxPlayers, d.skillLevel, d.notes, [], false, now);
    Reply(s.(games := s.games + [g]), Some(g))
  }

  /** The spread `{ ...game, ...patch }`. */
  function MergeGame(g: Game, p: GamePatch): Game {
    Game(
      p.id.GetOr(g.id), p.title.GetOr(g.title), p.organizerId.GetOr(g.organizerId),
      p.organizerName.GetOr(g.organizerName), p.date.GetOr(g.date), p.time.GetOr(g.time),
      p.location.GetOr(g.location), p.locationUrl.GetOr(g.locationUrl),
      p.maxPlayers.GetOr(g.maxPlayers), p.skillLevel.GetOr(g.skillLevel), p.notes.GetOr(g.notes),
      p.players.GetOr(g.players), p.isLocked.GetOr(g.isLocked), p.createdAt.GetOr(g.createdAt))
  }

  const EmptyGamePatch := GamePatch(None, None, None, None, None, None, None, None, None, None, None, None, None, None)

  /** The patch the lock button sends: `{ isLocked: locked }`. */
  function LockPatch(locked: bool): GamePatch {
    EmptyGamePatch.(isLocked := Some(locked))
  }

  /** Merging is idempotent, the empty patch changes nothing, and the lock patch changes the lock
      flag alone. */
  lemma MergeGameLaws(g: Game, p: GamePatch, locked: bool)
    ensures MergeGame(MergeGame(g, p), p) == MergeGame(g, p)
    ensures MergeGame(g, EmptyGamePatch) == g
    ensures MergeGame(g, LockPatch(locked)) == g.(isLocked := locked)
  {
  }

  /** `updateGame`: `None` for an unknown id; otherwise the first game with the id becomes the
      merge of the patch into it and nothing else changes. */
  function UpdateGame(s: Store, gameId: string, patch: GamePatch): (r: Reply)
    ensures FindGame(s.games, gameId).None? ==> r == Reply(s, None)
    ensures FindGame(s.games, gameId).Some? ==>
      var i := FindGame(s.games, gameId).value;
      && OnlyGameChanged(s, r.store, i)
      && r.store.games[i] == MergeGame(s.games[i], patch)
      && r.game == Some(r.store.games[i])
  {
    match FindGame(s.games, gameId)
    case None => Reply(s, None)
    case Some(i) =>
      var g := MergeGame(s.games[i], patch);
      Reply(Put(s, i, g), Some(g))
  }

  /** The lock button: `updateGame(gameId, { isLocked: !currentStatus })` with the game's current
      flag. Only that game's flag changes; the roster is untouched. */
  function ToggleLock(s: Store, gameId: string): (r: Reply)
    ensures FindGame(s.games, gameId).None? ==> r == Reply(s, None)
    ensures FindGame(s.games, gameId).Some? ==>
      var i := FindGame(s.games, gameId).value;
      && OnlyGameChanged(s, r.store, i)
      && r.store.games[i] == s.games[i].(isLocked := !s.games[i].isLocked)
    ensures WithinCapacity(s) ==> WithinCapacity(r.store)
  {
    match FindGame(s.games, gameId)
    case None => Reply(s, None)
    case Some(i) =>
      MergeGameLaws(s.games[i], EmptyGamePatch, !s.games[i].isLocked);
      UpdateGame(s, gameId, LockPatch(!s.games[i].isLocked))
  }

  /** Toggling the lock twice restores the store. */
  lemma ToggleLockTwice(s: Store, gameId: string)
    ensures ToggleLock(ToggleLock(s, gameId).store, gameId).store == s
  {
    match FindGame(s.games, gameId)
    case None =>
    case Some(i) =>
      var once := ToggleLock(s, gameId).store;
      PutKeepsFound(s, gameId, i, once.games[i]);
      assert once == Put(s, i, once.games[i]);
      assert ToggleLock(once, gameId).store.games == s.games;
  }

  /** The notifications `deleteGame` sends for `g`: the k-th is addressed to the k-th roster entry
      and has id `ids(k)` and time `clock(k)`. */
  function CancellationNotices(g: Game, reason: string, ids: nat -> string, clock: nat -> int): (r: seq<Notification>)
    ensures |r| == |g.players|
    ensures forall k :: 0 <= k < |r| ==>
      r[k] == Notification(ids(k), g.players[k].userId, g.title, reason, clock(k), false)
  {
    seq(|g.players|, (k: int) requires 0 <= k < |g.players| =>
      Notification(ids(k), g.players[k].userId, g.title, reason, clock(k), false))
  }

  /** The games that remain once every game with the id is removed, in their stored order. */
  function OtherGames(games: seq<Game>, gameId: string): (r: seq<Game>)
    ensures forall g :: g in r ==> g.id != gameId
    ensures forall g :: g in games && g.id != gameId ==> g in r
    ensures IsSubsequence(r, games)
    ensures forall g :: multiset(r)[g] == if g.id != gameId then multiset(games)[g] else 0
    ensures FindGame(games, gameId).None? ==> r == games
  {
    FilterMembers(GameIdIsNot(gameId), games);
    FilterIsSubsequence(GameIdIsNot(gameId), games);
    FilterMultiset(GameIdIsNot(gameId), games);
    assert FindGame(games, gameId).None? ==> Filter(GameIdIsNot(gameId), games) == games by {
      if FindGame(games, gameId).None? {
        FilterKeepsAll(GameIdIsNot(gameId), games);
      }
    }
    Filter(GameIdIsNot(gameId), games)
  }

  /** `deleteGame`: the first game with the id sends one unread notification per roster entry, in
      roster order, after the existing ones; every game with the id is removed and the others keep
      their order. An unknown id changes nothing. */
  function DeleteGame(s: Store, gameId: string, reason: string, ids: nat -> string, clock: nat -> int): (r: Store)
    ensures FindGame(s.games, gameId).None? ==> r == s
    ensures FindGame(s.games, gameId).Some? ==>
      var g := s.games[FindGame(s.games, gameId).value];
      && |r.notifications| == |s.notifications| + |g.players|
      && r.notifications[..|s.notifications|] == s.notifications
      && forall k :: 0 <= k < |g.players| ==>
           r.notifications[|s.notifications| + k]
             == Notification(ids(k), g.players[k].userId, g.title, reason, clock(k), false)
    ensures forall g :: g in r.games ==> g.id != gameId
    ensures forall g :: g in s.games && g.id != gameId ==> g in r.games
    ensures IsSubsequence(r.games, s.games)
    ensures forall g :: multiset(r.games)[g] == if g.id != gameId then multiset(s.games)[g] else 0
  {
    var kept := OtherGames(s.games, gameId);
    match FindGame(s.games, gameId)
    case None => Store(kept, s.notifications)
    case Some(i) =>
      var sent := s.notifications + CancellationNotices(s.games[i], reason, ids, clock);
      assert sent[..|s.notifications|] == s.notifications;
      Store(kept, sent)
  }

  /** `joinGame`: an unknown id gives `None` and changes nothing; otherwise only the found game
      changes, by `Join`, which leaves it as it was when the user is already on its roster. */
  function JoinGame(s: Store, gameId: string, user: User, phone: Option<string>, now: int): (r: Reply)
    ensures FindGame(s.games, gameId).None? ==> r == Reply(s, None)
    ensures FindGame(s.games, gameId).Some? ==>
      var i := FindGame(s.games, gameId).value;
      && OnlyGameChanged(s, r.store, i)
      && r.store.games[i] == Join(s.games[i], user, phone, now)
      && r.game == Some(r.store.games[i])
      && (HasPlayer(s.games[i].players, user.id) ==> r.store == s)
    ensures WithinCapacity(s) ==> WithinCapacity(r.store)
  {
    match FindGame(s.games, gameId)
    case None => Reply(s, None)
    case Some(i) =>
      var g := s.games[i];
      if HasPlayer(g.players, user.id) then
        assert s.games[i := g] == s.games;
        Reply(s, Some(g))
      else
        var joined := Join(g, user, phone, now);
        Reply(Put(s, i, joined), Some(joined))
  }

  /** Joining twice is joining once: the second call returns the same game and store. */
  lemma JoinGameIdempotent(s: Store, gameId: string, user: User, phone: Option<string>, now: int,
                           phone': Option<string>, now': int)
    ensures var first := JoinGame(s, gameId, user, phone, now);
      JoinGame(first.store, gameId, user, phone', now') == first
  {
    var first := JoinGame(s, gameId, user, phone, now);
    match FindGame(s.games, gameId)
    case None =>
    case Some(i) =>
      var g := first.store.games[i];
      PutKeepsFound(s, gameId, i, g);
      assert first.store == Put(s, i, g);
      assert first.store.games[i := g] == first.store.games;
  }

  /** `manuallyAddPlayer`: an unknown id gives `None`; otherwise only the found game changes, by
      `AddGuest`. */
  function ManuallyAddPlayer(s: Store, gameId: string, name: string, phone: Option<string>,
                             suffix: string, now: int): (r: Reply)
    ensures FindGame(s.games, gameId).None? ==> r == Reply(s, None)
    ensures FindGame(s.games, gameId).Some? ==>
      var i := FindGame(s.games, gameId).value;
      && OnlyGameChanged(s, r.store, i)
      && r.store.games[i] == AddGuest(s.games[i], name, phone, suffix, now)
      && |r.store.games[i].players| == |s.games[i].players| + 1
      && r.game == Some(r.store.games[i])
    ensures WithinCapacity(s) ==> WithinCapacity(r.store)
  {
    match FindGame(s.games, gameId)
    case None => Reply(s, None)
    case Some(i) =>
      var g := AddGuest(s.games[i], name, phone, suffix, now);
      Reply(Put(s, i, g), Some(g))
  }

  /** `leaveGame`: an unknown id gives `None`; otherwise only the found game changes, by
      `Withdraw`, and it is returned even when the user was not on its roster. */
  function LeaveGame(s: Store, gameId: string, u: string): (r: Reply)
    ensures FindGame(s.games, gameId).None? ==> r == Reply(s, None)
    ensures FindGame(s.games, gameId).Some? ==>
      var i := FindGame(s.games, gameId).value;
      && OnlyGameChanged(s, r.store, i)
      && r.store.games[i] == Withdraw(s.games[i], u)
      && r.game == Some(r.store.games[i])
    ensures WithinCapacity(s) ==> WithinCapacity(r.store)
  {
    match FindGame(s.games, gameId)
    case None => Reply(s, None)
    case Some(i) =>
      var g := Withdraw(s.games[i], u);
      Reply(Put(s, i, g), Some(g))
  }

  /** `removePlayerFromGame` is `leaveGame` under another name. */
  function RemovePlayerFromGame(s: Store, gameId: string, u: string): (r: Reply)
    ensures r == LeaveGame(s, gameId, u)
  {
    LeaveGame(s, gameId, u)
  }

  /** `updatePlayerInGame`: `None`, with nothing changed, when the game or the player is missing;
      otherwise only the found game changes, by `EditPlayer`. */
  function UpdatePlayerInGame(s: Store, gameId: string, u: string, patch: PlayerPatch): (r: Reply)
    ensures FindGame(s.games, gameId).None? ==> r == Reply(s, None)
    ensures FindGame(s.games, gameId).Some? && !HasPlayer(s.games[FindGame(s.games, gameId).value].players, u)
      ==> r == Reply(s, None)
    ensures FindGame(s.games, gameId).Some? && HasPlayer(s.games[FindGame(s.games, gameId).value].players, u) ==>
      var i := FindGame(s.games, gameId).value;
      && OnlyGameChanged(s, r.store, i)
      && Some(r.store.games[i]) == EditPlayer(s.games[i], u, patch)
      && r.game == Some(r.store.games[i])
  {
    match FindGame(s.games, gameId)
    case None => Reply(s, None)
    case Some(i) =>
      match EditPlayer(s.games[i], u, patch)
      case None => Reply(s, None)
      case Some(g) => Reply(Put(s, i, g), Some(g))
  }

  /** The patch the organizer's edit form sends when it sets only a status. */
  function StatusPatch(st: Status): PlayerPatch {
    PlayerPatch(None, None, None, None, Some(st))
  }

  /** The raw edit performs no capacity check: confirming a waitlisted entry of a full game leaves
      that game with one confirmed entry more than it has seats. */
  lemma RawEditCanOverfill(s: Store, gameId: string, u: string)
    requires FindGame(s.games, gameId).Some?
    requires var g := s.games[FindGame(s.games, gameId).value];
      && ConfirmedCount(g.players) == g.maxPlayers
      && (exists k :: 0 <= k < |g.players| && g.players[k].userId == u && g.players[k].status == Waitlist
           && forall j :: 0 <= j < k ==> g.players[j].userId != u)
    ensures var r := UpdatePlayerInGame(s, gameId, u, StatusPatch(Confirmed));
      var i := FindGame(s.games, gameId).value;
      && r.game.Some?
      && ConfirmedCount(r.store.games[i].players) == r.store.games[i].maxPlayers + 1
      && !WithinCapacity(r.store)
  {
    var i := FindGame(s.games, gameId).value;
    var g := s.games[i];
    var k :| 0 <= k < |g.players| && g.players[k].userId == u && g.players[k].status == Waitlist
      && forall j :: 0 <= j < k ==> g.players[j].userId != u;
    EditConfirmsWaitlisted(g, u, k);
    var r := UpdatePlayerInGame(s, gameId, u, StatusPatch(Confirmed));
    assert r.store.games[i] == EditPlayer(g, u, StatusPatch(Confirmed)).value;
  }

  /** Setting the status of a waitlisted entry to confirmed takes one more seat. */
  lemma EditConfirmsWaitlisted(g: Game, u: string, k: nat)
    requires k < |g.players| && g.players[k].userId == u && g.players[k].status == Waitlist
    requires forall j :: 0 <= j < k ==> g.players[j].userId != u
    ensures EditPlayer(g, u, StatusPatch(Confirmed)).Some?
    ensures EditPlayer(g, u, StatusPatch(Confirmed)).value.maxPlayers == g.maxPlayers
    ensures ConfirmedCount(EditPlayer(g, u, StatusPatch(Confirmed)).value.players) == ConfirmedCount(g.players) + 1
  {
  }

  /** `getNotifications`: exactly the notifications addressed to `u`, in stored order. */
  function GetNotifications(s: Store, u: string): (r: seq<Notification>)
    ensures forall n :: n in r <==> n in s.notifications && n.userId == u
    ensures IsSubsequence(r, s.notifications)
  {
    FilterMembers(ForUser(u), s.notifications);
    FilterIsSubsequence(ForUser(u), s.notifications);
    Filter(ForUser(u), s.notifications)
  }

  /** `clearNotifications`: removes exactly the notifications addressed to `u`, keeping the order
      of the rest; games are untouched. */
  function ClearNotifications(s: Store, u: string): (r: Store)
    ensures r.games == s.games
    ensures forall n :: n in r.notifications <==> n in s.notifications && n.userId != u
    ensures IsSubsequence(r.notifications, s.notifications)
  {
    FilterMembers(NotForUser(u), s.notifications);
    FilterIsSubsequence(NotForUser(u), s.notifications);
    s.(notifications := Filter(NotForUser(u), s.notifications))
  }

  /** Clearing `u`'s notifications leaves `u` none and every other user's exactly as they were;
      what `u` could read and what remains split the stored notifications between them. */
  lemma ClearNotificationsIsolation(s: Store, u: string, v: string)
    ensures GetNotifications(ClearNotifications(s, u), u) == []
    ensures v != u ==> GetNotifications(ClearNotifications(s, u), v) == GetNotifications(s, v)
    ensures multiset(GetNotifications(s, u)) + multiset(ClearNotifications(s, u).notifications)
      == multiset(s.notifications)
  {
    ClearLeavesNone(s.notifications, u);
    if v != u {
      ClearKeepsOthers(s.notifications, u, v);
    }
    FilterSplitsMultiset(ForUser(u), NotForUser(u), s.notifications);
  }

  /** After clearing, none of the remaining notifications is addressed to `u`. */
  lemma ClearLeavesNone(ns: seq<Notification>, u: string)
    ensures Filter(ForUser(u), Filter(NotForUser(u), ns)) == []
  {
    var rest := Filter(NotForUser(u), ns);
    FilterDropsAll(ForUser(u), rest) by {
      forall i | 0 <= i < |rest| ensures !ForUser(u)(rest[i]) {
        assert rest[i] in rest;
      }
    }
  }

  lemma {:induction false} ClearKeepsOthers(ns: seq<Notification>, u: string, v: string)
    requires u != v
    ensures Filter(ForUser(v), Filter(NotForUser(u), ns)) == Filter(ForUser(v), ns)
    decreases |ns|
  {
    if |ns| > 0 {
      ClearKeepsOthers(ns[1..], u, v);
      var head := if ns[0].userId != u then [ns[0]] else [];
      assert Filter(NotForUser(u), ns) == head + Filter(NotForUser(u), ns[1..]);
      FilterAppend(ForUser(v), head, Filter(NotForUser(u), ns[1..]));
    }
  }
}

# HoopsLink roster and waitlist manager, in Dafny

HoopsLink is a pickup-basketball app. Organizers post games with a fixed number of seats. Players
join, and anyone who joins after the seats are taken goes on a waitlist. When a confirmed player
leaves, the first waitlisted entry in roster order is confirmed. Organizers can add guests by hand,
edit an entry directly, lock a game and cancel it. Cancelling sends a notification to everyone on
the roster. A player directory counts each player's appearances over all games.

This project models the service layer that does all of this, `hooplinks/services/gameService.ts`,
over the record shapes of `hooplinks/types.ts`. It also models the pure pieces of `hooplinks/App.tsx`
that read the rosters:
- the home page's game filter;
- the "n / maxPlayers" count and the WAITLIST badge;
- the "my games" list;
- the lock toggle.

Every mutating service function, on its success path, reads the whole stored collection, changes it
and writes it back; the reads (`getNotifications`, `getUniquePlayers`) and the early returns (an
unknown id, an already-joined user) write nothing. Here each service function is a pure function from the old `Store` (games and notifications) to the new one. The game a
function returns, or its `null`, is the `game` field of a `Reply`.

Modules, one file each:

- `Wrappers` (`wrappers.dfy`): `Option`.
- `Seqs` (`seqs.dfy`): generic `Filter` and `FindIndex`, the `Array.prototype.filter` and
  `findIndex` the service uses. Also the facts about them that the rest of the model needs:
  membership, multiplicity, order, appending and point updates.
- `Types` (`types.ts` records): `User`, `PlayerEntry`, `Game` and `Notification`. Also the
  partial-update records for the `{ ...x, ...updates }` spreads, where each field is an `Option`.
- `Roster` (`roster.dfy`): the per-game transitions.
  - `Join` and `AddGuest` share the capacity rule `Admit`.
  - `Withdraw` removes a player, with first-in-first-out promotion through `PromoteFirstWaitlisted`.
  - `EditPlayer` is the raw organizer edit.
- `GameService` (`game_service.dfy`): the exported service functions over the store, plus the lock
  toggle of `App.tsx`.
- `PlayerStats` (`player_stats.dfy`): `getUniquePlayers`, as a tally over all roster visits followed
  by a stable sort.
- `GameFilter` (`game_filter.dfy`): `filteredGames`, `isFull` and `myGames` from `App.tsx`.

The model follows the code in the places below, where the code is more specific than its obvious
reading.

- `leaveGame` removes every entry with the id. Whether anyone is promoted depends only on the first
  entry found. Promotion picks the first waitlisted entry in list order, not the smallest `joinedAt`.
  The two orders can differ after a raw edit.
- `leaveGame` returns the game, not `null`, when the player is not on its roster. Only an unknown
  game id gives `null`.
- `deleteGame` takes the notifications from the first game with the id, but removes every game with
  that id.
- `phone || user.phone` treats the empty string like a missing phone (`Roster.PhoneOr`).
- `getUniquePlayers` lists players in the order a `Map` keeps them: the order each id was first met,
  going through the games in stored order and each roster in order. It then sorts with the stable
  `Array.prototype.sort`, so players with the same count keep that order.

## Model

| member | source | states |
|---|---|---|
| Roster.Admit | hooplinks/services/gameService.ts:102-113 | exactly one entry is appended and the earlier ones are untouched; the new entry is confirmed iff the confirmed count was below `maxPlayers`; the confirmed count grows by one exactly then; a roster within capacity stays within capacity |
| Roster.PhoneOr | hooplinks/services/gameService.ts:108 | a non-empty given phone is used as given; a missing or empty given phone falls back to the user's |
| Roster.Join | hooplinks/services/gameService.ts:99-113 | a user already on the roster leaves the game unchanged; otherwise one entry is appended, carrying the user's id, and it is confirmed iff there was a free seat; afterwards the user is on the roster; capacity is preserved; nothing but the roster changes |
| Roster.GuestId | hooplinks/services/gameService.ts:128 | a guest id starts with `manual-` and is followed by the random suffix |
| Roster.AddGuest | hooplinks/services/gameService.ts:123-135 | there is no duplicate check; exactly one entry is appended with the guest id, name, phone and time; it is confirmed iff there was a free seat; capacity is preserved |
| Roster.PromoteFirstWaitlisted | hooplinks/services/gameService.ts:169-173 | only statuses change; with no waitlisted entry nothing changes; otherwise exactly the earliest waitlisted entry, every entry before it being confirmed, becomes confirmed, and the confirmed count grows by one |
| Roster.Withdraw | hooplinks/services/gameService.ts:163-174 | only the roster changes; no entry of the leaving user remains; the roster left is everyone else's entries in their order, with only statuses changed and no confirmed entry demoted; the confirmed count never grows |
| Roster.WithdrawOfConfirmedPromotes | hooplinks/services/gameService.ts:164-174 | when the user's first entry is confirmed, on any roster (several entries of the user included), the result is everyone else's entries with the earliest waitlisted one confirmed |
| Roster.LeaveOfConfirmedPromotesEarliestWaitlisted | hooplinks/services/gameService.ts:164-174 | when a confirmed player on the roster once leaves while someone waits, the result is the remaining roster with exactly its earliest waitlisted entry confirmed, and the confirmed count is unchanged |
| Roster.LeaveOfWaitlistedChangesNoStatus | hooplinks/services/gameService.ts:164-174 | when the first entry found for the player is waitlisted, or there is none, the result is exactly the remaining entries with no status changed; if all the player's entries were waitlisted, the confirmed count is unchanged |
| Roster.MergePlayerIdempotent | hooplinks/services/gameService.ts:149 | applying an entry patch twice is applying it once, and the empty patch is the identity |
| Roster.EditPlayer | hooplinks/services/gameService.ts:146-149 | `None` iff the player is not on the roster; otherwise only the entry at the player's first index changes, to the patch merged into it; there is no capacity check, so the confirmed count moves by exactly the difference of the old and new status |
| Roster.JoinsFillSeatsThenWaitlist | hooplinks/services/gameService.ts:102-113 | from an empty roster, distinct users joining in turn produce one entry each, in join order, with the k-th user's id and time; the k-th is confirmed iff k < maxPlayers, so min(N, maxPlayers) are confirmed |
| Roster.TwoSeatScenario | hooplinks/services/gameService.ts:92-178 | with two seats, A and B are confirmed and C waits; when A leaves, B and C are both confirmed and two entries are confirmed |
| Roster.FirstOfThreeLeaves | hooplinks/services/gameService.ts:164-174 | on a confirmed, confirmed, waitlisted roster, when the first player leaves the other two remain, in order, both confirmed |
| GameService.FindGame | hooplinks/services/gameService.ts:57 | the index is that of the first game with the id; `None` iff no game has it |
| GameService.CreateGame | hooplinks/services/gameService.ts:42-53 | exactly one game is appended: the draft's fields, the given id and time, an empty roster, unlocked; notifications are untouched; capacity is preserved |
| GameService.MergeGameLaws | hooplinks/services/gameService.ts:60 | merging a game patch is idempotent, the empty patch changes nothing, and the lock patch changes only `isLocked` |
| GameService.UpdateGame | hooplinks/services/gameService.ts:55-63 | an unknown id gives `None` and changes nothing; otherwise the first game with the id becomes the merge, it is returned, and nothing else changes |
| GameService.ToggleLock | hooplinks/App.tsx:990-993 | only the lock flag of the found game flips; rosters, the other games and notifications are untouched; capacity is preserved |
| GameService.ToggleLockTwice | hooplinks/App.tsx:990-993 | toggling the lock twice restores the store |
| GameService.DeleteGame | hooplinks/services/gameService.ts:65-90 | an unknown id changes nothing; otherwise exactly one unread notification per roster entry is appended after the existing ones, in roster order, with the entry's user id, the title and the reason; no game with the id remains; every other game is kept, in order; each kept game keeps all its copies |
| GameService.JoinGame | hooplinks/services/gameService.ts:92-116 | an unknown id gives `None` and changes nothing; otherwise only the found game changes, by `Join`, and it is returned; a user already on the roster leaves the store unchanged; capacity is preserved |
| GameService.JoinGameIdempotent | hooplinks/services/gameService.ts:99-100 | joining a second time, with any phone and time, returns the same game and store as the first join |
| GameService.ManuallyAddPlayer | hooplinks/services/gameService.ts:118-138 | an unknown id gives `None`; otherwise only the found game changes, by exactly one appended guest entry; capacity is preserved |
| GameService.LeaveGame | hooplinks/services/gameService.ts:158-178 | an unknown id gives `None`; otherwise only the found game changes, by `Withdraw`, and it is returned; capacity is preserved |
| GameService.RemovePlayerFromGame | hooplinks/services/gameService.ts:154-156 | removing a player is leaving, with the same result |
| GameService.UpdatePlayerInGame | hooplinks/services/gameService.ts:140-152 | a missing game or player gives `None` and changes nothing; otherwise only the found game changes, by `EditPlayer` |
| GameService.EditConfirmsWaitlisted | hooplinks/services/gameService.ts:146-149 | setting a waitlisted entry's status to confirmed by a raw edit takes one more seat |
| GameService.RawEditCanOverfill | hooplinks/services/gameService.ts:149 | on a full game, confirming a waitlisted entry by a raw edit leaves one more confirmed entry than seats, so the store is no longer within capacity |
| GameService.GetNotifications | hooplinks/services/gameService.ts:21-30 | exactly the notifications addressed to the user, in stored order |
| GameService.ClearNotifications | hooplinks/services/gameService.ts:32-40 | exactly the notifications not addressed to the user remain, in stored order; games are untouched |
| GameService.ClearNotificationsIsolation | hooplinks/services/gameService.ts:21-40 | after clearing, the user has no notifications and every other user has exactly the ones they had; what the user could read and what remains make up the stored notifications |
| PlayerStats.VisitsMembers | hooplinks/services/gameService.ts:184-185 | a visit is seen iff its entry is on the roster of a stored game and its time is that game's creation time |
| PlayerStats.VisitsCount | hooplinks/services/gameService.ts:184-188 | the number of visits of an id equals the number of roster entries with that id over all games |
| PlayerStats.LatestVisitIsMax | hooplinks/services/gameService.ts:189-191 | the kept time is the latest time among an id's visits: it bounds all of them and is one of them |
| PlayerStats.TallyCorrect | hooplinks/services/gameService.ts:184-202 | the map-building loop gives one row per id met, in first-met order; each row's count, latest time, name and phone match the visits |
| PlayerStats.SortCorrect | hooplinks/services/gameService.ts:204 | the sort orders rows by count, most first; it keeps every row with its multiplicity; it keeps the relative order of rows with equal counts |
| PlayerStats.GetUniquePlayers | hooplinks/services/gameService.ts:180-205 | the result is ordered by games played, most first, and holds exactly the tallied rows |
| PlayerStats.RowSummary | hooplinks/services/gameService.ts:186-199 | a row's count equals the player's appearances, and its latest time is the newest creation time among the games holding the player |
| PlayerStats.UniquePlayersSummary | hooplinks/services/gameService.ts:180-204 | ids are distinct; an id has a row iff some roster holds it; each row's count is its appearances and its latest time is the newest creation time among the games holding it |
| PlayerStats.UniquePlayersTiesKeepFirstMetOrder | hooplinks/services/gameService.ts:182-204 | among rows with equal counts, the order is the order in which their ids were first met |
| GameFilter.LowerFacts | hooplinks/App.tsx:1049 | lower-casing keeps the length, maps each character, and is idempotent |
| GameFilter.IncludesIffOccurs | hooplinks/App.tsx:1049 | `includes` holds iff the needle occurs at some position of the text |
| GameFilter.FilteredGames | hooplinks/App.tsx:1045-1052 | the result is an order-preserving subsequence; a game is in it iff it is stored and passes the skill, date and location tests; a passing game keeps its multiplicity |
| GameFilter.DefaultFiltersKeepAll | hooplinks/App.tsx:1047-1049 | with the filters at their initial `'All'`, `''`, `''` every game is listed, in order |
| GameFilter.LocationFilterIgnoresCase | hooplinks/App.tsx:1049 | lower-casing the filter text or the game's location does not change the verdict |
| GameFilter.ConfirmedPlusWaitlisted | hooplinks/App.tsx:243 | the displayed confirmed count plus the number of waitlisted entries is the roster size |
| GameFilter.FullIffNewcomerWaitlisted | hooplinks/App.tsx:346 | a game shows WAITLIST iff a newcomer, joining or added by hand, would be waitlisted |
| GameFilter.MyGames | hooplinks/App.tsx:781 | the result is an order-preserving subsequence; a game is in it iff it is stored and some entry carries the user's id; every copy of such a game is kept |
| GameFilter.JoinedGameIsMine | hooplinks/App.tsx:781 | after `joinGame` on a stored game, that game is among the user's games |
| GameFilter.LeftGameIsNotMine | hooplinks/App.tsx:781 | after `leaveGame` on a stored game, that game is not among the user's games |

## Left out

- Storage. The `localStorage` reads and writes and the JSON encoding (`hooplinks/services/gameService.ts:4-19`) are not modelled. The store is a value passed in and returned.
- Parse failures. A blob that does not parse is read as empty by `getGames` and `getNotifications`; `clearNotifications` catches the failure and writes nothing, so the bad blob stays stored, and the unguarded `JSON.parse` in `deleteGame` would then throw. Here stored data is always well formed, so none of these paths is modelled.
- Random ids and the clock. `Math.random()` ids and `Date.now()` are parameters: a suffix and a time per call, and for `deleteGame` a function from notification position to id and to time. No claim is made that ids are unique, because the code does not ensure it.
- The UI. Rendering, navigation, `window.confirm`/`prompt`, sharing, deep links and the login state are not modelled, and neither is `hooplinks/components/Layout.tsx`. The lock and organizer-only checks of `App.tsx` are only UI gates, and no service function checks them, so they appear nowhere in the model.
- GameFilter.Lower: lower-cases ASCII letters only. Full Unicode `toLowerCase` is not modelled.
- GameFilter.MyGames: takes the signed-in user's id. The signed-out case, where `user?.id` is `undefined` and the list is empty, is not modelled.
- Number widths. `maxPlayers` and the timestamps are JavaScript numbers, modelled as `int`. Fractional or `NaN` capacities and the floating-point range are not modelled.
- PlayerStats.GetUniquePlayers: the sort comparator `b.gamesPlayed - a.gamesPlayed` is modelled as an insertion sort by count that places a row after every row with at least its count. This assumes the engine's sort is stable, as ECMAScript 2019 requires.

/** The per-game roster transitions of hooplinks/services/gameService.ts: join with the capacity
    rule, organizer-added guests, leaving with FIFO promotion from the waitlist, and the raw
    organizer edit of one entry. Each works on the game record read from the store; the
    store-level wrappers are in GameService. */
module Roster {
  import opened Wrappers
  import opened Seqs
  import opened Types

  predicate IsConfirmed(p: PlayerEntry) { p.status == Confirmed }

  predicate IsWaitlisted(p: PlayerEntry) { p.status == Waitlist }

  function UserIs(u: string): PlayerEntry -> bool { (p: PlayerEntry) => p.userId == u }

  function UserIsNot(u: string): PlayerEntry -> bool { (p: PlayerEntry) => p.userId != u }

  /** Entries of user `u` that count against capacity. */
  function ConfirmedEntryOf(u: string): PlayerEntry -> bool { (p: PlayerEntry) => p.userId == u && p.status == Confirmed }

  /** The number of entries counted against capacity (the "n" of "n / maxPlayers"). */
  function ConfirmedCount(players: seq<PlayerEntry>): nat {
    |Filter(IsConfirmed, players)|
  }

  /** `players.some(p => p.userId === u)` */
  predicate HasPlayer(players: seq<PlayerEntry>, u: string) {
    exists i :: 0 <= i < |players| && players[i].userId == u
  }

  /** The status a newcomer receives: confirmed while there is room, waitlisted otherwise. */
  function CapacityStatus(players: seq<PlayerEntry>, maxPlayers: int): Status {
    if ConfirmedCount(players) < maxPlayers then Confirmed else Waitlist
  }

  /** Appends one new entry whose status follows the capacity rule shared by join and manual add.
      The confirmed count grows by one exactly when there was room, so a roster within capacity
      stays within capacity. */
  function Admit(players: seq<PlayerEntry>, maxPlayers: int, userId: string, name: string,
                 phone: Option<string>, joinedAt: int): (r: seq<PlayerEntry>)
    ensures |r| == |players| + 1 && r[..|players|] == players
    ensures r[|players|].userId == userId && r[|players|].name == name
    ensures r[|players|].phone == phone && r[|players|].joinedAt == joinedAt
    ensures r[|players|].status == Confirmed <==> ConfirmedCount(players) < maxPlayers
    ensures ConfirmedCount(r) == if ConfirmedCount(players) < maxPlayers then ConfirmedCount(players) + 1 else ConfirmedCount(players)
    ensures ConfirmedCount(players) <= maxPlayers ==> ConfirmedCount(r) <= maxPlayers
  {
    var e := PlayerEntry(userId, name, phone, joinedAt, CapacityStatus(players, maxPlayers));
    FilterAppend(IsConfirmed, players, [e]);
    players + [e]
  }

  /** `phone || user.phone`: a non-empty phone is used as given; a missing or empty one falls
      back to the user's own. */
  function PhoneOr(given: Option<string>, fallback: Option<string>): (r: Option<string>)
    ensures r == given || r == fallback
    ensures given.Some? && given.value != "" ==> r == given
    ensures given.None? || given.value == "" ==> r == fallback
  {
    if given.Some? && given.value != "" then given else fallback
  }

  /** `joinGame` on the game found: a user already on the roster changes nothing; anyone else is
      appended at the end with the capacity rule's status, earlier entries untouched. */
  function Join(g: Game, user: User, phone: Option<string>, now: int): (r: Game)
    ensures HasPlayer(g.players, user.id) ==> r == g
    ensures !HasPlayer(g.players, user.id) ==>
      && r == g.(players := r.players)
      && |r.players| == |g.players| + 1
      && r.players[..|g.players|] == g.players
      && r.players[|g.players|] == PlayerEntry(user.id, user.name, PhoneOr(phone, user.phone), now, r.players[|g.players|].status)
      && (r.players[|g.players|].status == Confirmed <==> ConfirmedCount(g.players) < g.maxPlayers)
    ensures HasPlayer(r.players, user.id)
    ensures ConfirmedCount(r.players) == ConfirmedCount(g.players)
      + (if !HasPlayer(g.players, user.id) && ConfirmedCount(g.players) < g.maxPlayers then 1 else 0)
    ensures ConfirmedCount(g.players) <= g.maxPlayers ==> ConfirmedCount(r.players) <= g.maxPlayers
  {
    if HasPlayer(g.players, user.id) then g
    else
      var r := g.(players := Admit(g.players, g.maxPlayers, user.id, user.name, PhoneOr(phone, user.phone), now));
      assert r.players[|g.players|].userId == user.id;
      r
  }

  /** The id given to an organizer-added guest: `'manual-'` followed by a random suffix. */
  function GuestId(suffix: string): (id: string)
    ensures |id| == 7 + |suffix| && id[..7] == "manual-" && id[7..] == suffix
  {
    "manual-" + suffix
  }

  /** `manuallyAddPlayer` on the game found: always appends exactly one guest entry, with no
      duplicate check, under the same capacity rule as `Join`. */
  function AddGuest(g: Game, name: string, phone: Option<string>, suffix: string, now: int): (r: Game)
    ensures r == g.(players := r.players)
    ensures |r.players| == |g.players| + 1 && r.players[..|g.players|] == g.players
    ensures r.players[|g.players|] == PlayerEntry(GuestId(suffix), name, phone, now, r.players[|g.players|].status)
    ensures r.players[|g.players|].status == Confirmed <==> ConfirmedCount(g.players) < g.maxPlayers
    ensures ConfirmedCount(g.players) <= g.maxPlayers ==> ConfirmedCount(r.players) <= g.maxPlayers
  {
    g.(players := Admit(g.players, g.maxPlayers, GuestId(suffix), name, phone, now))
  }

  /** Confirms the earliest waitlisted entry, if there is one; nothing else changes. */
  function PromoteFirstWaitlisted(players: seq<PlayerEntry>): (r: seq<PlayerEntry>)
    ensures |r| == |players| && forall i :: 0 <= i < |r| ==> r[i] == players[i].(status := r[i].status)
    ensures forall i :: 0 <= i < |r| && players[i].status == Confirmed ==> r[i].status == Confirmed
    ensures (forall i :: 0 <= i < |players| ==> players[i].status == Confirmed) ==> r == players
    ensures (exists i :: 0 <= i < |players| && players[i].status == Waitlist) ==>
      exists k :: 0 <= k < |players| && players[k].status == Waitlist
        && (forall j :: 0 <= j < k ==> players[j].status == Confirmed)
        && r == players[k := players[k].(status := Confirmed)]
    ensures (forall i :: 0 <= i < |players| ==> players[i].status == Confirmed) ==> ConfirmedCount(r) == ConfirmedCount(players)
    ensures (exists i :: 0 <= i < |players| && players[i].status == Waitlist) ==> ConfirmedCount(r) == ConfirmedCount(players) + 1
  {
    match FindIndex(IsWaitlisted, players)
    case None =>
      assert forall i :: 0 <= i < |players| ==> !IsWaitlisted(players[i]);
      players
    case Some(k) =>
      PromoteAt(players, k);
      players[k := players[k].(status := Confirmed)]
  }

  /** Confirming the waitlisted entry at `k` changes only its status and adds one seat taken. */
  lemma PromoteAt(players: seq<PlayerEntry>, k: nat)
    requires k < |players| && players[k].status == Waitlist
    ensures var r := players[k := players[k].(status := Confirmed)];
      && |r| == |players|
      && (forall i :: 0 <= i < |r| ==> r[i] == players[i].(status := r[i].status))
      && (forall i :: 0 <= i < |r| && players[i].status == Confirmed ==> r[i].status == Confirmed)
      && ConfirmedCount(r) == ConfirmedCount(players) + 1
  {
    FilterCountUpdate(IsConfirmed, players, k, players[k].(status := Confirmed));
  }

  /** `leaveGame` on the game found: every entry of `u` is removed; when the first of them was
      confirmed, the earliest waitlisted entry that remains is confirmed. Only the roster changes,
      and the confirmed count never grows. */
  function Withdraw(g: Game, u: string): (r: Game)
    ensures r == g.(players := r.players)
    ensures forall p :: p in r.players ==> p.userId != u
    ensures var rest := Filter(UserIsNot(u), g.players);
      && |r.players| == |rest|
      && (forall i :: 0 <= i < |rest| ==> r.players[i] == rest[i].(status := r.players[i].status))
      && (forall i :: 0 <= i < |rest| && rest[i].status == Confirmed ==> r.players[i].status == Confirmed)
    ensures ConfirmedCount(r.players) <= ConfirmedCount(g.players)
  {
    var leaving := FindIndex(UserIs(u), g.players);
    var rest := Filter(UserIsNot(u), g.players);
    ConfirmedCountSplit(g.players, u);
    if leaving.Some? && g.players[leaving.value].status == Confirmed then
      FilterKeeps(ConfirmedEntryOf(u), g.players, leaving.value);
      PromotionKeepsOthers(rest, u);
      g.(players := PromoteFirstWaitlisted(rest))
    else
      g.(players := rest)
  }

  /** Promoting within entries that are not `u`'s leaves none of `u`'s entries. */
  lemma PromotionKeepsOthers(ps: seq<PlayerEntry>, u: string)
    requires forall p :: p in ps ==> p.userId != u
    ensures forall p :: p in PromoteFirstWaitlisted(ps) ==> p.userId != u
  {
  }

  /** The confirmed count splits into the confirmed entries of `u` and those of everyone else. */
  lemma {:induction false} ConfirmedCountSplit(players: seq<PlayerEntry>, u: string)
    ensures ConfirmedCount(players) == ConfirmedCount(Filter(UserIsNot(u), players)) + |Filter(ConfirmedEntryOf(u), players)|
    decreases |players|
  {
    if |players| > 0 {
      var p := players[0];
      var tail := players[1..];
      ConfirmedCountSplit(tail, u);
      var head := if p.userId != u then [p] else [];
      assert Filter(UserIsNot(u), players) == head + Filter(UserIsNot(u), tail);
      FilterAppend(IsConfirmed, head, Filter(UserIsNot(u), tail));
    }
  }

  /** The count of a filter is one when exactly one element passes. */
  lemma CountOfUniqueMatch(p: PlayerEntry -> bool, players: seq<PlayerEntry>, i: nat)
    requires i < |players| && p(players[i])
    requires forall j :: 0 <= j < |players| && j != i ==> !p(players[j])
    ensures |Filter(p, players)| == 1 && Filter(p, players) == [players[i]]
  {
    assert players == players[..i] + [players[i]] + players[i + 1..];
    FilterAppend(p, players[..i] + [players[i]], players[i + 1..]);
    FilterAppend(p, players[..i], [players[i]]);
    FilterDropsAll(p, players[..i]);
    FilterDropsAll(p, players[i + 1..]);
  }

  /** When the first entry of `u` is confirmed, leaving promotes within the remaining entries. */
  lemma WithdrawOfConfirmedPromotes(g: Game, u: string, i: nat)
    requires i < |g.players| && g.players[i].userId == u && g.players[i].status == Confirmed
    requires forall j :: 0 <= j < i ==> g.players[j].userId != u
    ensures Withdraw(g, u).players == PromoteFirstWaitlisted(Filter(UserIsNot(u), g.players))
  {
    assert FindIndex(UserIs(u), g.players) == Some(i) by {
      assert UserIs(u)(g.players[i]);
    }
  }

  /** A waitlisted entry of someone other than `u` is still waiting after `u`'s entries go. */
  lemma WaitlistedSurvivesRemoval(ps: seq<PlayerEntry>, u: string, w: nat)
    requires w < |ps| && ps[w].userId != u && ps[w].status == Waitlist
    ensures exists k :: 0 <= k < |Filter(UserIsNot(u), ps)| && Filter(UserIsNot(u), ps)[k].status == Waitlist
  {
    var rest := Filter(UserIsNot(u), ps);
    FilterKeeps(UserIsNot(u), ps, w);
    var k :| 0 <= k < |rest| && rest[k] == ps[w];
    assert rest[k].status == Waitlist;
  }

  /** Removing the single confirmed entry of `u` frees exactly one seat. */
  lemma RemovingUniqueConfirmedFreesOne(ps: seq<PlayerEntry>, u: string, i: nat)
    requires i < |ps| && ps[i].userId == u && ps[i].status == Confirmed
    requires forall j :: 0 <= j < |ps| && j != i ==> ps[j].userId != u
    ensures ConfirmedCount(Filter(UserIsNot(u), ps)) + 1 == ConfirmedCount(ps)
  {
    ConfirmedCountSplit(ps, u);
    CountOfUniqueMatch(ConfirmedEntryOf(u), ps, i);
  }

  /** `leaveGame` of a confirmed player who is on the roster once, while someone waits: exactly the
      earliest remaining waitlisted entry is confirmed, every other remaining entry is kept as it
      was, and the confirmed count is what it was before. */
  lemma LeaveOfConfirmedPromotesEarliestWaitlisted(g: Game, u: string, i: nat)
    requires i < |g.players| && g.players[i].userId == u && g.players[i].status == Confirmed
    requires forall j :: 0 <= j < |g.players| && j != i ==> g.players[j].userId != u
    requires exists j :: 0 <= j < |g.players| && g.players[j].status == Waitlist
    ensures var rest := Filter(UserIsNot(u), g.players);
      exists k :: 0 <= k < |rest| && rest[k].status == Waitlist
        && (forall j :: 0 <= j < k ==> rest[j].status == Confirmed)
        && Withdraw(g, u).players == rest[k := rest[k].(status := Confirmed)]
    ensures ConfirmedCount(Withdraw(g, u).players) == ConfirmedCount(g.players)
  {
    var rest := Filter(UserIsNot(u), g.players);
    WithdrawOfConfirmedPromotes(g, u, i);
    var w :| 0 <= w < |g.players| && g.players[w].status == Waitlist;
    assert w != i;
    WaitlistedSurvivesRemoval(g.players, u, w);
    RemovingUniqueConfirmedFreesOne(g.players, u, i);
  }

  /** `leaveGame` of a player whose first entry is waitlisted, or who is not on the roster, removes
      that player's entries and changes no status; when every entry of the player was waitlisted,
      the confirmed count is unchanged. */
  lemma LeaveOfWaitlistedChangesNoStatus(g: Game, u: string)
    requires forall i :: (0 <= i < |g.players| && g.players[i].userId == u
      && forall j :: 0 <= j < i ==> g.players[j].userId != u) ==> g.players[i].status == Waitlist
    ensures Withdraw(g, u).players == Filter(UserIsNot(u), g.players)
    ensures (forall i :: 0 <= i < |g.players| && g.players[i].userId == u ==> g.players[i].status == Waitlist)
      ==> ConfirmedCount(Withdraw(g, u).players) == ConfirmedCount(g.players)
  {
    var leaving := FindIndex(UserIs(u), g.players);
    if leaving.Some? {
      FirstOfUserFound(g.players, u, leaving.value, g.players[leaving.value]);
    }
    ConfirmedCountSplit(g.players, u);
    if forall i :: 0 <= i < |g.players| && g.players[i].userId == u ==> g.players[i].status == Waitlist {
      FilterDropsAll(ConfirmedEntryOf(u), g.players);
    }
  }

  /** The spread `{ ...entry, ...patch }`: each field the patch supplies overwrites the entry's. */
  function MergePlayer(p: PlayerEntry, patch: PlayerPatch): PlayerEntry {
    PlayerEntry(
      patch.userId.GetOr(p.userId),
      patch.name.GetOr(p.name),
      patch.phone.GetOr(p.phone),
      patch.joinedAt.GetOr(p.joinedAt),
      patch.status.GetOr(p.status))
  }

  /** Applying the same patch twice is the same as applying it once, and an empty patch is the
      identity. */
  lemma MergePlayerIdempotent(p: PlayerEntry, patch: PlayerPatch)
    ensures MergePlayer(MergePlayer(p, patch), patch) == MergePlayer(p, patch)
    ensures MergePlayer(p, PlayerPatch(None, None, None, None, None)) == p
  {
  }

  /** `updatePlayerInGame` on the game found: `None` when `u` is not on the roster; otherwise only
      the entry at the first index of `u` changes, to the merge of the patch into it. No capacity
      check and no promotion happen, so the confirmed count moves only by the edited entry. */
  function EditPlayer(g: Game, u: string, patch: PlayerPatch): (r: Option<Game>)
    ensures r.None? <==> !HasPlayer(g.players, u)
    ensures r.Some? ==>
      && r.value == g.(players := r.value.players)
      && exists k :: 0 <= k < |g.players| && g.players[k].userId == u
           && (forall j :: 0 <= j < k ==> g.players[j].userId != u)
           && r.value.players == g.players[k := MergePlayer(g.players[k], patch)]
           && ConfirmedCount(r.value.players) == ConfirmedCount(g.players)
                - (if g.players[k].status == Confirmed then 1 else 0)
                + (if MergePlayer(g.players[k], patch).status == Confirmed then 1 else 0)
  {
    match FindIndex(UserIs(u), g.players)
    case None =>
      FirstOfUserMissing(g.players, u);
      None
    case Some(k) =>
      FirstOfUserFound(g.players, u, k, MergePlayer(g.players[k], patch));
      Some(g.(players := g.players[k := MergePlayer(g.players[k], patch)]))
  }

  /** `findIndex` finds no entry of `u` exactly when `u` is not on the roster. */
  lemma FirstOfUserMissing(players: seq<PlayerEntry>, u: string)
    requires FindIndex(UserIs(u), players).None?
    ensures !HasPlayer(players, u)
  {
  }

  /** The index `findIndex` returns for `u` holds `u`'s first entry; replacing that entry by `e`
      moves the confirmed count by the difference of the two statuses. */
  lemma FirstOfUserFound(players: seq<PlayerEntry>, u: string, k: nat, e: PlayerEntry)
    requires FindIndex(UserIs(u), players) == Some(k)
    ensures k < |players| && players[k].userId == u && HasPlayer(players, u)
    ensures forall j :: 0 <= j < k ==> players[j].userId != u
    ensures ConfirmedCount(players[k := e]) == ConfirmedCount(players)
              - (if players[k].status == Confirmed then 1 else 0) + (if e.status == Confirmed then 1 else 0)
  {
    assert UserIs(u)(players[k]);
    assert forall j :: 0 <= j < k ==> !UserIs(u)(players[j]);
    FilterCountUpdate(IsConfirmed, players, k, e);
  }

  /** Users joining one after another through `Join`, the k-th at time `clock(k)` and without a
      phone override (as the join button does). */
  function JoinAll(g: Game, users: seq<User>, clock: nat -> int): (r: Game)
    ensures r == g.(players := r.players)
    decreases |users|
  {
    if |users| == 0 then g
    else Join(JoinAll(g, users[..|users| - 1], clock), users[|users| - 1], None, clock(|users| - 1))
  }

  /** The smaller of `n` and the capacity, where a negative capacity admits nobody. */
  function Seats(n: nat, maxPlayers: int): nat {
    if n < maxPlayers then n else if maxPlayers < 0 then 0 else maxPlayers
  }

  /** Starting from an empty roster, distinct users joining in turn fill the confirmed seats in
      join order and queue everybody after that: entry k belongs to the k-th user and is confirmed
      exactly when k is below the capacity, so min(N, maxPlayers) entries are confirmed. */
  lemma {:induction false} JoinsFillSeatsThenWaitlist(g: Game, users: seq<User>, clock: nat -> int)
    requires g.players == []
    requires forall i, j :: 0 <= i < j < |users| ==> users[i].id != users[j].id
    ensures var r := JoinAll(g, users, clock).players;
      && |r| == |users|
      && (forall k :: 0 <= k < |r| ==>
            r[k].userId == users[k].id && r[k].joinedAt == clock(k)
            && (r[k].status == Confirmed <==> k < g.maxPlayers))
      && ConfirmedCount(r) == Seats(|users|, g.maxPlayers)
    decreases |users|
  {
    var n := |users|;
    if n > 0 {
      var prefix := users[..n - 1];
      var prev := JoinAll(g, prefix, clock).players;
      JoinsFillSeatsThenWaitlist(g, prefix, clock);
      var u := users[n - 1];
      assert !HasPlayer(prev, u.id) by {
        forall k | 0 <= k < |prev| ensures prev[k].userId != u.id {
          assert prev[k].userId == users[k].id;
        }
      }
      var r := JoinAll(g, users, clock).players;
      assert r[..n - 1] == prev;
      forall k | 0 <= k < n
        ensures r[k].userId == users[k].id && r[k].joinedAt == clock(k)
        ensures r[k].status == Confirmed <==> k < g.maxPlayers
      {
        if k < n - 1 {
          assert r[k] == prev[k];
        }
      }
    }
  }

  /** The example run with two seats: A and B are confirmed, C waits; when A leaves, C is
      confirmed after B and two entries are confirmed. */
  lemma TwoSeatScenario(g: Game, a: User, b: User, c: User, clock: nat -> int)
    requires g.players == [] && g.maxPlayers == 2
    requires a.id != b.id && b.id != c.id && a.id != c.id
    ensures var joined := JoinAll(g, [a, b, c], clock).players;
      |joined| == 3 && joined[0].status == Confirmed && joined[1].status == Confirmed && joined[2].status == Waitlist
    ensures var left := Withdraw(JoinAll(g, [a, b, c], clock), a.id).players;
      && |left| == 2
      && left[0].userId == b.id && left[0].status == Confirmed
      && left[1].userId == c.id && left[1].status == Confirmed
      && ConfirmedCount(left) == 2
  {
    var joined := JoinAll(g, [a, b, c], clock);
    JoinsFillSeatsThenWaitlist(g, [a, b, c], clock);
    FirstOfThreeLeaves(joined, a.id, b.id, c.id);
  }

  /** Removing the first of three entries, whose users differ, leaves the other two in order. */
  lemma RemoveFirstOfThree(ps: seq<PlayerEntry>, a: string)
    requires |ps| == 3 && ps[0].userId == a && ps[1].userId != a && ps[2].userId != a
    ensures Filter(UserIsNot(a), ps) == [ps[1], ps[2]]
  {
    assert ps == [ps[0]] + [ps[1], ps[2]];
    FilterAppend(UserIsNot(a), [ps[0]], [ps[1], ps[2]]);
    FilterKeepsAll(UserIsNot(a), [ps[1], ps[2]]);
  }

  /** The leave step of `TwoSeatScenario`, on any roster of that shape. */
  lemma FirstOfThreeLeaves(h: Game, a: string, b: string, c: string)
    requires |h.players| == 3 && a != b && b != c && a != c
    requires h.players[0].userId == a && h.players[1].userId == b && h.players[2].userId == c
    requires h.players[0].status == Confirmed && h.players[1].status == Confirmed && h.players[2].status == Waitlist
    ensures var left := Withdraw(h, a).players;
      && |left| == 2
      && left[0].userId == b && left[0].status == Confirmed
      && left[1].userId == c && left[1].status == Confirmed
      && ConfirmedCount(left) == 2
  {
    var ps := h.players;
    RemoveFirstOfThree(ps, a);
    var rest := [ps[1], ps[2]];
    WithdrawOfConfirmedPromotes(h, a, 0);
    var left := PromoteFirstWaitlisted(rest);
    assert left == [ps[1], ps[2].(status := Confirmed)] by {
      assert FindIndex(IsWaitlisted, rest) == Some(1) by {
        assert !IsWaitlisted(rest[0]) && IsWaitlisted(rest[1]);
      }
    }
    AllConfirmedCount(left);
  }

  lemma AllConfirmedCount(players: seq<PlayerEntry>)
    requires forall i :: 0 <= i < |players| ==> players[i].status == Confirmed
    ensures ConfirmedCount(players) == |players|
  {
    FilterKeepsAll(IsConfirmed, players);
  }
}

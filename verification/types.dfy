/** The stored record shapes of hooplinks/types.ts. Timestamps are milliseconds since the epoch. */
module Types {
  import opened Wrappers

  datatype SkillLevel = Beginner | Intermediate | Advanced | AllLevels

  datatype Role = Player | Organizer

  /** A roster entry either counts against the game's capacity or waits for a spot. */
  datatype Status = Confirmed | Waitlist

  datatype User = User(id: string, name: string, email: string, role: Role, phone: Option<string>)

  datatype PlayerEntry = PlayerEntry(
    userId: string,
    name: string,
    phone: Option<string>,
    joinedAt: int,
    status: Status)

  /** A game; `players` is in join order, which is the waitlist's promotion order. */
  datatype Game = Game(
    id: string,
    title: string,
    organizerId: string,
    organizerName: string,
    date: string,
    time: string,
    location: string,
    locationUrl: Option<string>,
    maxPlayers: int,
    skillLevel: SkillLevel,
    notes: string,
    players: seq<PlayerEntry>,
    isLocked: bool,
    createdAt: int)

  datatype Notification = Notification(
    id: string,
    userId: string,
    gameTitle: string,
    reason: string,
    timestamp: int,
    read: bool)

  /** A `Partial<PlayerEntry>`: `None` is an absent key. An optional field present with
      value `undefined` is `Some(None)`. */
  datatype PlayerPatch = PlayerPatch(
    userId: Option<string>,
    name: Option<string>,
    phone: Option<Option<string>>,
    joinedAt: Option<int>,
    status: Option<Status>)

  /** A `Partial<Game>`, with the same reading of `None` as `PlayerPatch`. */
  datatype GamePatch = GamePatch(
    id: Option<string>,
    title: Option<string>,
    organizerId: Option<string>,
    organizerName: Option<string>,
    date: Option<string>,
    time: Option<string>,
    location: Option<string>,
    locationUrl: Option<Option<string>>,
    maxPlayers: Option<int>,
    skillLevel: Option<SkillLevel>,
    notes: Option<string>,
    players: Option<seq<PlayerEntry>>,
    isLocked: Option<bool>,
    createdAt: Option<int>)

  /** The fields an organizer supplies to `createGame`: a game without id, players,
      creation time and lock flag. */
  datatype GameDraft = GameDraft(
    title: string,
    organizerId: string,
    organizerName: string,
    date: string,
    time: string,
    location: string,
    locationUrl: Option<string>,
    maxPlayers: int,
    skillLevel: SkillLevel,
    notes: string)
}

/** The state of one game room and what each server handler does to it, as pure
    functions on a room value (backend/server.js). The classes of module Server
    update rooms in place and are proved to agree with these functions. */
module Rooms {

  import opened Wrappers

  /** Capacity of every room (`maxPlayers: 10`). */
  const MaxPlayers: nat := 10
  /** Fewest players with which a game may start. */
  const MinPlayers: nat := 4
  /** Length of a round in milliseconds. */
  const RoundMillis: int := 90000
  /** The coordinates recorded for a player who did not guess. */
  const WorstLat: real := 85.0
  const WorstLng: real := 180.0

  /** A player is identified by the id of its socket connection. */
  type PlayerId = string
  type RoomId = string

  datatype Player = Player(id: PlayerId, username: string)

  datatype Status = Waiting | Playing | Finished

  type NonNegReal = x: real | x >= 0.0

  /** How far a guess lies from the target, in kilometres. The great-circle distance is
      computed outside the model; `MaxValue` stands for `Number.MAX_VALUE`, the distance
      recorded for a player who did not guess, and lies beyond every real distance. */
  datatype Distance = Km(km: NonNegReal) | MaxValue

  /** The strict order `>` on distances. Nothing is farther than `MaxValue`, and
      `MaxValue` is farther than every real distance. */
  predicate Farther(a: Distance, b: Distance)
    ensures Farther(a, b) ==> b.Km?
    ensures a.MaxValue? && b.Km? ==> Farther(a, b)
  {
    match a
    case MaxValue => b.Km?
    case Km(x) => b.Km? && x > b.km
  }

  /** A recorded guess: coordinates, distance to the target and, for a submitted guess,
      the time it arrived. */
  datatype Guess = Guess(lat: real, lng: real, distance: Distance, timestamp: Option<int>)

  /** The guess filled in for a player who did not submit one. */
  const WorstGuess: Guess := Guess(WorstLat, WorstLng, MaxValue, None)

  /** A panorama to guess: its image and where it was taken. */
  datatype Location = Location(imageId: string, lat: real, lng: real)

  /** Every field of a room record. Ranks in `playerScores` are keyed by user name. */
  datatype RoomData = RoomData(
    id: RoomId,
    name: string,
    host: string,
    players: seq<Player>,
    status: Status,
    maxPlayers: nat,
    currentRound: int,
    maxRounds: int,
    eliminatedPlayers: seq<PlayerId>,
    playerScores: map<string, int>,
    currentLocation: Option<Location>,
    roundStartTime: Option<int>,
    roundEndTime: Option<int>,
    playerGuesses: map<PlayerId, Guess>)

  /** The error messages a handler sends back to the acting connection. */
  datatype Error = RoomNotFound | RoomFull | GameAlreadyStarted | NotEnoughPlayers

  datatype Result<T> = Ok(value: T) | Err(error: Error)

  /** What the end of a round schedules next: another round, or the end of the game. */
  datatype Next = NextRound | GameOver

  datatype RoundResult = RoundResult(room: RoomData, next: Next)

  /** A leave request from a connection that is not in the room changes nothing. */
  datatype LeaveResult = NotMember | Left(room: RoomData, gameEnded: bool)

  /** One entry of the room list sent to every client. */
  datatype RoomSummary = RoomSummary(id: RoomId, name: string, host: string, players: nat, maxPlayers: nat, status: Status)

  ghost predicate WithinCapacity(r: RoomData)
  {
    |r.players| <= r.maxPlayers
  }

  function Ids(ps: seq<Player>): set<PlayerId>
  {
    set p | p in ps :: p.id
  }

  // ---------------------------------------------------------------------------
  // Room registry handlers

  /** The record `createRoom` stores: empty, waiting, capacity 10. */
  function NewRoom(id: RoomId, name: string, host: string): (r: RoomData)
    ensures WithinCapacity(r) && r.status == Waiting
  {
    RoomData(id, name, host, [], Waiting, MaxPlayers, 0, 0, [], map[], None, None, None, map[])
  }

  /** `joinRoom` once the room is found: refused when the room is full or its game has
      started (in that order), otherwise the player is added at the end. */
  function Join(r: RoomData, p: Player): (res: Result<RoomData>)
    ensures res.Ok? <==> |r.players| < r.maxPlayers && r.status == Waiting
    ensures res.Ok? ==> res.value.players == r.players + [p] && WithinCapacity(res.value)
    ensures res.Ok? ==> res.value == r.(players := res.value.players)
    ensures |r.players| >= r.maxPlayers ==> res == Err(RoomFull)
    ensures |r.players| < r.maxPlayers && r.status != Waiting ==> res == Err(GameAlreadyStarted)
  {
    if |r.players| >= r.maxPlayers then Err(RoomFull)
    else if r.status != Waiting then Err(GameAlreadyStarted)
    else Ok(r.(players := r.players + [p]))
  }

  /** First position of a player with the given id (`findIndex`). */
  function IndexOf(ps: seq<Player>, id: PlayerId): (i: Option<nat>)
    ensures i.None? <==> id !in Ids(ps)
    ensures i.Some? ==> i.value < |ps| && ps[i.value].id == id
    ensures i.Some? ==> forall j :: 0 <= j < i.value ==> ps[j].id != id
  {
    if ps == [] then None
    else if ps[0].id == id then Some(0)
    else match IndexOf(ps[1..], id)
      case None => None
      case Some(k) => Some(k + 1)
  }

  /** The user name of the first player with the given id, as `players.find` gives it;
      the empty string stands for the `undefined` of a missing player. */
  function NameOf(ps: seq<Player>, id: PlayerId): (name: string)
    ensures id !in Ids(ps) ==> name == ""
  {
    match IndexOf(ps, id)
    case None => ""
    case Some(i) => ps[i].username
  }

  /** For a member, `NameOf` is the user name at the first position holding its id. */
  lemma NameOfFirstMatch(ps: seq<Player>, id: PlayerId)
    requires id in Ids(ps)
    ensures exists i :: (0 <= i < |ps| && ps[i].id == id && NameOf(ps, id) == ps[i].username
                         && forall j :: 0 <= j < i ==> ps[j].id != id)
  {
    var i := IndexOf(ps, id).value;
    assert 0 <= i < |ps| && ps[i].id == id && NameOf(ps, id) == ps[i].username
      && forall j :: 0 <= j < i ==> ps[j].id != id;
  }

  /** `leaveRoomHandler` on the room itself: the first player with the sender's id is
      removed; during a game an active leaver is eliminated and ranked, and the game
      ends at once when at most one active player is left. */
  function Leave(r: RoomData, sender: PlayerId): (res: LeaveResult)
    ensures res.NotMember? <==> sender !in Ids(r.players)
    ensures res.Left? ==> |res.room.players| == |r.players| - 1
    ensures res.Left? ==> res.room == r.(players := res.room.players, eliminatedPlayers := res.room.eliminatedPlayers,
                                          playerScores := res.room.playerScores, status := res.room.status)
    ensures res.Left? && (r.status != Playing || sender in r.eliminatedPlayers) ==>
      res.room == r.(players := res.room.players) && !res.gameEnded
  {
    match IndexOf(r.players, sender)
    case None => NotMember
    case Some(i) =>
      var leaving := r.players[i];
      var players := r.players[..i] + r.players[i + 1..];
      if r.status == Playing && sender !in r.eliminatedPlayers then
        var eliminated := r.eliminatedPlayers + [sender];
        var rank := |players| - |eliminated| + 2;
        var r1 := r.(players := players, eliminatedPlayers := eliminated,
                     playerScores := r.playerScores[leaving.username := rank]);
        var ended := |ActivePlayers(players, eliminated)| <= 1;
        Left(if ended then EndGame(r1) else r1, ended)
      else
        Left(r.(players := players), false)
  }

  /** A member's departure keeps the other players in join order: exactly the first
      entry holding the sender's id is taken out. */
  lemma LeaveKeepsOrder(r: RoomData, sender: PlayerId)
    requires sender in Ids(r.players)
    ensures Leave(r, sender).Left?
    ensures exists i :: (0 <= i < |r.players| && r.players[i].id == sender
                         && (forall j :: 0 <= j < i ==> r.players[j].id != sender)
                         && Leave(r, sender).room.players == r.players[..i] + r.players[i + 1..])
  {
    var i := IndexOf(r.players, sender).value;
    assert Leave(r, sender).room.players == r.players[..i] + r.players[i + 1..];
  }

  /** The room after `leaveRoomHandler`, or None when the handler deleted it. */
  function LeaveOutcome(r: RoomData, sender: PlayerId): (out: Option<RoomData>)
    ensures out.None? <==> sender in Ids(r.players) && |r.players| == 1
  {
    match Leave(r, sender)
    case NotMember => Some(r)
    case Left(r1, _) => if r1.players == [] then None else Some(r1)
  }

  /** The whole registry after `leaveRoomHandler(socket, id)`. */
  function AfterLeave(rooms: map<RoomId, RoomData>, id: RoomId, sender: PlayerId): (after: map<RoomId, RoomData>)
    ensures after.Keys <= rooms.Keys
    ensures forall k :: k in rooms && k != id ==> k in after && after[k] == rooms[k]
    ensures id !in rooms ==> after == rooms
    ensures id in rooms ==> (id in after <==> LeaveOutcome(rooms[id], sender).Some?)
    ensures id in after ==> after[id] == LeaveOutcome(rooms[id], sender).value
  {
    if id !in rooms then rooms
    else match LeaveOutcome(rooms[id], sender)
      case None => rooms - {id}
      case Some(r1) => rooms[id := r1]
  }

  /** The entry `broadcastRoomList` sends for a room. */
  function Summarize(r: RoomData): (s: RoomSummary)
    ensures s.id == r.id && s.name == r.name && s.host == r.host && s.status == r.status
    ensures s.players == |r.players| && s.maxPlayers == r.maxPlayers
    ensures WithinCapacity(r) ==> s.players <= s.maxPlayers
  {
    RoomSummary(r.id, r.name, r.host, |r.players|, r.maxPlayers, r.status)
  }

  // ---------------------------------------------------------------------------
  // Round state machine

  /** `startGame` once the room is found: refused below four players; otherwise the
      game (re)starts at round 1 of `players - 1`, with no eliminations and no ranks. */
  function StartGame(r: RoomData): (res: Result<RoomData>)
    ensures res.Err? <==> |r.players| < MinPlayers
    ensures res.Ok? ==> res.value.status == Playing && res.value.maxRounds >= MinPlayers - 1
    ensures res.Ok? ==> res.value.currentRound == 1 && res.value.maxRounds == |r.players| - 1
    ensures res.Ok? ==> res.value.eliminatedPlayers == [] && res.value.playerScores == map[]
    ensures res.Ok? ==> res.value.players == r.players
    ensures res.Ok? ==> res.value == r.(status := Playing, currentRound := 1, maxRounds := |r.players| - 1,
                                        eliminatedPlayers := [], playerScores := map[])
  {
    if |r.players| < MinPlayers then Err(NotEnoughPlayers)
    else Ok(r.(status := Playing, currentRound := 1, maxRounds := |r.players| - 1,
               eliminatedPlayers := [], playerScores := map[]))
  }

  /** The state part of `startRound`: with a location fetched at time `now`, the round
      gets its target, its 90-second window and an empty guess table. `location` is None
      when an exception reached the `catch` of `startRound`, which writes nothing; the
      fetcher itself reports failure as an image at (0, 0), which is a `Some`. */
  function StartRound(r: RoomData, location: Option<Location>, now: int): (r1: RoomData)
    ensures location.Some? ==> r1.currentLocation == location && r1.roundStartTime == Some(now)
    ensures location.Some? ==> r1.playerGuesses == map[] && r1.roundEndTime == Some(now + RoundMillis)
    ensures location.None? ==> r1 == r
    ensures r1 == r.(currentLocation := r1.currentLocation, roundStartTime := r1.roundStartTime,
                     roundEndTime := r1.roundEndTime, playerGuesses := r1.playerGuesses)
  {
    match location
    case None => r
    case Some(l) =>
      r.(currentLocation := Some(l), roundStartTime := Some(now), roundEndTime := Some(now + RoundMillis),
         playerGuesses := map[])
  }

  /** `submitGuess` once the room is found. Nothing happens unless a game is being played
      and the sender has not been eliminated; the handler also stops, with a TypeError,
      when no location has been set. Otherwise the sender's guess is (over)written. */
  function SubmitGuess(r: RoomData, sender: PlayerId, lat: real, lng: real, km: NonNegReal, now: int): (r1: RoomData)
    ensures r1.playerGuesses.Keys == r.playerGuesses.Keys || r1.playerGuesses.Keys == r.playerGuesses.Keys + {sender}
  {
    if r.status != Playing || sender in r.eliminatedPlayers || r.currentLocation.None? then r
    else r.(playerGuesses := r.playerGuesses[sender := Guess(lat, lng, Km(km), Some(now))])
  }

  /** The players not yet eliminated, in join order (`players.filter`). */
  function ActivePlayers(ps: seq<Player>, eliminated: seq<PlayerId>): (active: seq<Player>)
    ensures |active| <= |ps|
  {
    if ps == [] then []
    else
      var active := ActivePlayers(ps[..|ps| - 1], eliminated);
      var last := ps[|ps| - 1];
      if last.id in eliminated then active else active + [last]
  }

  /** The filter keeps join order: filtering a concatenation concatenates the filtered
      parts. */
  lemma {:induction false} ActiveConcat(a: seq<Player>, b: seq<Player>, eliminated: seq<PlayerId>)
    ensures ActivePlayers(a + b, eliminated) == ActivePlayers(a, eliminated) + ActivePlayers(b, eliminated)
    decreases |b|
  {
    if b == [] {
      assert a + b == a;
    } else {
      var b' := b[..|b| - 1];
      ActiveConcat(a, b', eliminated);
      assert (a + b)[..|a + b| - 1] == a + b';
      assert (a + b)[|a + b| - 1] == b[|b| - 1];
    }
  }

  /** A player is active exactly when it is in the room and its id is not eliminated. */
  lemma {:induction false} ActivePlayersMembers(ps: seq<Player>, eliminated: seq<PlayerId>)
    ensures forall p :: p in ActivePlayers(ps, eliminated) <==> p in ps && p.id !in eliminated
  {
    if ps != [] {
      ActivePlayersMembers(ps[..|ps| - 1], eliminated);
      assert ps == ps[..|ps| - 1] + [ps[|ps| - 1]];
    }
  }

  /** The first loop of `endRound`: every active player who has no guess is given the
      worst guess, in join order. */
  function FillIn(ps: seq<Player>, eliminated: seq<PlayerId>, guesses: map<PlayerId, Guess>): (filled: map<PlayerId, Guess>)
    ensures guesses.Keys <= filled.Keys
  {
    if ps == [] then guesses
    else
      var filled := FillIn(ps[..|ps| - 1], eliminated, guesses);
      var last := ps[|ps| - 1];
      if last.id !in eliminated && last.id !in filled then filled[last.id := WorstGuess] else filled
  }

  /** After the fill-in every active player has a guess, submitted guesses are kept, and
      every added entry is the worst guess of an active player of the room. */
  lemma {:induction false} FillInSpec(ps: seq<Player>, eliminated: seq<PlayerId>, guesses: map<PlayerId, Guess>)
    ensures var filled := FillIn(ps, eliminated, guesses);
      && (forall p :: p in ps && p.id !in eliminated ==> p.id in filled)
      && (forall id :: id in guesses ==> filled[id] == guesses[id])
      && (forall id :: id in filled && id !in guesses ==> filled[id] == WorstGuess && id !in eliminated && id in Ids(ps))
  {
    if ps != [] {
      FillInSpec(ps[..|ps| - 1], eliminated, guesses);
      assert ps == ps[..|ps| - 1] + [ps[|ps| - 1]];
    }
  }

  /** `i` is the player `endRound` eliminates among `active`: it has a guess, nobody's
      guess is farther, and every earlier player with a guess is strictly nearer. */
  ghost predicate IsFurthest(active: seq<Player>, guesses: map<PlayerId, Guess>, i: nat)
  {
    && i < |active| && active[i].id in guesses
    && (forall j :: 0 <= j < |active| && active[j].id in guesses ==>
          !Farther(guesses[active[j].id].distance, guesses[active[i].id].distance))
    && (forall j :: 0 <= j < i && active[j].id in guesses ==>
          Farther(guesses[active[i].id].distance, guesses[active[j].id].distance))
  }

  /** The second loop of `endRound`: scanning in order, a player replaces the current
      candidate only when strictly farther, so ties go to the earliest player. */
  function Furthest(active: seq<Player>, guesses: map<PlayerId, Guess>): (i: Option<nat>)
    ensures i.Some? ==> i.value < |active| && active[i.value].id in guesses
  {
    if active == [] then None
    else
      var best := Furthest(active[..|active| - 1], guesses);
      var last := |active| - 1;
      if active[last].id in guesses
         && (best.None? || Farther(guesses[active[last].id].distance, guesses[active[best.value].id].distance))
      then Some(last)
      else best
  }

  /** Nobody is chosen only when nobody has a guess; whoever is chosen is the furthest. */
  lemma {:induction false} FurthestSpec(active: seq<Player>, guesses: map<PlayerId, Guess>)
    ensures var i := Furthest(active, guesses);
      && (i.None? <==> forall j :: 0 <= j < |active| ==> active[j].id !in guesses)
      && (i.Some? ==> IsFurthest(active, guesses, i.value))
  {
    if active != [] {
      FurthestSpec(active[..|active| - 1], guesses);
    }
  }

  /** The elimination step of `endRound`, on a room whose guesses are filled in: when
      more than one player is active, the furthest is appended to the eliminated list and
      ranked `players - eliminated + 1`, counting the list after the append. */
  function Eliminate(r: RoomData): (r1: RoomData)
    ensures r1.players == r.players && r1.status == r.status && r1.currentRound == r.currentRound
    ensures r1 == r.(eliminatedPlayers := r1.eliminatedPlayers, playerScores := r1.playerScores)
  {
    var active := ActivePlayers(r.players, r.eliminatedPlayers);
    if |active| > 1 then
      match Furthest(active, r.playerGuesses)
      case None => r
      case Some(i) =>
        var eliminated := r.eliminatedPlayers + [active[i].id];
        r.(eliminatedPlayers := eliminated,
           playerScores := r.playerScores[active[i].username := |r.players| - |eliminated| + 1])
    else r
  }

  /** `endRound`: fill in missing guesses, eliminate, then decide from the count of
      active players taken BEFORE the elimination whether another round follows. */
  function EndRound(r: RoomData): (res: RoundResult)
    ensures res.room.players == r.players && res.room.status == r.status
    ensures res.next == GameOver <==> |ActivePlayers(r.players, r.eliminatedPlayers)| <= 1 || r.currentRound >= r.maxRounds
    ensures res.room.currentRound == if res.next == NextRound then r.currentRound + 1 else r.currentRound
    ensures res.room == r.(playerGuesses := res.room.playerGuesses, eliminatedPlayers := res.room.eliminatedPlayers,
                           playerScores := res.room.playerScores, currentRound := res.room.currentRound)
  {
    var active := ActivePlayers(r.players, r.eliminatedPlayers);
    var judged := Eliminate(r.(playerGuesses := FillIn(r.players, r.eliminatedPlayers, r.playerGuesses)));
    if |active| <= 1 || r.currentRound >= r.maxRounds then RoundResult(judged, GameOver)
    else RoundResult(judged.(currentRound := r.currentRound + 1), NextRound)
  }

  /** The first player in join order who is not eliminated (`players.find`). */
  function FirstActive(ps: seq<Player>, eliminated: seq<PlayerId>): (p: Option<Player>)
    ensures p.Some? ==> p.value in ps && p.value.id !in eliminated
    ensures p.None? ==> forall q :: q in ps ==> q.id in eliminated
    ensures p.Some? ==>
      exists i :: (0 <= i < |ps| && ps[i] == p.value
                   && forall j :: 0 <= j < i ==> ps[j].id in eliminated)
  {
    if ps == [] then None
    else if ps[0].id !in eliminated then Some(ps[0])
    else FirstActive(ps[1..], eliminated)
  }

  /** The winner `endGame` announces: the user name of the first active player, if any. */
  function Winner(r: RoomData): (w: Option<string>)
    ensures w.None? <==> forall q :: q in r.players ==> q.id in r.eliminatedPlayers
    ensures w.Some? ==>
      exists i :: (0 <= i < |r.players| && r.players[i].username == w.value
                   && r.players[i].id !in r.eliminatedPlayers
                   && forall j :: 0 <= j < i ==> r.players[j].id in r.eliminatedPlayers)
  {
    match FirstActive(r.players, r.eliminatedPlayers)
    case None => None
    case Some(p) => Some(p.username)
  }

  /** `endGame`: the game is over; the ranks are left as they are. */
  function EndGame(r: RoomData): (r1: RoomData)
    ensures r1.status == Finished && r1.playerScores == r.playerScores && r1.players == r.players
    ensures r1 == r.(status := Finished)
  {
    r.(status := Finished)
  }
}

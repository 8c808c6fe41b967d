/** The game server's state (backend/server.js): a registry of rooms, each an object
    whose fields the socket handlers and round timers update in place. Every method is
    proved to leave its object in the state the matching function of module Rooms
    describes. Timers and socket events are replaced by explicit method calls. */
module Server {

  import opened Wrappers
  import opened Rooms
  import RoomLemmas

  /** The `forEach` of `endRound` that picks whom to eliminate: `maxDistance` starts
      below every distance (`-1`, here None) and a player replaces the candidate only
      when its guess is strictly farther. */
  method FindFurthest(active: seq<Player>, guesses: map<PlayerId, Guess>) returns (eliminated: Option<nat>)
    ensures eliminated == Furthest(active, guesses)
  {
    var maxDistance: Option<Distance> := None;
    eliminated := None;
    for i := 0 to |active|
      invariant eliminated == Furthest(active[..i], guesses)
      invariant eliminated.Some? ==> eliminated.value < i && active[eliminated.value].id in guesses
      invariant maxDistance == if eliminated.Some? then Some(guesses[active[eliminated.value].id].distance) else None
    {
      assert active[..i + 1][..i] == active[..i];
      var player := active[i];
      if player.id in guesses {
        var distance := guesses[player.id].distance;
        if maxDistance.None? || Farther(distance, maxDistance.value) {
          maxDistance := Some(distance);
          eliminated := Some(i);
        }
      }
    }
    assert active[..|active|] == active;
  }

  /** One game room. */
  class Room {
    const id: RoomId
    const name: string
    const host: string
    const maxPlayers: nat
    var players: seq<Player>
    var status: Status
    var currentRound: int
    var maxRounds: int
    var eliminatedPlayers: seq<PlayerId>
    var playerScores: map<string, int>
    var currentLocation: Option<Location>
    var roundStartTime: Option<int>
    var roundEndTime: Option<int>
    var playerGuesses: map<PlayerId, Guess>

    /** The room's record as a value. */
    function View(): RoomData
      reads this
    {
      RoomData(id, name, host, players, status, maxPlayers, currentRound, maxRounds,
               eliminatedPlayers, playerScores, currentLocation, roundStartTime, roundEndTime,
               playerGuesses)
    }

    /** The room never holds more players than its capacity. */
    ghost predicate Valid()
      reads this
    {
      WithinCapacity(View())
    }

    /** `createRoom`'s record. */
    constructor (id: RoomId, name: string, host: string)
      ensures Valid() && View() == NewRoom(id, name, host)
    {
      this.id, this.name, this.host, this.maxPlayers := id, name, host, MaxPlayers;
      players, status, currentRound, maxRounds := [], Waiting, 0, 0;
      eliminatedPlayers, playerScores := [], map[];
      currentLocation, roundStartTime, roundEndTime, playerGuesses := None, None, None, map[];
    }

    /** The room part of `joinRoom`. */
    method Join(p: Player) returns (err: Option<Error>)
      requires Valid()
      modifies this
      ensures Valid()
      ensures Rooms.Join(old(View()), p).Err? ==> err == Some(Rooms.Join(old(View()), p).error) && View() == old(View())
      ensures Rooms.Join(old(View()), p).Ok? ==> err == None && View() == Rooms.Join(old(View()), p).value
    {
      if |players| >= maxPlayers {
        return Some(RoomFull);
      }
      if status != Waiting {
        return Some(GameAlreadyStarted);
      }
      players := players + [p];
      err := None;
    }

    /** The room part of `startGame`, before the first round is requested. */
    method StartGame() returns (err: Option<Error>)
      requires Valid()
      modifies this
      ensures Valid()
      ensures Rooms.StartGame(old(View())).Err? ==> err == Some(NotEnoughPlayers) && View() == old(View())
      ensures Rooms.StartGame(old(View())).Ok? ==> err == None && View() == Rooms.StartGame(old(View())).value
    {
      if |players| < MinPlayers {
        return Some(NotEnoughPlayers);
      }
      status := Playing;
      currentRound := 1;
      maxRounds := |players| - 1;
      eliminatedPlayers := [];
      playerScores := map[];
      err := None;
    }

    /** The state part of `startRound`, given the fetched location (None when an exception
        reached the `catch` of `startRound`) and the current time. */
    method StartRound(location: Option<Location>, now: int)
      requires Valid()
      modifies this
      ensures Valid() && View() == Rooms.StartRound(old(View()), location, now)
    {
      if location.Some? {
        currentLocation := location;
        roundStartTime := Some(now);
        roundEndTime := Some(now + RoundMillis);
        playerGuesses := map[];
      }
    }

    /** The room part of `submitGuess`; `km` is the distance of the guess from the target. */
    method SubmitGuess(sender: PlayerId, lat: real, lng: real, km: NonNegReal, now: int)
      requires Valid()
      modifies this
      ensures Valid() && View() == Rooms.SubmitGuess(old(View()), sender, lat, lng, km, now)
    {
      if status != Playing || sender in eliminatedPlayers || currentLocation.None? {
        return;
      }
      playerGuesses := playerGuesses[sender := Guess(lat, lng, Km(km), Some(now))];
    }

    /** The first loop of `endRound`: players who did not guess get the worst guess. */
    method FillMissingGuesses()
      requires Valid()
      modifies this
      ensures Valid() && View() == old(View()).(playerGuesses := FillIn(players, eliminatedPlayers, old(playerGuesses)))
    {
      for i := 0 to |players|
        invariant View() == old(View()).(playerGuesses := playerGuesses)
        invariant playerGuesses == FillIn(players[..i], eliminatedPlayers, old(playerGuesses))
      {
        assert players[..i + 1][..i] == players[..i];
        var player := players[i];
        if player.id !in eliminatedPlayers && player.id !in playerGuesses {
          playerGuesses := playerGuesses[player.id := WorstGuess];
        }
      }
      assert players[..|players|] == players;
    }

    /** The second loop of `endRound` and what follows it: the furthest active player is
        eliminated and ranked. */
    method EliminateFurthest()
      requires Valid()
      modifies this
      ensures Valid() && View() == Eliminate(old(View()))
    {
      var active := ActivePlayers(players, eliminatedPlayers);
      if |active| > 1 {
        var eliminated := FindFurthest(active, playerGuesses);
        if eliminated.Some? {
          var loser := active[eliminated.value];
          eliminatedPlayers := eliminatedPlayers + [loser.id];
          var rank := |players| - |eliminatedPlayers| + 1;
          playerScores := playerScores[loser.username := rank];
        }
      }
    }

    /** `endRound`. The result says which timer the handler arms: the next round or the
        end of the game. */
    method EndRound() returns (next: Next)
      requires Valid()
      modifies this
      ensures Valid() && RoundResult(View(), next) == Rooms.EndRound(old(View()))
    {
      var activeCount := |ActivePlayers(players, eliminatedPlayers)|;
      FillMissingGuesses();
      EliminateFurthest();
      if activeCount <= 1 || currentRound >= maxRounds {
        next := GameOver;
      } else {
        currentRound := currentRound + 1;
        next := NextRound;
      }
    }

    /** `endGame`: returns the winner it announces. */
    method EndGame() returns (winner: Option<string>)
      requires Valid()
      modifies this
      ensures Valid() && View() == Rooms.EndGame(old(View()))
      ensures winner == Winner(old(View()))
    {
      status := Finished;
      winner := Winner(View());
    }

    /** The room part of `leaveRoomHandler`. */
    method Leave(sender: PlayerId) returns (left: bool, gameEnded: bool)
      requires Valid()
      modifies this
      ensures Valid()
      ensures Rooms.Leave(old(View()), sender) == if left then Left(View(), gameEnded) else NotMember
      ensures LeaveOutcome(old(View()), sender) == if left && players == [] then None else Some(View())
    {
      var index := IndexOf(players, sender);
      if index.None? {
        return false, false;
      }
      var i := index.value;
      var leaving := players[i];
      players := players[..i] + players[i + 1..];
      left, gameEnded := true, false;

      if status == Playing && sender !in eliminatedPlayers {
        eliminatedPlayers := eliminatedPlayers + [sender];
        var rank := |players| - |eliminatedPlayers| + 2;
        playerScores := playerScores[leaving.username := rank];
        var active := ActivePlayers(players, eliminatedPlayers);
        if |active| <= 1 {
          var _ := EndGame();
          gameEnded := true;
        }
      }
    }
  }

  /** The `rooms` dictionary of the server, with the handlers that look rooms up by id. */
  class Registry {
    var rooms: map<RoomId, Room>
    /** The records of the stored rooms, by id. */
    ghost var records: map<RoomId, RoomData>

    /** The rooms are stored consistently and `records` holds their records. */
    ghost predicate Valid()
      reads this, rooms.Values
    {
      Consistent(rooms) && records == Views(rooms)
    }

    constructor ()
      ensures Valid() && records == map[]
    {
      rooms, records := map[], map[];
    }

    /** `createRoom` with the id that would be drawn at random. */
    method CreateRoom(roomId: RoomId, roomName: string, creator: string)
      requires Valid()
      modifies this
      ensures Valid() && roomId in rooms && fresh(rooms[roomId])
      ensures rooms.Values <= old(rooms.Values) + {rooms[roomId]}
      ensures records == old(records)[roomId := NewRoom(roomId, roomName, creator)]
    {
      var room := new Room(roomId, roomName, creator);
      ViewsWith(rooms, room);
      label Stored:
      rooms, records := rooms[roomId := room], records[roomId := room.View()];
      StillConsistent@Stored(rooms);
    }

    /** `joinRoom` from connection `sender`. */
    method JoinRoom(roomId: RoomId, sender: PlayerId, username: string) returns (err: Option<Error>)
      requires Valid()
      modifies this, rooms.Values
      ensures Valid() && rooms == old(rooms)
      ensures roomId !in old(records) ==> err == Some(RoomNotFound)
      ensures err.Some? ==> records == old(records)
      ensures roomId in old(records) ==>
        match Rooms.Join(old(records)[roomId], Player(sender, username))
        case Err(e) => err == Some(e)
        case Ok(r) => err == None && records == old(records)[roomId := r]
    {
      if roomId !in rooms {
        return Some(RoomNotFound);
      }
      var room := rooms[roomId];
      err := room.Join(Player(sender, username));
      if err.Some? {
        UpdateToSame(records, roomId);
      }
      records := records[roomId := room.View()];
      OthersUnchanged(room);
    }

    /** `startGame`: the reset of the room followed by the first `startRound`, whose
        location fetch yielded `location` at time `now`. */
    method StartGame(roomId: RoomId, location: Option<Location>, now: int) returns (err: Option<Error>)
      requires Valid()
      modifies this, rooms.Values
      ensures Valid() && rooms == old(rooms)
      ensures roomId !in old(records) ==> err == Some(RoomNotFound)
      ensures err.Some? ==> records == old(records)
      ensures roomId in old(records) ==>
        match Rooms.StartGame(old(records)[roomId])
        case Err(e) => err == Some(e)
        case Ok(r) => err == None && records == old(records)[roomId := Rooms.StartRound(r, location, now)]
    {
      if roomId !in rooms {
        return Some(RoomNotFound);
      }
      var room := rooms[roomId];
      err := room.StartGame();
      if err.None? {
        room.StartRound(location, now);
      }
      if err.Some? {
        UpdateToSame(records, roomId);
      }
      records := records[roomId := room.View()];
      OthersUnchanged(room);
    }

    /** `submitGuess` from connection `sender`. */
    method SubmitGuess(roomId: RoomId, sender: PlayerId, lat: real, lng: real, km: NonNegReal, now: int)
      requires Valid()
      modifies this, rooms.Values
      ensures Valid() && rooms == old(rooms)
      ensures roomId !in old(records) ==> records == old(records)
      ensures roomId in old(records) ==>
        records == old(records)[roomId := Rooms.SubmitGuess(old(records)[roomId], sender, lat, lng, km, now)]
    {
      if roomId !in rooms {
        return;
      }
      var room := rooms[roomId];
      room.SubmitGuess(sender, lat, lng, km, now);
      records := records[roomId := room.View()];
      OthersUnchanged(room);
    }

    /** The round timer firing: `startRound` for a room still in the registry. */
    method StartRound(roomId: RoomId, location: Option<Location>, now: int)
      requires Valid()
      modifies this, rooms.Values
      ensures Valid() && rooms == old(rooms)
      ensures roomId !in old(records) ==> records == old(records)
      ensures roomId in old(records) ==>
        records == old(records)[roomId := Rooms.StartRound(old(records)[roomId], location, now)]
    {
      if roomId !in rooms {
        return;
      }
      var room := rooms[roomId];
      room.StartRound(location, now);
      records := records[roomId := room.View()];
      OthersUnchanged(room);
    }

    /** The round deadline firing: `endRound` for a room still in the registry. */
    method EndRound(roomId: RoomId) returns (next: Option<Next>)
      requires Valid()
      modifies this, rooms.Values
      ensures Valid() && rooms == old(rooms)
      ensures roomId !in old(records) ==> next == None && records == old(records)
      ensures roomId in old(records) ==>
        var res := Rooms.EndRound(old(records)[roomId]);
        next == Some(res.next) && records == old(records)[roomId := res.room]
    {
      if roomId !in rooms {
        return None;
      }
      var room := rooms[roomId];
      var n := room.EndRound();
      next := Some(n);
      records := records[roomId := room.View()];
      OthersUnchanged(room);
    }

    /** The end-of-game timer firing: `endGame` for a room still in the registry. */
    method EndGame(roomId: RoomId) returns (winner: Option<string>)
      requires Valid()
      modifies this, rooms.Values
      ensures Valid() && rooms == old(rooms)
      ensures roomId !in old(records) ==> winner == None && records == old(records)
      ensures roomId in old(records) ==>
        winner == Winner(old(records)[roomId]) && records == old(records)[roomId := Rooms.EndGame(old(records)[roomId])]
    {
      if roomId !in rooms {
        return None;
      }
      var room := rooms[roomId];
      winner := room.EndGame();
      records := records[roomId := room.View()];
      OthersUnchanged(room);
    }

    /** The clean-up timer set by `endGame`: `delete rooms[room.id]`. */
    method DeleteRoom(roomId: RoomId)
      requires Valid()
      modifies this
      ensures Valid() && rooms.Values <= old(rooms.Values)
      ensures records == old(records) - {roomId}
    {
      ViewsWithout(rooms, roomId);
      label Kept:
      rooms, records := rooms - {roomId}, records - {roomId};
      StillConsistent@Kept(rooms);
    }

    /** The part of `leaveRoomHandler` that changes the room itself; `emptied` says
        whether the handler goes on to delete it. */
    method LeaveIn(roomId: RoomId, sender: PlayerId) returns (emptied: bool)
      requires Valid() && roomId in rooms
      modifies this, rooms.Values
      ensures Valid() && rooms == old(rooms) && roomId in records
      ensures LeaveOutcome(old(records)[roomId], sender) == if emptied then None else Some(records[roomId])
      ensures records == old(records)[roomId := records[roomId]]
    {
      var room := rooms[roomId];
      var left, _ := room.Leave(sender);
      emptied := left && room.players == [];
      records := records[roomId := room.View()];
      OthersUnchanged(room);
    }

    /** `leaveRoomHandler(socket, roomId)`: the room is deleted once its last player
        has left. */
    method LeaveRoom(roomId: RoomId, sender: PlayerId)
      requires Valid()
      modifies this, rooms.Values
      ensures Valid() && rooms.Values <= old(rooms.Values)
      ensures records == AfterLeave(old(records), roomId, sender)
    {
      if roomId !in rooms {
        return;
      }
      ghost var before := records;
      var emptied := LeaveIn(roomId, sender);
      if emptied {
        RemoveAfterUpdate(before, roomId, records[roomId]);
        DeleteRoom(roomId);
      }
    }

    /** The `disconnect` handler: `leaveRoomHandler` for every room. */
    method Disconnect(sender: PlayerId)
      requires Valid()
      modifies this, rooms.Values
      ensures Valid()
      ensures records == LeaveAll(old(records), sender)
    {
      var pending := rooms.Keys;
      while pending != {}
        invariant Valid() && rooms.Values <= old(rooms.Values)
        invariant pending <= old(records).Keys
        invariant records == LeaveAllBut(old(records), pending, sender)
        decreases pending
      {
        var roomId :| roomId in pending;
        LeaveOneMore(old(records), pending, roomId, sender);
        LeaveRoom(roomId, sender);
        pending := pending - {roomId};
      }
      LeaveAllButNone(old(records), sender);
    }

    /** `broadcastRoomList`: one summary per room, each room exactly once. */
    method RoomList() returns (list: seq<RoomSummary>)
      requires Valid()
      ensures SummaryIds(list) == records.Keys
      ensures forall s :: s in list ==> s.id in records && s == Summarize(records[s.id])
      ensures forall i, j :: 0 <= i < j < |list| ==> list[i].id != list[j].id
    {
      list := [];
      var pending := rooms.Keys;
      while pending != {}
        invariant pending <= rooms.Keys
        invariant SummaryIds(list) == rooms.Keys - pending
        invariant forall s :: s in list ==> s.id in records && s == Summarize(records[s.id])
        invariant forall i, j :: 0 <= i < j < |list| ==> list[i].id != list[j].id
        decreases pending
      {
        var roomId :| roomId in pending;
        var entry := Summarize(rooms[roomId].View());
        SummaryIdsAppend(list, entry);
        list := list + [entry];
        pending := pending - {roomId};
      }
    }

    /** After a method of `room` ran, every other room still has its old record. */
    twostate lemma OthersUnchanged(room: Room)
      requires old(Consistent(rooms)) && rooms == old(rooms) && room in rooms.Values
      requires forall r :: r in rooms.Values && r != room ==> unchanged(r)
      requires room.Valid()
      ensures Consistent(rooms)
      ensures Views(rooms) == old(Views(rooms))[room.id := room.View()]
    {
      forall k | k in rooms && k != room.id
        ensures rooms[k].View() == old(rooms[k].View()) && rooms[k].Valid()
      {
        assert rooms[k] in rooms.Values;
      }
    }
  }

  /** Every room is stored under its own id, respects its capacity, and no room object
      is stored twice. */
  ghost predicate Consistent(rooms: map<RoomId, Room>)
    reads rooms.Values
  {
    && (forall k :: k in rooms ==> rooms[k].id == k && rooms[k].Valid())
    && (forall j, k :: j in rooms && k in rooms && j != k ==> rooms[j] != rooms[k])
  }

  /** The room ids a room list mentions. */
  function SummaryIds(list: seq<RoomSummary>): set<RoomId>
  {
    set s | s in list :: s.id
  }

  lemma SummaryIdsAppend(list: seq<RoomSummary>, entry: RoomSummary)
    ensures SummaryIds(list + [entry]) == SummaryIds(list) + {entry.id}
  {
    assert forall s :: s in list + [entry] <==> s in list || s == entry;
  }

  /** The records of the given rooms. */
  ghost function Views(rooms: map<RoomId, Room>): map<RoomId, RoomData>
    reads rooms.Values
  {
    map k | k in rooms :: rooms[k].View()
  }

  /** Assigning the registry's map leaves the rooms' records alone. */
  twostate lemma StillConsistent(rooms: map<RoomId, Room>)
    requires old(Consistent(rooms))
    requires forall r :: r in rooms.Values ==> unchanged(r)
    ensures Consistent(rooms) && Views(rooms) == old(Views(rooms))
  {
  }

  lemma RemoveAfterUpdate<K, V>(m: map<K, V>, k: K, v: V)
    ensures m[k := v] - {k} == m - {k}
  {
  }

  lemma UpdateToSame<K, V>(m: map<K, V>, k: K)
    requires k in m
    ensures m[k := m[k]] == m
  {
  }

  lemma ViewsWith(rooms: map<RoomId, Room>, room: Room)
    requires Consistent(rooms) && room.Valid() && room !in rooms.Values
    ensures Consistent(rooms[room.id := room]) && rooms[room.id := room].Values <= rooms.Values + {room}
    ensures Views(rooms[room.id := room]) == Views(rooms)[room.id := room.View()]
  {
  }

  lemma ViewsWithout(rooms: map<RoomId, Room>, roomId: RoomId)
    requires Consistent(rooms)
    ensures Consistent(rooms - {roomId}) && (rooms - {roomId}).Values <= rooms.Values
    ensures Views(rooms - {roomId}) == Views(rooms) - {roomId}
  {
  }

  /** The registry after `leaveRoomHandler` has run for one sender in every room. */
  ghost function LeaveAll(start: map<RoomId, RoomData>, sender: PlayerId): map<RoomId, RoomData>
  {
    map k | k in start && LeaveOutcome(start[k], sender).Some? :: LeaveOutcome(start[k], sender).value
  }

  /** The same, with the rooms in `pending` not visited yet. */
  ghost function LeaveAllBut(start: map<RoomId, RoomData>, pending: set<RoomId>, sender: PlayerId): map<RoomId, RoomData>
  {
    map k | k in start && (k in pending || LeaveOutcome(start[k], sender).Some?) ::
      if k in pending then start[k] else LeaveOutcome(start[k], sender).value
  }

  /** After `disconnect`, a connection that joined each room at most once is in no room
      any more, and exactly the rooms it was alone in are gone. */
  lemma DisconnectLeavesNoTrace(start: map<RoomId, RoomData>, sender: PlayerId)
    requires forall k :: k in start ==> RoomLemmas.JoinedOnce(start[k].players, sender)
    ensures forall k :: k in LeaveAll(start, sender) ==> sender !in Ids(LeaveAll(start, sender)[k].players)
    ensures forall k :: k in start ==>
      (k !in LeaveAll(start, sender) <==> sender in Ids(start[k].players) && |start[k].players| == 1)
  {
    var after := LeaveAll(start, sender);
    forall k | k in after
      ensures sender !in Ids(after[k].players)
    {
      if sender in Ids(start[k].players) {
        RoomLemmas.LeaveRemovesOnlyEntry(start[k], sender);
      }
    }
  }

  /** A connection that joined a room twice is still listed there after `disconnect`:
      each room is left once, and each leave removes only the first entry. */
  lemma DisconnectKeepsDuplicate(start: map<RoomId, RoomData>, sender: PlayerId, k: RoomId, i: nat, j: nat)
    requires k in start
    requires i < j < |start[k].players| && start[k].players[i].id == sender && start[k].players[j].id == sender
    ensures k in LeaveAll(start, sender) && sender in Ids(LeaveAll(start, sender)[k].players)
  {
    RoomLemmas.LeaveKeepsSecondEntry(start[k], sender, i, j);
  }

  lemma LeaveAllButNone(start: map<RoomId, RoomData>, sender: PlayerId)
    ensures LeaveAllBut(start, {}, sender) == LeaveAll(start, sender)
  {
  }

  lemma LeaveOneMore(start: map<RoomId, RoomData>, pending: set<RoomId>, roomId: RoomId, sender: PlayerId)
    requires roomId in pending && pending <= start.Keys
    ensures AfterLeave(LeaveAllBut(start, pending, sender), roomId, sender) == LeaveAllBut(start, pending - {roomId}, sender)
  {
  }
}

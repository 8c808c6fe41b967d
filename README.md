# Geonobo game server in Dafny

This project models the server of Geonobo, a multi-player elimination game. Players
look at a street-level panorama and guess where it was taken on a map. After each
90-second round the player whose guess is furthest from the target is eliminated and
ranked. The game ends when one player remains.

The model covers two parts of the server:

- the in-memory room registry, with the socket handlers that change it: create, join,
  start, guess, leave, disconnect and the room list;
- the per-room round state machine: start a round, fill in missing guesses, eliminate
  the furthest player, rank them, then advance or end the game.

It also covers the small pure helpers of `gameUtils.js`: the guess time window, the
score, the `m:ss` clock and the rank medal.

The files:

- `rooms.dfy` (module `Rooms`): the room record as a datatype, and one pure function per
  handler describing the new record (`Join`, `StartGame`, `StartRound`, `SubmitGuess`,
  `EndRound`, `EndGame`, `Leave`), together with the helper functions `endRound` is
  built from.
- `server.dfy` (module `Server`): the state the server updates in place.
  - `class Room` has the room's fields. Its methods carry the handlers' statements,
    including both `forEach` loops of `endRound`. Each method is proved to leave the
    room in the state the matching `Rooms` function describes.
  - `class Registry` holds the `rooms` dictionary. Its methods look a room up by id,
    report "room not found", and delete emptied rooms. `Disconnect` runs the leave
    handler in every room.
  - `RoomList` builds the `broadcastRoomList` summaries.
- `room_lemmas.dfy` (module `RoomLemmas`): what the round state machine guarantees.
  - Whom a round eliminates and how that player is ranked.
  - A game nobody leaves counts down from `players` to a single survivor. That
    survivor is the announced winner and has no rank entry.
  - What a departure does.
- `game_utils.dfy` (module `GameUtils`): the four helpers.
- `wrappers.dfy`: an `Option` type.

Timers and socket events become explicit method calls:

- `Registry.StartRound` is the five-second timer that `endRound` sets before the next
  round. The first round, awaited by `startGame`, is started inside
  `Registry.StartGame`.
- `Registry.EndRound` is the 90-second round deadline (`roundTimer`).
- `Registry.EndGame` is the five-second end-of-game timer.
- `Registry.DeleteRoom` is the five-minute clean-up.

The location fetched from the panorama service is a parameter, and so is the current
time. `getRandomLocation` (backend/utils/mapillaryUtils.js:53-61) catches every failure
itself and returns an image id of `null` at (0, 0). A round then starts at that place,
which the model gets by passing that location. `None` is an idealisation of the `catch`
in `startRound` (backend/server.js:204-207): if an exception escaped the fetch, nothing
would be written. The distance of a guess from the target is also a
parameter, a non-negative real (the haversine computation is not modelled).
`Number.MAX_VALUE`, the distance given to players who did not guess, is a separate
top value `MaxValue`.

Some behaviour of the code a reader may not expect, which the model reproduces:

- Ranks are keyed by user name (`playerScores[username]`). Two players with the same
  name therefore share one entry, and the later rank overwrites the earlier.
- The winner is announced by `endGame` but never gets a rank entry. In a game nobody
  leaves, the recorded ranks run from the number of players down to 2.
- The ranks written by `endRound` (`players.length - eliminatedPlayers.length + 1`) and
  by `leaveRoomHandler` (`+ 2`) use the current length of `players`, which a departure
  during the game has already shortened. After one active player leaves, each later
  elimination is ranked one place too high: with two players left, the one eliminated
  is ranked 1 (`RoomLemmas.EndRoundAfterDeparture`). Each further departure shifts the
  ranks by one more place, so ranks of 0 and below can be written. `maxRounds` is not
  reduced either, so a round can start with a single active player
  (`RoomLemmas.DepartureLeavesLoneRound`).
- `startGame` checks neither who sends it nor the room's status. Restarting a game in
  progress resets its round, eliminations and ranks.
- `createRoom` stores an empty room and does not add its creator. An empty room is
  deleted only by the leave handler, so a room nobody joins stays until a restart.
- `joinRoom` does not check whether the connection is already in the room. The same
  connection can therefore join twice, which is why the lemmas about whole games assume
  distinct ids. Leaving removes only the first entry, so such a connection is still
  listed after `disconnect` (`Server.DisconnectKeepsDuplicate`).
- `submitGuess` checks neither membership in the room nor the round deadline;
  `isGuessValid` is not called by the server. A guess made while no location is set
  stops the handler with a TypeError before anything is written. The model treats this
  as "nothing changes".

## Model

| member | source | states |
|---|---|---|
| GameUtils.IsGuessValid | backend/utils/gameUtils.js:20-22 | a guess counts exactly when it arrives at most `timeLimit` ms (default 90000) after the round started |
| GameUtils.GuessValidityIsMonotone | backend/utils/gameUtils.js:20-22 | an earlier guess is valid whenever a later one is |
| GameUtils.RoundHalfUp | backend/utils/gameUtils.js:28 | `Math.round`: the integer within half a unit of `x`, halves rounded up |
| GameUtils.CalculateScore | backend/utils/gameUtils.js:25-30 | the score is never negative, is at most 5000 for a non-negative distance, is 5000 at distance 0, and is 0 exactly when the distance exceeds 499.95 km |
| GameUtils.ScoreIsNonIncreasing | backend/utils/gameUtils.js:25-30 | a farther guess never scores more |
| GameUtils.ScoreOfWholeDistance | backend/utils/gameUtils.js:25-30 | for a whole number of kilometres `d` the score is `5000 - 10 d` up to 500 km and 0 beyond |
| GameUtils.GetRankEmoji | backend/utils/gameUtils.js:33-40 | the emoji is non-empty exactly for ranks 1 to 3: gold, silver and bronze medals respectively |
| GameUtils.MedalsAreDistinct | backend/utils/gameUtils.js:33-40 | different podium places get different medals |
| GameUtils.NatToString | backend/utils/gameUtils.js:46 | `toString` of a whole number: at least one character, all digits, no leading zero, one digit exactly below 10, at most two below 100 |
| GameUtils.PadStart2 | backend/utils/gameUtils.js:46 | `padStart(2, '0')`: a string of at most two characters becomes exactly two; a longer one is unchanged |
| GameUtils.PadStart2Pads | backend/utils/gameUtils.js:46 | a short string ends the padded result unchanged, preceded only by `'0'` characters |
| GameUtils.FormatTime | backend/utils/gameUtils.js:43-47 | the clock is at least four characters, all digits except a colon third from the end |
| GameUtils.FormatTimeRoundTrip | backend/utils/gameUtils.js:43-47 | reading the clock back (minutes, colon, two digits below 60) gives the original number of seconds |
| GameUtils.FormatTimeInjective | backend/utils/gameUtils.js:43-47 | two different durations never show the same clock |
| Rooms.NewRoom | backend/server.js:36-55 | the created room is waiting and within its capacity |
| Rooms.Join | backend/server.js:70-81 | a full room is refused with `RoomFull`, checked first; otherwise a room not waiting is refused with `GameAlreadyStarted`; on success the player is appended, every other field is kept and the capacity still holds |
| Rooms.Farther | backend/server.js:235 | the strict `>` on distances: nothing is farther than `MAX_VALUE`, which is farther than every real distance |
| Rooms.NameOf | backend/server.js:164 | `find(...)?.username` gives the empty string, standing for `undefined`, when no player has the id |
| Rooms.NameOfFirstMatch | backend/server.js:164 | for a member, the name is that of the first player holding the id |
| Rooms.Summarize | backend/server.js:351-358 | the summary copies id, name, host, capacity and status, counts the players, and a room within capacity has a count at most its capacity |
| Rooms.IndexOf | backend/server.js:311 | `findIndex`: no index exactly when no player has the id; otherwise the first position of that id |
| Rooms.Leave | backend/server.js:311-334 | a sender who is not in the room changes nothing; otherwise exactly one player is removed, and only players, eliminations, ranks and status can change; outside a game or after its elimination only the player list changes and the game does not end |
| Rooms.LeaveKeepsOrder | backend/server.js:311-314 | a member's departure takes out exactly the first entry with its id and keeps the other players in join order |
| Rooms.LeaveOutcome | backend/server.js:336-339 | the room is deleted exactly when its only player leaves |
| Rooms.AfterLeave | backend/server.js:306-347 | a missing room changes nothing; otherwise that room becomes `LeaveOutcome` of its record and is removed exactly when the handler deletes it; no room is added and every other room is unchanged |
| Rooms.StartGame | backend/server.js:118-127 | refused exactly below four players; otherwise the room is playing in round 1 of `players - 1`, with the same players, no eliminations and no ranks; every other field is kept |
| Rooms.StartRound | backend/server.js:180-208 | with a location, that location is recorded, the round starts now, the deadline is 90 s later and the guesses are cleared; with `None` (an exception caught by `startRound`) the room is unchanged; no other field ever changes |
| Rooms.SubmitGuess | backend/server.js:144-159 | the guess table gains at most the sender's entry |
| Rooms.ActivePlayers | backend/server.js:227 | the filter never yields more players than there are |
| Rooms.ActiveConcat | backend/server.js:227 | the filter keeps join order: filtering a concatenation concatenates the filtered parts |
| RoomLemmas.ActiveIgnoresStranger | backend/server.js:227 | adding to the eliminated list an id no player holds leaves the active players as they were |
| RoomLemmas.ActiveDropOne | backend/server.js:227 | with distinct ids, eliminating one active player leaves exactly one fewer active |
| Rooms.ActivePlayersMembers | backend/server.js:227 | a player is active exactly when it is in the room and its id is not eliminated |
| Rooms.FillIn | backend/server.js:216-224 | existing guesses are never removed |
| Rooms.FillInSpec | backend/server.js:216-224 | after the fill-in every active player has a guess, submitted guesses are kept, and each added entry is the worst guess (85, 180, `MAX_VALUE`) of an active player |
| Rooms.Furthest | backend/server.js:230-239 | a chosen index is an active player with a guess |
| Rooms.FurthestSpec | backend/server.js:230-239 | nobody is chosen exactly when nobody has a guess; the chosen player's guess is not beaten by anyone's, and every earlier player with a guess is strictly nearer (ties go to the first) |
| Rooms.Eliminate | backend/server.js:229-248 | the elimination step changes only the eliminated list and the ranks |
| Rooms.EndRound | backend/server.js:211-271 | only guesses, eliminations, ranks and the round counter change (`maxRounds`, the location and the round times are kept); the game ends exactly when at most one player was active before the elimination or the last round was played, and otherwise the round counter goes up by exactly one |
| Rooms.FirstActive | backend/server.js:279 | `players.find`: a found player is in the room, not eliminated, and every player before it is eliminated; nothing is found only when every player is eliminated |
| Rooms.Winner | backend/server.js:279 | there is no winner exactly when every player is eliminated; otherwise the winner is the user name of the first player in join order who is not eliminated |
| Rooms.EndGame | backend/server.js:274-275 | only the status changes, to finished; players, eliminations and ranks are kept, so the winner read afterwards is that of the old record |
| Server.FindFurthest | backend/server.js:230-239 | the `forEach` with `maxDistance` and a strict `>` picks exactly the player `Furthest` specifies |
| Server.Room.constructor | backend/server.js:38-55 | the new room object holds the `createRoom` record |
| Server.Room.Join | backend/server.js:70-81 | the errors and the new record of the room part of `joinRoom`; a refused join changes nothing |
| Server.Room.StartGame | backend/server.js:118-127 | refused below four players with no change; otherwise the `startGame` reset |
| Server.Room.StartRound | backend/server.js:183-188 | the new state is the `startRound` record |
| Server.Room.SubmitGuess | backend/server.js:144-159 | the new state is the `submitGuess` record |
| Server.Room.FillMissingGuesses | backend/server.js:216-224 | the loop leaves the fill-in of the guesses and changes nothing else |
| Server.Room.EliminateFurthest | backend/server.js:227-248 | the furthest active player is appended to the eliminated list and ranked |
| Server.Room.EndRound | backend/server.js:211-271 | the room ends in the `endRound` state and the method returns the timer it arms |
| Server.Room.EndGame | backend/server.js:274-280 | the status is finished and the announced winner is the first active player's name |
| Server.Room.Leave | backend/server.js:311-339 | the room ends in the state `leaveRoomHandler` gives; the method reports whether the room is to be deleted |
| Server.Registry.constructor | backend/server.js:21 | the server starts with no rooms |
| Server.Registry.CreateRoom | backend/server.js:36-59 | the registry gains exactly the new room under its id; every other room keeps its record |
| Server.Registry.JoinRoom | backend/server.js:62-92 | a missing room, a full room or a started game is refused with its error and nothing changes; otherwise only that room changes, gaining the player at the end |
| Server.Registry.StartGame | backend/server.js:110-138 | a missing room or too few players is refused with no change; otherwise only that room changes: it is reset and its first round started |
| Server.Registry.SubmitGuess | backend/server.js:141-167 | nothing changes for a missing room; otherwise only that room changes, as `submitGuess` says |
| Server.Registry.StartRound | backend/server.js:180-208 | only the room's own record changes, as `startRound` says |
| Server.Registry.EndRound | backend/server.js:211-271 | only the room's own record changes, as `endRound` says, and the next timer is returned |
| Server.Registry.EndGame | backend/server.js:274-280 | only the room's own record changes; the winner returned is the first active player's name |
| Server.Registry.DeleteRoom | backend/server.js:283-286 | exactly that room is removed |
| Server.Registry.LeaveIn | backend/server.js:306-334 | only that room's record changes, to what `leaveRoomHandler` leaves of it, and the method reports exactly when the handler goes on to delete the room |
| Server.Registry.LeaveRoom | backend/server.js:306-347 | the registry becomes `AfterLeave`: that room loses the sender and is deleted if emptied; every other room is unchanged |
| Server.Registry.Disconnect | backend/server.js:169-176 | the leave handler has run in every room |
| Server.DisconnectLeavesNoTrace | backend/server.js:169-176 | after a disconnect a connection listed at most once per room is in no room, and exactly the rooms it was alone in are gone |
| Server.DisconnectKeepsDuplicate | backend/server.js:169-176 | a connection listed twice in a room is still listed there after a disconnect |
| Server.Registry.RoomList | backend/server.js:350-360 | the summaries list every stored room exactly once, each with its id, name, host, player count, capacity and status |
| RoomLemmas.ActiveCount | backend/server.js:227 | with distinct ids, and eliminated ids that belong to the room and are listed once, `players - eliminated` players are active |
| RoomLemmas.NewRoomLifecycle | backend/server.js:306-347 | a new room accepts a first player, and is deleted when that player leaves |
| RoomLemmas.JoinThenLeave | backend/server.js:311-314 | joining a waiting room with a fresh id and leaving again restores the room exactly |
| RoomLemmas.StartGameBegins | backend/server.js:118-134 | starting a room of at least four distinct players succeeds and begins round 1 of `players - 1` in a valid game state, also after the first `startRound` |
| RoomLemmas.StartRoundKeepsInPlay | backend/server.js:183-188 | `startRound` keeps a game in progress |
| RoomLemmas.SubmitGuessOnlySender | backend/server.js:144-159 | only the sender's guess can change; it is recorded exactly when the game is playing, the sender is not eliminated and a location is set, and otherwise nothing changes |
| RoomLemmas.SubmitGuessKeepsInPlay | backend/server.js:141-159 | `submitGuess` keeps a game in progress |
| RoomLemmas.EliminateFurthestPlayer | backend/server.js:229-247 | with every active player guessed: more than one active player means exactly the furthest is appended and ranked `players - eliminated` (counted before the append); otherwise nothing changes |
| RoomLemmas.EndRoundEliminatesFurthest | backend/server.js:211-248 | `endRound` keeps the filled-in guesses and eliminates exactly one player, the furthest, when more than one was active, and nobody otherwise |
| RoomLemmas.NonSubmitterEliminated | backend/server.js:216-239 | when some active player did not guess, the one eliminated is the first such player in join order |
| RoomLemmas.RosterStep | backend/server.js:242-246 | eliminating one more active player with rank `players - eliminated` keeps the ranks counting down |
| RoomLemmas.EndRoundRanksByActive | backend/server.js:227-246 | with nobody having left, the player eliminated is ranked by the number of players active before the round ended |
| RoomLemmas.EndRoundKeepsRoster | backend/server.js:211-248 | with nobody having left, the ranks keep counting down and each round with more than one active player eliminates one of them, ranked by that number |
| RoomLemmas.EndRoundAdvances | backend/server.js:259-270 | in a game nobody leaves, every round eliminates one player, and another round follows exactly while `currentRound < maxRounds` |
| RoomLemmas.RanksBetween | backend/server.js:245-246 | the ranks given so far lie between `players - eliminated + 1` and `players` |
| RoomLemmas.ActiveUnranked | backend/server.js:246 | a player still in the game has no rank |
| RoomLemmas.SoleSurvivorWins | backend/server.js:279 | once all but one player are eliminated, that one is the only active player and the winner, and has no rank; the others are ranked 2 to `players` |
| RoomLemmas.LastRoundLeavesWinner | backend/server.js:259-280 | after the last round of a game nobody leaves, the game is over with one survivor who is announced as the winner |
| RoomLemmas.LeaveRemovesSender | backend/server.js:311-323 | with distinct ids, a member's departure removes exactly its id; outside a game, or after its elimination, only the player list changes |
| RoomLemmas.LeaveRemovesOnlyEntry | backend/server.js:311-314 | a sender listed once in the room is no longer listed after leaving |
| RoomLemmas.LeaveKeepsSecondEntry | backend/server.js:311-314 | only the first entry is removed: a sender listed twice is still listed after leaving |
| RoomLemmas.LeaveWhileActive | backend/server.js:320-323 | an active player leaving a game is removed, eliminated and ranked `players - eliminated + 2`, both counted after the departure |
| RoomLemmas.LeaveWhileActiveEnds | backend/server.js:326-333 | such a departure ends the game exactly when at most one active player remains |
| RoomLemmas.LeaveMidGame | backend/server.js:312-333 | when nobody has left before, the leaver's rank equals the number of players active before it left, and the game ends exactly when at most two were active |
| RoomLemmas.EndRoundRanksEliminated | backend/server.js:229-246 | whenever more than one player is active, one of them is eliminated and ranked `players - eliminated`, counted before the append |
| RoomLemmas.EndRoundAfterDeparture | backend/server.js:241-247 | after an active player leaves, the next elimination is ranked one below the number of players still active |
| RoomLemmas.DepartureLeavesLoneRound | backend/server.js:259-270 | `maxRounds` is not lowered: after a departure leaves two active players before the last round, `endRound` still starts another round, which has a single active player |

## Left out

- The haversine `calculateDistance`, `toRad` and `formatDistance` are not modelled: they are floating-point trigonometry and formatting. A guess's distance is an input.
- Timers are explicit method calls, and the caller decides which happen and in what order. The `clearTimeout` that cancels the round deadline when a departure ends the game is not modelled: the caller simply does not call `Registry.EndRound` afterwards.
- The five-second timers of `endRound` are never stored or cancelled. A departure that ends the game less than five seconds after `endRound` therefore does not stop them: the pending `startRound` still arms a new deadline, and `endGame` runs a second time, at once or from that deadline. The model lets the caller make these calls in that order, but no lemma describes such a run.
- Socket.IO emits, room channels (`socket.join`/`socket.leave`), logging, Express and `server.listen` are not modelled. `FindFurthest` returns an index, not the emitted `roundEnd` payload.
- Random room ids come in as a parameter. `CreateRoom` overwrites an existing room with the same id, as the assignment in the source would.
- The panorama service (`mapillaryUtils.js`, `routes/mapillary.js`) is not modelled. Its result is the `location` parameter, and the `await` between `startGame` and its first round is not interleaved with other handlers.
- The `requestRoomInfo` and `requestRooms` handlers only send data. `requestRoomInfo` sends one room record (backend/server.js:95-102), the value `records` holds for that id. `requestRooms` broadcasts the list that `RoomList` models.
- `broadcastRoomList` lists rooms in the insertion order of the dictionary. `Server.Registry.RoomList` promises each room exactly once in an unspecified order.
- `Number.MAX_VALUE` is the top value `MaxValue`, above every real distance. Distances are exact reals, not doubles.
- The frontend is not part of this model.

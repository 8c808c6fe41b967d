/** Properties of the round state machine of backend/server.js, proved about the room
    functions of module Rooms: how many players a round eliminates and whom, the rank
    each eliminated or departing player receives, and how a game without departures
    counts down to a single survivor. */
module RoomLemmas {

  import opened Wrappers
  import opened Rooms

  // ---------------------------------------------------------------------------
  // Counting active players

  /** The elements of a sequence, as a set. */
  function Elements<T>(s: seq<T>): set<T>
  {
    set x | x in s
  }

  ghost predicate Distinct<T>(s: seq<T>)
  {
    forall i, j :: 0 <= i < j < |s| ==> s[i] != s[j]
  }

  /** No two players of the room share a connection id. */
  ghost predicate DistinctIds(ps: seq<Player>)
  {
    forall i, j :: 0 <= i < j < |ps| ==> ps[i].id != ps[j].id
  }

  lemma IdsAppend(ps: seq<Player>, p: Player)
    ensures Ids(ps + [p]) == Ids(ps) + {p.id}
  {
    assert forall q :: q in ps + [p] <==> q in ps || q == p;
  }

  lemma ElementsAppend<T>(s: seq<T>, x: T)
    ensures Elements(s + [x]) == Elements(s) + {x}
  {
    assert forall y :: y in s + [x] <==> y in s || y == x;
  }

  /** A sequence without repetitions has as many elements as its set. */
  lemma {:induction false} DistinctCard<T>(s: seq<T>)
    requires Distinct(s)
    ensures |Elements(s)| == |s|
  {
    if s != [] {
      var init := s[..|s| - 1];
      assert s == init + [s[|s| - 1]];
      assert Distinct(init);
      DistinctCard(init);
      ElementsAppend(init, s[|s| - 1]);
      assert forall j :: 0 <= j < |init| ==> init[j] != s[|s| - 1];
    }
  }

  /** Adding a fresh element to a set adds one to its intersection with `b` exactly when
      the element is in `b`. */
  lemma IntersectionGrows<T>(a: set<T>, x: T, b: set<T>)
    requires x !in a
    ensures |(a + {x}) * b| == |a * b| + if x in b then 1 else 0
  {
    if x in b {
      assert (a + {x}) * b == (a * b) + {x};
    } else {
      assert (a + {x}) * b == a * b;
    }
  }

  /** With distinct ids, the last player's id is not among the others'. */
  lemma LastIdFresh(ps: seq<Player>)
    requires DistinctIds(ps) && ps != []
    ensures ps[|ps| - 1].id !in Ids(ps[..|ps| - 1])
  {
    var init := ps[..|ps| - 1];
    assert forall j :: 0 <= j < |init| ==> init[j].id != ps[|ps| - 1].id;
  }

  /** Among players with distinct ids, the active ones are all but those whose id is
      eliminated. */
  lemma {:induction false} ActiveCountBySet(ps: seq<Player>, eliminated: seq<PlayerId>)
    requires DistinctIds(ps)
    ensures |ActivePlayers(ps, eliminated)| == |ps| - |Ids(ps) * Elements(eliminated)|
  {
    if ps != [] {
      var init := ps[..|ps| - 1];
      var last := ps[|ps| - 1];
      assert ps == init + [last];
      assert DistinctIds(init);
      ActiveCountBySet(init, eliminated);
      IdsAppend(init, last);
      LastIdFresh(ps);
      IntersectionGrows(Ids(init), last.id, Elements(eliminated));
    }
  }

  /** When every eliminated id, listed once, belongs to a player of the room, the active
      players number `players - eliminated`. */
  lemma ActiveCount(ps: seq<Player>, eliminated: seq<PlayerId>)
    requires DistinctIds(ps) && Distinct(eliminated)
    requires forall id :: id in eliminated ==> id in Ids(ps)
    ensures |ActivePlayers(ps, eliminated)| == |ps| - |eliminated|
  {
    ActiveCountBySet(ps, eliminated);
    DistinctCard(eliminated);
    assert Ids(ps) * Elements(eliminated) == Elements(eliminated);
  }

  // ---------------------------------------------------------------------------
  // Names and ranks

  /** No two players of the room share a user name. */
  ghost predicate DistinctNames(ps: seq<Player>)
  {
    forall i, j :: 0 <= i < j < |ps| ==> ps[i].username != ps[j].username
  }

  /** With distinct ids, `players.find` by id finds the player itself. */
  lemma NameOfMember(ps: seq<Player>, p: Player)
    requires DistinctIds(ps) && p in ps
    ensures NameOf(ps, p.id) == p.username
  {
    var j :| 0 <= j < |ps| && ps[j] == p;
    var i := IndexOf(ps, p.id).value;
    assert !(i < j) && !(j < i);
  }

  /** With distinct ids and names, different ids of the room carry different names. */
  lemma NamesDiffer(ps: seq<Player>, a: PlayerId, b: PlayerId)
    requires DistinctIds(ps) && DistinctNames(ps)
    requires a in Ids(ps) && b in Ids(ps) && a != b
    ensures NameOf(ps, a) != NameOf(ps, b)
  {
    var i := IndexOf(ps, a).value;
    var j := IndexOf(ps, b).value;
    assert i != j;
  }

  /** The names of the given ids, as `players.find` gives them. */
  function NamesOf(ps: seq<Player>, ids: seq<PlayerId>): set<string>
  {
    set id | id in ids :: NameOf(ps, id)
  }

  lemma NamesOfAppend(ps: seq<Player>, ids: seq<PlayerId>, id: PlayerId)
    ensures NamesOf(ps, ids + [id]) == NamesOf(ps, ids) + {NameOf(ps, id)}
  {
    assert forall x :: x in ids + [id] <==> x in ids || x == id;
  }

  /** The ranks of a game without departures: the k-th eliminated player (from 0) is
      ranked `players - k`, and nobody else is ranked. */
  ghost predicate RanksCountDown(ps: seq<Player>, eliminated: seq<PlayerId>, scores: map<string, int>)
  {
    && scores.Keys == NamesOf(ps, eliminated)
    && forall k :: 0 <= k < |eliminated| ==>
         NameOf(ps, eliminated[k]) in scores && scores[NameOf(ps, eliminated[k])] == |ps| - k
  }

  // ---------------------------------------------------------------------------
  // A game in progress with nobody leaving

  /** What a game without departures keeps throughout: no player has joined twice, no
      two players share a name, the eliminated ids are players of the room listed once,
      and the ranks count down. */
  ghost predicate RosterOf(ps: seq<Player>, eliminated: seq<PlayerId>, scores: map<string, int>)
  {
    && DistinctIds(ps) && DistinctNames(ps)
    && Distinct(eliminated)
    && (forall id :: id in eliminated ==> id in Ids(ps))
    && RanksCountDown(ps, eliminated, scores)
  }

  ghost predicate Roster(r: RoomData)
  {
    RosterOf(r.players, r.eliminatedPlayers, r.playerScores)
  }

  /** Eliminating one more active player, ranked `players - eliminated`, keeps the roster. */
  lemma RosterStep(ps: seq<Player>, eliminated: seq<PlayerId>, scores: map<string, int>, p: Player)
    requires RosterOf(ps, eliminated, scores)
    requires p in ps && p.id !in eliminated
    ensures RosterOf(ps, eliminated + [p.id], scores[p.username := |ps| - |eliminated|])
  {
    var E' := eliminated + [p.id];
    var scores' := scores[p.username := |ps| - |eliminated|];
    NameOfMember(ps, p);
    assert Distinct(E');
    NamesOfAppend(ps, eliminated, p.id);
    forall k | 0 <= k < |eliminated|
      ensures NameOf(ps, eliminated[k]) != p.username
    {
      assert eliminated[k] in eliminated;
      NamesDiffer(ps, eliminated[k], p.id);
    }
    assert RanksCountDown(ps, E', scores');
  }

  /** The state of a room between `startGame` and the last `endRound` when nobody has
      left: round `currentRound` of `players - 1`, one elimination per finished round. */
  ghost predicate InPlay(r: RoomData)
  {
    && r.status == Playing
    && Roster(r)
    && |r.players| == r.maxRounds + 1
    && 1 <= r.currentRound <= r.maxRounds
    && |r.eliminatedPlayers| == r.currentRound - 1
  }

  /** During a game without departures, `players - currentRound + 1` players are still
      active: at least two in every round. */
  lemma InPlayActiveCount(r: RoomData)
    requires InPlay(r)
    ensures |ActivePlayers(r.players, r.eliminatedPlayers)| == r.maxRounds - r.currentRound + 2 >= 2
  {
    ActiveCount(r.players, r.eliminatedPlayers);
  }

  /** A successful `startGame` on a room of distinct players begins round 1 of a game in
      progress, as does the `startRound` that follows it. */
  lemma StartGameBegins(r: RoomData, location: Option<Location>, now: int)
    requires DistinctIds(r.players) && DistinctNames(r.players)
    requires |r.players| >= MinPlayers
    ensures StartGame(r).Ok? && InPlay(StartGame(r).value)
    ensures InPlay(StartRound(StartGame(r).value, location, now))
    ensures StartGame(r).value.currentRound == 1 && StartGame(r).value.maxRounds == |r.players| - 1
  {
    var g := StartGame(r).value;
    assert NamesOf(g.players, g.eliminatedPlayers) == {};
  }

  /** `startRound` keeps a game in progress. */
  lemma StartRoundKeepsInPlay(r: RoomData, location: Option<Location>, now: int)
    requires InPlay(r)
    ensures InPlay(StartRound(r, location, now))
  {
    var r1 := StartRound(r, location, now);
  }

  /** `submitGuess` records the sender's guess and nothing else, exactly when a game is
      being played, the sender is still in it and a location is set. */
  lemma SubmitGuessOnlySender(r: RoomData, sender: PlayerId, lat: real, lng: real, km: NonNegReal, now: int)
    ensures var r1 := SubmitGuess(r, sender, lat, lng, km, now);
      && r1 == r.(playerGuesses := r1.playerGuesses)
      && (forall id :: id != sender ==> (id in r1.playerGuesses <==> id in r.playerGuesses))
      && (forall id :: id != sender && id in r.playerGuesses ==> r1.playerGuesses[id] == r.playerGuesses[id])
      && (r.status == Playing && sender !in r.eliminatedPlayers && r.currentLocation.Some? ==>
            sender in r1.playerGuesses && r1.playerGuesses[sender] == Guess(lat, lng, Km(km), Some(now)))
      && (r.status != Playing || sender in r.eliminatedPlayers || r.currentLocation.None? ==> r1 == r)
  {
  }

  /** `submitGuess` keeps a game in progress. */
  lemma SubmitGuessKeepsInPlay(r: RoomData, sender: PlayerId, lat: real, lng: real, km: NonNegReal, now: int)
    requires InPlay(r)
    ensures InPlay(SubmitGuess(r, sender, lat, lng, km, now))
  {
    var r1 := SubmitGuess(r, sender, lat, lng, km, now);
  }

  // ---------------------------------------------------------------------------
  // The end of a round

  /** The elimination step on a room where every active player has a guess: with more
      than one active player, exactly one is eliminated, the one `Furthest` picks, which
      is the furthest; otherwise the room is left as it is. */
  lemma EliminateFurthestPlayer(r: RoomData)
    requires forall p :: p in ActivePlayers(r.players, r.eliminatedPlayers) ==> p.id in r.playerGuesses
    ensures var active := ActivePlayers(r.players, r.eliminatedPlayers);
      var r1 := Eliminate(r);
      && r1.playerGuesses == r.playerGuesses
      && (|active| <= 1 ==> r1.eliminatedPlayers == r.eliminatedPlayers && r1.playerScores == r.playerScores)
      && (|active| > 1 ==>
            var i := Furthest(active, r.playerGuesses);
            && i.Some? && IsFurthest(active, r.playerGuesses, i.value)
            && r1.eliminatedPlayers == r.eliminatedPlayers + [active[i.value].id]
            && r1.playerScores == r.playerScores[active[i.value].username := |r.players| - |r.eliminatedPlayers|])
  {
    var active := ActivePlayers(r.players, r.eliminatedPlayers);
    if |active| > 1 {
      FurthestSpec(active, r.playerGuesses);
      assert active[0] in active;
      var i := Furthest(active, r.playerGuesses).value;
      var eliminated := r.eliminatedPlayers + [active[i].id];
      assert |r.players| - |eliminated| + 1 == |r.players| - |r.eliminatedPlayers|;
    }
  }

  lemma ActiveMember(ps: seq<Player>, eliminated: seq<PlayerId>, p: Player)
    requires p in ActivePlayers(ps, eliminated)
    ensures p in ps && p.id !in eliminated
  {
    ActivePlayersMembers(ps, eliminated);
  }

  /** After the fill-in every active player has a guess. */
  lemma ActiveHaveGuesses(r: RoomData)
    ensures forall p :: p in ActivePlayers(r.players, r.eliminatedPlayers) ==>
              p.id in FillIn(r.players, r.eliminatedPlayers, r.playerGuesses)
  {
    ActivePlayersMembers(r.players, r.eliminatedPlayers);
    FillInSpec(r.players, r.eliminatedPlayers, r.playerGuesses);
  }

  /** The room `endRound` leaves differs from the elimination step on the filled-in room
      only in its round counter. */
  lemma EndRoundJudges(r: RoomData)
    ensures var judged := Eliminate(r.(playerGuesses := FillIn(r.players, r.eliminatedPlayers, r.playerGuesses)));
      EndRound(r).room == judged.(currentRound := EndRound(r).room.currentRound)
  {
  }

  /** A round in which more than one player is active eliminates exactly one of them: the
      one whose guess, once missing guesses are filled in, is the furthest (the earliest
      in join order among equals), ranked `players - eliminated` with the list counted
      before the append. Otherwise nobody is eliminated and no rank changes. */
  lemma EndRoundEliminatesFurthest(r: RoomData)
    ensures var active := ActivePlayers(r.players, r.eliminatedPlayers);
      var filled := FillIn(r.players, r.eliminatedPlayers, r.playerGuesses);
      var room := EndRound(r).room;
      && room.playerGuesses == filled
      && (|active| <= 1 ==> room.eliminatedPlayers == r.eliminatedPlayers && room.playerScores == r.playerScores)
      && (|active| > 1 ==>
            var i := Furthest(active, filled);
            && i.Some? && IsFurthest(active, filled, i.value)
            && room.eliminatedPlayers == r.eliminatedPlayers + [active[i.value].id]
            && room.playerScores == r.playerScores[active[i.value].username := |r.players| - |r.eliminatedPlayers|])
  {
    ActiveHaveGuesses(r);
    EliminateFurthestPlayer(r.(playerGuesses := FillIn(r.players, r.eliminatedPlayers, r.playerGuesses)));
    EndRoundJudges(r);
  }

  /** When every submitted guess has a real distance and some active player did not
      guess, the player eliminated is the first active player, in join order, who did
      not guess. */
  lemma NonSubmitterEliminated(r: RoomData, absent: Player)
    requires forall id :: id in r.playerGuesses ==> r.playerGuesses[id].distance.Km?
    requires |ActivePlayers(r.players, r.eliminatedPlayers)| > 1
    requires absent in ActivePlayers(r.players, r.eliminatedPlayers) && absent.id !in r.playerGuesses
    ensures var active := ActivePlayers(r.players, r.eliminatedPlayers);
      exists i :: (0 <= i < |active| && active[i].id !in r.playerGuesses
        && (forall j :: 0 <= j < i ==> active[j].id in r.playerGuesses)
        && EndRound(r).room.eliminatedPlayers == r.eliminatedPlayers + [active[i].id])
  {
    var active := ActivePlayers(r.players, r.eliminatedPlayers);
    var filled := FillIn(r.players, r.eliminatedPlayers, r.playerGuesses);
    EndRoundEliminatesFurthest(r);
    var i := Furthest(active, filled).value;
    ActivePlayersMembers(r.players, r.eliminatedPlayers);
    FillInSpec(r.players, r.eliminatedPlayers, r.playerGuesses);
    var k :| 0 <= k < |active| && active[k] == absent;
    assert filled[absent.id].distance == MaxValue;
    assert filled[active[i].id].distance == MaxValue;
    forall j | 0 <= j < i
      ensures active[j].id in r.playerGuesses
    {
      assert active[j] in active;
      assert filled[active[j].id].distance.Km?;
    }
    assert 0 <= i < |active| && active[i].id !in r.playerGuesses
      && (forall j :: 0 <= j < i ==> active[j].id in r.playerGuesses)
      && EndRound(r).room.eliminatedPlayers == r.eliminatedPlayers + [active[i].id];
  }

  /** In a game without departures the rank `endRound` gives is the number of players
      still active, the eliminated player among them. */
  lemma EndRoundRanksByActive(r: RoomData)
    requires Roster(r)
    requires |ActivePlayers(r.players, r.eliminatedPlayers)| > 1
    ensures var active := ActivePlayers(r.players, r.eliminatedPlayers);
      var i := Furthest(active, FillIn(r.players, r.eliminatedPlayers, r.playerGuesses));
      var room := EndRound(r).room;
      && i.Some?
      && var p := active[i.value];
      && p in r.players && p.id !in r.eliminatedPlayers
      && room.eliminatedPlayers == r.eliminatedPlayers + [p.id]
      && room.playerScores == r.playerScores[p.username := |r.players| - |r.eliminatedPlayers|]
      && |active| == |r.players| - |r.eliminatedPlayers|
      && Roster(room)
  {
    var active := ActivePlayers(r.players, r.eliminatedPlayers);
    EndRoundEliminatesFurthest(r);
    var p := active[Furthest(active, FillIn(r.players, r.eliminatedPlayers, r.playerGuesses)).value];
    ActiveMember(r.players, r.eliminatedPlayers, p);
    ActiveCount(r.players, r.eliminatedPlayers);
    RosterStep(r.players, r.eliminatedPlayers, r.playerScores, p);
    var room := EndRound(r).room;
    assert room.players == r.players;
    assert room.eliminatedPlayers == r.eliminatedPlayers + [p.id];
    assert room.playerScores == r.playerScores[p.username := |r.players| - |r.eliminatedPlayers|];
  }

  /** The end of a round keeps the roster of a game without departures; when more than
      one player was active it eliminates one of them, ranked by the number of players
      still in the game. */
  lemma EndRoundKeepsRoster(r: RoomData)
    requires Roster(r)
    ensures var active := ActivePlayers(r.players, r.eliminatedPlayers);
      var room := EndRound(r).room;
      && Roster(room)
      && (|active| > 1 ==> exists p :: (p in active
            && room.eliminatedPlayers == r.eliminatedPlayers + [p.id]
            && room.playerScores == r.playerScores[p.username := |active|]))
      && (|active| <= 1 ==> room.eliminatedPlayers == r.eliminatedPlayers)
  {
    var active := ActivePlayers(r.players, r.eliminatedPlayers);
    var room := EndRound(r).room;
    EndRoundEliminatesFurthest(r);
    if |active| > 1 {
      EndRoundRanksByActive(r);
      var p := active[Furthest(active, FillIn(r.players, r.eliminatedPlayers, r.playerGuesses)).value];
      assert p in active
        && room.eliminatedPlayers == r.eliminatedPlayers + [p.id]
        && room.playerScores == r.playerScores[p.username := |active|];
    }
  }

  // ---------------------------------------------------------------------------
  // Rounds count down to one survivor

  /** In a game without departures every `endRound` eliminates one player; another round
      follows exactly while `currentRound < maxRounds`, and the game stays in progress. */
  lemma EndRoundAdvances(r: RoomData)
    requires InPlay(r)
    ensures var res := EndRound(r);
      && (res.next == NextRound <==> r.currentRound < r.maxRounds)
      && |res.room.eliminatedPlayers| == |r.eliminatedPlayers| + 1
      && Roster(res.room)
      && (res.next == NextRound ==> InPlay(res.room))
  {
    InPlayActiveCount(r);
    EndRoundKeepsRoster(r);
  }

  /** The ranks given so far run from `players` down to `players - eliminated + 1`. */
  lemma RanksBetween(ps: seq<Player>, eliminated: seq<PlayerId>, scores: map<string, int>)
    requires RanksCountDown(ps, eliminated, scores)
    ensures forall name :: name in scores ==> |ps| - |eliminated| + 1 <= scores[name] <= |ps|
  {
    forall name | name in scores
      ensures |ps| - |eliminated| + 1 <= scores[name] <= |ps|
    {
      var id :| id in eliminated && name == NameOf(ps, id);
      var k :| 0 <= k < |eliminated| && eliminated[k] == id;
    }
  }

  /** A player of the roster who is still active has no rank. */
  lemma ActiveUnranked(ps: seq<Player>, eliminated: seq<PlayerId>, scores: map<string, int>, q: Player)
    requires RosterOf(ps, eliminated, scores)
    requires q in ps && q.id !in eliminated
    ensures q.username !in scores
  {
    NameOfMember(ps, q);
    forall id | id in eliminated
      ensures NameOf(ps, id) != q.username
    {
      NamesDiffer(ps, id, q.id);
    }
  }

  /** When all but one player of a roster have been eliminated, the one left is the only
      active player, the winner `endGame` announces, and has no rank, while every other
      player is ranked between 2 and the number of players. */
  lemma SoleSurvivorWins(r: RoomData)
    requires Roster(r) && |r.eliminatedPlayers| == |r.players| - 1
    ensures exists q :: (ActivePlayers(r.players, r.eliminatedPlayers) == [q]
      && Winner(r) == Some(q.username) && q.username !in r.playerScores)
    ensures forall name :: name in r.playerScores ==> 2 <= r.playerScores[name] <= |r.players|
  {
    var ps, E, scores := r.players, r.eliminatedPlayers, r.playerScores;
    ActiveCount(ps, E);
    var active := ActivePlayers(ps, E);
    var q := active[0];
    assert active == [q];
    ActiveMember(ps, E, q);
    ActiveUnranked(ps, E, scores, q);
    RanksBetween(ps, E, scores);
    ActivePlayersMembers(ps, E);
    assert FirstActive(ps, E).value in active;
    assert ActivePlayers(r.players, r.eliminatedPlayers) == [q]
      && Winner(r) == Some(q.username) && q.username !in r.playerScores;
  }

  /** After the last round of a game without departures exactly one player is active;
      `endGame` announces that player as the winner, who has no recorded rank, while
      every other player is ranked between 2 and the number of players. */
  lemma LastRoundLeavesWinner(r: RoomData)
    requires InPlay(r) && r.currentRound == r.maxRounds
    ensures var res := EndRound(r);
      var final := EndGame(res.room);
      && res.next == GameOver
      && final.status == Finished
      && |final.eliminatedPlayers| == |final.players| - 1
      && (exists q :: (ActivePlayers(final.players, final.eliminatedPlayers) == [q]
            && Winner(final) == Some(q.username) && q.username !in final.playerScores))
      && (forall name :: name in final.playerScores ==> 2 <= final.playerScores[name] <= |final.players|)
  {
    EndRoundAdvances(r);
    SoleSurvivorWins(EndGame(EndRound(r).room));
  }

  // ---------------------------------------------------------------------------
  // Leaving and joining

  /** Removing the player at position `i` removes its id, and only its id, when ids are
      distinct; distinct ids and names stay distinct. */
  lemma RemoveAt(ps: seq<Player>, i: nat)
    requires DistinctIds(ps) && i < |ps|
    ensures var rest := ps[..i] + ps[i + 1..];
      && Ids(rest) == Ids(ps) - {ps[i].id}
      && DistinctIds(rest)
      && (DistinctNames(ps) ==> DistinctNames(rest))
  {
    var rest := ps[..i] + ps[i + 1..];
    assert forall j :: 0 <= j < |rest| ==> rest[j] == ps[if j < i then j else j + 1];
    forall a, b | 0 <= a < b < |rest|
      ensures rest[a].id != rest[b].id && (DistinctNames(ps) ==> rest[a].username != rest[b].username)
    {
      assert rest[a] == ps[if a < i then a else a + 1];
      assert rest[b] == ps[if b < i then b else b + 1];
    }
    forall q | q in rest
      ensures q.id in Ids(ps) - {ps[i].id}
    {
      var j :| 0 <= j < |rest| && rest[j] == q;
      assert q == ps[if j < i then j else j + 1];
    }
    forall id | id in Ids(ps) - {ps[i].id}
      ensures id in Ids(rest)
    {
      var j :| 0 <= j < |ps| && ps[j].id == id;
      assert rest[if j < i then j else j - 1] == ps[j];
    }
  }

  /** A member's `leaveRoomHandler` always removes exactly that member's id. Outside a
      game, or after the member's elimination, nothing but the player list changes and
      the game does not end. */
  lemma LeaveRemovesSender(r: RoomData, sender: PlayerId)
    requires DistinctIds(r.players) && sender in Ids(r.players)
    ensures var res := Leave(r, sender);
      && res.Left?
      && Ids(res.room.players) == Ids(r.players) - {sender}
      && DistinctIds(res.room.players)
      && (r.status != Playing || sender in r.eliminatedPlayers ==>
            res.room == r.(players := res.room.players) && !res.gameEnded)
  {
    RemoveAt(r.players, IndexOf(r.players, sender).value);
  }

  /** The connection `id` is listed at most once in the room. */
  ghost predicate JoinedOnce(ps: seq<Player>, id: PlayerId)
  {
    forall i, j :: 0 <= i < j < |ps| && ps[i].id == id ==> ps[j].id != id
  }

  /** A member listed once is no longer listed after leaving. */
  lemma LeaveRemovesOnlyEntry(r: RoomData, sender: PlayerId)
    requires JoinedOnce(r.players, sender) && sender in Ids(r.players)
    ensures Leave(r, sender).Left? && sender !in Ids(Leave(r, sender).room.players)
  {
    var i := IndexOf(r.players, sender).value;
    var rest := r.players[..i] + r.players[i + 1..];
    assert forall j :: 0 <= j < |rest| ==> rest[j] == if j < i then r.players[j] else r.players[j + 1];
    assert forall j :: 0 <= j < |rest| ==> rest[j].id != sender;
  }

  /** `leaveRoomHandler` removes only the first entry of the sender: a connection that
      joined the room twice is still listed after leaving once. */
  lemma LeaveKeepsSecondEntry(r: RoomData, sender: PlayerId, i: nat, j: nat)
    requires i < j < |r.players| && r.players[i].id == sender && r.players[j].id == sender
    ensures Leave(r, sender).Left? && sender in Ids(Leave(r, sender).room.players)
  {
    var k := IndexOf(r.players, sender).value;
    var rest := r.players[..k] + r.players[k + 1..];
    assert rest[j - 1] == r.players[j];
  }

  /** The shape of a departure from a game in progress by an active player: the player
      is removed, eliminated and ranked `players - eliminated + 2` with both counted after
      the departure. */
  lemma LeaveWhileActive(r: RoomData, sender: PlayerId)
    requires r.status == Playing
    requires sender in Ids(r.players) && sender !in r.eliminatedPlayers
    ensures var i := IndexOf(r.players, sender).value;
      var rest := r.players[..i] + r.players[i + 1..];
      var E' := r.eliminatedPlayers + [sender];
      var res := Leave(r, sender);
      && res.Left?
      && res.room.players == rest
      && res.room.eliminatedPlayers == E'
      && res.room.playerScores == r.playerScores[r.players[i].username := |rest| - |E'| + 2]
      && NameOf(r.players, sender) == r.players[i].username
  {
  }

  /** Such a departure ends the game exactly when at most one active player remains. */
  lemma LeaveWhileActiveEnds(r: RoomData, sender: PlayerId)
    requires r.status == Playing
    requires sender in Ids(r.players) && sender !in r.eliminatedPlayers
    ensures var res := Leave(r, sender);
      && res.Left?
      && (res.gameEnded <==> |ActivePlayers(res.room.players, res.room.eliminatedPlayers)| <= 1)
      && res.room.status == if res.gameEnded then Finished else Playing
  {
  }

  /** Among players with distinct ids, removing an active player and eliminating its id
      leaves one active player fewer. */
  lemma ActiveAfterDeparture(ps: seq<Player>, eliminated: seq<PlayerId>, i: nat)
    requires DistinctIds(ps) && Distinct(eliminated)
    requires forall id :: id in eliminated ==> id in Ids(ps)
    requires i < |ps| && ps[i].id !in eliminated
    ensures |ActivePlayers(ps[..i] + ps[i + 1..], eliminated + [ps[i].id])| == |ps| - |eliminated| - 1
  {
    var rest := ps[..i] + ps[i + 1..];
    var E' := eliminated + [ps[i].id];
    RemoveAt(ps, i);
    ActiveCountBySet(rest, E');
    ElementsAppend(eliminated, ps[i].id);
    assert Ids(rest) * Elements(E') == Elements(eliminated);
    DistinctCard(eliminated);
  }

  /** A player who leaves a game in progress while still active is eliminated with the
      rank equal to the number of active players before the departure, and the game ends
      at once exactly when at most two players were active. */
  lemma LeaveMidGame(r: RoomData, sender: PlayerId)
    requires Roster(r) && r.status == Playing
    requires sender in Ids(r.players) && sender !in r.eliminatedPlayers
    ensures var active := ActivePlayers(r.players, r.eliminatedPlayers);
      var res := Leave(r, sender);
      && res.Left?
      && res.room.eliminatedPlayers == r.eliminatedPlayers + [sender]
      && res.room.playerScores == r.playerScores[NameOf(r.players, sender) := |active|]
      && |ActivePlayers(res.room.players, res.room.eliminatedPlayers)| == |active| - 1
      && (res.gameEnded <==> |active| <= 2)
      && (res.gameEnded ==> res.room.status == Finished)
  {
    LeaveWhileActive(r, sender);
    LeaveWhileActiveEnds(r, sender);
    ActiveCount(r.players, r.eliminatedPlayers);
    ActiveAfterDeparture(r.players, r.eliminatedPlayers, IndexOf(r.players, sender).value);
  }

  /** A room `createRoom` stores accepts its first player, and is deleted again when
      that player leaves. */
  lemma NewRoomLifecycle(id: RoomId, name: string, host: string, p: Player)
    ensures var joined := Join(NewRoom(id, name, host), p);
      && joined.Ok? && joined.value.players == [p]
      && LeaveOutcome(joined.value, p.id) == None
  {
    assert p in [p];
  }

  /** A player who joins a waiting room with a fresh id and leaves again restores the
      room exactly. */
  lemma JoinThenLeave(r: RoomData, p: Player)
    requires |r.players| < r.maxPlayers && r.status == Waiting
    requires p.id !in Ids(r.players)
    ensures Join(r, p).Ok? && Leave(Join(r, p).value, p.id) == Left(r, false)
  {
    var ps := r.players + [p];
    IdsAppend(r.players, p);
    var i := IndexOf(ps, p.id).value;
    assert forall j :: 0 <= j < |r.players| ==> ps[j] in r.players;
    assert i == |r.players|;
    assert ps[..i] + ps[i + 1..] == r.players;
  }

  // ---------------------------------------------------------------------------
  // Ranks after a departure

  /** Whenever more than one player is active, `endRound` eliminates one of them and
      ranks it `players - eliminated`, counted before the elimination. */
  lemma EndRoundRanksEliminated(r: RoomData)
    requires |ActivePlayers(r.players, r.eliminatedPlayers)| > 1
    ensures var room := EndRound(r).room;
      exists p :: (p in ActivePlayers(r.players, r.eliminatedPlayers)
        && room.eliminatedPlayers == r.eliminatedPlayers + [p.id]
        && room.playerScores == r.playerScores[p.username := |r.players| - |r.eliminatedPlayers|])
  {
    var active := ActivePlayers(r.players, r.eliminatedPlayers);
    var room := EndRound(r).room;
    EndRoundEliminatesFurthest(r);
    var p := active[Furthest(active, FillIn(r.players, r.eliminatedPlayers, r.playerGuesses)).value];
    assert p in ActivePlayers(r.players, r.eliminatedPlayers)
      && room.eliminatedPlayers == r.eliminatedPlayers + [p.id]
      && room.playerScores == r.playerScores[p.username := |r.players| - |r.eliminatedPlayers|];
  }

  /** `endRound` ranks with the length of the player list, which a departure during the
      game has already shortened: after an active player leaves, the next elimination is
      ranked one below the number of players still active, so with two players left the
      one eliminated is ranked 1 and the survivor, the winner, has no rank. */
  lemma EndRoundAfterDeparture(r: RoomData, sender: PlayerId)
    requires Roster(r) && r.status == Playing
    requires sender in Ids(r.players) && sender !in r.eliminatedPlayers
    requires |ActivePlayers(r.players, r.eliminatedPlayers)| >= 3
    ensures var left := Leave(r, sender);
      && left.Left? && !left.gameEnded
      && var r1 := left.room;
      var active := ActivePlayers(r1.players, r1.eliminatedPlayers);
      var room := EndRound(r1).room;
      && |active| >= 2
      && exists p :: (p in active
           && room.eliminatedPlayers == r1.eliminatedPlayers + [p.id]
           && room.playerScores == r1.playerScores[p.username := |active| - 1])
  {
    LeaveMidGame(r, sender);
    ActiveCount(r.players, r.eliminatedPlayers);
    var r1 := Leave(r, sender).room;
    var active := ActivePlayers(r1.players, r1.eliminatedPlayers);
    var room := EndRound(r1).room;
    assert |r1.players| - |r1.eliminatedPlayers| == |active| - 1;
    EndRoundRanksEliminated(r1);
    var p :| p in active
      && room.eliminatedPlayers == r1.eliminatedPlayers + [p.id]
      && room.playerScores == r1.playerScores[p.username := |r1.players| - |r1.eliminatedPlayers|];
    assert p in active
      && room.eliminatedPlayers == r1.eliminatedPlayers + [p.id]
      && room.playerScores == r1.playerScores[p.username := |active| - 1];
  }

  /** Eliminating an id that belongs to no player changes nothing. */
  lemma {:induction false} ActiveIgnoresStranger(ps: seq<Player>, eliminated: seq<PlayerId>, x: PlayerId)
    requires x !in Ids(ps)
    ensures ActivePlayers(ps, eliminated + [x]) == ActivePlayers(ps, eliminated)
  {
    if ps != [] {
      var init := ps[..|ps| - 1];
      assert Ids(init) <= Ids(ps) by { assert forall q :: q in init ==> q in ps; }
      ActiveIgnoresStranger(init, eliminated, x);
      assert ps[|ps| - 1] in ps;
    }
  }

  /** With distinct ids, eliminating one active player makes exactly one fewer active. */
  lemma {:induction false} ActiveDropOne(ps: seq<Player>, eliminated: seq<PlayerId>, p: Player)
    requires DistinctIds(ps) && p in ActivePlayers(ps, eliminated)
    ensures |ActivePlayers(ps, eliminated + [p.id])| == |ActivePlayers(ps, eliminated)| - 1
  {
    ActivePlayersMembers(ps, eliminated);
    var init := ps[..|ps| - 1];
    var last := ps[|ps| - 1];
    assert ps == init + [last];
    assert DistinctIds(init);
    if last.id == p.id {
      assert p.id !in Ids(init) by {
        forall q | q in init ensures q.id != p.id {
          var k :| 0 <= k < |init| && init[k] == q;
          assert ps[k] == q;
        }
      }
      ActiveIgnoresStranger(init, eliminated, p.id);
    } else {
      assert p in init;
      ActivePlayersMembers(init, eliminated);
      ActiveDropOne(init, eliminated, p);
    }
  }

  /** `maxRounds` is not lowered when a player leaves: when an active player leaves a
      game with three active players before its last round, the round still ends with
      another round to follow, and that round has a single active player. */
  lemma DepartureLeavesLoneRound(r: RoomData, sender: PlayerId)
    requires Roster(r) && r.status == Playing
    requires sender in Ids(r.players) && sender !in r.eliminatedPlayers
    requires |ActivePlayers(r.players, r.eliminatedPlayers)| == 3 && r.currentRound < r.maxRounds
    ensures var left := Leave(r, sender);
      && left.Left? && !left.gameEnded
      && var res := EndRound(left.room);
      && res.next == NextRound
      && |ActivePlayers(res.room.players, res.room.eliminatedPlayers)| == 1
  {
    LeaveMidGame(r, sender);
    LeaveRemovesSender(r, sender);
    var r1 := Leave(r, sender).room;
    var room := EndRound(r1).room;
    EndRoundRanksEliminated(r1);
    var p :| p in ActivePlayers(r1.players, r1.eliminatedPlayers)
      && room.eliminatedPlayers == r1.eliminatedPlayers + [p.id]
      && room.playerScores == r1.playerScores[p.username := |r1.players| - |r1.eliminatedPlayers|];
    ActiveDropOne(r1.players, r1.eliminatedPlayers, p);
  }
}

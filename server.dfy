/** The message handlers of server.js over the global room registry: each
    handler is a method that updates the registry in place and returns the
    messages it sends, proved equal to the room transitions of module Rooms. */
module Server {
  import opened Seqs
  import opened Rooms
  import Resolver
  import RoomLaws

  // ---------------------------------------------------------------------------
  // The loops the handlers run, each proved against its specification

  /** The retry loop of create_room: draw codes until one is not in use. The
      random draws are supplied by the caller, and one of them must be free. */
  method PickCode(rooms: map<Code, Room>, draws: seq<Code>) returns (code: Code)
    requires exists k :: 0 <= k < |draws| && draws[k] !in rooms
    ensures code !in rooms
    ensures exists k :: 0 <= k < |draws| && draws[k] == code &&
                        forall j :: 0 <= j < k ==> draws[j] in rooms
  {
    var k := 0;
    code := draws[0];
    while code in rooms
      invariant 0 <= k < |draws| && code == draws[k]
      invariant forall j :: 0 <= j < k ==> draws[j] in rooms
      invariant exists m :: k <= m < |draws| && draws[m] !in rooms
      decreases |draws| - k
    {
      k := k + 1;
      code := draws[k];
    }
  }

  /** The `for..in` of the close handler and the `find` of kick_player: the
      first player in roster order whose connection is `conn`. */
  method FindPlayer(order: seq<PlayerId>, players: map<PlayerId, Player>, conn: ConnId)
    returns (r: Option<PlayerId>)
    requires forall id :: id in order ==> id in players
    ensures r == FirstWithConn(order, players, conn)
  {
    var i := 0;
    assert order[0..] == order;
    while i < |order|
      invariant 0 <= i <= |order|
      invariant FirstWithConn(order[i..], players, conn) == FirstWithConn(order, players, conn)
    {
      assert order[i..][1..] == order[i + 1..];
      if players[order[i]].conn == conn {
        return Some(order[i]);
      }
      i := i + 1;
    }
    return None;
  }

  /** join_room's `existingNames.includes(name)`. */
  method HasName(room: Room, name: string) returns (taken: bool)
    requires room.Valid()
    ensures taken == NameTaken(room, name)
  {
    taken := false;
    for i := 0 to |room.order|
      invariant taken <==> exists k :: 0 <= k < i && room.players[room.order[k]].name == name
    {
      if room.players[room.order[i]].name == name {
        taken := true;
      }
    }
    if taken {
      var k :| 0 <= k < |room.order| && room.players[room.order[k]].name == name;
      assert room.order[k] in room.players;
    } else {
      forall id | id in room.players ensures room.players[id].name != name {
        var k :| 0 <= k < |room.order| && room.order[k] == id;
      }
    }
  }

  /** The `every(id => number !== null)` test of number_chosen and of the close handler. */
  method CheckAllSubmitted(room: Room) returns (all: bool)
    requires room.Valid()
    ensures all == AllSubmitted(room)
  {
    all := true;
    for i := 0 to |room.order|
      invariant all <==> forall k :: 0 <= k < i ==> room.players[room.order[k]].number.Some?
    {
      if room.players[room.order[i]].number.None? {
        all := false;
      }
    }
    if !all {
      var k :| 0 <= k < |room.order| && room.players[room.order[k]].number.None?;
      assert room.order[k] in room.players;
    } else {
      forall id | id in room.players ensures room.players[id].number.Some? {
        var k :| 0 <= k < |room.order| && room.order[k] == id;
      }
    }
  }

  /** The `forEach` resets of start_round, number_chosen, play_again and the
      close handler: every player's number cleared, and the ready flag too
      when `clearReady`. */
  method ClearRoster(players: map<PlayerId, Player>, order: seq<PlayerId>, clearReady: bool)
    returns (ps: map<PlayerId, Player>)
    requires NoDups(order) && forall id :: id in players <==> id in order
    ensures ps == ClearAll(players, clearReady)
  {
    ps := players;
    for i := 0 to |order|
      invariant forall id :: id in ps <==> id in players
      invariant forall k :: 0 <= k < i ==> ps[order[k]] == Cleared(players[order[k]], clearReady)
      invariant forall k :: i <= k < |order| ==> ps[order[k]] == players[order[k]]
    {
      ps := ps[order[i] := Cleared(ps[order[i]], clearReady)];
    }
    forall id | id in ps ensures ps[id] == ClearAll(players, clearReady)[id] {
      var k :| 0 <= k < |order| && order[k] == id;
    }
  }

  /** `result.winnerPlayerIds.forEach(id => players[id].wins += 1)`. */
  method CreditLoop(players: map<PlayerId, Player>, ids: seq<PlayerId>)
    returns (ps: map<PlayerId, Player>)
    requires NoDups(ids) && forall id :: id in ids ==> id in players
    ensures ps == CreditWinners(players, ids)
  {
    ps := players;
    for t := 0 to |ids|
      invariant forall id :: id in ps <==> id in players
      invariant forall id :: id in players ==>
        ps[id] == (if id in ids[..t] then players[id].(wins := players[id].wins + 1) else players[id])
    {
      assert ids[t] !in ids[..t];
      assert forall id :: id in ids[..t + 1] <==> id in ids[..t] || id == ids[t];
      ps := ps[ids[t] := ps[ids[t]].(wins := ps[ids[t]].wins + 1)];
    }
    assert ids[..|ids|] == ids;
  }

  /** The filter in calculateResult (55-59): the numbers that are not null,
      in roster order. There are as many as players exactly when every player
      has submitted, and then they are the room's submissions. */
  method CollectNumbers(room: Room) returns (valid: seq<int>)
    requires room.Valid()
    ensures |valid| <= |room.order|
    ensures |valid| == |room.order| <==> AllSubmitted(room)
    ensures AllSubmitted(room) ==> valid == Submissions(room)
  {
    valid := [];
    for k := 0 to |room.order|
      invariant |valid| <= k
      invariant |valid| == k <==> forall j :: 0 <= j < k ==> room.players[room.order[j]].number.Some?
      invariant |valid| == k ==> forall j :: 0 <= j < k ==> room.players[room.order[j]].number == Some(valid[j])
    {
      var n := room.players[room.order[k]].number;
      if n.Some? {
        valid := valid + [n.value];
      }
    }
    if |valid| != |room.order| {
      assert !AllSubmitted(room) by {
        var j :| 0 <= j < |room.order| && room.players[room.order[j]].number.None?;
        assert room.order[j] in room.players;
      }
    } else {
      assert AllSubmitted(room) by {
        forall id | id in room.players ensures room.players[id].number.Some? {
          var k :| 0 <= k < |room.order| && room.order[k] == id;
        }
      }
    }
  }

  /** calculateResult as the source writes it: give up on a missing or empty
      room, keep the non-null numbers and give up unless all are there, then run
      the two resolver loops and map the winning indices back to player ids. */
  method CalculateResultOf(rooms: map<Code, Room>, code: Code) returns (r: Option<Round>)
    requires code in rooms ==> rooms[code].Valid()
    ensures r == CalculateResult(rooms, code)
  {
    if code !in rooms || |rooms[code].order| == 0 {
      return None;
    }
    var room := rooms[code];
    var valid := CollectNumbers(room);
    if |valid| != |room.order| {
      return None;
    }
    var o := Resolver.ResolveRound(valid);
    var expected := RoundOf(room);
    assert forall t :: 0 <= t < |o.winners| ==> o.winners[t] < |room.order|;
    var ids := seq(|o.winners|, t requires 0 <= t < |o.winners| => room.order[o.winners[t]]);
    assert ids == expected.winnerPlayerIds;
    r := Some(Round(valid, o.sum, o.minDiff, o.winners, o.eliminated, ids, room.order[o.eliminated]));
  }

  /** The resolution block on one room: credit the winners, send the result
      to every player, notify and remove the eliminated player (handing admin
      on if it held it), clear every number and return to waiting. */
  method PlayRound(room: Room, res: Round) returns (next: Room, out: seq<Outbound>)
    requires room.Valid() && |room.order| > 0 && AllSubmitted(room)
    requires res == RoundOf(room)
    ensures next == Resolved(room)
    ensures out == ResultMessages(room)
  {
    var ps := CreditLoop(room.players, res.winnerPlayerIds);
    next := room.(players := ps);
    assert next.Valid();
    out := SendToAll(room, RoundResult);
    var elim := res.eliminatedPlayerId;
    if elim != "" && elim in next.players {
      out := out + [Send(next.players[elim].conn, Eliminated)];
      next := RemoveEliminated(next, elim);
    }
    var cleared := ClearRoster(next.players, next.order, false);
    next := next.(players := cleared, status := Waiting);
  }

  /** The `for..of` loop that sends the result to every player, whatever the
      state of its connection. */
  method SendToAll(room: Room, tag: Tag) returns (out: seq<Outbound>)
    requires room.Valid()
    ensures out == ToEveryone(room, tag)
  {
    out := [];
    for k := 0 to |room.order|
      invariant |out| == k
      invariant forall j :: 0 <= j < k ==> out[j] == Send(room.players[room.order[j]].conn, tag)
    {
      out := out + [Send(room.players[room.order[k]].conn, tag)];
    }
  }

  /** The elimination step (288-310) as the handler runs it, statement by
      statement: note whether the eliminated player held the admin's
      connection, delete it, and if so and others remain hand admin to the
      first remaining player. The function `Eliminate` is the same step as a
      value, and the lemmas about rooms speak of it. */
  method RemoveEliminated(room: Room, elim: PlayerId) returns (next: Room)
    requires room.Valid() && elim in room.players
    ensures next == Eliminate(room, elim)
  {
    var wasAdmin := room.adminId == room.players[elim].conn;
    var remaining := Remove(room.order, elim);
    var left := room.players - {elim};
    var admin := room.adminId;
    if wasAdmin && |remaining| > 0 {
      assert remaining[0] in left;
      admin := left[remaining[0]].conn;
    }
    next := Room(admin, remaining, left, room.status);
  }

  /** The removal step of the close handler (443-454) as the handler runs it:
      when the leaving connection is the admin's and the room has more than one
      player, admin passes to the first other player in roster order; then the
      player is deleted. The function `Departed` is the same step as a value,
      and the lemmas about rooms speak of it. */
  method Leave(room: Room, pid: PlayerId, ws: ConnId) returns (r: Room)
    requires room.Valid() && pid in room.players
    ensures r == Departed(room, pid, ws)
  {
    var admin := room.adminId;
    if room.adminId == ws && |room.order| > 1 {
      var others := Remove(room.order, pid);
      if |others| > 0 {
        admin := room.players[others[0]].conn;
      }
    }
    r := Room(admin, Remove(room.order, pid), room.players - {pid}, room.status);
  }

  /** The close handler's search (429-440): the first room in enumeration
      order holding a player on `conn`, with the first such player in it. */
  function Locate(rooms: map<Code, Room>, codes: seq<Code>, conn: ConnId): (r: Option<(Code, PlayerId)>)
    requires forall c :: c in codes ==> c in rooms && forall id :: id in rooms[c].order ==> id in rooms[c].players
    ensures r.None? ==> forall c :: c in codes ==>
      FirstWithConn(rooms[c].order, rooms[c].players, conn).None?
    ensures r.Some? ==> exists k :: (0 <= k < |codes| && codes[k] == r.value.0 &&
      FirstWithConn(rooms[r.value.0].order, rooms[r.value.0].players, conn) == Some(r.value.1) &&
      forall j :: 0 <= j < k ==> FirstWithConn(rooms[codes[j]].order, rooms[codes[j]].players, conn).None?)
  {
    if codes == [] then None
    else
      var room := rooms[codes[0]];
      var f := FirstWithConn(room.order, room.players, conn);
      if f.Some? then Some((codes[0], f.value))
      else
        var r := Locate(rooms, codes[1..], conn);
        assert forall k :: 0 < k < |codes| ==> codes[k] == codes[1..][k - 1];
        if r.Some? then
          var k :| 0 <= k < |codes[1..]| && codes[1..][k] == r.value.0 &&
            FirstWithConn(rooms[r.value.0].order, rooms[r.value.0].players, conn) == Some(r.value.1) &&
            forall j :: 0 <= j < k ==> FirstWithConn(rooms[codes[1..][j]].order, rooms[codes[1..][j]].players, conn).None?;
          assert codes[k + 1] == r.value.0;
          r
        else r
  }

  /** Every room keeps its numbers in [0, 100] and, while it has players, its
      admin's connection among them. */
  ghost predicate Sound(rooms: map<Code, Room>)
  {
    forall c :: c in rooms ==> NumbersInRange(rooms[c]) && AdminPresent(rooms[c])
  }

  /** `codes` lists the keys of `rooms` once each, and every room is well formed. */
  ghost predicate Indexed(rooms: map<Code, Room>, codes: seq<Code>)
  {
    && NoDups(codes)
    && (forall c :: c in rooms <==> c in codes)
    && (forall c :: c in rooms ==> rooms[c].Valid())
  }

  lemma IndexedReplace(rooms: map<Code, Room>, codes: seq<Code>, code: Code, r: Room)
    requires Indexed(rooms, codes) && code in rooms && r.Valid()
    ensures Indexed(rooms[code := r], codes)
  {
  }

  lemma IndexedDelete(rooms: map<Code, Room>, codes: seq<Code>, code: Code)
    requires Indexed(rooms, codes) && code in rooms
    ensures Indexed(rooms - {code}, Remove(codes, code))
  {
  }

  lemma SoundReplace(rooms: map<Code, Room>, code: Code, r: Room)
    requires Sound(rooms) && NumbersInRange(r) && AdminPresent(r)
    ensures Sound(rooms[code := r])
  {
  }

  lemma UpdateTwice<K, V>(m: map<K, V>, k: K, a: V, b: V)
    ensures m[k := a][k := b] == m[k := b]
  {
  }

  lemma UpdateThenDelete<K, V>(m: map<K, V>, k: K, a: V)
    ensures m[k := a] - {k} == m - {k}
  {
  }

  lemma SoundDelete(rooms: map<Code, Room>, code: Code)
    requires Sound(rooms)
    ensures Sound(rooms - {code})
  {
  }

  // ---------------------------------------------------------------------------
  // Inbound messages

  /** A parsed inbound frame. Which fields matter depends on `typ`. */
  datatype Frame = Frame(typ: string, roomCode: Code, playerName: string, playerId: PlayerId, number: int)

  /** The type tags the message switch handles. Anything else, the client's
      "choose_number" included, matches no case and is ignored. */
  const HandledTypes: set<string> :=
    {"create_room", "join_room", "start_round", "number_chosen", "play_again", "kick_player"}

  // ---------------------------------------------------------------------------
  // The registry

  /** The global `rooms` object. `codes` lists its keys in insertion order,
      the order in which `for..in` visits them. */
  class Registry {
    var rooms: map<Code, Room>
    var codes: seq<Code>

    ghost predicate Valid()
      reads this
    {
      Indexed(rooms, codes)
    }

    /** What the handlers keep: every number in range, and every room with
        players has its admin among them. */
    ghost predicate Consistent()
      reads this
    {
      Valid() && Sound(rooms)
    }

    constructor()
      ensures Consistent() && rooms == map[] && codes == []
    {
      rooms := map[];
      codes := [];
    }

    /** `rooms[code] = r` for a room already registered: the key list stays,
        and consistency is kept when `r` keeps the room invariants. */
    method Put(code: Code, r: Room)
      requires Valid() && code in rooms && r.Valid()
      modifies this
      ensures Valid() && rooms == old(rooms)[code := r] && codes == old(codes)
      ensures old(Consistent()) && NumbersInRange(r) && AdminPresent(r) ==> Consistent()
    {
      IndexedReplace(rooms, codes, code, r);
      if Sound(rooms) && NumbersInRange(r) && AdminPresent(r) {
        SoundReplace(rooms, code, r);
      }
      rooms := rooms[code := r];
    }

    /** The resolution block shared by number_chosen (263-317) and the close
        handler (461-514): credit the winners, send the result to every player,
        notify and remove the eliminated player (handing admin on if it held it),
        clear every number and return to waiting. */
    method ApplyRound(code: Code, res: Round) returns (out: seq<Outbound>)
      requires Valid() && code in rooms && |rooms[code].order| > 0 && AllSubmitted(rooms[code])
      requires res == RoundOf(rooms[code])
      modifies this
      ensures Valid() && codes == old(codes)
      ensures rooms == old(rooms)[code := Resolved(old(rooms)[code])]
      ensures out == ResultMessages(old(rooms)[code])
      ensures old(Consistent()) ==> Consistent()
    {
      var room := rooms[code];
      var cur;
      cur, out := PlayRound(room, res);
      RoomLaws.ResolvedKeepsInvariants(room);
      IndexedReplace(rooms, codes, code, cur);
      if Sound(rooms) {
        SoundReplace(rooms, code, cur);
      }
      rooms := rooms[code := cur];
    }

    /** What number_chosen (258-330) and the close handler (456-527) do once a
        room with players has changed: resolve the round if every player has a
        number, otherwise tell every player with the given message. */
    method Settle(code: Code, tag: Tag, open: set<ConnId>, ghost base: map<Code, Room>, ghost r: Room)
      returns (out: seq<Outbound>)
      requires Valid() && r.Valid() && rooms == base[code := r] && |r.order| > 0
      modifies this
      ensures Valid() && codes == old(codes)
      ensures AllSubmitted(r) ==> rooms == base[code := Resolved(r)] && out == ResultMessages(r)
      ensures !AllSubmitted(r) ==> rooms == base[code := r] && out == Broadcast(rooms, code, tag, None, open)
      ensures old(Consistent()) ==> Consistent()
    {
      assert rooms[code] == r;
      var all := CheckAllSubmitted(rooms[code]);
      if all {
        var result := CalculateResultOf(rooms, code);
        out := [];
        if result.Some? {
          out := ApplyRound(code, result.value);
          UpdateTwice(base, code, r, Resolved(r));
        }
      } else {
        out := Broadcast(rooms, code, tag, None, open);
      }
    }

    /** create_room (118-151): a fresh code, a room whose only player is the
        creator and whose admin is the creator's connection. */
    method CreateRoom(ws: ConnId, name: string, draws: seq<Code>, suffix: string)
      returns (code: Code, out: seq<Outbound>)
      requires Valid()
      requires exists k :: 0 <= k < |draws| && draws[k] !in rooms
      modifies this
      ensures Valid()
      ensures code !in old(rooms) && code in draws
      ensures rooms == old(rooms)[code := NewRoom(ws, PlayerIdFor(suffix), name)]
      ensures codes == old(codes) + [code]
      ensures out == [Send(ws, RoomCreated)]
      ensures old(Consistent()) ==> Consistent()
    {
      code := PickCode(rooms, draws);
      var pid := PlayerIdFor(suffix);
      if Sound(rooms) {
        SoundReplace(rooms, code, NewRoom(ws, pid, name));
      }
      rooms := rooms[code := NewRoom(ws, pid, name)];
      codes := codes + [code];
      out := [Send(ws, RoomCreated)];
    }

    /** join_room (153-208): an error for a missing room or a name in use;
        otherwise the new player is added, the others are told and the joiner
        gets the room. */
    method JoinRoom(ws: ConnId, code: Code, name: string, suffix: string, open: set<ConnId>)
      returns (out: seq<Outbound>)
      requires Valid()
      modifies this
      ensures Valid() && codes == old(codes)
      ensures code !in old(rooms) ==> rooms == old(rooms) && out == [Send(ws, Error(RoomMissing))]
      ensures code in old(rooms) && NameTaken(old(rooms)[code], name) ==>
        rooms == old(rooms) && out == [Send(ws, Error(NameInUse))]
      ensures code in old(rooms) && !NameTaken(old(rooms)[code], name) ==>
        && rooms == old(rooms)[code := AddPlayer(old(rooms)[code], PlayerIdFor(suffix), NewPlayer(name, ws))]
        && out == Broadcast(rooms, code, PlayerJoined, Some(ws), open) + [Send(ws, RoomJoined)]
      ensures (old(Consistent()) && (code in old(rooms) ==>
                |old(rooms)[code].order| > 0 && PlayerIdFor(suffix) !in old(rooms)[code].players))
              ==> Consistent()
    {
      if code !in rooms {
        return [Send(ws, Error(RoomMissing))];
      }
      var taken := HasName(rooms[code], name);
      if taken {
        return [Send(ws, Error(NameInUse))];
      }
      var pid := PlayerIdFor(suffix);
      var room := rooms[code];
      if pid !in room.players {
        RoomLaws.JoinAppendsOne(room, pid, name, ws);
      } else {
        assert pid in room.order;
      }
      Put(code, AddPlayer(room, pid, NewPlayer(name, ws)));
      out := Broadcast(rooms, code, PlayerJoined, Some(ws), open) + [Send(ws, RoomJoined)];
    }

    /** start_round (210-239): nothing for a missing room, an error for anyone
        but the admin; otherwise every number and ready flag is cleared, the
        round opens and every player is told. */
    method StartRound(ws: ConnId, code: Code, open: set<ConnId>) returns (out: seq<Outbound>)
      requires Valid()
      modifies this
      ensures Valid() && codes == old(codes)
      ensures code !in old(rooms) ==> rooms == old(rooms) && out == []
      ensures code in old(rooms) && old(rooms)[code].adminId != ws ==>
        rooms == old(rooms) && out == [Send(ws, Error(OnlyAdminStarts))]
      ensures code in old(rooms) && old(rooms)[code].adminId == ws ==>
        && rooms == old(rooms)[code := Started(old(rooms)[code])]
        && out == Broadcast(rooms, code, RoundStarted, None, open)
      ensures old(Consistent()) ==> Consistent()
    {
      if code !in rooms {
        return [];
      }
      var room := rooms[code];
      if room.adminId != ws {
        return [Send(ws, Error(OnlyAdminStarts))];
      }
      var ps := ClearRoster(room.players, room.order, true);
      RoomLaws.StartedEffect(room);
      assert NumbersInRange(Started(room));
      Put(code, room.(players := ps, status := Playing));
      out := Broadcast(rooms, code, RoundStarted, None, open);
    }

    /** play_again (333-361): like start_round, but ready flags are kept and
        the room returns to waiting. */
    method PlayAgain(ws: ConnId, code: Code, open: set<ConnId>) returns (out: seq<Outbound>)
      requires Valid()
      modifies this
      ensures Valid() && codes == old(codes)
      ensures code !in old(rooms) ==> rooms == old(rooms) && out == []
      ensures code in old(rooms) && old(rooms)[code].adminId != ws ==>
        rooms == old(rooms) && out == [Send(ws, Error(OnlyAdminRestarts))]
      ensures code in old(rooms) && old(rooms)[code].adminId == ws ==>
        && rooms == old(rooms)[code := Restarted(old(rooms)[code])]
        && out == Broadcast(rooms, code, Tag.PlayAgain, None, open)
      ensures old(Consistent()) ==> Consistent()
    {
      if code !in rooms {
        return [];
      }
      var room := rooms[code];
      if room.adminId != ws {
        return [Send(ws, Error(OnlyAdminRestarts))];
      }
      var ps := ClearRoster(room.players, room.order, false);
      RoomLaws.RestartedEffect(room);
      assert NumbersInRange(Restarted(room));
      Put(code, room.(players := ps, status := Waiting));
      out := Broadcast(rooms, code, Tag.PlayAgain, None, open);
    }
  
    /** number_chosen (241-331): nothing for a missing room, an error for a
        number outside [0, 100], nothing for an unknown player id (the source
        throws and the exception is swallowed); otherwise the number is recorded
        whatever the room's status, and either the round is resolved, when every
        player has a number, or every player is told of the submission. */
    method NumberChosen(ws: ConnId, code: Code, pid: PlayerId, n: int, open: set<ConnId>)
      returns (out: seq<Outbound>)
      requires Valid()
      modifies this
      ensures Valid() && codes == old(codes)
      ensures code !in old(rooms) ==> rooms == old(rooms) && out == []
      ensures code in old(rooms) && !(0 <= n <= 100) ==>
        rooms == old(rooms) && out == [Send(ws, Error(NumberOutOfRange))]
      ensures code in old(rooms) && 0 <= n <= 100 && pid !in old(rooms)[code].players ==>
        rooms == old(rooms) && out == []
      ensures code in old(rooms) && 0 <= n <= 100 && pid in old(rooms)[code].players ==>
        var r := WithNumber(old(rooms)[code], pid, n);
        && (AllSubmitted(r) ==> rooms == old(rooms)[code := Resolved(r)] && out == ResultMessages(r))
        && (!AllSubmitted(r) ==>
              rooms == old(rooms)[code := r] && out == Broadcast(rooms, code, NumberSubmitted, None, open))
      ensures old(Consistent()) ==> Consistent()
    {
      if code !in rooms {
        return [];
      }
      if !(0 <= n <= 100) {
        return [Send(ws, Error(NumberOutOfRange))];
      }
      var room := rooms[code];
      if pid !in room.players {
        return [];
      }
      out := Accept(code, pid, n, open);
    }

    /** number_chosen from line 256 on: the number is recorded, then the room
        is settled. */
    method Accept(code: Code, pid: PlayerId, n: int, open: set<ConnId>) returns (out: seq<Outbound>)
      requires Valid() && code in rooms && pid in rooms[code].players && 0 <= n <= 100
      modifies this
      ensures Valid() && codes == old(codes)
      ensures var r := WithNumber(old(rooms)[code], pid, n);
        && (AllSubmitted(r) ==> rooms == old(rooms)[code := Resolved(r)] && out == ResultMessages(r))
        && (!AllSubmitted(r) ==>
              rooms == old(rooms)[code := r] && out == Broadcast(rooms, code, NumberSubmitted, None, open))
      ensures old(Consistent()) ==> Consistent()
    {
      var room := rooms[code];
      RoomLaws.WithNumberKeepsInvariants(room, pid, n);
      var r := WithNumber(room, pid, n);
      ghost var wasSound := Sound(rooms);
      if wasSound {
        SoundReplace(rooms, code, r);
      }
      rooms := rooms[code := r];
      assert wasSound ==> Consistent();
      out := Settle(code, NumberSubmitted, open, old(rooms), r);
    }

    /** kick_player (363-417): nothing for a missing room, an error for anyone
        but the admin and for the admin's own first player, nothing for an
        unknown id; otherwise the target is deleted, told, the others are told,
        and a room left empty is deleted. */
    method KickPlayer(ws: ConnId, code: Code, pid: PlayerId, open: set<ConnId>) returns (out: seq<Outbound>)
      requires Valid()
      modifies this
      ensures Valid()
      ensures code !in old(rooms) ==> rooms == old(rooms) && codes == old(codes) && out == []
      ensures code in old(rooms) && old(rooms)[code].adminId != ws ==>
        rooms == old(rooms) && codes == old(codes) && out == [Send(ws, Error(OnlyAdminKicks))]
      ensures code in old(rooms) && old(rooms)[code].adminId == ws &&
              FirstWithConn(old(rooms)[code].order, old(rooms)[code].players, ws) == Some(pid) ==>
        rooms == old(rooms) && codes == old(codes) && out == [Send(ws, Error(NoSelfKick))]
      ensures code in old(rooms) && old(rooms)[code].adminId == ws &&
              FirstWithConn(old(rooms)[code].order, old(rooms)[code].players, ws) != Some(pid) ==>
        var room := old(rooms)[code];
        var r := WithoutPlayer(room, pid);
        && (pid !in room.players ==> rooms == old(rooms) && codes == old(codes) && out == [])
        && (pid in room.players ==>
              && out == [Send(room.players[pid].conn, Kicked)] +
                        Broadcast(old(rooms)[code := r], code, PlayerKicked, Some(room.players[pid].conn), open)
              && (|r.order| > 0 ==> rooms == old(rooms)[code := r] && codes == old(codes))
              && (|r.order| == 0 ==> rooms == old(rooms) - {code} && codes == Remove(old(codes), code)))
      ensures old(Consistent()) ==> Consistent()
    {
      if code !in rooms {
        return [];
      }
      var room := rooms[code];
      if room.adminId != ws {
        return [Send(ws, Error(OnlyAdminKicks))];
      }
      var self := FindPlayer(room.order, room.players, room.adminId);
      if self == Some(pid) {
        return [Send(ws, Error(NoSelfKick))];
      }
      if pid !in room.players {
        return [];
      }
      out := Expel(code, pid, open);
    }

    /** kick_player from line 392 on: the target is deleted and told, the
        others are told, and a room left empty is deleted. */
    method Expel(code: Code, pid: PlayerId, open: set<ConnId>) returns (out: seq<Outbound>)
      requires Valid() && code in rooms && pid in rooms[code].players
      requires FirstWithConn(rooms[code].order, rooms[code].players, rooms[code].adminId) != Some(pid)
      modifies this
      ensures Valid()
      ensures var room := old(rooms)[code];
        var r := WithoutPlayer(room, pid);
        && out == [Send(room.players[pid].conn, Kicked)] +
                  Broadcast(old(rooms)[code := r], code, PlayerKicked, Some(room.players[pid].conn), open)
        && (|r.order| > 0 ==> rooms == old(rooms)[code := r] && codes == old(codes))
        && (|r.order| == 0 ==> rooms == old(rooms) - {code} && codes == Remove(old(codes), code))
      ensures old(Consistent()) ==> Consistent()
    {
      var room := rooms[code];
      var kicked := room.players[pid];
      var r := WithoutPlayer(room, pid);
      RoomLaws.KickKeepsValid(room, pid);
      IndexedReplace(rooms, codes, code, r);
      ghost var wasSound := Sound(rooms);
      if wasSound {
        RoomLaws.KickKeepsAdmin(room, pid);
        SoundReplace(rooms, code, r);
      }
      rooms := rooms[code := r];
      out := [Send(kicked.conn, Kicked)] + Broadcast(rooms, code, PlayerKicked, Some(kicked.conn), open);
      if |r.order| == 0 {
        IndexedDelete(rooms, codes, code);
        if wasSound {
          SoundDelete(rooms, code);
        }
        UpdateThenDelete(old(rooms), code, r);
        rooms := rooms - {code};
        codes := Remove(codes, code);
      }
    }

    /** The close handler from the point where the leaving player is found
        (442-532): admin passes on if the leaving connection held it, the player
        is deleted, and then the round is resolved if every remaining player has
        a number, or the others are told, or the room, now empty, is deleted. */
    method Depart(code: Code, pid: PlayerId, ws: ConnId, open: set<ConnId>) returns (out: seq<Outbound>)
      requires Valid() && code in rooms && pid in rooms[code].players
      requires rooms[code].players[pid].conn == ws
      modifies this
      ensures Valid()
      ensures var r := Departed(old(rooms)[code], pid, ws);
        && (|r.order| > 0 && AllSubmitted(r) ==>
              rooms == old(rooms)[code := Resolved(r)] && codes == old(codes) && out == ResultMessages(r))
        && (|r.order| > 0 && !AllSubmitted(r) ==>
              && rooms == old(rooms)[code := r] && codes == old(codes)
              && out == Broadcast(rooms, code, PlayerLeft, None, open))
        && (|r.order| == 0 ==>
              rooms == old(rooms) - {code} && codes == Remove(old(codes), code) && out == [])
      ensures old(Consistent()) ==> Consistent()
    {
      var room := rooms[code];
      var r := Leave(room, pid, ws);
      RoomLaws.DepartedKeepsInvariants(room, pid, ws);
      ghost var wasSound := Sound(rooms);
      if wasSound {
        SoundReplace(rooms, code, r);
      }
      rooms := rooms[code := r];
      assert wasSound ==> Consistent();
      if |r.order| > 0 {
        out := Settle(code, PlayerLeft, open, old(rooms), r);
      } else {
        if wasSound {
          SoundDelete(rooms, code);
        }
        UpdateThenDelete(old(rooms), code, r);
        rooms := rooms - {code};
        codes := Remove(codes, code);
        out := [];
      }
    }

    /** The close handler (425-537): the rooms are visited in enumeration order
        and only the first one holding a player on the closed connection is
        changed, for the first such player in it. The event fires once the
        connection is closed, so `ws` is not among the open connections. */
    method Close(ws: ConnId, open: set<ConnId>) returns (out: seq<Outbound>)
      requires Valid() && ws !in open
      modifies this
      ensures Valid()
      ensures Locate(old(rooms), old(codes), ws).None? ==>
        rooms == old(rooms) && codes == old(codes) && out == []
      ensures Locate(old(rooms), old(codes), ws).Some? ==>
        var (code, pid) := Locate(old(rooms), old(codes), ws).value;
        var r := Departed(old(rooms)[code], pid, ws);
        && (|r.order| > 0 && AllSubmitted(r) ==>
              rooms == old(rooms)[code := Resolved(r)] && codes == old(codes) && out == ResultMessages(r))
        && (|r.order| > 0 && !AllSubmitted(r) ==>
              && rooms == old(rooms)[code := r] && codes == old(codes)
              && out == Broadcast(rooms, code, PlayerLeft, None, open))
        && (|r.order| == 0 ==>
              rooms == old(rooms) - {code} && codes == Remove(old(codes), code) && out == [])
      ensures old(Consistent()) ==> Consistent()
    {
      var i := 0;
      assert codes[0..] == codes;
      while i < |codes|
        invariant Valid() && rooms == old(rooms) && codes == old(codes)
        invariant 0 <= i <= |codes|
        invariant Locate(rooms, codes[i..], ws) == Locate(rooms, codes, ws)
      {
        assert codes[i..][1..] == codes[i + 1..];
        var code := codes[i];
        var found := FindPlayer(rooms[code].order, rooms[code].players, ws);
        if found.Some? {
          out := Depart(code, found.value, ws, open);
          return;
        }
        i := i + 1;
      }
      out := [];
    }

    /** The message switch (117-418): each handled type goes to its handler;
        any other type is ignored. */
    method OnMessage(ws: ConnId, f: Frame, draws: seq<Code>, suffix: string, open: set<ConnId>)
      returns (out: seq<Outbound>)
      requires Valid()
      requires f.typ == "create_room" ==> exists k :: 0 <= k < |draws| && draws[k] !in rooms
      modifies this
      ensures Valid()
      ensures f.typ !in HandledTypes ==> rooms == old(rooms) && codes == old(codes) && out == []
      ensures f.typ == "create_room" ==>
        && |codes| == |old(codes)| + 1 && codes[..|old(codes)|] == old(codes)
        && var code := codes[|old(codes)|];
        && code !in old(rooms) && code in draws
        && rooms == old(rooms)[code := NewRoom(ws, PlayerIdFor(suffix), f.playerName)]
        && out == [Send(ws, RoomCreated)]
      ensures f.typ == "join_room" ==>
        var code := f.roomCode;
        && codes == old(codes)
        && (code !in old(rooms) ==> rooms == old(rooms) && out == [Send(ws, Error(RoomMissing))])
        && (code in old(rooms) && NameTaken(old(rooms)[code], f.playerName) ==>
              rooms == old(rooms) && out == [Send(ws, Error(NameInUse))])
        && (code in old(rooms) && !NameTaken(old(rooms)[code], f.playerName) ==>
              && rooms == old(rooms)[code := AddPlayer(old(rooms)[code], PlayerIdFor(suffix), NewPlayer(f.playerName, ws))]
              && out == Broadcast(rooms, code, PlayerJoined, Some(ws), open) + [Send(ws, RoomJoined)])
      ensures f.typ == "start_round" ==>
        var code := f.roomCode;
        && codes == old(codes)
        && (code !in old(rooms) ==> rooms == old(rooms) && out == [])
        && (code in old(rooms) && old(rooms)[code].adminId != ws ==>
              rooms == old(rooms) && out == [Send(ws, Error(OnlyAdminStarts))])
        && (code in old(rooms) && old(rooms)[code].adminId == ws ==>
              rooms == old(rooms)[code := Started(old(rooms)[code])] &&
              out == Broadcast(rooms, code, RoundStarted, None, open))
      ensures f.typ == "number_chosen" ==>
        var code, pid, n := f.roomCode, f.playerId, f.number;
        && codes == old(codes)
        && (code !in old(rooms) ==> rooms == old(rooms) && out == [])
        && (code in old(rooms) && !(0 <= n <= 100) ==>
              rooms == old(rooms) && out == [Send(ws, Error(NumberOutOfRange))])
        && (code in old(rooms) && 0 <= n <= 100 && pid !in old(rooms)[code].players ==>
              rooms == old(rooms) && out == [])
        && (code in old(rooms) && 0 <= n <= 100 && pid in old(rooms)[code].players ==>
              var r := WithNumber(old(rooms)[code], pid, n);
              && (AllSubmitted(r) ==> rooms == old(rooms)[code := Resolved(r)] && out == ResultMessages(r))
              && (!AllSubmitted(r) ==>
                    rooms == old(rooms)[code := r] && out == Broadcast(rooms, code, NumberSubmitted, None, open)))
      ensures f.typ == "play_again" ==>
        var code := f.roomCode;
        && codes == old(codes)
        && (code !in old(rooms) ==> rooms == old(rooms) && out == [])
        && (code in old(rooms) && old(rooms)[code].adminId != ws ==>
              rooms == old(rooms) && out == [Send(ws, Error(OnlyAdminRestarts))])
        && (code in old(rooms) && old(rooms)[code].adminId == ws ==>
              rooms == old(rooms)[code := Restarted(old(rooms)[code])] &&
              out == Broadcast(rooms, code, Tag.PlayAgain, None, open))
      ensures f.typ == "kick_player" ==>
        var code, pid := f.roomCode, f.playerId;
        && (code !in old(rooms) ==> rooms == old(rooms) && codes == old(codes) && out == [])
        && (code in old(rooms) && old(rooms)[code].adminId != ws ==>
              rooms == old(rooms) && codes == old(codes) && out == [Send(ws, Error(OnlyAdminKicks))])
        && (code in old(rooms) && old(rooms)[code].adminId == ws &&
            FirstWithConn(old(rooms)[code].order, old(rooms)[code].players, ws) == Some(pid) ==>
              rooms == old(rooms) && codes == old(codes) && out == [Send(ws, Error(NoSelfKick))])
        && (code in old(rooms) && old(rooms)[code].adminId == ws &&
            FirstWithConn(old(rooms)[code].order, old(rooms)[code].players, ws) != Some(pid) ==>
              var room := old(rooms)[code];
              var r := WithoutPlayer(room, pid);
              && (pid !in room.players ==> rooms == old(rooms) && codes == old(codes) && out == [])
              && (pid in room.players ==>
                    && out == [Send(room.players[pid].conn, Kicked)] +
                              Broadcast(old(rooms)[code := r], code, PlayerKicked, Some(room.players[pid].conn), open)
                    && (|r.order| > 0 ==> rooms == old(rooms)[code := r] && codes == old(codes))
                    && (|r.order| == 0 ==> rooms == old(rooms) - {code} && codes == Remove(old(codes), code))))
      ensures old(Consistent()) && f.typ != "join_room" ==> Consistent()
      ensures (old(Consistent()) && f.typ == "join_room" && (f.roomCode in old(rooms) ==>
                |old(rooms)[f.roomCode].order| > 0 && PlayerIdFor(suffix) !in old(rooms)[f.roomCode].players))
              ==> Consistent()
    {
      match f.typ {
        case "create_room" =>
          var code, o := CreateRoom(ws, f.playerName, draws, suffix);
          assert codes[..|old(codes)|] == old(codes) && codes[|old(codes)|] == code;
          out := o;
        case "join_room" =>
          out := JoinRoom(ws, f.roomCode, f.playerName, suffix, open);
        case "start_round" =>
          out := StartRound(ws, f.roomCode, open);
        case "number_chosen" =>
          out := NumberChosen(ws, f.roomCode, f.playerId, f.number, open);
        case "play_again" =>
          out := PlayAgain(ws, f.roomCode, open);
        case "kick_player" =>
          out := KickPlayer(ws, f.roomCode, f.playerId, open);
        case _ =>
          out := [];
      }
    }
  }
}

/** Rooms and players of the game server (server.js): the records the message
    handlers mutate, the round result they compute, the recipients of a
    broadcast, and each handler's effect on one room as a function of the
    room before it. */
module Rooms {
  import opened Seqs
  import Resolver

  type Code = string
  type PlayerId = string
  /** A client connection. The source compares connection objects by identity;
      here each connection is a distinct number. */
  type ConnId = nat

  datatype Status = Waiting | Playing

  datatype Player = Player(name: string, conn: ConnId, number: Option<int>, wins: nat, isReady: bool)

  /** A room: the admin's connection, the player ids in insertion order (the
      order in which `Object.keys` lists them) and the player records. */
  datatype Room = Room(adminId: ConnId, order: seq<PlayerId>, players: map<PlayerId, Player>, status: Status)
  {
    /** `order` lists every key of `players` exactly once, and no id is the
        empty string (ids are generated as "player_" + a suffix). */
    ghost predicate Valid()
    {
      && NoDups(order)
      && (forall id :: id in players <==> id in order)
      && (forall id :: id in players ==> id != "")
    }
  }

  /** Whenever a room has players, one of them holds the admin's connection. */
  predicate AdminPresent(room: Room)
  {
    |room.order| == 0 || exists id :: id in room.players && room.players[id].conn == room.adminId
  }

  /** Every submitted number lies in [0, 100]. */
  predicate NumbersInRange(room: Room)
  {
    forall id :: id in room.players && room.players[id].number.Some? ==>
      0 <= room.players[id].number.value <= 100
  }

  // ---------------------------------------------------------------------------
  // Outbound messages, reduced to their recipient and type tag

  datatype Tag =
    | RoomCreated | RoomJoined | PlayerJoined | RoundStarted | NumberSubmitted
    | RoundResult | Eliminated | Kicked | PlayerKicked | PlayerLeft | PlayAgain
    | Error(message: string)

  datatype Outbound = Send(to: ConnId, tag: Tag)

  const RoomMissing := "Room does not exist"
  const NameInUse := "Name already taken in this room"
  const OnlyAdminStarts := "Only admin can start the round"
  const NumberOutOfRange := "Number must be between 0 and 100"
  const OnlyAdminRestarts := "Only admin can start the next round"
  const OnlyAdminKicks := "Only admin can kick players"
  const NoSelfKick := "Admin cannot kick themselves"

  /** The connections broadcastToRoom writes to, in roster order: every player
      whose connection is not the excluded one and is open. */
  function RecipientsOf(order: seq<PlayerId>, players: map<PlayerId, Player>,
                        exclude: Option<ConnId>, open: set<ConnId>): (r: seq<ConnId>)
    requires forall id :: id in order ==> id in players
    ensures |r| <= |order|
    ensures forall c :: c in r <==>
      (c in open && exclude != Some(c) &&
       exists id :: id in order && players[id].conn == c)
  {
    if order == [] then []
    else
      var c := players[order[0]].conn;
      var rest := RecipientsOf(order[1..], players, exclude, open);
      assert forall id :: id in order <==> id == order[0] || id in order[1..];
      (if c in open && exclude != Some(c) then [c] else []) + rest
  }

  /** Recipients are listed in roster order: the recipients of a roster split
      in two are those of the first part followed by those of the second. */
  lemma {:induction false} RecipientsOfAppend(a: seq<PlayerId>, b: seq<PlayerId>, players: map<PlayerId, Player>,
                                              exclude: Option<ConnId>, open: set<ConnId>)
    requires forall id :: id in a ==> id in players
    requires forall id :: id in b ==> id in players
    ensures forall id :: id in a + b ==> id in players
    ensures RecipientsOf(a + b, players, exclude, open) ==
            RecipientsOf(a, players, exclude, open) + RecipientsOf(b, players, exclude, open)
  {
    if a == [] {
      assert a + b == b;
    } else {
      var ab := a + b;
      assert ab[0] == a[0] && ab[1..] == a[1..] + b;
      assert forall id :: id in a[1..] ==> id in a;
      RecipientsOfAppend(a[1..], b, players, exclude, open);
      var c := players[a[0]].conn;
      var h: seq<ConnId> := if c in open && exclude != Some(c) then [c] else [];
      var ra, rb := RecipientsOf(a[1..], players, exclude, open), RecipientsOf(b, players, exclude, open);
      assert RecipientsOf(ab, players, exclude, open) == h + (ra + rb);
      assert RecipientsOf(a, players, exclude, open) == h + ra;
      ConcatAssoc(h, ra, rb);
    }
  }

  lemma ConcatAssoc(x: seq<ConnId>, y: seq<ConnId>, z: seq<ConnId>)
    ensures x + (y + z) == (x + y) + z
  {
  }

  /** One message of type `tag` to each connection of `rs`, in order. */
  function SendEach(rs: seq<ConnId>, tag: Tag): (out: seq<Outbound>)
    ensures |out| == |rs| && forall k :: 0 <= k < |out| ==> out[k] == Send(rs[k], tag)
    ensures forall m :: m in out <==> m.tag == tag && m.to in rs
  {
    var out := seq(|rs|, k requires 0 <= k < |rs| => Send(rs[k], tag));
    assert forall k :: 0 <= k < |rs| ==> out[k] == Send(rs[k], tag);
    assert forall c :: c in rs ==> Send(c, tag) in out by {
      forall c | c in rs ensures Send(c, tag) in out {
        var k :| 0 <= k < |rs| && rs[k] == c;
        assert out[k] == Send(c, tag);
      }
    }
    out
  }

  /** broadcastToRoom: one message per recipient, in roster order; nothing when
      the room is missing. */
  function Broadcast(rooms: map<Code, Room>, code: Code, tag: Tag,
                     exclude: Option<ConnId>, open: set<ConnId>): (out: seq<Outbound>)
    requires code in rooms ==> rooms[code].Valid()
    ensures code !in rooms ==> out == []
    ensures forall m :: m in out ==> m.tag == tag && m.to in open && exclude != Some(m.to)
    ensures code in rooms ==> forall id :: (id in rooms[code].players &&
      rooms[code].players[id].conn in open && exclude != Some(rooms[code].players[id].conn)) ==>
      Send(rooms[code].players[id].conn, tag) in out
    ensures code in rooms ==> forall m :: m in out ==>
      exists id :: id in rooms[code].players && rooms[code].players[id].conn == m.to
    ensures code in rooms ==>
      var rs := RecipientsOf(rooms[code].order, rooms[code].players, exclude, open);
      |out| == |rs| && forall k :: 0 <= k < |out| ==> out[k] == Send(rs[k], tag)
  {
    if code !in rooms then []
    else
      var room := rooms[code];
      SendEach(RecipientsOf(room.order, room.players, exclude, open), tag)
  }

  /** The direct sends of the result loop: one message to every player, in roster
      order, whatever the state of its connection. */
  function ToEveryone(room: Room, tag: Tag): (out: seq<Outbound>)
    requires room.Valid()
    ensures |out| == |room.order|
    ensures forall k :: 0 <= k < |out| ==> out[k] == Send(room.players[room.order[k]].conn, tag)
  {
    seq(|room.order|, k requires 0 <= k < |room.order| => Send(room.players[room.order[k]].conn, tag))
  }

  // ---------------------------------------------------------------------------
  // Player records and roster changes

  /** The id create_room and join_room give a new player: "player_" followed by
      the creation time and a random suffix, supplied here by the caller. */
  function PlayerIdFor(suffix: string): (pid: PlayerId)
    ensures pid != ""
  {
    "player_" + suffix
  }

  /** The record create_room and join_room insert. */
  function NewPlayer(name: string, conn: ConnId): Player
  {
    Player(name, conn, None, 0, false)
  }

  /** The room create_room inserts: its creator is the only player and the admin. */
  function NewRoom(conn: ConnId, pid: PlayerId, name: string): (r: Room)
    requires pid != ""
    ensures r.Valid() && AdminPresent(r) && NumbersInRange(r)
    ensures r.order == [pid] && r.players[pid] == NewPlayer(name, conn) && r.adminId == conn
    ensures r.status == Waiting
  {
    var r := Room(conn, [pid], map[pid := NewPlayer(name, conn)], Waiting);
    assert r.players[pid].conn == conn;
    r
  }

  /** join_room's duplicate-name test: an exact, case-sensitive match. */
  predicate NameTaken(room: Room, name: string)
  {
    exists id :: id in room.players && room.players[id].name == name
  }

  /** `players[pid] = p`: a new key goes to the end of the roster; an existing key
      keeps its place and has its record replaced. */
  function AddPlayer(room: Room, pid: PlayerId, p: Player): (r: Room)
    ensures pid in r.players && r.players[pid] == p
    ensures forall id :: id in r.players <==> id in room.players || id == pid
    ensures forall id :: id in room.players && id != pid ==> r.players[id] == room.players[id]
    ensures pid in room.players ==> r.order == room.order
    ensures pid !in room.players ==> room.order <= r.order && |r.order| == |room.order| + 1 && r.order[|room.order|] == pid
    ensures r.adminId == room.adminId && r.status == room.status
  {
    room.(order := if pid in room.players then room.order else room.order + [pid],
          players := room.players[pid := p])
  }

  /** `delete players[pid]`. */
  function WithoutPlayer(room: Room, pid: PlayerId): (r: Room)
    ensures forall id :: id in r.players <==> id in room.players && id != pid
    ensures forall id :: id in r.players ==> r.players[id] == room.players[id]
    ensures forall id :: id in r.order <==> id in room.order && id != pid
    ensures r.adminId == room.adminId && r.status == room.status
  {
    room.(order := Remove(room.order, pid), players := room.players - {pid})
  }

  /** number_chosen: `players[pid].number = n`. */
  function WithNumber(room: Room, pid: PlayerId, n: int): (r: Room)
    requires pid in room.players
    ensures forall id :: id in r.players <==> id in room.players
    ensures r.players[pid].number == Some(n)
    ensures r.players[pid].name == room.players[pid].name && r.players[pid].conn == room.players[pid].conn
    ensures r.players[pid].wins == room.players[pid].wins && r.players[pid].isReady == room.players[pid].isReady
    ensures forall id :: id in room.players && id != pid ==> r.players[id] == room.players[id]
    ensures r.order == room.order && r.adminId == room.adminId && r.status == room.status
  {
    room.(players := room.players[pid := room.players[pid].(number := Some(n))])
  }

  /** The per-player reset of a round: the number is cleared, and on start_round
      the ready flag as well. */
  function Cleared(p: Player, clearReady: bool): Player
  {
    if clearReady then p.(number := None, isReady := false) else p.(number := None)
  }

  function ClearAll(players: map<PlayerId, Player>, clearReady: bool): map<PlayerId, Player>
  {
    map id | id in players :: Cleared(players[id], clearReady)
  }

  /** start_round by the admin. */
  function Started(room: Room): (r: Room)
    ensures forall id :: id in r.players <==> id in room.players
    ensures forall id :: id in r.players ==>
      r.players[id].number == None && !r.players[id].isReady && r.players[id].wins == room.players[id].wins
    ensures r.order == room.order && r.adminId == room.adminId && r.status == Playing
  {
    room.(players := ClearAll(room.players, true), status := Playing)
  }

  /** play_again by the admin. */
  function Restarted(room: Room): (r: Room)
    ensures forall id :: id in r.players <==> id in room.players
    ensures forall id :: id in r.players ==>
      r.players[id].number == None && r.players[id].isReady == room.players[id].isReady &&
      r.players[id].wins == room.players[id].wins
    ensures r.order == room.order && r.adminId == room.adminId && r.status == Waiting
  {
    room.(players := ClearAll(room.players, false), status := Waiting)
  }

  /** The first player in roster order whose connection is `conn` (the `find` of
      kick_player and the inner `for..in` of the close handler). */
  function FirstWithConn(order: seq<PlayerId>, players: map<PlayerId, Player>, conn: ConnId): (r: Option<PlayerId>)
    requires forall id :: id in order ==> id in players
    ensures r.None? ==> forall k :: 0 <= k < |order| ==> players[order[k]].conn != conn
    ensures r.Some? ==> exists k :: (0 <= k < |order| && order[k] == r.value &&
      players[r.value].conn == conn && forall j :: 0 <= j < k ==> players[order[j]].conn != conn)
  {
    if order == [] then None
    else if players[order[0]].conn == conn then Some(order[0])
    else
      var r := FirstWithConn(order[1..], players, conn);
      assert forall k :: 0 < k < |order| ==> order[k] == order[1..][k - 1];
      if r.Some? then
        var k :| 0 <= k < |order[1..]| && order[1..][k] == r.value &&
          forall j :: 0 <= j < k ==> players[order[1..][j]].conn != conn;
        assert order[k + 1] == r.value;
        r
      else r
  }

  /** The close handler before any round is resolved: admin passes to the first
      other player when the admin's connection leaves a room of two or more,
      then the leaving player is deleted. */
  function Departed(room: Room, pid: PlayerId, conn: ConnId): (r: Room)
    requires room.Valid() && pid in room.players
    ensures forall id :: id in r.players <==> id in room.players && id != pid
    ensures forall id :: id in r.players ==> r.players[id] == room.players[id]
    ensures forall id :: id in r.order <==> id in r.players
    ensures |r.order| == |room.order| - 1
    ensures room.adminId == conn && |r.order| > 0 ==> r.adminId == room.players[r.order[0]].conn
    ensures room.adminId != conn || |r.order| == 0 ==> r.adminId == room.adminId
    ensures r.status == room.status
  {
    var others := Remove(room.order, pid);
    var admin :=
      if room.adminId == conn && |room.order| > 1 && |others| > 0
      then room.players[others[0]].conn
      else room.adminId;
    Room(admin, others, room.players - {pid}, room.status)
  }

  // ---------------------------------------------------------------------------
  // Round resolution

  /** Every current player has submitted a number. */
  predicate AllSubmitted(room: Room)
  {
    forall id :: id in room.players ==> room.players[id].number.Some?
  }

  /** The submitted numbers in roster order. */
  function Submissions(room: Room): (xs: seq<int>)
    requires room.Valid() && AllSubmitted(room)
    ensures |xs| == |room.order|
    ensures forall k :: 0 <= k < |xs| ==> Some(xs[k]) == room.players[room.order[k]].number
  {
    seq(|room.order|, k requires 0 <= k < |room.order| => room.players[room.order[k]].number.value)
  }

  /** What calculateResult returns for a room whose players have all submitted. */
  datatype Round = Round(numbers: seq<int>, sum: int, minDiff: nat, winnerIndices: seq<nat>,
                         eliminatedIndex: nat, winnerPlayerIds: seq<PlayerId>,
                         eliminatedPlayerId: PlayerId)

  function RoundOf(room: Room): (r: Round)
    requires room.Valid() && |room.order| > 0 && AllSubmitted(room)
    ensures r.numbers == Submissions(room)
    ensures r.sum == Resolver.Sum(r.numbers)
    ensures r.winnerIndices == Resolver.Resolve(r.numbers).winners
    ensures r.eliminatedIndex == Resolver.Resolve(r.numbers).eliminated
    ensures r.eliminatedIndex < |room.order| && r.eliminatedPlayerId == room.order[r.eliminatedIndex]
    ensures |r.winnerPlayerIds| == |r.winnerIndices|
    ensures forall t :: 0 <= t < |r.winnerIndices| ==>
      r.winnerIndices[t] < |room.order| && r.winnerPlayerIds[t] == room.order[r.winnerIndices[t]]
    ensures forall id :: id in r.winnerPlayerIds ==> id in room.players
    ensures NoDups(r.winnerPlayerIds)
  {
    var xs := Submissions(room);
    var o := Resolver.Resolve(xs);
    Resolver.WinnersInRange(xs);
    var ids := seq(|o.winners|, t requires 0 <= t < |o.winners| => room.order[o.winners[t]]);
    PickedIdsDistinct(room.order, o.winners, ids);
    Round(xs, o.sum, o.minDiff, o.winners, o.eliminated, ids, room.order[o.eliminated])
  }

  /** Ids picked from a duplicate-free roster at ascending positions are distinct. */
  lemma PickedIdsDistinct(order: seq<PlayerId>, at: seq<nat>, ids: seq<PlayerId>)
    requires NoDups(order) && Increasing(at) && |ids| == |at|
    requires forall t :: 0 <= t < |at| ==> at[t] < |order| && ids[t] == order[at[t]]
    ensures NoDups(ids)
  {
    forall a, b | 0 <= a < b < |ids| ensures ids[a] != ids[b] {
      assert at[a] < at[b];
    }
  }

  /** calculateResult: nothing for a missing or empty room or while a number is
      missing; otherwise the round over the numbers in roster order. */
  function CalculateResult(rooms: map<Code, Room>, code: Code): (r: Option<Round>)
    requires code in rooms ==> rooms[code].Valid()
    ensures r.None? <==>
      code !in rooms || |rooms[code].order| == 0 || !AllSubmitted(rooms[code])
    ensures r.Some? ==> (|r.value.numbers| == |rooms[code].order| &&
      forall k :: 0 <= k < |rooms[code].order| ==>
        rooms[code].players[rooms[code].order[k]].number == Some(r.value.numbers[k]))
    ensures r.Some? ==> (r.value.eliminatedIndex < |rooms[code].order| &&
      r.value.eliminatedPlayerId == rooms[code].order[r.value.eliminatedIndex])
    ensures r.Some? ==> (|r.value.winnerPlayerIds| == |r.value.winnerIndices| &&
      forall t :: 0 <= t < |r.value.winnerIndices| ==>
        r.value.winnerIndices[t] < |rooms[code].order| &&
        r.value.winnerPlayerIds[t] == rooms[code].order[r.value.winnerIndices[t]])
  {
    if code !in rooms || |rooms[code].order| == 0 then None
    else if !AllSubmitted(rooms[code]) then None
    else Some(RoundOf(rooms[code]))
  }

  /** `players[id].wins += 1` for every winner id. */
  function CreditWinners(players: map<PlayerId, Player>, ids: seq<PlayerId>): (ps: map<PlayerId, Player>)
    ensures forall id :: id in ps <==> id in players
    ensures forall id :: id in ps ==>
      ps[id].wins == players[id].wins + (if id in ids then 1 else 0) &&
      ps[id] == players[id].(wins := ps[id].wins)
  {
    map id | id in players :: if id in ids then players[id].(wins := players[id].wins + 1) else players[id]
  }

  /** Removing the eliminated player; if it held the admin's connection and
      others remain, the first remaining player becomes admin. */
  function Eliminate(room: Room, pid: PlayerId): (r: Room)
    requires room.Valid() && pid in room.players
    ensures forall id :: id in r.players <==> id in room.players && id != pid
    ensures forall id :: id in r.players ==> r.players[id] == room.players[id]
    ensures forall id :: id in r.order <==> id in r.players
    ensures |r.order| == |room.order| - 1
    ensures room.adminId == room.players[pid].conn && |r.order| > 0 ==>
      r.adminId == room.players[r.order[0]].conn
    ensures room.adminId != room.players[pid].conn || |r.order| == 0 ==> r.adminId == room.adminId
    ensures r.status == room.status
  {
    var wasAdmin := room.adminId == room.players[pid].conn;
    var order := Remove(room.order, pid);
    var players := room.players - {pid};
    assert forall id :: id in order ==> id in players;
    Room(if wasAdmin && |order| > 0 then players[order[0]].conn else room.adminId,
         order, players, room.status)
  }

  /** A complete round applied to the room: winners credited, the farthest
      player removed (the source tests its id for truthiness first), every
      remaining number cleared and the room back to waiting. */
  function Resolved(room: Room): (r: Room)
    requires room.Valid() && |room.order| > 0 && AllSubmitted(room)
    ensures forall id :: id in r.players <==> id in room.players && id != RoundOf(room).eliminatedPlayerId
    ensures |r.order| == |room.order| - 1
    ensures forall id :: id in r.players ==> r.players[id].number == None
    ensures r.status == Waiting
  {
    var res := RoundOf(room);
    var credited := room.(players := CreditWinners(room.players, res.winnerPlayerIds));
    var elim := res.eliminatedPlayerId;
    var afterElim := if elim != "" && elim in credited.players then Eliminate(credited, elim) else credited;
    afterElim.(players := ClearAll(afterElim.players, false), status := Waiting)
  }

  /** The messages of a resolution: the result to every player, then the
      elimination notice to the eliminated player's connection. */
  function ResultMessages(room: Room): (out: seq<Outbound>)
    requires room.Valid() && |room.order| > 0 && AllSubmitted(room)
    ensures |out| == |room.order| + 1
    ensures forall k :: 0 <= k < |room.order| ==> out[k] == Send(room.players[room.order[k]].conn, RoundResult)
    ensures out[|room.order|] == Send(room.players[RoundOf(room).eliminatedPlayerId].conn, Eliminated)
  {
    var elim := RoundOf(room).eliminatedPlayerId;
    ToEveryone(room, RoundResult) +
      (if elim != "" && elim in room.players then [Send(room.players[elim].conn, Eliminated)] else [])
  }
}

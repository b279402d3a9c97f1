/** What each handler's effect on a room guarantees: the roster stays
    consistent, the right players change and no other, admin succession, and
    the round reset. */
module RoomLaws {
  import opened Seqs
  import opened Rooms
  import Resolver

  /** join_room with a fresh id appends exactly one player, with no number, no
      wins and not ready, and changes no other player. */
  lemma JoinAppendsOne(room: Room, pid: PlayerId, name: string, conn: ConnId)
    requires room.Valid() && pid !in room.players && pid != ""
    ensures var r := AddPlayer(room, pid, NewPlayer(name, conn));
      && r.Valid()
      && r.order == room.order + [pid]
      && r.players[pid] == Player(name, conn, None, 0, false)
      && (forall id :: id in r.players <==> id in room.players || id == pid)
      && (forall id :: id in room.players ==> r.players[id] == room.players[id])
      && r.adminId == room.adminId && r.status == room.status
      && (NumbersInRange(room) ==> NumbersInRange(r))
      && (AdminPresent(room) && |room.order| > 0 ==> AdminPresent(r))
  {
    var r := AddPlayer(room, pid, NewPlayer(name, conn));
    assert pid !in room.order;
    assert NoDups(r.order) by {
      forall i, j | 0 <= i < j < |r.order| ensures r.order[i] != r.order[j] {
        if j == |room.order| { assert r.order[i] in room.order; }
      }
    }
    if AdminPresent(room) && |room.order| > 0 {
      var a :| a in room.players && room.players[a].conn == room.adminId;
      assert r.players[a].conn == r.adminId;
    }
  }

  /** A join into a room whose last player was eliminated leaves that room with
      players but without its admin: nobody in it can start a round. */
  lemma JoinOrphanRoomLosesAdmin(admin: ConnId, status: Status, pid: PlayerId, name: string, conn: ConnId)
    requires conn != admin && pid != ""
    ensures var r := AddPlayer(Room(admin, [], map[], status), pid, NewPlayer(name, conn));
      |r.order| == 1 && !AdminPresent(r)
  {
    var r := AddPlayer(Room(admin, [], map[], status), pid, NewPlayer(name, conn));
    assert r.players == map[pid := NewPlayer(name, conn)];
  }

  /** start_round clears every number and ready flag, keeps names, connections
      and wins, and opens the round; doing it twice is doing it once. */
  lemma StartedEffect(room: Room)
    requires room.Valid()
    ensures var r := Started(room);
      && r.Valid() && r.order == room.order && r.adminId == room.adminId && r.status == Playing
      && (forall id :: id in r.players <==> id in room.players)
      && (forall id :: id in r.players ==>
            && r.players[id].number == None && !r.players[id].isReady
            && r.players[id].wins == room.players[id].wins
            && r.players[id].name == room.players[id].name
            && r.players[id].conn == room.players[id].conn)
      && (AdminPresent(room) ==> AdminPresent(r))
      && Started(r) == r
  {
    var r := Started(room);
    if AdminPresent(room) && |room.order| > 0 {
      var a :| a in room.players && room.players[a].conn == room.adminId;
      assert r.players[a].conn == r.adminId;
    }
    assert Started(r).players == r.players;
  }

  /** play_again clears every number, keeps wins and ready flags, and returns the
      room to waiting; doing it twice is doing it once. */
  lemma RestartedEffect(room: Room)
    requires room.Valid()
    ensures var r := Restarted(room);
      && r.Valid() && r.order == room.order && r.adminId == room.adminId && r.status == Waiting
      && (forall id :: id in r.players <==> id in room.players)
      && (forall id :: id in r.players ==>
            && r.players[id].number == None
            && r.players[id].isReady == room.players[id].isReady
            && r.players[id].wins == room.players[id].wins
            && r.players[id].name == room.players[id].name
            && r.players[id].conn == room.players[id].conn)
      && (AdminPresent(room) ==> AdminPresent(r))
      && Restarted(r) == r
  {
    var r := Restarted(room);
    if AdminPresent(room) && |room.order| > 0 {
      var a :| a in room.players && room.players[a].conn == room.adminId;
      assert r.players[a].conn == r.adminId;
    }
    assert Restarted(r).players == r.players;
  }

  /** An accepted submission sets only the submitting player's number and keeps
      every number in [0, 100]. */
  lemma WithNumberEffect(room: Room, pid: PlayerId, n: int)
    requires room.Valid() && pid in room.players && 0 <= n <= 100
    ensures var r := WithNumber(room, pid, n);
      && r.Valid() && r.order == room.order && r.adminId == room.adminId && r.status == room.status
      && r.players[pid].number == Some(n)
      && (forall id :: id in r.players <==> id in room.players)
      && (forall id :: id in room.players && id != pid ==> r.players[id] == room.players[id])
      && (NumbersInRange(room) ==> NumbersInRange(r))
      && (AdminPresent(room) ==> AdminPresent(r))
  {
    var r := WithNumber(room, pid, n);
    if AdminPresent(room) && |room.order| > 0 {
      var a :| a in room.players && room.players[a].conn == room.adminId;
      assert r.players[a].conn == r.adminId;
    }
  }

  /** After a round: the eliminated player is gone and no one else, each
      remaining final winner has exactly one more win and everyone else the
      same, every number is cleared, the room waits, and if the eliminated
      player held admin the first remaining player takes it. */
  lemma ResolvedEffect(room: Room)
    requires room.Valid() && |room.order| > 0 && AllSubmitted(room)
    ensures var res := RoundOf(room);
      var e := res.eliminatedPlayerId;
      var r := Resolved(room);
      && r.Valid()
      && r.order == Remove(room.order, e)
      && |r.order| == |room.order| - 1
      && (forall id :: id in r.players <==> id in room.players && id != e)
      && (forall id :: id in r.players ==>
            && r.players[id].wins == room.players[id].wins + (if id in res.winnerPlayerIds then 1 else 0)
            && r.players[id].number == None
            && r.players[id].name == room.players[id].name
            && r.players[id].conn == room.players[id].conn
            && r.players[id].isReady == room.players[id].isReady)
      && r.status == Waiting
      && (room.adminId == room.players[e].conn && |r.order| > 0 ==>
            r.adminId == room.players[r.order[0]].conn)
      && (room.adminId != room.players[e].conn || |r.order| == 0 ==> r.adminId == room.adminId)
  {
    var res := RoundOf(room);
    var e := res.eliminatedPlayerId;
    assert e in room.players;
    var credited := room.(players := CreditWinners(room.players, res.winnerPlayerIds));
    assert credited.Valid();
    EliminateEffect(credited, e);
    var after := Eliminate(credited, e);
    assert Resolved(room) == after.(players := ClearAll(after.players, false), status := Waiting);
  }

  /** Eliminating a player removes it and no one else; admin passes to the
      first remaining player only when the eliminated player held it. */
  lemma EliminateEffect(room: Room, pid: PlayerId)
    requires room.Valid() && pid in room.players
    ensures var r := Eliminate(room, pid);
      && r.Valid()
      && r.order == Remove(room.order, pid)
      && |r.order| == |room.order| - 1
      && r.players == room.players - {pid}
      && r.status == room.status
      && (room.adminId == room.players[pid].conn && |r.order| > 0 ==>
            r.adminId == room.players[r.order[0]].conn)
      && (room.adminId != room.players[pid].conn || |r.order| == 0 ==> r.adminId == room.adminId)
  {
  }

  /** A round never leaves a room with players but without its admin. */
  lemma ResolvedKeepsAdmin(room: Room)
    requires room.Valid() && |room.order| > 0 && AllSubmitted(room) && AdminPresent(room)
    ensures AdminPresent(Resolved(room))
  {
    ResolvedEffect(room);
    var r := Resolved(room);
    var e := RoundOf(room).eliminatedPlayerId;
    if |r.order| > 0 {
      if room.adminId == room.players[e].conn {
        assert r.order[0] in r.players;
      } else {
        var a :| a in room.players && room.players[a].conn == room.adminId;
        assert a != e;
        assert a in r.players && r.players[a].conn == r.adminId;
      }
    }
  }

  /** A round in a room of one player: that player is eliminated, nobody wins,
      and the room is left empty (it stays registered). */
  lemma SoloRoundEmptiesRoom(room: Room)
    requires room.Valid() && |room.order| == 1 && AllSubmitted(room)
    ensures RoundOf(room).winnerPlayerIds == []
    ensures RoundOf(room).eliminatedPlayerId == room.order[0]
    ensures |Resolved(room).order| == 0
  {
    var xs := Submissions(room);
    assert xs == [xs[0]];
    Resolver.SoloRoundHasNoWinner(xs[0]);
    ResolvedEffect(room);
  }

  /** The close handler's removal: the leaving player goes and no one else; if
      it held admin in a room of two or more, the first other player in roster
      order takes it; the admin is never lost while players remain. */
  lemma DepartedEffect(room: Room, pid: PlayerId, conn: ConnId)
    requires room.Valid() && pid in room.players && room.players[pid].conn == conn
    ensures var r := Departed(room, pid, conn);
      && r.Valid()
      && r.order == Remove(room.order, pid)
      && |r.order| == |room.order| - 1
      && (forall id :: id in r.players <==> id in room.players && id != pid)
      && (forall id :: id in r.players ==> r.players[id] == room.players[id])
      && r.status == room.status
      && (room.adminId == conn && |r.order| > 0 ==> r.adminId == room.players[r.order[0]].conn)
      && (room.adminId == conn && |r.order| > 0 ==>
            exists k :: 0 <= k < |room.order| && room.order[k] != pid &&
              r.adminId == room.players[room.order[k]].conn && forall j :: 0 <= j < k ==> room.order[j] == pid)
      && (room.adminId != conn ==> r.adminId == room.adminId)
      && (AdminPresent(room) ==> AdminPresent(r))
      && (NumbersInRange(room) ==> NumbersInRange(r))
  {
    var r := Departed(room, pid, conn);
    if |r.order| > 0 {
      assert r.order[0] in room.order && r.order[0] != pid;
      RemoveHead(room.order, pid);
    }
    if AdminPresent(room) && |r.order| > 0 {
      if room.adminId == conn {
        assert r.order[0] in r.players;
      } else {
        var a :| a in room.players && room.players[a].conn == room.adminId;
        assert a in r.players && r.players[a].conn == r.adminId;
      }
    }
  }

  /** Deleting a player keeps the roster consistent and every number in range. */
  lemma KickKeepsValid(room: Room, pid: PlayerId)
    requires room.Valid()
    ensures WithoutPlayer(room, pid).Valid()
    ensures NumbersInRange(room) ==> NumbersInRange(WithoutPlayer(room, pid))
  {
  }

  /** kick_player of anyone but the admin's own first player: exactly the target
      leaves, the admin stays, and so the room is never emptied by a kick while
      its admin is present. */
  lemma KickKeepsAdmin(room: Room, pid: PlayerId)
    requires room.Valid() && AdminPresent(room) && pid in room.players
    requires FirstWithConn(room.order, room.players, room.adminId) != Some(pid)
    ensures var r := WithoutPlayer(room, pid);
      && r.Valid()
      && |r.order| == |room.order| - 1 > 0
      && (forall id :: id in r.players <==> id in room.players && id != pid)
      && (forall id :: id in r.players ==> r.players[id] == room.players[id])
      && r.adminId == room.adminId && r.status == room.status
      && AdminPresent(r)
  {
    var r := WithoutPlayer(room, pid);
    var f := FirstWithConn(room.order, room.players, room.adminId);
    var a :| a in room.players && room.players[a].conn == room.adminId;
    assert a in room.order;
    assert f.value in r.players;
  }

  /** A round keeps a room's roster consistent, leaves no number behind and
      never leaves players without their admin. */
  lemma ResolvedKeepsInvariants(room: Room)
    requires room.Valid() && |room.order| > 0 && AllSubmitted(room)
    ensures Resolved(room).Valid() && NumbersInRange(Resolved(room))
    ensures AdminPresent(room) ==> AdminPresent(Resolved(room))
  {
    ResolvedEffect(room);
    if AdminPresent(room) {
      ResolvedKeepsAdmin(room);
    }
  }

  /** The invariants an accepted submission keeps. */
  lemma WithNumberKeepsInvariants(room: Room, pid: PlayerId, n: int)
    requires room.Valid() && pid in room.players && 0 <= n <= 100
    ensures WithNumber(room, pid, n).Valid()
    ensures NumbersInRange(room) ==> NumbersInRange(WithNumber(room, pid, n))
    ensures AdminPresent(room) ==> AdminPresent(WithNumber(room, pid, n))
  {
    WithNumberEffect(room, pid, n);
  }

  /** The invariants the close handler's removal keeps. */
  lemma DepartedKeepsInvariants(room: Room, pid: PlayerId, conn: ConnId)
    requires room.Valid() && pid in room.players && room.players[pid].conn == conn
    ensures Departed(room, pid, conn).Valid()
    ensures NumbersInRange(room) ==> NumbersInRange(Departed(room, pid, conn))
    ensures AdminPresent(room) ==> AdminPresent(Departed(room, pid, conn))
  {
    DepartedEffect(room, pid, conn);
  }

  /** A round can only add wins: no player that stays loses any. */
  lemma ResolvedWinsMonotone(room: Room, id: PlayerId)
    requires room.Valid() && |room.order| > 0 && AllSubmitted(room)
    requires id in Resolved(room).players
    ensures id in room.players && room.players[id].wins <= Resolved(room).players[id].wins
  {
    ResolvedEffect(room);
  }
}

# Guess-0.8-of-the-average game server, in Dafny

`server.js` runs a multiplayer number game over WebSockets. Players meet in
rooms identified by a short code. The creator of a room is its admin. In each
round every player submits a whole number in [0, 100]. The target is 0.8
times the average of the submissions. Every player closest to the target,
except the eliminated one, wins the round and gains a win. The first player
farthest from the target is eliminated: that player is removed from the room, and the admin role passes
on if it held it.

This project models the server's core:

- the round resolver `calculateResult`;
- the room broadcast `broadcastToRoom`;
- the message handlers `create_room`, `join_room`, `start_round`,
  `number_chosen`, `play_again` and `kick_player`;
- the connection-close handler.

It proves what these keep and compute.

## Layout

- `seqs.dfy` (module `Seqs`): `Option`, duplicate-freedom, ascending
  sequences, and `Remove`, which models `filter(y => y !== x)`.
- `resolver.dfy` (module `Resolver`): the arithmetic of a round.
  - Distances to the real target `(sum / n) * 0.8` are compared exactly. Every
    distance is scaled by `5 * n`, which turns it into the integer
    `|5 * n * x - 4 * sum|`.
  - `DistOrderMatchesTarget` proves that this scaling decides every `<` and
    `==` the way the real distances do.
  - Specification functions `MinDistUpTo`, `IndicesAt` and `FirstMaxUpTo`
    describe each loop after `k` steps.
  - `Resolve` is the whole round.
  - `ResolveRound` is the two loops and the final filter, proved equal to
    `Resolve`.
- `rooms.dfy` (module `Rooms`): the records and the transitions of one room.
  - Records: `Player`, `Room`, and `Round`, which is `calculateResult`'s
    return value with `average` and `target` omitted and `minDiff` scaled
    by `5 * n`.
  - Each handler's effect on one room is a function: `AddPlayer`, `Started`,
    `Restarted`, `WithNumber`, `WithoutPlayer`, `Departed`, `Resolved`.
  - `Broadcast` is the list of messages `broadcastToRoom` sends.
  - A room's player order is the insertion order that `Object.keys` and
    `for..in` follow. It is kept as the sequence `order` next to the map
    `players`.
- `room_laws.dfy` (module `RoomLaws`): lemmas on those transitions.
  - Who is added or removed, and that no other player changes.
  - Admin succession.
  - The round reset.
  - The invariants each transition keeps.
- `server.dfy` (module `Server`): the handlers as imperative code over the
  global `rooms` object.
  - Class `Registry` holds `rooms` as a map and `codes`, the keys in insertion
    order (the order `for..in` visits rooms).
  - Every handler is a method that updates the registry in place and returns
    the messages it sends, each as a recipient connection and a message type.
  - The loops the handlers run over a room or the registry are methods
    proved against the functions that specify them: the code retry loop
    (`PickCode`), the player searches (`FindPlayer`, `Locate` inside
    `Close`), the name and submission tests, the number and ready resets,
    the win credit, the collection of numbers and the result sends. The
    two loops of `calculateResult` are `Resolver.ResolveRound`.
  - Other iterations of the source are functions, with no loop method:
    the `reduce` that sums the numbers (`Resolver.Sum`), the `filter`s that
    drop an index or a player id (`Seqs.Remove`), and the `forEach` of
    `broadcastToRoom` (`Rooms.RecipientsOf`).
  - Every handler keeps `Consistent()`: the key list matches the map, every
    room is well formed, every number lies in [0, 100], and a room with
    players has its admin's connection among them. `join_room` is the
    exception, described under Left out.

## Model

| member | source | states |
|---|---|---|
| Seqs.Remove | server.js:93 | `filter(i => i !== e)` keeps exactly the elements other than `e`, never lengthens, keeps duplicate-freedom, and shortens by one when `e` occurs once |
| Seqs.RemoveAppend | server.js:93 | the filter keeps the remaining elements in their original order: filtering a concatenation is filtering each part and concatenating |
| Seqs.RemoveHead | server.js:446-448 | the first element left by the filter is the first element of the list that differs from the removed one |
| Resolver.DistIsScaledDistance | server.js:61-63 | the integer distance `abs(5·n·x - 4·sum)` equals `5·n` times the real distance `abs(x - (sum / n)·0.8)` to the target |
| Resolver.DistOrderMatchesTarget | server.js:66-90 | comparing integer distances with `<` and with `==` agrees with comparing the real distances to the target, both ways, so the model takes every branch the loops take |
| Resolver.MinDistUpToIsMinimum | server.js:66-78 | after `k` submissions `minDiff` is the distance of one of them and no earlier submission is closer |
| Resolver.IndicesAtSound | server.js:67-78 | every index in `winnerIndices` after `k` steps lies below `k` and is at distance `minDiff` |
| Resolver.IndicesAtComplete | server.js:67-78 | every index below `k` at distance `minDiff` is in `winnerIndices` |
| Resolver.IndicesAtIncreasing | server.js:67-78 | `winnerIndices` is in ascending order |
| Resolver.IndicesAtNone | server.js:72-74 | when a strictly smaller distance appears, no earlier index has it, so resetting `winnerIndices` to `[i]` drops nobody at the new minimum |
| Resolver.FirstMaxUpToIsFirstMaximum | server.js:81-90 | `eliminatedIndex` is at the largest distance and every earlier index is strictly closer: among equally far players the earliest is eliminated |
| Resolver.ClosestCorrect | server.js:66-78 | the closest indices are exactly those at the minimum distance; everyone else is strictly farther; the list is ascending and never empty |
| Resolver.EliminatedCorrect | server.js:81-90 | the eliminated index is a position of the submissions, no one is farther, and no earlier player is as far |
| Resolver.WinnersCorrect | server.js:93 | the final winners are the closest players except the eliminated one, in ascending order |
| Resolver.WinnersInRange | server.js:93-103 | every final winner index and the eliminated index are positions of the submissions |
| Resolver.IncreasingRemove | server.js:93 | the filter keeps an ascending index list ascending |
| Resolver.ClosestAreMinimal | server.js:66-78 | a player is among the closest exactly when no player is closer |
| Resolver.SoloRoundHasNoWinner | server.js:50-106 | with one submission, index 0 is both closest and eliminated, so there are no final winners |
| Resolver.ThreePlayerScenario | server.js:61-93 | submissions 10, 50, 90 give target 40: index 1 wins and index 2 is eliminated |
| Resolver.Resolve | server.js:61-93 | a round's sum is the sum of the submissions, the eliminated index is a position of the submissions, and the final winners are exactly the closest indices other than the eliminated one |
| Resolver.ResolveRound | server.js:61-93 | the sum, the `minDiff`/`winnerIndices` loop, the `maxDiff`/`eliminatedIndex` loop and the final filter compute `Resolve` |
| Rooms.RecipientsOf | server.js:41-46 | a connection is written to exactly when it belongs to a player of the room, is open, and is not the excluded one |
| Rooms.RecipientsOfAppend | server.js:41-46 | recipients follow roster order: the recipients of a roster split in two are those of the first part followed by those of the second |
| Rooms.Broadcast | server.js:38-47 | nothing for a missing room; otherwise one message per recipient of `RecipientsOf`, in roster order; every message carries the given type and goes to an open, non-excluded connection of a player of the room; every open, non-excluded player connection receives it |
| Rooms.ToEveryone | server.js:275-283 | the result loop sends one message per player, in roster order, whatever the connection state |
| Rooms.PlayerIdFor | server.js:132 | a generated player id is never empty, so the elimination guard's truthiness test on it always holds |
| Rooms.AddPlayer | server.js:179-185 | `players[pid] = p`: the player under `pid` is `p`, no other player changes, the keys gain `pid` at most; a new key is appended to the roster and an existing one keeps its place; admin and status unchanged |
| Rooms.WithoutPlayer | server.js:392 | `delete players[pid]`: that key leaves the players and the roster, every other player is unchanged, admin and status unchanged |
| Rooms.WithNumber | server.js:256 | only the submitting player's number changes, to the submitted one; roster, admin and status unchanged |
| Rooms.Started | server.js:224-230 | every number and ready flag is cleared, wins kept, the same players, the status becomes playing |
| Rooms.Restarted | server.js:347-352 | every number is cleared, ready flags and wins kept, the same players, the status becomes waiting |
| Rooms.Departed | server.js:442-454 | the leaving player and no other is removed, one roster entry fewer; if the leaving connection held admin and players remain, the first remaining player in roster order takes it, otherwise the admin is unchanged |
| Rooms.CreditWinners | server.js:267-269 | each player listed among the winners gains exactly one win; nothing else about any player changes |
| Rooms.Eliminate | server.js:287-310 | the eliminated player and no other is removed; if it held admin and players remain, the first remaining player takes it, otherwise the admin is unchanged |
| Rooms.Resolved | server.js:265-317 | after a round the eliminated player is gone and no other, one roster entry fewer, every number cleared, the room waiting |
| Rooms.ResultMessages | server.js:275-297 | one `round_result` per player in roster order, then `eliminated` to the eliminated player's connection |
| Rooms.NewRoom | server.js:125-139 | a new room has its creator as the only player, with no number, no wins and not ready; the creator's connection is admin; the room waits and is consistent |
| Rooms.FirstWithConn | server.js:378-379 | `find` returns nothing exactly when no player is on the connection, otherwise the first such player in roster order |
| Rooms.Submissions | server.js:53-59 | the submitted numbers in roster order, one per player |
| Rooms.PickedIdsDistinct | server.js:102 | the winner ids `finalWinnerIndices.map(i => playerIds[i])` are distinct |
| Rooms.RoundOf | server.js:61-104 | a complete round's numbers are the submissions, its sum their sum, its indices those of `Resolve`; `eliminatedPlayerId` and each winner id are the roster ids at those indices; winner ids are distinct players of the room |
| Rooms.CalculateResult | server.js:50-106 | null exactly for a missing room, an empty room or a missing number; otherwise numbers in roster order and ids matching their indices |
| RoomLaws.JoinAppendsOne | server.js:176-184 | a join with a fresh id appends exactly that player, with no number, no wins and not ready; no other player, the admin and the status are unchanged; numbers stay in range and the admin stays present |
| RoomLaws.JoinOrphanRoomLosesAdmin | server.js:176-184 | a join into a room emptied by a solo round gives a room with one player and no admin present |
| RoomLaws.StartedEffect | server.js:224-230 | start_round clears every number and ready flag, keeps names, connections and wins, opens the round, keeps the admin present, and is idempotent |
| RoomLaws.RestartedEffect | server.js:347-352 | play_again clears every number, keeps ready flags and wins, returns to waiting, keeps the admin present, and is idempotent |
| RoomLaws.WithNumberEffect | server.js:256 | an accepted submission sets only that player's number and keeps numbers in range and the admin present |
| RoomLaws.ResolvedEffect | server.js:265-317 | after a round, exactly the eliminated player is gone; each remaining final winner has one more win and everyone else the same; numbers are cleared; the room waits; admin passes to the first remaining player only if the eliminated player held it |
| RoomLaws.EliminateEffect | server.js:287-310 | elimination removes that player and no other, and hands admin to the first remaining player exactly when the eliminated player held it |
| RoomLaws.ResolvedKeepsAdmin | server.js:286-310 | a round never leaves players without their admin |
| RoomLaws.SoloRoundEmptiesRoom | server.js:265-317 | a round in a one-player room eliminates that player, credits nobody and leaves the room empty but registered |
| RoomLaws.DepartedEffect | server.js:442-454 | on close, exactly the leaving player is removed; if it held admin in a room of two or more, the first other player in roster order takes it; the admin stays present and numbers stay in range |
| RoomLaws.KickKeepsValid | server.js:392 | deleting a player keeps the roster consistent and numbers in range |
| RoomLaws.KickKeepsAdmin | server.js:377-392 | in a room whose admin is present, a kick that passes the self-kick test removes exactly its target, keeps the admin present, and never empties the room |
| RoomLaws.ResolvedKeepsInvariants | server.js:265-317 | a round keeps the room consistent, numbers in range, and the admin present |
| RoomLaws.WithNumberKeepsInvariants | server.js:247-256 | an accepted submission keeps the room consistent, numbers in range, and the admin present |
| RoomLaws.DepartedKeepsInvariants | server.js:442-454 | the close handler's removal keeps the room consistent, numbers in range, and the admin present |
| RoomLaws.ResolvedWinsMonotone | server.js:267-269 | no player who stays after a round loses a win |
| Server.PickCode | server.js:120-123 | the retry loop returns the first drawn code that is not in use |
| Server.FindPlayer | server.js:378-379 | the search loop returns the first player in roster order on the connection, or none |
| Server.HasName | server.js:168-169 | the duplicate-name test is true exactly when some player of the room has that name |
| Server.CheckAllSubmitted | server.js:260 | the `every` test is true exactly when every player has a number |
| Server.ClearRoster | server.js:225-228 | the reset loop clears every number, and ready flags when asked, and changes nothing else |
| Server.CreditLoop | server.js:267-269 | the credit loop adds one win to each winner id and changes no other player |
| Server.CollectNumbers | server.js:55-59 | the non-null numbers in roster order: as many as players exactly when all have submitted, and then they are the submissions |
| Server.CalculateResultOf | server.js:50-106 | the imperative `calculateResult` returns `CalculateResult` |
| Server.PlayRound | server.js:265-317 | the resolution block produces the resolved room and the result messages |
| Server.SendToAll | server.js:275-283 | the result loop's messages are one per player in roster order |
| Server.RemoveEliminated | server.js:287-310 | the elimination step computes `Eliminate` |
| Server.Leave | server.js:443-454 | the close handler's admin hand-over and deletion compute `Departed` |
| Server.Locate | server.js:429-440 | the search finds the first room in enumeration order with a player on the connection, and the first such player in it; none means no room has one |
| Server.Registry.constructor | server.js:30 | the registry starts empty and consistent |
| Server.Registry.ApplyRound | server.js:265-317 | the round is applied in place: the room becomes `Resolved`, the messages are `ResultMessages`, other rooms and the key list are unchanged, and consistency is kept |
| Server.Registry.Settle | server.js:259-330 | with every number in, the round is resolved; otherwise every open player is told with the given message type |
| Server.Registry.CreateRoom | server.js:118-151 | a code not in use from the draws, a new room appended to the key list, one `room_created` to the creator; consistency kept |
| Server.Registry.JoinRoom | server.js:153-208 | an error for a missing room and for a taken name with nothing changed; otherwise the player is added, the others are told excluding the joiner, and the joiner gets `room_joined` |
| Server.Registry.StartRound | server.js:210-239 | nothing for a missing room; an error to a non-admin with nothing changed; otherwise the room becomes `Started` and every open player is told; consistency kept |
| Server.Registry.NumberChosen | server.js:241-331 | nothing for a missing room; an error for a number outside [0, 100]; nothing for an unknown player id; otherwise the number is recorded and the room settled; consistency kept |
| Server.Registry.Accept | server.js:256-330 | the number is recorded, then the round is resolved if all have submitted, or everyone open is told |
| Server.Registry.PlayAgain | server.js:333-361 | nothing for a missing room; an error to a non-admin; otherwise the room becomes `Restarted` and every open player is told; consistency kept |
| Server.Registry.KickPlayer | server.js:363-417 | nothing for a missing room; an error to a non-admin; an error for the admin's own first player; nothing for an unknown id; otherwise the target is expelled; consistency kept |
| Server.Registry.Expel | server.js:388-414 | the target is deleted and told, the others are told excluding it, and a room left empty is deleted together with its key |
| Server.Registry.Depart | server.js:442-532 | the leaver is removed (`Departed`), then the round is resolved, or the others are told, or the now empty room is deleted |
| Server.Registry.Close | server.js:425-537 | for a connection that is no longer open, only the first room in enumeration order holding a player on the closed connection changes, as `Depart` says; with no such room nothing changes |
| Server.Registry.OnMessage | server.js:113-422 | each of the six handled types has exactly the effect on the registry and sends exactly the messages its handler states, error paths included; any other type, `choose_number` included, changes nothing and sends nothing; consistency is kept for every type, for `join_room` under the condition `JoinRoom` states |

## Left out

- JSON parsing and field coercion are not modelled. A frame arrives already
  parsed into `Frame`, with a whole-number `number`. Numeric strings,
  fractions, `NaN` and missing fields are out of the model.
- Messages are reduced to a recipient connection and a type tag (`Tag`). The
  payloads are not modelled: player lists, result objects, the target and
  the text of `eliminated` and `kicked`.
- Floating point is not modelled. The source computes the target and the
  distances in doubles; the model compares them exactly (see
  `Resolver.DistOrderMatchesTarget`). For whole numbers in [0, 100] the two
  agree. Two different numbers are equally far from the target only when
  twice the target is a whole number. The average is then a multiple of 1/8,
  which a double holds exactly, and `average * 0.8` rounds back to the exact
  target. Unequal distances differ by at least `1 / (5 * n)`, which is far
  more than the rounding error for any realistic room size. No argument
  about doubles is carried out in Dafny. `Round` keeps the scaled `minDiff`
  and omits `average` and `target`.
- Connection state is a parameter. A connection's `readyState === OPEN` is
  the set `open`, taken once per message. Connections are numbers compared
  by identity.
- `ws.close()` on an eliminated or kicked player is not modelled. The close
  handler that it may trigger later is modelled on its own (`Close`).
- Randomness and time are parameters. `generateRoomCode`,
  `Math.random` and `Date.now` are the `draws` and `suffix` parameters, and
  the code retry loop requires one of the draws to be free.
- Server.PickCode: requires a free code among the supplied draws. The
  source loops until the random generator hits one.
- Object key order: JavaScript lists integer-like keys first. Room codes
  and player ids are taken to be ordinary strings, listed in insertion order.
  Keys inherited from `Object.prototype` are not modelled.
- The HTTP server, the health check, the self-ping timer, logging and the
  client (`script.js`) are not part of this model.
- Some branches of the source cannot be reached and have no counterpart:
  - `if (!rooms[roomId].players)` in `broadcastToRoom`;
  - `if (result)` failing after every number is in;
  - the room deletion when no player is left after crediting the winners
    (lines 318-321 and 515-518), since crediting removes no one.
- Behaviour kept as written:
  - `choose_number` is ignored by the switch;
  - a submission is accepted in any room status;
  - an unknown player id in `number_chosen` throws, the exception is
    swallowed, and nothing changes or is sent;
  - a player id that collides with an existing one overwrites that player
    in place;
  - a one-player round leaves an empty room registered.
- Server.Registry.JoinRoom: consistency is promised only when the room
  has players and the generated id is fresh. A join into a room emptied by
  a one-player round leaves a player without an admin
  (`RoomLaws.JoinOrphanRoomLosesAdmin`), and a colliding id may replace the
  admin's own record.
- Server.Registry.OnMessage: for `join_room`, consistency is promised only
  under the condition given for `JoinRoom`.

/**
 The socket side of the server: the room registry (room name to the set of
 connection ids in it), joining a poll room, and the participant counts
 broadcast when a connection joins or goes away. Delivery over the network
 and the transport's event loop are not modelled; a disconnect is handled as
 "leave every room, then count".
 */
module Rooms {

  import opened Wrappers
  import opened Text
  import opened Json
  import opened Broadcast

  type ConnId = string

  /** Room name to the connections in it. The transport drops a room when its last member leaves. */
  type Registry = map<string, set<ConnId>>

  ghost predicate NoEmptyRooms(rooms: Registry) {
    forall name :: name in rooms ==> rooms[name] != {}
  }

  function Members(rooms: Registry, name: string): set<ConnId> {
    if name in rooms then rooms[name] else {}
  }

  /** `rooms.get(name)?.size || 0`: the number of connections in a room, 0 when there is no such room. */
  function Size(rooms: Registry, name: string): (n: nat)
    ensures name !in rooms ==> n == 0
    ensures n == |Members(rooms, name)|
  {
    if name in rooms then |rooms[name]| else 0
  }

  /** `socket.join(name)`: membership is a set, so joining again changes nothing. */
  function AddMember(rooms: Registry, name: string, c: ConnId): (r: Registry)
    ensures forall n, x :: x in Members(r, n) <==> x in Members(rooms, n) || (n == name && x == c)
    ensures r.Keys == rooms.Keys + {name}
    ensures NoEmptyRooms(rooms) ==> NoEmptyRooms(r)
  {
    rooms[name := Members(rooms, name) + {c}]
  }

  predicate IsPollRoom(name: string) {
    StartsWith(name, RoomPrefix)
  }

  /** `broadcastParticipantCount(pollId)`: nothing for an empty id, otherwise
      the current size of the poll's room, sent to that room. */
  function ParticipantBroadcast(rooms: Registry, pollId: string): (r: Option<Emit>)
    ensures r.Some? <==> pollId != ""
    ensures r.Some? ==>
      && r.value.room == RoomOf(pollId)
      && r.value.event == ParticipantUpdate(|Members(rooms, RoomOf(pollId))|)
  {
    if pollId == "" then None
    else Some(Emit(RoomOf(pollId), ParticipantUpdate(Size(rooms, RoomOf(pollId)))))
  }

  datatype JoinResult = JoinResult(rooms: Registry, emit: Option<Emit>)

  /** `handleJoinPollEvent(arg)`: only a string starting with "poll-" is
      joined; the count then goes to that very room, and includes the joiner.
      Joining exactly "poll-" joins a room but broadcasts nothing. */
  function JoinPoll(rooms: Registry, c: ConnId, arg: Value): (r: JoinResult)
    ensures !(arg.Str? && IsPollRoom(arg.s)) ==> r.rooms == rooms && r.emit.None?
    ensures arg.Str? && IsPollRoom(arg.s) ==>
      && (forall n, x :: x in Members(r.rooms, n) <==> x in Members(rooms, n) || (n == arg.s && x == c))
      && (r.emit.Some? <==> arg.s != RoomPrefix)
      && (r.emit.Some? ==>
            && r.emit.value.room == arg.s
            && c in Members(r.rooms, arg.s)
            && r.emit.value.event == ParticipantUpdate(|Members(r.rooms, arg.s)|))
    ensures NoEmptyRooms(rooms) ==> NoEmptyRooms(r.rooms)
  {
    if arg.Str? && IsPollRoom(arg.s) then
      var after := AddMember(rooms, arg.s, c);
      var pollId := ReplaceFirst(arg.s, RoomPrefix, "");
      StripPrefixRoundTrip(arg.s, RoomPrefix);
      JoinResult(after, ParticipantBroadcast(after, pollId))
    else JoinResult(rooms, None)
  }

  /** Joining the same room twice leaves the registry, and the count it
      reports, as the first join left them. */
  lemma JoinTwice(rooms: Registry, c: ConnId, arg: Value)
    ensures var once := JoinPoll(rooms, c, arg);
      JoinPoll(once.rooms, c, arg) == once
  {
    var once := JoinPoll(rooms, c, arg);
    if arg.Str? && IsPollRoom(arg.s) {
      var twice := JoinPoll(once.rooms, c, arg);
      assert twice.rooms == once.rooms by {
        assert twice.rooms.Keys == once.rooms.Keys;
        forall n | n in once.rooms ensures twice.rooms[n] == once.rooms[n] {
          assert Members(twice.rooms, n) == Members(once.rooms, n);
        }
      }
    }
  }

  /** Removes `c` from every room; rooms left empty disappear. */
  function LeaveAll(rooms: Registry, c: ConnId): (r: Registry)
    ensures forall n, x :: x in Members(r, n) <==> x in Members(rooms, n) && x != c
    ensures NoEmptyRooms(r)
  {
    map n | n in rooms && rooms[n] - {c} != {} :: rooms[n] - {c}
  }

  /** `socket.rooms`: the rooms `c` is in. */
  function RoomsOf(rooms: Registry, c: ConnId): set<string> {
    set n | n in rooms && c in rooms[n]
  }

  /** The rooms whose count is re-broadcast when `c` disconnects: poll rooms
      other than its own-id room, with a non-empty poll id. */
  predicate Announced(name: string, c: ConnId) {
    name != c && IsPollRoom(name) && name != RoomPrefix
  }

  /** The count broadcast for a poll room, after its prefix is stripped and put back,
      is the room's own count, sent to that room; nothing is sent for the bare prefix. */
  lemma CountGoesToItsRoom(rooms: Registry, name: string)
    requires IsPollRoom(name)
    ensures var e := ParticipantBroadcast(rooms, ReplaceFirst(name, RoomPrefix, ""));
      && (e.Some? <==> name != RoomPrefix)
      && (e.Some? ==> e.value == Emit(name, ParticipantUpdate(Size(rooms, name))))
  {
    StripPrefixRoundTrip(name, RoomPrefix);
  }

  /** What the disconnect handler sends for one room of the departing
      connection `c`: the count of an announced room, to that room, and
      nothing for any other room. */
  function Announcement(rooms: Registry, c: ConnId, name: string): (r: Option<Emit>)
    ensures r.Some? <==> Announced(name, c)
    ensures r.Some? ==> r.value == Emit(name, ParticipantUpdate(Size(rooms, name)))
  {
    if name != c && IsPollRoom(name) then
      CountGoesToItsRoom(rooms, name);
      ParticipantBroadcast(rooms, ReplaceFirst(name, RoomPrefix, ""))
    else None
  }

  /** `handleDisconnectingEvent`: for every room the departing connection is
      in, a poll room other than its own-id room gets a count taken after the
      connection has left every room. */
  method Disconnect(rooms: Registry, c: ConnId) returns (after: Registry, emits: set<Emit>)
    ensures forall n, x :: x in Members(after, n) <==> x in Members(rooms, n) && x != c
    ensures NoEmptyRooms(after)
    ensures forall e :: e in emits ==>
      && c in Members(rooms, e.room) && Announced(e.room, c)
      && e.event == ParticipantUpdate(|Members(rooms, e.room)| - 1)
    ensures forall n :: c in Members(rooms, n) && Announced(n, c) ==>
      Emit(n, ParticipantUpdate(|Members(rooms, n)| - 1)) in emits
  {
    after := LeaveAll(rooms, c);
    emits := {};
    var todo := RoomsOf(rooms, c);
    ghost var done: set<string> := {};
    while todo != {}
      invariant todo + done == RoomsOf(rooms, c) && todo !! done
      invariant SentFor(rooms, c, done, emits)
      decreases todo
    {
      var name :| name in todo;
      var e := Announcement(after, c, name);
      SentForStep(rooms, c, done, emits, name);
      if e.Some? {
        emits := emits + {e.value};
      }
      todo := todo - {name};
      done := done + {name};
    }
    SentForAll(rooms, c, done, emits);
  }

  /** After the rooms in `done` have been handled, `emits` holds exactly one
      count per announced room among them: its size less the departing connection. */
  ghost predicate SentFor(rooms: Registry, c: ConnId, done: set<string>, emits: set<Emit>) {
    && (forall e :: e in emits ==>
          && e.room in done && c in Members(rooms, e.room) && Announced(e.room, c)
          && e.event == ParticipantUpdate(|Members(rooms, e.room)| - 1))
    && (forall n :: n in done && c in Members(rooms, n) && Announced(n, c) ==>
          Emit(n, ParticipantUpdate(|Members(rooms, n)| - 1)) in emits)
  }

  /** Handling one more room of the departing connection keeps `SentFor`. */
  lemma SentForStep(rooms: Registry, c: ConnId, done: set<string>, emits: set<Emit>, name: string)
    requires SentFor(rooms, c, done, emits) && name in RoomsOf(rooms, c)
    ensures var e := Announcement(LeaveAll(rooms, c), c, name);
      SentFor(rooms, c, done + {name}, if e.Some? then emits + {e.value} else emits)
  {
    LeaveAllSize(rooms, c, name);
  }

  /** Once every room of the connection is handled, `SentFor` is the disconnect's promise. */
  lemma SentForAll(rooms: Registry, c: ConnId, done: set<string>, emits: set<Emit>)
    requires done == RoomsOf(rooms, c) && SentFor(rooms, c, done, emits)
    ensures forall e :: e in emits ==>
      && c in Members(rooms, e.room) && Announced(e.room, c)
      && e.event == ParticipantUpdate(|Members(rooms, e.room)| - 1)
    ensures forall n :: c in Members(rooms, n) && Announced(n, c) ==>
      Emit(n, ParticipantUpdate(|Members(rooms, n)| - 1)) in emits
  {
    forall n | c in Members(rooms, n) ensures n in done {
    }
  }

  /** A room the departing connection was in loses exactly one member. */
  lemma LeaveAllSize(rooms: Registry, c: ConnId, n: string)
    requires c in Members(rooms, n)
    ensures Size(LeaveAll(rooms, c), n) == |Members(rooms, n)| - 1
  {
    assert Members(LeaveAll(rooms, c), n) == Members(rooms, n) - {c};
  }

  /** Two connections join poll room P and the first disconnects: one participant remains. */
  lemma PresenceAfterLeave(c1: ConnId, c2: ConnId)
    requires c1 != c2
    ensures var joined := JoinPoll(JoinPoll(map[], c1, Str("poll-P")).rooms, c2, Str("poll-P"));
      && joined.emit == Some(Emit("poll-P", ParticipantUpdate(2)))
      && Size(LeaveAll(joined.rooms, c1), "poll-P") == 1
  {
    var joined := JoinPoll(JoinPoll(map[], c1, Str("poll-P")).rooms, c2, Str("poll-P"));
    assert StartsWith("poll-P", RoomPrefix);
    assert Members(joined.rooms, "poll-P") == {c1, c2};
    assert Members(LeaveAll(joined.rooms, c1), "poll-P") == {c2};
  }
}

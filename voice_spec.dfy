/** The voice server's shared state and what each command handler does to it,
    as pure transitions. Each transition is one step taken under the server's
    lock; `Voice.VoiceServer` performs the same steps in place. */
module VoiceSpec {
  import opened Mailbox
  import opened Framing

  type Name = string
  /** room id -> names of the members */
  type Rooms = map<string, set<Name>>
  /** caller -> callee, one directed edge per caller */
  type Calls = map<Name, Name>

  /** The room a join or leave without a room id refers to. */
  const DefaultRoom: string := "public"

  /** A decoded voice-control command; a missing field is `None`. */
  datatype Command =
    | JoinRoom(roomId: Option<string>)
    | LeaveRoom(roomId: Option<string>)
    | StartPrivateCall(callee: Option<Name>)
    | AcceptCall(caller: Option<Name>)
    | RejectCall(caller: Option<Name>)
    | EndCall
    | AudioData(roomId: Option<string>, audio: Option<seq<Byte>>)
    | Unrecognised   // any other `type`: ignored

  /** What the server sends to voice clients. */
  datatype Envelope =
    | IncomingCall(caller: Name)
    | CallAccepted(callee: Name)
    | CallRejected(callee: Name)
    | CallEnded(user: Name)
    | AudioFrame(sender: Name, audio: seq<Byte>, roomId: Option<string>)

  datatype VoiceState = VoiceState(
    clients: map<Name, Handle>,   // name -> voice connection
    rooms: Rooms,
    calls: Calls,
    outbox: Outboxes<Envelope>)

  /** The result of one command: the new state, and whether the handler goes
      on reading (false when the handler raised and its connection ends). */
  datatype StepResult = StepResult(next: VoiceState, alive: bool)

  ghost predicate NoEmptyRoom(rooms: Rooms) {
    forall r :: r in rooms ==> rooms[r] != {}
  }

  /** Every state the server reaches: no two names share a connection and no
      room is stored without members. */
  ghost predicate Valid(s: VoiceState) {
    Injective(s.clients) && NoEmptyRoom(s.rooms)
  }

  const Initial: VoiceState := VoiceState(map[], map[], map[], map[])

  /** Python truthiness of an optional room id: present and non-empty. */
  predicate Truthy(roomId: Option<string>) {
    roomId.Some? && roomId.value != ""
  }

  // ---------------------------------------------------------------------
  // Transitions

  /** Handshake: the name is bound to the new connection, replacing any
      earlier binding of the same name. */
  function Register(s: VoiceState, user: Name, h: Handle): VoiceState {
    s.(clients := s.clients[user := h])
  }

  function Members(rooms: Rooms, room: string): set<Name> {
    if room in rooms then rooms[room] else {}
  }

  function JoinRooms(rooms: Rooms, room: string, user: Name): Rooms {
    rooms[room := Members(rooms, room) + {user}]
  }

  function LeaveRooms(rooms: Rooms, room: string, user: Name): Rooms {
    if room in rooms && user in rooms[room] then
      if rooms[room] - {user} == {} then rooms - {room}
      else rooms[room := rooms[room] - {user}]
    else rooms
  }

  function Join(s: VoiceState, user: Name, roomId: Option<string>): VoiceState {
    s.(rooms := JoinRooms(s.rooms, roomId.GetOr(DefaultRoom), user))
  }

  function Leave(s: VoiceState, user: Name, roomId: Option<string>): VoiceState {
    s.(rooms := LeaveRooms(s.rooms, roomId.GetOr(DefaultRoom), user))
  }

  /** `start_private_call`: only the callee's registration is checked. */
  function StartCall(s: VoiceState, user: Name, callee: Option<Name>): VoiceState {
    if callee.Some? && callee.value in s.clients then
      s.(calls := s.calls[user := callee.value],
         outbox := Deliver(s.outbox, s.clients[callee.value], IncomingCall(user)))
    else s
  }

  predicate Pending(s: VoiceState, caller: Option<Name>, callee: Name) {
    caller.Some? && caller.value in s.calls && s.calls[caller.value] == callee
  }

  /** `accept_call` by `user`: needs the edge caller -> user. */
  function Accept(s: VoiceState, user: Name, caller: Option<Name>): VoiceState {
    if Pending(s, caller, user) then
      var c := caller.value;
      s.(calls := s.calls[user := c],
         outbox := if c in s.clients then Deliver(s.outbox, s.clients[c], CallAccepted(user)) else s.outbox)
    else s
  }

  /** `reject_call` by `user`: needs the edge caller -> user. The notice is
      looked up without a registration check, so an unregistered caller makes
      the handler raise after the edge is gone. */
  function Reject(s: VoiceState, user: Name, caller: Option<Name>): StepResult {
    if Pending(s, caller, user) then
      var c := caller.value;
      var dropped := s.(calls := s.calls - {c});
      if c in s.clients then StepResult(dropped.(outbox := Deliver(s.outbox, s.clients[c], CallRejected(user))), true)
      else StepResult(dropped, false)
    else StepResult(s, true)
  }

  /** `end_call` by `user` with edge user -> other: drops other's edge,
      whatever it points to, then user's own edge, and notifies both. On a
      self edge the second deletion raises and the connection ends. */
  function End(s: VoiceState, user: Name): StepResult {
    if user in s.calls then
      var other := s.calls[user];
      if other == user then StepResult(s.(calls := s.calls - {user}), false)
      else
        var notified := if other in s.clients then Deliver(s.outbox, s.clients[other], CallEnded(user)) else s.outbox;
        var echoed := if user in s.clients then Deliver(notified, s.clients[user], CallEnded(user)) else notified;
        StepResult(s.(calls := s.calls - {other} - {user}, outbox := echoed), true)
    else StepResult(s, true)
  }

  /** Who an audio frame is addressed to: the members of a named room that
      exists, otherwise the sender's call partner, otherwise nobody. */
  function AudioTargets(s: VoiceState, user: Name, roomId: Option<string>): set<Name> {
    if Truthy(roomId) then Members(s.rooms, roomId.value)
    else if user in s.calls then {s.calls[user]}
    else {}
  }

  /** The names among `ns` a frame from `user` is forwarded to: never the
      sender, and only registered names. */
  function Forwardable(ns: set<Name>, user: Name, clients: map<Name, Handle>): set<Name> {
    set n | n in ns && n != user && n in clients
  }

  /** The targets a frame is actually forwarded to. */
  function AudioRecipients(s: VoiceState, user: Name, roomId: Option<string>): set<Name> {
    Forwardable(AudioTargets(s, user, roomId), user, s.clients)
  }

  function Audio(s: VoiceState, user: Name, roomId: Option<string>, audio: seq<Byte>): VoiceState {
    s.(outbox := DeliverAll(s.outbox, HandlesOf(s.clients, AudioRecipients(s, user, roomId)),
                            AudioFrame(user, audio, roomId)))
  }

  /** Rooms after `user` left every one of them; a room it emptied is gone. */
  function RemoveFromRooms(rooms: Rooms, user: Name): Rooms {
    map r | r in rooms && (user !in rooms[r] || rooms[r] - {user} != {}) :: rooms[r] - {user}
  }

  /** Calls after every edge from or to `user` was dropped. */
  function DropCallsOf(calls: Calls, user: Name): Calls {
    map c | c in calls && c != user && calls[c] != user :: calls[c]
  }

  /** Teardown of `user`'s voice connection. The partner is notified only if
      still registered once `user` itself is unregistered. */
  function Teardown(s: VoiceState, user: Name): VoiceState {
    var clients := s.clients - {user};
    var outbox :=
      if user in s.calls && s.calls[user] in clients then Deliver(s.outbox, clients[s.calls[user]], CallEnded(user))
      else s.outbox;
    VoiceState(clients, RemoveFromRooms(s.rooms, user), DropCallsOf(s.calls, user), outbox)
  }

  /** One command from `user`'s connection. */
  function Step(s: VoiceState, user: Name, cmd: Command): StepResult {
    match cmd
    case JoinRoom(roomId) => StepResult(Join(s, user, roomId), true)
    case LeaveRoom(roomId) => StepResult(Leave(s, user, roomId), true)
    case StartPrivateCall(callee) => StepResult(StartCall(s, user, callee), true)
    case AcceptCall(caller) => StepResult(Accept(s, user, caller), true)
    case RejectCall(caller) => Reject(s, user, caller)
    case EndCall => End(s, user)
    case AudioData(roomId, audio) =>
      // `len(audio_data)` raises on a missing field before anything is sent
      if audio.None? then StepResult(s, false) else StepResult(Audio(s, user, roomId, audio.value), true)
    case Unrecognised => StepResult(s, true)
  }
}

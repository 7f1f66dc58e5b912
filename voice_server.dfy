/** The voice server as the source keeps it: three tables updated in place
    under one lock, plus the connections' outboxes. Every handler method is
    one atomic step and is proved to perform the matching transition of
    `VoiceSpec`. */
module Voice {
  import opened Mailbox
  import opened Framing
  import opened PyText
  import opened VoiceSpec
  import VoiceProperties

  class VoiceServer {
    var voiceClients: map<Name, Handle>
    var voiceRooms: Rooms
    var privateCalls: Calls
    /** Every envelope written to each voice connection, each framed on the
        wire as `EncodeFrame` of its serialised form. A failed write leaves
        the tables alone, so the outbox records every attempted write. */
    var outbox: Outboxes<Envelope>

    ghost function State(): VoiceState
      reads this
    {
      VoiceState(voiceClients, voiceRooms, privateCalls, outbox)
    }

    ghost predicate Valid()
      reads this
    {
      VoiceSpec.Valid(State())
    }

    constructor ()
      ensures Valid() && State() == Initial
    {
      voiceClients, voiceRooms, privateCalls, outbox := map[], map[], map[], map[];
    }

    /** `send_with_length_prefix`: one envelope to one connection. */
    method Send(h: Handle, e: Envelope)
      modifies this`outbox
      ensures outbox == Deliver(old(outbox), h, e)
    {
      outbox := outbox[h := Sent(outbox, h) + [e]];
    }

    /** The handshake's last step: the new connection takes the name. */
    method Register(user: Name, h: Handle)
      requires Valid() && h !in voiceClients.Values
      modifies this
      ensures Valid() && State() == VoiceSpec.Register(old(State()), user, h)
    {
      VoiceProperties.RegisterKeepsValid(State(), user, h);
      voiceClients := voiceClients[user := h];
    }

    method JoinRoom(user: Name, roomId: Option<string>)
      requires Valid()
      modifies this
      ensures Valid() && State() == Join(old(State()), user, roomId)
    {
      var room := roomId.GetOr(DefaultRoom);
      if room !in voiceRooms {
        voiceRooms := voiceRooms[room := {}];
      }
      voiceRooms := voiceRooms[room := voiceRooms[room] + {user}];
    }

    method LeaveRoom(user: Name, roomId: Option<string>)
      requires Valid()
      modifies this
      ensures Valid() && State() == Leave(old(State()), user, roomId)
    {
      VoiceProperties.LeaveRemovesMember(State(), user, roomId);
      var room := roomId.GetOr(DefaultRoom);
      if room in voiceRooms && user in voiceRooms[room] {
        voiceRooms := voiceRooms[room := voiceRooms[room] - {user}];
        if voiceRooms[room] == {} {
          voiceRooms := voiceRooms - {room};
        }
      }
    }

    method StartPrivateCall(user: Name, callee: Option<Name>)
      requires Valid()
      modifies this
      ensures Valid() && State() == StartCall(old(State()), user, callee)
    {
      if callee.Some? && callee.value in voiceClients {
        privateCalls := privateCalls[user := callee.value];
        Send(voiceClients[callee.value], IncomingCall(user));
      }
    }

    method AcceptCall(user: Name, caller: Option<Name>)
      requires Valid()
      modifies this
      ensures Valid() && State() == Accept(old(State()), user, caller)
    {
      if caller.Some? && caller.value in privateCalls && privateCalls[caller.value] == user {
        privateCalls := privateCalls[user := caller.value];
        if caller.value in voiceClients {
          Send(voiceClients[caller.value], CallAccepted(user));
        }
      }
    }

    /** Returns false where the handler raises: the caller to notify is not
        registered. */
    method RejectCall(user: Name, caller: Option<Name>) returns (alive: bool)
      requires Valid()
      modifies this
      ensures Valid() && StepResult(State(), alive) == Reject(old(State()), user, caller)
    {
      alive := true;
      if caller.Some? && caller.value in privateCalls && privateCalls[caller.value] == user {
        privateCalls := privateCalls - {caller.value};
        if caller.value !in voiceClients {
          return false;
        }
        Send(voiceClients[caller.value], CallRejected(user));
      }
    }

    /** Returns false where the handler raises: on a self edge the caller's
        entry is already gone when it is deleted a second time. */
    method EndCall(user: Name) returns (alive: bool)
      requires Valid()
      modifies this
      ensures Valid() && StepResult(State(), alive) == End(old(State()), user)
    {
      alive := true;
      if user in privateCalls {
        var other := privateCalls[user];
        if other in privateCalls {
          privateCalls := privateCalls - {other};
        }
        if user !in privateCalls {
          return false;
        }
        privateCalls := privateCalls - {user};
        if other in voiceClients {
          Send(voiceClients[other], CallEnded(user));
        }
        if user in voiceClients {
          Send(voiceClients[user], CallEnded(user));
        }
      }
    }

    /** Collects the targets under the lock, then forwards the frame to each
        target that is not the sender and is registered. */
    method RelayAudio(user: Name, roomId: Option<string>, audio: seq<Byte>)
      requires Valid()
      modifies this
      ensures Valid() && State() == Audio(old(State()), user, roomId, audio)
    {
      var targets := Targets(user, roomId);
      Forward(user, targets, AudioFrame(user, audio, roomId));
      assert Forwardable(targets, user, voiceClients) == AudioRecipients(old(State()), user, roomId);
    }

    /** The names an audio frame from `user` is addressed to. */
    method Targets(user: Name, roomId: Option<string>) returns (targets: set<Name>)
      ensures targets == AudioTargets(State(), user, roomId)
    {
      targets := {};
      if Truthy(roomId) {
        if roomId.value in voiceRooms {
          targets := voiceRooms[roomId.value];
        }
      } else if user in privateCalls {
        targets := {privateCalls[user]};
      }
    }

    /** The forwarding loop: every target but the sender that is registered
        is written the frame once. */
    method Forward(user: Name, targets: set<Name>, frame: Envelope)
      requires Injective(voiceClients)
      modifies this`outbox
      ensures outbox == DeliverAll(old(outbox), HandlesOf(voiceClients, Forwardable(targets, user, voiceClients)), frame)
    {
      var pending := targets;
      ghost var forwarded: set<Name> := {};
      DeliverAllNothing(outbox, frame);
      while pending != {}
        invariant pending <= targets
        invariant forwarded == Forwardable(targets - pending, user, voiceClients)
        invariant outbox == DeliverAll(old(outbox), HandlesOf(voiceClients, forwarded), frame)
        decreases pending
      {
        var t :| t in pending;
        if t != user && t in voiceClients {
          DeliverAllStep(old(outbox), voiceClients, forwarded, t, frame);
          Send(voiceClients[t], frame);
          forwarded := forwarded + {t};
        }
        pending := pending - {t};
      }
      assert targets - pending == targets;
    }

    /** The `finally` block of a voice connection: unregister, leave every
        room, notify the partner of one's own call and drop every edge from
        or to the name. */
    method Cleanup(user: Name)
      requires Valid()
      modifies this
      ensures Valid() && State() == Teardown(old(State()), user)
    {
      VoiceProperties.TeardownRemovesEveryTrace(State(), user);
      if user in voiceClients {
        voiceClients := voiceClients - {user};
      } else {
        assert voiceClients == voiceClients - {user};
      }
      LeaveEveryRoom(user);
      if user in privateCalls {
        var other := privateCalls[user];
        if other in voiceClients {
          Send(voiceClients[other], CallEnded(user));
        }
        privateCalls := privateCalls - {user};
      } else {
        assert privateCalls == privateCalls - {user};
      }
      DropEdgesTo(user);
      assert DropCallsOf(old(privateCalls) - {user}, user) == DropCallsOf(old(privateCalls), user);
    }

    /** Teardown's walk over the room table: `user` leaves every room, and a
        room it leaves empty is deleted. */
    method LeaveEveryRoom(user: Name)
      modifies this`voiceRooms
      ensures voiceRooms == RemoveFromRooms(old(voiceRooms), user)
    {
      var roomIds := voiceRooms.Keys;
      while roomIds != {}
        invariant roomIds <= old(voiceRooms).Keys
        invariant voiceRooms == RoomsAfterVisiting(old(voiceRooms), user, old(voiceRooms).Keys - roomIds)
        decreases roomIds
      {
        var r :| r in roomIds;
        ghost var visited := old(voiceRooms).Keys - roomIds;
        if user in voiceRooms[r] {
          voiceRooms := voiceRooms[r := voiceRooms[r] - {user}];
          if voiceRooms[r] == {} {
            voiceRooms := voiceRooms - {r};
          }
        }
        roomIds := roomIds - {r};
        VisitRoom(old(voiceRooms), user, visited, r);
      }
    }

    /** Teardown's walk over a snapshot of the call table once `user`'s own
        edge is gone: every edge pointing at `user` is dropped. */
    method DropEdgesTo(user: Name)
      requires user !in privateCalls
      modifies this`privateCalls
      ensures privateCalls == DropCallsOf(old(privateCalls), user)
    {
      var snapshot := privateCalls;
      var callers := snapshot.Keys;
      while callers != {}
        invariant callers <= snapshot.Keys
        invariant privateCalls == CallsAfterVisiting(snapshot, user, snapshot.Keys - callers)
        decreases callers
      {
        var caller :| caller in callers;
        if snapshot[caller] == user {
          privateCalls := privateCalls - {caller};
        }
        callers := callers - {caller};
      }
    }

    /** One decoded command from `user`'s connection; false when the
        handler raised and the connection is being closed. */
    method Dispatch(user: Name, cmd: Command) returns (alive: bool)
      requires Valid()
      modifies this
      ensures Valid() && StepResult(State(), alive) == Step(old(State()), user, cmd)
    {
      alive := true;
      match cmd
      case JoinRoom(roomId) => JoinRoom(user, roomId);
      case LeaveRoom(roomId) => LeaveRoom(user, roomId);
      case StartPrivateCall(callee) => StartPrivateCall(user, callee);
      case AcceptCall(caller) => AcceptCall(user, caller);
      case RejectCall(caller) => alive := RejectCall(user, caller);
      case EndCall => alive := EndCall(user);
      case AudioData(roomId, audio) =>
        if audio.None? {
          alive := false;
        } else {
          RelayAudio(user, roomId, audio.value);
        }
      case Unrecognised =>
    }

    /** One voice connection from handshake to teardown, with no other
        connection's step in between. The handshake frame's bytes are decoded
        into a name by `decodeName` (text decoding), later frames into
        commands by `parse` (deserialisation); `None` stands for a decoder
        that raised. Returns the name registered, or `None` when the handshake
        was aborted and nothing changed. */
    method Serve(h: Handle, input: Stream, decodeName: seq<Byte> -> Option<string>,
                 parse: seq<Byte> -> Option<Command>) returns (user: Option<Name>)
      requires Valid() && input.Valid() && h !in voiceClients.Values
      modifies this
      ensures Valid()
      ensures user == HandshakeName(input, decodeName)
      ensures user.None? ==> State() == old(State())
      ensures user.Some? ==>
        && user.value !in voiceClients
        && (forall r :: r in voiceRooms ==> user.value !in voiceRooms[r])
        && user.value !in privateCalls && user.value !in privateCalls.Values
    {
      var first, rest := ReadFrame(input);
      if !first.Complete? {
        return None;
      }
      var decoded := decodeName(first.payload);
      if decoded.None? {
        return None;
      }
      var name := Strip(decoded.value);
      user := Some(name);
      Register(name, h);
      var alive := true;
      while alive
        invariant Valid() && rest.Valid()
        decreases |rest.Contents()|
      {
        var reading;
        reading, rest := ReadFrame(rest);
        match reading
        case Closed => break;
        case BadHeader => break;
        case Incomplete(_) =>
        case Complete(payload) =>
          match parse(payload)
          case None => break;
          case Some(cmd) => alive := Dispatch(name, cmd);
      }
      ghost var before := State();
      Cleanup(name);
      VoiceProperties.TeardownRemovesEveryTrace(before, name);
    }
  }

  /** Rooms part-way through the teardown loop: the visited rooms have lost
      `user`, and those it emptied are gone. */
  ghost function RoomsAfterVisiting(rooms: Rooms, user: Name, visited: set<string>): Rooms {
    map r | r in rooms && (r !in visited || user !in rooms[r] || rooms[r] - {user} != {}) ::
      if r in visited then rooms[r] - {user} else rooms[r]
  }

  /** Visiting one more room is leaving it as `LeaveRooms` does. */
  lemma VisitRoom(rooms: Rooms, user: Name, visited: set<string>, r: string)
    requires r in rooms && r !in visited
    ensures RoomsAfterVisiting(rooms, user, visited + {r}) == LeaveRooms(RoomsAfterVisiting(rooms, user, visited), r, user)
  {
    var cur, nxt := RoomsAfterVisiting(rooms, user, visited), RoomsAfterVisiting(rooms, user, visited + {r});
    assert cur[r] == rooms[r];
    if user !in rooms[r] {
      assert rooms[r] - {user} == rooms[r];
    }
    assert nxt.Keys == LeaveRooms(cur, r, user).Keys;
  }

  /** Calls part-way through the teardown loop over the edge snapshot. */
  ghost function CallsAfterVisiting(calls: Calls, user: Name, visited: set<Name>): Calls {
    map c | c in calls && (c !in visited || calls[c] != user) :: calls[c]
  }

  /** The name a connection registers under: the handshake frame must arrive
      whole and decode, and surrounding whitespace is stripped. */
  function HandshakeName(input: Stream, decodeName: seq<Byte> -> Option<string>): Option<Name>
    requires input.Valid()
  {
    if input.segments == [] || |input.segments[0]| < HeaderSize then None
    else
      match ParseFrame(input.Contents()).0
      case Complete(payload) =>
        (match decodeName(payload)
         case Some(text) => Some(Strip(text))
         case None => None)
      case _ => None
  }
}

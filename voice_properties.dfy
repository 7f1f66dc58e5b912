/** What the voice transitions guarantee, stated on observations: who gets
    which envelope, which edges and memberships exist afterwards, and what is
    left untouched. */
module VoiceProperties {
  import opened Mailbox
  import opened Framing
  import opened VoiceSpec

  // ---------------------------------------------------------------------
  // Rooms

  /** Joining creates the room on demand, adds the name and touches nothing
      else; without a room id the room is "public". */
  lemma JoinAddsMember(s: VoiceState, user: Name, roomId: Option<string>)
    ensures var t, room := Join(s, user, roomId), roomId.GetOr(DefaultRoom);
      && (roomId.None? ==> room == "public")
      && room in t.rooms && t.rooms[room] == Members(s.rooms, room) + {user}
      && (forall r :: r != room ==> Members(t.rooms, r) == Members(s.rooms, r) && (r in t.rooms <==> r in s.rooms))
      && t.clients == s.clients && t.calls == s.calls && t.outbox == s.outbox
  {
  }

  /** Joining twice is joining once. */
  lemma JoinIsIdempotent(s: VoiceState, user: Name, roomId: Option<string>)
    ensures Join(Join(s, user, roomId), user, roomId) == Join(s, user, roomId)
  {
    var room := roomId.GetOr(DefaultRoom);
    var once := Join(s, user, roomId);
    assert once.rooms[room] + {user} == once.rooms[room];
  }

  /** Leaving removes the name from that room only, and a room left empty
      disappears; leaving a room one is not in changes nothing. */
  lemma LeaveRemovesMember(s: VoiceState, user: Name, roomId: Option<string>)
    requires NoEmptyRoom(s.rooms)
    ensures var t, room := Leave(s, user, roomId), roomId.GetOr(DefaultRoom);
      && Members(t.rooms, room) == Members(s.rooms, room) - {user}
      && (room in t.rooms <==> Members(s.rooms, room) - {user} != {})
      && (forall r :: r != room ==> Members(t.rooms, r) == Members(s.rooms, r) && (r in t.rooms <==> r in s.rooms))
      && NoEmptyRoom(t.rooms)
      && (user !in Members(s.rooms, room) ==> t == s)
      && t.clients == s.clients && t.calls == s.calls && t.outbox == s.outbox
  {
  }

  /** Leaving right after joining a room one was not in restores the rooms
      exactly, including the disappearance of a room the join created. */
  lemma LeaveUndoesJoin(s: VoiceState, user: Name, roomId: Option<string>)
    requires NoEmptyRoom(s.rooms)
    requires user !in Members(s.rooms, roomId.GetOr(DefaultRoom))
    ensures Leave(Join(s, user, roomId), user, roomId) == s
  {
    var room := roomId.GetOr(DefaultRoom);
    var t := Leave(Join(s, user, roomId), user, roomId);
    assert (Members(s.rooms, room) + {user}) - {user} == Members(s.rooms, room);
    if room in s.rooms {
      assert t.rooms == s.rooms[room := s.rooms[room]];
    } else {
      assert t.rooms == s.rooms[room := {user}] - {room};
    }
    assert t.rooms == s.rooms;
  }

  // ---------------------------------------------------------------------
  // Calls

  /** Calling a registered name sets the caller's edge, replacing any edge
      the caller had, and rings the callee; calling anyone else does
      nothing. Neither self-calls nor busy callers are refused. */
  lemma StartCallEffect(s: VoiceState, user: Name, callee: Name)
    requires Valid(s)
    ensures var t := StartCall(s, user, Some(callee));
      && t.clients == s.clients && t.rooms == s.rooms
      && (callee in s.clients ==>
            && t.calls == s.calls[user := callee]
            && Sent(t.outbox, s.clients[callee]) == Sent(s.outbox, s.clients[callee]) + [IncomingCall(user)]
            && (forall h :: h != s.clients[callee] ==> Sent(t.outbox, h) == Sent(s.outbox, h)))
      && (callee !in s.clients ==> t == s)
  {
  }

  /** An accept is honoured exactly when the named caller's edge points at
      the acceptor: the reverse edge is added and the caller, if registered,
      is told. Any other accept changes nothing. */
  lemma AcceptEffect(s: VoiceState, user: Name, caller: Name)
    requires Valid(s)
    ensures var t := Accept(s, user, Some(caller));
      && t.clients == s.clients && t.rooms == s.rooms
      && (Pending(s, Some(caller), user) ==>
            && t.calls == s.calls[user := caller]
            && t.calls[caller] == user && t.calls[user] == caller
            && (caller in s.clients ==>
                  Sent(t.outbox, s.clients[caller]) == Sent(s.outbox, s.clients[caller]) + [CallAccepted(user)])
            && (forall h :: (caller !in s.clients || h != s.clients[caller]) ==> Sent(t.outbox, h) == Sent(s.outbox, h)))
      && (!Pending(s, Some(caller), user) ==> t == s)
  {
  }

  /** A reject is honoured under the same condition: the caller's edge goes
      and the caller is told; an unregistered caller ends the rejecting
      connection instead. Any other reject changes nothing. */
  lemma RejectEffect(s: VoiceState, user: Name, caller: Name)
    requires Valid(s)
    ensures var r := Reject(s, user, Some(caller));
      && r.next.clients == s.clients && r.next.rooms == s.rooms
      && (Pending(s, Some(caller), user) ==>
            && r.next.calls == s.calls - {caller}
            && (r.alive <==> caller in s.clients)
            && (caller in s.clients ==>
                  Sent(r.next.outbox, s.clients[caller]) == Sent(s.outbox, s.clients[caller]) + [CallRejected(user)])
            && (forall h :: (caller !in s.clients || h != s.clients[caller]) ==> Sent(r.next.outbox, h) == Sent(s.outbox, h)))
      && (!Pending(s, Some(caller), user) ==> r == StepResult(s, true))
  {
  }

  /** Ending a call with partner `other` removes both names' edges and sends
      `call_ended` naming the ender to each of the two that is registered;
      every other edge and outbox stays as it was. Without an edge nothing
      happens. */
  lemma EndCallEffect(s: VoiceState, user: Name)
    requires Valid(s)
    ensures var r := End(s, user);
      && r.next.clients == s.clients && r.next.rooms == s.rooms
      && (user !in s.calls ==> r == StepResult(s, true))
      && r.next.calls.Keys <= s.calls.Keys
      && (user in s.calls ==> user !in r.next.calls)
      && (user in s.calls && s.calls[user] == user ==>
            !r.alive && r.next.outbox == s.outbox && r.next.calls == s.calls - {user})
      && (user in s.calls && s.calls[user] != user ==>
            var other := s.calls[user];
            && r.alive && other !in r.next.calls
            && (forall c :: c in s.calls && c != user && c != other ==> c in r.next.calls && r.next.calls[c] == s.calls[c])
            && (other in s.clients ==>
                  Sent(r.next.outbox, s.clients[other]) == Sent(s.outbox, s.clients[other]) + [CallEnded(user)])
            && (user in s.clients ==>
                  Sent(r.next.outbox, s.clients[user]) == Sent(s.outbox, s.clients[user]) + [CallEnded(user)])
            && (forall h :: (other !in s.clients || h != s.clients[other]) && (user !in s.clients || h != s.clients[user])
                  ==> Sent(r.next.outbox, h) == Sent(s.outbox, h)))
  {
    if user in s.calls && s.calls[user] != user {
      var other := s.calls[user];
      if other in s.clients && user in s.clients {
        assert s.clients[other] != s.clients[user];
      }
    }
  }

  /** The partner's edge is dropped whatever it points to: if the partner had
      since called a third peer, that pending call vanishes and the third peer
      is told nothing. */
  lemma EndCallDropsPartnersOtherEdge(s: VoiceState, a: Name, b: Name, c: Name)
    requires a in s.calls && s.calls[a] == b && b in s.calls && s.calls[b] == c
    requires a != b && c != a && c != b && c in s.clients
    requires Valid(s) && a in s.clients && b in s.clients
    ensures b !in End(s, a).next.calls
    ensures Sent(End(s, a).next.outbox, s.clients[c]) == Sent(s.outbox, s.clients[c])
  {
    assert s.clients[c] != s.clients[a] && s.clients[c] != s.clients[b];
  }

  // ---------------------------------------------------------------------
  // Audio relay

  /** The recipients of a frame: a member of the named room if the frame
      names a room that exists, else the sender's call partner, never the
      sender, and only registered names. A room frame reaches the room even
      when its sender is not a member. */
  lemma AudioRecipientsAre(s: VoiceState, user: Name, roomId: Option<string>, t: Name)
    ensures t in AudioRecipients(s, user, roomId) <==>
      && t != user && t in s.clients
      && (if Truthy(roomId) then roomId.value in s.rooms && t in s.rooms[roomId.value]
          else user in s.calls && s.calls[user] == t)
  {
  }

  /** Each recipient's connection gets exactly one copy of the frame carrying
      the sender, the same audio bytes and the same room id; every other
      connection, the sender's included, gets nothing; no table changes. */
  lemma AudioDelivery(s: VoiceState, user: Name, roomId: Option<string>, audio: seq<Byte>)
    requires Valid(s)
    ensures var t := Audio(s, user, roomId, audio);
      && t.clients == s.clients && t.rooms == s.rooms && t.calls == s.calls
      && (forall n :: n in AudioRecipients(s, user, roomId) ==>
            Sent(t.outbox, s.clients[n]) == Sent(s.outbox, s.clients[n]) + [AudioFrame(user, audio, roomId)])
      && (forall h :: (forall n :: n in AudioRecipients(s, user, roomId) ==> s.clients[n] != h) ==>
            Sent(t.outbox, h) == Sent(s.outbox, h))
      && (user in s.clients ==> Sent(t.outbox, s.clients[user]) == Sent(s.outbox, s.clients[user]))
  {
    var ns := AudioRecipients(s, user, roomId);
    var hs := HandlesOf(s.clients, ns);
    forall h | (forall n :: n in ns ==> s.clients[n] != h)
      ensures h !in hs
    {
    }
    if user in s.clients {
      forall n | n in ns ensures s.clients[n] != s.clients[user] {
      }
    }
  }

  // ---------------------------------------------------------------------
  // Connection teardown

  /** After teardown the name is unregistered, in no room, and on neither end
      of any call edge; exactly the rooms it was the only member of are gone,
      every other membership and edge is kept, and nothing is added. */
  lemma TeardownRemovesEveryTrace(s: VoiceState, user: Name)
    requires Valid(s)
    ensures var t := Teardown(s, user);
      && Valid(t)
      && user !in t.clients && t.clients == s.clients - {user}
      && (forall r :: r in t.rooms ==> user !in t.rooms[r])
      && t.rooms.Keys == (set r | r in s.rooms && s.rooms[r] != {user})
      && (forall r :: r in s.rooms && s.rooms[r] != {user} ==> r in t.rooms && t.rooms[r] == s.rooms[r] - {user})
      && user !in t.calls && user !in t.calls.Values
      && t.calls.Keys <= s.calls.Keys
      && (forall c :: c in s.calls && c != user && s.calls[c] != user ==> c in t.calls && t.calls[c] == s.calls[c])
  {
    var t := Teardown(s, user);
    assert Injective(t.clients);
    forall c | c in t.calls ensures t.calls[c] != user {
    }
  }

  /** An `audio_data` command without its audio field makes the handler
      raise before anything is forwarded: the connection ends and nothing
      changes. */
  lemma AudioWithoutPayloadEnds(s: VoiceState, user: Name, roomId: Option<string>)
    ensures Step(s, user, AudioData(roomId, None)) == StepResult(s, false)
  {
  }

  /** The partner of a call the disconnecting name had started is told the
      call ended, provided it is registered under another name; nobody else
      is sent anything. */
  lemma TeardownNotifiesPartner(s: VoiceState, user: Name)
    requires Valid(s)
    ensures var t := Teardown(s, user);
      if user in s.calls && s.calls[user] != user && s.calls[user] in s.clients then
        var h := s.clients[s.calls[user]];
        && Sent(t.outbox, h) == Sent(s.outbox, h) + [CallEnded(user)]
        && (forall g :: g != h ==> Sent(t.outbox, g) == Sent(s.outbox, g))
      else t.outbox == s.outbox
  {
  }

  // ---------------------------------------------------------------------
  // Whole-server invariant

  /** Registration keeps the server state valid when the connection is new. */
  lemma RegisterKeepsValid(s: VoiceState, user: Name, h: Handle)
    requires Valid(s) && h !in s.clients.Values
    ensures Valid(Register(s, user, h))
  {
    var c := Register(s, user, h).clients;
    forall x, y | x in c && y in c && x != y ensures c[x] != c[y] {
      if x != user && y != user {
        assert c[x] == s.clients[x] && c[y] == s.clients[y];
      } else if x == user {
        assert s.clients[y] in s.clients.Values;
      } else {
        assert s.clients[x] in s.clients.Values;
      }
    }
  }

  /** Every command keeps the server state valid. */
  lemma StepKeepsValid(s: VoiceState, user: Name, cmd: Command)
    requires Valid(s)
    ensures Valid(Step(s, user, cmd).next)
  {
    match cmd
    case LeaveRoom(roomId) => LeaveRemovesMember(s, user, roomId);
    case _ =>
  }

  // ---------------------------------------------------------------------
  // Scenarios

  /** "alice" calls "bob", "bob" accepts, and a frame from "alice" without a
      room id reaches "bob" only. */
  lemma ScenarioPrivateCall(audio: seq<Byte>)
    ensures
      var s0 := Register(Register(Initial, "alice", 1), "bob", 2);
      var s1 := StartCall(s0, "alice", Some("bob"));
      var s2 := Accept(s1, "bob", Some("alice"));
      var s3 := Audio(s2, "alice", None, audio);
      && Sent(s1.outbox, 2) == [IncomingCall("alice")]
      && s2.calls == map["alice" := "bob", "bob" := "alice"]
      && Sent(s2.outbox, 1) == [CallAccepted("bob")]
      && Sent(s3.outbox, 2) == [IncomingCall("alice"), AudioFrame("alice", audio, None)]
      && Sent(s3.outbox, 1) == [CallAccepted("bob")]
  {
    var s0 := Register(Register(Initial, "alice", 1), "bob", 2);
    var s2 := Accept(StartCall(s0, "alice", Some("bob")), "bob", Some("alice"));
    assert AudioRecipients(s2, "alice", None) == {"bob"};
    assert HandlesOf(s2.clients, {"bob"}) == {2};
  }

  /** "alice" and "bob" are in room "public" and "carol" is not: a frame
      "carol" addresses to the room still reaches both members, and a frame
      from "alice" reaches "bob" and not "alice". */
  lemma ScenarioRoom(audio: seq<Byte>)
    ensures
      var s0 := Register(Register(Register(Initial, "alice", 1), "bob", 2), "carol", 3);
      var s1 := Join(Join(s0, "alice", Some("public")), "bob", Some("public"));
      var fromCarol := Audio(s1, "carol", Some("public"), audio);
      var fromAlice := Audio(s1, "alice", Some("public"), audio);
      && Sent(fromCarol.outbox, 1) == [AudioFrame("carol", audio, Some("public"))]
      && Sent(fromCarol.outbox, 2) == [AudioFrame("carol", audio, Some("public"))]
      && Sent(fromCarol.outbox, 3) == []
      && Sent(fromAlice.outbox, 2) == [AudioFrame("alice", audio, Some("public"))]
      && Sent(fromAlice.outbox, 1) == []
  {
    var s0 := Register(Register(Register(Initial, "alice", 1), "bob", 2), "carol", 3);
    var s1 := Join(Join(s0, "alice", Some("public")), "bob", Some("public"));
    assert s1.rooms["public"] == {"alice", "bob"};
    assert AudioRecipients(s1, "carol", Some("public")) == {"alice", "bob"};
    assert HandlesOf(s1.clients, {"alice", "bob"}) == {1, 2};
    assert AudioRecipients(s1, "alice", Some("public")) == {"bob"};
    assert HandlesOf(s1.clients, {"bob"}) == {2};
  }

  /** "alice" disconnects in a call with "bob": "bob" is told, the call is
      gone in both directions, and a later call from "bob" to "alice" is
      silently ignored. */
  lemma ScenarioDisconnectMidCall()
    ensures
      var s0 := Register(Register(Initial, "alice", 1), "bob", 2);
      var s1 := Accept(StartCall(s0, "alice", Some("bob")), "bob", Some("alice"));
      var s2 := Teardown(s1, "alice");
      && Sent(s2.outbox, 2) == Sent(s1.outbox, 2) + [CallEnded("alice")]
      && s2.calls == map[]
      && StartCall(s2, "bob", Some("alice")) == s2
  {
    var s0 := Register(Register(Initial, "alice", 1), "bob", 2);
    var s1 := Accept(StartCall(s0, "alice", Some("bob")), "bob", Some("alice"));
    assert s1.calls == map["alice" := "bob", "bob" := "alice"];
    assert Teardown(s1, "alice").calls == map[];
  }

  /** A name can stay in a room after it lost its registration: a second
      connection registering the same name and then closing unregisters it,
      while the first connection can still join. */
  lemma MembershipCanOutliveRegistration()
    ensures
      var s := Teardown(Register(Register(Initial, "alice", 1), "alice", 2), "alice");
      var t := Join(s, "alice", None);
      "alice" in t.rooms[DefaultRoom] && "alice" !in t.clients
  {
  }
}

/** The chat server as the source keeps it: one registry updated in place
    under a lock, plus the connections' outboxes. Each method is one step
    taken under the lock and is proved to perform the matching transition
    of `ChatSpec`. */
module Chat {
  import opened Mailbox
  import opened PyText
  import opened ChatSpec
  import ChatProperties

  class ChatServer {
    /** The registry's keys in insertion order. */
    var names: seq<string>
    var clients: map<string, Handle>
    /** Every message successfully written to each chat connection. */
    var outbox: Outboxes<ChatMsg>
    /** The voice server's port, announced to every newcomer. */
    const voicePort: int

    ghost function State(): ChatState
      reads this
    {
      ChatState(names, clients, outbox)
    }

    ghost predicate Valid()
      reads this
    {
      ChatSpec.Valid(State())
    }

    constructor (voicePort: int)
      ensures Valid() && State() == Initial && this.voicePort == voicePort
    {
      this.voicePort := voicePort;
      names, clients, outbox := [], map[], map[];
    }

    /** `sendall` on connection `h`: false when the write fails. */
    method Write(h: Handle, m: ChatMsg, down: set<Handle>) returns (written: bool)
      modifies this`outbox
      ensures written == (h !in down)
      ensures outbox == if written then Deliver(old(outbox), h, m) else old(outbox)
    {
      written := h !in down;
      if written {
        outbox := outbox[h := Sent(outbox, h) + [m]];
      }
    }

    /** A write to a registered name whose failure is swallowed. */
    method WriteTo(u: string, m: ChatMsg, down: set<Handle>)
      requires Valid()
      modifies this`outbox
      ensures Valid() && State() == Notify(old(State()), u, m, down)
    {
      if u in clients {
        var _ := Write(clients[u], m, down);
      }
    }

    /** The loop shared by `broadcast` and `broadcast_raw`: walk a snapshot
        of the registry, write to every name but `exclude`, and delete a
        name whose write fails. */
    method Fanout(m: ChatMsg, exclude: Option<string>, down: set<Handle>)
      requires Valid()
      modifies this
      ensures Valid() && State() == Broadcast(old(State()), m, exclude, down)
    {
      ghost var s0 := State();
      var snapshot, registered := names, clients;
      var i := 0;
      FanoutStart(s0, m, exclude, down);
      while i < |snapshot|
        invariant 0 <= i <= |snapshot| && snapshot == s0.names && registered == s0.clients
        invariant ChatState(names, clients, outbox) == FanoutAfter(s0, i, m, exclude, down)
      {
        Visit(s0, i, snapshot[i], registered, m, exclude, down);
        i := i + 1;
      }
      FanoutEnd(s0, m, exclude, down);
      ChatProperties.BroadcastKeepsValid(s0, m, exclude, down);
    }

    /** One turn of the broadcast loop: the `i`-th name `u` of the snapshot,
        registered to `registered[u]` when the snapshot was taken. */
    method Visit(ghost s0: ChatState, i: nat, u: string, registered: map<string, Handle>, m: ChatMsg,
                 exclude: Option<string>, down: set<Handle>)
      requires ChatSpec.Valid(s0) && i < |s0.names| && u == s0.names[i] && registered == s0.clients
      requires ChatState(names, clients, outbox) == FanoutAfter(s0, i, m, exclude, down)
      modifies this
      ensures ChatState(names, clients, outbox) == FanoutAfter(s0, i + 1, m, exclude, down)
    {
      FanoutNext(s0, i);
      if exclude != Some(u) {
        var h := registered[u];
        if h in down {
          FanoutEvict(s0, i, m, exclude, down);
          Unregister(u);
        } else {
          FanoutWrite(s0, i, m, exclude, down);
          var _ := Write(h, m, down);
        }
      } else {
        FanoutSkip(s0, i, m, exclude, down);
      }
    }

    /** `del clients[u]`: the name leaves the registry and its order. */
    method Unregister(u: string)
      modifies this`names, this`clients
      ensures names == Without(old(names), u) && clients == old(clients) - {u}
    {
      names := Without(names, u);
      clients := clients - {u};
    }

    /** `broadcast`: a system or chat note to everyone but `exclude`. */
    method BroadcastNote(message: string, sender: string, exclude: Option<string>, kind: string,
                         down: set<Handle>)
      requires Valid()
      modifies this
      ensures Valid() && State() == Broadcast(old(State()), Note(sender, message, kind), exclude, down)
    {
      Fanout(Note(sender, message, kind), exclude, down);
    }

    /** `broadcast_raw`: a prepared message to everyone, the sender included. */
    method BroadcastRaw(m: ChatMsg, down: set<Handle>)
      requires Valid()
      modifies this
      ensures Valid() && State() == Broadcast(old(State()), m, None, down)
    {
      Fanout(m, None, down);
    }

    method SendPrivate(target: string, message: string, sender: string, down: set<Handle>)
      requires Valid()
      modifies this
      ensures Valid() && State() == ChatSpec.SendPrivate(old(State()), target, message, sender, down)
    {
      WriteTo(target, Note(sender, message, "private"), down);
      WriteTo(sender, Note(SystemSender, Confirmation(target, message), "private_sent"), down);
    }

    /** `get_online_users`: the registered names, each once, oldest first. */
    method GetOnlineUsers() returns (users: seq<string>)
      requires Valid()
      ensures users == names
      ensures forall u :: u in users <==> u in clients
      ensures |users| == |clients|
    {
      users := names;
      ChatProperties.DistinctCardinality(users);
      assert clients.Keys == set u | u in users;
    }

    /** Registration on the new connection `h`; true when the name was
        inserted. */
    method Register(h: Handle, hello: Hello, down: set<Handle>) returns (added: bool)
      requires Valid() && h !in clients.Values
      modifies this
      ensures Valid() && Outcome(State(), added) == ChatSpec.Register(old(State()), h, hello, down, voicePort)
    {
      ChatProperties.RegisterKeepsValid(State(), h, hello, down, voicePort);
      added := false;
      match hello
      case NoHello =>
      case Hello(name) =>
        if !Given(name) {
          var _ := Write(h, ErrorReply(EmptyNameError), down);
        } else if name.value in clients {
          var _ := Write(h, ErrorReply(TakenNameError), down);
        } else {
          var u := name.value;
          added := Write(h, Connected(ConnectedText(u), voicePort), down);
          if added {
            names := names + [u];
            clients := clients[u := h];
          }
        }
    }

    /** Announces the newcomer `user` to the others and welcomes it on `h`;
        false when the welcome cannot be written. */
    method Admit(user: string, h: Handle, down: set<Handle>) returns (alive: bool)
      requires Valid()
      modifies this
      ensures Valid() && Outcome(State(), alive) == ChatSpec.Admit(old(State()), user, h, down, voicePort)
    {
      BroadcastNote(JoinedText(user), SystemSender, Some(user), "broadcast", down);
      alive := Write(h, SystemWelcome(WelcomeText(|clients|), voicePort), down);
    }

    /** One request from `user` on connection `h`; false when a reply on
        `h` failed, or a broadcast closed `h`, and the handler ends. */
    method Dispatch(user: string, h: Handle, req: Request, down: set<Handle>) returns (alive: bool)
      requires Valid()
      modifies this
      ensures Valid() && Outcome(State(), alive) == ChatSpec.Dispatch(old(State()), user, h, req, down)
    {
      alive := true;
      match req
      case Message(content) =>
        var text := content.GetOr("");
        if Strip(text) != "" {
          alive := !(h in down && h in clients.Values);
          BroadcastNote(text, user, None, "message", down);
        }
      case Private(target, content) =>
        var text := content.GetOr("");
        if Given(target) && Strip(text) != "" {
          SendPrivate(target.value, PrivateText(user, text), user, down);
        }
      case Command(command) =>
        if command == Some("users") {
          var users := GetOnlineUsers();
          alive := Write(h, UserList(UsersText(users), users), down);
        }
      case Heartbeat =>
        alive := Write(h, HeartbeatAck, down);
      case File(name, size, content) =>
        if Given(name) && GivenSize(size) && Given(content) {
          alive := !(h in down && h in clients.Values);
          BroadcastRaw(FileReceive(user, name.value, size.value, content.value, None), down);
        }
      case Image(name, content) =>
        if Given(name) && Given(content) {
          alive := !(h in down && h in clients.Values);
          BroadcastRaw(ImageReceive(user, name.value, content.value, None), down);
        }
      case PrivateImage(target, name, content) =>
        if Given(target) && Given(name) && Given(content) {
          WriteTo(target.value, ImageReceive(user, name.value, content.value, target), down);
          WriteTo(user, Note(SystemSender, ImageSentText(target.value, name.value), "private_sent"), down);
        }
      case PrivateFile(target, name, size, content) =>
        if Given(target) && Given(name) && GivenSize(size) && Given(content) {
          WriteTo(target.value, FileReceive(user, name.value, size.value, content.value, target), down);
          WriteTo(user, Note(SystemSender, FileSentText(target.value, name.value), "private_sent"), down);
        }
      case VoiceStatus(target, status) =>
        if Given(target) && Given(status) {
          WriteTo(target.value, VoiceStatusNotice(user, status.value, target.value), down);
        }
      case Unhandled =>
    }

    /** The `finally` block of a connection that registered `user`. */
    method Depart(user: string, down: set<Handle>)
      requires Valid()
      modifies this
      ensures Valid() && State() == ChatSpec.Depart(old(State()), user, down)
    {
      ChatProperties.DepartEffect(State(), user, down);
      if user in clients {
        ChatProperties.WithoutDistinct(names, user);
        ChatProperties.WithoutMembers(names, user);
        names := Without(names, user);
        clients := clients - {user};
      }
      BroadcastNote(LeftText(user), SystemSender, Some(user), "broadcast", down);
    }

    /** One chat connection from its first message to its end, with no other
        connection's step in between. `requests` are the decoded requests that
        arrive before the peer closes the connection, sends something that
        does not decode, or sends an empty object (which also ends the loop); `downs` gives each step its own set of failing
        connections, as `Session` lays them out. Returns the name this
        connection inserted, if any. */
    method Serve(h: Handle, hello: Hello, requests: seq<Request>, downs: seq<set<Handle>>)
      returns (user: Option<string>)
      requires Valid() && h !in clients.Values && |downs| == |requests| + 3
      modifies this
      ensures Valid() && (State(), user) == Session(old(State()), h, hello, requests, downs, voicePort)
    {
      var added := Register(h, hello, downs[0]);
      if !added {
        return None;
      }
      var name := hello.username.value;
      user := Some(name);
      var alive := Admit(name, h, downs[1]);
      ghost var rds := downs[2..|requests| + 2];
      ghost var target := if alive then Serving(State(), name, h, requests, rds) else State();
      var i := 0;
      while alive && i < |requests|
        invariant Valid() && 0 <= i <= |requests| && |rds| == |requests|
        invariant (if alive then Serving(State(), name, h, requests[i..], rds[i..]) else State()) == target
      {
        ghost var before := State();
        assert requests[i..][0] == requests[i] && requests[i..][1..] == requests[i + 1..];
        assert rds[i..][0] == downs[i + 2] && rds[i..][1..] == rds[i + 1..];
        alive := Dispatch(name, h, requests[i], downs[i + 2]);
        i := i + 1;
      }
      assert State() == target;
      Depart(name, downs[|requests| + 2]);
    }
  }

  /** The names of a prefix of the snapshot that a broadcast has written to. */
  ghost function Reached(visited: seq<string>, registered: map<string, Handle>, exclude: Option<string>,
                         down: set<Handle>): set<string> {
    Addressees((set u | u in visited), registered, exclude, down)
  }

  /** The registry once the names in `visited` have been visited. */
  ghost function VisitedClients(registered: map<string, Handle>, visited: seq<string>, exclude: Option<string>,
                                down: set<Handle>): map<string, Handle> {
    map u | u in registered && (u !in visited || Keeps(registered, exclude, down, u)) :: registered[u]
  }

  /** The state once a broadcast from `s0` has visited the first `i` names
      of its snapshot of the registry's order. */
  ghost function FanoutAfter(s0: ChatState, i: nat, m: ChatMsg, exclude: Option<string>,
                             down: set<Handle>): ChatState
    requires i <= |s0.names|
  {
    var visited := s0.names[..i];
    ChatState(
      Kept(visited, s0.clients, exclude, down) + s0.names[i..],
      VisitedClients(s0.clients, visited, exclude, down),
      DeliverAll(s0.outbox, HandlesOf(s0.clients, Reached(visited, s0.clients, exclude, down)), m))
  }

  lemma FanoutStart(s0: ChatState, m: ChatMsg, exclude: Option<string>, down: set<Handle>)
    ensures FanoutAfter(s0, 0, m, exclude, down) == s0
  {
    var r := FanoutAfter(s0, 0, m, exclude, down);
    assert Reached(s0.names[..0], s0.clients, exclude, down) == {};
    DeliverAllNothing(s0.outbox, m);
    assert r.clients == s0.clients;
  }

  lemma FanoutEnd(s0: ChatState, m: ChatMsg, exclude: Option<string>, down: set<Handle>)
    requires ChatSpec.Valid(s0)
    ensures FanoutAfter(s0, |s0.names|, m, exclude, down) == Broadcast(s0, m, exclude, down)
  {
    var n := |s0.names|;
    var r, b := FanoutAfter(s0, n, m, exclude, down), Broadcast(s0, m, exclude, down);
    assert s0.names[..n] == s0.names;
    assert s0.names[n..] == [];
    assert r.names == b.names;
    assert r.clients == b.clients by {
      forall u | u in s0.clients
        ensures u in s0.names
      {
      }
    }
    assert Reached(s0.names, s0.clients, exclude, down) == Addressees(s0.clients.Keys, s0.clients, exclude, down);
  }

  /** The next name of the snapshot is registered and not yet visited. */
  lemma FanoutNext(s0: ChatState, i: nat)
    requires ChatSpec.Valid(s0) && i < |s0.names|
    ensures s0.names[i] !in s0.names[..i] && s0.names[i] !in s0.names[i + 1..] && s0.names[i] in s0.clients
  {
    forall j | 0 <= j < i
      ensures s0.names[..i][j] != s0.names[i]
    {
    }
    var rest := s0.names[i + 1..];
    forall j | 0 <= j < |rest|
      ensures rest[j] != s0.names[i]
    {
      assert rest[j] == s0.names[i + 1 + j];
    }
  }

  /** Visiting one more name of the snapshot, component by component. */
  lemma KeptStep(order: seq<string>, i: nat, registered: map<string, Handle>, exclude: Option<string>,
                 down: set<Handle>)
    requires i < |order|
    ensures Kept(order[..i + 1], registered, exclude, down)
            == Kept(order[..i], registered, exclude, down) + (if Keeps(registered, exclude, down, order[i]) then [order[i]] else [])
  {
    PrefixStep(order, i);
    assert order[..i + 1][..i] == order[..i];
  }

  lemma VisitedClientsStep(registered: map<string, Handle>, order: seq<string>, i: nat,
                           exclude: Option<string>, down: set<Handle>)
    requires i < |order| && order[i] !in order[..i]
    ensures VisitedClients(registered, order[..i + 1], exclude, down)
            == if Keeps(registered, exclude, down, order[i]) then VisitedClients(registered, order[..i], exclude, down)
               else VisitedClients(registered, order[..i], exclude, down) - {order[i]}
  {
    PrefixStep(order, i);
  }

  lemma ReachedStep(order: seq<string>, i: nat, registered: map<string, Handle>, exclude: Option<string>,
                    down: set<Handle>)
    requires i < |order|
    ensures Reached(order[..i + 1], registered, exclude, down)
            == Reached(order[..i], registered, exclude, down)
               + (if order[i] in registered && exclude != Some(order[i]) && registered[order[i]] !in down then {order[i]} else {})
  {
    PrefixStep(order, i);
  }

  /** The excluded name is passed over. */
  lemma FanoutSkip(s0: ChatState, i: nat, m: ChatMsg, exclude: Option<string>, down: set<Handle>)
    requires i < |s0.names| && s0.names[i] !in s0.names[..i] && exclude == Some(s0.names[i])
    ensures FanoutAfter(s0, i + 1, m, exclude, down) == FanoutAfter(s0, i, m, exclude, down)
  {
    KeptStep(s0.names, i, s0.clients, exclude, down);
    VisitedClientsStep(s0.clients, s0.names, i, exclude, down);
    ReachedStep(s0.names, i, s0.clients, exclude, down);
    ShiftOne(Kept(s0.names[..i], s0.clients, exclude, down), s0.names, i);
    assert Reached(s0.names[..i + 1], s0.clients, exclude, down) == Reached(s0.names[..i], s0.clients, exclude, down);
  }

  /** A name whose write fails is deleted from the registry. */
  lemma FanoutEvict(s0: ChatState, i: nat, m: ChatMsg, exclude: Option<string>, down: set<Handle>)
    requires i < |s0.names| && s0.names[i] !in s0.names[..i] && s0.names[i] !in s0.names[i + 1..]
    requires exclude != Some(s0.names[i]) && s0.names[i] in s0.clients && s0.clients[s0.names[i]] in down
    ensures var before := FanoutAfter(s0, i, m, exclude, down);
      FanoutAfter(s0, i + 1, m, exclude, down)
        == before.(names := Without(before.names, s0.names[i]), clients := before.clients - {s0.names[i]})
  {
    KeptStep(s0.names, i, s0.clients, exclude, down);
    VisitedClientsStep(s0.clients, s0.names, i, exclude, down);
    ReachedStep(s0.names, i, s0.clients, exclude, down);
    KeptThenRest(s0.names, i, s0.clients, exclude, down);
    var before, after := FanoutAfter(s0, i, m, exclude, down), FanoutAfter(s0, i + 1, m, exclude, down);
    assert after.names == Without(before.names, s0.names[i]);
    assert after.clients == before.clients - {s0.names[i]};
    assert Reached(s0.names[..i + 1], s0.clients, exclude, down) == Reached(s0.names[..i], s0.clients, exclude, down);
  }

  /** A name whose write succeeds is written to once. */
  lemma FanoutWrite(s0: ChatState, i: nat, m: ChatMsg, exclude: Option<string>, down: set<Handle>)
    requires i < |s0.names| && s0.names[i] !in s0.names[..i] && exclude != Some(s0.names[i])
    requires Injective(s0.clients) && s0.names[i] in s0.clients && s0.clients[s0.names[i]] !in down
    ensures var before := FanoutAfter(s0, i, m, exclude, down);
      FanoutAfter(s0, i + 1, m, exclude, down)
        == before.(outbox := Deliver(before.outbox, s0.clients[s0.names[i]], m))
  {
    var u := s0.names[i];
    KeptStep(s0.names, i, s0.clients, exclude, down);
    VisitedClientsStep(s0.clients, s0.names, i, exclude, down);
    ReachedStep(s0.names, i, s0.clients, exclude, down);
    PrefixStep(s0.names, i);
    WrittenStep(s0.outbox, s0.clients, s0.names[..i], u, m, exclude, down);
    ShiftOne(Kept(s0.names[..i], s0.clients, exclude, down), s0.names, i);
  }

  /** The outboxes once one more reachable name has been written to. */
  lemma WrittenStep(out: Outboxes<ChatMsg>, registered: map<string, Handle>, visited: seq<string>, u: string,
                    m: ChatMsg, exclude: Option<string>, down: set<Handle>)
    requires Injective(registered) && u in registered && u !in visited
    requires exclude != Some(u) && registered[u] !in down
    ensures DeliverAll(out, HandlesOf(registered, Reached(visited + [u], registered, exclude, down)), m)
            == Deliver(DeliverAll(out, HandlesOf(registered, Reached(visited, registered, exclude, down)), m), registered[u], m)
  {
    var reached := Reached(visited, registered, exclude, down);
    assert Reached(visited + [u], registered, exclude, down) == reached + {u};
    HandlesOfInsert(registered, reached, u);
    DeliverAllInsert(out, HandlesOf(registered, reached), registered[u], m);
  }

  /** Deleting the name at the head of the unvisited part of the snapshot
      from the registry's order. */
  lemma KeptThenRest(snapshot: seq<string>, i: nat, registered: map<string, Handle>,
                     exclude: Option<string>, down: set<Handle>)
    requires i < |snapshot| && snapshot[i] !in snapshot[..i] && snapshot[i] !in snapshot[i + 1..]
    ensures Without(Kept(snapshot[..i], registered, exclude, down) + snapshot[i..], snapshot[i])
            == Kept(snapshot[..i], registered, exclude, down) + snapshot[i + 1..]
  {
    var p := Kept(snapshot[..i], registered, exclude, down);
    ChatProperties.KeptMembers(snapshot[..i], registered, exclude, down);
    WithoutMiddle(p, snapshot[i], snapshot[i + 1..]);
    ShiftOne(p, snapshot, i);
  }

  lemma PrefixStep(xs: seq<string>, i: nat)
    requires i < |xs|
    ensures xs[..i + 1] == xs[..i] + [xs[i]]
  {
  }

  lemma ShiftOne(p: seq<string>, xs: seq<string>, i: nat)
    requires i < |xs|
    ensures p + [xs[i]] + xs[i + 1..] == p + xs[i..]
  {
    assert xs[i..] == [xs[i]] + xs[i + 1..];
  }

  /** Deleting a name that occurs once removes just that occurrence. */
  lemma {:induction false} WithoutMiddle(p: seq<string>, x: string, rest: seq<string>)
    requires x !in p && x !in rest
    ensures Without(p + [x] + rest, x) == p + rest
  {
    if p == [] {
      assert ([x] + rest)[1..] == rest;
      WithoutAbsent(rest, x);
    } else {
      assert (p + [x] + rest)[1..] == p[1..] + [x] + rest;
      WithoutMiddle(p[1..], x, rest);
      assert p == [p[0]] + p[1..];
    }
  }

  lemma {:induction false} WithoutAbsent(xs: seq<string>, x: string)
    requires x !in xs
    ensures Without(xs, x) == xs
  {
    if xs != [] {
      WithoutAbsent(xs[1..], x);
    }
  }
}

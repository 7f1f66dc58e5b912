/** What the chat transitions promise: who a broadcast reaches and who it
    evicts, where private messages and their confirmations go, how
    registration answers, and that every step keeps the registry well formed. */
module ChatProperties {
  import opened Mailbox
  import opened PyText
  import opened ChatSpec

  // ---------------------------------------------------------------------
  // The registry's order

  /** A broadcast keeps exactly the names it does not evict. */
  lemma {:induction false} KeptMembers(order: seq<string>, clients: map<string, Handle>,
                                        exclude: Option<string>, down: set<Handle>)
    ensures forall u :: u in Kept(order, clients, exclude, down) <==> u in order && Keeps(clients, exclude, down, u)
  {
    if order != [] {
      var init := order[..|order| - 1];
      KeptMembers(init, clients, exclude, down);
      assert order == init + [order[|order| - 1]];
    }
  }

  /** Deleting `x` keeps every other name. */
  lemma {:induction false} WithoutMembers(xs: seq<string>, x: string)
    ensures forall u :: u in Without(xs, x) <==> u in xs && u != x
  {
    if xs != [] {
      WithoutMembers(xs[1..], x);
      assert xs == [xs[0]] + xs[1..];
    }
  }

  lemma {:induction false} KeptDistinct(order: seq<string>, clients: map<string, Handle>,
                                         exclude: Option<string>, down: set<Handle>)
    requires Distinct(order)
    ensures Distinct(Kept(order, clients, exclude, down))
  {
    if order != [] {
      var init := order[..|order| - 1];
      assert Distinct(init);
      KeptDistinct(init, clients, exclude, down);
      KeptMembers(init, clients, exclude, down);
      assert order[|order| - 1] !in init;
    }
  }

  lemma {:induction false} WithoutDistinct(xs: seq<string>, x: string)
    requires Distinct(xs)
    ensures Distinct(Without(xs, x))
  {
    if xs != [] {
      assert Distinct(xs[1..]);
      WithoutDistinct(xs[1..], x);
      WithoutMembers(xs[1..], x);
      assert xs[0] !in xs[1..];
    }
  }

  /** `a` comes before `b` in `xs`. */
  ghost predicate Before(xs: seq<string>, a: string, b: string) {
    exists p, q :: 0 <= p < q < |xs| && xs[p] == a && xs[q] == b
  }

  /** Every two names of `r` appear in `xs` in the same relative order. */
  ghost predicate KeepsOrder(r: seq<string>, xs: seq<string>) {
    forall i, j :: 0 <= i < j < |r| ==> Before(xs, r[i], r[j])
  }

  lemma KeepsOrderTransitive(a: seq<string>, b: seq<string>, c: seq<string>)
    requires KeepsOrder(a, b) && KeepsOrder(b, c)
    ensures KeepsOrder(a, c)
  {
    forall i, j | 0 <= i < j < |a|
      ensures Before(c, a[i], a[j])
    {
      var p, q :| 0 <= p < q < |b| && b[p] == a[i] && b[q] == a[j];
      assert Before(c, b[p], b[q]);
    }
  }

  lemma KeepsOrderItself(xs: seq<string>)
    ensures KeepsOrder(xs, xs)
  {
    forall i, j | 0 <= i < j < |xs|
      ensures Before(xs, xs[i], xs[j])
    {
    }
  }

  /** Eviction keeps the remaining names in the order they registered. */
  lemma {:induction false} KeptKeepsOrder(order: seq<string>, clients: map<string, Handle>,
                                           exclude: Option<string>, down: set<Handle>)
    ensures KeepsOrder(Kept(order, clients, exclude, down), order)
  {
    if order != [] {
      var init := order[..|order| - 1];
      var last := order[|order| - 1];
      var front := Kept(init, clients, exclude, down);
      var r := Kept(order, clients, exclude, down);
      KeptKeepsOrder(init, clients, exclude, down);
      KeptMembers(init, clients, exclude, down);
      assert r == front + (if Keeps(clients, exclude, down, last) then [last] else []);
      forall i, j | 0 <= i < j < |r|
        ensures Before(order, r[i], r[j])
      {
        if j < |front| {
          assert r[i] == front[i] && r[j] == front[j];
          assert Before(init, front[i], front[j]);
          var p, q :| 0 <= p < q < |init| && init[p] == front[i] && init[q] == front[j];
          assert order[p] == r[i] && order[q] == r[j];
        } else {
          assert r[j] == last && r[i] == front[i];
          assert front[i] in front;
          var p :| 0 <= p < |init| && init[p] == front[i];
          assert order[p] == r[i] && order[|order| - 1] == r[j];
        }
      }
    }
  }

  /** Deletion keeps the remaining names in the order they registered. */
  lemma {:induction false} WithoutKeepsOrder(xs: seq<string>, x: string)
    ensures KeepsOrder(Without(xs, x), xs)
  {
    if xs != [] {
      var tail := xs[1..];
      var back := Without(tail, x);
      var head := if xs[0] == x then [] else [xs[0]];
      var r := Without(xs, x);
      assert r == head + back;
      WithoutKeepsOrder(tail, x);
      WithoutMembers(tail, x);
      forall i, j | 0 <= i < j < |r|
        ensures Before(xs, r[i], r[j])
      {
        if i < |head| {
          assert r[i] == xs[0] && r[j] == back[j - |head|];
          assert back[j - |head|] in back;
          var q :| 0 <= q < |tail| && tail[q] == back[j - |head|];
          assert xs[q + 1] == r[j];
        } else {
          assert Before(tail, back[i - |head|], back[j - |head|]);
          var p, q :| 0 <= p < q < |tail| && tail[p] == back[i - |head|] && tail[q] == back[j - |head|];
          assert xs[p + 1] == r[i] && xs[q + 1] == r[j];
        }
      }
    }
  }

  // ---------------------------------------------------------------------
  // Broadcast

  /** A broadcast keeps the registry well formed. */
  lemma BroadcastKeepsValid(s: ChatState, m: ChatMsg, exclude: Option<string>, down: set<Handle>)
    requires Valid(s)
    ensures Valid(Broadcast(s, m, exclude, down))
  {
    KeptDistinct(s.names, s.clients, exclude, down);
    KeptMembers(s.names, s.clients, exclude, down);
  }

  /** Each registered name but `exclude` is sent the message once if its
      connection works and is unregistered, unsent, if it does not; the
      excluded name and connections of nobody are left alone, and no name
      is added or rebound. */
  lemma BroadcastEffect(s: ChatState, m: ChatMsg, exclude: Option<string>, down: set<Handle>)
    requires Valid(s)
    ensures var r := Broadcast(s, m, exclude, down);
      && (forall u :: u in r.clients ==> u in s.clients && r.clients[u] == s.clients[u])
      && (forall u :: u in s.clients && exclude != Some(u) && s.clients[u] !in down ==>
            u in r.clients && Sent(r.outbox, s.clients[u]) == Sent(s.outbox, s.clients[u]) + [m])
      && (forall u :: u in s.clients && exclude != Some(u) && s.clients[u] in down ==>
            u !in r.clients && Sent(r.outbox, s.clients[u]) == Sent(s.outbox, s.clients[u]))
      && (exclude.Some? && exclude.value in s.clients ==>
            exclude.value in r.clients && Sent(r.outbox, s.clients[exclude.value]) == Sent(s.outbox, s.clients[exclude.value]))
      && (forall h :: h !in s.clients.Values ==> Sent(r.outbox, h) == Sent(s.outbox, h))
  {
    var r := Broadcast(s, m, exclude, down);
    var hs := HandlesOf(s.clients, Addressees(s.clients.Keys, s.clients, exclude, down));
    if exclude.Some? && exclude.value in s.clients {
      var h := s.clients[exclude.value];
      assert h !in hs;
    }
    forall h | h !in s.clients.Values
      ensures Sent(r.outbox, h) == Sent(s.outbox, h)
    {
      assert h !in hs;
    }
  }

  // ---------------------------------------------------------------------
  // Private routing

  /** `send_private` changes no registration; the target's connection gets
      the message and the sender's the confirmation, each only when that
      name is registered on a working connection, and nobody else gets
      anything. */
  lemma SendPrivateEffect(s: ChatState, target: string, message: string, sender: string, down: set<Handle>)
    ensures var r := SendPrivate(s, target, message, sender, down);
      && r.names == s.names && r.clients == s.clients
      && forall h :: Sent(r.outbox, h) ==
           Sent(s.outbox, h)
           + (if target in s.clients && s.clients[target] == h && h !in down then [Note(sender, message, "private")] else [])
           + (if sender in s.clients && s.clients[sender] == h && h !in down
              then [Note(SystemSender, Confirmation(target, message), "private_sent")] else [])
  {
  }

  /** In the text `"<user> (私聊): <content>"` the first separator is the one
      the server wrote, provided the name holds none and does not end with
      a colon; what follows it is the content. */
  lemma FirstSeparatorAfterName(user: string, content: string)
    requires IndexOf(user, Colon).None? && (user == [] || user[|user| - 1] != ':')
    ensures IndexOf(PrivateText(user, content), Colon) == Some(|user| + 5)
    ensures PrivateText(user, content)[|user| + 5 + |Colon|..] == content
  {
    var msg := PrivateText(user, content);
    var k := |user| + 5;
    assert msg[k..k + 2] == ": ";
    forall j: nat | j < k
      ensures !OccursAt(msg, Colon, j)
    {
      if j + 2 <= |user| {
        assert msg[j..j + 2] == user[j..j + 2];
        assert !OccursAt(user, Colon, j);
      } else if j + 1 == |user| {
        assert msg[j..j + 2][0] == msg[j] == user[|user| - 1];
      } else {
        assert msg[j..j + 2][0] == msg[j] == " (私聊)"[j - |user|];
      }
    }
    IndexOfFirst(msg, Colon, k);
  }

  /** A private message whose content holds no `": "` is confirmed with the
      whole content. */
  lemma ConfirmationQuotesContent(target: string, user: string, content: string)
    requires IndexOf(user, Colon).None? && (user == [] || user[|user| - 1] != ':')
    requires IndexOf(content, Colon).None?
    ensures Confirmation(target, PrivateText(user, content)) == "[私聊给 " + target + "] " + content
  {
    FirstSeparatorAfterName(user, content);
  }

  /** A private message whose content is `a + ": " + b` is confirmed with
      `a` only: `split(": ")[1]` drops everything from the content's own
      first separator on. */
  lemma ConfirmationTruncates(target: string, user: string, a: string, b: string)
    requires IndexOf(user, Colon).None? && (user == [] || user[|user| - 1] != ':')
    requires IndexOf(a, Colon).None?
    ensures Confirmation(target, PrivateText(user, a + Colon + b)) == "[私聊给 " + target + "] " + a
  {
    var content := a + Colon + b;
    FirstSeparatorAfterName(user, content);
    forall j: nat | j < |a|
      ensures !OccursAt(content, Colon, j)
    {
      if j + 2 <= |a| {
        assert content[j..j + 2] == a[j..j + 2];
        assert !OccursAt(a, Colon, j);
      } else {
        assert content[j..j + 2][1] == content[|a|] == ':';
      }
    }
    assert content[|a|..|a| + 2] == Colon;
    IndexOfFirst(content, Colon, |a|);
  }

  // ---------------------------------------------------------------------
  // Registration and departure

  /** The three answers to a registration: a missing or empty name and a
      taken name get their error reply (when the connection works) and
      leave the registry as it was; any other name on a working connection
      is appended to the registry and welcomed with the voice port. Nothing
      is written to any other connection. */
  lemma RegisterEffect(s: ChatState, h: Handle, hello: Hello, down: set<Handle>, voicePort: int)
    ensures var o := Register(s, h, hello, down, voicePort);
      && (o.ok <==> hello.Hello? && Given(hello.username) && hello.username.value !in s.clients && h !in down)
      && (!o.ok ==> o.next.names == s.names && o.next.clients == s.clients)
      && (forall g :: g != h ==> Sent(o.next.outbox, g) == Sent(s.outbox, g))
      && (hello.NoHello? ==> o.next == s)
      && (hello.Hello? && !Given(hello.username) ==>
            Sent(o.next.outbox, h) == Sent(s.outbox, h) + (if h in down then [] else [ErrorReply(EmptyNameError)]))
      && (hello.Hello? && Given(hello.username) && hello.username.value in s.clients ==>
            Sent(o.next.outbox, h) == Sent(s.outbox, h) + (if h in down then [] else [ErrorReply(TakenNameError)]))
      && (o.ok ==>
            var u := hello.username.value;
            && o.next.names == s.names + [u]
            && o.next.clients == s.clients[u := h]
            && Sent(o.next.outbox, h) == Sent(s.outbox, h) + [Connected(ConnectedText(u), voicePort)])
  {
  }

  /** Registering on a fresh connection keeps the registry well formed. */
  lemma RegisterKeepsValid(s: ChatState, h: Handle, hello: Hello, down: set<Handle>, voicePort: int)
    requires Valid(s) && h !in s.clients.Values
    ensures Valid(Register(s, h, hello, down, voicePort).next)
  {
    var o := Register(s, h, hello, down, voicePort);
    if o.ok {
      var u := hello.username.value;
      assert u !in s.names;
      forall i, j | 0 <= i < j < |o.next.names|
        ensures o.next.names[i] != o.next.names[j]
      {
        if j == |s.names| {
          assert s.names[i] in s.names;
        }
      }
    }
  }

  /** Once registered, the newcomer is the only one not told of its
      arrival, and it is then welcomed with the head count that follows the
      announcement. */
  lemma AdmitEffect(s: ChatState, user: string, h: Handle, down: set<Handle>, voicePort: int)
    requires Valid(s) && user in s.clients && s.clients[user] == h
    ensures var o := Admit(s, user, h, down, voicePort);
      var announced := Broadcast(s, Note(SystemSender, JoinedText(user), "broadcast"), Some(user), down);
      && Valid(o.next)
      && (o.ok <==> h !in down)
      && user in o.next.clients
      && Sent(o.next.outbox, h) == Sent(s.outbox, h) + (if h in down then [] else [SystemWelcome(WelcomeText(|announced.clients|), voicePort)])
      && (forall u :: u in s.clients && u != user && s.clients[u] !in down ==>
            u in o.next.clients && Sent(o.next.outbox, s.clients[u]) == Sent(s.outbox, s.clients[u]) + [Note(SystemSender, JoinedText(user), "broadcast")])
  {
    var m := Note(SystemSender, JoinedText(user), "broadcast");
    BroadcastEffect(s, m, Some(user), down);
    BroadcastKeepsValid(s, m, Some(user), down);
    forall u | u in s.clients && u != user && s.clients[u] !in down
      ensures s.clients[u] != h
    {
    }
  }

  /** Teardown leaves the departed name nowhere in the registry, keeps it
      well formed, and tells every other name on a working connection. */
  lemma DepartEffect(s: ChatState, user: string, down: set<Handle>)
    requires Valid(s)
    ensures var r := Depart(s, user, down);
      && Valid(r)
      && user !in r.clients && user !in r.names
      && (forall u :: u in s.clients && u != user && s.clients[u] !in down ==>
            u in r.clients && Sent(r.outbox, s.clients[u]) == Sent(s.outbox, s.clients[u]) + [Note(SystemSender, LeftText(user), "broadcast")])
  {
    var removed := if user in s.clients then s.(names := Without(s.names, user), clients := s.clients - {user}) else s;
    if user in s.clients {
      WithoutDistinct(s.names, user);
      WithoutMembers(s.names, user);
    }
    assert Valid(removed);
    KeptMembers(removed.names, removed.clients, Some(user), down);
    var m := Note(SystemSender, LeftText(user), "broadcast");
    BroadcastEffect(removed, m, Some(user), down);
    BroadcastKeepsValid(removed, m, Some(user), down);
  }

  /** Teardown deletes by name: a connection whose name was evicted and then
      taken by a newcomer removes the newcomer's entry when it ends. */
  lemma DepartRemovesNewcomer()
    ensures var evicted := Broadcast(ChatState(["bob"], map["bob" := 1], map[]), Note("alice", "hi", "message"), None, {1});
      && evicted.clients == map[]
      && var rejoined := Register(evicted, 2, Hello(Some("bob")), {}, 8889);
      && rejoined.ok && rejoined.next.clients == map["bob" := 2]
      && Depart(rejoined.next, "bob", {}).clients == map[]
  {
    var s := ChatState(["bob"], map["bob" := 1], map[]);
    var evicted := Broadcast(s, Note("alice", "hi", "message"), None, {1});
    assert evicted.clients.Keys == {};
    var rejoined := Register(evicted, 2, Hello(Some("bob")), {}, 8889);
    assert rejoined.next.clients == map["bob" := 2];
    var removed := rejoined.next.(names := Without(rejoined.next.names, "bob"), clients := rejoined.next.clients - {"bob"});
    assert removed.clients == map[];
  }

  /** The online-user list names the registered users in the order they
      registered. */
  lemma UsersInJoinOrder(a: string, b: string, ha: Handle, hb: Handle)
    requires a != "" && b != "" && a != b
    ensures var first := Register(Initial, ha, Hello(Some(a)), {}, 8889).next;
      var second := Register(first, hb, Hello(Some(b)), {}, 8889).next;
      second.names == [a, b]
  {
  }

  /** No step reorders the registry: a broadcast, a request, an admission
      and a departure each leave the remaining names in their earlier order,
      and registration (`RegisterEffect`) appends the new name last. So the
      user list is always in registration order. */
  lemma BroadcastKeepsOrder(s: ChatState, m: ChatMsg, exclude: Option<string>, down: set<Handle>)
    ensures KeepsOrder(Broadcast(s, m, exclude, down).names, s.names)
  {
    KeptKeepsOrder(s.names, s.clients, exclude, down);
  }

  lemma DispatchKeepsOrder(s: ChatState, user: string, h: Handle, req: Request, down: set<Handle>)
    ensures KeepsOrder(Dispatch(s, user, h, req, down).next.names, s.names)
  {
    KeepsOrderItself(s.names);
    if req.Message? || req.File? || req.Image? {
      KeptKeepsOrder(s.names, s.clients, None, down);
    } else {
      DispatchQuiet(s, user, h, req, down);
    }
  }

  lemma AdmitKeepsOrder(s: ChatState, user: string, h: Handle, down: set<Handle>, voicePort: int)
    ensures KeepsOrder(Admit(s, user, h, down, voicePort).next.names, s.names)
  {
    KeptKeepsOrder(s.names, s.clients, Some(user), down);
  }

  lemma DepartKeepsOrder(s: ChatState, user: string, down: set<Handle>)
    ensures KeepsOrder(Depart(s, user, down).names, s.names)
  {
    var removed := if user in s.clients then s.(names := Without(s.names, user), clients := s.clients - {user}) else s;
    KeptKeepsOrder(removed.names, removed.clients, Some(user), down);
    if user in s.clients {
      WithoutKeepsOrder(s.names, user);
      KeepsOrderTransitive(Depart(s, user, down).names, removed.names, s.names);
    }
  }

  // ---------------------------------------------------------------------
  // Requests

  /** A message of whitespace only is dropped. */
  lemma BlankMessageIgnored(s: ChatState, user: string, h: Handle, text: string, down: set<Handle>)
    requires IsBlank(text)
    ensures Dispatch(s, user, h, Message(Some(text)), down) == Outcome(s, true)
  {
    StripEmptyIffBlank(text);
  }

  /** A chat message goes to everyone registered on a working connection,
      its own sender included. */
  lemma MessageReachesSender(s: ChatState, user: string, h: Handle, text: string, down: set<Handle>)
    requires Valid(s) && !IsBlank(text) && user in s.clients && s.clients[user] !in down
    ensures var r := Dispatch(s, user, h, Message(Some(text)), down).next;
      Sent(r.outbox, s.clients[user]) == Sent(s.outbox, s.clients[user]) + [Note(user, text, "message")]
  {
    StripEmptyIffBlank(text);
    BroadcastEffect(s, Note(user, text, "message"), None, down);
  }

  /** The text of the user list gives the names back: after its heading it
      splits on `", "` into exactly the listed names, in order, when none of
      them holds the separator. */
  lemma UsersTextSplitsIntoNames(users: seq<string>)
    requires users != [] && forall k :: 0 <= k < |users| ==> IndexOf(users[k], Comma).None?
    ensures var t := UsersText(users);
      && |UsersHeading| <= |t| && t[..|UsersHeading|] == UsersHeading
      && SplitOn(t[|UsersHeading|..], Comma) == users
  {
    JoinThenSplit(users);
    assert UsersText(users)[|UsersHeading|..] == JoinWith(users, Comma);
  }

  /** The user list sent back names every registered user exactly once. */
  lemma UsersReplyListsRegistry(s: ChatState, user: string, h: Handle, down: set<Handle>)
    requires Valid(s) && h !in down
    ensures var r := Dispatch(s, user, h, Command(Some("users")), down);
      && r.ok && r.next.clients == s.clients
      && Sent(r.next.outbox, h) == Sent(s.outbox, h) + [UserList(UsersText(s.names), s.names)]
      && (forall u :: u in s.names <==> u in s.clients)
      && |s.names| == |s.clients|
  {
    DistinctCardinality(s.names);
    assert s.clients.Keys == set u | u in s.names;
  }

  lemma {:induction false} DistinctCardinality(xs: seq<string>)
    requires Distinct(xs)
    ensures |set u | u in xs| == |xs|
  {
    if xs != [] {
      var init := xs[..|xs| - 1];
      assert Distinct(init);
      DistinctCardinality(init);
      assert xs[|xs| - 1] !in init;
      assert (set u | u in xs) == (set u | u in init) + {xs[|xs| - 1]};
    }
  }

  /** A heartbeat is acknowledged on the requester's own connection only;
      when that write fails the handler ends. */
  lemma HeartbeatEffect(s: ChatState, user: string, h: Handle, down: set<Handle>)
    ensures var o := Dispatch(s, user, h, Heartbeat, down);
      && (o.ok <==> h !in down)
      && o.next.names == s.names && o.next.clients == s.clients
      && Sent(o.next.outbox, h) == Sent(s.outbox, h) + (if h in down then [] else [HeartbeatAck])
      && (forall g :: g != h ==> Sent(o.next.outbox, g) == Sent(s.outbox, g))
  {
  }

  /** A private image with target, name and content all given goes to the
      target, marked with its addressee, and the sender is confirmed, each
      only when registered on a working connection. Nobody else is written
      to and the handler goes on; an incomplete request changes nothing. */
  lemma PrivateImageEffect(s: ChatState, user: string, h: Handle, target: Option<string>,
                           name: Option<string>, content: Option<string>, down: set<Handle>)
    ensures var o := Dispatch(s, user, h, PrivateImage(target, name, content), down);
      && o.ok && o.next.names == s.names && o.next.clients == s.clients
      && (!(Given(target) && Given(name) && Given(content)) ==> o.next == s)
      && (Given(target) && Given(name) && Given(content) ==>
            forall g :: Sent(o.next.outbox, g) ==
              Sent(s.outbox, g)
              + (if target.value in s.clients && s.clients[target.value] == g && g !in down
                 then [ImageReceive(user, name.value, content.value, target)] else [])
              + (if user in s.clients && s.clients[user] == g && g !in down
                 then [Note(SystemSender, ImageSentText(target.value, name.value), "private_sent")] else []))
  {
  }

  /** The same for a private file, which also needs a nonzero size. */
  lemma PrivateFileEffect(s: ChatState, user: string, h: Handle, target: Option<string>,
                          name: Option<string>, size: Option<int>, content: Option<string>, down: set<Handle>)
    ensures var o := Dispatch(s, user, h, PrivateFile(target, name, size, content), down);
      && o.ok && o.next.names == s.names && o.next.clients == s.clients
      && (!(Given(target) && Given(name) && GivenSize(size) && Given(content)) ==> o.next == s)
      && (Given(target) && Given(name) && GivenSize(size) && Given(content) ==>
            forall g :: Sent(o.next.outbox, g) ==
              Sent(s.outbox, g)
              + (if target.value in s.clients && s.clients[target.value] == g && g !in down
                 then [FileReceive(user, name.value, size.value, content.value, target)] else [])
              + (if user in s.clients && s.clients[user] == g && g !in down
                 then [Note(SystemSender, FileSentText(target.value, name.value), "private_sent")] else []))
  {
  }

  /** A voice-status notice reaches its target, if registered on a working
      connection, and nobody else; the sender gets no confirmation. */
  lemma VoiceStatusEffect(s: ChatState, user: string, h: Handle, target: Option<string>,
                          status: Option<string>, down: set<Handle>)
    ensures var o := Dispatch(s, user, h, VoiceStatus(target, status), down);
      && o.ok && o.next.names == s.names && o.next.clients == s.clients
      && (!(Given(target) && Given(status)) ==> o.next == s)
      && (Given(target) && Given(status) ==>
            forall g :: Sent(o.next.outbox, g) ==
              Sent(s.outbox, g)
              + (if target.value in s.clients && s.clients[target.value] == g && g !in down
                 then [VoiceStatusNotice(user, status.value, target.value)] else []))
  {
  }

  /** No request adds or rebinds a name, and every request keeps the
      registry well formed. */
  lemma DispatchKeepsValid(s: ChatState, user: string, h: Handle, req: Request, down: set<Handle>)
    requires Valid(s)
    ensures var r := Dispatch(s, user, h, req, down).next;
      && Valid(r)
      && forall u :: u in r.clients ==> u in s.clients && r.clients[u] == s.clients[u]
  {
    if req.Message? || req.File? || req.Image? {
      DispatchBroadcasting(s, user, h, req, down);
    } else {
      DispatchQuiet(s, user, h, req, down);
    }
  }

  /** Messages, files and images are broadcast, or dropped when incomplete. */
  lemma DispatchBroadcasting(s: ChatState, user: string, h: Handle, req: Request, down: set<Handle>)
    requires Valid(s) && (req.Message? || req.File? || req.Image?)
    ensures var r := Dispatch(s, user, h, req, down).next;
      && Valid(r)
      && forall u :: u in r.clients ==> u in s.clients && r.clients[u] == s.clients[u]
  {
    var r := Dispatch(s, user, h, req, down).next;
    match req
    case Message(content) =>
      var text := content.GetOr("");
      if Strip(text) != "" {
        BroadcastKeepsValid(s, Note(user, text, "message"), None, down);
        BroadcastEffect(s, Note(user, text, "message"), None, down);
      } else {
        assert r == s;
      }
    case File(name, size, content) =>
      if Given(name) && GivenSize(size) && Given(content) {
        BroadcastKeepsValid(s, FileReceive(user, name.value, size.value, content.value, None), None, down);
        BroadcastEffect(s, FileReceive(user, name.value, size.value, content.value, None), None, down);
      } else {
        assert r == s;
      }
    case Image(name, content) =>
      if Given(name) && Given(content) {
        BroadcastKeepsValid(s, ImageReceive(user, name.value, content.value, None), None, down);
        BroadcastEffect(s, ImageReceive(user, name.value, content.value, None), None, down);
      } else {
        assert r == s;
      }
  }

  /** Every other request writes to single connections only and leaves the
      registry as it is. */
  lemma DispatchQuiet(s: ChatState, user: string, h: Handle, req: Request, down: set<Handle>)
    requires !(req.Message? || req.File? || req.Image?)
    ensures var r := Dispatch(s, user, h, req, down).next;
      r.names == s.names && r.clients == s.clients
  {
    match req
    case Private(target, content) =>
    case Command(command) =>
    case Heartbeat =>
    case PrivateImage(target, name, content) =>
    case PrivateFile(target, name, size, content) =>
    case VoiceStatus(target, status) =>
    case Unhandled =>
  }

  // ---------------------------------------------------------------------
  // A whole connection

  /** The request loop keeps the registry well formed and never adds a
      name or moves one to another connection. */
  lemma {:induction false} ServingKeepsValid(s: ChatState, user: string, h: Handle, requests: seq<Request>,
                                             downs: seq<set<Handle>>)
    requires Valid(s) && |downs| == |requests|
    ensures var r := Serving(s, user, h, requests, downs);
      && Valid(r)
      && forall u :: u in r.clients ==> u in s.clients && r.clients[u] == s.clients[u]
    decreases |requests|
  {
    if requests != [] {
      DispatchKeepsValid(s, user, h, requests[0], downs[0]);
      var o := Dispatch(s, user, h, requests[0], downs[0]);
      if o.ok {
        ServingKeepsValid(o.next, user, h, requests[1..], downs[1..]);
      }
    }
  }

  /** A connection inserts a name exactly when its registration succeeds,
      that name was free before, and whatever happens in between (the
      handler ending early on its own failing connection, an eviction by a
      broadcast), the name is gone from the registry when the connection
      ends and the registry is still well formed. A connection whose
      registration fails leaves only the registration's effect. */
  lemma SessionEffect(s: ChatState, h: Handle, hello: Hello, requests: seq<Request>,
                      downs: seq<set<Handle>>, voicePort: int)
    requires Valid(s) && h !in s.clients.Values && |downs| == |requests| + 3
    ensures var reg := Register(s, h, hello, downs[0], voicePort);
      var r := Session(s, h, hello, requests, downs, voicePort);
      && Valid(r.0)
      && (r.1.Some? <==> reg.ok)
      && (r.1.None? ==> r.0 == reg.next)
      && (r.1.Some? ==> hello == Hello(r.1) && r.1.value !in s.clients
                        && r.1.value !in r.0.clients && r.1.value !in r.0.names)
  {
    var reg := Register(s, h, hello, downs[0], voicePort);
    RegisterEffect(s, h, hello, downs[0], voicePort);
    RegisterKeepsValid(s, h, hello, downs[0], voicePort);
    if reg.ok {
      var u := hello.username.value;
      AdmitEffect(reg.next, u, h, downs[1], voicePort);
      var admitted := Admit(reg.next, u, h, downs[1], voicePort);
      var served := if admitted.ok then Serving(admitted.next, u, h, requests, downs[2..|requests| + 2])
                    else admitted.next;
      if admitted.ok {
        ServingKeepsValid(admitted.next, u, h, requests, downs[2..|requests| + 2]);
      }
      DepartEffect(served, u, downs[|requests| + 2]);
    }
  }

  /** The request loop never reorders the registry. */
  lemma {:induction false} ServingKeepsOrder(s: ChatState, user: string, h: Handle, requests: seq<Request>,
                                             downs: seq<set<Handle>>)
    requires |downs| == |requests|
    ensures KeepsOrder(Serving(s, user, h, requests, downs).names, s.names)
    decreases |requests|
  {
    if requests == [] {
      KeepsOrderItself(s.names);
    } else {
      var o := Dispatch(s, user, h, requests[0], downs[0]);
      DispatchKeepsOrder(s, user, h, requests[0], downs[0]);
      if o.ok {
        ServingKeepsOrder(o.next, user, h, requests[1..], downs[1..]);
        KeepsOrderTransitive(Serving(s, user, h, requests, downs).names, o.next.names, s.names);
      }
    }
  }

  /** Over a whole connection the user list keeps registration order: the
      names left at the end appear in the order of the names registered
      before it, followed by the name it inserted. */
  lemma SessionKeepsOrder(s: ChatState, h: Handle, hello: Hello, requests: seq<Request>,
                          downs: seq<set<Handle>>, voicePort: int)
    requires |downs| == |requests| + 3
    ensures var r := Session(s, h, hello, requests, downs, voicePort);
      KeepsOrder(r.0.names, s.names + (if r.1.Some? then [r.1.value] else []))
  {
    var reg := Register(s, h, hello, downs[0], voicePort);
    RegisterEffect(s, h, hello, downs[0], voicePort);
    var r := Session(s, h, hello, requests, downs, voicePort);
    if reg.ok {
      var u := hello.username.value;
      var admitted := Admit(reg.next, u, h, downs[1], voicePort);
      AdmitKeepsOrder(reg.next, u, h, downs[1], voicePort);
      var served := if admitted.ok then Serving(admitted.next, u, h, requests, downs[2..|requests| + 2])
                    else admitted.next;
      if admitted.ok {
        ServingKeepsOrder(admitted.next, u, h, requests, downs[2..|requests| + 2]);
        KeepsOrderTransitive(served.names, admitted.next.names, reg.next.names);
      }
      DepartKeepsOrder(served, u, downs[|requests| + 2]);
      KeepsOrderTransitive(r.0.names, served.names, reg.next.names);
    } else {
      assert r.0.names == s.names && s.names + [] == s.names;
      KeepsOrderItself(s.names);
    }
  }

  /** A request after which the requester's own name is gone ends the
      handler: only a broadcast unregisters a name, and that broadcast closed
      the requester's connection, so nothing later in the loop is read. */
  lemma EvictionEndsServing(s: ChatState, user: string, h: Handle, requests: seq<Request>,
                            downs: seq<set<Handle>>)
    requires Valid(s) && user in s.clients && s.clients[user] == h
    requires requests != [] && |downs| == |requests|
    ensures var o := Dispatch(s, user, h, requests[0], downs[0]);
      user !in o.next.clients ==> !o.ok && Serving(s, user, h, requests, downs) == o.next
  {
    var req, down := requests[0], downs[0];
    assert s.clients[user] in s.clients.Values;
    match req
    case Message(content) =>
      BroadcastEffect(s, Note(user, content.GetOr(""), "message"), None, down);
    case File(name, size, content) =>
      if Given(name) && GivenSize(size) && Given(content) {
        BroadcastEffect(s, FileReceive(user, name.value, size.value, content.value, None), None, down);
      }
    case Image(name, content) =>
      if Given(name) && Given(content) {
        BroadcastEffect(s, ImageReceive(user, name.value, content.value, None), None, down);
      }
    case _ =>
      DispatchQuiet(s, user, h, req, down);
  }

  /** Alice's connection fails while her message is broadcast: she is
      evicted, her connection is closed, and her next message is never
      read, so Bob hears only the first one. */
  lemma ScenarioEvictedSender(s: ChatState, alice: string, bob: string, ha: Handle, hb: Handle,
                              a: string, b: string)
    requires Valid(s) && alice in s.clients && bob in s.clients && alice != bob
    requires s.clients[alice] == ha && s.clients[bob] == hb && !IsBlank(a) && !IsBlank(b)
    ensures var r := Serving(s, alice, ha, [Message(Some(a)), Message(Some(b))], [{ha}, {}]);
      && alice !in r.clients && bob in r.clients
      && Sent(r.outbox, hb) == Sent(s.outbox, hb) + [Note(alice, a, "message")]
  {
    StripEmptyIffBlank(a);
    BroadcastEffect(s, Note(alice, a, "message"), None, {ha});
    EvictionEndsServing(s, alice, ha, [Message(Some(a)), Message(Some(b))], [{ha}, {}]);
  }
}

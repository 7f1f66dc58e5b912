/** The chat server's registry and what each step of a chat connection does
    to it, as pure transitions. The registry is a dictionary, so besides the
    name -> connection map the model keeps its keys in insertion order: that
    order is what the online-user list reports and what a broadcast walks.
    A send to a connection in `down` fails; every other send succeeds and is
    appended to that connection's outbox. */
module ChatSpec {
  import opened Mailbox
  import opened PyText

  /** What the server writes to chat connections, one constructor per JSON
      object shape it builds. */
  datatype ChatMsg =
    | ErrorReply(message: string)                              // status "error"
    | Connected(message: string, voicePort: int)               // status "success", type "connect"
    | Note(sender: string, message: string, kind: string)      // sender / message / type
    | SystemWelcome(message: string, voicePort: int)           // type "system"
    | UserList(message: string, users: seq<string>)            // type "users"
    | HeartbeatAck
    | FileReceive(sender: string, fileName: string, fileSize: int, fileContent: string,
                  target: Option<string>)                     // target: the private copy's addressee
    | ImageReceive(sender: string, imageName: string, imageContent: string,
                   target: Option<string>)
    | VoiceStatusNotice(sender: string, status: string, addressee: string)   // JSON key "target"

  /** A decoded chat request; a missing key is `None`. */
  datatype Request =
    | Message(content: Option<string>)
    | Private(target: Option<string>, content: Option<string>)
    | Command(command: Option<string>)
    | Heartbeat
    | File(fileName: Option<string>, fileSize: Option<int>, fileContent: Option<string>)
    | Image(imageName: Option<string>, imageContent: Option<string>)
    | PrivateImage(target: Option<string>, imageName: Option<string>, imageContent: Option<string>)
    | PrivateFile(target: Option<string>, fileName: Option<string>, fileSize: Option<int>,
                  fileContent: Option<string>)
    | VoiceStatus(target: Option<string>, status: Option<string>)
    | Unhandled   // any other `type`: ignored

  /** The first message of a connection: nothing (closed, or an empty object)
      or an object with an optional `username`. */
  datatype Hello = NoHello | Hello(username: Option<string>)

  datatype ChatState = ChatState(
    names: seq<string>,               // the registry's keys in insertion order
    clients: map<string, Handle>,     // name -> chat connection
    outbox: Outboxes<ChatMsg>)

  /** The result of a step: the new state and a flag (registration: the name
      was inserted; later steps: the handler goes on reading). */
  datatype Outcome = Outcome(next: ChatState, ok: bool)

  const SystemSender: string := "系统"
  const EmptyNameError: string := "用户名不能为空"
  const TakenNameError: string := "用户名已存在"

  function ConnectedText(user: string): string { "欢迎 " + user + " 加入聊天室" }
  function JoinedText(user: string): string { user + " 加入了聊天室" }
  function LeftText(user: string): string { user + " 离开了聊天室" }
  function WelcomeText(online: nat): string { "欢迎加入聊天室！当前在线用户数: " + Decimal(online) }
  const UsersHeading: string := "在线用户: "
  function UsersText(users: seq<string>): string { UsersHeading + JoinWith(users, Comma) }
  function PrivateText(user: string, content: string): string { user + " (私聊): " + content }
  function FileSentText(target: string, fileName: string): string { "[私聊给 " + target + "] 发送文件: " + fileName }
  function ImageSentText(target: string, imageName: string): string { "[私聊给 " + target + "] 发送图片: " + imageName }

  /** The text confirmed to the sender of a private message: the part of the
      message after its first `": "` and before the next one, or the whole
      message when it has none. */
  function Confirmation(target: string, message: string): string {
    "[私聊给 " + target + "] " + (if IndexOf(message, Colon).Some? then SecondField(message) else message)
  }

  /** Python truthiness of an optional string or number field. */
  predicate Given(x: Option<string>) { x.Some? && x.value != "" }
  predicate GivenSize(x: Option<int>) { x.Some? && x.value != 0 }

  ghost predicate Distinct<T>(xs: seq<T>) {
    forall i, j :: 0 <= i < j < |xs| ==> xs[i] != xs[j]
  }

  /** Every state the server reaches: the order lists each registered name
      once, and no two names share a connection. */
  ghost predicate Valid(s: ChatState) {
    && Injective(s.clients)
    && Distinct(s.names)
    && (forall u :: u in s.names <==> u in s.clients)
  }

  const Initial: ChatState := ChatState([], map[], map[])

  // ---------------------------------------------------------------------
  // The registry's order

  /** `xs` with `x` taken out, as deleting a key does to the dictionary's
      order. */
  function Without(xs: seq<string>, x: string): seq<string> {
    if xs == [] then []
    else (if xs[0] == x then [] else [xs[0]]) + Without(xs[1..], x)
  }

  /** A broadcast leaves `u` registered unless a send to it failed. */
  predicate Keeps(clients: map<string, Handle>, exclude: Option<string>, down: set<Handle>, u: string) {
    exclude == Some(u) || u !in clients || clients[u] !in down
  }

  /** The names of `order` that a broadcast keeps, in the same order. */
  function Kept(order: seq<string>, clients: map<string, Handle>, exclude: Option<string>,
                down: set<Handle>): seq<string>
  {
    if order == [] then []
    else
      var last := order[|order| - 1];
      Kept(order[..|order| - 1], clients, exclude, down) + (if Keeps(clients, exclude, down, last) then [last] else [])
  }

  // ---------------------------------------------------------------------
  // Sending

  /** One send on a connection; a failed send has no effect. */
  function Reply(s: ChatState, h: Handle, m: ChatMsg, down: set<Handle>): Outcome {
    if h in down then Outcome(s, false)
    else Outcome(s.(outbox := Deliver(s.outbox, h, m)), true)
  }

  /** A send to a registered name whose failure is swallowed. */
  function Notify(s: ChatState, u: string, m: ChatMsg, down: set<Handle>): ChatState {
    if u in s.clients && s.clients[u] !in down then s.(outbox := Deliver(s.outbox, s.clients[u], m))
    else s
  }

  /** The names among `among` a broadcast writes to: registered, not the
      excluded name, and on a working connection. */
  function Addressees(among: set<string>, clients: map<string, Handle>, exclude: Option<string>,
                      down: set<Handle>): set<string> {
    set u | u in among && u in clients && exclude != Some(u) && clients[u] !in down
  }

  /** `broadcast` (with `exclude`) and `broadcast_raw` (with `None`): every
      registered name but `exclude` is sent `m`, and a name whose send fails
      is unregistered. */
  function Broadcast(s: ChatState, m: ChatMsg, exclude: Option<string>, down: set<Handle>): ChatState {
    ChatState(
      Kept(s.names, s.clients, exclude, down),
      map u | u in s.clients && Keeps(s.clients, exclude, down, u) :: s.clients[u],
      DeliverAll(s.outbox, HandlesOf(s.clients, Addressees(s.clients.Keys, s.clients, exclude, down)), m))
  }

  /** `send_private`: the message to the target, then the confirmation to
      the sender, each only if registered. */
  function SendPrivate(s: ChatState, target: string, message: string, sender: string,
                       down: set<Handle>): ChatState {
    var delivered := Notify(s, target, Note(sender, message, "private"), down);
    Notify(delivered, sender, Note(SystemSender, Confirmation(target, message), "private_sent"), down)
  }

  // ---------------------------------------------------------------------
  // A connection's life

  /** Registration on connection `h`. The reply is written before the name
      is inserted, so a connection whose reply fails is not registered. */
  function Register(s: ChatState, h: Handle, hello: Hello, down: set<Handle>, voicePort: int): Outcome {
    match hello
    case NoHello => Outcome(s, false)
    case Hello(name) =>
      if !Given(name) then Outcome(Reply(s, h, ErrorReply(EmptyNameError), down).next, false)
      else if name.value in s.clients then Outcome(Reply(s, h, ErrorReply(TakenNameError), down).next, false)
      else if h in down then Outcome(s, false)
      else
        var u := name.value;
        Outcome(ChatState(s.names + [u], s.clients[u := h],
                          Deliver(s.outbox, h, Connected(ConnectedText(u), voicePort))), true)
  }

  /** What follows a successful registration: the others hear of the new
      name, then the newcomer is welcomed with the current head count. */
  function Admit(s: ChatState, user: string, h: Handle, down: set<Handle>, voicePort: int): Outcome {
    var announced := Broadcast(s, Note(SystemSender, JoinedText(user), "broadcast"), Some(user), down);
    Reply(announced, h, SystemWelcome(WelcomeText(|announced.clients|), voicePort), down)
  }

  /** A broadcast to everyone closes connection `h` when `h` is registered and
      its write fails; the handler's next read on it then raises. */
  predicate ClosedByBroadcast(s: ChatState, h: Handle, down: set<Handle>) {
    h in down && h in s.clients.Values
  }

  /** One request from `user` on connection `h`. The handler goes on unless
      a reply on `h` failed or a broadcast closed `h`. */
  function Dispatch(s: ChatState, user: string, h: Handle, req: Request, down: set<Handle>): Outcome {
    match req
    case Message(content) =>
      var text := content.GetOr("");
      if Strip(text) != "" then
        Outcome(Broadcast(s, Note(user, text, "message"), None, down), !ClosedByBroadcast(s, h, down))
      else Outcome(s, true)
    case Private(target, content) =>
      var text := content.GetOr("");
      if Given(target) && Strip(text) != "" then
        Outcome(SendPrivate(s, target.value, PrivateText(user, text), user, down), true)
      else Outcome(s, true)
    case Command(command) =>
      if command == Some("users") then Reply(s, h, UserList(UsersText(s.names), s.names), down)
      else Outcome(s, true)
    case Heartbeat => Reply(s, h, HeartbeatAck, down)
    case File(name, size, content) =>
      if Given(name) && GivenSize(size) && Given(content) then
        Outcome(Broadcast(s, FileReceive(user, name.value, size.value, content.value, None), None, down),
                !ClosedByBroadcast(s, h, down))
      else Outcome(s, true)
    case Image(name, content) =>
      if Given(name) && Given(content) then
        Outcome(Broadcast(s, ImageReceive(user, name.value, content.value, None), None, down),
                !ClosedByBroadcast(s, h, down))
      else Outcome(s, true)
    case PrivateImage(target, name, content) =>
      if Given(target) && Given(name) && Given(content) then
        var sent := Notify(s, target.value, ImageReceive(user, name.value, content.value, target), down);
        Outcome(Notify(sent, user, Note(SystemSender, ImageSentText(target.value, name.value), "private_sent"), down), true)
      else Outcome(s, true)
    case PrivateFile(target, name, size, content) =>
      if Given(target) && Given(name) && GivenSize(size) && Given(content) then
        var sent := Notify(s, target.value, FileReceive(user, name.value, size.value, content.value, target), down);
        Outcome(Notify(sent, user, Note(SystemSender, FileSentText(target.value, name.value), "private_sent"), down), true)
      else Outcome(s, true)
    case VoiceStatus(target, status) =>
      if Given(target) && Given(status) then
        Outcome(Notify(s, target.value, VoiceStatusNotice(user, status.value, target.value), down), true)
      else Outcome(s, true)
    case Unhandled => Outcome(s, true)
  }

  /** The `finally` block of a connection that registered `user`: the name is
      deleted if present, whichever connection it belongs to by then, and
      the others hear of it. */
  function Depart(s: ChatState, user: string, down: set<Handle>): ChatState {
    var removed := if user in s.clients then s.(names := Without(s.names, user), clients := s.clients - {user}) else s;
    Broadcast(removed, Note(SystemSender, LeftText(user), "broadcast"), Some(user), down)
  }

  // ---------------------------------------------------------------------
  // A whole connection

  /** The request loop: each request is handled in turn, with its own set of
      failing connections, until one ends the handler or none are left. */
  function Serving(s: ChatState, user: string, h: Handle, requests: seq<Request>,
                   downs: seq<set<Handle>>): ChatState
    requires |downs| == |requests|
    decreases |requests|
  {
    if requests == [] then s
    else
      var o := Dispatch(s, user, h, requests[0], downs[0]);
      if o.ok then Serving(o.next, user, h, requests[1..], downs[1..]) else o.next
  }

  /** One chat connection from its first message to its end: registration,
      then (if the name was inserted) announcement and welcome, the requests
      while the handler lives, and the teardown. Each step `k` sees its own
      set `downs[k]` of failing connections: registration, admission, one per
      request, then teardown. The result holds the final state and the name
      this connection inserted, if any. */
  function Session(s: ChatState, h: Handle, hello: Hello, requests: seq<Request>,
                   downs: seq<set<Handle>>, voicePort: int): (ChatState, Option<string>)
    requires |downs| == |requests| + 3
  {
    var reg := Register(s, h, hello, downs[0], voicePort);
    if reg.ok && hello.Hello? && hello.username.Some? then
      var u := hello.username.value;
      var admitted := Admit(reg.next, u, h, downs[1], voicePort);
      var served := if admitted.ok then Serving(admitted.next, u, h, requests, downs[2..|requests| + 2])
                    else admitted.next;
      (Depart(served, u, downs[|requests| + 2]), Some(u))
    else (reg.next, None)
  }
}

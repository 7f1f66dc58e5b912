# Chat and voice relay server: a Dafny model

This project models the relay hub in `server_tcp.py`. The hub has two servers.

The **voice server** accepts voice-control connections. Each connection starts with a handshake frame carrying the peer's name. After that it carries commands, each framed as a 4-byte big-endian length followed by that many bytes. The server keeps three tables under one lock:
- registered names and their connections;
- room memberships;
- directed call edges (caller to callee).

Its handlers join and leave rooms and run the call protocol (start, accept, reject, end). They also fan audio frames out to a room or to a call partner. When a connection ends, a cleanup block removes every trace of its name.

The **chat server** keeps a registry from names to chat connections. It registers a name (rejecting empty and taken names) and announces newcomers. It routes chat messages, private messages, files, images and voice-status notices. It evicts a name whose socket fails during a broadcast, and announces departures.

The model is split into these modules:

| module | what it holds |
|---|---|
| `Framing` | The length-prefixed framing codec and the two receive loops over a socket. Data a socket delivers in chunks is modelled as a `Stream` value. |
| `VoiceSpec`, `ChatSpec` | The servers' state as datatypes, and each handler's effect as a pure transition function. |
| `Voice.VoiceServer`, `Chat.ChatServer` | Classes with the source's own fields, updated in place. Every handler is a method proved to perform its transition. The `for` loops of the audio relay, the voice cleanup and the chat broadcast are `while` loops with invariants. |
| `VoiceProperties`, `ChatProperties` | Lemmas stating what the transitions promise: who receives which envelope, which tables change, and that every step keeps the state well formed. |

A few conventions apply throughout:
- **Outboxes.** What the server writes to a connection is recorded in a per-connection outbox.
- **Failed chat writes.** A chat write fails exactly when the connection is in the parameter `down`. Each step of a connection takes its own `down`, so a connection can start failing between one step and the next. A broadcast closes every connection whose write fails. When that is the requesting connection itself, its handler ends, because its next read raises.
- **Python exceptions.** An exception that ends a connection's handler appears as a `false` "alive" result. Examples: a `KeyError` in `reject_call`, a second `del` in `end_call` on a self edge, and a short header.
- **Dictionary order.** The chat registry's insertion order is kept as a sequence beside the map, because `list(self.clients.keys())` reports it and broadcasts walk it.

## Model

| member | source | states |
|---|---|---|
| Framing.EncodeFrame | server_tcp.py:34-45 | A frame exists exactly when the payload length fits in four bytes. It is four header bytes followed by the payload unchanged. |
| Framing.DecodeEncodeBE32 | server_tcp.py:41 | Unpacking a packed 4-byte big-endian length gives back the length. |
| Framing.EncodeDecodeBE32 | server_tcp.py:111 | Packing an unpacked 4-byte header gives back the same four bytes. |
| Framing.ParseFrame | server_tcp.py:111-124 | A frame is complete when the announced number of bytes is there, and the bytes split into header, payload and rest. Otherwise it is incomplete: fewer bytes than announced, and nothing left. |
| Framing.ParseEncodedFrame | server_tcp.py:34-45 | Round trip: an encoded frame followed by any bytes parses to exactly its payload and leaves those bytes unread. |
| Framing.ParseTruncatedFrame | server_tcp.py:113-124 | A frame cut after k payload bytes parses as incomplete with exactly those k bytes. |
| Framing.Recv | server_tcp.py:117 | One receive returns at most the requested count, taken from the first arrived chunk, with no bytes lost or reordered. It returns nothing only when the peer has closed. |
| Framing.ReadExact | server_tcp.py:114-120 | The receive loop collects min(n, available) bytes: the stream's prefix, never a byte beyond the frame. |
| Framing.ReadFrame | server_tcp.py:105-124 | A closed stream, a short header, or the reading that `ParseFrame` gives for the stream's bytes. Every reading except "closed" consumes input. |
| PyText.Strip | server_tcp.py:95 | `str.strip()` leaves no Python whitespace at either end. |
| PyText.StripEmptyIffBlank | server_tcp.py:421 | `content.strip()` is empty exactly when the content is whitespace only. |
| PyText.IndexFrom | server_tcp.py:631 | The `": "` search finds the first occurrence at or after a position, or reports there is none. |
| PyText.SecondFieldIsSeparatorFree | server_tcp.py:631 | `split(": ")[1]` starts right after the first separator and runs to the next separator, or to the end when there is none. It holds no separator. |
| PyText.Decimal | server_tcp.py:405 | `str(n)` is a nonempty string of digits with no leading zero. |
| PyText.DecimalRoundTrip | server_tcp.py:405 | Reading back the digits of `str(n)` gives n. |
| PyText.JoinThenSplit | server_tcp.py:444 | `", ".join` of a nonempty list of names, none holding `", "`, splits back on `", "` into the same names in the same order. |
| VoiceProperties.JoinAddsMember | server_tcp.py:129-135 | A join creates the room on demand ("public" by default) and adds the name. Nothing else changes. |
| VoiceProperties.JoinIsIdempotent | server_tcp.py:129-135 | Joining twice is joining once. |
| VoiceProperties.LeaveRemovesMember | server_tcp.py:139-146 | A leave removes the name from that room only, deletes a room it empties, and is a no-op for a non-member. |
| VoiceProperties.LeaveUndoesJoin | server_tcp.py:129-146 | Leaving right after joining a room one was not in restores the room table exactly. |
| VoiceProperties.StartCallEffect | server_tcp.py:150-162 | Calling a registered name sets the caller's edge and rings the callee's connection only. Calling an unregistered name changes nothing. |
| VoiceProperties.AcceptEffect | server_tcp.py:164-184 | An accept takes effect exactly when the caller's edge points at the acceptor: the reverse edge is added and the registered caller is told. Otherwise it changes nothing. |
| VoiceProperties.RejectEffect | server_tcp.py:186-198 | A reject takes effect under the same condition: the caller's edge is dropped and the caller is told. An unregistered caller makes the handler end. |
| VoiceProperties.EndCallEffect | server_tcp.py:200-225 | Ending drops both the user's and the partner's edges and sends `call_ended` to each of them that is registered. Other edges and outboxes are untouched, and no edge is added. On a self edge the second `del` raises: the edge is gone, nothing is sent and the handler ends. |
| VoiceProperties.EndCallDropsPartnersOtherEdge | server_tcp.py:203-208 | The partner's edge is dropped whatever it points to, so a third peer's pending call vanishes silently. |
| VoiceProperties.AudioRecipientsAre | server_tcp.py:238-252 | A frame goes to a registered member of the named room, or else to the call partner, never to the sender. |
| VoiceProperties.AudioDelivery | server_tcp.py:250-266 | Each recipient's connection gets exactly one copy of the frame. Every other connection, the sender's included, gets nothing. No table changes. |
| VoiceProperties.TeardownRemovesEveryTrace | server_tcp.py:273-297 | After cleanup the name is unregistered, in no room, and on neither end of an edge. Exactly the rooms it was alone in are gone. Every other membership and edge is kept, nothing is added, and the state stays valid. |
| VoiceProperties.AudioWithoutPayloadEnds | server_tcp.py:229-231 | An `audio_data` command without its audio field raises at `len`: nothing is forwarded and the connection ends. |
| VoiceProperties.TeardownNotifiesPartner | server_tcp.py:284-293 | Only the partner of the name's own edge is told `call_ended`, and only if it is registered under another name. |
| VoiceProperties.RegisterKeepsValid | server_tcp.py:97-98 | Registering a new connection keeps names and connections one-to-one. |
| VoiceProperties.StepKeepsValid | server_tcp.py:129-266 | Every command keeps the voice state valid. |
| VoiceProperties.ScenarioPrivateCall | server_tcp.py:150-266 | Alice calls Bob and Bob accepts. Each is told, and Alice's frame without a room id reaches Bob only. |
| VoiceProperties.ScenarioRoom | server_tcp.py:227-266 | A frame addressed to "public" reaches its members even from a non-member. A member's own frame does not come back to it. |
| VoiceProperties.ScenarioDisconnectMidCall | server_tcp.py:273-297 | Alice disconnects mid-call: Bob is told, both edges go, and Bob's later call to Alice changes nothing. |
| VoiceProperties.MembershipCanOutliveRegistration | server_tcp.py:273-283 | A second connection under the same name unregisters it on close, while the first can still join a room. |
| Voice.VoiceServer.constructor | server_tcp.py:21-24 | The three tables start empty. |
| Voice.VoiceServer.Send | server_tcp.py:34-49 | One envelope is appended to one connection's outbox. |
| Voice.VoiceServer.Register | server_tcp.py:95-98 | The handshake binds the name to the new connection and keeps the state valid. |
| Voice.VoiceServer.JoinRoom | server_tcp.py:129-135 | Performs `Join` in place. |
| Voice.VoiceServer.LeaveRoom | server_tcp.py:139-146 | Performs `Leave` in place. |
| Voice.VoiceServer.StartPrivateCall | server_tcp.py:150-162 | Performs `StartCall` in place. |
| Voice.VoiceServer.AcceptCall | server_tcp.py:164-184 | Performs `Accept` in place. |
| Voice.VoiceServer.RejectCall | server_tcp.py:186-198 | Performs `Reject` in place, including the raise on an unregistered caller. |
| Voice.VoiceServer.EndCall | server_tcp.py:200-225 | Performs `End` in place, including the raise on a self edge. |
| Voice.VoiceServer.Targets | server_tcp.py:238-248 | Collects the room's members or the call partner, as `AudioTargets` says. |
| Voice.VoiceServer.Forward | server_tcp.py:250-266 | The forwarding loop writes the frame once to each registered target other than the sender. |
| Voice.VoiceServer.RelayAudio | server_tcp.py:227-266 | Performs `Audio` in place. |
| Voice.VoiceServer.LeaveEveryRoom | server_tcp.py:278-283 | The loop over a snapshot of room ids leaves the table as `RemoveFromRooms` gives it. |
| Voice.VoiceServer.DropEdgesTo | server_tcp.py:294-297 | The loop over a snapshot of edges drops exactly the edges pointing at the name. |
| Voice.VoiceServer.Cleanup | server_tcp.py:273-297 | Performs `Teardown` in place and keeps the state valid. |
| Voice.VoiceServer.Dispatch | server_tcp.py:126-266 | One decoded command performs `Step`. |
| Voice.VoiceServer.Serve | server_tcp.py:69-304 | Registers the handshake name, or changes nothing when the handshake fails. Afterwards the name is in no table. |
| ChatProperties.KeptMembers | server_tcp.py:597-606 | A broadcast keeps exactly the names it does not evict. |
| ChatProperties.WithoutMembers | server_tcp.py:583-584 | Deleting a key keeps every other name. |
| ChatProperties.KeptDistinct | server_tcp.py:597-606 | Eviction keeps the key order free of repeats. |
| ChatProperties.WithoutDistinct | server_tcp.py:583-584 | Deletion keeps the key order free of repeats. |
| ChatProperties.BroadcastKeepsValid | server_tcp.py:588-606 | A broadcast keeps the registry well formed. |
| ChatProperties.BroadcastEffect | server_tcp.py:588-606 | Every registered name but the excluded one gets the message once if its socket works. It is evicted unsent if the socket fails. Nobody else is touched. |
| ChatProperties.SendPrivateEffect | server_tcp.py:621-646 | The target gets the message and the sender the confirmation, each only if registered on a working socket. Nothing else changes. |
| ChatProperties.FirstSeparatorAfterName | server_tcp.py:433-437 | In `"<user> (私聊): <content>"` the first `": "` is the server's own, when the name has none and does not end in a colon. |
| ChatProperties.ConfirmationQuotesContent | server_tcp.py:629-633 | Content without `": "` is confirmed whole. |
| ChatProperties.ConfirmationTruncates | server_tcp.py:629-633 | Content `a: b` is confirmed as `a` only. |
| ChatProperties.RegisterEffect | server_tcp.py:365-397 | Registration answers an empty name, a taken name, or a welcome, and inserts exactly when the name is new and the reply is written. No other connection is written. |
| ChatProperties.RegisterKeepsValid | server_tcp.py:376-397 | Registering on a fresh connection keeps the registry well formed. |
| ChatProperties.AdmitEffect | server_tcp.py:399-409 | Everyone else on a working socket hears of the newcomer, who then gets the head count taken after the announcement. |
| ChatProperties.DepartEffect | server_tcp.py:580-585 | After teardown the name is gone from the registry, which stays well formed, and every other working name is told. |
| ChatProperties.DepartRemovesNewcomer | server_tcp.py:580-606 | A connection whose name was evicted and re-registered deletes the newcomer's entry when it ends. |
| ChatProperties.UsersInJoinOrder | server_tcp.py:648-651 | Two names registered one after the other into an empty registry are listed in that order. |
| ChatProperties.KeptKeepsOrder | server_tcp.py:597-606 | Eviction during a broadcast keeps the remaining names in their earlier relative order. |
| ChatProperties.WithoutKeepsOrder | server_tcp.py:583-584 | Deleting a key keeps the remaining names in their earlier relative order. |
| ChatProperties.BroadcastKeepsOrder | server_tcp.py:588-619 | A broadcast never reorders the registry. |
| ChatProperties.DispatchKeepsOrder | server_tcp.py:412-574 | No request reorders the registry. |
| ChatProperties.AdmitKeepsOrder | server_tcp.py:399-409 | Announcing a newcomer never reorders the registry. |
| ChatProperties.DepartKeepsOrder | server_tcp.py:580-585 | A departure never reorders the remaining names. |
| ChatProperties.BlankMessageIgnored | server_tcp.py:419-427 | A whitespace-only message changes nothing. |
| ChatProperties.MessageReachesSender | server_tcp.py:419-427 | A chat message also reaches its own sender. |
| ChatProperties.UsersReplyListsRegistry | server_tcp.py:439-448 | The `users` reply lists every registered name exactly once. |
| ChatProperties.UsersTextSplitsIntoNames | server_tcp.py:439-448 | The `users` reply text is its heading followed by the names. Splitting the rest on `", "` gives back exactly the listed names, in order, when no name holds the separator. |
| ChatProperties.DistinctCardinality | server_tcp.py:648-651 | A repeat-free key order is as long as the registry. |
| ChatProperties.HeartbeatEffect | server_tcp.py:450-452 | A heartbeat is acknowledged on the requester's own connection only. The handler ends when that write fails. |
| ChatProperties.PrivateImageEffect | server_tcp.py:484-517 | A complete private image goes to the target, marked with its addressee, and the `private_sent` confirmation goes to the sender. Each is sent only to a name registered on a working connection. Nobody else is written to, and an incomplete request changes nothing. |
| ChatProperties.PrivateFileEffect | server_tcp.py:519-554 | The same for a private file, which also needs a nonzero size. |
| ChatProperties.VoiceStatusEffect | server_tcp.py:556-574 | A complete voice-status notice reaches its target, if registered on a working connection, and nobody else. |
| ChatProperties.DispatchKeepsValid | server_tcp.py:412-574 | No request adds or rebinds a name, and every request keeps the registry well formed. |
| ChatProperties.DispatchBroadcasting | server_tcp.py:419-482 | The same, for messages, files and images. |
| ChatProperties.DispatchQuiet | server_tcp.py:429-574 | Every other request leaves the registry unchanged. |
| ChatProperties.EvictionEndsServing | server_tcp.py:412-482 | A request after which the requester's own name is gone ends the handler: the broadcast that evicted it closed its connection, so no later request is read or served. |
| ChatProperties.ScenarioEvictedSender | server_tcp.py:412-427 | Alice's connection fails during her own message: she is evicted, and her next message is never read, so Bob hears only the first. |
| ChatProperties.ServingKeepsValid | server_tcp.py:412-578 | The request loop, stopping at the first request whose handler ends, keeps the registry well formed and never adds or rebinds a name. |
| ChatProperties.ServingKeepsOrder | server_tcp.py:412-578 | The request loop never reorders the registry. |
| ChatProperties.SessionEffect | server_tcp.py:358-586 | A connection inserts a name exactly when its registration succeeds, and that name was free. However the connection ends (its own write failing, eviction by a broadcast, the peer closing), the name is gone from the registry at the end and the registry is well formed. A failed registration leaves only the registration's effect. |
| ChatProperties.SessionKeepsOrder | server_tcp.py:358-586 | Over a whole connection the user list keeps registration order: the names left at the end appear in the order of those registered before, then the connection's own name. |
| Chat.ChatServer.constructor | server_tcp.py:307-314 | The registry starts empty and the voice port is kept. |
| Chat.ChatServer.Write | server_tcp.py:390 | A write succeeds exactly on a working socket and then appends the message. |
| Chat.ChatServer.WriteTo | server_tcp.py:506-517 | A guarded write to a registered name with its failure swallowed performs `Notify`. |
| Chat.ChatServer.Fanout | server_tcp.py:596-606 | The loop over a snapshot performs `Broadcast` and keeps the registry valid. |
| Chat.ChatServer.Visit | server_tcp.py:598-606 | One turn of that loop advances it by one name of the snapshot. |
| Chat.ChatServer.Unregister | server_tcp.py:606 | `del` removes the name from the map and from the key order. |
| Chat.ChatServer.BroadcastNote | server_tcp.py:588-606 | `broadcast` performs `Broadcast` of a note. |
| Chat.ChatServer.BroadcastRaw | server_tcp.py:608-619 | `broadcast_raw` performs `Broadcast` with nobody excluded. |
| Chat.ChatServer.SendPrivate | server_tcp.py:621-646 | Performs `SendPrivate` in place. |
| Chat.ChatServer.GetOnlineUsers | server_tcp.py:648-651 | Returns the registered names in key order, each exactly once. |
| Chat.ChatServer.Register | server_tcp.py:363-397 | Performs `Register` in place. |
| Chat.ChatServer.Admit | server_tcp.py:399-409 | Performs `Admit` in place. |
| Chat.ChatServer.Dispatch | server_tcp.py:412-574 | One request performs `Dispatch`. |
| Chat.ChatServer.Depart | server_tcp.py:580-585 | Performs `Depart` in place. |
| Chat.ChatServer.Serve | server_tcp.py:358-586 | Performs `Session`: registration, then admission, then the requests until the handler ends or none are left, then teardown. Each step has its own set of failing connections. The final state and the inserted name are exactly the function's. |

### Where the code is looser than its names suggest

The model follows the code in each case below.

- **Calls.**
  - `start_private_call` checks only that the callee is registered. A self-call and a call to a busy peer are accepted, and a caller's earlier edge is overwritten.
  - `end_call` deletes the partner's edge whatever it points to.
  - Teardown notifies only the partner of the departing name's own edge, not the callers whose edges pointed at it.
- **Audio.** A room frame reaches the room's members even when its sender is not a member.
- **Voice registration.** It overwrites an earlier binding of the same name. A room membership can outlive the name's registration.
- **User list.** It is in registration order, not sorted.
- **Chat requests.** There is no handler for a `disconnect` request; it is ignored like any unknown type.
- **Chat teardown.** It deletes by name, so a connection whose name was evicted and re-registered removes the newcomer's entry.
- **Liveness.** There is no heartbeat-driven eviction. Another name is evicted only when a write to it fails; a handler notices its own dead socket also on its next read.

## Left out

- **Serialisation.** Pickle and JSON encoding and decoding are not modelled; messages are datatypes. `receive_complete_message` is not modelled either; a chat connection is given its decoded hello and request sequence.
- **Concurrency.** Threads, the two accept loops and the locks are not modelled. Each method is one step under the lock, and `Serve` runs one connection with no other connection interleaved.
- **Socket bookkeeping.** Peer addresses, logging, the audio constants (`CHUNK`, `RATE`, ...) and the command-line entry point are not modelled.
- **Clients.** `client_tcp.py` and `start_multiple_clients.py` are not part of this model.
- **Request fields.** Fields are modelled as strings (and `file_size` as an integer, voice audio as bytes) or absent. A missing voice audio field is modelled: its `len` raises and the connection ends. A JSON `null` or a value of another type, which can make `.strip()`, `len` or `.get` raise, is not modelled. A `room_id` key present with value `None` is treated as absent.
- **Framing.EncodeFrame:** a payload of 2^32 bytes or more is a failed encoding. The source's `struct.error` escaping `send_with_length_prefix` is not modelled.
- **Voice.VoiceServer.Serve:** states registration, the unchanged state on a failed handshake, and the name's removal from every table at the end, not the full final state. Each command it performs is proved separately through `Dispatch`.
- **Voice send failures.** A failed voice write is recorded in the outbox like a successful one. The source only logs the failure and changes no table, so the outbox stands for attempted writes.

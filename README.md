# Chat relay server: client registry and broadcast

This project models the server of a small threaded TCP chat relay
(`hilo_server.py`). It covers the registry of connected clients and the
operations that change it or read it.

The registry `client_dic` is a Python dict. Its key for a client is the
peer address tuple `(host, port)` until the client sends its user name,
and the user name after that. Its value is a record holding the
client's socket and the log of messages received from it. The modelled
operations are:

- accepting a connection, which inserts an address-keyed record;
- registration (`user_client`), which moves the record from the address
  key to the name key;
- `delete_client`;
- `broadcast_message`, which sends a message to every other entry in
  iteration order;
- one session of `com_client`: the acknowledgement, the registration,
  then the receive / log / broadcast loop until the first failure.

The model has two modules:

- `Dicts` (`dicts.dfy`) models an insertion-ordered Python dict as a
  value: an iteration order (`seq`) and a `map`. It provides `d[k] = v`,
  `d.pop(k)` and the pop-then-assign rename, with the invariant that the
  order lists every key exactly once.
- `ChatServer` (`chat_server.dfy`) holds the entities as datatypes
  (`Key`, `Client`, `Recv`, `Delivery`). The server state is the class
  `Server`: the registry `clients` and the `outbox` of every successful
  send. Each operation of the server is a method on it, proved against
  specification functions:
  - `Accept` against `Assign`, `Register` against `Rename` and `Delete`
    against `Remove`;
  - `Broadcast` and `Visit` against `Fanout` and `FirstBroken`;
  - `HandleMessage` against `AppendLog`, `Remove`, `Fanout`, `FirstBroken`
    and `PeersWork`, which holds when every entry other than the sender's
    has a working socket;
  - `ReceiveOnce` and `ReceiveLoop` against `SameOthers` (every entry
    other than the sender's keeps its presence and value), `PeersWork`,
    `Without` and `Texts` (the texts of the successful receives);
  - `Serve` against `Texts`, with the frame and survival conditions of
    `SameOthers` and `PeersWork` written out over the address and name
    keys.

  `ReceiveOnce`, `ReceiveLoop` and `Serve` do not state their deliveries;
  see "## Left out".

  Lemmas about those functions state what the source promises.

Sockets are opaque ids:

- A `send` appends a `Delivery` to `outbox`. It raises when the socket is
  in the `broken` set the caller passes in.
- A `recv` is a `Recv` value supplied by the caller: the decoded text or
  an exception.

## Behaviour of the code worth noting

The model follows the code as written in each of these cases:

- **Accumulated prefixes.** The docstring of `broadcast_message` says it
  sends the message "prepending the user's name" (`hilo_server.py:48-50`).
  The loop, however, reassigns its `message` parameter on every pass
  (`hilo_server.py:63`). So the `i`-th recipient, counting from 0,
  receives the text prefixed `i + 1` times (`alice: alice: hi` for the
  second recipient).
  - `FanoutFirstOnly`, `FanoutPrefixLengths` and `FanoutTextsDistinct`
    state this.
  - `FanoutExample` shows it on a concrete registry.
- **No end-of-stream detection.** An empty read is logged and broadcast
  like any other message. Only an exception ends the session.
- **Handshake failures leave the address entry.** A failure inside the
  `try` of the receive loop (`hilo_server.py:39-43`) deletes the entry.
  The acknowledgement send (line 23) and `user_client` (line 26) run
  before that `try`, so a failure there leaves the address-keyed entry in
  the registry.
- **A failed send removes the sender.** An exception raised while sending
  to a peer inside `broadcast_message` propagates to the sender's own
  `com_client`. That handler deletes the sender's entry. The broken peer
  is kept, and the peers later in the order receive nothing.
  `HandleMessage` states that a session survives a message exactly when
  every other entry's socket works; `BroadcastCompletes` is the lemma
  behind it: the whole broadcast goes out exactly when those sockets work.
- **Name collisions.** Registering a name that is already present
  overwrites the existing entry in place:
  - its position in the iteration order is kept;
  - the registry shrinks by one (`RenameSize`);
  - the previous record becomes unreachable (`RenameOverwriteOrphans`).

## Model

| member | source | states |
|---|---|---|
| Dicts.Empty | hilo_server.py:5 | the empty registry is well formed, with no keys and an empty iteration order |
| Dicts.SizeIsLength | hilo_server.py:5 | in a well-formed dict the number of entries equals the length of the iteration order |
| Dicts.Without | hilo_server.py:59-61 | the scan with one key skipped contains exactly the other elements; a key that does not occur changes nothing |
| Dicts.WithoutDistinct | hilo_server.py:85 | skipping a key keeps the order free of repetitions and shortens it by one when the key occurs |
| Dicts.WithoutStep | hilo_server.py:59-61 | a left-to-right scan that skips the sender advances by one exactly at positions holding another key, and that key is the next element of the skipped sequence |
| Dicts.Assign | hilo_server.py:152-155 | `d[k] = v` stores `v` under `k` and leaves other keys and their values alone; a new key is appended to the iteration order, an existing key keeps its place; well-formedness is preserved |
| Dicts.Pop | hilo_server.py:109 | `d.pop(k)` returns the stored value, removes only `k`, and keeps the relative order of the other keys; the order shrinks by one |
| Dicts.Remove | hilo_server.py:80-87 | popping a key if present: the key is gone, the other entries and their order are unchanged, and a missing key leaves the dict as it was |
| Dicts.RemoveTwice | hilo_server.py:80-87 | deleting the same user twice has the same effect as deleting once |
| Dicts.Rename | hilo_server.py:109-111 | the value under the old key moves to the new key and the old key is gone; a new key goes to the end of the order; an existing key other than the old one keeps its place and loses its previous value |
| Dicts.RenameSize | hilo_server.py:109-111 | renaming onto a fresh name keeps the number of entries; renaming onto a name already present loses one entry |
| Dicts.RenameOverwriteOrphans | hilo_server.py:111 | when the record under a colliding name is stored nowhere else, it is no longer reachable after the rename |
| Dicts.AddRenameRemove | hilo_server.py:106-113 | an address entry that is added, renamed to a fresh name and then removed leaves the registry exactly as before, iteration order included |
| ChatServer.Prefixed | hilo_server.py:63 | the text `broadcast_message` holds after re-prefixing the message with the user name and `": "` `n` times: never shorter than the message, and once prefixed at least the name and `": "` longer |
| ChatServer.PrefixedShape | hilo_server.py:63 | a prefixed text ends with the original message and, when prefixed at least once, starts with `user + ": "` |
| ChatServer.PrefixedLength | hilo_server.py:63 | each prefixing adds the user name and two characters |
| ChatServer.PrefixedGrows | hilo_server.py:63 | every further prefixing makes the text strictly longer |
| ChatServer.PrefixedDistinct | hilo_server.py:63 | different prefix counts give different texts |
| ChatServer.Deliveries | hilo_server.py:59-65 | one delivery per target key |
| ChatServer.DeliveriesAt | hilo_server.py:59-65 | the `i`-th delivery goes to the `i`-th target on its socket, with `i` more prefixes than the first |
| ChatServer.Fanout | hilo_server.py:59-65 | a complete broadcast makes one delivery per key other than the sender's |
| ChatServer.FanoutIndex | hilo_server.py:59-65 | the `i`-th delivery goes to the `i`-th non-sender key in iteration order, on that key's socket, with the message prefixed `i + 1` times |
| ChatServer.FanoutTargets | hilo_server.py:59-65 | no delivery goes to the sender; every delivery goes to an entry of the registry on that entry's socket |
| ChatServer.FanoutCovers | hilo_server.py:59-61 | every entry other than the sender's, address-keyed ones included, is sent the message |
| ChatServer.FanoutOnce | hilo_server.py:59-61 | no entry is sent the message twice; the number of deliveries is the registry size, minus one when the sender is registered |
| ChatServer.FanoutText | hilo_server.py:63 | the `i`-th recipient's text is the message prefixed `i + 1` times |
| ChatServer.FanoutPrefixLengths | hilo_server.py:63 | the `i`-th recipient's text is exactly `(i + 1) * (len(user) + 2)` characters longer than the message |
| ChatServer.FanoutFirstOnly | hilo_server.py:63 | the singly prefixed `user: message` reaches the first recipient and no other |
| ChatServer.FanoutTextsDiffer | hilo_server.py:63 | two different recipients of one broadcast get different texts |
| ChatServer.FanoutTextsDistinct | hilo_server.py:63 | no two recipients of one broadcast get the same text |
| ChatServer.FanoutExample | hilo_server.py:59-65 | with alice, bob and carol registered in that order, alice's `hi` reaches bob as `alice: hi` and carol as `alice: alice: hi` |
| ChatServer.FanoutAt | hilo_server.py:61-65 | at a position holding another key, the next send goes to that key's socket with one more prefix than the text held so far, and it is the failing send exactly when that socket is broken |
| ChatServer.FanoutDone | hilo_server.py:59-65 | a scan that reaches the end of the order without a failed send has made every delivery |
| ChatServer.FirstBroken | hilo_server.py:65 | the number of sends that succeed before the first send that raises: every earlier socket works and the socket at that position is broken |
| ChatServer.BroadcastCompletes | hilo_server.py:59-65 | a broadcast makes all of its deliveries, so no send raises, exactly when every entry other than the sender's has a working socket |
| ChatServer.AppendLog | hilo_server.py:35 | appending to an entry's message log adds the text at the end and changes nothing else: not the socket, not the other entries, not the iteration order |
| ChatServer.Texts | hilo_server.py:32-35 | the logged texts are at most as many as the receives; when every receive succeeds they are exactly the received texts, one per receive, in order |
| ChatServer.Server.constructor | hilo_server.py:5 | the server starts with an empty, well-formed registry and nothing sent |
| ChatServer.Server.Accept | hilo_server.py:152-155 | the accepted socket is stored with an empty log under the address; a new address goes to the end of the order; all other entries are kept |
| ChatServer.Server.Register | hilo_server.py:106-113 | a missing address or a failed receive leaves the registry unchanged; otherwise the received text becomes the user name and the record moves from the address to that name |
| ChatServer.Server.Delete | hilo_server.py:80-87 | the loop's effect is exactly `Remove` of the name key: that entry is popped if present and nothing else changes |
| ChatServer.Server.Broadcast | hilo_server.py:59-65 | the outbox gains exactly the deliveries of the complete broadcast that come before the first broken socket; the result says whether all of them went out; the registry is unchanged |
| ChatServer.Server.Visit | hilo_server.py:60-65 | one loop pass: skips the sender's key, otherwise sends the text with one more prefix and keeps the outbox equal to a prefix of the complete broadcast, or stops at the first broken socket with nothing sent |
| ChatServer.Server.HandleMessage | hilo_server.py:30-43 | a missing entry or a failed receive deletes the sender and sends nothing; otherwise the text is logged, the broadcast is sent up to the first failing send, and the session survives exactly when every other entry's socket works, the sender being deleted otherwise; no entry other than the sender's changes, and the iteration order is kept or loses only the sender |
| ChatServer.Server.ReceiveOnce | hilo_server.py:30-43 | one pass as the receive loop sees it: the outbox only grows; every other entry keeps its presence and value; the order is kept while the session lasts and loses only the sender when it ends; with a successful receive from a registered sender, the session survives exactly when every other entry's socket works, and then the text is appended to the sender's log on the same socket |
| ChatServer.Server.ReceiveLoop | hilo_server.py:29-43 | the session ends only at a failed receive or send: with no receives it survives; with all receives successful and every other socket working it survives; if it survives every receive succeeded and, after at least one receive, every other socket works; while alive the log grows by exactly the received texts in order on the same socket; once it ends the sender's entry is gone and the order loses only the sender; every other entry keeps its presence and value throughout |
| ChatServer.Server.Serve | hilo_server.py:22-43 | a missing address or broken socket changes nothing; otherwise `Connected` is the first new delivery, and a successful name receive always registers that name; a failed name receive leaves the address entry in place and sends nothing beyond `Connected`; after registration the address key is gone, the iteration order is that of the rename (the name last, or in the colliding entry's place) and loses the name again when the session ends, no entry other than the address and the name changes, the session survives when there are no receives, or when every receive succeeds and every other socket works; a surviving session had only successful receives and, after at least one, every other socket working; the name then holds the original socket with every received text logged |

## Left out

- Socket creation, `bind`, `listen` and `accept` (`hilo_server.py:132-148`) are left out. They are I/O. The accepted socket and address are parameters of `Accept`.
- The fixed-size `recv(1024)` chunking and UTF-8 decoding are left out. A receive delivers one already decoded text, or fails.
- Threads and concurrent access to the registry are left out. Each operation runs as one atomic step on the server state, so the model does not capture interleavings or the dict-changed-size-during-iteration error.
- The `KeyboardInterrupt` and error handling of the accept loop, every `print`, and the `__main__` entry point are left out. They do not change the registry.
- `hilo_cliente.py` is not part of this model.
- Closing sockets is left out. The source never closes a client socket.
- Records are values in the model. In the source the record dict is mutated through `client_dic[user]['Messages'].append`. Only one key reaches a record at a time, so aliasing is not captured.
- ChatServer.Server.ReceiveLoop: the source loops forever. The model ends when the finite sequence of receives supplied by the caller runs out. It states that the outbox grows, not which deliveries were added; `HandleMessage` states the deliveries of each pass.
- ChatServer.Server.ReceiveLoop: one `broken` set serves every pass of a session and `Serve`, so a socket cannot start failing part-way through a session. A peer socket that breaks later is not captured.
- ChatServer.Server.ReceiveOnce: states the sender's own entry, the frame on the other entries and the survival condition, not the deliveries. It is the summary of `HandleMessage` that the receive loop relies on.
- ChatServer.Server.Serve: states that the acknowledgement is the first new delivery, not the complete list of later deliveries, for the same reason as `ReceiveLoop`.
- Dicts.RenameOverwriteOrphans: assumes that the record under the colliding name is stored under no other key. This stands in for the record's object identity in the source. The server invariant does not keep sockets or records distinct across entries, so no call site establishes it.

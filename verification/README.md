# TCP message hub: addressing and dispatch model

This project models the core of a single-process TCP hub (`rust-async-tcp-server`).
Clients exchange short messages over one broadcast bus. Every message carries a
16-bit source id, a 16-bit destination id and a byte payload. Two destinations are
reserved: the registry (`0`), which is the hub's own control endpoint, and broadcast
(`65535`), which means every client.

The model covers three pieces.

- **Message and wire format** (`messages.dfy`, `utf8.dfy`). The `Message` value,
  the reserved ids and `Message::new`. It also covers the rendering
  `"<src>:<dst> <payload>"` and the line `write_all` sends, which is that rendering
  plus a line feed, encoded as UTF-8. `String::from_utf8_lossy` is modelled by a
  real lossy UTF-8 decoder that uses the maximal-valid-prefix replacement rule. That
  makes it possible to prove the decoder undoes `str::as_bytes`. The renderer is
  paired with a parser (`ParseLine`, `ParseDecimal`), and the two are proved inverse
  in both directions.
- **Registry worker** (`registry.dfy`). The registry ignores every message not
  addressed to it. For each message that is, it produces an acknowledgement to the
  sender and then a broadcast naming the sender. One pass of its loop is a function
  of the receive result and of the two send outcomes.
- **Connection worker** (`client.dfy`, modelling `src/client.rs`). This is a `Running | Terminated`
  state machine. Each pass handles exactly one event, either a socket read result or
  a bus receive result. A pass performs at most one action: it publishes the bytes
  read, or it writes a forwarded line.

On top of these pieces, `bus.dfy` views the bus as the sequence of messages
published so far. What a subscriber delivers is the filtered suffix after its
subscription. `bus.dfy` proves unicast delivery, broadcast delivery and that
misdelivery never happens. Late-subscriber isolation is part of this abstraction
rather than a derived result: a `tokio` broadcast receiver sees only what is sent
after it subscribes, and the hub subscribes each client when it accepts the
connection (src/main.rs:60). `Bus.LateSubscriber` records that consequence.
`bus.dfy` also proves that the worker's
step function produces exactly that filtered output, and `Client.Interleaved`
shows that reads and bus messages, however they interleave, do not disturb each
other's output. `hub.dfy` proves the registry round trip end to end for every
pair of client ids, reserved ids included.

Inputs the model cannot see become parameters:

- which `select!` branch fires is an `Event`;
- the bytes a socket read returns are a `ReadResult`;
- a lagged or closed subscription is `RecvErr`;
- whether a publish or a write succeeded is a `bool`.

Observations the proofs make explicit:

- `Registry.AckReprocessedOnlyForSenderZero`: an acknowledgement is itself
  addressed to the registry only when the sender's id is `0`. Client ids are
  peer port numbers, so this never arises from a connected client.
- `Hub.AckForBroadcastIdReachesAll`: a client whose port is `65535` has its
  acknowledgement delivered to every client, because its id equals the
  broadcast id. Client ids are not checked against the reserved ids.
- A client whose id is `0` also passes the filter for registry-addressed
  messages, so it writes every client's registry-bound message as a line of its
  own (`Hub.RepliesAddressed`, `Hub.ReplyLines`).
- src/client.rs:57 does not type-check as written. It assigns
  `Some(Message::new(...))`, which is an `Option<Option<Message>>`, to a variable
  declared as `Option<Message>`. The model follows the evident intent:
  `Message::new` always returns `Some`, and the worker publishes the message it
  holds.

## Model

| member | source | states |
|---|---|---|
| Messages.New | src/registry.rs:34-40 | Construction always succeeds. The accessors return exactly the source id, destination id and payload that were given. |
| Messages.Decimal | src/registry.rs:55-57 | An id renders as a canonical decimal numeral: only digits, non-empty, no leading zero, and one digit exactly when the id is below 10. |
| Messages.ParseDecimalRoundTrip | src/registry.rs:55-57 | Reading the numeral of an id back gives the same id. |
| Messages.ParseDecimalCanonical | src/registry.rs:55-57 | Every numeral the reader accepts is the one the renderer writes, so rendering is a bijection onto canonical numerals. |
| Messages.DecimalInjective | src/registry.rs:55-57 | Distinct ids render differently. |
| Messages.Render | src/registry.rs:51-61 | No contract of its own. Its partner is `Messages.ParseLine`; `Messages.ParseRender` and `Messages.RenderParse` prove the two inverse. |
| Messages.SrcId | src/registry.rs:42-44 | No contract of its own. `Messages.New` states that it returns the source id given at construction. |
| Messages.DstId | src/registry.rs:46-48 | No contract of its own. `Messages.New` states that it returns the destination id given at construction. |
| Messages.Line | src/client.rs:87 | No contract of its own. `Messages.WireBytesFraming` states the framing: the rendering followed by one line feed. |
| Messages.WireBytes | src/client.rs:87-89 | No contract of its own. `Messages.WireBytesFraming` states what is written and that it decodes back to the line. |
| Messages.ParseRender | src/registry.rs:51-61 | Parsing a rendered message gives its source id, its destination id and its lossily decoded payload. |
| Messages.RenderParse | src/registry.rs:51-61 | Every line the parser accepts is exactly `<src>:<dst> <text>` for the fields it returns. |
| Messages.RenderDeterminesMessage | src/registry.rs:51-61 | When the payload is the UTF-8 encoding of some text, the line parses back to both ids and that text. Any other message whose payload is well-formed UTF-8 text and that renders the same is the same message. |
| Messages.RenderExample | src/registry.rs:51-61 | Source 7, destination 65535 and payload `hi` render as `7:65535 hi`. |
| Messages.WireExample | src/client.rs:86-92 | For that example, the socket receives the encoding of `7:65535 hi` followed by one 0x0A byte, which decodes to `7:65535 hi\n`. |
| Messages.WireBytesFraming | src/client.rs:86-92 | The bytes written are the encoded rendering plus exactly one 0x0A byte. When the payload has no 0x0A byte, that final byte is the only one. The bytes decode back to the line. |
| Utf8.Encode | src/registry.rs:77 | `as_bytes` gives between one and four bytes per character. Its inverse is `Utf8.Lossy`; `Utf8.LossyEncode` proves the round trip. |
| Utf8.Lossy | src/registry.rs:58 | Decoding yields at most one character per byte, and yields nothing only for an empty payload. |
| Utf8.DecodeStep | src/registry.rs:58 | Each decoding step consumes between one and four bytes and never more than are left. |
| Utf8.DecodeEncodedChar | src/registry.rs:58 | The lossy decoder reads back exactly the character the UTF-8 encoder wrote, whatever bytes follow it. |
| Utf8.LossyEncode | src/registry.rs:58 | Lossy decoding of any UTF-8-encoded string returns that string, with nothing replaced. |
| Utf8.EncodeAppend | src/client.rs:87-89 | The bytes of `rendering + "\n"` are the bytes of the rendering followed by the bytes of `"\n"`. |
| Utf8.LossyNoNewline | src/registry.rs:58 | Decoding produces a line feed only where the payload had a 0x0A byte. |
| Utf8.EncodeNoNewline | src/client.rs:87-89 | Encoding produces a 0x0A byte only for a line feed character. |
| Registry.IsForRegistry | src/registry.rs:108 | No contract of its own: the registry's filter, destination id 0. `Registry.React` states what follows from it. |
| Registry.AckMsg | src/registry.rs:73-78 | The acknowledgement comes from id 0, goes to the sender, and its payload decodes to `ACK`. |
| Registry.Notification | src/registry.rs:84-91 | The notification comes from id 0, goes to 65535, and its payload decodes to `received message from <sender>`. |
| Registry.Process | src/registry.rs:97-103 | Processing yields two distinct messages from id 0, the first to the sender and the second to 65535. |
| Registry.React | src/registry.rs:105-112 | The registry produces nothing for a message not addressed to it. For one that is, it produces two messages, both from id 0: first one to the sender whose payload decodes to `ACK`, then one to 65535 whose payload decodes to `received message from <sender>`. |
| Registry.PayloadNotExamined | src/registry.rs:97-103 | The registry's output does not depend on the received payload, only on its addresses. |
| Registry.AckIsNotNotification | src/registry.rs:73-95 | The acknowledgement and the notification are always two distinct messages. |
| Registry.AckLine | src/registry.rs:73-78 | The acknowledgement renders as `0:<sender> ACK`. |
| Registry.AckParse | src/registry.rs:73-78 | The acknowledgement parses back to source 0, the sender as destination, and the text `ACK`. |
| Registry.NotificationLine | src/registry.rs:84-91 | The notification renders as `0:65535 received message from <sender>`. |
| Registry.BroadcastHeader | src/registry.rs:84-91 | Source 0 and destination 65535 render as the header `0:65535 `, the start of every registry broadcast line. |
| Registry.NotificationParse | src/registry.rs:84-91 | The notification parses back to source 0, destination 65535 and the text `received message from <sender>`. |
| Registry.NotificationNamesSender | src/registry.rs:84-91 | The notification's text starts with `received message from `, and the numeral after that prefix reads back as the sender's id. |
| Registry.NotificationIgnored | src/registry.rs:105-110 | The registry never acts on its own notification, because it is addressed to 65535. |
| Registry.AckReprocessedOnlyForSenderZero | src/registry.rs:105-110 | The registry acts on its own acknowledgement exactly when the original sender's id is 0. In that case it produces the same acknowledgement again. |
| Registry.Step | src/registry.rs:73-112 | A receive error stops the registry, and after that nothing is published. Otherwise the registry keeps listening and publishes at most two messages, all derived from the received one. The ACK reaches the bus iff the message is registry-addressed and the ACK send succeeds; likewise for the notification and its send. When both reach the bus, the ACK comes first. |
| Registry.AllSent | src/registry.rs:97-103 | When both sends succeed, a pass publishes exactly the registry's reaction to the message. |
| Registry.AckFailureNotFatal | src/registry.rs:79-94 | A failed acknowledgement send does not stop the registry and does not stop the notification. |
| Registry.Reactions | src/registry.rs:105-112 | No contract of its own: what the registry publishes over successive receives. `Registry.ReactionsAppend` and `Registry.ReactionsSource` state its properties. |
| Registry.ReactionsAppend | src/registry.rs:105-112 | The registry's output for a concatenation of inputs is the concatenation of its outputs, in order. |
| Registry.ReactionsSource | src/registry.rs:97-112 | Every derived message is the acknowledgement or the notification of some registry-addressed input. |
| Registry.NoneForRegistry | src/registry.rs:105-110 | A sequence with no registry-addressed message produces no output. |
| Registry.Settles | src/registry.rs:105-110 | If no registry-addressed input has source id 0, the registry's output triggers no further output. |
| Client.Start | src/client.rs:42-43 | A new worker is running, has the given id and has a 1024-byte buffer. |
| Client.ReadInto | src/client.rs:50-57 | A read copies as many available bytes as fit into the front of the buffer and reports that count. The rest of the buffer is unchanged. |
| Client.Step | src/client.rs:45-92 | One loop pass. A terminated worker does nothing. A zero-byte read ends the worker (peer closed) with no action. A read error or bus error ends it with no action. A read of n > 0 bytes publishes, to the registry, a message from this client holding the first n bytes read (at most 1024), and the worker keeps running. A bus message is written, as its wire bytes, iff it is addressed to this client or to broadcast; a message that is not leaves the worker unchanged. A failed write ends the worker. |
| Client.PublishFailureNotFatal | src/client.rs:80-84 | Whether the publish succeeded does not change the result of a read pass. |
| Client.Run | src/client.rs:45-93 | The loop performs at most one action per event. Once terminated, the worker stays terminated and does nothing more. |
| Client.ClosedConnectionFinal | src/client.rs:52-55 | After a zero-byte read the worker terminates once, as peer-closed, and publishes or writes nothing for any later events. |
| Client.ForClient | src/client.rs:68 | No contract of its own: the worker's filter, its own id or 65535. `Client.Addressed`, `Client.Step` and `Bus.DeliveredIff` state what follows from it. |
| Client.Addressed | src/client.rs:68-70 | The destination filter keeps only messages from its input that are addressed to this client or to broadcast. |
| Client.AddressedComplete | src/client.rs:68-70 | The destination filter keeps every such message. |
| Client.ForwardsAddressed | src/client.rs:65-92 | A running worker fed bus messages writes exactly the wire bytes of the messages that pass the filter, in the order received, and stays running. |
| Client.PublishesReads | src/client.rs:50-84 | A running worker that reads non-empty chunks of at most 1024 bytes publishes one registry-addressed message per chunk. Each message carries exactly that chunk, in read order, whatever the publish outcomes, and the worker stays running. |
| Client.Interleaved | src/client.rs:45-92 | For any interleaving of non-empty reads that fit the buffer and bus messages whose writes succeed, a running worker stays running. Its writes are exactly the lines of the received bus messages that pass its filter, in order. Its publishes are exactly one registry-addressed message per read, in order. |
| Bus.Received | src/main.rs:60 | No contract of its own: a subscription sees only what is published after it. `Bus.LateSubscriber` and `Bus.DeliveredIff` state its consequences. |
| Bus.Delivered | src/client.rs:65-70 | A subscriber delivers at most what was published after it subscribed, and only messages addressed to it or to 65535. |
| Bus.DeliveredIff | src/client.rs:68-70 | A subscriber delivers a message iff the message was published after it subscribed and is addressed to it or to broadcast. |
| Bus.AddressedCount | src/client.rs:68-70 | The filter keeps every copy of an accepted message and no copy of any other message. |
| Bus.AddressedAppend | src/client.rs:68-70 | The filter preserves publication order: filtering a concatenation gives the concatenation of the filtered parts. |
| Bus.Unicast | src/client.rs:68-70 | A message for client a is delivered to a and to no other client. |
| Bus.Broadcast | src/client.rs:68-70 | Every subscriber delivers a broadcast message exactly as many times as it was published after subscribing, and at least once. |
| Bus.NeverMisdelivered | src/client.rs:68-70 | A message for 42 is never delivered to client 43. |
| Bus.LateSubscriber | src/main.rs:56-61 | What was published before a client subscribed has no effect on what that client delivers. This holds by the bus abstraction, which gives a subscription only the suffix after it. |
| Bus.WorkerWritesDelivered | src/client.rs:65-92 | The worker's step function writes exactly the lines of the subscriber's filtered bus suffix. |
| Hub.RegistryRoundTrip | src/registry.rs:97-103 | For every client id `a` and `c`: client `a` reads some bytes, and its worker publishes the bytes that fit the buffer to the registry and keeps running. That same worker then writes the lines of `Hub.ReplyLines` for `a`, and client `c`'s worker writes them for `c`. When neither id is 0 or 65535 and they differ, `a` receives `0:<a> ACK\n` followed by `0:65535 received message from <a>\n`, and `c` receives only the notification. |
| Hub.ReplyRuns | src/client.rs:65-92 | Any running worker whose bus holds a registry-addressed message followed by the registry's two replies writes exactly the lines of `Hub.ReplyLines` for its id. Those are the message's own line if its id is 0, the ACK line if it is the sender or the sender's id is 65535, and the notification line in every case. |
| Hub.AddressedLines | src/client.rs:65-92 | The lines a client writes for those three messages are the `Hub.ReplyLines` of its id, spelled out as `0:<sender> ACK\n` and `0:65535 received message from <sender>\n`. |
| Hub.UsualReplyLines | src/registry.rs:73-91 | When the sender's id is neither 0 nor 65535, the sender writes the ACK line and then the notification line. Any other client whose id is not 0 writes only the notification line. |
| Hub.RepliesAddressed | src/registry.rs:97-103 | For every sender and every client, the filter of a registry-addressed message and its two replies keeps three things. It keeps the message itself only for id 0. It keeps the ACK for the sender, and for every client when the sender's id is 65535. It always keeps the notification. |
| Hub.ReplyWrites | src/client.rs:86-92 | The wire bytes of the two replies are the UTF-8 encodings of their lines. |
| Hub.AckForBroadcastIdReachesAll | src/registry.rs:73-78 | When the sender's id is 65535, its acknowledgement passes every client's filter. |
| Hub.AckIsPrivate | src/registry.rs:73-78 | Otherwise the acknowledgement passes no other client's filter. |

## Left out

- The `tokio::select!` race, async suspension and task spawning. Which event a pass handles is an input to `Client.Step`.
- The broadcast channel's own behaviour: its 1024-message capacity, lagging and "no receivers" send errors. A failed send is a `false` outcome, and a lagged or closed subscription is `RecvErr`.
- Socket I/O. A read is its result (`ReadResult`), and the panic of `write_all(...).expect(...)` is modelled as the worker terminating with `WriteFailed`. Partial writes inside `write_all` are not modelled.
- `Registry::new` and `Client::new`: they only store handles. `Client.Start` models the worker's initial state.
- `Clone` of `Message`: a Dafny datatype value is already freely shareable.
- All of src/main.rs (bootstrap, `RUST_LOG`, bind/accept, ids from peer ports). It is I/O glue with no dispatch decision. Its one effect on dispatch, that a subscription starts at accept time, appears as the `from` index in `Bus`.
- Logging (`info!`, `error!`). It affects no state.
- The registry's `recv().unwrap()` panic is modelled as the registry state becoming `Stopped`. What that does to the process is not modelled.

/**
  The hub end to end: a client's read travels to the registry, and the registry's
  two replies travel back through the bus to the clients' sockets.
 */
module Hub {
  import opened Wrappers
  import opened Utf8
  import opened Messages
  import Registry
  import opened Client
  import opened Bus

  /**
    The lines client `id` writes when the bus holds a registry-addressed message
    `m` followed by the registry's two replies: `m`'s own line when `id` is the
    registry's id, the acknowledgement's line when `id` is the sender or the
    sender's id is the broadcast id, and the notification's line in every case.
   */
  function ReplyLines(m: Message, id: U16): seq<Action> {
    (if id == REGISTRY_ID then [Write(WireBytes(m))] else [])
    + (if id == SrcId(m) || SrcId(m) == BROADCAST_ID then [Write(Encode("0:" + Decimal(SrcId(m)) + " ACK\n"))] else [])
    + [Write(Encode("0:65535 " + Registry.NOTICE_PREFIX + Decimal(SrcId(m)) + "\n"))]
  }

  /**
    Registry round trip. Client `a` reads a chunk of bytes; its worker publishes
    the bytes that fit the buffer to the registry and keeps running; the registry
    publishes an acknowledgement to `a` and then a notification to everyone. The
    same worker then writes `ReplyLines(m, a)`, and the worker of any client `c`
    writes `ReplyLines(m, c)`. In the usual case, where neither id is reserved,
    `a` writes "0:<a> ACK" and then "0:65535 received message from <a>", and `c`
    writes only the notification.
   */
  lemma RegistryRoundTrip(a: U16, chunk: seq<Byte>, c: U16)
    requires 0 < |chunk|
    ensures var p := Step(Start(a), SocketRead(ReadOk(chunk)), true);
            var m := Message(a, REGISTRY_ID, chunk[..Min(|chunk|, BUFFER_SIZE)]);
            var bus := [m] + Registry.React(m);
            && p.action == Some(Publish(m))
            && p.next.status == Running
            && Registry.React(m) == [Registry.AckMsg(m), Registry.Notification(m)]
            && Run(p.next, Deliveries(bus)).1 == ReplyLines(m, a)
            && Run(Start(c), Deliveries(bus)).1 == ReplyLines(m, c)
    ensures a != REGISTRY_ID && a != BROADCAST_ID && c != a && c != REGISTRY_ID ==>
            var m := Message(a, REGISTRY_ID, chunk[..Min(|chunk|, BUFFER_SIZE)]);
            && ReplyLines(m, a)
               == [Write(Encode("0:" + Decimal(a) + " ACK\n")),
                   Write(Encode("0:65535 " + Registry.NOTICE_PREFIX + Decimal(a) + "\n"))]
            && ReplyLines(m, c)
               == [Write(Encode("0:65535 " + Registry.NOTICE_PREFIX + Decimal(a) + "\n"))]
  {
    var p := Step(Start(a), SocketRead(ReadOk(chunk)), true);
    var m := Message(a, REGISTRY_ID, chunk[..Min(|chunk|, BUFFER_SIZE)]);
    ReplyRuns(m, p.next);
    ReplyRuns(m, Start(c));
    if a != REGISTRY_ID && a != BROADCAST_ID && c != a && c != REGISTRY_ID {
      UsualReplyLines(m, c);
    }
  }

  /** When neither the sender's id nor the bystander's is reserved, the sender gets two lines and the bystander one. */
  lemma UsualReplyLines(m: Message, c: U16)
    requires SrcId(m) != REGISTRY_ID && SrcId(m) != BROADCAST_ID
    requires c != SrcId(m) && c != REGISTRY_ID
    ensures ReplyLines(m, SrcId(m))
         == [Write(Encode("0:" + Decimal(SrcId(m)) + " ACK\n")),
             Write(Encode("0:65535 " + Registry.NOTICE_PREFIX + Decimal(SrcId(m)) + "\n"))]
    ensures ReplyLines(m, c)
         == [Write(Encode("0:65535 " + Registry.NOTICE_PREFIX + Decimal(SrcId(m)) + "\n"))]
  {
  }

  /** What a running worker writes when the bus holds a registry-addressed message and the registry's replies. */
  lemma ReplyRuns(m: Message, w: Worker)
    requires Registry.IsForRegistry(m)
    requires Valid(w) && w.status == Running
    ensures Run(w, Deliveries([m] + Registry.React(m))).1 == ReplyLines(m, w.id)
  {
    ForwardsAddressed(w, [m] + Registry.React(m));
    AddressedLines(m, w.id);
  }

  /** The lines of the messages client `id` keeps from a registry-addressed message and the registry's replies. */
  lemma AddressedLines(m: Message, id: U16)
    requires Registry.IsForRegistry(m)
    ensures Writes(Addressed(id, [m] + Registry.React(m))) == ReplyLines(m, id)
  {
    AddressedWrites(m, id);
    LineBytes(m);
  }

  lemma AddressedWrites(m: Message, id: U16)
    requires Registry.IsForRegistry(m)
    ensures Writes(Addressed(id, [m] + Registry.React(m)))
         == (if id == REGISTRY_ID then [Write(WireBytes(m))] else [])
            + (if id == SrcId(m) || SrcId(m) == BROADCAST_ID then [Write(WireBytes(Registry.AckMsg(m)))] else [])
            + [Write(WireBytes(Registry.Notification(m)))]
  {
    var ack := Registry.AckMsg(m);
    var note := Registry.Notification(m);
    var x: seq<Message> := if id == REGISTRY_ID then [m] else [];
    var y: seq<Message> := if id == SrcId(m) || SrcId(m) == BROADCAST_ID then [ack] else [];
    RepliesAddressed(m, id);
    WritesAppend(x + y, [note]);
    WritesAppend(x, y);
    WritesAtMostOne(x);
    WritesAtMostOne(y);
    WritesAtMostOne([note]);
  }

  /** The wire bytes of the registry's two replies, spelled out. */
  lemma LineBytes(m: Message)
    ensures WireBytes(Registry.AckMsg(m)) == Encode("0:" + Decimal(SrcId(m)) + " ACK\n")
    ensures WireBytes(Registry.Notification(m)) == Encode("0:65535 " + Registry.NOTICE_PREFIX + Decimal(SrcId(m)) + "\n")
  {
    ReplyWrites(m);
    assert Writes([Registry.AckMsg(m), Registry.Notification(m)])[0] == Write(WireBytes(Registry.AckMsg(m)));
    assert Writes([Registry.Notification(m)])[0] == Write(WireBytes(Registry.Notification(m)));
  }

  lemma WritesAtMostOne(a: seq<Message>)
    requires |a| <= 1
    ensures Writes(a) == if |a| == 0 then [] else [Write(WireBytes(a[0]))]
  {
  }

  lemma WritesAppend(a: seq<Message>, b: seq<Message>)
    ensures Writes(a + b) == Writes(a) + Writes(b)
  {
    assert |Writes(a + b)| == |Writes(a) + Writes(b)|;
    forall i | 0 <= i < |a + b|
      ensures Writes(a + b)[i] == (Writes(a) + Writes(b))[i]
    {
      if i >= |a| {
        assert (a + b)[i] == b[i - |a|];
      }
    }
  }

  /**
    Who receives what of a registry-addressed message and the registry's replies:
    the message itself reaches only a client with the registry's id, the
    acknowledgement reaches the sender (and every client when the sender's id is
    the broadcast id), and the notification reaches everyone.
   */
  lemma RepliesAddressed(m: Message, c: U16)
    requires Registry.IsForRegistry(m)
    ensures Addressed(c, [m] + Registry.React(m))
         == (if c == REGISTRY_ID then [m] else [])
            + (if c == SrcId(m) || SrcId(m) == BROADCAST_ID then [Registry.AckMsg(m)] else [])
            + [Registry.Notification(m)]
  {
    var ack := Registry.AckMsg(m);
    var note := Registry.Notification(m);
    var bus := [m] + Registry.React(m);
    assert bus == [m] + ([ack] + [note]);
    var x: seq<Message> := if c == REGISTRY_ID then [m] else [];
    var y: seq<Message> := if c == SrcId(m) || SrcId(m) == BROADCAST_ID then [ack] else [];
    AddressedSingle(c, m);
    AddressedSingle(c, ack);
    AddressedSingle(c, note);
    assert Addressed(c, [m]) == x;
    assert Addressed(c, [ack]) == y;
    AddressedAppend(c, [ack], [note]);
    AddressedAppend(c, [m], [ack] + [note]);
    Registry.AppendAssoc(x, y, [note]);
  }

  lemma AddressedSingle(id: U16, x: Message)
    ensures Addressed(id, [x]) == if ForClient(id, DstId(x)) then [x] else []
  {
    assert [x][1..] == [];
  }

  /** The socket bytes of the two replies. */
  lemma ReplyWrites(m: Message)
    ensures Writes([Registry.AckMsg(m), Registry.Notification(m)])
         == [Write(Encode("0:" + Decimal(SrcId(m)) + " ACK\n")),
             Write(Encode("0:65535 " + Registry.NOTICE_PREFIX + Decimal(SrcId(m)) + "\n"))]
    ensures Writes([Registry.Notification(m)])
         == [Write(Encode("0:65535 " + Registry.NOTICE_PREFIX + Decimal(SrcId(m)) + "\n"))]
  {
    Registry.AckLine(m);
    Registry.NotificationLine(m);
    assert Line(Registry.AckMsg(m)) == "0:" + Decimal(SrcId(m)) + " ACK\n";
    assert Line(Registry.Notification(m)) == "0:65535 " + Registry.NOTICE_PREFIX + Decimal(SrcId(m)) + "\n";
  }

  /**
    A client whose id happens to equal the broadcast id (a peer port of 65535)
    gets its acknowledgement delivered to every client.
   */
  lemma AckForBroadcastIdReachesAll(m: Message, c: U16)
    requires Registry.IsForRegistry(m) && SrcId(m) == BROADCAST_ID
    ensures Registry.AckMsg(m) in Addressed(c, Registry.React(m))
  {
    AddressedComplete(c, Registry.React(m));
  }

  /**
    The registry's acknowledgement to a client reaches no other client, unless the
    client's id is the broadcast id.
   */
  lemma AckIsPrivate(m: Message, c: U16)
    requires Registry.IsForRegistry(m) && SrcId(m) != BROADCAST_ID && c != SrcId(m)
    ensures Registry.AckMsg(m) !in Addressed(c, Registry.React(m))
  {
  }
}

/**
  The registry worker (`registry::Registry`): the hub's control endpoint. It sees
  every message on the bus, acts only on those addressed to `REGISTRY_ID`, and for
  each of them publishes an acknowledgement to the sender and then a broadcast
  notification naming the sender. The original payload is not examined.
 */
module Registry {
  import opened Wrappers
  import opened Utf8
  import opened Messages

  const ACK_TEXT: string := "ACK"
  const NOTICE_PREFIX: string := "received message from "

  /** The registry acts on a message exactly when it is addressed to it. */
  predicate IsForRegistry(m: Message) {
    DstId(m) == REGISTRY_ID
  }

  /** `Registry::ack_msg`: the acknowledgement sent back to the sender. */
  function AckMsg(m: Message): (a: Message)
    ensures SrcId(a) == REGISTRY_ID && DstId(a) == SrcId(m)
    ensures Lossy(a.data) == ACK_TEXT
  {
    LossyEncode(ACK_TEXT);
    Message(REGISTRY_ID, SrcId(m), Encode(ACK_TEXT))
  }

  /** `Registry::broadcast`: the notification sent to everyone. */
  function Notification(m: Message): (n: Message)
    ensures SrcId(n) == REGISTRY_ID && DstId(n) == BROADCAST_ID
    ensures Lossy(n.data) == NOTICE_PREFIX + Decimal(SrcId(m))
  {
    LossyEncode(NOTICE_PREFIX + Decimal(m.src));
    Message(REGISTRY_ID, BROADCAST_ID, Encode(NOTICE_PREFIX + Decimal(m.src)))
  }

  /** `Registry::process_msg`: the two derived messages, acknowledgement first. */
  function Process(m: Message): (out: seq<Message>)
    ensures |out| == 2 && out[0] != out[1]
    ensures DstId(out[0]) == SrcId(m) && DstId(out[1]) == BROADCAST_ID
    ensures forall x :: x in out ==> SrcId(x) == REGISTRY_ID
  {
    AckIsNotNotification(m);
    [AckMsg(m), Notification(m)]
  }

  /** What the registry publishes for one received message when both sends succeed. */
  function React(m: Message): (out: seq<Message>)
    ensures IsForRegistry(m) ==> |out| == 2
    ensures !IsForRegistry(m) ==> out == []
    ensures forall x :: x in out ==> SrcId(x) == REGISTRY_ID
    // first the acknowledgement to the sender, then the notification to everyone
    ensures IsForRegistry(m) ==>
              && DstId(out[0]) == SrcId(m) && Lossy(out[0].data) == ACK_TEXT
              && DstId(out[1]) == BROADCAST_ID && Lossy(out[1].data) == NOTICE_PREFIX + Decimal(SrcId(m))
  {
    if IsForRegistry(m) then Process(m) else []
  }

  /** Only the addresses of a received message matter: its payload is never examined. */
  lemma PayloadNotExamined(m: Message, data: seq<Byte>)
    ensures React(m.(data := data)) == React(m)
  {
  }

  /** The acknowledgement and the notification are never the same message. */
  lemma AckIsNotNotification(m: Message)
    ensures AckMsg(m) != Notification(m)
  {
    assert Encode(ACK_TEXT)[0] == 'A' as int;
    EncodeAppend(NOTICE_PREFIX, Decimal(m.src));
    assert Encode(NOTICE_PREFIX)[0] == 'r' as int;
  }

  /** On the wire, the acknowledgement reads "0:<sender> ACK". */
  lemma AckLine(m: Message)
    ensures Render(AckMsg(m)) == "0:" + Decimal(SrcId(m)) + " ACK"
  {
    var d := Decimal(m.src);
    LossyEncode(ACK_TEXT);
    assert Decimal(0) == "0";
    assert Render(AckMsg(m)) == "0" + ":" + d + " " + ACK_TEXT;
  }

  /** A reader of the acknowledgement's line finds the sender as destination and the text "ACK". */
  lemma AckParse(m: Message)
    ensures ParseLine(Render(AckMsg(m))) == Some(Header(REGISTRY_ID, SrcId(m), ACK_TEXT))
  {
    LossyEncode(ACK_TEXT);
    ParseRender(AckMsg(m));
  }

  /** On the wire, the notification reads "0:65535 received message from <sender>". */
  lemma NotificationLine(m: Message)
    ensures Render(Notification(m)) == "0:65535 " + NOTICE_PREFIX + Decimal(SrcId(m))
  {
    var t := NOTICE_PREFIX + Decimal(m.src);
    LossyEncode(t);
    BroadcastHeader();
    assert Render(Notification(m)) == "0:65535 " + t;
  }

  /** The fixed part of every line the registry broadcasts. */
  lemma BroadcastHeader()
    ensures Decimal(REGISTRY_ID) + ":" + Decimal(BROADCAST_ID) + " " == "0:65535 "
  {
    assert Decimal(0) == "0";
    Decimal65535();
  }

  /** A reader of the notification's line recovers its addresses and its text. */
  lemma NotificationParse(m: Message)
    ensures ParseLine(Render(Notification(m)))
         == Some(Header(REGISTRY_ID, BROADCAST_ID, NOTICE_PREFIX + Decimal(SrcId(m))))
  {
    LossyEncode(NOTICE_PREFIX + Decimal(m.src));
    ParseRender(Notification(m));
  }

  /** The sender's id is recovered from the notification's text by reading the numeral after the prefix. */
  lemma NotificationNamesSender(m: Message)
    ensures var text := Lossy(Notification(m).data);
            && |text| > |NOTICE_PREFIX|
            && text[..|NOTICE_PREFIX|] == NOTICE_PREFIX
            && ParseDecimal(text[|NOTICE_PREFIX|..]) == Some(SrcId(m))
  {
    var text := NOTICE_PREFIX + Decimal(m.src);
    LossyEncode(text);
    assert text[..|NOTICE_PREFIX|] == NOTICE_PREFIX;
    assert text[|NOTICE_PREFIX|..] == Decimal(m.src);
    ParseDecimalRoundTrip(m.src);
  }

  /** The registry never acts on its own notification. */
  lemma NotificationIgnored(m: Message)
    ensures React(Notification(m)) == []
  {
  }

  /** It acts on its own acknowledgement only when the original sender was the registry id itself. */
  lemma AckReprocessedOnlyForSenderZero(m: Message)
    ensures React(AckMsg(m)) != [] <==> SrcId(m) == REGISTRY_ID
    ensures SrcId(m) == REGISTRY_ID ==> React(AckMsg(m)) == Process(AckMsg(m))
                                        && AckMsg(AckMsg(m)) == AckMsg(m)
  {
  }

  // ---------------------------------------------------------------------------
  // The worker loop

  /** `Registry::worker` runs until a receive fails; `unwrap` then ends the task. */
  datatype State = Listening | Stopped

  /** One pass of the loop: the next state and the messages that reached the bus, in order. */
  datatype RegistryPass = RegistryPass(next: State, published: seq<Message>)

  /**
    One pass of `Registry::worker`. `ackSent` and `noticeSent` are the outcomes of
    the two sends; a failed send is only logged.
   */
  function Step(st: State, r: RecvResult, ackSent: bool, noticeSent: bool): (p: RegistryPass)
    ensures st == Stopped ==> p == RegistryPass(Stopped, [])
    ensures st == Listening ==> (p.next == Stopped <==> r.RecvErr?)
    ensures r.RecvErr? ==> p.published == []
    ensures r.RecvOk? && st == Listening ==>
              && (forall x :: x in p.published ==> x in React(r.msg))
              && (AckMsg(r.msg) in p.published <==> IsForRegistry(r.msg) && ackSent)
              && (Notification(r.msg) in p.published <==> IsForRegistry(r.msg) && noticeSent)
              && |p.published| <= 2
              && (|p.published| == 2 ==> p.published == Process(r.msg))
  {
    match (st, r)
    case (Stopped, _) => RegistryPass(Stopped, [])
    case (Listening, RecvErr) => RegistryPass(Stopped, [])
    case (Listening, RecvOk(m)) =>
      AckIsNotNotification(m);
      if IsForRegistry(m) then
        RegistryPass(Listening, (if ackSent then [AckMsg(m)] else []) + (if noticeSent then [Notification(m)] else []))
      else RegistryPass(Listening, [])
  }

  /** A failed acknowledgement send does not prevent the notification, nor stop the registry. */
  lemma AckFailureNotFatal(m: Message, noticeSent: bool)
    ensures Step(Listening, RecvOk(m), false, noticeSent).next == Listening
    ensures IsForRegistry(m) && noticeSent ==> Step(Listening, RecvOk(m), false, noticeSent).published == [Notification(m)]
  {
  }

  /** When both sends succeed, one pass publishes exactly the registry's reaction. */
  lemma AllSent(m: Message)
    ensures Step(Listening, RecvOk(m), true, true) == RegistryPass(Listening, React(m))
  {
  }

  /** What the registry publishes for a run of received messages when every send succeeds. */
  function Reactions(ms: seq<Message>): seq<Message>
  {
    if |ms| == 0 then [] else React(ms[0]) + Reactions(ms[1..])
  }

  lemma {:induction false} ReactionsAppend(a: seq<Message>, b: seq<Message>)
    ensures Reactions(a + b) == Reactions(a) + Reactions(b)
    decreases |a|
  {
    if |a| == 0 {
      assert a + b == b;
    } else {
      var x, t := a[0], a[1..];
      assert a == [x] + t;
      assert a + b == [x] + (t + b);
      ReactionsCons(x, t + b);
      ReactionsCons(x, t);
      ReactionsAppend(t, b);
      AppendAssoc(React(x), Reactions(t), Reactions(b));
    }
  }

  lemma AppendAssoc<T>(x: seq<T>, y: seq<T>, z: seq<T>)
    ensures x + (y + z) == (x + y) + z
  {
  }

  lemma ReactionsCons(x: Message, ms: seq<Message>)
    ensures Reactions([x] + ms) == React(x) + Reactions(ms)
  {
    assert ([x] + ms)[1..] == ms;
  }

  /** Every derived message comes from the registry and is an acknowledgement or a notification of some registry-addressed input. */
  lemma {:induction false} ReactionsSource(ms: seq<Message>)
    ensures forall x :: x in Reactions(ms) ==>
              exists m :: m in ms && IsForRegistry(m) && (x == AckMsg(m) || x == Notification(m))
    decreases |ms|
  {
    if |ms| > 0 {
      ReactionsSource(ms[1..]);
      forall x | x in Reactions(ms)
        ensures exists m :: m in ms && IsForRegistry(m) && (x == AckMsg(m) || x == Notification(m))
      {
        assert Reactions(ms) == React(ms[0]) + Reactions(ms[1..]);
        if x in React(ms[0]) {
          assert ms[0] in ms;
        } else {
          var m :| m in ms[1..] && IsForRegistry(m) && (x == AckMsg(m) || x == Notification(m));
          assert m in ms;
        }
      }
    }
  }

  /**
    When no registry-addressed input claims the registry's own id as its source
    (client ids come from peer ports, never 0), the registry's output triggers no
    further output: the registry settles after one round.
   */
  lemma Settles(ms: seq<Message>)
    requires forall m :: m in ms && IsForRegistry(m) ==> SrcId(m) != REGISTRY_ID
    ensures Reactions(Reactions(ms)) == []
  {
    ReactionsSource(ms);
    NoneForRegistry(Reactions(ms));
  }

  lemma {:induction false} NoneForRegistry(xs: seq<Message>)
    requires forall x :: x in xs ==> !IsForRegistry(x)
    ensures Reactions(xs) == []
    decreases |xs|
  {
    if |xs| > 0 {
      assert xs[0] in xs;
      NoneForRegistry(xs[1..]);
    }
  }
}

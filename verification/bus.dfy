/**
  The bus as seen by its subscribers. The broadcast channel is abstracted to the
  sequence of messages successfully published, in the order the channel accepted
  them. A subscription taken when `from` messages had been published sees the
  suffix after them; a connection worker writes the messages of that suffix that
  pass its destination filter.

  Lag and closure of the channel are not part of this view: the workers treat them
  as a failed receive (`RecvErr`), which ends the worker.
 */
module Bus {
  import opened Messages
  import opened Client

  /** What a subscription taken after `from` publishes receives. */
  function Received(bus: seq<Message>, from: nat): seq<Message>
    requires from <= |bus|
  {
    bus[from..]
  }

  /** What the connection worker of client `id`, subscribed after `from` publishes, forwards to its socket. */
  function Delivered(id: U16, bus: seq<Message>, from: nat): (d: seq<Message>)
    requires from <= |bus|
    ensures |d| <= |bus| - from
    ensures forall x :: x in d ==> x in bus[from..] && ForClient(id, DstId(x))
  {
    Addressed(id, Received(bus, from))
  }

  /** Delivery is exactly the destination filter: a message is delivered iff it was published after subscribing and it is for this client. */
  lemma DeliveredIff(id: U16, bus: seq<Message>, from: nat, m: Message)
    requires from <= |bus|
    ensures m in Delivered(id, bus, from) <==> m in bus[from..] && ForClient(id, DstId(m))
  {
    AddressedComplete(id, bus[from..]);
  }

  /** The filter keeps every copy of an accepted message and no copy of any other: each publish is written at most once. */
  lemma {:induction false} AddressedCount(id: U16, ms: seq<Message>, m: Message)
    ensures multiset(Addressed(id, ms))[m] == if ForClient(id, DstId(m)) then multiset(ms)[m] else 0
    decreases |ms|
  {
    if |ms| > 0 {
      var x, rest := ms[0], ms[1..];
      var kept: seq<Message> := if ForClient(id, DstId(x)) then [x] else [];
      AddressedCount(id, rest, m);
      assert ms == [x] + rest;
      assert multiset(ms)[m] == multiset([x])[m] + multiset(rest)[m];
      assert Addressed(id, ms) == kept + Addressed(id, rest);
      assert multiset(Addressed(id, ms))[m] == multiset(kept)[m] + multiset(Addressed(id, rest))[m];
    }
  }

  /** The filter keeps the order of publication (per-publisher order in particular). */
  lemma {:induction false} AddressedAppend(id: U16, a: seq<Message>, b: seq<Message>)
    ensures Addressed(id, a + b) == Addressed(id, a) + Addressed(id, b)
    decreases |a|
  {
    if |a| == 0 {
      assert a + b == b;
    } else {
      assert (a + b)[1..] == a[1..] + b;
      AddressedAppend(id, a[1..], b);
    }
  }

  /** Unicast delivery: a message for client `a` reaches client `a` and no other client. */
  lemma Unicast(bus: seq<Message>, from: nat, m: Message, a: U16)
    requires from <= |bus| && m in bus[from..]
    requires DstId(m) == a && a != BROADCAST_ID
    ensures m in Delivered(a, bus, from)
    ensures forall c: U16 :: c != a ==> m !in Delivered(c, bus, from)
  {
    DeliveredIff(a, bus, from, m);
  }

  /** Broadcast delivery: every subscriber writes a broadcast message exactly as often as it was published after subscribing. */
  lemma Broadcast(bus: seq<Message>, from: nat, m: Message)
    requires from <= |bus| && m in bus[from..]
    requires DstId(m) == BROADCAST_ID
    ensures forall c: U16 :: multiset(Delivered(c, bus, from))[m] == multiset(bus[from..])[m] >= 1
  {
    forall c: U16 ensures multiset(Delivered(c, bus, from))[m] == multiset(bus[from..])[m] >= 1 {
      AddressedCount(c, bus[from..], m);
    }
  }

  /** A message for client 42 is never written by the worker of client 43. */
  lemma NeverMisdelivered(bus: seq<Message>, from: nat, m: Message)
    requires from <= |bus| && DstId(m) == 42
    ensures m !in Delivered(43, bus, from)
  {
    DeliveredIff(43, bus, from, m);
  }

  /** Late-subscriber isolation: what was published before subscribing has no influence on what is delivered. */
  lemma LateSubscriber(id: U16, before: seq<Message>, after: seq<Message>)
    ensures Delivered(id, before + after, |before|) == Addressed(id, after)
  {
    assert (before + after)[|before|..] == after;
  }

  /**
    The connection worker realises the delivery: a running worker subscribed after
    `from` publishes, receiving the rest of the bus with every write succeeding,
    writes exactly the lines of `Delivered`, in order.
   */
  lemma WorkerWritesDelivered(w: Worker, bus: seq<Message>, from: nat)
    requires Valid(w) && w.status == Running && from <= |bus|
    ensures Run(w, Deliveries(Received(bus, from))).1 == Writes(Delivered(w.id, bus, from))
  {
    ForwardsAddressed(w, bus[from..]);
  }
}

/**
  The connection worker (`client::Client::worker`). Each pass of its loop handles
  exactly one event, whichever of "socket readable" and "bus message" resolved
  first: the choice of event is an input here, not something the model decides.

  A pass yields the worker's next state and at most one action: publishing the
  bytes just read (addressed to the registry), or writing a forwarded message's
  line to the socket.
 */
module Client {
  import opened Wrappers
  import opened Utf8
  import opened Messages

  /** Size of the read buffer, `vec![0; 1024]`. */
  const BUFFER_SIZE: nat := 1024

  /** The outcome of `socket.read`: the bytes this read call returned (none at end of stream), or an I/O error. */
  datatype ReadResult = ReadOk(chunk: seq<Byte>) | ReadErr

  /** The branch of `select!` that resolved first. */
  datatype Event = SocketRead(read: ReadResult) | BusRecv(recv: RecvResult)

  datatype Reason = PeerClosed | ReadFailed | RecvFailed | WriteFailed

  datatype Status = Running | Terminated(reason: Reason)

  datatype Worker = Worker(id: U16, buf: seq<Byte>, status: Status)

  datatype Action = Publish(msg: Message) | Write(bytes: seq<Byte>)

  /** One pass of the loop: the next worker and what it did. */
  datatype Pass = Pass(next: Worker, action: Option<Action>)

  predicate Valid(w: Worker) {
    |w.buf| == BUFFER_SIZE
  }

  /** A new worker: running, with a zeroed buffer. */
  function Start(id: U16): (w: Worker)
    ensures Valid(w) && w.id == id && w.status == Running
  {
    Worker(id, seq(BUFFER_SIZE, _ => 0), Running)
  }

  /** The destination filter of the bus branch: this client's own id or the broadcast id. */
  predicate ForClient(id: U16, dst: U16) {
    dst == id || dst == BROADCAST_ID
  }

  function Min(a: nat, b: nat): nat {
    if a < b then a else b
  }

  /**
    `socket.read(&mut data)`: the bytes available are copied into the front of
    the buffer, as many as fit, and their number is returned; the rest of the
    buffer keeps its old contents.
   */
  function ReadInto(buf: seq<Byte>, available: seq<Byte>): (r: (seq<Byte>, nat))
    ensures |r.0| == |buf| && r.1 == Min(|available|, |buf|)
    ensures r.0[..r.1] == available[..r.1]
    ensures r.0[r.1..] == buf[r.1..]
  {
    var n := Min(|available|, |buf|);
    (available[..n] + buf[n..], n)
  }

  /**
    One pass of `Client::worker`. `ok` is the outcome of the action the pass
    attempts: a failed publish is only logged, a failed write ends the worker
    (`expect` panics).
   */
  function Step(w: Worker, ev: Event, ok: bool): (p: Pass)
    requires Valid(w)
    ensures Valid(p.next) && p.next.id == w.id
    // a terminated worker does nothing more
    ensures w.status.Terminated? ==> p == Pass(w, None)
    // socket branch
    ensures w.status == Running && ev.SocketRead? && ev.read.ReadOk? ==>
              var c := ev.read.chunk;
              && (|c| == 0 <==> p.next.status == Terminated(PeerClosed))
              && (|c| == 0 ==> p.action == None)
              && (|c| > 0 ==> p.next.status == Running
                              && p.action == Some(Publish(Message(w.id, REGISTRY_ID, c[..Min(|c|, BUFFER_SIZE)]))))
    ensures w.status == Running && ev == SocketRead(ReadErr) ==>
              p.next.status == Terminated(ReadFailed) && p.action == None
    // bus branch
    ensures w.status == Running && ev == BusRecv(RecvErr) ==>
              p.next.status == Terminated(RecvFailed) && p.action == None
    ensures w.status == Running && ev.BusRecv? && ev.recv.RecvOk? ==>
              var m := ev.recv.msg;
              && (p.action.Some? <==> ForClient(w.id, DstId(m)))
              && (p.action.Some? ==> p.action.value == Write(WireBytes(m)))
              && (p.next.status == Running <==> ok || !ForClient(w.id, DstId(m)))
              && (p.next.status != Running ==> p.next.status == Terminated(WriteFailed))
              && (!ForClient(w.id, DstId(m)) ==> p.next == w)
    // what any published message looks like
    ensures p.action.Some? && p.action.value.Publish? ==>
              var msg := p.action.value.msg;
              && SrcId(msg) == w.id && DstId(msg) == REGISTRY_ID
              && 0 < |msg.data| <= BUFFER_SIZE
              && msg.data == p.next.buf[..|msg.data|]
  {
    if w.status.Terminated? then Pass(w, None)
    else
      match ev
      case SocketRead(ReadErr) => Pass(w.(status := Terminated(ReadFailed)), None)
      case SocketRead(ReadOk(chunk)) =>
        var (buf', n) := ReadInto(w.buf, chunk);
        if n == 0 then Pass(w.(status := Terminated(PeerClosed)), None)
        else
          // `Message::new` never fails; the outcome of the publish is not consulted.
          Pass(w.(buf := buf'), Some(Publish(New(w.id, REGISTRY_ID, buf'[..n]).value)))
      case BusRecv(RecvErr) => Pass(w.(status := Terminated(RecvFailed)), None)
      case BusRecv(RecvOk(m)) =>
        if ForClient(w.id, DstId(m)) then
          Pass(w.(status := if ok then Running else Terminated(WriteFailed)), Some(Write(WireBytes(m))))
        else Pass(w, None)
  }

  /** A failed publish is not fatal: the pass ends in the same state whether or not the publish succeeded. */
  lemma PublishFailureNotFatal(w: Worker, r: ReadResult)
    requires Valid(w)
    ensures Step(w, SocketRead(r), false) == Step(w, SocketRead(r), true)
  {
  }

  // ---------------------------------------------------------------------------
  // Runs of the loop

  /** An event together with the outcome of the action its pass attempts. */
  datatype Input = Input(ev: Event, ok: bool)

  /** The loop over a sequence of events: the final worker and the actions, in order. */
  function Run(w: Worker, ins: seq<Input>): (r: (Worker, seq<Action>))
    requires Valid(w)
    ensures Valid(r.0) && r.0.id == w.id
    ensures |r.1| <= |ins|
    ensures w.status.Terminated? ==> r == (w, [])
    ensures r.0.status == Running ==> w.status == Running
    decreases |ins|
  {
    if |ins| == 0 then (w, [])
    else
      var p := Step(w, ins[0].ev, ins[0].ok);
      var rest := Run(p.next, ins[1..]);
      (rest.0, (if p.action.Some? then [p.action.value] else []) + rest.1)
  }

  /**
    Closed-connection idempotence: after a zero-byte read the worker is terminated
    for good, whatever else happens, and nothing further is published or written.
   */
  lemma {:induction false} ClosedConnectionFinal(w: Worker, ok: bool, later: seq<Input>)
    requires Valid(w) && w.status == Running
    ensures Run(w, [Input(SocketRead(ReadOk([])), ok)] + later)
         == (w.(status := Terminated(PeerClosed)), [])
  {
    var ins := [Input(SocketRead(ReadOk([])), ok)] + later;
    assert ins[1..] == later;
  }

  /** The messages of `ms` that pass this client's destination filter, in order. */
  function Addressed(id: U16, ms: seq<Message>): (out: seq<Message>)
    ensures |out| <= |ms|
    ensures forall x :: x in out ==> x in ms && ForClient(id, DstId(x))
  {
    if |ms| == 0 then []
    else (if ForClient(id, DstId(ms[0])) then [ms[0]] else []) + Addressed(id, ms[1..])
  }

  /** Every message of `ms` that passes the filter is kept. */
  lemma {:induction false} AddressedComplete(id: U16, ms: seq<Message>)
    ensures forall x :: x in ms && ForClient(id, DstId(x)) ==> x in Addressed(id, ms)
    decreases |ms|
  {
    if |ms| > 0 {
      AddressedComplete(id, ms[1..]);
      forall x | x in ms && ForClient(id, DstId(x)) ensures x in Addressed(id, ms) {
        if x != ms[0] {
          assert x in ms[1..];
        }
      }
    }
  }

  /** The socket writes for a sequence of forwarded messages. */
  function Writes(ms: seq<Message>): (acts: seq<Action>)
    ensures |acts| == |ms|
    ensures forall i :: 0 <= i < |ms| ==> acts[i] == Write(WireBytes(ms[i]))
  {
    if |ms| == 0 then [] else [Write(WireBytes(ms[0]))] + Writes(ms[1..])
  }

  /** Each bus message received in turn, with every write succeeding. */
  function Deliveries(ms: seq<Message>): (ins: seq<Input>)
    ensures |ins| == |ms|
    ensures forall i :: 0 <= i < |ms| ==> ins[i] == Input(BusRecv(RecvOk(ms[i])), true)
  {
    if |ms| == 0 then [] else [Input(BusRecv(RecvOk(ms[0])), true)] + Deliveries(ms[1..])
  }

  /**
    A running worker fed a sequence of bus messages writes exactly the lines of
    the messages addressed to it or broadcast, in the order received, and keeps running.
   */
  lemma {:induction false} ForwardsAddressed(w: Worker, ms: seq<Message>)
    requires Valid(w) && w.status == Running
    ensures Run(w, Deliveries(ms)) == (w, Writes(Addressed(w.id, ms)))
    decreases |ms|
  {
    if |ms| > 0 {
      var ins := Deliveries(ms);
      assert ins[1..] == Deliveries(ms[1..]);
      var p := Step(w, ins[0].ev, ins[0].ok);
      assert p.next == w;
      ForwardsAddressed(w, ms[1..]);
      assert Run(w, ins) == (w, (if p.action.Some? then [p.action.value] else []) + Writes(Addressed(w.id, ms[1..])));
      if ForClient(w.id, DstId(ms[0])) {
        assert Addressed(w.id, ms) == [ms[0]] + Addressed(w.id, ms[1..]);
        assert Writes(Addressed(w.id, ms)) == [Write(WireBytes(ms[0]))] + Writes(Addressed(w.id, ms[1..]));
      } else {
        assert Addressed(w.id, ms) == Addressed(w.id, ms[1..]);
        assert p.action == None;
        assert [] + Writes(Addressed(w.id, ms[1..])) == Writes(Addressed(w.id, ms[1..]));
      }
    }
  }

  /** Each chunk read in turn, with every publish outcome arbitrary. */
  function Reads(chunks: seq<seq<Byte>>, oks: seq<bool>): (ins: seq<Input>)
    requires |oks| == |chunks|
    ensures |ins| == |chunks|
    ensures forall i :: 0 <= i < |chunks| ==> ins[i] == Input(SocketRead(ReadOk(chunks[i])), oks[i])
  {
    if |chunks| == 0 then [] else [Input(SocketRead(ReadOk(chunks[0])), oks[0])] + Reads(chunks[1..], oks[1..])
  }

  /** The registry-addressed messages a client with id `id` publishes for these chunks. */
  function Registrations(id: U16, chunks: seq<seq<Byte>>): (ms: seq<Message>)
    ensures |ms| == |chunks|
    ensures forall i :: 0 <= i < |chunks| ==> ms[i] == Message(id, REGISTRY_ID, chunks[i])
  {
    if |chunks| == 0 then [] else [Message(id, REGISTRY_ID, chunks[0])] + Registrations(id, chunks[1..])
  }

  function Publishes(ms: seq<Message>): (acts: seq<Action>)
    ensures |acts| == |ms|
    ensures forall i :: 0 <= i < |ms| ==> acts[i] == Publish(ms[i])
  {
    if |ms| == 0 then [] else [Publish(ms[0])] + Publishes(ms[1..])
  }

  /**
    A running worker that reads non-empty chunks of at most `BUFFER_SIZE` bytes
    publishes one registry-addressed message per read, carrying exactly the bytes
    read, in the order read, whether or not the publishes succeed; it keeps running.
   */
  lemma {:induction false} PublishesReads(w: Worker, chunks: seq<seq<Byte>>, oks: seq<bool>)
    requires Valid(w) && w.status == Running && |oks| == |chunks|
    requires forall i :: 0 <= i < |chunks| ==> 0 < |chunks[i]| <= BUFFER_SIZE
    ensures Run(w, Reads(chunks, oks)).0.status == Running
    ensures Run(w, Reads(chunks, oks)).1 == Publishes(Registrations(w.id, chunks))
    decreases |chunks|
  {
    if |chunks| > 0 {
      var ins := Reads(chunks, oks);
      assert ins[1..] == Reads(chunks[1..], oks[1..]);
      var p := Step(w, ins[0].ev, ins[0].ok);
      assert chunks[0][..Min(|chunks[0]|, BUFFER_SIZE)] == chunks[0];
      PublishesReads(p.next, chunks[1..], oks[1..]);
      assert Registrations(w.id, chunks)[1..] == Registrations(w.id, chunks[1..]);
      assert Publishes(Registrations(w.id, chunks))
          == [Publish(Message(w.id, REGISTRY_ID, chunks[0]))] + Publishes(Registrations(w.id, chunks[1..]));
    }
  }

  // ---------------------------------------------------------------------------
  // Interleaved runs

  /**
    An input the worker survives: a non-empty read that fits the buffer, or a bus
    message whose write, if one is attempted, succeeds.
   */
  predicate Sustaining(i: Input) {
    match i.ev
    case SocketRead(r) => r.ReadOk? && 0 < |r.chunk| <= BUFFER_SIZE
    case BusRecv(r) => r.RecvOk? && i.ok
  }

  /** The bus messages among the inputs, in order. */
  function BusMessages(ins: seq<Input>): seq<Message> {
    if |ins| == 0 then []
    else (if ins[0].ev.BusRecv? && ins[0].ev.recv.RecvOk? then [ins[0].ev.recv.msg] else []) + BusMessages(ins[1..])
  }

  /** The chunks read among the inputs, in order. */
  function Chunks(ins: seq<Input>): seq<seq<Byte>> {
    if |ins| == 0 then []
    else (if ins[0].ev.SocketRead? && ins[0].ev.read.ReadOk? then [ins[0].ev.read.chunk] else []) + Chunks(ins[1..])
  }

  /** The socket writes among the actions, in order. */
  function WriteActions(acts: seq<Action>): (ws: seq<Action>)
    ensures forall x :: x in ws ==> x in acts && x.Write?
  {
    if |acts| == 0 then []
    else (if acts[0].Write? then [acts[0]] else []) + WriteActions(acts[1..])
  }

  /** The publishes among the actions, in order. */
  function PublishActions(acts: seq<Action>): (ps: seq<Action>)
    ensures forall x :: x in ps ==> x in acts && x.Publish?
  {
    if |acts| == 0 then []
    else (if acts[0].Publish? then [acts[0]] else []) + PublishActions(acts[1..])
  }

  /**
    The two halves of the loop do not interfere. Whatever the interleaving of
    reads and bus messages the `select!` produces, a running worker writes exactly
    the lines of the bus messages addressed to it, in the order received, and
    publishes exactly one registry-addressed message per read, in the order read;
    it keeps running throughout.
   */
  lemma {:induction false} Interleaved(w: Worker, ins: seq<Input>)
    requires Valid(w) && w.status == Running
    requires forall i :: 0 <= i < |ins| ==> Sustaining(ins[i])
    ensures Run(w, ins).0.status == Running
    ensures WriteActions(Run(w, ins).1) == Writes(Addressed(w.id, BusMessages(ins)))
    ensures PublishActions(Run(w, ins).1) == Publishes(Registrations(w.id, Chunks(ins)))
    decreases |ins|
  {
    if |ins| > 0 {
      var p := Step(w, ins[0].ev, ins[0].ok);
      var rest := Run(p.next, ins[1..]);
      var a: seq<Action> := if p.action.Some? then [p.action.value] else [];
      SustainingStep(w, ins[0]);
      assert Run(w, ins) == (rest.0, a + rest.1);
      Interleaved(p.next, ins[1..]);
      ActionsCons(a, rest.1);
      if ins[0].ev.SocketRead? {
        var c := ins[0].ev.read.chunk;
        assert BusMessages(ins) == BusMessages(ins[1..]);
        assert Chunks(ins) == [c] + Chunks(ins[1..]);
        RegistrationsCons(w.id, c, Chunks(ins[1..]));
      } else {
        var m := ins[0].ev.recv.msg;
        assert Chunks(ins) == Chunks(ins[1..]);
        assert BusMessages(ins) == [m] + BusMessages(ins[1..]);
        AddressedWritesCons(w.id, m, BusMessages(ins[1..]));
      }
    }
  }

  /** One pass on a sustaining input: the worker keeps running and performs the expected action. */
  lemma SustainingStep(w: Worker, i: Input)
    requires Valid(w) && w.status == Running && Sustaining(i)
    ensures var p := Step(w, i.ev, i.ok);
            && p.next.status == Running
            && (i.ev.SocketRead? ==> p.action == Some(Publish(Message(w.id, REGISTRY_ID, i.ev.read.chunk))))
            && (i.ev.BusRecv? ==> p.action == if ForClient(w.id, DstId(i.ev.recv.msg)) then Some(Write(WireBytes(i.ev.recv.msg))) else None)
  {
    if i.ev.SocketRead? {
      var c := i.ev.read.chunk;
      assert c[..Min(|c|, BUFFER_SIZE)] == c;
    }
  }

  /** Splitting off the action of one pass. */
  lemma ActionsCons(a: seq<Action>, rest: seq<Action>)
    requires |a| <= 1
    ensures WriteActions(a + rest) == (if |a| == 1 && a[0].Write? then a else []) + WriteActions(rest)
    ensures PublishActions(a + rest) == (if |a| == 1 && a[0].Publish? then a else []) + PublishActions(rest)
  {
    if |a| == 1 {
      assert (a + rest)[0] == a[0] && (a + rest)[1..] == rest;
    } else {
      assert a + rest == rest;
    }
  }

  lemma RegistrationsCons(id: U16, c: seq<Byte>, cs: seq<seq<Byte>>)
    ensures Publishes(Registrations(id, [c] + cs)) == [Publish(Message(id, REGISTRY_ID, c))] + Publishes(Registrations(id, cs))
  {
    assert ([c] + cs)[1..] == cs;
    assert Registrations(id, [c] + cs) == [Message(id, REGISTRY_ID, c)] + Registrations(id, cs);
    assert Registrations(id, [c] + cs)[1..] == Registrations(id, cs);
  }

  lemma AddressedWritesCons(id: U16, m: Message, ms: seq<Message>)
    ensures Writes(Addressed(id, [m] + ms))
         == (if ForClient(id, DstId(m)) then [Write(WireBytes(m))] else []) + Writes(Addressed(id, ms))
  {
    assert ([m] + ms)[1..] == ms;
    if ForClient(id, DstId(m)) {
      assert Addressed(id, [m] + ms) == [m] + Addressed(id, ms);
      assert Writes([m] + Addressed(id, ms))[1..] == Writes(Addressed(id, ms));
    } else {
      assert Addressed(id, [m] + ms) == [] + Addressed(id, ms);
      assert [] + Addressed(id, ms) == Addressed(id, ms);
    }
  }
}

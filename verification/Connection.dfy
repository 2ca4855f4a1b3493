/** Both ends of one connection: packets are queued and flushed at one end while the network delivers what
    is on the wire and the other end reads. */
module Connection {
  import opened Common
  import opened Bytes
  import opened Framing
  import opened FrameReader

  datatype Event = Queue(packet: Packet) | Flush(connected: bool) | Deliver(count: nat) | Read

  /** The packets a schedule queues. */
  function Queued(schedule: seq<Event>): seq<Packet> {
    if schedule == [] then []
    else Queued(schedule[..|schedule| - 1])
         + var last := schedule[|schedule| - 1]; if last.Queue? then [last.packet] else []
  }

  class Link {
    const outgoing: SendQueue
    const incoming: PacketReader
    /** How much of the wire has been delivered. */
    var delivered: nat
    /** The reader has given the connection up. */
    var broken: bool

    /** What has been delivered is a part of the wire, and the reader has it all, in packets, in the
        partial one and unread. */
    ghost predicate Valid()
      reads this, outgoing, outgoing.socket, outgoing.queue, incoming, incoming.input, incoming.socket
    {
      && outgoing.Valid() && incoming.Valid() && delivered <= |outgoing.socket.wire|
      && incoming.received <= outgoing.packets
      && (!broken ==> incoming.Stream() == outgoing.socket.wire[..delivered])
    }

    ghost function Repr(): set<object>
      reads this, outgoing, incoming
    {
      {this, outgoing, outgoing.socket, incoming, incoming.socket} + (set b | b in outgoing.queue)
      + if incoming.input == null then {} else {incoming.input}
    }

    constructor (outgoing: SendQueue, incoming: PacketReader)
      requires outgoing.Valid() && outgoing.socket.wire == [] && outgoing.packets == []
      requires incoming.Valid() && incoming.received == [] && incoming.input == null && incoming.socket.unread == []
      ensures Valid() && !broken && this.outgoing == outgoing && this.incoming == incoming
    {
      this.outgoing := outgoing;
      this.incoming := incoming;
      delivered := 0;
      broken := false;
    }

    method QueuePacket(packet: Packet)
      requires Valid()
      modifies Repr()
      ensures Valid() && fresh(Repr() - old(Repr())) && broken == old(broken)
      ensures outgoing.packets == old(outgoing.packets) + [packet] && incoming.received == old(incoming.received)
    {
      ghost var buffer := outgoing.QueueBuffer(packet);
      assert Repr() == old(Repr()) + {buffer};
    }

    method FlushQueue(connected: bool)
      requires Valid()
      modifies Repr()
      ensures Valid() && Repr() <= old(Repr()) && broken == old(broken)
      ensures outgoing.packets == old(outgoing.packets) && incoming.received == old(incoming.received)
    {
      ghost var wire := outgoing.socket.wire;
      var ok := outgoing.FlushSendQueue(connected);
      assert outgoing.socket.wire[..delivered] == wire[..delivered];
    }

    /** The network hands over the next bytes of the wire, as many as there are. */
    method DeliverBytes(count: nat)
      requires Valid()
      modifies Repr()
      ensures Valid() && Repr() == old(Repr()) && broken == old(broken)
      ensures outgoing.packets == old(outgoing.packets) && incoming.received == old(incoming.received)
    {
      var wire := outgoing.socket.wire;
      var upTo := if delivered + count <= |wire| then delivered + count else |wire|;
      ghost var seen := Frames(incoming.received) + (if incoming.input == null then [] else incoming.input.Seen());
      Assoc(seen, incoming.socket.unread, wire[delivered..upTo]);
      assert wire[..upTo] == wire[..delivered] + wire[delivered..upTo];
      incoming.socket.unread := incoming.socket.unread + wire[delivered..upTo];
      delivered := upTo;
    }

    method ReadOnce()
      requires Valid() && !broken
      modifies Repr()
      ensures Valid() && fresh(Repr() - old(Repr()))
      ensures outgoing.packets == old(outgoing.packets) && old(incoming.received) <= incoming.received
    {
      var status, packet := incoming.ReadEvent();
      broken := status == RecvFailed || status == OutOfRange;
      if !broken {
        InOrder();
      }
    }

    /** The reader is never ahead of the sender. */
    lemma InOrder()
      requires outgoing.Valid() && incoming.Valid() && delivered <= |outgoing.socket.wire|
      requires incoming.Stream() == outgoing.socket.wire[..delivered]
      ensures incoming.received <= outgoing.packets
    {
      var wire, rest := outgoing.socket.wire, Remaining(outgoing.queue);
      PrefixAndRest(wire[..delivered], wire);
      assert wire[..delivered] <= wire + rest;
      ReceivedInOrder(incoming.received, if incoming.input == null then [] else incoming.input.Seen(),
                      incoming.socket.unread, outgoing.packets);
    }

    /** Nothing is queued, on the wire, unread or half read. */
    ghost predicate Quiet()
      reads this, outgoing, outgoing.socket, incoming, incoming.socket
    {
      && outgoing.queue == [] && delivered == |outgoing.socket.wire|
      && incoming.socket.unread == [] && incoming.input == null
    }

    lemma QuietIsComplete()
      requires Valid() && !broken && Quiet()
      ensures incoming.received == outgoing.packets
    {
      var wire, received, packets := outgoing.socket.wire, incoming.received, outgoing.packets;
      assert wire + [] == wire && wire[..|wire|] == wire && Frames(received) + [] + [] == Frames(received);
      RebuiltIsPrefix(received, [], packets, []);
      assert [] + [] == Frames(packets[|received|..]);
    }

    /** After every schedule of queueing, flushing with short sends, delivery of any part of the wire and
        reads with short receives: the packets received are the first ones queued, in order; and when
        nothing is under way any more, all of them. */
    method Run(schedule: seq<Event>)
      requires Valid() && !broken
      modifies Repr()
      ensures Valid() && outgoing.packets == old(outgoing.packets) + Queued(schedule)
      ensures old(incoming.received) <= incoming.received <= old(outgoing.packets) + Queued(schedule)
      ensures !broken && Quiet() ==> incoming.received == old(outgoing.packets) + Queued(schedule)
    {
      ghost var before := outgoing.packets;
      assert before + Queued([]) == before;
      for i := 0 to |schedule|
        invariant Valid() && fresh(Repr() - old(Repr()))
        invariant outgoing.packets == before + Queued(schedule[..i]) && old(incoming.received) <= incoming.received
      {
        assert schedule[..i + 1][..i] == schedule[..i];
        QueuedNext(before, schedule, i);
        match schedule[i] {
          case Queue(packet) => QueuePacket(packet);
          case Flush(connected) => FlushQueue(connected);
          case Deliver(count) => DeliverBytes(count);
          case Read =>
            if !broken {
              ReadOnce();
            }
        }
      }
      assert schedule[..|schedule|] == schedule;
      if !broken && Quiet() {
        QuietIsComplete();
      }
    }
  }

  lemma QueuedNext(before: seq<Packet>, schedule: seq<Event>, i: nat)
    requires i < |schedule|
    ensures before + Queued(schedule[..i + 1])
            == before + Queued(schedule[..i]) + if schedule[i].Queue? then [schedule[i].packet] else []
  {
    assert schedule[..i + 1][..i] == schedule[..i];
  }
}

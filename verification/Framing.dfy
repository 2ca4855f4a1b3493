/** Length-prefixed packets over a socket that may send and receive any part of what it is asked for:
    the client's send queue and its input buffer. */
module Framing {
  import opened Common
  import opened Bytes

  /** The longest packet whose length plus the header still fits an int32. */
  const MAX_PACKET := MAX_INT32 - 4
  const HEADER_SIZE := 4
  const CONN_LOSS_RETRIES := 5

  type Packet = p: seq<byte> | |p| <= MAX_PACKET

  function Frame(p: Packet): seq<byte> {
    Be32(|p|) + p
  }

  function Frames(ps: seq<Packet>): seq<byte> {
    if ps == [] then [] else Frame(ps[0]) + Frames(ps[1..])
  }

  // ----- Frames determine their packets -----

  lemma FrameSplits(p: Packet, x: seq<byte>, q: Packet, y: seq<byte>)
    requires Frame(p) + x == Frame(q) + y
    ensures p == q && x == y
  {
    var s := Frame(p) + x;
    assert s[..4] == Be32(|p|) && s[..4] == Be32(|q|);
    Be32RoundTrip(|p|);
    Be32RoundTrip(|q|);
    assert p == s[4..4 + |p|] && q == s[4..4 + |q|];
    assert x == s[4 + |p|..] && y == s[4 + |q|..];
  }

  lemma {:induction false} FramesAppend(ps: seq<Packet>, qs: seq<Packet>)
    ensures Frames(ps + qs) == Frames(ps) + Frames(qs)
  {
    if ps == [] {
      assert ps + qs == qs;
    } else {
      assert (ps + qs)[1..] == ps[1..] + qs;
      FramesAppend(ps[1..], qs);
    }
  }

  lemma FramesGrow(ps: seq<Packet>, p: Packet)
    ensures Frames(ps + [p]) == Frames(ps) + Frame(p)
  {
    FramesAppend(ps, [p]);
    assert Frames([p][1..]) == [];
  }

  /** Packets rebuilt from the start of a stream of frames are the first packets sent, as far as the
      stream goes. */
  lemma {:induction false} RebuiltIsPrefix(rebuilt: seq<Packet>, pending: seq<byte>, sent: seq<Packet>,
                                           later: seq<byte>)
    requires Frames(rebuilt) + pending + later == Frames(sent)
    ensures rebuilt <= sent
    ensures pending + later == Frames(sent[|rebuilt|..])
    decreases |rebuilt|
  {
    if rebuilt == [] {
      assert Frames(rebuilt) + pending + later == pending + later;
    } else {
      var rest := Frames(rebuilt[1..]) + pending + later;
      assert Frames(rebuilt) + pending + later == Frame(rebuilt[0]) + rest;
      assert sent != [];
      FrameSplits(rebuilt[0], rest, sent[0], Frames(sent[1..]));
      RebuiltIsPrefix(rebuilt[1..], pending, sent[1..], later);
      assert rebuilt == [rebuilt[0]] + rebuilt[1..] && sent == [sent[0]] + sent[1..];
    }
  }

  // ----- Sending -----

  datatype SendStatus = SendFailed | Blocked | Sent

  /** A socket that takes as much of the bytes it is given as it likes, or fails. */
  class Outlet {
    var wire: seq<byte>
    /** How many sends have failed, and whether the last one took less than it was given. */
    ghost var failures: nat
    ghost var short: bool

    method Send(data: seq<byte>) returns (rc: int, again: bool)
      modifies this
      ensures -1 <= rc <= |data|
      ensures wire == old(wire) + (if rc < 0 then [] else data[..rc])
      ensures failures == old(failures) + (if rc < 0 && !again then 1 else 0) && short == (rc < |data|)
    {
      rc :| -1 <= rc <= |data|;
      again := *;
      if rc >= 0 {
        wire := wire + data[..rc];
      } else if !again {
        failures := failures + 1;
      }
      short := rc < |data|;
    }
  }

  class SendBuffer {
    const packet: Packet
    var offset: nat

    ghost predicate Valid()
      reads this
    {
      offset <= HEADER_SIZE + |packet|
    }

    /** The part of the frame not yet handed to the socket. */
    ghost function Unsent(): seq<byte>
      requires Valid()
      reads this
    {
      Frame(packet)[offset..]
    }

    constructor (packet: Packet)
      ensures this.packet == packet && offset == 0 && Valid() && Unsent() == Frame(packet)
    {
      this.packet := packet;
      offset := 0;
    }

    /** The wire takes the next bytes of the frame, however many; the result says whether that was all
        of them. */
    method Send(socket: Outlet) returns (status: SendStatus)
      requires Valid()
      modifies this, socket
      ensures Valid() && offset >= old(offset)
      ensures socket.wire == old(socket.wire) + Frame(packet)[old(offset)..offset]
      ensures status == Sent <==> status != SendFailed && Unsent() == []
      ensures socket.failures == old(socket.failures) + (if status == SendFailed then 1 else 0)
      ensures status == Blocked ==> socket.short
    {
      ghost var wire, start, frame := socket.wire, offset, Frame(packet);
      var off := offset;
      if off < HEADER_SIZE {
        var header := Be32(|packet|);
        var rc, again := socket.Send(header[off..]);
        if rc == -1 {
          return if again then Blocked else SendFailed;
        }
        HeaderSlice(header, packet, off, rc);
        offset := off + rc;
        off := offset;
      }
      Glue(wire, frame, start, off, off);
      status := Blocked;
      if off >= HEADER_SIZE {
        status := SendPayload(socket);
        Glue(wire, frame, start, off, offset);
      }
    }

    /** The second half of send_buffer, once the header is out. */
    method SendPayload(socket: Outlet) returns (status: SendStatus)
      requires Valid() && offset >= HEADER_SIZE
      modifies this, socket
      ensures Valid() && offset >= old(offset)
      ensures socket.wire == old(socket.wire) + Frame(packet)[old(offset)..offset]
      ensures status == Sent <==> status != SendFailed && Unsent() == []
      ensures socket.failures == old(socket.failures) + (if status == SendFailed then 1 else 0)
      ensures status == Blocked ==> socket.short
    {
      var at := offset - HEADER_SIZE;
      var rc, again := socket.Send(packet[at..]);
      if rc == -1 {
        if !again {
          return SendFailed;
        }
      } else {
        PayloadSlice(Be32(|packet|), packet, at, rc);
        offset := offset + rc;
      }
      status := if offset == HEADER_SIZE + |packet| then Sent else Blocked;
    }
  }

  lemma HeaderSlice(header: seq<byte>, payload: seq<byte>, off: nat, n: nat)
    requires off + n <= |header|
    ensures header[off..][..n] == (header + payload)[off..off + n]
  {
  }

  lemma PayloadSlice(header: seq<byte>, payload: seq<byte>, off: nat, n: nat)
    requires off + n <= |payload|
    ensures payload[off..][..n] == (header + payload)[|header| + off..|header| + off + n]
  {
  }

  lemma Glue(wire: seq<byte>, frame: seq<byte>, a: nat, b: nat, c: nat)
    requires a <= b <= c <= |frame|
    ensures wire + frame[a..b] + frame[b..c] == wire + frame[a..c]
    ensures frame[b..b] == [] && wire + [] == wire
  {
  }

  // ----- The send queue -----

  /** What the buffers of a queue still have to send. */
  ghost function Remaining(queue: seq<SendBuffer>): seq<byte>
    requires forall b | b in queue :: b.Valid()
    reads queue
  {
    if queue == [] then [] else queue[0].Unsent() + Remaining(queue[1..])
  }

  lemma {:induction false} RemainingAppend(queue: seq<SendBuffer>, b: SendBuffer)
    requires b.Valid() && forall q | q in queue :: q.Valid()
    ensures Remaining(queue + [b]) == Remaining(queue) + b.Unsent()
    decreases |queue|
  {
    if queue == [] {
      assert Remaining([b][1..]) == [];
    } else {
      assert (queue + [b])[1..] == queue[1..] + [b];
      RemainingAppend(queue[1..], b);
    }
  }

  /** The wire and what the buffers of a queue still hold make the frames of the packets. */
  ghost predicate Accounted(wire: seq<byte>, queue: seq<SendBuffer>, packets: seq<Packet>)
    reads queue
  {
    && (forall b | b in queue :: b.Valid())
    && (forall i, j | 0 <= i < j < |queue| :: queue[i] != queue[j])
    && wire + Remaining(queue) == Frames(packets)
  }

  lemma QueueGrows(wire: seq<byte>, queue: seq<SendBuffer>, b: SendBuffer, packets: seq<Packet>)
    ensures Accounted(wire, queue, packets) && b !in queue && b.offset == 0
            ==> Accounted(wire, queue + [b], packets + [b.packet])
  {
    if Accounted(wire, queue, packets) && b !in queue && b.offset == 0 {
      RemainingAppend(queue, b);
      FramesGrow(packets, b.packet);
      Assoc(wire, Remaining(queue), Frame(b.packet));
    }
  }

  class SendQueue {
    const socket: Outlet
    var queue: seq<SendBuffer>
    ghost var packets: seq<Packet>

    /** Everything queued so far is on the wire or still in the queue. */
    ghost predicate Valid()
      reads this, socket, queue
    {
      Accounted(socket.wire, queue, packets)
    }

    constructor (socket: Outlet)
      requires socket.wire == []
      ensures Valid() && this.socket == socket && packets == []
    {
      this.socket := socket;
      queue := [];
      packets := [];
    }

    method QueueBuffer(packet: Packet) returns (ghost b: SendBuffer)
      requires Valid()
      modifies this
      ensures Valid() && packets == old(packets) + [packet] && socket.wire == old(socket.wire)
      ensures fresh(b) && queue == old(queue) + [b]
    {
      var buffer := new SendBuffer(packet);
      b := buffer;
      assert b !in queue;
      QueueGrows(socket.wire, queue, b, packets);
      queue, packets := queue + [buffer], packets + [packet];
    }

    /** flush_send_queue without a timeout: stops when nothing is left or a send would block, and gives up
        exactly when one failure more than the allowed retries has come. */
    method FlushSendQueue(connected: bool) returns (ok: bool)
      requires Valid()
      modifies this, socket, queue
      ensures Valid() && packets == old(packets) && old(socket.wire) <= socket.wire
      ensures !connected ==> ok && socket.wire == old(socket.wire)
      ensures connected && ok ==> queue == [] || socket.short
      ensures ok <==> socket.failures <= old(socket.failures) + CONN_LOSS_RETRIES
      ensures !ok ==> socket.failures == old(socket.failures) + CONN_LOSS_RETRIES + 1
      ensures forall b | b in queue :: b in old(queue)
    {
      ok := true;
      var tries := 0;
      ghost var removed := 0;
      while queue != [] && connected
        invariant 0 <= removed <= |old(queue)| && queue == old(queue)[removed..]
        invariant Valid() && packets == old(packets) && old(socket.wire) <= socket.wire
            && 0 <= tries <= CONN_LOSS_RETRIES
        invariant !connected ==> socket.wire == old(socket.wire)
        invariant socket.failures == old(socket.failures) + tries
        decreases |queue|, CONN_LOSS_RETRIES - tries
      {
        assert queue[0] == old(queue)[removed];
        var status := SendFront();
        if status == Blocked {
          return true;
        }
        if status == SendFailed {
          if tries < CONN_LOSS_RETRIES {
            tries := tries + 1;
            continue;
          }
          return false;
        }
        RemoveBuffer();
        removed := removed + 1;
      }
    }

    method RemoveBuffer()
      requires Valid() && queue != [] && queue[0].Unsent() == []
      modifies `queue
      ensures Valid() && queue == old(queue)[1..]
    {
      assert [] + Remaining(queue[1..]) == Remaining(queue[1..]);
      queue := queue[1..];
    }

    method SendFront() returns (status: SendStatus)
      requires Valid() && queue != []
      modifies socket, queue[0]
      ensures Valid() && old(socket.wire) <= socket.wire
      ensures status == Sent ==> queue[0].Unsent() == []
      ensures socket.failures == old(socket.failures) + (if status == SendFailed then 1 else 0)
      ensures status == Blocked ==> socket.short
    {
      ghost var front, wire, start, rest := queue[0], socket.wire, queue[0].offset, Remaining(queue[1..]);
      status := queue[0].Send(socket);
      Conserved(wire, Frame(front.packet), start, front.offset, rest);
    }
  }

  lemma Conserved(wire: seq<byte>, frame: seq<byte>, a: nat, b: nat, rest: seq<byte>)
    requires a <= b <= |frame|
    ensures wire + frame[a..b] + (frame[b..] + rest) == wire + (frame[a..] + rest)
  {
  }
}

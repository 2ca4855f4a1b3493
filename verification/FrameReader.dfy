/** The receiving side: an input buffer filled by short receives, and the packets it rebuilds. */
module FrameReader {
  import opened Common
  import opened Bytes
  import opened Framing

  datatype Status = RecvFailed | Incomplete | Complete | OutOfRange

  /** A socket that delivers any part of what the peer has sent, nothing yet, or an error. */
  class Inlet {
    var unread: seq<byte>

    /** Zero bytes mean that the peer has closed, or that none were asked for. */
    method Recv(size: nat) returns (rc: int, again: bool, got: seq<byte>)
      modifies this
      ensures -1 <= rc <= size && |got| == (if rc < 0 then 0 else rc)
      ensures got + unread == old(unread)
    {
      rc :| -1 <= rc <= size && rc <= |unread|;
      again := *;
      got := if rc < 0 then [] else unread[..rc];
      unread := unread[|got|..];
    }
  }

  // ----- The length field, as it lies in memory -----

  function Swapped(mem: seq<byte>): (m: seq<byte>)
    requires |mem| == 4
    ensures |m| == 4
  {
    [mem[3], mem[2], mem[1], mem[0]]
  }

  /** The int32 that four bytes of memory hold on a little-endian or a big-endian host. */
  function InMemory(mem: seq<byte>, little: bool): (n: int)
    requires |mem| == 4
  {
    Signed32(Be32Value(if little then Swapped(mem) else mem))
  }

  /** ntohl, in place. */
  function ToHost(mem: seq<byte>, little: bool): (m: seq<byte>)
    requires |mem| == 4
    ensures |m| == 4
  {
    if little then Swapped(mem) else mem
  }

  lemma ToHostReadsNetworkOrder(mem: seq<byte>, little: bool)
    requires |mem| == 4
    ensures InMemory(ToHost(mem, little), little) == Signed32(Be32Value(mem))
  {
    assert Swapped(Swapped(mem)) == mem;
  }

  /** A partly read length never looks like the end of a packet, whatever the byte order. */
  lemma PartialLengthNeverMatches(mem: seq<byte>, little: bool, offset: nat)
    requires |mem| == 4 && offset < 4 && (forall i | offset <= i < 4 :: mem[i] == 0)
    ensures offset != InMemory(mem, little) + HEADER_SIZE
  {
    assert mem[3] == 0;
    var n := Be32Value(if little then Swapped(mem) else mem);
    if little {
      assert n < 0x100_0000;
    } else {
      assert n % 256 == 0 by { assert n == (mem[0] as int * 0x1_0000 + mem[1] as int * 0x100 + mem[2] as int) * 256; }
    }
  }

  class InputBuffer {
    const little: bool
    var length: seq<byte>
    var buffer: seq<byte>
    var offset: nat

    ghost predicate Valid()
      reads this
    {
      && |length| == 4
      && (offset < HEADER_SIZE ==> buffer == [] && forall i | offset <= i < 4 :: length[i] == 0)
      && (offset >= HEADER_SIZE ==>
            offset <= HEADER_SIZE + |buffer| && |buffer| <= MAX_PACKET && InMemory(length, little) == |buffer|)
    }

    /** The bytes of the current frame read so far. */
    ghost function Seen(): seq<byte>
      requires Valid()
      reads this
    {
      if offset < HEADER_SIZE then length[..offset] else Be32(|buffer|) + buffer[..offset - HEADER_SIZE]
    }

    constructor (little: bool)
      ensures Valid() && Seen() == [] && this.little == little
    {
      this.little := little;
      length := [0, 0, 0, 0];
      buffer := [];
      offset := 0;
    }

    /** The length part of recv_buffer; `stop` answers that the call returns here. */
    method RecvLength(socket: Inlet) returns (stop: bool, status: Status)
      requires Valid() && offset < HEADER_SIZE
      modifies this, socket
      ensures status != OutOfRange ==> Valid() && Seen() + socket.unread == old(Seen() + socket.unread)
      ensures stop ==> status != Complete
      ensures !stop ==> status == Incomplete
      ensures stop && status == Incomplete ==> offset < HEADER_SIZE
    {
      var rc, again, got := socket.Recv(HEADER_SIZE - offset);
      if rc <= 0 {
        assert got == [] && [] + socket.unread == socket.unread;
        return true, if rc == -1 && again then Incomplete else RecvFailed;
      }
      Filled(length, offset, got, socket.unread);
      length := length[..offset] + got + length[offset + rc..];
      offset := offset + rc;
      if offset == HEADER_SIZE {
        ghost var header := length;
        length := ToHost(length, little);
        ToHostReadsNetworkOrder(header, little);
        var size := InMemory(length, little);
        if size < 0 || size > MAX_PACKET {
          return true, OutOfRange;
        }
        buffer := seq(size, i => 0);
        Be32Unique(header);
        assert Seen() == header[..4];
      }
      return false, Incomplete;
    }

    method RecvPayload(socket: Inlet) returns (ok: bool)
      requires Valid() && offset >= HEADER_SIZE
      modifies this, socket
      ensures Valid() && offset >= HEADER_SIZE && Seen() + socket.unread == old(Seen() + socket.unread)
    {
      var at := offset - HEADER_SIZE;
      var rc, again, got := socket.Recv(InMemory(length, little) - at);
      if rc <= 0 {
        assert got == [] && [] + socket.unread == socket.unread;
        return rc == -1 && again;
      }
      Filled(buffer, at, got, socket.unread);
      Assoc(Be32(|buffer|), buffer[..at] + got, socket.unread);
      Assoc(Be32(|buffer|), buffer[..at], got + socket.unread);
      buffer := buffer[..at] + got + buffer[at + rc..];
      offset := offset + rc;
      ok := true;
    }

    /** recv_buffer: exactly the bytes taken from the socket are added to what was seen, and the frame
        is reported complete only when all of it was. */
    method Recv(socket: Inlet) returns (status: Status)
      requires Valid()
      modifies this, socket
      ensures status != OutOfRange ==> Valid() && Seen() + socket.unread == old(Seen() + socket.unread)
      ensures status == Complete ==> Seen() == Frame(buffer)
      ensures status == Incomplete ==> offset < HEADER_SIZE + |buffer|
    {
      if offset < HEADER_SIZE {
        var stop;
        stop, status := RecvLength(socket);
        if stop {
          return;
        }
      }
      if offset >= HEADER_SIZE {
        var ok := RecvPayload(socket);
        if !ok {
          return RecvFailed;
        }
        assert buffer[..|buffer|] == buffer;
      } else {
        PartialLengthNeverMatches(length, little, offset);
      }
      status := if offset == InMemory(length, little) + HEADER_SIZE then Complete else Incomplete;
    }
  }

  /** Storing what was got at the end of what was there. */
  lemma Filled(data: seq<byte>, at: nat, got: seq<byte>, unread: seq<byte>)
    requires at + |got| <= |data|
    ensures (data[..at] + got + data[at + |got|..])[..at + |got|] == data[..at] + got
    ensures |data[..at] + got + data[at + |got|..]| == |data|
    ensures data[..at] + (got + unread) == data[..at] + got + unread
  {
  }

  // ----- Rebuilding packets -----

  class PacketReader {
    const little: bool
    const socket: Inlet
    var input: InputBuffer?
    ghost var received: seq<Packet>

    ghost predicate Valid()
      reads this, input
    {
      input != null ==> input.Valid() && input.little == little
    }

    /** Everything taken from the socket so far, and everything still to come. */
    ghost function Stream(): seq<byte>
      requires Valid()
      reads this, input, socket
    {
      Frames(received) + (if input == null then [] else input.Seen()) + socket.unread
    }

    constructor (socket: Inlet, little: bool)
      ensures Valid() && this.socket == socket && received == [] && input == null
    {
      this.socket := socket;
      this.little := little;
      input := null;
      received := [];
    }

    /** One read event: receives again after a failure until the retries are used up, and hands over
        the packet when it is complete. */
    method ReadEvent() returns (status: Status, packet: Packet)
      requires Valid()
      modifies this, input, socket
      ensures Valid()
      ensures status == Complete ==> received == old(received) + [packet] && input == null && Stream() == old(Stream())
      ensures status == Incomplete ==> received == old(received) && Stream() == old(Stream())
      ensures status == RecvFailed || status == OutOfRange ==> received == old(received) && input == null
      ensures input == null || input == old(input) || fresh(input)
    {
      packet := [];
      if input == null {
        input := new InputBuffer(little);
      }
      ghost var stream := Stream();
      var b: InputBuffer := input;
      var tries := 0;
      status := RecvFailed;
      while status == RecvFailed && tries < CONN_LOSS_RETRIES
        invariant input == b && received == old(received)
        invariant status != OutOfRange ==> Valid() && Stream() == stream
        invariant status == Complete ==> b.Seen() == Frame(b.buffer)
        decreases CONN_LOSS_RETRIES - tries
      {
        ghost var seen, unread := b.Seen(), socket.unread;
        status := b.Recv(socket);
        Assoc(Frames(received), seen, unread);
        if status != OutOfRange {
          Assoc(Frames(received), b.Seen(), socket.unread);
        }
        tries := tries + 1;
      }
      if status == Complete {
        packet := b.buffer;
        FramesGrow(received, packet);
        received := received + [packet];
        input := null;
        assert Frames(received) + [] == Frames(received);
      } else if status != Incomplete {
        input := null;
      }
    }
  }

  lemma PrefixAndRest(front: seq<byte>, all: seq<byte>)
    requires front <= all
    ensures front + all[|front|..] == all
  {
  }

  /** When the bytes that have arrived are a prefix of the frames of the packets sent, the packets received
      are the first ones sent, in order, and what is pending starts the next. */
  lemma ReceivedInOrder(received: seq<Packet>, seen: seq<byte>, unread: seq<byte>, sent: seq<Packet>)
    requires Frames(received) + seen + unread <= Frames(sent)
    ensures received <= sent && seen <= Frames(sent[|received|..])
  {
    var front := Frames(received) + seen;
    var later := Frames(sent)[|front + unread|..];
    PrefixAndRest(front + unread, Frames(sent));
    Assoc(front, unread, later);
    RebuiltIsPrefix(received, seen, sent, unread + later);
  }
}

/** The output transport's growing buffer with room for a frame size in front, and the input transport's
    reading of that size. All sizes are 32-bit. */
module FrameBuffer {
  import opened Bytes
  import FrameReader

  const DEFAULT_BUFFER_SIZE := 512
  const HEADER_SIZE := 4
  const LIMIT := MAX_INT32

  // ----- Doubling -----

  /** The first size reached by doubling that is enough; an empty buffer starts from one. */
  function DoubledTo(size: nat, need: nat): (n: nat)
    requires size > 0
    ensures n >= need && (n == size || n < 2 * need)
    decreases if size < need then need - size else 0
  {
    if size < need then DoubledTo(size * 2, need) else size
  }

  /** The doubling loop in 32-bit arithmetic: it ends and never wraps, because the size it doubles is
      below the limit. */
  method GrowTo(size: nat, need: nat) returns (newSize: nat)
    requires size < TWO_32 && need <= LIMIT
    ensures newSize == if need == 0 then size else DoubledTo(if size == 0 then 1 else size, need)
    ensures newSize >= need && newSize < TWO_32 && (newSize == size || newSize < 2 * need)
  {
    newSize := size;
    while newSize < need
      invariant newSize < TWO_32 && (newSize == size || newSize < 2 * need)
      invariant newSize > 0 && size > 0 ==> DoubledTo(newSize, need) == DoubledTo(size, need)
      invariant newSize > 0 && size == 0 ==> need > 0 && DoubledTo(newSize, need) == DoubledTo(1, need)
      decreases need - newSize
    {
      newSize := if newSize > 0 then newSize * 2 % TWO_32 else 1;
    }
  }

  /** Sizes from which doubling arrives exactly at 2^31. */
  predicate Doubles(n: nat)
    decreases LIMIT + 1 - n
  {
    n == LIMIT + 1 || (0 < n <= (LIMIT + 1) / 2 && Doubles(2 * n))
  }

  lemma DefaultDoubles()
    ensures Doubles(DEFAULT_BUFFER_SIZE)
  {
    assert Doubles(0x8000_0000);
    assert Doubles(0x4000_0000) && Doubles(0x2000_0000) && Doubles(0x1000_0000) && Doubles(0x800_0000);
    assert Doubles(0x400_0000) && Doubles(0x200_0000) && Doubles(0x100_0000) && Doubles(0x80_0000);
    assert Doubles(0x40_0000) && Doubles(0x20_0000) && Doubles(0x10_0000) && Doubles(0x8_0000);
    assert Doubles(0x4_0000) && Doubles(0x2_0000) && Doubles(0x1_0000) && Doubles(0x8000);
    assert Doubles(0x4000) && Doubles(0x2000) && Doubles(0x1000) && Doubles(0x800) && Doubles(0x400);
  }

  /** Growing for anything below the limit stays among those sizes, so the buffer never exceeds 2^31
      bytes. */
  lemma {:induction false} GrowthStays(size: nat, need: nat)
    requires Doubles(size) && size > 0 && need <= LIMIT
    ensures Doubles(DoubledTo(size, need)) && size <= DoubledTo(size, need) <= LIMIT + 1
    decreases LIMIT + 1 - size
  {
    if size < need {
      GrowthStays(size * 2, need);
    }
  }

  /** From the default size on, the buffer can reach that bound for a sum below the limit. */
  lemma BoundIsReached()
    ensures DoubledTo(DEFAULT_BUFFER_SIZE, LIMIT) == LIMIT + 1
  {
    DefaultDoubles();
    DoublesReach(DEFAULT_BUFFER_SIZE);
  }

  lemma {:induction false} DoublesReach(size: nat)
    requires Doubles(size) && size > 0
    ensures DoubledTo(size, LIMIT) == LIMIT + 1
    decreases LIMIT + 1 - size
  {
    if size < LIMIT {
      DoublesReach(2 * size);
    }
  }

  /** What a series of writes hands over. */
  function Joined(writes: seq<seq<byte>>): seq<byte> {
    if writes == [] then [] else Joined(writes[..|writes| - 1]) + writes[|writes| - 1]
  }

  lemma {:induction false} JoinedGrows(writes: seq<seq<byte>>, n: nat)
    requires n <= |writes|
    ensures |Joined(writes[..n])| <= |Joined(writes)|
    decreases |writes| - n
  {
    if n == |writes| {
      assert writes[..n] == writes;
    } else {
      assert writes[..n + 1][..n] == writes[..n];
      JoinedGrows(writes, n + 1);
    }
  }

  class OutputTransport {
    var buf: array<byte>
    /** wBase_, as an offset into the buffer; wBound_ is its end. */
    var base: nat
    /** What has been written since the last flush. */
    ghost var payload: seq<byte>

    /** The buffer is the pad followed by the payload, with room behind. */
    ghost predicate Valid()
      reads this, buf
    {
      && HEADER_SIZE <= base <= buf.Length <= LIMIT + 1
      && buf.Length >= DEFAULT_BUFFER_SIZE
      && Doubles(buf.Length)
      && buf[HEADER_SIZE..base] == payload
    }

    constructor ()
      ensures Valid() && payload == [] && fresh(buf)
    {
      buf := new byte[DEFAULT_BUFFER_SIZE](i => 0);
      base := HEADER_SIZE;
      payload := [];
      new;
      DefaultDoubles();
    }

    /** write: into the room left, or after growing; over the limit it throws and changes nothing. */
    method Write(data: seq<byte>) returns (ok: bool)
      requires Valid() && |data| < TWO_32
      modifies this, buf
      ensures Valid() && (buf == old(buf) || fresh(buf))
      ensures ok <==> !(|data| > old(buf).Length - old(base) && old(base) + |data| > LIMIT)
      ensures payload == if ok then old(payload) + data else old(payload)
    {
      if |data| <= buf.Length - base {
        Copy(data);
        return true;
      }
      ok := WriteSlow(data);
    }

    /** memcpy at wBase_. */
    method Copy(data: seq<byte>)
      requires Valid() && |data| <= buf.Length - base
      modifies `base, `payload, buf
      ensures Valid() && payload == old(payload) + data && base == old(base) + |data|
    {
      var i := 0;
      while i < |data|
        invariant 0 <= i <= |data| && base == old(base) && payload == old(payload)
        invariant buf[HEADER_SIZE..base] == payload && buf[base..base + i] == data[..i]
      {
        buf[base + i] := data[i];
        i := i + 1;
      }
      assert data[..|data|] == data && buf[base..base + |data|] == data;
      assert buf[HEADER_SIZE..base + |data|] == buf[HEADER_SIZE..base] + buf[base..base + |data|];
      base := base + |data|;
      payload := payload + data;
    }

    method WriteSlow(data: seq<byte>) returns (ok: bool)
      requires Valid() && buf.Length - base < |data| < TWO_32
      modifies this, buf
      ensures Valid() && (buf == old(buf) || fresh(buf))
      ensures ok <==> old(base) + |data| <= LIMIT
      ensures payload == if ok then old(payload) + data else old(payload)
    {
      var have := base;
      var sum := (|data| + have) % TWO_32;
      if sum < have || sum > LIMIT {
        return false;
      }
      var newSize := GrowTo(buf.Length, sum);
      GrowthStays(buf.Length, sum);
      var newBuf := new byte[newSize](i requires 0 <= i < newSize reads this, buf =>
                                        if i < have && i < buf.Length then buf[i] else 0);
      assert newBuf[HEADER_SIZE..have] == buf[HEADER_SIZE..have];
      buf := newBuf;
      Copy(data);
      ok := true;
    }

    /** The frame handed to the asynchronous write: the size of the payload in network order, then the
        payload; nothing is handed over when there is none. */
    method Flush() returns (frame: seq<byte>)
      requires Valid()
      modifies this, buf
      ensures Valid() && buf == old(buf) && payload == []
      ensures frame == if old(payload) == [] then [] else Be32(|old(payload)|) + old(payload)
    {
      var size := base - HEADER_SIZE;
      var header := Be32(size);
      ghost var body := payload;
      buf[0], buf[1], buf[2], buf[3] := header[0], header[1], header[2], header[3];
      assert buf[..HEADER_SIZE] == header && buf[HEADER_SIZE..base] == body;
      frame := [];
      if size > 0 {
        base := HEADER_SIZE;
        payload := [];
        frame := buf[..HEADER_SIZE + size];
        assert frame == buf[..HEADER_SIZE] + buf[HEADER_SIZE..HEADER_SIZE + size];
      }
    }

    /** A series of writes: the buffer collects them until one throws, which only happens above the
        limit. */
    method WriteAll(writes: seq<seq<byte>>) returns (done: nat)
      requires Valid() && payload == [] && forall w | w in writes :: |w| < TWO_32
      modifies this, buf
      ensures Valid() && (buf == old(buf) || fresh(buf))
      ensures done <= |writes| && payload == Joined(writes[..done])
      ensures done < |writes| ==> |Joined(writes)| + HEADER_SIZE > LIMIT
    {
      done := 0;
      while done < |writes|
        invariant done <= |writes| && Valid() && (buf == old(buf) || fresh(buf)) && payload == Joined(writes[..done])
      {
        assert writes[..done + 1][..done] == writes[..done];
        JoinedGrows(writes, done + 1);
        var ok := Write(writes[done]);
        if !ok {
          return;
        }
        done := done + 1;
      }
    }

    /** writeFromBuffer: one whole message as one frame. */
    method WriteFromBuffer(message: seq<byte>) returns (ok: bool, frame: seq<byte>)
      requires Valid() && payload == [] && |message| < TWO_32
      modifies this, buf
      ensures Valid() && payload == []
      ensures ok && message != [] ==> frame == Be32(|message|) + message
      ensures |message| + HEADER_SIZE <= LIMIT ==> ok
    {
      ok := Write(message);
      frame := [];
      if ok {
        frame := Flush();
        assert [] + message == message;
      }
    }
  }

  // ----- Reading the size back -----

  datatype FrameLength = Length(size: int) | AsyncReadError | PartialHeader | NegativeSize

  /** handleReadFrameLength, over the bytes that were read into the int32. */
  method HandleReadFrameLength(error: bool, bytesRead: nat, length: seq<byte>, little: bool) returns (r: FrameLength)
    requires |length| == HEADER_SIZE
    ensures r == AsyncReadError <==> error
    ensures r == PartialHeader <==> !error && bytesRead < 4
    // The first byte holds the sign.
    ensures r == NegativeSize <==> !error && bytesRead >= 4 && length[0] as int >= 128
    ensures r.Length? ==>
              r.size == length[0] as int * 0x100_0000 + length[1] as int * 0x1_0000 + length[2] as int * 0x100
                          + length[3] as int
    ensures r == if error then AsyncReadError else if bytesRead < HEADER_SIZE then PartialHeader else SizeOf(length)
  {
    var frameLength := FrameReader.InMemory(FrameReader.ToHost(length, little), little);
    FrameReader.ToHostReadsNetworkOrder(length, little);
    if error {
      r := AsyncReadError;
    } else if bytesRead < HEADER_SIZE {
      r := PartialHeader;
    } else if frameLength < 0 {
      r := NegativeSize;
    } else {
      r := Length(frameLength);
    }
  }

  function SizeOf(header: seq<byte>): FrameLength
    requires |header| == HEADER_SIZE
  {
    var n := Signed32(Be32Value(header));
    if n < 0 then NegativeSize else Length(n)
  }

  /** Every frame that can be flushed announces its payload's length, which is never read as negative,
      and the payload is what follows. */
  lemma FlushedSizeReadsBack(payload: seq<byte>)
    requires |payload| <= LIMIT + 1 - HEADER_SIZE
    ensures var frame := Be32(|payload|) + payload;
            SizeOf(frame[..HEADER_SIZE]) == Length(|payload|) && frame[HEADER_SIZE..] == payload
  {
    Be32RoundTrip(|payload|);
    var frame := Be32(|payload|) + payload;
    assert frame[..HEADER_SIZE] == Be32(|payload|);
  }

  /** From one end to the other: the writes since the last flush leave as one frame whose size the reader
      takes for the number of bytes that follow, and those bytes are the writes, one after the other.
      Below the limit no write throws. */
  method SendAndRead(transport: OutputTransport, writes: seq<seq<byte>>, little: bool)
    returns (done: nat, frame: seq<byte>, length: FrameLength)
    requires transport.Valid() && transport.payload == [] && forall w | w in writes :: |w| < TWO_32
    modifies transport, transport.buf
    ensures transport.Valid() && done <= |writes| && transport.payload == []
    ensures HEADER_SIZE + |Joined(writes)| <= LIMIT ==> done == |writes|
    ensures var sent := Joined(writes[..done]);
            if sent == [] then frame == []
            else |frame| >= HEADER_SIZE && frame[HEADER_SIZE..] == sent && length == Length(|sent|)
  {
    length := PartialHeader;
    done := transport.WriteAll(writes);
    assert writes[..|writes|] == writes;
    ghost var sent := transport.payload;
    frame := transport.Flush();
    if |frame| > 0 {
      FlushedSizeReadsBack(sent);
      length := HandleReadFrameLength(false, HEADER_SIZE, frame[..HEADER_SIZE], little);
    }
  }
}

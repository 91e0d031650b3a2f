/** The wire format of a packet and the resumable reassembly that
    NetworkConnection::ReadPacket performs on the inbound packet, as a state
    machine over values: one call of ReadPacket is one ReadStep. */
module Framing {
  import opened Wire
  import opened Packets
  import opened Sockets

  /** NetworkBufferSize (64 KiB): the most one body receive asks for. */
  const BufferSize: nat := 0x1_0000

  /** The header as SendPacket serialises it: the size field also counts the
      4 bytes of the id (which once travelled in the body), wrapping at 16 bits. */
  function EncodeHeader(h: Header): (r: seq<byte>)
    ensures |r| == HeaderSize
    ensures r[..2] == BE16((h.size + IdSize) % 0x1_0000) && r[2..] == BE32(h.id)
  {
    BE16((h.size + IdSize) % 0x1_0000) + BE32(h.id)
  }

  /** The buffer SendPacket offers the socket: header, then the whole body. */
  function Frame(h: Header, data: seq<byte>): (r: seq<byte>)
    ensures |r| == HeaderSize + |data|
  {
    EncodeHeader(h) + data
  }

  /** A frame splits back into the encoded header and the body. */
  lemma FrameParts(h: Header, data: seq<byte>)
    ensures Frame(h, data)[..HeaderSize] == EncodeHeader(h) && Frame(h, data)[HeaderSize..] == data
  {
    assert (EncodeHeader(h) + data)[..HeaderSize] == EncodeHeader(h);
  }

  /** The normalisation ReadPacket applies once six raw header bytes are in:
      both fields from network byte order, then the id's 4 bytes taken off the
      size, never going below zero. */
  function DecodeHeader(raw: seq<byte>): (h: Header)
    requires |raw| == HeaderSize
  {
    var size := FromBE16(raw[..2]);
    Header(size - Min(size, IdSize), FromBE32(raw[2..]))
  }

  /** The decoded id is sent back as the same four bytes; the decoded size is
      the raw size less the id's 4 bytes, or 0 when the raw size is below 4. */
  lemma DecodeHeaderFields(raw: seq<byte>)
    requires |raw| == HeaderSize
    ensures var h := DecodeHeader(raw);
      && BE32(h.id) == raw[2..]
      && (h.size + IdSize == FromBE16(raw[..2]) || (h.size == 0 && FromBE16(raw[..2]) < IdSize))
  {
    FromBE32Inverse(raw[2..]);
  }

  /** The compatibility subtraction undoes the compatibility addition whenever
      the addition did not wrap. */
  lemma HeaderRoundTrip(h: Header)
    requires h.size <= 0xFFFF - IdSize
    ensures DecodeHeader(EncodeHeader(h)) == h
  {
    var raw := EncodeHeader(h);
    BE16RoundTrip(h.size + IdSize);
    BE32RoundTrip(h.id);
    assert FromBE16(raw[..2]) == h.size + IdSize;
    assert FromBE32(raw[2..]) == h.id;
  }

  /** A declared size of 65532 or more wraps on the wire and reads back as an
      empty body: such a packet cannot be framed. */
  lemma OversizedHeaderDecodesEmpty(h: Header)
    requires h.size > 0xFFFF - IdSize
    ensures DecodeHeader(EncodeHeader(h)).size == 0 != h.size
  {
    var raw := EncodeHeader(h);
    BE16RoundTrip((h.size + IdSize) % 0x1_0000);
    assert FromBE16(raw[..2]) == h.size + IdSize - 0x1_0000 < IdSize;
  }

  /** Where the k-th arriving header byte is stored: at offset `at`, the number
      of header bytes that arrived before this chunk. */
  function StoreHeaderBytes(raw: seq<byte>, at: nat, chunk: seq<byte>): (r: seq<byte>)
    requires |raw| == HeaderSize && at + |chunk| <= HeaderSize
    ensures |r| == HeaderSize
    ensures r[..at + |chunk|] == raw[..at] + chunk
  {
    var r := raw[..at] + chunk + raw[at + |chunk|..];
    assert r[..at + |chunk|] == raw[..at] + chunk;
    r
  }

  /** Storing a header in two chunks gives the same bytes as storing it in one. */
  lemma StoreHeaderBytesResumes(raw: seq<byte>, at: nat, c1: seq<byte>, c2: seq<byte>)
    requires |raw| == HeaderSize && at + |c1| + |c2| <= HeaderSize
    ensures StoreHeaderBytes(StoreHeaderBytes(raw, at, c1), at + |c1|, c2)
         == StoreHeaderBytes(raw, at, c1 + c2)
  {
    var once := StoreHeaderBytes(raw, at, c1);
    assert once[..at] == raw[..at];
    assert once[at + |c1| + |c2|..] == raw[at + |c1| + |c2|..];
  }

  /** The header receive of NetworkConnection.cpp:43-45 as written: every chunk
      is received into the start of the header storage, whatever `at` is. */
  function StoreHeaderBytesAsWritten(raw: seq<byte>, at: nat, chunk: seq<byte>): (r: seq<byte>)
    requires |raw| == HeaderSize && at + |chunk| <= HeaderSize
    ensures |r| == HeaderSize && r[..|chunk|] == chunk && r[|chunk|..] == raw[|chunk|..]
  {
    chunk + raw[|chunk|..]
  }

  /** A Ping with a 10-byte body whose header arrives as 3 + 3 bytes: stored as
      written, the second chunk overwrites the first and the size decodes as 0;
      stored at the running offset, the header decodes correctly. */
  lemma SplitHeaderAsWritten(raw: seq<byte>)
    requires |raw| == HeaderSize
    ensures var wire := EncodeHeader(Header(10, Ping));
      && DecodeHeader(StoreHeaderBytes(StoreHeaderBytes(raw, 0, wire[..3]), 3, wire[3..])) == Header(10, Ping)
      && DecodeHeader(StoreHeaderBytesAsWritten(StoreHeaderBytesAsWritten(raw, 0, wire[..3]), 3, wire[3..])).size == 0
  {
    var wire := EncodeHeader(Header(10, Ping));
    assert wire == [0, 14, 0, 0, 0, 6];
    StoreHeaderBytesResumes(raw, 0, wire[..3], wire[3..]);
    assert wire[..3] + wire[3..] == wire;
    assert StoreHeaderBytes(raw, 0, wire) == wire;
    HeaderRoundTrip(Header(10, Ping));
    var bad := StoreHeaderBytesAsWritten(StoreHeaderBytesAsWritten(raw, 0, wire[..3]), 3, wire[3..]);
    assert bad[..2] == [0, 0];
  }

  /** The inbound packet between ReadPacket calls: the raw header storage, the
      normalised header, the body received so far and BytesTransferred. */
  datatype InState = InState(raw: seq<byte>, header: Header, data: seq<byte>, transferred: nat)

  /** What ReadPacket keeps true of the inbound packet: no body before the
      header is complete, then BytesTransferred == 6 + |Data| <= 6 + Header.Size
      with the header normalised from its raw bytes. */
  predicate InValid(st: InState)
  {
    && |st.raw| == HeaderSize
    && (st.transferred < HeaderSize ==> st.data == [])
    && (st.transferred >= HeaderSize ==>
          && st.transferred == HeaderSize + |st.data|
          && |st.data| <= st.header.size
          && st.header == DecodeHeader(st.raw))
  }

  predicate Complete(st: InState)
  {
    st.transferred >= HeaderSize && |st.data| == st.header.size
  }

  /** The bytes of the stream the inbound packet has taken in so far. */
  function Taken(st: InState): (r: seq<byte>)
    requires InValid(st)
    ensures |r| == st.transferred
  {
    if st.transferred < HeaderSize then st.raw[..st.transferred] else st.raw + st.data
  }

  /** Regrouping the stream around a received chunk, on plain byte sequences. */
  lemma StreamRegroup(taken: seq<byte>, chunk: seq<byte>, inbox: seq<byte>)
    ensures (taken + chunk) + inbox == taken + (chunk + inbox)
  {
  }

  datatype Step = Step(status: ReadStatus, state: InState, socket: Socket)

  /** The body phase of ReadPacket (NetworkConnection.cpp:69-99). */
  function BodyStep(st: InState, s: Socket): (r: Step)
    requires InValid(st) && st.transferred >= HeaderSize
    ensures InValid(r.state) && r.state.raw == st.raw && r.state.header == st.header
  {
    var missing := st.header.size - (st.transferred - HeaderSize);
    if missing > 0 then
      var rc := ReceiveData(s, Min(missing, BufferSize));
      if rc.status != Success then
        Step(rc.status, st, rc.socket)
      else
        var next := st.(transferred := st.transferred + |rc.bytes|, data := st.data + rc.bytes);
        Step(if |next.data| == next.header.size then Success else MoreData, next, rc.socket)
    else
      Step(if |st.data| == st.header.size then Success else MoreData, st, s)
  }

  /** The body phase takes bytes only from the front of the socket's stream and
      reports Success exactly when the body is complete. */
  lemma BodyStepKeeps(st: InState, s: Socket)
    requires InValid(st) && st.transferred >= HeaderSize
    ensures var r := BodyStep(st, s);
      && Taken(r.state) + r.socket.inbox == Taken(st) + s.inbox
      && (r.status == Success <==> Complete(r.state))
  {
    var missing := st.header.size - (st.transferred - HeaderSize);
    if missing > 0 {
      var rc := ReceiveData(s, Min(missing, BufferSize));
      if rc.status == Success {
        var next := st.(transferred := st.transferred + |rc.bytes|, data := st.data + rc.bytes);
        assert Taken(next) == Taken(st) + rc.bytes by {
          StreamRegroup(st.raw, st.data, rc.bytes);
        }
        StreamRegroup(Taken(st), rc.bytes, rc.socket.inbox);
      }
    }
  }

  /** The body phase case by case: a complete packet is left alone; otherwise
      one receive asks for the missing body bytes, at most BufferSize, and a
      failed receive changes nothing but the socket. */
  lemma BodyStepCases(st: InState, s: Socket)
    requires InValid(st) && st.transferred >= HeaderSize
    ensures var r := BodyStep(st, s);
      && (Complete(st) ==> r == Step(Success, st, s))
      && (!Complete(st) ==>
            var rc := ReceiveData(s, Min(st.header.size - |st.data|, BufferSize));
            && r.socket == rc.socket
            && r.socket.requested == s.requested + [Min(st.header.size - |st.data|, BufferSize)]
            && (rc.status != Success ==> r.status == rc.status && r.state == st)
            && (rc.status == Success ==>
                  && r.state.data == st.data + rc.bytes
                  && r.state.transferred == st.transferred + |rc.bytes|
                  && r.status in {Success, MoreData}))
  {
  }

  /** The header phase of ReadPacket (NetworkConnection.cpp:37-67), falling
      through into the body phase once the header is complete. */
  function HeaderStep(st: InState, s: Socket): (r: Step)
    requires InValid(st) && st.transferred < HeaderSize
    ensures InValid(r.state)
  {
    var rc := ReceiveData(s, HeaderSize - st.transferred);
    if rc.status != Success then
      Step(rc.status, st, rc.socket)
    else
      var raw := StoreHeaderBytes(st.raw, st.transferred, rc.bytes);
      var transferred := st.transferred + |rc.bytes|;
      if transferred < HeaderSize then
        var next := st.(raw := raw, transferred := transferred);
        Step(MoreData, next, rc.socket)
      else
        var next := InState(raw, DecodeHeader(raw), [], HeaderSize);
        BodyStep(next, rc.socket)
  }

  /** The header phase takes bytes only from the front of the socket's stream
      and reports Success exactly when the whole packet is in. */
  lemma HeaderStepKeeps(st: InState, s: Socket)
    requires InValid(st) && st.transferred < HeaderSize
    ensures var r := HeaderStep(st, s);
      && Taken(r.state) + r.socket.inbox == Taken(st) + s.inbox
      && (r.status == Success <==> Complete(r.state))
  {
    var rc := ReceiveData(s, HeaderSize - st.transferred);
    if rc.status == Success {
      var raw := StoreHeaderBytes(st.raw, st.transferred, rc.bytes);
      var transferred := st.transferred + |rc.bytes|;
      var next := if transferred < HeaderSize then st.(raw := raw, transferred := transferred)
                  else InState(raw, DecodeHeader(raw), [], HeaderSize);
      assert Taken(next) == Taken(st) + rc.bytes by {
        assert raw[..transferred] == st.raw[..st.transferred] + rc.bytes;
        if transferred == HeaderSize {
          assert raw[..transferred] == raw;
        }
      }
      StreamRegroup(Taken(st), rc.bytes, rc.socket.inbox);
      if transferred == HeaderSize {
        BodyStepKeeps(next, rc.socket);
      }
    }
  }

  /** The header phase case by case: one receive asks for exactly the missing
      header bytes; a failed receive changes nothing but the socket; a partial
      header is stored at its running offset; a complete one is normalised and
      the body phase runs at once. */
  lemma HeaderStepCases(st: InState, s: Socket)
    requires InValid(st) && st.transferred < HeaderSize
    ensures var r := HeaderStep(st, s);
      && |r.socket.requested| > |s.requested|
      && r.socket.requested[..|s.requested| + 1] == s.requested + [HeaderSize - st.transferred]
    ensures var r := HeaderStep(st, s); var rc := ReceiveData(s, HeaderSize - st.transferred);
      && (rc.status != Success ==> r == Step(rc.status, st, rc.socket))
      && (rc.status == Success && st.transferred + |rc.bytes| < HeaderSize ==>
            && r.status == MoreData && r.socket == rc.socket
            && r.state == st.(raw := StoreHeaderBytes(st.raw, st.transferred, rc.bytes),
                              transferred := st.transferred + |rc.bytes|))
      && (rc.status == Success && st.transferred + |rc.bytes| == HeaderSize ==>
            var raw := StoreHeaderBytes(st.raw, st.transferred, rc.bytes);
            r == BodyStep(InState(raw, DecodeHeader(raw), [], HeaderSize), rc.socket))
  {
    var rc := ReceiveData(s, HeaderSize - st.transferred);
    if rc.status == Success && st.transferred + |rc.bytes| == HeaderSize {
      var raw := StoreHeaderBytes(st.raw, st.transferred, rc.bytes);
      var next := InState(raw, DecodeHeader(raw), [], HeaderSize);
      BodyStepCases(next, rc.socket);
      var r := BodyStep(next, rc.socket);
      assert r.socket.requested[..|s.requested| + 1] == rc.socket.requested;
    }
  }

  /** A header whose corrected size is 0 completes the packet in the call that
      finishes the header, without a second receive. */
  lemma EmptyBodyCompletesWithHeader(st: InState, s: Socket)
    requires InValid(st) && st.transferred < HeaderSize
    requires var rc := ReceiveData(s, HeaderSize - st.transferred);
      && rc.status == Success && st.transferred + |rc.bytes| == HeaderSize
      && DecodeHeader(StoreHeaderBytes(st.raw, st.transferred, rc.bytes)).size == 0
    ensures var r := HeaderStep(st, s);
      && r.status == Success && r.state.data == [] && r.state.transferred == HeaderSize
      && r.socket == ReceiveData(s, HeaderSize - st.transferred).socket
  {
    HeaderStepCases(st, s);
    var rc := ReceiveData(s, HeaderSize - st.transferred);
    var raw := StoreHeaderBytes(st.raw, st.transferred, rc.bytes);
    BodyStepCases(InState(raw, DecodeHeader(raw), [], HeaderSize), rc.socket);
  }

  /** One call of ReadPacket on the inbound packet. */
  function ReadStep(st: InState, s: Socket): (r: Step)
    requires InValid(st)
    ensures InValid(r.state)
    ensures r.state.transferred >= st.transferred
  {
    if st.transferred < HeaderSize then HeaderStep(st, s) else BodyStep(st, s)
  }

  /** Conservation: a ReadPacket call moves bytes from the front of the
      socket's stream into the packet, in order, losing and inventing none;
      it reports Success exactly when the packet is complete. */
  lemma ReadStepKeeps(st: InState, s: Socket)
    requires InValid(st)
    ensures var r := ReadStep(st, s);
      && Taken(r.state) + r.socket.inbox == Taken(st) + s.inbox
      && (r.status == Success <==> Complete(r.state))
  {
    if st.transferred < HeaderSize {
      HeaderStepKeeps(st, s);
    } else {
      BodyStepKeeps(st, s);
    }
  }

  /** The session layer polling ReadPacket while it reports MoreData, for at
      most `calls` calls. */
  function Poll(st: InState, s: Socket, calls: nat): (r: Step)
    requires InValid(st)
    decreases calls
  {
    if calls == 0 then Step(MoreData, st, s)
    else
      var r := ReadStep(st, s);
      if r.status == MoreData then Poll(r.state, r.socket, calls - 1) else r
  }

  /** However many calls the poll makes, the packet and the socket between
      them hold exactly the stream they started with. */
  lemma {:induction false} PollConserves(st: InState, s: Socket, calls: nat)
    requires InValid(st)
    ensures var r := Poll(st, s, calls);
      InValid(r.state) && Taken(r.state) + r.socket.inbox == Taken(st) + s.inbox
    decreases calls
  {
    if calls > 0 {
      var r := ReadStep(st, s);
      ReadStepKeeps(st, s);
      if r.status == MoreData {
        PollConserves(r.state, r.socket, calls - 1);
      }
    }
  }

  /** A poll that may still make a call makes one ReadPacket call and goes on
      only after MoreData. */
  lemma PollStep(st: InState, s: Socket, calls: nat)
    requires InValid(st) && calls > 0
    ensures var r := ReadStep(st, s);
      Poll(st, s, calls) == if r.status == MoreData then Poll(r.state, r.socket, calls - 1) else r
  {
  }
}

/** The framing round trip: a frame fed to ReadPacket through the socket, in
    whatever chunks the socket delivers, comes out as the packet that was sent. */
module FrameFeeding {
  import opened Wire
  import opened Packets
  import opened Sockets
  import opened Framing

  /** Every receive the socket answers delivers at least one byte (if any has arrived). */
  predicate Eager(grants: seq<Grant>)
  {
    forall i :: 0 <= i < |grants| ==> grants[i].Deliver? && grants[i].limit > 0
  }

  /** The inbound packet is part way through the frame of (h, body), the rest
      of which is waiting in the socket, and enough receives are granted. */
  predicate Feeding(st: InState, s: Socket, h: Header, body: seq<byte>, rest: seq<byte>)
  {
    && InValid(st)
    && h.size == |body| && |body| <= 0xFFFF - IdSize
    && Taken(st) + s.inbox == Frame(h, body) + rest
    && Eager(s.grants)
    && |s.grants| + st.transferred >= HeaderSize + |body|
  }

  /** What the packet has taken in is a prefix of the frame. */
  lemma FeedingPrefix(st: InState, s: Socket, h: Header, body: seq<byte>, rest: seq<byte>)
    requires Feeding(st, s, h, body, rest) && st.transferred <= HeaderSize + |body|
    ensures Taken(st) == Frame(h, body)[..st.transferred]
    ensures s.inbox == Frame(h, body)[st.transferred..] + rest
  {
    var f := Frame(h, body);
    var t := st.transferred;
    assert (Taken(st) + s.inbox)[..t] == Taken(st);
    assert (f + rest)[..t] == f[..t];
    assert (Taken(st) + s.inbox)[t..] == s.inbox;
    assert (f + rest)[t..] == f[t..] + rest;
  }

  /** Once the header is in, the normalised header is the one that was sent. */
  lemma FeedingHeader(st: InState, s: Socket, h: Header, body: seq<byte>, rest: seq<byte>)
    requires Feeding(st, s, h, body, rest)
    requires HeaderSize <= st.transferred <= HeaderSize + |body|
    ensures st.header == h
    ensures st.data == body[..st.transferred - HeaderSize]
  {
    FeedingPrefix(st, s, h, body, rest);
    var f := Frame(h, body);
    assert Taken(st)[..HeaderSize] == st.raw;
    assert f[..st.transferred][..HeaderSize] == f[..HeaderSize];
    assert st.raw == EncodeHeader(h);
    HeaderRoundTrip(h);
    assert Taken(st)[HeaderSize..] == st.data;
    assert f[..st.transferred][HeaderSize..] == f[HeaderSize..][..st.transferred - HeaderSize];
  }

  /** A body step during a frame feed takes at least one byte and finishes exactly
      at the end of the frame. */
  lemma FeedingBodyStep(st: InState, s: Socket, h: Header, body: seq<byte>, rest: seq<byte>)
    requires Feeding(st, s, h, body, rest)
    requires HeaderSize <= st.transferred <= HeaderSize + |body|
    requires st.transferred < HeaderSize + |body| ==> s.grants != []
    ensures var r := BodyStep(st, s);
      && Feeding(r.state, r.socket, h, body, rest)
      && (r.status == Success || r.status == MoreData)
      && (st.transferred < HeaderSize + |body| ==> r.state.transferred > st.transferred)
      && r.state.transferred <= HeaderSize + |body|
      && (r.status == Success <==> r.state.transferred == HeaderSize + |body|)
  {
    var r := BodyStep(st, s);
    BodyStepCases(st, s);
    BodyStepKeeps(st, s);
    FeedingHeader(st, s, h, body, rest);
    FeedingPrefix(st, s, h, body, rest);
    if st.transferred < HeaderSize + |body| {
      var missing := st.header.size - |st.data|;
      assert missing == HeaderSize + |body| - st.transferred > 0;
      var rc := ReceiveData(s, Min(missing, BufferSize));
      assert s.grants[0].Deliver?;
      assert |rc.bytes| >= 1;
      assert |r.socket.grants| == |s.grants| - 1;
      assert r.state.transferred == st.transferred + |rc.bytes|;
      assert r.state.transferred <= HeaderSize + |body|;
      assert r.state.header == h;
      assert Eager(r.socket.grants) by {
        assert r.socket.grants == s.grants[1..];
      }
    }
  }

  /** One ReadPacket call during a frame feed takes at least one byte, reports
      only Success or MoreData, and reports Success exactly at the frame's end. */
  lemma FeedingStep(st: InState, s: Socket, h: Header, body: seq<byte>, rest: seq<byte>)
    requires Feeding(st, s, h, body, rest) && st.transferred < HeaderSize + |body|
    ensures var r := ReadStep(st, s);
      && Feeding(r.state, r.socket, h, body, rest)
      && r.state.transferred > st.transferred
      && (r.status == Success || r.status == MoreData)
      && r.state.transferred <= HeaderSize + |body|
      && (r.status == Success <==> r.state.transferred == HeaderSize + |body|)
  {
    if st.transferred >= HeaderSize {
      FeedingBodyStep(st, s, h, body, rest);
    } else {
      FeedingHeaderStep(st, s, h, body, rest);
    }
  }

  /** FeedingStep while the header is still arriving. */
  lemma FeedingHeaderStep(st: InState, s: Socket, h: Header, body: seq<byte>, rest: seq<byte>)
    requires Feeding(st, s, h, body, rest) && st.transferred < HeaderSize
    ensures var r := HeaderStep(st, s);
      && Feeding(r.state, r.socket, h, body, rest)
      && r.state.transferred > st.transferred
      && (r.status == Success || r.status == MoreData)
      && r.state.transferred <= HeaderSize + |body|
      && (r.status == Success <==> r.state.transferred == HeaderSize + |body|)
  {
    var rc := ReceiveData(s, HeaderSize - st.transferred);
    if st.transferred + |rc.bytes| < HeaderSize {
      FeedingHeaderPartial(st, s, h, body, rest);
    } else {
      FeedingHeaderFull(st, s, h, body, rest);
    }
  }

  /** The receive a frame feed grants during the header delivers at least one
      byte and uses up one grant. */
  lemma FeedingHeaderReceive(st: InState, s: Socket, h: Header, body: seq<byte>, rest: seq<byte>)
    requires Feeding(st, s, h, body, rest) && st.transferred < HeaderSize
    ensures var rc := ReceiveData(s, HeaderSize - st.transferred);
      && rc.status == Success && |rc.bytes| >= 1
      && rc.socket.grants == s.grants[1..] && Eager(rc.socket.grants)
  {
    FeedingPrefix(st, s, h, body, rest);
    assert s.grants[0].Deliver?;
  }

  /** FeedingHeaderStep when the chunk leaves the header incomplete. */
  lemma FeedingHeaderPartial(st: InState, s: Socket, h: Header, body: seq<byte>, rest: seq<byte>)
    requires Feeding(st, s, h, body, rest) && st.transferred < HeaderSize
    requires st.transferred + |ReceiveData(s, HeaderSize - st.transferred).bytes| < HeaderSize
    ensures var r := HeaderStep(st, s);
      && Feeding(r.state, r.socket, h, body, rest)
      && r.state.transferred > st.transferred
      && (r.status == Success || r.status == MoreData)
      && r.state.transferred <= HeaderSize + |body|
      && (r.status == Success <==> r.state.transferred == HeaderSize + |body|)
  {
    FeedingHeaderReceive(st, s, h, body, rest);
    HeaderStepKeeps(st, s);
    var rc := ReceiveData(s, HeaderSize - st.transferred);
    var next := st.(raw := StoreHeaderBytes(st.raw, st.transferred, rc.bytes),
                    transferred := st.transferred + |rc.bytes|);
    assert HeaderStep(st, s) == Step(MoreData, next, rc.socket);
  }

  /** FeedingHeaderStep when the chunk completes the header and the body phase
      runs in the same call. */
  lemma FeedingHeaderFull(st: InState, s: Socket, h: Header, body: seq<byte>, rest: seq<byte>)
    requires Feeding(st, s, h, body, rest) && st.transferred < HeaderSize
    requires st.transferred + |ReceiveData(s, HeaderSize - st.transferred).bytes| == HeaderSize
    ensures var r := HeaderStep(st, s);
      && Feeding(r.state, r.socket, h, body, rest)
      && r.state.transferred > st.transferred
      && (r.status == Success || r.status == MoreData)
      && r.state.transferred <= HeaderSize + |body|
      && (r.status == Success <==> r.state.transferred == HeaderSize + |body|)
  {
    FeedingHeaderReceive(st, s, h, body, rest);
    HeaderStepKeeps(st, s);
    var rc := ReceiveData(s, HeaderSize - st.transferred);
    var raw := StoreHeaderBytes(st.raw, st.transferred, rc.bytes);
    var next := InState(raw, DecodeHeader(raw), [], HeaderSize);
    assert HeaderStep(st, s) == BodyStep(next, rc.socket);
    assert Taken(next) == Taken(st) + rc.bytes by {
      assert raw[..HeaderSize] == raw;
    }
    StreamRegroup(Taken(st), rc.bytes, rc.socket.inbox);
    assert Feeding(next, rc.socket, h, body, rest);
    FeedingBodyStep(next, rc.socket, h, body, rest);
  }



  /** The inbound packet holds the whole frame of (h, body) and ReadPacket said so. */
  predicate Finished(r: Step, h: Header, body: seq<byte>, rest: seq<byte>)
  {
    r.status == Success && Feeding(r.state, r.socket, h, body, rest)
    && r.state.transferred == HeaderSize + |body|
  }

  lemma FinishedCarries(a: Step, b: Step, h: Header, body: seq<byte>, rest: seq<byte>)
    requires a == b && Finished(a, h, body, rest)
    ensures Finished(b, h, body, rest)
  {
  }

  lemma {:induction false} FeedingPoll(st: InState, s: Socket, h: Header, body: seq<byte>, rest: seq<byte>, calls: nat)
    requires Feeding(st, s, h, body, rest) && st.transferred < HeaderSize + |body|
    requires calls + st.transferred >= HeaderSize + |body|
    ensures Finished(Poll(st, s, calls), h, body, rest)
    decreases HeaderSize + |body| - st.transferred
  {
    PollStep(st, s, calls);
    FeedingStep(st, s, h, body, rest);
    var r := ReadStep(st, s);
    if r.status == MoreData {
      FeedingPoll(r.state, r.socket, h, body, rest, calls - 1);
      FinishedCarries(Poll(r.state, r.socket, calls - 1), Poll(st, s, calls), h, body, rest);
    } else {
      assert Finished(r, h, body, rest);
      FinishedCarries(r, Poll(st, s, calls), h, body, rest);
    }
  }

  /** Framing round-trip: a freshly cleared inbound packet fed the frame that
      SendPacket serialises for a queued packet (Header.Size == |Data| mod 2^16),
      in whatever chunks the socket delivers it, one byte per call included,
      completes within |frame| calls with the sent id and body, and leaves the
      bytes that follow the frame in the socket untouched. */
  lemma FramingRoundTrip(st: InState, s: Socket, h: Header, body: seq<byte>, rest: seq<byte>)
    requires |body| <= 0xFFFF - IdSize && h.size == |body| % 0x1_0000
    requires InValid(st) && st.transferred == 0
    requires s.inbox == Frame(h, body) + rest
    requires Eager(s.grants) && |s.grants| >= HeaderSize + |body|
    ensures var r := Poll(st, s, HeaderSize + |body|);
      && r.status == Success
      && r.state.header == h && r.state.data == body
      && r.state.transferred == HeaderSize + |body|
      && r.socket.inbox == rest
  {
    assert Taken(st) == [];
    assert Feeding(st, s, h, body, rest);
    FeedingPoll(st, s, h, body, rest, HeaderSize + |body|);
    var r := Poll(st, s, HeaderSize + |body|);
    FeedingHeader(r.state, r.socket, h, body, rest);
    FeedingPrefix(r.state, r.socket, h, body, rest);
  }
}

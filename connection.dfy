/** NetworkConnection: one peer's socket, the inbound packet being reassembled,
    the outbound packet queue with authentication gating, liveness, the last
    disconnect reason and per-group traffic counters. */
module Connections {
  import opened Wire
  import opened Packets
  import opened Sockets
  import opened Framing

  /** NETWORK_DISCONNECT_REASON_BUFFER_SIZE: the reason buffer, terminator included. */
  const ReasonBufferSize: nat := 256
  /** Ticks without a completed inbound packet after which the peer counts as silent. */
  const Timeout: nat := 7000

  /** The connection's authentication state; every value but Ok gates alike. */
  datatype NetworkAuth = Ok | NotOk

  datatype StatisticsGroup = Total | Base | Commands | MapData

  const GroupCount: nat := 4

  function GroupIndex(g: StatisticsGroup): (i: nat)
    ensures i < GroupCount
  {
    match g
    case Total => 0
    case Base => 1
    case Commands => 2
    case MapData => 3
  }

  /** The group RecordPacketStats charges a packet with command `id` to. */
  function TrafficGroup(id: u32): (g: StatisticsGroup)
    ensures g != Total
    ensures g == Commands <==> id == GameAction
    ensures g == MapData <==> id == Map
    ensures g == Base <==> id != GameAction && id != Map
  {
    if id == GameAction then Commands else if id == Map then MapData else Base
  }

  /** The counters after charging a packet of `size` bytes with command `id`:
      its group and Total both grow by the size cut to 32 bits (the source's
      uint32_t packetSize); every other counter keeps its value. */
  function AddTraffic(counters: seq<nat>, id: u32, size: nat): (r: seq<nat>)
    requires |counters| == GroupCount
    ensures |r| == GroupCount
    ensures r[GroupIndex(Total)] == counters[GroupIndex(Total)] + size % 0x1_0000_0000
    ensures r[GroupIndex(TrafficGroup(id))]
         == counters[GroupIndex(TrafficGroup(id))] + size % 0x1_0000_0000
    ensures forall i :: (0 <= i < GroupCount && i != GroupIndex(Total)
                        && i != GroupIndex(TrafficGroup(id))) ==> r[i] == counters[i]
  {
    var group := GroupIndex(TrafficGroup(id));
    var total := GroupIndex(Total);
    var packetSize := size % 0x1_0000_0000;
    var charged := counters[group := counters[group] + packetSize];
    charged[total := charged[total] + packetSize]
  }

  /** An element of _outboundPackets. The deque owns its packets (QueuePacket
      moves them in), so an element is a value; only the fields the connection
      uses are kept. */
  datatype QueuedPacket = QueuedPacket(header: Header, data: seq<byte>, bytesTransferred: nat)

  /** The element QueuePacket moves into the deque: Header.Size set to the body
      length cut to 16 bits, everything else as the caller left it. */
  function Queued(p: Packet): (r: QueuedPacket)
    reads p
  {
    QueuedPacket(Header(|p.data| % 0x1_0000, p.header.id), p.data, p.bytesTransferred)
  }

  /** The part of `p`'s frame the socket has not accepted yet. */
  function Unsent(p: QueuedPacket): (r: seq<byte>)
  {
    var frame := Frame(p.header, p.data);
    if p.bytesTransferred <= |frame| then frame[p.bytesTransferred..] else []
  }

  /** Everything the queue still owes the wire, in queue order. */
  function Pending(q: seq<QueuedPacket>): (r: seq<byte>)
  {
    if q == [] then [] else Unsent(q[0]) + Pending(q[1..])
  }

  /** The frames of the packets of `q`, back to back. */
  function Frames(q: seq<QueuedPacket>): (r: seq<byte>)
  {
    if q == [] then [] else Frame(q[0].header, q[0].data) + Frames(q[1..])
  }

  /** Only the head of the queue may have been partly sent. */
  predicate OnlyHeadInFlight(q: seq<QueuedPacket>)
  {
    forall i :: 1 <= i < |q| ==> q[i].bytesTransferred == 0
  }

  lemma {:induction false} PendingAppend(q1: seq<QueuedPacket>, q2: seq<QueuedPacket>)
    ensures Pending(q1 + q2) == Pending(q1) + Pending(q2)
  {
    if q1 == [] {
      assert q1 + q2 == q2;
    } else {
      var head := Unsent(q1[0]);
      assert (q1 + q2)[0] == q1[0];
      assert (q1 + q2)[1..] == q1[1..] + q2;
      assert Pending(q1 + q2) == head + Pending(q1[1..] + q2);
      PendingAppend(q1[1..], q2);
      AppendAssoc(head, Pending(q1[1..]), Pending(q2));
    }
  }

  /** Regrouping a concatenation, stated on plain byte sequences so that
      callers need not reason about the frames inside them. */
  lemma AppendAssoc(a: seq<byte>, b: seq<byte>, c: seq<byte>)
    ensures (a + b) + c == a + (b + c)
  {
  }

  /** Sending from the head of the queue moves bytes from what the queue owes
      to the wire and nothing else. */
  lemma SendStep(q: seq<QueuedPacket>, sent: QueuedPacket, before: seq<byte>, after: seq<byte>)
    requires q != [] && after + Unsent(sent) == before + Unsent(q[0])
    ensures after + Pending([sent] + q[1..]) == before + Pending(q)
  {
    var rest := Pending(q[1..]);
    var moved := Unsent(sent);
    assert ([sent] + q[1..])[0] == sent && ([sent] + q[1..])[1..] == q[1..];
    assert Pending([sent] + q[1..]) == moved + rest;
    assert Pending(q) == Unsent(q[0]) + rest;
    AppendAssoc(after, moved, rest);
    AppendAssoc(before, Unsent(q[0]), rest);
  }

  /** Once the wire holds all of the head's frame, dropping the head loses
      nothing the queue owes. */
  lemma PopStep(q: seq<QueuedPacket>, before: seq<byte>, after: seq<byte>)
    requires q != [] && after == before + Unsent(q[0])
    ensures after + Pending(q[1..]) == before + Pending(q)
  {
    assert Pending(q) == Unsent(q[0]) + Pending(q[1..]);
    AppendAssoc(before, Unsent(q[0]), Pending(q[1..]));
  }

  /** A queue none of whose packets has started sending owes the wire exactly
      their frames, in queue order. */
  lemma {:induction false} PendingOfUnsentQueue(q: seq<QueuedPacket>)
    requires forall i :: 0 <= i < |q| ==> q[i].bytesTransferred == 0
    ensures Pending(q) == Frames(q)
  {
    if q != [] {
      PendingOfUnsentQueue(q[1..]);
    }
  }

  /** The sent counters once every packet of `done` has completed, in order:
      each is charged its whole frame. */
  function SentTraffic(counters: seq<nat>, done: seq<QueuedPacket>): (r: seq<nat>)
    requires |counters| == GroupCount
    ensures |r| == GroupCount
    decreases |done|
  {
    if done == [] then counters
    else SentTraffic(AddTraffic(counters, done[0].header.id, HeaderSize + |done[0].data|), done[1..])
  }

  lemma {:induction false} SentTrafficAppend(counters: seq<nat>, done: seq<QueuedPacket>, p: QueuedPacket)
    requires |counters| == GroupCount
    ensures SentTraffic(counters, done + [p])
         == AddTraffic(SentTraffic(counters, done), p.header.id, HeaderSize + |p.data|)
    decreases |done|
  {
    if done == [] {
      assert [p][1..] == [];
    } else {
      assert (done + [p])[1..] == done[1..] + [p];
      SentTrafficAppend(AddTraffic(counters, done[0].header.id, HeaderSize + |done[0].data|), done[1..], p);
    }
  }

  /** The wire size of each packet of `done`, cut to 32 bits, summed. */
  function ChargedBytes(done: seq<QueuedPacket>): (n: nat)
  {
    if done == [] then 0 else (HeaderSize + |done[0].data|) % 0x1_0000_0000 + ChargedBytes(done[1..])
  }

  /** Completing the packets of `done` raises the Total counter by their
      charged sizes and leaves a group no packet belongs to untouched. */
  lemma {:induction false} SentTrafficTotal(counters: seq<nat>, done: seq<QueuedPacket>)
    requires |counters| == GroupCount
    ensures SentTraffic(counters, done)[GroupIndex(Total)] == counters[GroupIndex(Total)] + ChargedBytes(done)
    ensures forall g :: g != Total && (forall i :: 0 <= i < |done| ==> TrafficGroup(done[i].header.id) != g) ==>
      SentTraffic(counters, done)[GroupIndex(g)] == counters[GroupIndex(g)]
    decreases |done|
  {
    if done != [] {
      var next := AddTraffic(counters, done[0].header.id, HeaderSize + |done[0].data|);
      SentTrafficTotal(next, done[1..]);
      forall g | g != Total && (forall i :: 0 <= i < |done| ==> TrafficGroup(done[i].header.id) != g)
        ensures SentTraffic(counters, done)[GroupIndex(g)] == counters[GroupIndex(g)]
      {
        assert forall i :: 0 <= i < |done[1..]| ==> TrafficGroup(done[1..][i].header.id) != g by {
          forall i | 0 <= i < |done[1..]| ensures TrafficGroup(done[1..][i].header.id) != g {
            assert done[1..][i] == done[i + 1];
          }
        }
        assert TrafficGroup(done[0].header.id) != g;
      }
    }
  }

  /** Every queued packet has moved at most its own frame. */
  predicate WithinFrames(q: seq<QueuedPacket>)
  {
    forall i :: 0 <= i < |q| ==> q[i].bytesTransferred <= HeaderSize + |q[i].data|
  }

  /** What SendQueuedPackets leaves behind: the socket, the queue and the
      sent counters. */
  datatype Drained = Drained(socket: Socket, queue: seq<QueuedPacket>, sent: seq<nat>)

  /** SendQueuedPackets on values: the head is offered its unsent bytes once;
      a head whose frame is now complete is charged to the counters and popped,
      and the next one is offered; an incomplete head ends the round. */
  function Drain(s: Socket, q: seq<QueuedPacket>, counters: seq<nat>): (r: Drained)
    requires |counters| == GroupCount
    ensures |r.sent| == GroupCount && |r.queue| <= |q|
    decreases |q|
  {
    if q == [] then Drained(s, q, counters)
    else
      var r := SendData(s, Unsent(q[0]));
      var head := q[0].(bytesTransferred := q[0].bytesTransferred + r.count);
      if head.bytesTransferred == HeaderSize + |head.data| then
        Drain(r.socket, q[1..], AddTraffic(counters, head.header.id, head.bytesTransferred))
      else
        Drained(r.socket, [head] + q[1..], counters)
  }

  /** One round of Drain, unfolded. */
  lemma DrainUnfold(s: Socket, q: seq<QueuedPacket>, counters: seq<nat>)
    requires |counters| == GroupCount && q != []
    ensures var r := SendData(s, Unsent(q[0]));
      var head := q[0].(bytesTransferred := q[0].bytesTransferred + r.count);
      Drain(s, q, counters) ==
        if head.bytesTransferred == HeaderSize + |head.data|
        then Drain(r.socket, q[1..], AddTraffic(counters, head.header.id, head.bytesTransferred))
        else Drained(r.socket, [head] + q[1..], counters)
  {
  }

  /** Offering `p` its unsent bytes once moves the accepted ones from what `p`
      owes to the wire and keeps `p` within its frame. */
  lemma OfferHead(s: Socket, p: QueuedPacket)
    requires p.bytesTransferred <= HeaderSize + |p.data|
    ensures var r := SendData(s, Unsent(p));
      var head := p.(bytesTransferred := p.bytesTransferred + r.count);
      && head.bytesTransferred <= HeaderSize + |head.data|
      && r.socket.wire + Unsent(head) == s.wire + Unsent(p)
      && (head.bytesTransferred == HeaderSize + |head.data| ==> Unsent(head) == [])
  {
    var frame := Frame(p.header, p.data);
    var from := p.bytesTransferred;
    var r := SendData(s, Unsent(p));
    var head := p.(bytesTransferred := from + r.count);
    assert Unsent(p) == frame[from..];
    assert Unsent(head) == frame[from + r.count..];
    assert frame[from..][..r.count] == frame[from..from + r.count];
    AppendAssoc(s.wire, frame[from..][..r.count], frame[from + r.count..]);
  }

  /** Popping the head keeps every packet within its frame and keeps the
      packets behind the new head unsent. */
  lemma PopKeeps(q: seq<QueuedPacket>)
    requires q != []
    ensures WithinFrames(q) ==> WithinFrames(q[1..])
    ensures OnlyHeadInFlight(q) ==> OnlyHeadInFlight(q[1..])
  {
    assert forall i :: 0 <= i < |q[1..]| ==> q[1..][i] == q[i + 1];
  }

  /** A round of sending moves bytes from what the queue owes to the wire, in
      order, and loses or invents none. */
  lemma {:induction false} DrainConserves(s: Socket, q: seq<QueuedPacket>, counters: seq<nat>)
    requires |counters| == GroupCount && WithinFrames(q)
    ensures var r := Drain(s, q, counters);
      r.socket.wire + Pending(r.queue) == s.wire + Pending(q)
    decreases |q|, 1
  {
    if q != [] {
      var r := SendData(s, Unsent(q[0]));
      var head := q[0].(bytesTransferred := q[0].bytesTransferred + r.count);
      OfferHead(s, q[0]);
      if head.bytesTransferred == HeaderSize + |head.data| {
        DrainConservesPop(s, q, counters);
      } else {
        SendStep(q, head, s.wire, r.socket.wire);
      }
    }
  }

  /** DrainConserves when the head's frame completes and the head is popped. */
  lemma {:induction false} DrainConservesPop(s: Socket, q: seq<QueuedPacket>, counters: seq<nat>)
    requires |counters| == GroupCount && WithinFrames(q) && q != []
    requires var r := SendData(s, Unsent(q[0]));
      q[0].bytesTransferred + r.count == HeaderSize + |q[0].data|
    ensures var r := Drain(s, q, counters);
      r.socket.wire + Pending(r.queue) == s.wire + Pending(q)
    decreases |q|, 0
  {
    var r := SendData(s, Unsent(q[0]));
    var next := AddTraffic(counters, q[0].header.id, HeaderSize + |q[0].data|);
    OfferHead(s, q[0]);
    assert r.socket.wire == s.wire + Unsent(q[0]);
    PopStep(q, s.wire, r.socket.wire);
    PopKeeps(q);
    DrainConserves(r.socket, q[1..], next);
  }

  /** The counters a round leaves are the old ones charged, in order, with the
      whole frame of every packet the round popped. */
  lemma {:induction false} DrainCharges(s: Socket, q: seq<QueuedPacket>, counters: seq<nat>)
    requires |counters| == GroupCount
    ensures var r := Drain(s, q, counters);
      r.sent == SentTraffic(counters, q[..|q| - |r.queue|])
    decreases |q|, 1
  {
    if q == [] {
      assert q[..0] == [];
    } else if q[0].bytesTransferred + SendData(s, Unsent(q[0])).count == HeaderSize + |q[0].data| {
      DrainChargesPop(s, q, counters);
    } else {
      assert q[..0] == [];
    }
  }

  /** DrainCharges when the head's frame completes and the head is popped. */
  lemma {:induction false} DrainChargesPop(s: Socket, q: seq<QueuedPacket>, counters: seq<nat>)
    requires |counters| == GroupCount && q != []
    requires var r := SendData(s, Unsent(q[0]));
      q[0].bytesTransferred + r.count == HeaderSize + |q[0].data|
    ensures var r := Drain(s, q, counters);
      r.sent == SentTraffic(counters, q[..|q| - |r.queue|])
    decreases |q|, 0
  {
    var r := SendData(s, Unsent(q[0]));
    var next := AddTraffic(counters, q[0].header.id, HeaderSize + |q[0].data|);
    assert Drain(s, q, counters) == Drain(r.socket, q[1..], next);
    DrainCharges(r.socket, q[1..], next);
    var n := |q| - |Drain(r.socket, q[1..], next).queue|;
    var done := q[..n];
    assert done[0] == q[0] && done[1..] == q[1..][..n - 1];
    assert SentTraffic(counters, done) == SentTraffic(next, done[1..]);
  }

  /** `left` is what remains of `q` after some packets were popped from its
      front: its head (if any) is the first packet not popped, further along
      but still short of its frame's end, and the packets behind it are
      untouched. */
  predicate LeftBehind(q: seq<QueuedPacket>, left: seq<QueuedPacket>)
  {
    left != [] ==>
      var n := |q| - |left|;
      && 0 <= n < |q|
      && left[1..] == q[n + 1..]
      && left[0].header == q[n].header && left[0].data == q[n].data
      && q[n].bytesTransferred <= left[0].bytesTransferred
      && left[0].bytesTransferred < HeaderSize + |left[0].data|
  }

  /** What remains of the queue behind the head remains of the whole queue. */
  lemma LeftBehindPop(q: seq<QueuedPacket>, left: seq<QueuedPacket>)
    requires q != [] && LeftBehind(q[1..], left)
    ensures LeftBehind(q, left)
  {
    if left != [] {
      var n := |q| - |left|;
      assert q[1..][n - 1] == q[n] && q[1..][n - 1 + 1..] == q[n + 1..];
    }
  }

  /** The queue a round leaves is what remains of the old one once the
      completed packets are popped from its front. */
  lemma {:induction false} DrainLeaves(s: Socket, q: seq<QueuedPacket>, counters: seq<nat>)
    requires |counters| == GroupCount && WithinFrames(q)
    ensures LeftBehind(q, Drain(s, q, counters).queue)
    decreases |q|, 1
  {
    if q != [] {
      var r := SendData(s, Unsent(q[0]));
      var head := q[0].(bytesTransferred := q[0].bytesTransferred + r.count);
      OfferHead(s, q[0]);
      if head.bytesTransferred == HeaderSize + |head.data| {
        DrainLeavesPop(s, q, counters);
      } else {
        var left := [head] + q[1..];
        assert Drain(s, q, counters).queue == left;
        assert left[0] == head && left[1..] == q[1..];
      }
    }
  }

  /** DrainLeaves when the head's frame completes and the head is popped. */
  lemma {:induction false} DrainLeavesPop(s: Socket, q: seq<QueuedPacket>, counters: seq<nat>)
    requires |counters| == GroupCount && WithinFrames(q) && q != []
    requires var r := SendData(s, Unsent(q[0]));
      q[0].bytesTransferred + r.count == HeaderSize + |q[0].data|
    ensures LeftBehind(q, Drain(s, q, counters).queue)
    decreases |q|, 0
  {
    var r := SendData(s, Unsent(q[0]));
    var next := AddTraffic(counters, q[0].header.id, HeaderSize + |q[0].data|);
    assert Drain(s, q, counters) == Drain(r.socket, q[1..], next);
    PopKeeps(q);
    DrainLeaves(r.socket, q[1..], next);
    LeftBehindPop(q, Drain(r.socket, q[1..], next).queue);
  }

  /** Behind its head, what remains of a queue holds the old queue's packets
      in their old order. */
  lemma SuffixEntries(q: seq<QueuedPacket>, left: seq<QueuedPacket>)
    requires left != [] && |left| <= |q| && left[1..] == q[|q| - |left| + 1..]
    ensures forall i :: 1 <= i < |left| ==> left[i] == q[|q| - |left| + i]
  {
    forall i | 1 <= i < |left|
      ensures left[i] == q[|q| - |left| + i]
    {
      assert left[i] == left[1..][i - 1];
    }
  }

  /** A round keeps every queued packet within its frame, and keeps all but
      the head unsent if that held before. */
  lemma DrainKeeps(s: Socket, q: seq<QueuedPacket>, counters: seq<nat>)
    requires |counters| == GroupCount && WithinFrames(q)
    ensures var r := Drain(s, q, counters);
      && WithinFrames(r.queue)
      && (OnlyHeadInFlight(q) ==> OnlyHeadInFlight(r.queue))
  {
    DrainLeaves(s, q, counters);
    var left := Drain(s, q, counters).queue;
    if left != [] {
      SuffixEntries(q, left);
    }
  }

  /** The reason SetLastDisconnectReason keeps for a C string argument (None is
      the null pointer): nothing for null, otherwise the string cut to the 255
      bytes the buffer holds before its terminator. */
  function StoredReason(src: Option<seq<byte>>): (r: Option<seq<byte>>)
    ensures r.None? <==> src.None?
    ensures src.Some? ==>
      && |r.value| == Min(|CString(src.value)|, ReasonBufferSize - 1)
      && r.value == CString(src.value)[..|r.value|]
    ensures src.Some? && NoNul(src.value) && |src.value| < ReasonBufferSize ==> r == src
  {
    match src
    case None => None
    case Some(s) => Some(CString(s)[..Min(|CString(s)|, ReasonBufferSize - 1)])
  }

  class Connection {
    var socket: Socket
    /** InboundPacket. */
    const inbound: Packet
    /** The six bytes of InboundPacket.Header seen as raw storage: ReadPacket
        receives the header into them and normalises them into inbound.header. */
    var headerBytes: seq<byte>
    /** _outboundPackets, head first. */
    var outbound: seq<QueuedPacket>
    var authStatus: NetworkAuth
    var lastPacketTime: nat
    var shouldDisconnect: bool
    var lastDisconnectReason: Option<seq<byte>>
    /** Stats.bytesSent and Stats.bytesReceived, indexed by GroupIndex. */
    const bytesSent: array<nat>
    const bytesReceived: array<nat>

    function InboundState(): (st: InState)
      reads this`headerBytes, inbound
    {
      InState(headerBytes, inbound.header, inbound.data, inbound.bytesTransferred)
    }

    predicate StatsValid()
    {
      bytesSent.Length == GroupCount && bytesReceived.Length == GroupCount && bytesSent != bytesReceived
    }

    /** The inbound packet sits between ReadPacket calls in a state ReadStep accepts. */
    ghost predicate InboundValid()
      reads this`headerBytes, inbound
    {
      inbound.Valid() && InValid(InboundState())
    }

    /** No queued packet has been sent beyond the end of its frame. */
    predicate QueueValid()
      reads this`outbound
    {
      WithinFrames(outbound)
    }

    ghost predicate Valid()
      reads this`headerBytes, this`outbound, inbound
    {
      StatsValid() && InboundValid() && QueueValid()
    }

    constructor (socket: Socket, now: nat)
      ensures Valid() && fresh(inbound) && fresh(bytesSent) && fresh(bytesReceived)
      ensures this.socket == socket && outbound == [] && authStatus == NotOk
      ensures !shouldDisconnect && lastDisconnectReason == None && lastPacketTime == now
      ensures inbound.data == [] && inbound.bytesTransferred == 0 && inbound.bytesRead == 0
      ensures bytesSent[..] == [0, 0, 0, 0] && bytesReceived[..] == [0, 0, 0, 0]
      ensures forall t: nat :: ReceivedPacketRecently(t, false) <==> t <= now + Timeout
    {
      this.socket := socket;
      inbound := new Packet(Invalid);
      headerBytes := [0, 0, 0, 0, 0, 0];
      outbound := [];
      authStatus := NotOk;
      shouldDisconnect := false;
      lastDisconnectReason := None;
      bytesSent := new nat[GroupCount](_ => 0);
      bytesReceived := new nat[GroupCount](_ => 0);
      new;
      ResetLastPacketTime(now);
    }

    /** The liveness check; `debugBuild` stands for a build with DEBUG defined,
        where the check is compiled out. */
    function ReceivedPacketRecently(now: nat, debugBuild: bool): (recent: bool)
      reads this
    {
      debugBuild || now <= lastPacketTime + Timeout
    }

    method ResetLastPacketTime(now: nat)
      modifies this`lastPacketTime
      ensures lastPacketTime == now
      ensures forall t: nat :: ReceivedPacketRecently(t, false) <==> t <= now + Timeout
    {
      lastPacketTime := now;
    }

    function IsValid(): (valid: bool)
      reads this
    {
      !shouldDisconnect && socket.status == Connected
    }

    method Disconnect()
      modifies this`shouldDisconnect
      ensures shouldDisconnect && !IsValid()
    {
      shouldDisconnect := true;
    }

    function GetLastDisconnectReason(): (reason: Option<seq<byte>>)
      reads this
    {
      lastDisconnectReason
    }

    method SetLastDisconnectReason(src: Option<seq<byte>>)
      modifies this`lastDisconnectReason
      ensures GetLastDisconnectReason() == StoredReason(src)
    {
      if src.None? {
        lastDisconnectReason := None;
        return;
      }
      var s := CString(src.value);
      lastDisconnectReason := Some(s[..Min(|s|, ReasonBufferSize - 1)]);
    }

    /** RecordPacketStats on a packet with command `command` whose
        BytesTransferred is `bytesTransferred`, the two fields it reads. */
    method RecordPacketStats(command: u32, bytesTransferred: nat, sending: bool)
      requires StatsValid()
      modifies if sending then bytesSent else bytesReceived
      ensures sending ==> bytesSent[..] == AddTraffic(old(bytesSent[..]), command, bytesTransferred)
      ensures !sending ==> bytesReceived[..] == AddTraffic(old(bytesReceived[..]), command, bytesTransferred)
    {
      var packetSize := bytesTransferred % 0x1_0000_0000;
      var group := GroupIndex(TrafficGroup(command));
      var total := GroupIndex(Total);
      if sending {
        bytesSent[group] := bytesSent[group] + packetSize;
        bytesSent[total] := bytesSent[total] + packetSize;
      } else {
        bytesReceived[group] := bytesReceived[group] + packetSize;
        bytesReceived[total] := bytesReceived[total] + packetSize;
      }
    }

    /** The body phase of ReadPacket, entered once the header is complete. */
    method ReadBody(now: nat) returns (status: ReadStatus)
      requires Valid() && inbound.bytesTransferred >= HeaderSize
      modifies this`socket, this`lastPacketTime, inbound`data, inbound`bytesTransferred, bytesReceived
      ensures Valid()
      ensures var r := BodyStep(old(InboundState()), old(socket));
        status == r.status && InboundState() == r.state && socket == r.socket
      ensures status == Success ==>
        && lastPacketTime == now
        && bytesReceived[..] == AddTraffic(old(bytesReceived[..]), inbound.header.id, inbound.bytesTransferred)
      ensures status != Success ==>
        lastPacketTime == old(lastPacketTime) && bytesReceived[..] == old(bytesReceived[..])
    {
      var missingLength := inbound.header.size - (inbound.bytesTransferred - HeaderSize);
      if missingLength > 0 {
        var rc := ReceiveData(socket, Min(missingLength, BufferSize));
        socket := rc.socket;
        if rc.status != Success {
          return rc.status;
        }
        inbound.bytesTransferred := inbound.bytesTransferred + |rc.bytes|;
        inbound.Write(rc.bytes, |rc.bytes|);
      }
      if |inbound.data| == inbound.header.size {
        lastPacketTime := now;
        RecordPacketStats(inbound.GetCommand(), inbound.bytesTransferred, false);
        return Success;
      }
      return MoreData;
    }

    /** One attempt to complete the inbound packet: the state machine ReadStep,
        stamping the time and charging the received counters on completion. */
    method ReadPacket(now: nat) returns (status: ReadStatus)
      requires Valid()
      modifies this`socket, this`headerBytes, this`lastPacketTime
      modifies inbound`header, inbound`data, inbound`bytesTransferred, bytesReceived
      ensures Valid()
      ensures var r := ReadStep(old(InboundState()), old(socket));
        status == r.status && InboundState() == r.state && socket == r.socket
      ensures status == Success ==>
        && lastPacketTime == now
        && bytesReceived[..] == AddTraffic(old(bytesReceived[..]), inbound.header.id, inbound.bytesTransferred)
      ensures status != Success ==>
        lastPacketTime == old(lastPacketTime) && bytesReceived[..] == old(bytesReceived[..])
    {
      ghost var st := InboundState();
      ghost var s0 := socket;
      if inbound.bytesTransferred < HeaderSize {
        var missingLength := HeaderSize - inbound.bytesTransferred;
        var rc := ReceiveData(socket, missingLength);
        socket := rc.socket;
        if rc.status != Success {
          assert ReadStep(st, s0) == Step(rc.status, st, rc.socket);
          return rc.status;
        }
        var raw := StoreHeaderBytes(headerBytes, inbound.bytesTransferred, rc.bytes);
        headerBytes := raw;
        inbound.bytesTransferred := inbound.bytesTransferred + |rc.bytes|;
        if inbound.bytesTransferred < HeaderSize {
          assert InboundState() == st.(raw := raw, transferred := st.transferred + |rc.bytes|);
          assert ReadStep(st, s0) == Step(MoreData, InboundState(), socket);
          return MoreData;
        }
        inbound.header := DecodeHeader(raw);
        assert InboundState() == InState(raw, DecodeHeader(raw), [], HeaderSize);
        assert ReadStep(st, s0) == BodyStep(InboundState(), socket);
      }
      status := ReadBody(now);
    }

    /** Offers the socket the unsent part of `packet`'s frame once; returns the
        packet with its progress recorded and whether the whole frame has now
        been accepted. */
    method SendPacket(packet: QueuedPacket) returns (sent: QueuedPacket, sendComplete: bool)
      requires StatsValid()
      requires packet.bytesTransferred <= HeaderSize + |packet.data|
      modifies this`socket, bytesSent
      ensures var r := SendData(old(socket), Unsent(packet));
        socket == r.socket && sent == packet.(bytesTransferred := packet.bytesTransferred + r.count)
      ensures sent.bytesTransferred <= HeaderSize + |sent.data|
      ensures sendComplete <==> sent.bytesTransferred == HeaderSize + |sent.data|
      ensures sendComplete ==>
        bytesSent[..] == AddTraffic(old(bytesSent[..]), sent.header.id, sent.bytesTransferred)
      ensures !sendComplete ==> bytesSent[..] == old(bytesSent[..])
    {
      OfferHead(socket, packet);
      var buffer := Frame(packet.header, packet.data);
      assert buffer[packet.bytesTransferred..] == Unsent(packet);
      var r := SendData(socket, buffer[packet.bytesTransferred..]);
      socket := r.socket;
      sent := packet;
      if r.count > 0 {
        sent := sent.(bytesTransferred := sent.bytesTransferred + r.count);
      }
      sendComplete := sent.bytesTransferred == |buffer|;
      if sendComplete {
        RecordPacketStats(sent.header.id, sent.bytesTransferred, true);
      }
    }

    /** Whether QueuePacket accepts a packet with command `id`. */
    predicate MayQueue(id: u32)
      reads this`authStatus
    {
      authStatus == Ok || !CommandRequiresAuth(id)
    }

    /** Moves `packet` into the queue, unless it needs authentication the
        connection lacks; a front packet goes behind a partly sent head. */
    method QueuePacket(packet: Packet, front: bool)
      requires QueueValid()
      requires packet.bytesTransferred <= HeaderSize + |packet.data|
      modifies this`outbound
      ensures QueueValid()
      ensures !MayQueue(packet.GetCommand()) ==> outbound == old(outbound)
      ensures MayQueue(packet.GetCommand()) && !front ==> outbound == old(outbound) + [Queued(packet)]
      ensures MayQueue(packet.GetCommand()) && front && old(outbound) != []
              && old(outbound)[0].bytesTransferred > 0 ==>
        outbound == old(outbound)[..1] + [Queued(packet)] + old(outbound)[1..]
      ensures MayQueue(packet.GetCommand()) && front
              && (old(outbound) == [] || old(outbound)[0].bytesTransferred == 0) ==>
        outbound == [Queued(packet)] + old(outbound)
      ensures old(outbound) != [] && old(outbound)[0].bytesTransferred > 0 ==>
        outbound != [] && outbound[0] == old(outbound)[0]
      ensures OnlyHeadInFlight(old(outbound)) && packet.bytesTransferred == 0 ==> OnlyHeadInFlight(outbound)
      ensures MayQueue(packet.GetCommand()) && !front ==>
        Pending(outbound) == old(Pending(outbound)) + Unsent(Queued(packet))
    {
      if authStatus == Ok || !CommandRequiresAuth(packet.GetCommand()) {
        var queued := QueuedPacket(Header(|packet.data| % 0x1_0000, packet.header.id), packet.data, packet.bytesTransferred);
        if front {
          if outbound != [] && outbound[0].bytesTransferred > 0 {
            outbound := outbound[..1] + [queued] + outbound[1..];
          } else {
            outbound := [queued] + outbound;
          }
        } else {
          PendingAppend(outbound, [queued]);
          outbound := outbound + [queued];
        }
      }
    }

    /** One pass of SendQueuedPackets' loop: offers the head its unsent bytes
        and pops it when its frame is complete. */
    method SendHead() returns (complete: bool)
      requires StatsValid() && QueueValid() && outbound != []
      modifies this`socket, this`outbound, bytesSent
      ensures QueueValid()
      ensures complete ==> outbound == old(outbound)[1..]
      ensures Drain(old(socket), old(outbound), old(bytesSent[..])) ==
        if complete then Drain(socket, outbound, bytesSent[..])
        else Drained(socket, outbound, bytesSent[..])
    {
      DrainUnfold(socket, outbound, bytesSent[..]);
      ghost var s0, q0, c0 := socket, outbound, bytesSent[..];
      var sent;
      sent, complete := SendPacket(outbound[0]);
      if complete {
        outbound := outbound[1..];
        PopKeeps(q0);
      } else {
        outbound := [sent] + outbound[1..];
        DrainKeeps(s0, q0, c0);
      }
    }

    /** Sends queued packets head first until one is not completely accepted
        or the queue is empty; completed packets leave the queue. */
    method SendQueuedPackets()
      requires StatsValid() && QueueValid()
      modifies this`socket, this`outbound, bytesSent
      ensures QueueValid()
      ensures var r := Drain(old(socket), old(outbound), old(bytesSent[..]));
        socket == r.socket && outbound == r.queue && bytesSent[..] == r.sent
    {
      ghost var goal := Drain(socket, outbound, bytesSent[..]);
      while outbound != []
        invariant StatsValid() && QueueValid()
        invariant Drain(socket, outbound, bytesSent[..]) == goal
        decreases |outbound|
      {
        var complete := SendHead();
        if !complete {
          return;
        }
      }
    }
  }
}

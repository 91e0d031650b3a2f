/** The connection's non-blocking TCP socket, seen only through the three calls
    the connection makes (ReceiveData, SendData, GetStatus). The socket is an
    oracle: its answers are fixed in advance by a plan, so that a property
    proved for every plan holds for every behaviour of the real socket. */
module Sockets {
  import opened Wire

  datatype ReadStatus = Success | NoData | MoreData | Disconnected

  datatype SocketStatus = Closed | Waiting | Resolving | Connecting | Connected | Listening

  /** The answer to one ReceiveData call: deliver at most `limit` of the bytes
      that have arrived, or fail with `status` and no bytes. */
  datatype Grant = Deliver(limit: nat) | Refuse(status: ReadStatus)

  datatype Socket = Socket(
    status: SocketStatus,
    /** Bytes the peer has sent that have not been received yet, in stream order. */
    inbox: seq<byte>,
    /** Answers to the coming ReceiveData calls; none left means "would block". */
    grants: seq<Grant>,
    /** How many bytes each coming SendData call accepts at most; none left means none. */
    accepts: seq<nat>,
    /** The maximum lengths the connection asked ReceiveData for, in call order. */
    requested: seq<nat>,
    /** Every byte SendData has accepted, in order: what the peer will see. */
    wire: seq<byte>)

  datatype Received = Received(status: ReadStatus, bytes: seq<byte>, socket: Socket)

  datatype Sent = Sent(count: nat, socket: Socket)

  /** ReceiveData(buffer, max, &bytesRead). */
  function ReceiveData(s: Socket, max: nat): (r: Received)
    ensures |r.bytes| <= max
    ensures r.status != Success ==> r.bytes == []
    ensures r.bytes + r.socket.inbox == s.inbox
    ensures r.socket.requested == s.requested + [max]
    ensures r.socket.status == s.status && r.socket.accepts == s.accepts && r.socket.wire == s.wire
    ensures s.grants != [] && s.grants[0].Deliver? ==>
      && r.status == Success
      && |r.bytes| == Min(Min(max, s.grants[0].limit), |s.inbox|)
      && r.socket.grants == s.grants[1..]
  {
    var logged := s.(requested := s.requested + [max]);
    if s.grants == [] then
      Received(MoreData, [], logged)
    else
      match s.grants[0]
      case Refuse(status) =>
        Received(status, [], logged.(grants := s.grants[1..]))
      case Deliver(limit) =>
        var n := Min(Min(max, limit), |s.inbox|);
        Received(Success, s.inbox[..n], logged.(inbox := s.inbox[n..], grants := s.grants[1..]))
  }

  /** SendData(buffer, size): the count of bytes of `buf` the socket accepted. */
  function SendData(s: Socket, buf: seq<byte>): (r: Sent)
    ensures r.count <= |buf|
    ensures r.socket.wire == s.wire + buf[..r.count]
    ensures r.socket.status == s.status && r.socket.inbox == s.inbox
    ensures r.socket.grants == s.grants && r.socket.requested == s.requested
  {
    if s.accepts == [] then
      Sent(0, s)
    else
      var n := Min(s.accepts[0], |buf|);
      Sent(n, s.(accepts := s.accepts[1..], wire := s.wire + buf[..n]))
  }
}

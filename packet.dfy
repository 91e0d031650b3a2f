/** NetworkPacket: a header (declared size and command id), a growable body,
    a read cursor for the higher-level decoder and a transfer counter used by
    the connection while the packet travels through the socket. */
module Packets {
  import opened Wire

  /** sizeof(NetworkPacketHeader): a uint16 size followed by a uint32 id, packed. */
  const HeaderSize: nat := 6
  /** sizeof(Header.Id). */
  const IdSize: nat := 4

  // NetworkCommand codes, in the enumeration's declaration order.
  const Auth: u32 := 0
  const Map: u32 := 1
  const Chat: u32 := 2
  const GameCmd: u32 := 3
  const Tick: u32 := 4
  const PlayerList: u32 := 5
  const Ping: u32 := 6
  const PingList: u32 := 7
  const DisconnectMessage: u32 := 8
  const GameInfo: u32 := 9
  const ShowError: u32 := 10
  const GroupList: u32 := 11
  const SetGroup: u32 := 12
  const ModifyGroup: u32 := 13
  const ModifyPlayer: u32 := 14
  const Kick: u32 := 15
  const PlayerInfo: u32 := 16
  const Token: u32 := 17
  const ObjectsList: u32 := 18
  const MapRequest: u32 := 19
  const GameAction: u32 := 20
  const PlayerJoin: u32 := 21
  const Scripts: u32 := 22
  const Heartbeat: u32 := 23
  const Invalid: u32 := 0xFFFF_FFFF

  /** The commands a peer may exchange before authentication has completed. */
  const PreAuthCommands: set<u32> :=
    {Ping, Auth, Token, GameInfo, ObjectsList, Scripts, MapRequest, Heartbeat}

  /** NetworkPacket::CommandRequiresAuth, on the packet's command id. */
  function CommandRequiresAuth(id: u32): (r: bool)
    ensures !r <==> id in PreAuthCommands
    ensures (id in {Map, Chat, GameCmd, Tick, PlayerList, PingList, DisconnectMessage,
                    ShowError, GroupList, SetGroup, ModifyGroup, ModifyPlayer, Kick,
                    PlayerInfo, GameAction, PlayerJoin, Invalid}) ==> r
  {
    !(id == Ping || id == Auth || id == Token || id == GameInfo || id == ObjectsList
      || id == Scripts || id == MapRequest || id == Heartbeat)
  }

  datatype Header = Header(size: u16, id: u32)

  /** Index of the first NUL byte at or after `from`, or |data| when there is none. */
  function FirstNul(data: seq<byte>, from: nat): (k: nat)
    requires from <= |data|
    ensures from <= k <= |data|
    ensures forall i :: from <= i < k ==> data[i] != 0
    ensures k < |data| ==> data[k] == 0
    decreases |data| - from
  {
    if from == |data| || data[from] == 0 then from else FirstNul(data, from + 1)
  }

  /** Any position with only non-NUL bytes before it and a NUL (or the end) at it
      is the one FirstNul finds. */
  lemma FirstNulUnique(data: seq<byte>, from: nat, k: nat)
    requires from <= k <= |data|
    requires forall i :: from <= i < k ==> data[i] != 0
    requires k < |data| ==> data[k] == 0
    ensures FirstNul(data, from) == k
  {
  }

  /** A string written with a terminator is found again, whatever precedes or follows it. */
  lemma {:induction false} StringRoundTrip(prefix: seq<byte>, s: seq<byte>, suffix: seq<byte>)
    requires NoNul(s)
    ensures var d := prefix + s + [0] + suffix;
      FirstNul(d, |prefix|) == |prefix| + |s| && d[|prefix|..|prefix| + |s|] == s
  {
    var d := prefix + s + [0] + suffix;
    assert forall i :: |prefix| <= i < |prefix| + |s| ==> d[i] == s[i - |prefix|];
    assert d[|prefix| + |s|] == 0;
    FirstNulUnique(d, |prefix|, |prefix| + |s|);
    assert d[|prefix|..|prefix| + |s|] == s;
  }

  /** NetworkPacket::ReadString as written (NetworkPacket.cpp:88-109): when no NUL
      lies between the cursor and the end, the final check inspects the byte one
      past the end of Data, here the parameter `pastEnd`. The result is the
      string found, if any, and the new cursor. */
  function ReadStringAsWritten(data: seq<byte>, from: nat, pastEnd: byte): (r: (Option<seq<byte>>, nat))
    requires from <= |data|
    ensures r.1 <= |data| + 1
    ensures r.1 > |data| <==> from < |data| && FirstNul(data, from) == |data| && pastEnd == 0
  {
    if from >= |data| then (None, from)
    else
      var k := FirstNul(data, from);
      var terminator := if k < |data| then data[k] else pastEnd;
      if terminator != 0 then (None, k) else (Some(data[from..k]), k + 1)
  }

  /** A one-byte body without terminator: if the byte past the end happens to be
      zero, ReadString as written succeeds and moves the cursor beyond the body. */
  lemma ReadStringOverrun()
    ensures ReadStringAsWritten([0x61], 0, 0) == (Some([0x61]), 2)
  {
    var d: seq<byte> := [0x61];
    assert FirstNul(d, 1) == 1;
    assert FirstNul(d, 0) == 1;
    assert d[0..1] == d;
  }

  class Packet {
    var header: Header
    var data: seq<byte>
    /** Bytes of this packet moved through the socket so far, header included. */
    var bytesTransferred: nat
    /** Read cursor into data. */
    var bytesRead: nat

    ghost predicate Valid()
      reads this
    {
      bytesRead <= |data|
    }

    function GetCommand(): (id: u32)
      reads this
    {
      header.id
    }

    constructor (id: u32)
      ensures Valid()
      ensures header == Header(0, id) && GetCommand() == id
      ensures data == [] && bytesTransferred == 0 && bytesRead == 0
    {
      header := Header(0, id);
      data := [];
      bytesTransferred := 0;
      bytesRead := 0;
    }

    method Clear()
      modifies this
      ensures Valid()
      ensures header == old(header)
      ensures data == [] && bytesTransferred == 0 && bytesRead == 0
    {
      bytesTransferred := 0;
      bytesRead := 0;
      data := [];
    }

    /** Appends the first `size` bytes of `bytes`. */
    method Write(bytes: seq<byte>, size: nat)
      requires size <= |bytes|
      modifies this`data
      ensures data == old(data) + bytes[..size]
      ensures old(Valid()) ==> Valid()
    {
      data := data + bytes[..size];
    }

    /** Appends the C string `s` (its bytes up to the first NUL) and one NUL. */
    method WriteString(s: seq<byte>)
      modifies this`data
      ensures data == old(data) + CString(s) + [0]
      ensures |data| == old(|data|) + |CString(s)| + 1
      ensures NoNul(s) ==> data == old(data) + s + [0]
      ensures old(Valid()) ==> Valid()
    {
      var str := CString(s) + [0];
      Write(str, |str|);
    }

    /** Returns the next `size` unread bytes, or None when fewer remain. */
    method Read(size: nat) returns (r: Option<seq<byte>>)
      requires Valid()
      modifies this`bytesRead
      ensures Valid()
      ensures old(bytesRead) + size > |data| ==> r == None && bytesRead == old(bytesRead)
      ensures old(bytesRead) + size <= |data| ==>
        r == Some(data[old(bytesRead)..old(bytesRead) + size]) && bytesRead == old(bytesRead) + size
    {
      if bytesRead + size > |data| {
        r := None;
      } else {
        r := Some(data[bytesRead..bytesRead + size]);
        bytesRead := bytesRead + size;
      }
    }

    /** Returns the bytes from the cursor up to the next NUL and moves the cursor
        past that NUL; reaching the end of data without one is a failure. */
    method ReadString() returns (r: Option<seq<byte>>)
      requires Valid()
      modifies this`bytesRead
      ensures Valid()
      ensures old(bytesRead) == |data| ==> r == None && bytesRead == old(bytesRead)
      ensures old(bytesRead) < |data| && FirstNul(data, old(bytesRead)) < |data| ==>
        r == Some(data[old(bytesRead)..FirstNul(data, old(bytesRead))])
        && bytesRead == FirstNul(data, old(bytesRead)) + 1
      ensures old(bytesRead) < |data| && FirstNul(data, old(bytesRead)) == |data| ==>
        r == None && bytesRead == |data|
    {
      if bytesRead >= |data| {
        return None;
      }
      var start := bytesRead;
      var stringLen := 0;
      while bytesRead < |data| && data[start + stringLen] != 0
        invariant start <= bytesRead <= |data| && bytesRead == start + stringLen
        invariant forall i :: start <= i < bytesRead ==> data[i] != 0
        decreases |data| - bytesRead
      {
        bytesRead := bytesRead + 1;
        stringLen := stringLen + 1;
      }
      FirstNulUnique(data, start, bytesRead);
      if bytesRead == |data| {
        // No terminator inside data: the byte past the end is never inspected.
        return None;
      }
      // Skip the terminator.
      bytesRead := bytesRead + 1;
      r := Some(data[start..start + stringLen]);
    }
  }

  /** WriteString followed by ReadString from where the string begins gives the
      string back and leaves the cursor just past its terminator. */
  method WriteThenReadString(p: Packet, s: seq<byte>) returns (r: Option<seq<byte>>)
    requires p.Valid() && p.bytesRead == |p.data|
    modifies p
    ensures p.Valid()
    ensures r == Some(CString(s))
    ensures p.bytesRead == old(|p.data|) + |CString(s)| + 1
  {
    ghost var before := p.data;
    p.WriteString(s);
    StringRoundTrip(before, CString(s), []);
    assert p.data == before + CString(s) + [0] + [];
    r := p.ReadString();
  }
}

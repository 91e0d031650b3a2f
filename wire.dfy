/** Byte-level vocabulary shared by the packet and the connection: fixed-width
    integers, network (big-endian) byte order and NUL-terminated strings. */
module Wire {

  datatype Option<+T> = None | Some(value: T)

  type byte = x: int | 0 <= x < 0x100
  type u16 = x: int | 0 <= x < 0x1_0000
  type u32 = x: int | 0 <= x < 0x1_0000_0000

  function Min(a: int, b: int): (m: int)
  {
    if a <= b then a else b
  }

  /** A 16-bit value in network byte order (Convert::HostToNetwork on uint16_t). */
  function BE16(x: u16): (r: seq<byte>)
    ensures |r| == 2
  {
    [x / 0x100, x % 0x100]
  }

  /** Convert::NetworkToHost on the two raw bytes of a uint16_t field. */
  function FromBE16(b: seq<byte>): (x: u16)
    requires |b| == 2
  {
    (b[0] as int) * 0x100 + b[1]
  }

  /** Every two bytes are the network order of the value they denote. */
  lemma FromBE16Inverse(b: seq<byte>)
    requires |b| == 2
    ensures BE16(FromBE16(b)) == b
  {
  }

  /** A 32-bit value in network byte order (ByteSwapBE on a little-endian host). */
  function BE32(x: u32): (r: seq<byte>)
    ensures |r| == 4
  {
    [x / 0x100_0000, (x / 0x1_0000) % 0x100, (x / 0x100) % 0x100, x % 0x100]
  }

  /** ByteSwapBE applied to the four raw bytes of a uint32_t field. */
  function FromBE32(b: seq<byte>): (x: u32)
    requires |b| == 4
  {
    (((b[0] as int) * 0x100 + b[1]) * 0x100 + b[2]) * 0x100 + b[3]
  }

  /** Every four bytes are the network order of the value they denote. */
  lemma FromBE32Inverse(b: seq<byte>)
    requires |b| == 4
    ensures BE32(FromBE32(b)) == b
  {
    var x := FromBE32(b);
    assert x / 0x100 == ((b[0] as int) * 0x100 + b[1]) * 0x100 + b[2];
    assert x / 0x1_0000 == (b[0] as int) * 0x100 + b[1];
    assert x / 0x100_0000 == b[0];
  }

  lemma BE16RoundTrip(x: u16)
    ensures FromBE16(BE16(x)) == x
  {
  }

  lemma BE32RoundTrip(x: u32)
    ensures FromBE32(BE32(x)) == x
  {
    var b := BE32(x);
    var hi3 := x / 0x100;
    var hi2 := x / 0x1_0000;
    assert hi3 / 0x100 == hi2 && hi2 / 0x100 == b[0];
    assert (b[0] as int) * 0x100 + b[1] == hi2;
    assert hi2 * 0x100 + b[2] == hi3;
    assert hi3 * 0x100 + b[3] == x;
  }

  predicate NoNul(s: seq<byte>)
  {
    forall i :: 0 <= i < |s| ==> s[i] != 0
  }

  /** The bytes a C string argument denotes: everything before its first NUL
      (what strlen measures). */
  function CString(s: seq<byte>): (r: seq<byte>)
    ensures |r| <= |s| && r == s[..|r|]
    ensures NoNul(r)
    ensures |r| < |s| ==> s[|r|] == 0
    ensures NoNul(s) ==> r == s
  {
    if s == [] || s[0] == 0 then [] else [s[0]] + CString(s[1..])
  }
}

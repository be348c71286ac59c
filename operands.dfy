// Byte layout of the fixed-width operands in the bytecode. The source writes
// and reads a native `int` (WsInt) or `unsigned int` (WsAddrInt) through a
// pointer cast; the model fixes that layout to 4 bytes, little-endian, with
// two's complement for the signed operand.

module Operands {
  import opened Blankspace

  /** The four little-endian bytes of an address operand. */
  function AddrBytes(u: u32): (bs: seq<byte>)
    ensures |bs| == WS_ADDR_SIZE
  {
    [u % 0x100, (u / 0x100) % 0x100, (u / 0x1_0000) % 0x100, u / 0x100_0000]
  }

  /** Reads an address operand back from its four bytes. */
  function AddrOf(bs: seq<byte>): (u: u32)
    requires |bs| == WS_ADDR_SIZE
  {
    var b0: int, b1: int, b2: int, b3: int := bs[0], bs[1], bs[2], bs[3];
    b0 + 0x100 * b1 + 0x1_0000 * b2 + 0x100_0000 * b3
  }

  /** Two's complement: the unsigned 32-bit pattern of a signed value. */
  function Unsigned(n: i32): (u: u32)
    ensures n >= 0 ==> u == n
    ensures n < 0 ==> u == n + 0x1_0000_0000
  {
    if n < 0 then n + 0x1_0000_0000 else n
  }

  /** The signed value of a 32-bit pattern. */
  function Signed(u: u32): (n: i32)
    ensures Unsigned(n) == u
  {
    if u >= 0x8000_0000 then u - 0x1_0000_0000 else u
  }

  /** The four bytes of a signed operand. */
  function IntBytes(n: i32): (bs: seq<byte>)
    ensures |bs| == WS_INT_SIZE
  {
    AddrBytes(Unsigned(n))
  }

  /** Reads a signed operand back from its four bytes. */
  function IntOf(bs: seq<byte>): i32
    requires |bs| == WS_INT_SIZE
  {
    Signed(AddrOf(bs))
  }

  /** Decoding an encoded address gives the address back. */
  lemma AddrRoundTrip(u: u32)
    ensures AddrOf(AddrBytes(u)) == u
  {
    var bs := AddrBytes(u);
    var q1 := u / 0x100;
    var q2 := q1 / 0x100;
    assert u == bs[0] + 0x100 * q1;
    assert q1 == bs[1] + 0x100 * q2;
    assert q2 == bs[2] as int + 0x100 * bs[3] as int by {
      assert q2 == u / 0x1_0000;
      assert bs[3] == q2 / 0x100;
    }
  }

  /** Encoding the value decoded from four bytes gives those bytes back. */
  lemma AddrBytesRoundTrip(bs: seq<byte>)
    requires |bs| == WS_ADDR_SIZE
    ensures AddrBytes(AddrOf(bs)) == bs
  {
    var u := AddrOf(bs);
    var r := AddrBytes(u);
    assert u == bs[0] as int + 0x100 * (bs[1] as int + 0x100 * (bs[2] as int + 0x100 * bs[3] as int));
    assert r[0] == bs[0];
    assert u / 0x100 == bs[1] as int + 0x100 * (bs[2] as int + 0x100 * bs[3] as int);
    assert r[1] == bs[1];
    assert u / 0x1_0000 == bs[2] as int + 0x100 * bs[3] as int;
    assert r[2] == bs[2];
    assert r[3] == bs[3];
  }

  /** Decoding an encoded signed operand gives the value back. */
  lemma IntRoundTrip(n: i32)
    ensures IntOf(IntBytes(n)) == n
  {
    AddrRoundTrip(Unsigned(n));
  }
}

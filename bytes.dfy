/**
 * Fixed-width unsigned integers and their little-endian byte layout.
 * The message format is only defined on little-endian hosts, so every
 * multi-byte field is read low byte first.
 */
module Bytes {

  newtype uint8 = x: int | 0 <= x < 0x100
  newtype uint16 = x: int | 0 <= x < 0x1_0000
  newtype uint32 = x: int | 0 <= x < 0x1_0000_0000

  /** The uint16 stored little-endian in the two bytes `lo`, `hi`. */
  function LeUint16(lo: uint8, hi: uint8): (r: uint16)
    ensures r as int % 0x100 == lo as int
    ensures r as int / 0x100 == hi as int
  {
    (lo as int + 0x100 * hi as int) as uint16
  }

  /** The two bytes, low byte first, that store `v`. */
  function Uint16Le(v: uint16): (r: seq<uint8>)
    ensures |r| == 2 && LeUint16(r[0], r[1]) == v
  {
    [(v as int % 0x100) as uint8, (v as int / 0x100) as uint8]
  }

  lemma Uint16LeOfLeUint16(lo: uint8, hi: uint8)
    ensures Uint16Le(LeUint16(lo, hi)) == [lo, hi]
  {
  }

  /** The uint32 stored little-endian in `b[0..4]`. */
  function LeUint32(b: seq<uint8>): (r: uint32)
    requires |b| == 4
    ensures r as int % 0x1_0000 == LeUint16(b[0], b[1]) as int
    ensures r as int / 0x1_0000 == LeUint16(b[2], b[3]) as int
  {
    var lo, hi := LeUint16(b[0], b[1]) as int, LeUint16(b[2], b[3]) as int;
    SplitHalves(lo, hi);
    (lo + 0x1_0000 * hi) as uint32
  }

  /** A 32-bit value made of two 16-bit halves gives them back by division and remainder. */
  lemma SplitHalves(lo: int, hi: int)
    requires 0 <= lo < 0x1_0000 && 0 <= hi < 0x1_0000
    ensures 0 <= lo + 0x1_0000 * hi < 0x1_0000_0000
    ensures (lo + 0x1_0000 * hi) % 0x1_0000 == lo && (lo + 0x1_0000 * hi) / 0x1_0000 == hi
  {
  }

  /** The four bytes, least significant first, that store `v`. */
  function Uint32Le(v: uint32): (r: seq<uint8>)
    ensures |r| == 4
  {
    Uint16Le((v as int % 0x1_0000) as uint16) + Uint16Le((v as int / 0x1_0000) as uint16)
  }

  lemma {:induction false} LeUint32OfUint32Le(v: uint32)
    ensures LeUint32(Uint32Le(v)) == v
  {
    var lo, hi := (v as int % 0x1_0000) as uint16, (v as int / 0x1_0000) as uint16;
    var b := Uint32Le(v);
    assert b[0..2] == Uint16Le(lo) && b[2..4] == Uint16Le(hi);
    assert LeUint16(b[0], b[1]) == lo;
    assert LeUint16(b[2], b[3]) == hi;
  }

  lemma {:induction false} Uint32LeOfLeUint32(b: seq<uint8>)
    requires |b| == 4
    ensures Uint32Le(LeUint32(b)) == b
  {
    var v := LeUint32(b);
    assert (v as int % 0x1_0000) as uint16 == LeUint16(b[0], b[1]);
    assert (v as int / 0x1_0000) as uint16 == LeUint16(b[2], b[3]);
    Uint16LeOfLeUint16(b[0], b[1]);
    Uint16LeOfLeUint16(b[2], b[3]);
    assert b == [b[0], b[1]] + [b[2], b[3]];
  }
}

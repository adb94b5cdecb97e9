// Shared vocabulary: optional values, bytes, and the big-endian integers of the wire formats.
module Base {
  datatype Option<+T> = None | Some(value: T)

  type byte = b: int | 0 <= b < 0x100
  type pos = n: nat | n > 0 witness 1
  type u16 = n: int | 0 <= n < 0x1_0000
  type u32 = n: int | 0 <= n < 0x1_0000_0000
  type u64 = n: int | 0 <= n < 0x1_0000_0000_0000_0000
  type bytes = seq<byte>

  datatype Family = Inet | Inet6 | Other

  datatype Address = Address(family: Family, octets: bytes)

  // Big-endian integers
  function U16(b: bytes, i: nat): u16
    requires i + 2 <= |b|
  {
    b[i] as int * 0x100 + b[i + 1]
  }

  function U32(b: bytes, i: nat): u32
    requires i + 4 <= |b|
  {
    U16(b, i) as int * 0x1_0000 + U16(b, i + 2)
  }

  function Be16(n: u16): bytes { [n / 0x100, n % 0x100] }

  function Be32(n: u32): bytes { Be16(n / 0x1_0000) + Be16(n % 0x1_0000) }

  // Bytes read as one number, the most significant first
  function Number(b: bytes): nat { if b == [] then 0 else 0x100 * Number(b[..|b| - 1]) + b[|b| - 1] }

  lemma TwoBytes(b: bytes)
    requires |b| == 2
    ensures Number(b) == U16(b, 0)
  {
    assert b[..1][..0] == [];
    assert Number(b[..1]) == b[0];
  }

  lemma FourBytes(b: bytes)
    requires |b| == 4
    ensures Number(b) == U32(b, 0)
  {
    TwoBytes(b[..2]);
    assert b[..3][..2] == b[..2];
    assert Number(b[..3]) == 0x100 * Number(b[..2]) + b[2];
  }

  // The integers of the wire formats are in network order
  lemma NetworkOrder(b: bytes, i: nat)
    ensures i + 2 <= |b| ==> U16(b, i) == Number(b[i..i + 2])
    ensures i + 4 <= |b| ==> U32(b, i) == Number(b[i..i + 4])
  {
    if i + 2 <= |b| { TwoBytes(b[i..i + 2]); }
    if i + 4 <= |b| { FourBytes(b[i..i + 4]); }
  }

  lemma WrittenInNetworkOrder(m: u16, n: u32)
    ensures |Be16(m)| == 2 && Number(Be16(m)) == m
    ensures |Be32(n)| == 4 && Number(Be32(n)) == n
  {
    TwoBytes(Be16(m));
    FourBytes(Be32(n));
    assert U16(Be32(n), 0) == n / 0x1_0000 && U16(Be32(n), 2) == n % 0x1_0000;
  }

  // C's subtraction of 32-bit unsigned integers
  function Sub32(a: u32, b: u32): u32 { (a - b) % 0x1_0000_0000 }

  // and of sizes, which have 64 bits
  function Sub64(a: u64, b: u64): u64 { (a - b) % 0x1_0000_0000_0000_0000 }

  // chunk_skip: past the end there is nothing left
  function Skip(b: bytes, n: nat): bytes { if |b| > n then b[n..] else [] }

  function Zeros(n: nat): (z: bytes)
    ensures |z| == n
  {
    seq(n, _ => 0)
  }

  // pad_len: what is missing to the next multiple
  function PadLen(size: nat, alignment: nat): (n: nat)
    requires alignment > 0
    ensures n < alignment
  {
    var remainder := size % alignment;
    if remainder != 0 then alignment - remainder else 0
  }

  // memcpy into part of a buffer
  method Write(buf: array<byte>, off: nat, value: bytes)
    requires off + |value| <= buf.Length
    modifies buf
    ensures buf[..off] == old(buf[..off]) && buf[off + |value|..] == old(buf[off + |value|..])
    ensures buf[off..off + |value|] == value
  {
    forall i | 0 <= i < |value| {
      buf[off + i] := value[i];
    }
  }
}

/**
 * The block header that c_malloc stores in the heap: a 16-bit unsigned value
 * written through a `uint16_t*` at the start of the block. The byte order is
 * the platform's; this model fixes it to little-endian (low byte first).
 *
 * Memory is a map from byte offset (relative to the start of the heap) to
 * byte; an offset that was never written reads as 0, because the heap is a
 * zero-initialised static object.
 */
module Header {

  newtype byte = x: int | 0 <= x < 256

  const UINT16_LIMIT: nat := 0x1_0000

  type Memory = map<nat, byte>

  /** The byte at offset `a`; 0 if it was never written. */
  function ByteAt(mem: Memory, a: nat): (b: nat)
    ensures b < 256
    ensures a !in mem ==> b == 0
  {
    if a in mem then mem[a] as nat else 0
  }

  /** `*((uint16_t*)(heap + a))` */
  function ReadU16(mem: Memory, a: nat): (v: nat)
    ensures v < UINT16_LIMIT
  {
    ByteAt(mem, a) + 256 * ByteAt(mem, a + 1)
  }

  /** `*((uint16_t*)(heap + a)) = v` */
  function WriteU16(mem: Memory, a: nat, v: nat): (m: Memory)
    requires v < UINT16_LIMIT
    ensures m.Keys == mem.Keys + {a, a + 1}
    ensures forall b :: b in mem && b != a && b != a + 1 ==> m[b] == mem[b]
  {
    mem[a := (v % 256) as byte][a + 1 := (v / 256) as byte]
  }

  /** Reading the header back returns the value written. */
  lemma ReadAfterWrite(mem: Memory, a: nat, v: nat)
    requires v < UINT16_LIMIT
    ensures ReadU16(WriteU16(mem, a, v), a) == v
  {
    var m := WriteU16(mem, a, v);
    assert ByteAt(m, a) == v % 256;
    assert ByteAt(m, a + 1) == v / 256;
  }

  /** A header write leaves every 16-bit slot that does not overlap it unchanged. */
  lemma ReadAfterWriteElsewhere(mem: Memory, a: nat, v: nat, b: nat)
    requires v < UINT16_LIMIT
    requires b + 1 < a || a + 1 < b
    ensures ReadU16(WriteU16(mem, a, v), b) == ReadU16(mem, b)
  {
  }
}

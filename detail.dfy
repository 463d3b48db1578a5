/** Wire-level vocabulary shared by the codec: the byte type, the frame
    header, the reserved byte values, little-endian 16-bit fields and the
    CRC-16 accumulator of DYNAMIXEL Protocol 2.0.

    The library keeps these in include/ldp/detail/packet.hpp, which is not
    part of this model; the values below are the ones the protocol fixes. */
module Detail {

  /** One byte on the wire. */
  type byte = b: int | 0 <= b < 256

  /** An endless byte source: the byte the i-th call would deliver.
      A C++ input functor always yields a byte, so a source never runs dry. */
  type Stream = nat -> byte

  /** The four bytes that open every frame. */
  const Header: seq<byte> := [0xFF, 0xFF, 0xFD, 0x00]

  /** Byte inserted to break an accidental header prefix inside parameters. */
  const StuffingByte: byte := 0xFD

  /** Instruction value of a status (RETURN) packet. */
  const StatusByte: byte := 0x55

  /** Bit of the status error byte that carries the alert flag. */
  const AlertMask: byte := 0x80

  /** The last `k` bytes of `s` are the first `k` bytes of the header. */
  predicate EndsWithHeader(s: seq<byte>, k: nat)
    requires k <= |Header|
  {
    k <= |s| && forall i :: 0 <= i < k ==> s[|s| - k + i] == Header[i]
  }

  /** Little-endian serialisation of a 16-bit field. */
  function LE16(v: nat): (r: seq<byte>)
    requires v < 0x10000
    ensures |r| == 2 && Word(r[0], r[1]) == v
  {
    [v % 256, v / 256]
  }

  /** Value of a little-endian 16-bit field. */
  function Word(lo: byte, hi: byte): nat
  {
    lo + 256 * hi
  }

  /** The bytes a source delivers from call `lo` (included) to call `hi` (excluded). */
  function Take(data: Stream, lo: nat, hi: nat): (r: seq<byte>)
    requires lo <= hi
    decreases hi
    ensures |r| == hi - lo
    ensures forall i :: 0 <= i < |r| ==> r[i] == data(lo + i)
  {
    if hi == lo then [] else Take(data, lo, hi - 1) + [data(hi - 1)]
  }

  /** Growing a prefix by one element. */
  lemma PrefixSnoc<T>(s: seq<T>, i: nat)
    requires i < |s|
    ensures s[..i + 1] == s[..i] + [s[i]]
  {
  }

  /** Concatenation regroups.
      A solver-cost helper with no protocol meaning: it names a fact so the callers need not search for it. */
  lemma AppendAssoc<T>(a: seq<T>, b: seq<T>, c: seq<T>)
    ensures (a + b) + c == a + (b + c)
  {
  }

  // ---------------------------------------------------------------- CRC-16

  /** `advance_crc`: folds one byte into a running CRC. The library defines it
      in include/ldp/detail/packet.hpp, which is not part of this model, so the
      operations that fold a CRC take it as a parameter; `Crc16` below is the
      step DYNAMIXEL Protocol 2.0 prescribes. */
  type CrcStep = (bv16, byte) -> bv16

  /** CRC of a byte sequence, starting from 0 and folding the bytes in order. */
  function CrcOf(adv: CrcStep, s: seq<byte>): bv16
  {
    if s == [] then 0 else adv(CrcOf(adv, s[..|s| - 1]), s[|s| - 1])
  }

  /** Folding one more byte. */
  lemma CrcSnoc(adv: CrcStep, s: seq<byte>, b: byte)
    ensures CrcOf(adv, s + [b]) == adv(CrcOf(adv, s), b)
  {
    assert (s + [b])[..|s|] == s;
  }

  /** One bit of polynomial division by 0x8005, most significant bit first. */
  function CrcShift(c: bv16): bv16
  {
    if c & 0x8000 != 0 then (c << 1) ^ 0x8005 else c << 1
  }

  /** Entry `i` of the CRC-16 table: the remainder of `i * 2^16` divided by
      the polynomial 0x8005. */
  function CrcTableEntry(i: bv16): bv16
  {
    CrcShift(CrcShift(CrcShift(CrcShift(CrcShift(CrcShift(CrcShift(CrcShift(i << 8))))))))
  }

  /** The CRC-16 step of DYNAMIXEL Protocol 2.0 (polynomial 0x8005, MSB
      first, no reflection), as the table-driven update computes it. */
  function Crc16(crc: bv16, b: byte): bv16
  {
    (crc << 8) ^ CrcTableEntry(((crc >> 8) ^ (b as bv16)) & 0xFF)
  }

  /** One step of a concrete CRC-16 computation, for the worked examples. */
  lemma Crc16Step(s: seq<byte>, b: byte, c: bv16, v: bv16)
    requires CrcOf(Crc16, s) == c && Crc16(c, b) == v
    ensures CrcOf(Crc16, s + [b]) == v
  {
    CrcSnoc(Crc16, s, b);
  }
}

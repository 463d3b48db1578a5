/** The DYNAMIXEL Protocol 2.0 frame as include/ldp/packet.hpp writes and
    reads it, stated as functions: the instruction and error vocabulary,
    byte stuffing of the parameters, the `Length` field, the whole frame an
    encoder emits, and what the headerless status decoder does with a byte
    source. The loops that compute these live in module Packet. */
module Frame {
  import opened Detail
  import opened Sentry

  /** The `instruction` enumeration. */
  datatype Instruction =
    | PING | READ | WRITE | REG_WRITE | ACTION | FACTORY_RESET | REBOOT | CLEAR
    | CONTROL_TABLE_BACKUP | RETURN | SYNC_READ | SYNC_WRITE | FAST_SYNC_READ
    | BULK_READ | BULK_WRITE | FAST_BULK_READ
  {
    /** The byte sent in the `Instruction` field; only RETURN is a status. */
    function Code(): (r: byte)
      ensures r == StatusByte <==> this == RETURN
    {
      match this
      case PING => 0x01
      case READ => 0x02
      case WRITE => 0x03
      case REG_WRITE => 0x04
      case ACTION => 0x05
      case FACTORY_RESET => 0x06
      case REBOOT => 0x08
      case CLEAR => 0x10
      case CONTROL_TABLE_BACKUP => 0x20
      case RETURN => 0x55
      case SYNC_READ => 0x82
      case SYNC_WRITE => 0x83
      case FAST_SYNC_READ => 0x8A
      case BULK_READ => 0x92
      case BULK_WRITE => 0x93
      case FAST_BULK_READ => 0x9A
    }
  }

  // Values of `error::type_t`: the device-reported kinds, then the two
  // kinds the library raises itself.
  const OK: nat := 0x00
  const RESULT_FAIL: nat := 0x01
  const INSTRUCTION: nat := 0x02
  const CRC: nat := 0x03
  const DATA_RANGE: nat := 0x04
  const DATA_LENGTH: nat := 0x05
  const DATA_LIMIT: nat := 0x06
  const ACCESS: nat := 0x07
  const NOT_STATUS: nat := 0xFF
  const RECEIVED_BAD_CRC: nat := 0xFE

  /** The `error` struct: a kind and the alert flag. */
  datatype Error = Error(kind: nat, alert: bool)

  /** What `error{...}` built from a kind alone holds. */
  function LibraryError(kind: nat): Error
  {
    Error(kind, false)
  }

  /** The error a non-zero status error byte `e` is turned into: the low seven
      bits are the kind, the top bit is the alert flag. */
  function DeviceError(e: byte): (r: Error)
    ensures r.kind < 128 && r.alert == (e >= AlertMask)
    ensures r.kind + (if r.alert then AlertMask else 0) == e
  {
    Error(e % 128, e >= 128)
  }

  /** `tl::expected<T, error>`. */
  datatype Result<T> = Ok(value: T) | Err(error: Error)

  // ------------------------------------------------------------ stuffing

  /** The parameter bytes as sent: a stuffing byte goes out just before each
      byte on which a stuffing sentry, fed the parameters from the start,
      returns true. */
  function Stuff(p: seq<byte>): (r: seq<byte>)
    ensures |p| <= |r|
  {
    if p == [] then []
    else
      Stuff(p[..|p| - 1])
      + (if Fires(StuffingSentry, p) then [StuffingByte] else [])
      + [p[|p| - 1]]
  }

  /** Stuffing one more parameter byte. */
  lemma StuffSnoc(p: seq<byte>, b: byte)
    ensures Stuff(p + [b])
         == Stuff(p) + (if Fires(StuffingSentry, p + [b]) then [StuffingByte] else []) + [b]
  {
    assert (p + [b])[..|p|] == p;
  }

  /** The encoder's loop invariant carried over one parameter byte: what has
      gone out after `sent0` is the stuffing of the parameters so far. */
  lemma StuffExtend(sent0: seq<byte>, p: seq<byte>, b: byte, sent: seq<byte>, sent': seq<byte>)
    requires sent == sent0 + Stuff(p)
    requires sent' == sent + (if Fires(StuffingSentry, p + [b]) then [StuffingByte] else []) + [b]
    ensures sent' == sent0 + Stuff(p + [b])
  {
    StuffSnoc(p, b);
  }

  /** How many stuffing bytes `p` needs: the bytes on which a stuffing sentry
      fires (`std::count_if` with a `stuffing_sentry`). */
  function Hits(p: seq<byte>): nat
  {
    |FirePositions(StuffingSentry, p)|
  }

  /** `calculate_length`: the 16-bit `Length` field, which counts the stuffed
      parameters, the instruction byte and the two CRC bytes. */
  function CalculateLength(p: seq<byte>): (r: nat)
    ensures r < 0x10000
  {
    (|p| + Hits(p) + 1 + 2) % 0x10000
  }

  // ------------------------------------------------------------ encoding

  /** Every byte of a frame but the CRC: header, id, `Length` (little-endian),
      instruction, stuffed parameters. */
  function Body(id: byte, ins: Instruction, p: seq<byte>): seq<byte>
  {
    Header + [id] + LE16(CalculateLength(p)) + [ins.Code()] + Stuff(p)
  }

  /** The two CRC bytes, little-endian. */
  function CrcBytes(crc: bv16): (r: seq<byte>)
    ensures |r| == 2 && Word(r[0], r[1]) == crc as int
  {
    LE16(crc as int)
  }

  /** The whole frame `write_packet` emits: the body, then the CRC of the body. */
  function Encode(adv: CrcStep, id: byte, ins: Instruction, p: seq<byte>): (r: seq<byte>)
    ensures |r| == 10 + |Stuff(p)|
  {
    Body(id, ins, p) + CrcBytes(CrcOf(adv, Body(id, ins, p)))
  }

  // ------------------------------------------------------------ decoding

  /** A byte source over a buffer; what lies past its end is never read by a
      frame that fits in the buffer. */
  function Over(buf: seq<byte>): Stream
  {
    (i: nat) => if i < |buf| then buf[i] else 0
  }

  /** The declared `Length` field of a headerless frame starting at `start`. */
  function DeclaredLength(data: Stream, start: nat): nat
  {
    Word(data(start + 1), data(start + 2))
  }

  /** The declared `Length` of a status frame covers at least the instruction,
      error and CRC bytes; the decoder's subtraction is undefined otherwise. */
  predicate LengthDefined(data: Stream, start: nat)
  {
    data(start + 3) == StatusByte ==> DeclaredLength(data, start) >= 4
  }

  /** How many parameter bytes the decoder will deliver. */
  function DeclaredParams(data: Stream, start: nat): nat
    requires LengthDefined(data, start)
  {
    if data(start + 3) == StatusByte then DeclaredLength(data, start) - 4 else 0
  }

  /** The parameter phase of the decoder: `k` logical bytes read from `pos`
      on, with a stuffing sentry whose count is `count`. Whenever the sentry
      fires on a byte, the next raw byte is read and dropped. Yields the
      logical bytes and the position after the last raw byte read. */
  function Destuff(data: Stream, pos: nat, k: nat, count: nat): (r: (seq<byte>, nat))
    requires count < StuffingSentry
    ensures |r.0| == k && r.1 >= pos + k
    decreases k
  {
    if k == 0 then ([], pos)
    else
      var b := data(pos);
      var (count', hit) := Step(StuffingSentry, count, b);
      var rest := Destuff(data, if hit then pos + 2 else pos + 1, k - 1, count');
      ([b] + rest.0, rest.1)
  }

  /** The decoder's loop invariant carried over one logical byte read at
      `pos`: the whole parameter phase is what has been delivered so far
      followed by the rest of the phase, which resumes at `next` with the
      sentry's new count. */
  lemma DestuffAdvance(data: Stream, start: nat, total: nat, prev: seq<byte>, pos: nat, k: nat,
                       count: nat, count': nat, next: nat)
    requires k > 0 && count < StuffingSentry
    requires (count', next == pos + 2) == Step(StuffingSentry, count, data(pos))
    requires next == pos + 1 || next == pos + 2
    requires Destuff(data, start, total, 0)
          == (prev + Destuff(data, pos, k, count).0, Destuff(data, pos, k, count).1)
    ensures Destuff(data, start, total, 0)
         == ((prev + [data(pos)]) + Destuff(data, next, k - 1, count').0, Destuff(data, next, k - 1, count').1)
  {
    var b := data(pos);
    var rest := Destuff(data, next, k - 1, count');
    assert Destuff(data, pos, k, count) == ([b] + rest.0, rest.1);
    assert prev + ([b] + rest.0) == (prev + [b]) + rest.0;
  }

  /** The running CRC of the decoder once it has read the raw bytes from
      `start` up to `pos`: the header folded in first, then each byte read. */
  function ReadCrc(adv: CrcStep, data: Stream, start: nat, pos: nat): bv16
    requires start <= pos
    decreases pos
  {
    if pos == start then CrcOf(adv, Header) else adv(ReadCrc(adv, data, start, pos - 1), data(pos - 1))
  }

  /** The decoder's running CRC is the CRC of the header followed by every
      raw byte read, stuffing bytes included. */
  lemma {:induction false} ReadCrcCovers(adv: CrcStep, data: Stream, start: nat, pos: nat)
    requires start <= pos
    ensures ReadCrc(adv, data, start, pos) == CrcOf(adv, Header + Take(data, start, pos))
    decreases pos
  {
    if pos == start {
      assert Header + Take(data, start, pos) == Header;
    } else {
      ReadCrcCovers(adv, data, start, pos - 1);
      assert Header + Take(data, start, pos) == (Header + Take(data, start, pos - 1)) + [data(pos - 1)];
      CrcSnoc(adv, Header + Take(data, start, pos - 1), data(pos - 1));
    }
  }

  /** What a decode leaves behind: its result, the parameter bytes written to
      the output, and the position of the next unread byte. */
  datatype Parsed = Parsed(result: Result<byte>, params: seq<byte>, next: nat)

  /** `read_headerless_packet` on the bytes that follow a header at `start`:
      id, `Length`, instruction, error, then the stuffed parameters and the CRC,
      which covers the header and every byte read before it (`ReadCrcCovers`). */
  function Parse(adv: CrcStep, data: Stream, start: nat): (r: Parsed)
    requires LengthDefined(data, start)
    ensures start + 5 + |r.params| <= r.next
    ensures data(start + 3) == StatusByte ==> |r.params| == DeclaredParams(data, start)
    ensures r.result.Ok? ==>
      && data(start + 3) == StatusByte && data(start + 4) == 0
      && r.result.value == data(start)
  {
    if data(start + 3) != StatusByte then Parsed(Err(LibraryError(NOT_STATUS)), [], start + 5)
    else
      var (params, q) := Destuff(data, start + 5, DeclaredParams(data, start), 0);
      Conclude(adv, data, start, params, q)
  }

  /** The end of a status frame whose parameters `params` have been read up
      to `q`: the two CRC bytes are compared, low byte first, with the running
      CRC, the first mismatch stopping the reading; then the error byte
      decides between the id and the device error. */
  function Conclude(adv: CrcStep, data: Stream, start: nat, params: seq<byte>, q: nat): (r: Parsed)
    requires start <= q
    ensures r.params == params && q < r.next <= q + 2
    ensures r.result.Ok? ==>
      && r.next == q + 2
      && Word(data(q), data(q + 1)) == ReadCrc(adv, data, start, q) as int
      && data(start + 4) == 0 && r.result.value == data(start)
  {
    var id, err := data(start), data(start + 4);
    var expected := CrcBytes(ReadCrc(adv, data, start, q));
    if data(q) != expected[0] then Parsed(Err(LibraryError(RECEIVED_BAD_CRC)), params, q + 1)
    else if data(q + 1) != expected[1] then Parsed(Err(LibraryError(RECEIVED_BAD_CRC)), params, q + 2)
    else if err != 0 then Parsed(Err(DeviceError(err)), params, q + 2)
    else Parsed(Ok(id), params, q + 2)
  }
}

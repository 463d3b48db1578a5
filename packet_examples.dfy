/** The frames of the library's own test cases, worked out with the CRC-16
    step of DYNAMIXEL Protocol 2.0: the read request test/packet.cpp sends,
    the status frame it receives, and the ping request and reply of
    test/request.cpp. Each CRC is computed a few bytes at a time, from the
    CRC of the bytes before. */
module PacketExamples {
  import opened Detail
  import opened Frame
  import opened Stuffing
  import opened FrameProps
  import opened Packet

  // ------------------------------------------------------- CRC, in steps

  /** The CRC of the header, from a zero CRC. */
  lemma HeaderCrcFrom(p: seq<byte>)
    requires CrcOf(Crc16, p) == 0x0000
    ensures CrcOf(Crc16, p + [0xFF, 0xFF, 0xFD, 0x00]) == 0x0E28
  {
    Crc16Step(p, 0xFF, 0x0000, 0x0202);
    Crc16Step(p + [0xFF], 0xFF, 0x0202, 0x800D);
    Crc16Step(p + [0xFF] + [0xFF], 0xFD, 0x800D, 0x0C0E);
    Crc16Step(p + [0xFF] + [0xFF] + [0xFD], 0x00, 0x0C0E, 0x0E28);
    assert p + [0xFF] + [0xFF] + [0xFD] + [0x00] == p + [0xFF, 0xFF, 0xFD, 0x00];
  }

  /** The CRC goes on over the id, `Length` 7 and READ of the read request. */
  lemma ReadRequestMetaCrc(p: seq<byte>)
    requires CrcOf(Crc16, p) == 0x0E28
    ensures CrcOf(Crc16, p + [0x01, 0x07, 0x00, 0x02]) == 0xCE40
  {
    Crc16Step(p, 0x01, 0x0E28, 0x2822);
    Crc16Step(p + [0x01], 0x07, 0x2822, 0xA2E1);
    Crc16Step(p + [0x01] + [0x07], 0x00, 0xA2E1, 0x62CF);
    Crc16Step(p + [0x01] + [0x07] + [0x00], 0x02, 0x62CF, 0xCE40);
    assert p + [0x01] + [0x07] + [0x00] + [0x02] == p + [0x01, 0x07, 0x00, 0x02];
  }

  /** The CRC goes on over the parameters 84 00 04 00 of the read request. */
  lemma ReadRequestParamsCrc(p: seq<byte>)
    requires CrcOf(Crc16, p) == 0xCE40
    ensures CrcOf(Crc16, p + [0x84, 0x00, 0x04, 0x00]) == 0x151D
  {
    Crc16Step(p, 0x84, 0xCE40, 0xC1BF);
    Crc16Step(p + [0x84], 0x00, 0xC1BF, 0x3D85);
    Crc16Step(p + [0x84] + [0x00], 0x04, 0x3D85, 0x8596);
    Crc16Step(p + [0x84] + [0x00] + [0x04], 0x00, 0x8596, 0x151D);
    assert p + [0x84] + [0x00] + [0x04] + [0x00] == p + [0x84, 0x00, 0x04, 0x00];
  }

  /** The CRC goes on over the id, `Length` 3 and PING of the ping request. */
  lemma PingMetaCrc(p: seq<byte>)
    requires CrcOf(Crc16, p) == 0x0E28
    ensures CrcOf(Crc16, p + [0x01, 0x03, 0x00, 0x01]) == 0x4E19
  {
    Crc16Step(p, 0x01, 0x0E28, 0x2822);
    Crc16Step(p + [0x01], 0x03, 0x2822, 0x22FA);
    Crc16Step(p + [0x01] + [0x03], 0x00, 0x22FA, 0xFACC);
    Crc16Step(p + [0x01] + [0x03] + [0x00], 0x01, 0xFACC, 0x4E19);
    assert p + [0x01] + [0x03] + [0x00] + [0x01] == p + [0x01, 0x03, 0x00, 0x01];
  }

  /** The CRC goes on over the id, `Length` 7, status and error of the ping reply. */
  lemma PingReplyMetaCrc(p: seq<byte>)
    requires CrcOf(Crc16, p) == 0x0E28
    ensures CrcOf(Crc16, p + [0x01, 0x07, 0x00, 0x55, 0x00]) == 0x30A1
  {
    Crc16Step(p, 0x01, 0x0E28, 0x2822);
    Crc16Step(p + [0x01], 0x07, 0x2822, 0xA2E1);
    Crc16Step(p + [0x01] + [0x07], 0x00, 0xA2E1, 0x62CF);
    Crc16Step(p + [0x01] + [0x07] + [0x00], 0x55, 0x62CF, 0x4FB1);
    Crc16Step(p + [0x01] + [0x07] + [0x00] + [0x55], 0x00, 0x4FB1, 0x30A1);
    assert p + [0x01] + [0x07] + [0x00] + [0x55] + [0x00] == p + [0x01, 0x07, 0x00, 0x55, 0x00];
  }

  /** The CRC goes on over the data 06 04 26 of the ping reply. */
  lemma PingReplyDataCrc(p: seq<byte>)
    requires CrcOf(Crc16, p) == 0x30A1
    ensures CrcOf(Crc16, p + [0x06, 0x04, 0x26]) == 0x5D65
  {
    Crc16Step(p, 0x06, 0x30A1, 0xA1B4);
    Crc16Step(p + [0x06], 0x04, 0xA1B4, 0xB7DE);
    Crc16Step(p + [0x06] + [0x04], 0x26, 0xB7DE, 0x5D65);
    assert p + [0x06] + [0x04] + [0x26] == p + [0x06, 0x04, 0x26];
  }

  /** The CRC goes on over the id, `Length` 8, status and error of the status frame. */
  lemma StatusMetaCrc(p: seq<byte>)
    requires CrcOf(Crc16, p) == 0x0E28
    ensures CrcOf(Crc16, p + [0x01, 0x08, 0x00, 0x55, 0x00]) == 0xFCA1
  {
    Crc16Step(p, 0x01, 0x0E28, 0x2822);
    Crc16Step(p + [0x01], 0x08, 0x2822, 0xA2C3);
    Crc16Step(p + [0x01] + [0x08], 0x00, 0xA2C3, 0x40CF);
    Crc16Step(p + [0x01] + [0x08] + [0x00], 0x55, 0x40CF, 0x4F7D);
    Crc16Step(p + [0x01] + [0x08] + [0x00] + [0x55], 0x00, 0x4F7D, 0xFCA1);
    assert p + [0x01] + [0x08] + [0x00] + [0x55] + [0x00] == p + [0x01, 0x08, 0x00, 0x55, 0x00];
  }

  /** The CRC goes on over the data A6 00 00 00 of the status frame. */
  lemma StatusDataCrc(p: seq<byte>)
    requires CrcOf(Crc16, p) == 0xFCA1
    ensures CrcOf(Crc16, p + [0xA6, 0x00, 0x00, 0x00]) == 0xC08C
  {
    Crc16Step(p, 0xA6, 0xFCA1, 0xA0DC);
    Crc16Step(p + [0xA6], 0x00, 0xA0DC, 0xDFC0);
    Crc16Step(p + [0xA6] + [0x00], 0x00, 0xDFC0, 0x42C1);
    Crc16Step(p + [0xA6] + [0x00] + [0x00], 0x00, 0x42C1, 0xC08C);
    assert p + [0xA6] + [0x00] + [0x00] + [0x00] == p + [0xA6, 0x00, 0x00, 0x00];
  }

  /** The CRC of the header alone. */
  lemma HeaderCrc16()
    ensures CrcOf(Crc16, Header) == 0x0E28
  {
    HeaderCrcFrom([]);
    assert [] + Header == Header;
  }

  /** The CRC over the read request after the header. */
  lemma ReadRequestCrc(h: seq<byte>)
    requires CrcOf(Crc16, h) == 0x0E28
    ensures CrcOf(Crc16, h + [0x01, 0x07, 0x00, 0x02] + [0x84, 0x00, 0x04, 0x00]) == 0x151D
  {
    ReadRequestMetaCrc(h);
    ReadRequestParamsCrc(h + [0x01, 0x07, 0x00, 0x02]);
  }

  /** The CRC over the status frame test/packet.cpp receives, after the header. */
  lemma StatusInputCrc(h: seq<byte>)
    requires CrcOf(Crc16, h) == 0x0E28
    ensures CrcOf(Crc16, h + [0x01, 0x08, 0x00, 0x55, 0x00] + [0xA6, 0x00, 0x00, 0x00]) == 0xC08C
  {
    StatusMetaCrc(h);
    StatusDataCrc(h + [0x01, 0x08, 0x00, 0x55, 0x00]);
  }

  /** The CRC over the ping reply, after the header. */
  lemma PingReplyCrc(h: seq<byte>)
    requires CrcOf(Crc16, h) == 0x0E28
    ensures CrcOf(Crc16, h + [0x01, 0x07, 0x00, 0x55, 0x00] + [0x06, 0x04, 0x26]) == 0x5D65
  {
    PingReplyMetaCrc(h);
    PingReplyDataCrc(h + [0x01, 0x07, 0x00, 0x55, 0x00]);
  }

  // The CRC fields of the example frames, low byte first.

  lemma ReadRequestCrcField()
    ensures CrcBytes(0x151D) == [0x1D, 0x15]
  {
  }

  lemma PingCrcField()
    ensures CrcBytes(0x4E19) == [0x19, 0x4E]
  {
  }

  lemma StatusInputCrcField()
    ensures CrcBytes(0xC08C) == [0x8C, 0xC0]
  {
  }

  lemma PingReplyCrcField()
    ensures CrcBytes(0x5D65) == [0x65, 0x5D]
  {
  }

  // -------------------------------------------------------------- frames

  /** A frame whose parameters need no stuffing, given its metadata and the
      CRC of everything before the CRC field. */
  lemma FrameOf(adv: CrcStep, id: byte, ins: Instruction, p: seq<byte>, meta: seq<byte>, crc: bv16,
                frame: seq<byte>)
    requires NeedsNoStuffing(p) && |p| + 3 < 0x10000
    requires meta == [id] + LE16(|p| + 3) + [ins.Code()]
    requires CrcOf(adv, Header + meta + p) == crc
    requires frame == Header + meta + p + CrcBytes(crc)
    ensures Encode(adv, id, ins, p) == frame
  {
    EncodeUnstuffed(adv, id, ins, p);
  }

  /** The metadata of a request with `n` parameter bytes, byte by byte. */
  lemma MetaOf(id: byte, ins: Instruction, n: nat, lo: byte, hi: byte)
    requires n + 3 < 0x10000 && lo == (n + 3) % 256 && hi == (n + 3) / 256
    ensures [id] + LE16(n + 3) + [ins.Code()] == [id, lo, hi, ins.Code()]
  {
  }

  /** test/packet.cpp, sending: READ to device 1 with the parameters 132 and
      4 as little-endian 16-bit words goes out as
      FF FF FD 00 01 07 00 02 84 00 04 00 1D 15. */
  lemma ReadRequestFrame()
    ensures Encode(Crc16, 0x01, READ, [0x84, 0x00, 0x04, 0x00])
         == [0xFF, 0xFF, 0xFD, 0x00, 0x01, 0x07, 0x00, 0x02, 0x84, 0x00, 0x04, 0x00, 0x1D, 0x15]
  {
    HeaderCrc16();
    ReadRequestCrc(Header);
    ReadRequestCrcField();
    ReadRequestBytes();
    MetaOf(0x01, READ, 4, 0x07, 0x00);
    FrameOf(Crc16, 0x01, READ, [0x84, 0x00, 0x04, 0x00], [0x01, 0x07, 0x00, 0x02], 0x151D,
      [0xFF, 0xFF, 0xFD, 0x00, 0x01, 0x07, 0x00, 0x02, 0x84, 0x00, 0x04, 0x00, 0x1D, 0x15]);
  }

  /** The bytes of the read request, piece by piece. */
  lemma ReadRequestBytes()
    ensures Header + [0x01, 0x07, 0x00, 0x02] + [0x84, 0x00, 0x04, 0x00] + [0x1D, 0x15]
         == [0xFF, 0xFF, 0xFD, 0x00, 0x01, 0x07, 0x00, 0x02, 0x84, 0x00, 0x04, 0x00, 0x1D, 0x15]
  {
  }

  /** test/request.cpp: a ping to device 1 goes out as
      FF FF FD 00 01 03 00 01 19 4E. */
  lemma PingFrame()
    ensures Encode(Crc16, 0x01, PING, []) == [0xFF, 0xFF, 0xFD, 0x00, 0x01, 0x03, 0x00, 0x01, 0x19, 0x4E]
  {
    HeaderCrc16();
    PingCrc(Header);
    PingCrcField();
    PingBytes();
    MetaOf(0x01, PING, 0, 0x03, 0x00);
    FrameOf(Crc16, 0x01, PING, [], [0x01, 0x03, 0x00, 0x01], 0x4E19,
      [0xFF, 0xFF, 0xFD, 0x00, 0x01, 0x03, 0x00, 0x01, 0x19, 0x4E]);
  }

  /** The CRC over a ping request, after the header: it has no parameters. */
  lemma PingCrc(h: seq<byte>)
    requires CrcOf(Crc16, h) == 0x0E28
    ensures CrcOf(Crc16, h + [0x01, 0x03, 0x00, 0x01] + []) == 0x4E19
  {
    PingMetaCrc(h);
    assert h + [0x01, 0x03, 0x00, 0x01] + [] == h + [0x01, 0x03, 0x00, 0x01];
  }

  /** The bytes of the ping request, piece by piece. */
  lemma PingBytes()
    ensures Header + [0x01, 0x03, 0x00, 0x01] + [] + [0x19, 0x4E]
         == [0xFF, 0xFF, 0xFD, 0x00, 0x01, 0x03, 0x00, 0x01, 0x19, 0x4E]
  {
  }

  /** A buffer holding, from `at` on, a status frame whose data needs no
      stuffing, followed by its CRC `crc`. */
  lemma StatusDecodes(adv: CrcStep, buf: seq<byte>, at: nat, meta: seq<byte>, data: seq<byte>, crc: bv16)
    requires |meta| == 5 && meta[3] == StatusByte && Word(meta[1], meta[2]) == |data| + 4
    requires NeedsNoStuffing(data)
    requires CrcOf(adv, Header + meta + data) == crc
    requires at <= |buf| && buf[at..] == meta + data + CrcBytes(crc)
    ensures LengthDefined(Over(buf), at) && DeclaredParams(Over(buf), at) == |data|
    ensures Parse(adv, Over(buf), at)
         == Parsed(if meta[4] == 0 then Ok(meta[0]) else Err(DeviceError(meta[4])), data, |buf|)
  {
    var frame := meta + data + CrcBytes(crc);
    SplitAt(buf, at, frame);
    HoldsOver(buf[..at], frame, []);
    ParseStatusFrame(adv, Over(buf), at, meta, data);
  }

  /** A buffer is what lies before `at` followed by what lies from `at` on. */
  lemma SplitAt<T>(buf: seq<T>, at: nat, rest: seq<T>)
    requires at <= |buf| && buf[at..] == rest
    ensures buf == buf[..at] + rest + []
  {
    assert buf == buf[..at] + buf[at..];
  }

  /** The status frame test/packet.cpp receives. */
  const StatusInput: seq<byte> :=
    [0xFF, 0xFF, 0xFD, 0x00, 0x01, 0x08, 0x00, 0x55, 0x00, 0xA6, 0x00, 0x00, 0x00, 0x8C, 0xC0]

  /** test/packet.cpp, receiving: after the header, the decoder finds a
      status frame from device 1 with no error, delivers A6 00 00 00 and
      consumes the whole frame. */
  lemma StatusFrameDecodes()
    ensures LengthDefined(Over(StatusInput), 4)
    ensures Parse(Crc16, Over(StatusInput), 4) == Parsed(Ok(0x01), [0xA6, 0x00, 0x00, 0x00], 15)
  {
    HeaderCrc16();
    StatusInputCrc(Header);
    StatusInputCrcField();
    StatusDecodes(Crc16, StatusInput, 4, [0x01, 0x08, 0x00, 0x55, 0x00], [0xA6, 0x00, 0x00, 0x00], 0xC08C);
  }

  /** The reply test/request.cpp hands to the ping ticket, header already
      consumed. */
  const PingReply: seq<byte> := [0x01, 0x07, 0x00, 0x55, 0x00, 0x06, 0x04, 0x26, 0x65, 0x5D]

  /** test/request.cpp: the ping reply is a status frame from device 1 with
      no error and the data 06 04 26. */
  lemma PingReplyDecodes()
    ensures LengthDefined(Over(PingReply), 0) && DeclaredParams(Over(PingReply), 0) == 3
    ensures Parse(Crc16, Over(PingReply), 0) == Parsed(Ok(0x01), [0x06, 0x04, 0x26], 10)
  {
    HeaderCrc16();
    PingReplyCrc(Header);
    PingReplyCrcField();
    StatusDecodes(Crc16, PingReply, 0, [0x01, 0x07, 0x00, 0x55, 0x00], [0x06, 0x04, 0x26], 0x5D65);
  }

  /** `read_headerless_packet` from position `at` of a buffer into a zeroed
      output of `n` cells, where the decode is known to be `decoded`: the
      decoder's result, then the output, which holds the parameters followed
      by cells still zero. */
  method ReceiveInto(adv: CrcStep, buf: seq<byte>, at: nat, n: nat, ghost decoded: Parsed)
    returns (r: Result<byte>, output: seq<byte>)
    requires LengthDefined(Over(buf), at) && Parse(adv, Over(buf), at) == decoded
    requires DeclaredParams(Over(buf), at) <= n
    ensures |decoded.params| <= n
    ensures r == decoded.result && output == decoded.params + seq(n - |decoded.params|, _ => 0)
  {
    var src := new Source(Over(buf), at);
    var out := new byte[n](_ => 0);
    r := ReadHeaderlessPacket(adv, src, out);
    output := out[..];
    var k := |decoded.params|;
    assert output == output[..k] + output[k..];
  }

  /** test/packet.cpp, receiving, as the loop does it: into a zeroed output
      of five bytes, the decoder writes A6 00 00 00, leaves the fifth byte
      alone and yields device 1. */
  method ReceiveStatusFrame() returns (r: Result<byte>, output: seq<byte>)
    ensures r == Ok(0x01) && output == [0xA6, 0x00, 0x00, 0x00, 0x00]
  {
    StatusFrameDecodes();
    r, output := ReceiveInto(Crc16, StatusInput, 4, 5, Parsed(Ok(0x01), [0xA6, 0x00, 0x00, 0x00], 15));
  }
}

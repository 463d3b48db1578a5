/** The exchanges of test/request.cpp and test/packet.cpp, end to end:
    requests built by `ping` and `read`, the frames they send, and the values
    their tickets make of the answers. */
module ExchangeExamples {
  import opened Detail
  import opened Frame
  import opened Fields
  import opened Ticket
  import opened Request
  import opened Hook
  import opened PacketExamples

  /** The ping instruction frame to device 1. */
  const PingRequest: seq<byte> := [0xFF, 0xFF, 0xFD, 0x00, 0x01, 0x03, 0x00, 0x01, 0x19, 0x4E]

  /** `ping(0x01)` sends the ping instruction frame of test/request.cpp. */
  lemma PingSends()
    ensures Encode(Crc16, 0x01, PING, Ping(0x01).parameters) == PingRequest
  {
    PingFrame();
  }

  /** A four-byte tuple of two 16-bit fields holds two words. */
  lemma UnpackWords(bytes: seq<byte>)
    requires |bytes| == 4
    ensures Size([2, 2]) == 4
    ensures Unpack([2, 2], bytes) == [Word(bytes[0], bytes[1]), Word(bytes[2], bytes[3])]
  {
    var rest := bytes[2..];
    assert [2, 2][1..] == [2] && [2][1..] == [];
    assert bytes[..2] == [bytes[0], bytes[1]] && rest[..2] == [bytes[2], bytes[3]] && rest[2..] == [];
    FromLEWord(bytes[0], bytes[1]);
    FromLEWord(bytes[2], bytes[3]);
  }

  /** `read(0x01, memzone<132, uint32>)` carries the address 132 and the
      size 4 as two little-endian words. */
  lemma ReadParameters()
    ensures Read(0x01, 132, 4).parameters == [0x84, 0x00, 0x04, 0x00]
  {
    var p := Read(0x01, 132, 4).parameters;
    UnpackWords(p);
  }

  /** So it sends the read instruction frame of test/packet.cpp. */
  lemma ReadSends()
    ensures Encode(Crc16, 0x01, READ, Read(0x01, 132, 4).parameters)
         == [0xFF, 0xFF, 0xFD, 0x00, 0x01, 0x07, 0x00, 0x02, 0x84, 0x00, 0x04, 0x00, 0x1D, 0x15]
  {
    ReadParameters();
    ReadRequestFrame();
  }

  /** The `device_info` tuple of three bytes holds a word and a byte. */
  lemma UnpackDeviceInfo(a: byte, b: byte, c: byte)
    ensures Size(DeviceInfo.widths) == 3
    ensures Unpack(DeviceInfo.widths, [a, b, c]) == [Word(a, b), c as nat]
  {
    var bytes := [a, b, c];
    assert [2, 1][1..] == [1] && [1][1..] == [];
    assert bytes[..2] == [a, b] && bytes[2..] == [c] && [c][..1] == [c] && [c][1..] == [];
    FromLEWord(a, b);
    assert FromLE([c]) == c as nat + 256 * FromLE([]);
  }

  /** A `device_info` decoded from three parameter bytes. */
  lemma BuildDeviceInfo(p: Parsed, a: byte, b: byte, c: byte)
    requires p.result.Ok? && p.params == [a, b, c]
    ensures Size(DeviceInfo.widths) == 3
    ensures Build(DeviceInfo, p) == Ok(Value(p.result.value, [Word(a, b), c as nat]))
  {
    UnpackDeviceInfo(a, b, c);
    assert Filled(p.params, 3) == [a, b, c];
  }

  /** The `device_info` ticket makes device 1, model number 1030 (bytes 06 04)
      and firmware version 38 (byte 26) of the ping reply. */
  lemma PingReplyValue()
    ensures Fits(DeviceInfo, Over(PingReply), 0)
    ensures Decode(Crc16, DeviceInfo, Over(PingReply), 0) == Ok(Value(0x01, [1030, 38]))
  {
    PingReplyDecodes();
    BuildDeviceInfo(Parse(Crc16, Over(PingReply), 0), 0x06, 0x04, 0x26);
  }

  /** A request sent into a zeroed buffer of `n` bytes: the frame, then
      the zeros it did not reach. */
  method SendIntoZeroed(adv: CrcStep, rq: Request, n: nat) returns (sent: seq<byte>, tk: Ticket)
    requires |Encode(adv, rq.id, rq.ins, rq.parameters)| <= n
    ensures var f := Encode(adv, rq.id, rq.ins, rq.parameters);
      && |sent| == n && sent[..|f|] == f
      && (forall k :: |f| <= k < n ==> sent[k] == 0)
      && tk == rq.reply
  {
    var buf := new byte[n](_ => 0);
    ghost var before := buf[..];
    ghost var f := Encode(adv, rq.id, rq.ins, rq.parameters);
    tk := SendTo(adv, rq, buf, 0);
    sent := buf[..];
    forall k | |f| <= k < n
      ensures sent[k] == 0
    {
      assert sent[k] == sent[|f|..][k - |f|] == before[|f|..][k - |f|] == before[k];
    }
  }

  /** test/request.cpp: the ping frame goes out into a buffer, the device's
      reply replaces it, and the ticket `ping` returned reads device 1, model
      number 1030, firmware version 38. The buffer is the zeroed 64 bytes the
      test evidently intends: its `buf{64}` is a one-element vector, which the
      ten-byte frame would overrun. */
  method PingExchange() returns (sent: seq<byte>, answer: Result<Value>)
    ensures |sent| == 64 && sent[..10] == PingRequest
    ensures forall k :: 10 <= k < 64 ==> sent[k] == 0
    ensures answer == Ok(Value(0x01, [1030, 38]))
  {
    PingSends();
    var tk;
    sent, tk := SendIntoZeroed(Crc16, Ping(0x01), 64);
    PingReplyValue();
    answer := ReceiveAt(Crc16, tk, PingReply, 0);
  }

  /** The same reply through a hooked ticket: the callback is called once,
      on the decoded `device_info`, and the result is OK. */
  method HookedPing() returns (e: Error, calls: seq<Value>)
    ensures e == LibraryError(OK) && calls == [Value(0x01, [1030, 38])]
  {
    var callback := new Callback();
    var hooked := WithHook(DeviceInfo, callback);
    PingReplyValue();
    e := hooked.CallAt(Crc16, PingReply, 0);
    calls := callback.calls;
  }
}

/** `write_packet` and `read_headerless_packet` of include/ldp/packet.hpp:
    the byte-at-a-time loops, each proved to compute the frame functions of
    module Frame. The output functor of the encoder is modelled by the
    sequence of bytes it is called with; the input functor of the decoder by
    a `Source` object whose cursor advances on every call. */
module Packet {
  import opened Detail
  import opened Sentry
  import opened Frame

  /** An input functor: each call delivers the next byte of `data`. */
  class Source {
    const data: Stream
    var pos: nat

    constructor (data: Stream, pos: nat)
      ensures this.data == data && this.pos == pos
    {
      this.data := data;
      this.pos := pos;
    }

    /** One call of the functor. */
    method Read() returns (b: byte)
      modifies this
      ensures b == data(old(pos)) && pos == old(pos) + 1
    {
      b := data(pos);
      pos := pos + 1;
    }
  }

  /** The `write` lambda of the encoder: one byte out, folded into the CRC. */
  method Write(adv: CrcStep, sent: seq<byte>, crc: bv16, b: byte) returns (sent': seq<byte>, crc': bv16)
    requires crc == CrcOf(adv, sent)
    ensures sent' == sent + [b] && crc' == CrcOf(adv, sent')
  {
    CrcSnoc(adv, sent, b);
    sent', crc' := sent + [b], adv(crc, b);
  }

  /** One turn of the encoder's parameter loop: the sentry is fed the
      parameter byte, a stuffing byte goes out first if it fires, then the
      byte itself; so what has gone out after `sent0` remains the stuffing
      of everything the sentry has been fed. */
  method WriteParameter(adv: CrcStep, s: SentryImpl, ghost sent0: seq<byte>, sent: seq<byte>, crc: bv16, b: byte)
    returns (sent': seq<byte>, crc': bv16)
    requires s.Valid() && s.n == StuffingSentry && crc == CrcOf(adv, sent)
    requires sent == sent0 + Stuff(s.fed)
    modifies s
    ensures s.Valid() && s.n == StuffingSentry && s.fed == old(s.fed) + [b]
    ensures sent' == sent + (if Fires(StuffingSentry, s.fed) then [StuffingByte] else []) + [b]
    ensures sent' == sent0 + Stuff(s.fed)
    ensures crc' == CrcOf(adv, sent')
  {
    sent', crc' := sent, crc;
    var hit := s.Feed(b);
    if hit {
      sent', crc' := Write(adv, sent', crc', StuffingByte);
    }
    sent', crc' := Write(adv, sent', crc', b);
    StuffExtend(sent0, old(s.fed), b, sent, sent');
  }

  /** The parameter loop of the encoder: the parameters go out through a
      stuffing sentry, with a stuffing byte before each one it fires on. */
  method WriteParameters(adv: CrcStep, sent: seq<byte>, crc: bv16, parameters: seq<byte>)
    returns (sent': seq<byte>, crc': bv16)
    requires crc == CrcOf(adv, sent)
    ensures sent' == sent + Stuff(parameters) && crc' == CrcOf(adv, sent')
  {
    sent', crc' := sent, crc;
    var s := new SentryImpl(StuffingSentry);
    assert sent' == sent + Stuff(s.fed);
    for i := 0 to |parameters|
      invariant s.Valid() && s.n == StuffingSentry && s.fed == parameters[..i]
      invariant sent' == sent + Stuff(s.fed)
      invariant crc' == CrcOf(adv, sent')
    {
      PrefixSnoc(parameters, i);
      sent', crc' := WriteParameter(adv, s, sent, sent', crc', parameters[i]);
    }
    assert parameters[..|parameters|] == parameters;
  }

  /** `write_packet`: the bytes handed to the output functor, in call order.
      Every byte but the final two is folded into the CRC as it goes out;
      parameters pass through a stuffing sentry, and a stuffing byte goes out
      before each one on which it fires. */
  method WritePacket(adv: CrcStep, id: byte, ins: Instruction, parameters: seq<byte>) returns (sent: seq<byte>)
    ensures sent == Encode(adv, id, ins, parameters)
  {
    var packet := Header + [id] + LE16(CalculateLength(parameters)) + [ins.Code()];
    var crc: bv16 := 0;
    sent := [];
    for i := 0 to |packet|
      invariant sent == packet[..i] && crc == CrcOf(adv, sent)
    {
      PrefixSnoc(packet, i);
      sent, crc := Write(adv, sent, crc, packet[i]);
    }
    assert packet[..|packet|] == packet;

    sent, crc := WriteParameters(adv, sent, crc, parameters);

    var tail := CrcBytes(crc);
    for i := 0 to |tail|
      invariant sent == Body(id, ins, parameters) + tail[..i]
    {
      PrefixSnoc(tail, i);
      AppendAssoc(Body(id, ins, parameters), tail[..i], [tail[i]]);
      sent := sent + [tail[i]];
    }
    assert tail[..|tail|] == tail;
  }

  /** The `read` lambda of the decoder: one byte from the source, folded into
      the running CRC. When the CRC so far covers the header and everything
      read since `start`, so does the new one. */
  method ReadFolded(adv: CrcStep, src: Source, crc: bv16, ghost start: nat) returns (b: byte, crc': bv16)
    requires start <= src.pos
    modifies src
    ensures b == src.data(old(src.pos)) && src.pos == old(src.pos) + 1
    ensures crc' == adv(crc, b)
    ensures crc == ReadCrc(adv, src.data, start, old(src.pos)) ==> crc' == ReadCrc(adv, src.data, start, src.pos)
  {
    b := src.Read();
    crc' := adv(crc, b);
  }

  /** `advance_crc(crc, header)` on a zero CRC: the CRC of the header the
      caller has already consumed. */
  method HeaderCrc(adv: CrcStep) returns (crc: bv16)
    ensures crc == CrcOf(adv, Header)
  {
    crc := 0;
    for h := 0 to |Header|
      invariant crc == CrcOf(adv, Header[..h])
    {
      PrefixSnoc(Header, h);
      CrcSnoc(adv, Header[..h], Header[h]);
      crc := adv(crc, Header[h]);
    }
    assert Header[..|Header|] == Header;
  }

  /** The metadata loop of the decoder: id, `Length` (two bytes), instruction
      and error, each folded into the CRC after the header. */
  method ReadMetadata(adv: CrcStep, src: Source) returns (id: byte, lo: byte, hi: byte, ins: byte, err: byte, crc: bv16)
    modifies src
    ensures var data, start := src.data, old(src.pos);
      && src.pos == start + 5
      && id == data(start) && lo == data(start + 1) && hi == data(start + 2)
      && ins == data(start + 3) && err == data(start + 4)
      && crc == ReadCrc(adv, data, start, src.pos)
  {
    ghost var start := src.pos;
    crc := HeaderCrc(adv);
    id, crc := ReadFolded(adv, src, crc, start);
    lo, crc := ReadFolded(adv, src, crc, start);
    hi, crc := ReadFolded(adv, src, crc, start);
    ins, crc := ReadFolded(adv, src, crc, start);
    err, crc := ReadFolded(adv, src, crc, start);
  }

  /** One turn of the decoder's parameter loop: a byte is read and fed to the
      sentry; if the sentry fires, the next byte (a stuffing byte) is read and
      dropped. Both reads are folded into the CRC. Of the `total` logical bytes
      read from `first` on, `got` have been delivered and `left` remain. */
  method ReadParameter(adv: CrcStep, src: Source, s: SentryImpl, crc: bv16, ghost start: nat,
                       ghost first: nat, ghost total: nat, ghost got: seq<byte>, ghost left: nat)
    returns (b: byte, crc': bv16)
    requires left > 0
    requires s.Valid() && s.n == StuffingSentry
    requires start <= src.pos && crc == ReadCrc(adv, src.data, start, src.pos)
    requires Destuff(src.data, first, total, 0)
          == (got + Destuff(src.data, src.pos, left, s.count).0, Destuff(src.data, src.pos, left, s.count).1)
    modifies src, s
    ensures b == src.data(old(src.pos))
    ensures s.Valid() && s.n == StuffingSentry
    ensures start <= src.pos && crc' == ReadCrc(adv, src.data, start, src.pos)
    ensures Destuff(src.data, first, total, 0)
         == ((got + [b]) + Destuff(src.data, src.pos, left - 1, s.count).0,
             Destuff(src.data, src.pos, left - 1, s.count).1)
  {
    ghost var pos, count := src.pos, s.count;
    b, crc' := ReadFolded(adv, src, crc, start);
    var hit := s.Feed(b);
    if hit {
      var skipped;
      skipped, crc' := ReadFolded(adv, src, crc', start);
    }
    DestuffAdvance(src.data, first, total, got, pos, left, count, s.count, src.pos);
  }

  /** `*parameters_it = byte; ++parameters_it`: the cell after those written
      so far receives `b`, and no other cell changes. */
  method Put(out: array<byte>, i: nat, b: byte, ghost got: seq<byte>)
    requires i < out.Length && out[..i] == got
    modifies out
    ensures out[..i + 1] == got + [b]
    ensures forall k :: 0 <= k < out.Length && k != i ==> out[k] == old(out[k])
  {
    out[i] := b;
    assert out[..i + 1] == out[..i] + [b];
  }

  /** The parameter loop of the decoder: `length` logical bytes are written to
      `out` from its first cell on, and the CRC goes on covering every raw
      byte read. */
  method ReadParameters(adv: CrcStep, src: Source, out: array<byte>, crc: bv16, length: nat, ghost start: nat)
    returns (crc': bv16)
    requires start <= src.pos && crc == ReadCrc(adv, src.data, start, src.pos)
    requires length <= out.Length
    modifies src, out
    ensures (out[..length], src.pos) == Destuff(src.data, old(src.pos), length, 0)
    ensures out[length..] == old(out[length..])
    ensures crc' == ReadCrc(adv, src.data, start, src.pos)
  {
    ghost var data, first := src.data, src.pos;
    crc' := crc;
    var s := new SentryImpl(StuffingSentry);
    var i: nat, left: nat := 0, length;
    ghost var got: seq<byte> := [];
    assert got + Destuff(data, first, length, 0).0 == Destuff(data, first, length, 0).0;
    while left != 0
      invariant i + left == length && |got| == i
      invariant s.Valid() && s.n == StuffingSentry
      invariant start <= src.pos && crc' == ReadCrc(adv, data, start, src.pos)
      invariant Destuff(data, first, length, 0)
             == (got + Destuff(data, src.pos, left, s.count).0, Destuff(data, src.pos, left, s.count).1)
      invariant out[..i] == got
      invariant forall k :: i <= k < out.Length ==> out[k] == old(out[k])
      decreases left
    {
      var b;
      b, crc' := ReadParameter(adv, src, s, crc', start, first, length, got, left);
      Put(out, i, b, got);
      got := got + [b];
      i, left := i + 1, left - 1;
    }
    assert got + [] == got;
    assert out[length..] == old(out[length..]);
  }

  /** The CRC check of the decoder: the two expected CRC bytes are compared,
      low byte first, with the next two source bytes; the first mismatch
      stops the reading. */
  method CheckCrc(src: Source, expected: seq<byte>) returns (ok: bool)
    requires |expected| == 2
    modifies src
    ensures var q := old(src.pos);
      && ok == (src.data(q) == expected[0] && src.data(q + 1) == expected[1])
      && src.pos == if src.data(q) != expected[0] then q + 1 else q + 2
  {
    ghost var q := src.pos;
    for j := 0 to |expected|
      invariant src.pos == q + j
      invariant forall k :: 0 <= k < j ==> src.data(q + k) == expected[k]
    {
      var received := src.Read();
      if expected[j] != received {
        return false;
      }
    }
    return true;
  }

  /** The end of `read_headerless_packet` once the parameters are read: the
      CRC check, then the error byte. */
  method Finish(adv: CrcStep, src: Source, crc: bv16, id: byte, err: byte, ghost start: nat, ghost params: seq<byte>)
    returns (r: Result<byte>)
    requires start <= src.pos && crc == ReadCrc(adv, src.data, start, src.pos)
    requires id == src.data(start) && err == src.data(start + 4)
    modifies src
    ensures var c := Conclude(adv, src.data, start, params, old(src.pos));
      r == c.result && src.pos == c.next
  {
    var ok := CheckCrc(src, CrcBytes(crc));
    if !ok {
      return Err(LibraryError(RECEIVED_BAD_CRC));
    }
    if err != 0 {
      return Err(DeviceError(err));
    }
    return Ok(id);
  }

  /** `read_headerless_packet`: decodes the frame that follows a header
      already consumed from `src`, writing the parameters to `out` from its
      first cell on. The result, the bytes written and the bytes consumed are
      those of `Parse`; the cells past the parameters are left alone. */
  method ReadHeaderlessPacket(adv: CrcStep, src: Source, out: array<byte>) returns (r: Result<byte>)
    requires LengthDefined(src.data, src.pos)
    requires DeclaredParams(src.data, src.pos) <= out.Length
    modifies src, out
    ensures var p := Parse(adv, src.data, old(src.pos));
      && r == p.result && src.pos == p.next
      && |p.params| <= out.Length
      && out[..|p.params|] == p.params
      && out[|p.params|..] == old(out[|p.params|..])
  {
    ghost var start := src.pos;
    var id, lo, hi, ins, err, crc := ReadMetadata(adv, src);
    if ins != StatusByte {
      ParseRejects(adv, src.data, start);
      return Err(LibraryError(NOT_STATUS));
    }
    var length := Word(lo, hi) - 4;
    ghost var d := Destuff(src.data, start + 5, length, 0);
    ParseReads(adv, src.data, start);
    crc := ReadParameters(adv, src, out, crc, length, start);
    assert out[..length] == d.0 && src.pos == d.1;
    r := Finish(adv, src, crc, id, err, start, d.0);
    ConcludeKeepsParams(adv, src.data, start, d.0, d.1);
  }

  /** A frame that is not a status frame is rejected after its metadata. */
  lemma ParseRejects(adv: CrcStep, data: Stream, start: nat)
    requires LengthDefined(data, start) && data(start + 3) != StatusByte
    ensures Parse(adv, data, start) == Parsed(Err(LibraryError(NOT_STATUS)), [], start + 5)
  {
  }

  /** A status frame is destuffed, then concluded. */
  lemma ParseReads(adv: CrcStep, data: Stream, start: nat)
    requires LengthDefined(data, start) && data(start + 3) == StatusByte
    ensures var d := Destuff(data, start + 5, DeclaredParams(data, start), 0);
      Parse(adv, data, start) == Conclude(adv, data, start, d.0, d.1)
  {
  }

  /** The parameters of a concluded frame are those read before its CRC. */
  lemma ConcludeKeepsParams(adv: CrcStep, data: Stream, start: nat, params: seq<byte>, q: nat)
    requires start <= q
    ensures Conclude(adv, data, start, params, q).params == params
  {
  }
}

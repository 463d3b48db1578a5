/** What the frame functions promise: the layout of an encoded frame, the
    outcomes of the status decoder (wrong instruction, bad CRC, device error,
    success), and how far a status frame survives an encode/decode round
    trip. */
module FrameProps {
  import opened Detail
  import opened Sentry
  import opened Frame
  import opened Stuffing

  // -------------------------------------------------------------- layout

  /** An encoded frame is the header, the id, the little-endian `Length`,
      the instruction, the stuffed parameters and the little-endian CRC of
      everything before it; `Length` counts the bytes that follow it. */
  lemma FrameLayout(adv: CrcStep, id: byte, ins: Instruction, p: seq<byte>)
    ensures var f := Encode(adv, id, ins, p);
      && |f| == 10 + |Stuff(p)|
      && f[..4] == Header
      && f[4] == id
      && Word(f[5], f[6]) == (|f| - 7) % 0x10000
      && f[7] == ins.Code()
      && f[8..|f| - 2] == Stuff(p)
      && Word(f[|f| - 2], f[|f| - 1]) == CrcOf(adv, f[..|f| - 2]) as int
  {
    var body := Body(id, ins, p);
    var f := Encode(adv, id, ins, p);
    LengthCountsStuffedBytes(p);
    assert f[..|f| - 2] == body;
    assert f[8..|f| - 2] == body[8..];
    assert f[..4] == body[..4];
  }

  // ------------------------------------------------------------ decoding

  /** The decoder fails with NOT_STATUS exactly when the instruction byte is
      not the status value, and then it has read the five metadata bytes and
      written no parameter. */
  lemma ParseNotStatus(adv: CrcStep, data: Stream, start: nat)
    requires LengthDefined(data, start)
    ensures var r := Parse(adv, data, start);
      && (r.result == Err(LibraryError(NOT_STATUS)) <==> data(start + 3) != StatusByte)
      && (data(start + 3) != StatusByte ==> r.next == start + 5 && r.params == [])
  {
  }

  /** A failed decode never reports the plain OK error: a status error byte
      of 0x80 yields kind OK with the alert flag set. */
  lemma ParseErrorNotOk(adv: CrcStep, data: Stream, start: nat)
    requires LengthDefined(data, start)
    ensures Parse(adv, data, start).result.Err? ==> Parse(adv, data, start).result.error != LibraryError(OK)
  {
  }

  /** Where the decoder expects the CRC of a status frame. */
  function CrcPos(data: Stream, start: nat): nat
    requires LengthDefined(data, start)
  {
    Destuff(data, start + 5, DeclaredParams(data, start), 0).1
  }

  /** On a status frame the decoder delivers the destuffed parameters, then
      compares the two bytes that follow with the little-endian running CRC
      (`ReadCrcCovers`: the CRC of the header and of every byte read). It
      rejects the frame exactly when one differs, stopping on the first that
      does; otherwise it reports the device error or the id. */
  lemma ParseChecksCrc(adv: CrcStep, data: Stream, start: nat)
    requires LengthDefined(data, start) && data(start + 3) == StatusByte
    ensures var r, q := Parse(adv, data, start), CrcPos(data, start);
      var e := CrcBytes(ReadCrc(adv, data, start, q));
      && r.params == Destuff(data, start + 5, DeclaredParams(data, start), 0).0
      && (r.result == Err(LibraryError(RECEIVED_BAD_CRC)) <==> (data(q) != e[0] || data(q + 1) != e[1]))
      && (r.next == q + 1 <==> data(q) != e[0])
      && (data(q) == e[0] && data(q + 1) == e[1] ==>
            r.next == q + 2
            && r.result == (if data(start + 4) == 0 then Ok(data(start)) else Err(DeviceError(data(start + 4)))))
  {
  }

  /** A status error byte of 0x80 (alert, no error kind) still makes the
      decode fail, with kind OK and the alert flag set. */
  lemma AlertAloneFails(adv: CrcStep, data: Stream, start: nat)
    requires LengthDefined(data, start) && data(start + 3) == StatusByte && data(start + 4) == AlertMask
    requires var q := CrcPos(data, start);
      data(q) == CrcBytes(ReadCrc(adv, data, start, q))[0]
      && data(q + 1) == CrcBytes(ReadCrc(adv, data, start, q))[1]
    ensures Parse(adv, data, start).result == Err(Error(OK, true))
  {
    ParseChecksCrc(adv, data, start);
  }

  // ---------------------------------------------------------- round trip

  /** `p` holds no FF FF FD, so a stuffing sentry never fires on it. */
  predicate NeedsNoStuffing(p: seq<byte>)
  {
    forall i :: 0 <= i && i + 2 < |p| ==> !(p[i] == 0xFF && p[i + 1] == 0xFF && p[i + 2] == 0xFD)
  }

  /** The stuffing sentry does not fire on the last byte of a sequence
      without FF FF FD. */
  lemma NoFire(p: seq<byte>)
    requires NeedsNoStuffing(p) && |p| > 0
    ensures !Fires(StuffingSentry, p)
  {
    StuffingSentryExact(p);
    if |p| >= 3 {
      EndsWithPattern(p);
      var k := |p| - 3;
      assert !(p[k] == 0xFF && p[k + 1] == 0xFF && p[k + 2] == 0xFD);
    }
  }

  /** Ending with the first three header bytes is ending with FF FF FD. */
  lemma EndsWithPattern(s: seq<byte>)
    requires |s| >= 3
    ensures EndsWithHeader(s, 3) <==> (s[|s| - 3] == 0xFF && s[|s| - 2] == 0xFF && s[|s| - 1] == 0xFD)
  {
    assert s[|s| - 3 + 0] == s[|s| - 3] && s[|s| - 3 + 1] == s[|s| - 2] && s[|s| - 3 + 2] == s[|s| - 1];
    assert Header[0] == 0xFF && Header[1] == 0xFF && Header[2] == 0xFD;
  }

  /** A prefix of a sequence without FF FF FD has none either. */
  lemma NeedsNoStuffingPrefix(p: seq<byte>, k: nat)
    requires NeedsNoStuffing(p) && k <= |p|
    ensures NeedsNoStuffing(p[..k])
  {
    forall i | 0 <= i && i + 2 < |p[..k]|
      ensures !(p[..k][i] == 0xFF && p[..k][i + 1] == 0xFF && p[..k][i + 2] == 0xFD)
    {
      assert p[..k][i] == p[i] && p[..k][i + 1] == p[i + 1] && p[..k][i + 2] == p[i + 2];
    }
  }

  /** Parameters without FF FF FD go on the wire unchanged. */
  lemma {:induction false} StuffIdentity(p: seq<byte>)
    requires NeedsNoStuffing(p)
    ensures Stuff(p) == p
  {
    if p != [] {
      var init := p[..|p| - 1];
      NeedsNoStuffingPrefix(p, |p| - 1);
      StuffIdentity(init);
      NoFire(p);
      ConsLast(p);
    }
  }

  /** A non-empty sequence is its front followed by its last element.
      A solver-cost helper with no protocol meaning: it names a fact so the callers need not search for it. */
  lemma ConsLast<T>(p: seq<T>)
    requires p != []
    ensures p[..|p| - 1] + [p[|p| - 1]] == p
  {
  }

  /** A suffix of a sequence without FF FF FD has none either. */
  lemma NeedsNoStuffingTail(p: seq<byte>, k: nat)
    requires NeedsNoStuffing(p) && k <= |p|
    ensures NeedsNoStuffing(p[k..])
  {
    forall i | 0 <= i && i + 2 < |p[k..]|
      ensures !(p[k..][i] == 0xFF && p[k..][i + 1] == 0xFF && p[k..][i + 2] == 0xFD)
    {
      assert p[k..][i] == p[k + i] && p[k..][i + 1] == p[k + i + 1] && p[k..][i + 2] == p[k + i + 2];
    }
  }

  /** The decoder accepts a well-formed status frame whose data needs no
      stuffing: where the stream holds, from `at` on, the id, a `Length` of
      the data plus four, the status instruction, the error byte, the data
      and the little-endian CRC of the header and all of these, it yields
      the id or the device error, delivers the data and stops right after
      the CRC. */
  lemma ParseStatusFrame(adv: CrcStep, s: Stream, at: nat, meta: seq<byte>, data: seq<byte>)
    requires |meta| == 5 && meta[3] == StatusByte && Word(meta[1], meta[2]) == |data| + 4
    requires NeedsNoStuffing(data)
    requires Holds(s, at, meta + data + CrcBytes(CrcOf(adv, Header + meta + data)))
    ensures LengthDefined(s, at)
    ensures Parse(adv, s, at)
         == Parsed(if meta[4] == 0 then Ok(meta[0]) else Err(DeviceError(meta[4])), data, at + 7 + |data|)
  {
    var crc := CrcBytes(CrcOf(adv, Header + meta + data));
    var q := at + 5 + |data|;
    SplitFrame(s, at, meta, data, crc);
    MetaFields(s, at, meta, data);
    CrcFields(s, q, crc);
    StuffIdentity(data);
    DestuffStuff(s, at + 5, data);
    assert CrcPos(s, at) == q;
    StatusCrc(adv, s, at, meta + data, q);
    AppendAssoc(Header, meta, data);
    var e := CrcBytes(ReadCrc(adv, s, at, q));
    assert e == crc;
    ParseAccepts(adv, s, at, data, q);
  }

  /** The decoder accepts a status frame whose two bytes after the
      parameters match its running CRC: it yields the id or the device error
      and stops after those two bytes. */
  lemma ParseAccepts(adv: CrcStep, s: Stream, at: nat, params: seq<byte>, q: nat)
    requires LengthDefined(s, at) && s(at + 3) == StatusByte
    requires Destuff(s, at + 5, DeclaredParams(s, at), 0) == (params, q)
    requires s(q) == CrcBytes(ReadCrc(adv, s, at, q))[0] && s(q + 1) == CrcBytes(ReadCrc(adv, s, at, q))[1]
    ensures Parse(adv, s, at)
         == Parsed(if s(at + 4) == 0 then Ok(s(at)) else Err(DeviceError(s(at + 4))), params, q + 2)
  {
    ParseChecksCrc(adv, s, at);
  }

  /** A status frame held from `at` on: its metadata and data, then its CRC. */
  lemma SplitFrame(s: Stream, at: nat, meta: seq<byte>, data: seq<byte>, crc: seq<byte>)
    requires |meta| == 5 && Holds(s, at, meta + data + crc)
    ensures Holds(s, at, meta + data) && Holds(s, at + 5 + |data|, crc)
  {
    MatchPrefix(s, at, meta + data, crc);
    MatchSuffix(s, at, meta + data, crc);
  }

  /** The metadata a status frame holds from `at` on. */
  lemma MetaFields(s: Stream, at: nat, meta: seq<byte>, data: seq<byte>)
    requires |meta| == 5 && meta[3] == StatusByte && Word(meta[1], meta[2]) == |data| + 4
    requires Holds(s, at, meta + data)
    ensures s(at) == meta[0] && s(at + 3) == StatusByte && s(at + 4) == meta[4]
    ensures LengthDefined(s, at) && DeclaredParams(s, at) == |data|
    ensures Holds(s, at + 5, data)
  {
    MatchPrefix(s, at, meta, data);
    MatchSuffix(s, at, meta, data);
    assert s(at + 0) == meta[0] && s(at + 1) == meta[1] && s(at + 2) == meta[2];
    assert s(at + 3) == meta[3] && s(at + 4) == meta[4];
  }

  /** The two CRC bytes a status frame holds at `q`. */
  lemma CrcFields(s: Stream, q: nat, crc: seq<byte>)
    requires |crc| == 2 && Holds(s, q, crc)
    ensures s(q) == crc[0] && s(q + 1) == crc[1]
  {
    assert s(q + 0) == crc[0];
  }

  /** The decoder's running CRC after the bytes `t` read from `at` on. */
  lemma StatusCrc(adv: CrcStep, s: Stream, at: nat, t: seq<byte>, q: nat)
    requires Holds(s, at, t) && q == at + |t|
    ensures ReadCrc(adv, s, at, q) == CrcOf(adv, Header + t)
  {
    TakeHolds(s, at, t);
    ReadCrcCovers(adv, s, at, at + |t|);
  }

  /** A value below 2^16 is its own 16-bit truncation.
      A solver-cost helper with no protocol meaning: it names a fact so the callers need not search for it. */
  lemma SmallMod(x: nat)
    requires x < 0x10000
    ensures x % 0x10000 == x
  {
  }

  /** Regrouping the body of a status frame.
      A solver-cost helper with no protocol meaning: it names a fact so the callers need not search for it. */
  lemma StatusRegroup(id: byte, len: seq<byte>, err: byte, data: seq<byte>)
    ensures Header + [id] + len + [StatusByte] + ([err] + data)
         == Header + ([id] + len + [StatusByte, err]) + data
  {
  }

  /** What the encoder emits for a status frame (instruction RETURN, the error
      byte as first parameter) whose error byte and data need no stuffing. */
  lemma EncodeStatus(adv: CrcStep, id: byte, err: byte, data: seq<byte>)
    requires NeedsNoStuffing([err] + data) && |data| + 4 < 0x10000
    ensures var meta := [id] + LE16(|data| + 4) + [StatusByte, err];
      Encode(adv, id, RETURN, [err] + data)
      == Header + meta + data + CrcBytes(CrcOf(adv, Header + meta + data))
  {
    var p := [err] + data;
    StatusParams(err, data);
    EncodeParts(adv, id, RETURN, p, p, |data| + 4);
    StatusRegroup(id, LE16(|data| + 4), err, data);
  }

  /** The parameters of a status frame that need no stuffing go out as they
      are, and `Length` counts them, the instruction and the CRC. */
  lemma StatusParams(err: byte, data: seq<byte>)
    requires NeedsNoStuffing([err] + data) && |data| + 4 < 0x10000
    ensures Stuff([err] + data) == [err] + data
    ensures CalculateLength([err] + data) == |data| + 4
  {
    var p := [err] + data;
    StuffIdentity(p);
    UnstuffedLength(p);
  }

  /** When stuffing adds nothing, `Length` counts the parameters, the
      instruction and the CRC. */
  lemma UnstuffedLength(p: seq<byte>)
    requires Stuff(p) == p && |p| + 3 < 0x10000
    ensures CalculateLength(p) == |p| + 3
  {
    NoHits(p);
    HitlessLength(p);
  }

  /** Stuffing that adds nothing found no hits. */
  lemma NoHits(p: seq<byte>)
    requires Stuff(p) == p
    ensures Hits(p) == 0
  {
    StuffLength(p);
  }

  /** `Length` of parameters the stuffing sentry never fires on. */
  lemma HitlessLength(p: seq<byte>)
    requires Hits(p) == 0 && |p| + 3 < 0x10000
    ensures CalculateLength(p) == |p| + 3
  {
    var n := |p| + Hits(p) + 1 + 2;
    SmallMod(n);
    assert CalculateLength(p) == n % 0x10000;
  }

  /** An encoded frame, given what stuffing and `calculate_length` make of
      its parameters. */
  lemma EncodeParts(adv: CrcStep, id: byte, ins: Instruction, p: seq<byte>, o: seq<byte>, len: nat)
    requires Stuff(p) == o && CalculateLength(p) == len
    ensures var body := Header + [id] + LE16(len) + [ins.Code()] + o;
      Encode(adv, id, ins, p) == body + CrcBytes(CrcOf(adv, body))
  {
  }

  /** Parameters without FF FF FD go out unchanged after the id, a `Length`
      of their count plus three and the instruction, and the CRC covers
      exactly the bytes before it. */
  lemma EncodeUnstuffed(adv: CrcStep, id: byte, ins: Instruction, p: seq<byte>)
    requires NeedsNoStuffing(p) && |p| + 3 < 0x10000
    ensures var body := Header + ([id] + LE16(|p| + 3) + [ins.Code()]) + p;
      Encode(adv, id, ins, p) == body + CrcBytes(CrcOf(adv, body))
  {
    StuffIdentity(p);
    UnstuffedLength(p);
    EncodeParts(adv, id, ins, p, p, |p| + 3);
    MetaRegroup(id, LE16(|p| + 3), ins.Code(), p);
  }

  /** Regrouping the body of a frame: header, metadata, parameters.
      A solver-cost helper with no protocol meaning: it names a fact so the callers need not search for it. */
  lemma MetaRegroup(id: byte, len: seq<byte>, code: byte, p: seq<byte>)
    ensures Header + [id] + len + [code] + p == Header + ([id] + len + [code]) + p
  {
  }

  /** Encoding then decoding a status frame gives back its id or its device
      error and its data, and consumes the whole frame, provided the error
      byte and the data hold no FF FF FD and the frame length fits the
      16-bit field. */
  lemma StatusRoundTrip(adv: CrcStep, id: byte, err: byte, data: seq<byte>)
    requires NeedsNoStuffing([err] + data) && |data| + 4 < 0x10000
    ensures var f := Encode(adv, id, RETURN, [err] + data);
      LengthDefined(Over(f), 4)
      && Parse(adv, Over(f), 4)
         == Parsed(if err == 0 then Ok(id) else Err(DeviceError(err)), data, |f|)
  {
    var meta := [id] + LE16(|data| + 4) + [StatusByte, err];
    var rest := meta + data + CrcBytes(CrcOf(adv, Header + meta + data));
    EncodeStatus(adv, id, err, data);
    NeedsNoStuffingTail([err] + data, 1);
    assert ([err] + data)[1..] == data;
    AppendAssoc(Header, meta + data, CrcBytes(CrcOf(adv, Header + meta + data)));
    AppendAssoc(Header, meta, data);
    HoldsOver(Header, rest, []);
    assert Header + rest + [] == Header + rest;
    ParseStatusFrame(adv, Over(Header + rest), 4, meta, data);
  }

  /** Stuffing the data FF FF FD after an error byte 0. */
  lemma StuffedExample()
    ensures Stuff([0x00, 0xFF, 0xFF, 0xFD]) == [0x00, 0xFF, 0xFF, 0xFD, 0xFD]
  {
    StuffedAfter(0x00);
  }

  /** FF FF FD after any byte `x` other than FF gains one stuffing byte. */
  lemma StuffedAfter(x: byte)
    requires x != 0xFF
    ensures Stuff([x, 0xFF, 0xFF, 0xFD]) == [x, 0xFF, 0xFF, 0xFD, 0xFD]
  {
    var init: seq<byte> := [x, 0xFF, 0xFF];
    RunStep(StuffingSentry, [], x, 0, [], 0, false);
    assert [] + [x] == [x];
    RunStep(StuffingSentry, [x], 0xFF, 0, [], 1, false);
    assert [x] + [0xFF] == [x, 0xFF];
    RunStep(StuffingSentry, [x, 0xFF], 0xFF, 1, [], 2, false);
    assert [x, 0xFF] + [0xFF] == init;
    RunSnoc(StuffingSentry, init, 0xFD);
    assert Step(StuffingSentry, 2, 0xFD) == (0, true);
    StuffSnoc(init, 0xFD);
    assert init + [0xFD] == [x, 0xFF, 0xFF, 0xFD];
    assert NeedsNoStuffing(init);
    StuffIdentity(init);
  }

  /** The decoder's parameter phase asked for four bytes over FF FF FD FD x:
      the sentry fires on the first FD, the second is skipped, and `x` is
      delivered as the fourth byte. */
  lemma DestuffExample(s: Stream, pos: nat)
    requires s(pos) == 0xFF && s(pos + 1) == 0xFF && s(pos + 2) == 0xFD && s(pos + 3) == 0xFD
    ensures Destuff(s, pos, 4, 0) == ([0xFF, 0xFF, 0xFD, s(pos + 4)], pos + 5)
  {
    var x := s(pos + 4);
    assert !Step(StuffingSentry, 0, x).1;
    assert Destuff(s, pos + 5, 0, Step(StuffingSentry, 0, x).0) == ([], pos + 5);
    DestuffUnfold(s, pos + 4, 1, 0);
    var d1 := Destuff(s, pos + 4, 1, 0);
    assert d1.1 == pos + 5 && d1.0 == [x] + [];
    assert Step(StuffingSentry, 2, 0xFD) == (0, true);
    DestuffUnfold(s, pos + 2, 2, 2);
    var d2 := Destuff(s, pos + 2, 2, 2);
    assert d2.1 == pos + 5 && d2.0 == [0xFD] + d1.0;
    assert Step(StuffingSentry, 1, 0xFF) == (2, false);
    DestuffUnfold(s, pos + 1, 3, 1);
    var d3 := Destuff(s, pos + 1, 3, 1);
    assert d3.1 == pos + 5 && d3.0 == [0xFF] + d2.0;
    assert Step(StuffingSentry, 0, 0xFF) == (1, false);
    DestuffUnfold(s, pos, 4, 0);
    var d4 := Destuff(s, pos, 4, 0);
    assert d4.1 == pos + 5 && d4.0 == [0xFF] + d3.0;
    assert [0xFF] + ([0xFF] + ([0xFD] + ([x] + []))) == [0xFF, 0xFF, 0xFD, x];
  }

  /** The frame the encoder emits for a status frame whose data is FF FF FD. */
  lemma OvercountFrame(adv: CrcStep, id: byte)
    ensures var f := Encode(adv, id, RETURN, [0x00, 0xFF, 0xFF, 0xFD]);
      var body: seq<byte> := [0xFF, 0xFF, 0xFD, 0x00, id, 8, 0, StatusByte, 0x00, 0xFF, 0xFF, 0xFD, 0xFD];
      f == body + CrcBytes(CrcOf(adv, body))
  {
    var o: seq<byte> := [0x00, 0xFF, 0xFF, 0xFD, 0xFD];
    OvercountParams();
    EncodeParts(adv, id, RETURN, [0x00, 0xFF, 0xFF, 0xFD], o, 8);
    assert Header + [id] + LE16(8) + [RETURN.Code()] + o
        == [0xFF, 0xFF, 0xFD, 0x00, id, 8, 0, StatusByte, 0x00, 0xFF, 0xFF, 0xFD, 0xFD];
  }

  /** The error byte 0 and the data FF FF FD gain one stuffing byte, which
      `Length` counts. */
  lemma OvercountParams()
    ensures Stuff([0x00, 0xFF, 0xFF, 0xFD]) == [0x00, 0xFF, 0xFF, 0xFD, 0xFD]
    ensures CalculateLength([0x00, 0xFF, 0xFF, 0xFD]) == 8
  {
    var p: seq<byte> := [0x00, 0xFF, 0xFF, 0xFD];
    StuffedExample();
    StuffLength(p);
    assert |p| + Hits(p) + 1 + 2 == 8;
  }

  /** Without the restriction the round trip fails: the decoder counts the
      parameters it delivers against `Length`, which also counts stuffing
      bytes. A status frame whose data is FF FF FD goes out with `Length` 8;
      the decoder then delivers four bytes, the fourth being the first CRC
      byte, instead of the three that were sent. */
  lemma DecoderOvercountsStuffing(adv: CrcStep, id: byte)
    ensures var f := Encode(adv, id, RETURN, [0x00, 0xFF, 0xFF, 0xFD]);
      && f[5] == 8 && f[6] == 0
      && LengthDefined(Over(f), 4)
      && Parse(adv, Over(f), 4).params == [0xFF, 0xFF, 0xFD, f[|f| - 2]]
  {
    var f := Encode(adv, id, RETURN, [0x00, 0xFF, 0xFF, 0xFD]);
    OvercountFrame(adv, id);
    assert |f| == 15;
    assert f[5] == 8 && f[6] == 0 && f[7] == StatusByte;
    assert f[9] == 0xFF && f[10] == 0xFF && f[11] == 0xFD && f[12] == 0xFD;
    OvercountParse(adv, f);
  }

  /** The decoder on a buffer holding, after a header, a status frame with
      `Length` 8 whose parameter bytes start FF FF FD FD: it delivers FF FF FD
      and the byte that follows. */
  lemma OvercountParse(adv: CrcStep, f: seq<byte>)
    requires |f| == 15 && f[5] == 8 && f[6] == 0 && f[7] == StatusByte
    requires f[9] == 0xFF && f[10] == 0xFF && f[11] == 0xFD && f[12] == 0xFD
    ensures LengthDefined(Over(f), 4)
    ensures Parse(adv, Over(f), 4).params == [0xFF, 0xFF, 0xFD, f[13]]
  {
    var s := Over(f);
    assert s(5) == 8 && s(6) == 0 && s(7) == StatusByte;
    assert s(9) == 0xFF && s(10) == 0xFF && s(11) == 0xFD && s(12) == 0xFD && s(13) == f[13];
    DestuffExample(s, 9);
    ParseChecksCrc(adv, s, 4);
  }
}

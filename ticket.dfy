/** `ticket<Signed_Mode, T, Ts...>` of include/ldp/ticket.hpp (and its copy
    in include/ldp/request.hpp): it decodes the status frame that answers a
    request into a value `T{id, xs...}`, where the `xs` are the parameter
    fields `Ts...` read little-endian from the frame's parameters, or passes
    the decoder's error on. */
module Ticket {
  import opened Detail
  import opened Frame
  import opened Packet
  import opened Fields

  /** A ticket type: the byte widths of the fields `Ts...` it extracts. A
      ticket object has no state of its own. */
  datatype Ticket = Ticket(widths: seq<nat>)

  /** `T{id, xs...}`: the packet id, then the fields in declared order. */
  datatype Value = Value(id: byte, fields: seq<nat>)

  /** The frame from `start` on has a well-defined `Length` whose parameters
      fit the ticket's parameter tuple, which the decoder fills from its
      first byte on. */
  predicate Fits(t: Ticket, data: Stream, start: nat)
  {
    LengthDefined(data, start) && DeclaredParams(data, start) <= Size(t.widths)
  }

  /** The decoder delivers at most the declared number of parameters. */
  lemma ParamsDeclared(adv: CrcStep, data: Stream, start: nat)
    requires LengthDefined(data, start)
    ensures |Parse(adv, data, start).params| <= DeclaredParams(data, start)
  {
  }

  /** The parameter tuple after the decoder has written `params` to it from
      its first byte on; the bytes it did not reach are taken to be zero,
      which assumes the default constructor of `upd::tuple` zeroes them. */
  function Filled(params: seq<byte>, size: nat): (r: seq<byte>)
    requires |params| <= size
    ensures |r| == size && r[..|params|] == params
    ensures forall k :: |params| <= k < size ==> r[k] == 0
  {
    params + seq(size - |params|, _ => 0)
  }

  /** `maybe_id.map(make_value)`: the decoder's id and the fields of the
      filled parameter tuple make `T{id, xs...}`; an error stays an error. */
  function Build(t: Ticket, p: Parsed): (r: Result<Value>)
    requires |p.params| <= Size(t.widths)
    ensures r.Ok? <==> p.result.Ok?
    ensures r.Ok? ==> r.value.id == p.result.value && |r.value.fields| == |t.widths|
  {
    match p.result
    case Ok(id) => Ok(Value(id, Unpack(t.widths, Filled(p.params, Size(t.widths)))))
    case Err(e) => Err(e)
  }

  /** `operator<<` as a function of the bytes the source delivers from
      `start` on. */
  function Decode(adv: CrcStep, t: Ticket, data: Stream, start: nat): (r: Result<Value>)
    requires Fits(t, data, start)
    ensures r.Ok? ==>
      && data(start + 3) == StatusByte && data(start + 4) == 0
      && r.value.id == data(start) && |r.value.fields| == |t.widths|
  {
    ParamsDeclared(adv, data, start);
    Build(t, Parse(adv, data, start))
  }

  /** A ticket succeeds exactly when the frame decodes. Then its value
      carries the packet id and fields that fit their widths and pack back
      into the parameter tuple; otherwise the decoder's error is passed on
      unchanged. */
  lemma BuildOutcome(t: Ticket, p: Parsed)
    requires |p.params| <= Size(t.widths)
    ensures var v := Build(t, p);
      && (v.Ok? <==> p.result.Ok?)
      && (p.result.Err? ==> v == Err(p.result.error))
      && (v.Ok? ==>
            && v.value.id == p.result.value
            && Fit(t.widths, v.value.fields)
            && Pack(t.widths, v.value.fields) == Filled(p.params, Size(t.widths)))
  {
    PackUnpack(t.widths, Filled(p.params, Size(t.widths)));
  }

  /** Field `i` of a built value is the little-endian value of its bytes in
      the parameter tuple, in declared order. */
  lemma BuildField(t: Ticket, p: Parsed, i: nat)
    requires |p.params| <= Size(t.widths) && i < |t.widths|
    requires Build(t, p).Ok?
    ensures var o := Offset(t.widths, i);
      Build(t, p).value.fields[i] == FromLE(Filled(p.params, Size(t.widths))[o..o + t.widths[i]])
  {
    UnpackField(t.widths, Filled(p.params, Size(t.widths)), i);
  }

  /** `operator<<(F &&ftor)`: the parameter tuple, taken to start zeroed, is
      the buffer the decoder fills; on success its fields and the id make the value. */
  method Receive(adv: CrcStep, t: Ticket, src: Source) returns (r: Result<Value>)
    requires Fits(t, src.data, src.pos)
    modifies src
    ensures r == Decode(adv, t, src.data, old(src.pos))
    ensures src.pos == Parse(adv, src.data, old(src.pos)).next
  {
    ghost var p := Parse(adv, src.data, src.pos);
    ParamsDeclared(adv, src.data, src.pos);
    var parameters := new byte[Size(t.widths)](_ => 0);
    var maybeId := ReadHeaderlessPacket(adv, src, parameters);
    assert parameters[..] == Filled(p.params, Size(t.widths));
    match maybeId
    case Ok(id) => r := Ok(Value(id, Unpack(t.widths, parameters[..])));
    case Err(e) => r := Err(e);
  }

  /** `operator<<(It it)`: the same, reading `*it++` from position `at` of a
      buffer. The iterator is taken by value, so the caller's is unchanged. */
  method ReceiveAt(adv: CrcStep, t: Ticket, buf: seq<byte>, at: nat) returns (r: Result<Value>)
    requires Fits(t, Over(buf), at)
    ensures r == Decode(adv, t, Over(buf), at)
  {
    var it := new Source(Over(buf), at);
    r := Receive(adv, t, it);
  }
}

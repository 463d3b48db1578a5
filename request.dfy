/** `request<Signed_Mode, Tk, Ts...>` of include/ldp/request.hpp: the fields
    of an instruction frame, set once by the constructor, which the request
    sends through `write_packet` before handing back the ticket `Tk` that
    decodes the answer; and the builders of include/ldp/ping.hpp,
    include/ldp/read.hpp and include/ldp/write.hpp. */
module Request {
  import opened Detail
  import opened Frame
  import opened Packet
  import opened Fields
  import opened Ticket

  /** A request: target id, instruction, the bytes of its parameter tuple,
      and the ticket type `Tk` its sending returns. */
  datatype Request = Request(id: byte, ins: Instruction, parameters: seq<byte>, reply: Ticket)

  /** The constructor: the id and instruction are stored as given and the
      parameter values are stored in a tuple of the given field widths, from
      which they read back unchanged. */
  function NewRequest(id: byte, ins: Instruction, widths: seq<nat>, values: seq<nat>, reply: Ticket): (r: Request)
    requires Fit(widths, values)
    ensures r.id == id && r.ins == ins && r.reply == reply
    ensures |r.parameters| == Size(widths) && Unpack(widths, r.parameters) == values
  {
    UnpackPack(widths, values);
    Request(id, ins, Pack(widths, values), reply)
  }

  /** `operator>>(F &&ftor)`: the bytes handed to the output functor are
      the frame `write_packet` emits for the stored fields, and the result is
      a default ticket of type `Tk`, whatever was sent. */
  method Send(adv: CrcStep, rq: Request) returns (sent: seq<byte>, tk: Ticket)
    ensures sent == Encode(adv, rq.id, rq.ins, rq.parameters)
    ensures tk == rq.reply
  {
    sent := WritePacket(adv, rq.id, rq.ins, rq.parameters);
    tk := rq.reply;
  }

  /** `operator>>(It it)`: each byte sent is written with `*it++ = byte`,
      so the frame lands in consecutive cells from `at` on and no other cell
      changes. */
  method SendTo(adv: CrcStep, rq: Request, out: array<byte>, at: nat) returns (tk: Ticket)
    requires at + |Encode(adv, rq.id, rq.ins, rq.parameters)| <= out.Length
    modifies out
    ensures var f := Encode(adv, rq.id, rq.ins, rq.parameters);
      && out[at..at + |f|] == f
      && out[..at] == old(out[..at])
      && out[at + |f|..] == old(out[at + |f|..])
      && tk == rq.reply
  {
    var sent;
    sent, tk := Send(adv, rq);
    for i := 0 to |sent|
      invariant out[at..at + i] == sent[..i]
      invariant out[..at] == old(out[..at])
      invariant out[at + |sent|..] == old(out[at + |sent|..])
    {
      out[at + i] := sent[i];
      assert out[at..at + i + 1] == out[at..at + i] + [sent[i]];
      PrefixSnoc(sent, i);
    }
    assert sent[..|sent|] == sent;
  }

  // ------------------------------------------------------------ builders

  /** The answer to a ping: `device_info{id, model_number, firmware_version}`,
      a 16-bit and an 8-bit field. */
  const DeviceInfo: Ticket := Ticket([2, 1])

  /** `ping(id)`: PING to `id`, no parameters, answered by a `device_info`. */
  function Ping(id: byte): (r: Request)
    ensures r == NewRequest(id, PING, [], [], DeviceInfo)
  {
    Request(id, PING, [], DeviceInfo)
  }

  /** `read(id, memzone<Address, T>)`: READ to `id` with the 16-bit address
      and the 16-bit size of `T`, answered by `device_data<T>{id, value}`. */
  function Read(id: byte, address: nat, size: nat): (r: Request)
    requires address < 0x10000 && size < 0x10000
    ensures r.id == id && r.ins == READ && r.reply == Ticket([size])
    ensures |r.parameters| == 4 && Unpack([2, 2], r.parameters) == [address, size]
  {
    NewRequest(id, READ, [2, 2], [address, size], Ticket([size]))
  }

  /** `write(id, memzone<Address, T>, value)`: WRITE to `id` with the 16-bit
      address and the value in the `size` bytes of `T`, answered by the id
      alone. */
  function Write(id: byte, address: nat, size: nat, value: nat): (r: Request)
    requires address < 0x10000 && value < Pow256(size)
    ensures r.id == id && r.ins == WRITE && r.reply == Ticket([])
    ensures |r.parameters| == Size([2, size]) == 2 + size && Unpack([2, size], r.parameters) == [address, value]
  {
    assert [2, size][1..] == [size] && [size][1..] == [] && Size([]) == 0;
    assert Size([size]) == size;
    NewRequest(id, WRITE, [2, size], [address, value], Ticket([]))
  }
}

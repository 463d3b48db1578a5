/** The parameter tuples of requests and tickets (`upd::tuple` with little-
    endian byte order): a list of unsigned fields of fixed byte widths, laid
    out one after the other, each least significant byte first. */
module Fields {
  import opened Detail

  /** 256 to the power `n`: the number of values a field of `n` bytes holds. */
  function Pow256(n: nat): (r: nat)
    ensures r > 0
  {
    if n == 0 then 1 else 256 * Pow256(n - 1)
  }

  /** The unsigned value of a little-endian field. */
  function FromLE(bytes: seq<byte>): nat
  {
    if bytes == [] then 0 else bytes[0] + 256 * FromLE(bytes[1..])
  }

  /** A field of `n` bytes holds less than 256 to the power `n`. */
  lemma {:induction false} FromLEBound(bytes: seq<byte>)
    ensures FromLE(bytes) < Pow256(|bytes|)
  {
    if bytes != [] {
      FromLEBound(bytes[1..]);
    }
  }

  /** The `n` little-endian bytes of `v`. */
  function ToLE(v: nat, n: nat): (r: seq<byte>)
    requires v < Pow256(n)
    ensures |r| == n
  {
    if n == 0 then [] else [v % 256] + ToLE(v / 256, n - 1)
  }

  /** A two-byte field is a `Word`. */
  lemma FromLEWord(lo: byte, hi: byte)
    ensures FromLE([lo, hi]) == Word(lo, hi)
  {
    assert [lo, hi][1..] == [hi];
    assert [hi][1..] == [];
    assert FromLE([hi]) == hi;
    assert FromLE([lo, hi]) == lo + 256 * FromLE([hi]);
  }

  /** Reading back a serialised value gives the value. */
  lemma {:induction false} FromToLE(v: nat, n: nat)
    requires v < Pow256(n)
    ensures FromLE(ToLE(v, n)) == v
  {
    if n > 0 {
      var rest := ToLE(v / 256, n - 1);
      FromToLE(v / 256, n - 1);
      assert ToLE(v, n)[1..] == rest;
    }
  }

  /** Serialising a value read from `bytes` gives `bytes` back. */
  lemma {:induction false} ToFromLE(bytes: seq<byte>)
    ensures FromLE(bytes) < Pow256(|bytes|) && ToLE(FromLE(bytes), |bytes|) == bytes
  {
    FromLEBound(bytes);
    if bytes != [] {
      var v := FromLE(bytes);
      var tail := FromLE(bytes[1..]);
      assert v % 256 == bytes[0] && v / 256 == tail;
      ToFromLE(bytes[1..]);
      assert bytes == [bytes[0]] + bytes[1..];
    }
  }

  /** The byte size of a tuple with fields of the given widths. */
  function Size(widths: seq<nat>): nat
  {
    if widths == [] then 0 else widths[0] + Size(widths[1..])
  }

  /** Where field `i` starts in the tuple. */
  function Offset(widths: seq<nat>, i: nat): (r: nat)
    requires i < |widths|
    ensures r + widths[i] <= Size(widths)
  {
    if i == 0 then 0 else widths[0] + Offset(widths[1..], i - 1)
  }

  /** Every value fits the width of its field. */
  predicate Fit(widths: seq<nat>, values: seq<nat>)
  {
    |values| == |widths| && forall i :: 0 <= i < |values| ==> values[i] < Pow256(widths[i])
  }

  /** The fields of a tuple whose bytes are `bytes`, in declared order. */
  function Unpack(widths: seq<nat>, bytes: seq<byte>): (r: seq<nat>)
    requires |bytes| == Size(widths)
    ensures |r| == |widths|
  {
    if widths == [] then []
    else [FromLE(bytes[..widths[0]])] + Unpack(widths[1..], bytes[widths[0]..])
  }

  /** The bytes of a tuple holding `values`. */
  function Pack(widths: seq<nat>, values: seq<nat>): (r: seq<byte>)
    requires Fit(widths, values)
    ensures |r| == Size(widths)
  {
    if widths == [] then []
    else ToLE(values[0], widths[0]) + Pack(widths[1..], values[1..])
  }

  /** Every field of a tuple fits its width. */
  lemma {:induction false} UnpackFits(widths: seq<nat>, bytes: seq<byte>)
    requires |bytes| == Size(widths)
    ensures Fit(widths, Unpack(widths, bytes))
  {
    if widths != [] {
      var r := Unpack(widths, bytes);
      FromLEBound(bytes[..widths[0]]);
      UnpackFits(widths[1..], bytes[widths[0]..]);
      forall i | 0 <= i < |r|
        ensures r[i] < Pow256(widths[i])
      {
        if i > 0 {
          assert r[i] == Unpack(widths[1..], bytes[widths[0]..])[i - 1];
          assert widths[i] == widths[1..][i - 1];
        }
      }
    }
  }

  /** Field `i` of a tuple is the little-endian value of its own bytes. */
  lemma {:induction false} UnpackField(widths: seq<nat>, bytes: seq<byte>, i: nat)
    requires |bytes| == Size(widths) && i < |widths|
    ensures Unpack(widths, bytes)[i] == FromLE(bytes[Offset(widths, i)..Offset(widths, i) + widths[i]])
  {
    if i == 0 {
      UnpackHead(widths, bytes);
    } else {
      SizeTail(widths, bytes);
      UnpackField(widths[1..], bytes[widths[0]..], i - 1);
      UnpackTail(widths, bytes, i);
    }
  }

  /** Field 0 is made of the first bytes of the tuple. */
  lemma UnpackHead(widths: seq<nat>, bytes: seq<byte>)
    requires |bytes| == Size(widths) && 0 < |widths|
    ensures Unpack(widths, bytes)[0] == FromLE(bytes[Offset(widths, 0)..Offset(widths, 0) + widths[0]])
  {
    assert bytes[Offset(widths, 0)..Offset(widths, 0) + widths[0]] == bytes[..widths[0]];
  }

  /** The rest of a tuple after its first field is a tuple of the other fields. */
  lemma SizeTail(widths: seq<nat>, bytes: seq<byte>)
    requires |bytes| == Size(widths) && 0 < |widths|
    ensures widths[0] <= |bytes| && |bytes[widths[0]..]| == Size(widths[1..])
  {
  }

  /** Field `i > 0` of a tuple is field `i - 1` of the rest of the tuple,
      one first-field width further on. */
  lemma UnpackTail(widths: seq<nat>, bytes: seq<byte>, i: nat)
    requires |bytes| == Size(widths) && 0 < i < |widths|
    requires widths[0] <= |bytes| && |bytes[widths[0]..]| == Size(widths[1..])
    requires var tail, rest := widths[1..], bytes[widths[0]..];
      Unpack(tail, rest)[i - 1] == FromLE(rest[Offset(tail, i - 1)..Offset(tail, i - 1) + tail[i - 1]])
    ensures Unpack(widths, bytes)[i] == FromLE(bytes[Offset(widths, i)..Offset(widths, i) + widths[i]])
  {
    var tail := widths[1..];
    UnpackIndex(widths, bytes, i);
    OffsetStep(widths, i);
    FieldOfRest(bytes, widths[0], Offset(tail, i - 1), tail[i - 1], Offset(widths, i));
  }

  /** Field `i > 0` is field `i - 1` of the rest of the tuple. */
  lemma UnpackIndex(widths: seq<nat>, bytes: seq<byte>, i: nat)
    requires |bytes| == Size(widths) && 0 < i < |widths|
    requires widths[0] <= |bytes| && |bytes[widths[0]..]| == Size(widths[1..])
    ensures Unpack(widths, bytes)[i] == Unpack(widths[1..], bytes[widths[0]..])[i - 1]
  {
  }

  /** Field `i > 0` starts one first-field width after field `i - 1` of the rest. */
  lemma OffsetStep(widths: seq<nat>, i: nat)
    requires 0 < i < |widths|
    ensures Offset(widths, i) == widths[0] + Offset(widths[1..], i - 1) && widths[i] == widths[1..][i - 1]
  {
  }

  /** A field read from a suffix of the tuple is the field read from the
      tuple at the corresponding position. */
  lemma FieldOfRest(s: seq<byte>, k: nat, a: nat, n: nat, start: nat)
    requires start == k + a && start + n <= |s|
    ensures FromLE(s[k..][a..a + n]) == FromLE(s[start..start + n])
  {
    assert s[k..][a..a + n] == s[start..start + n];
  }

  /** Unpacking a packed tuple gives back its values. */
  lemma {:induction false} UnpackPack(widths: seq<nat>, values: seq<nat>)
    requires Fit(widths, values)
    ensures Unpack(widths, Pack(widths, values)) == values
  {
    if widths != [] {
      var head := ToLE(values[0], widths[0]);
      var rest := Pack(widths[1..], values[1..]);
      assert Fit(widths[1..], values[1..]) by {
        forall i | 0 <= i < |values[1..]|
          ensures values[1..][i] < Pow256(widths[1..][i])
        {
          assert values[1..][i] == values[i + 1] && widths[1..][i] == widths[i + 1];
        }
      }
      assert (head + rest)[..widths[0]] == head;
      assert (head + rest)[widths[0]..] == rest;
      FromToLE(values[0], widths[0]);
      UnpackPack(widths[1..], values[1..]);
      assert values == [values[0]] + values[1..];
    }
  }

  /** Packing the values unpacked from a tuple gives back its bytes. */
  lemma {:induction false} PackUnpack(widths: seq<nat>, bytes: seq<byte>)
    requires |bytes| == Size(widths)
    ensures Fit(widths, Unpack(widths, bytes)) && Pack(widths, Unpack(widths, bytes)) == bytes
  {
    UnpackFits(widths, bytes);
    if widths != [] {
      var head, rest := bytes[..widths[0]], bytes[widths[0]..];
      var values := Unpack(widths, bytes);
      assert values[0] == FromLE(head);
      assert values[1..] == Unpack(widths[1..], rest);
      ToFromLE(head);
      PackUnpack(widths[1..], rest);
      assert bytes == head + rest;
    }
  }
}

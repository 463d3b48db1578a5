/** Properties of byte stuffing as `write_packet` performs it and as
    `read_headerless_packet` undoes it: how many bytes it adds, that the
    decoder's parameter phase takes it back off, and that it keeps the
    header out of the stuffed parameters. */
module Stuffing {
  import opened Detail
  import opened Sentry
  import opened Frame

  /** Stuffing adds exactly one byte per stuffing-sentry hit. */
  lemma {:induction false} StuffLength(p: seq<byte>)
    ensures |Stuff(p)| == |p| + Hits(p)
  {
    if p != [] {
      StuffLength(p[..|p| - 1]);
    }
  }

  /** The `Length` field counts the parameters as they go on the wire,
      stuffing bytes included, plus the instruction and the two CRC bytes. */
  lemma LengthCountsStuffedBytes(p: seq<byte>)
    ensures CalculateLength(p) == (|Stuff(p)| + 1 + 2) % 0x10000
  {
    StuffLength(p);
  }

  /** Stuffing of `r` by a stuffing sentry whose count is already `count`:
      the same rule as `Stuff`, walked from the front. */
  function StuffFrom(count: nat, r: seq<byte>): seq<byte>
    requires count < StuffingSentry
    decreases |r|
  {
    if r == [] then []
    else
      var (count', hit) := Step(StuffingSentry, count, r[0]);
      (if hit then [StuffingByte] else []) + [r[0]] + StuffFrom(count', r[1..])
  }

  /** Stuffing a longer input continues from the state the shorter one left. */
  lemma {:induction false} StuffSplit(q: seq<byte>, r: seq<byte>)
    ensures Stuff(q + r) == Stuff(q) + StuffFrom(CountAfter(StuffingSentry, q), r)
    decreases |r|
  {
    if r != [] {
      StuffSplit(q + [r[0]], r[1..]);
      StuffSplitStep(q, r[0], r[1..]);
      assert [r[0]] + r[1..] == r;
    } else {
      assert q + r == q;
    }
  }

  /** The step of `StuffSplit`: moving one byte from the front of the rest to
      the end of the prefix. */
  lemma StuffSplitStep(q: seq<byte>, b: byte, r: seq<byte>)
    requires Stuff((q + [b]) + r) == Stuff(q + [b]) + StuffFrom(CountAfter(StuffingSentry, q + [b]), r)
    ensures Stuff(q + ([b] + r)) == Stuff(q) + StuffFrom(CountAfter(StuffingSentry, q), [b] + r)
  {
    AppendAssoc(q, [b], r);
    StuffMoveByte(q, b, r);
  }

  /** Stuffing `q` then `b` and going on with `r` is stuffing `q` and going on
      with `b` and `r`. */
  lemma StuffMoveByte(q: seq<byte>, b: byte, r: seq<byte>)
    ensures Stuff(q + [b]) + StuffFrom(CountAfter(StuffingSentry, q + [b]), r)
         == Stuff(q) + StuffFrom(CountAfter(StuffingSentry, q), [b] + r)
  {
    var c := CountAfter(StuffingSentry, q);
    var st := Step(StuffingSentry, c, b);
    var x: seq<byte> := if st.1 then [StuffingByte] else [];
    var rest := StuffFrom(st.0, r);
    StuffSnoc(q, b);
    RunSnoc(StuffingSentry, q, b);
    Regroup(Stuff(q), x, b, rest);
    StuffFromUnfold(c, [b] + r);
    assert ([b] + r)[0] == b && ([b] + r)[1..] == r;
  }

  /** Regrouping a concatenation of four pieces.
      A solver-cost helper with no protocol meaning: it names a fact so the callers need not search for it. */
  lemma Regroup(a: seq<byte>, x: seq<byte>, b: byte, c: seq<byte>)
    ensures a + x + [b] + c == a + (x + [b] + c)
  {
  }

  /** One byte of `StuffFrom`. */
  lemma StuffFromUnfold(count: nat, r: seq<byte>)
    requires count < StuffingSentry && r != []
    ensures StuffFrom(count, r)
         == (if Step(StuffingSentry, count, r[0]).1 then [StuffingByte] else []) + [r[0]]
            + StuffFrom(Step(StuffingSentry, count, r[0]).0, r[1..])
  {
  }

  /** A fresh stuffing sentry stuffs as `Stuff` does. */
  lemma StuffFromStart(p: seq<byte>)
    ensures Stuff(p) == StuffFrom(0, p)
  {
    StuffSplit([], p);
    assert [] + p == p;
  }

  /** The stuffing sentry fires only on the byte that completes FF FF FD. */
  lemma HitIsStuffingByte(count: nat, b: byte)
    requires count < StuffingSentry
    ensures Step(StuffingSentry, count, b).1 ==> b == StuffingByte
  {
  }

  /** The decoder's parameter phase, run over stuffed bytes, yields the
      bytes before stuffing and stops right after the stuffed bytes. */
  lemma {:induction false} DestuffStuffFrom(data: Stream, pos: nat, count: nat, r: seq<byte>)
    requires count < StuffingSentry
    requires Holds(data, pos, StuffFrom(count, r))
    ensures Destuff(data, pos, |r|, count) == (r, pos + |StuffFrom(count, r)|)
    decreases |r|
  {
    if r != [] {
      var st := Step(StuffingSentry, count, r[0]);
      var head := (if st.1 then [StuffingByte] else []) + [r[0]];
      var rest := StuffFrom(st.0, r[1..]);
      StuffFromUnfold(count, r);
      HitIsStuffingByte(count, r[0]);
      HoldsFirst(data, pos, StuffFrom(count, r));
      MatchSuffix(data, pos, head, rest);
      DestuffStuffFrom(data, pos + |head|, st.0, r[1..]);
      DestuffUnfold(data, pos, |r|, count);
      ConsSplit(r);
    }
  }

  /** The stream `data` holds the bytes `t` from position `pos` on. */
  predicate Holds(data: Stream, pos: nat, t: seq<byte>)
  {
    forall i :: 0 <= i < |t| ==> data(pos + i) == t[i]
  }

  /** The bytes a stream holds are the bytes a source over it delivers. */
  lemma TakeHolds(data: Stream, pos: nat, t: seq<byte>)
    requires Holds(data, pos, t)
    ensures Take(data, pos, pos + |t|) == t
  {
  }

  /** A stream that holds `a + b` from `pos` holds `b` from `pos + |a|`. */
  lemma MatchSuffix(data: Stream, pos: nat, a: seq<byte>, b: seq<byte>)
    requires Holds(data, pos, a + b)
    ensures Holds(data, pos + |a|, b)
  {
    forall i | 0 <= i < |b|
      ensures data(pos + |a| + i) == b[i]
    {
      assert data(pos + (|a| + i)) == (a + b)[|a| + i];
    }
  }

  /** A stream that holds `a + b` from `pos` holds `a` there. */
  lemma MatchPrefix(data: Stream, pos: nat, a: seq<byte>, b: seq<byte>)
    requires Holds(data, pos, a + b)
    ensures Holds(data, pos, a)
  {
    forall i | 0 <= i < |a|
      ensures data(pos + i) == a[i]
    {
      assert data(pos + i) == (a + b)[i];
    }
  }

  /** The first byte a stream holds. */
  lemma HoldsFirst(data: Stream, pos: nat, t: seq<byte>)
    requires Holds(data, pos, t) && t != []
    ensures data(pos) == t[0]
  {
    assert data(pos + 0) == t[0];
  }

  /** A buffer read as a stream holds each of its pieces where it lies. */
  lemma HoldsOver(before: seq<byte>, t: seq<byte>, after: seq<byte>)
    ensures Holds(Over(before + t + after), |before|, t)
  {
    var buf := before + t + after;
    forall i | 0 <= i < |t|
      ensures Over(buf)(|before| + i) == t[i]
    {
      assert buf[|before| + i] == t[i];
    }
  }

  /** A non-empty sequence is its head followed by its tail.
      A solver-cost helper with no protocol meaning: it names a fact so the callers need not search for it. */
  lemma ConsSplit<T>(r: seq<T>)
    requires r != []
    ensures [r[0]] + r[1..] == r
  {
  }

  /** One logical byte of the decoder's parameter phase. */
  lemma DestuffUnfold(data: Stream, pos: nat, k: nat, count: nat)
    requires k > 0 && count < StuffingSentry
    ensures var (count', hit) := Step(StuffingSentry, count, data(pos));
      var rest := Destuff(data, if hit then pos + 2 else pos + 1, k - 1, count');
      Destuff(data, pos, k, count) == ([data(pos)] + rest.0, rest.1)
  {
  }

  /** Removing the stuffing recovers the parameters: the decoder's parameter
      phase, asked for `|p|` bytes where the stream holds `Stuff(p)`, reads
      it back as `p` and stops right after it, whatever surrounds it. */
  lemma DestuffStuff(data: Stream, pos: nat, p: seq<byte>)
    requires Holds(data, pos, Stuff(p))
    ensures Destuff(data, pos, |p|, 0) == (p, pos + |Stuff(p)|)
  {
    DestuffFresh(data, pos, p, Stuff(p), 0);
  }

  /** `DestuffStuff` with the fresh sentry's count passed as a variable and
      the stuffing named `s`. A solver-cost helper with no protocol meaning:
      it keeps the literal count away from the unfolding of `StuffFrom`. */
  lemma DestuffFresh(data: Stream, pos: nat, p: seq<byte>, s: seq<byte>, count: nat)
    requires count == 0 && s == Stuff(p) && Holds(data, pos, s)
    ensures Destuff(data, pos, |p|, count) == (p, pos + |s|)
  {
    StuffFromStart(p);
    DestuffStuffFrom(data, pos, count, p);
  }

  /** The same over a buffer that holds the stuffed bytes. */
  lemma DestuffStuffBuffer(before: seq<byte>, p: seq<byte>, after: seq<byte>)
    ensures Destuff(Over(before + Stuff(p) + after), |before|, |p|, 0)
         == (p, |before| + |Stuff(p)|)
  {
    HoldsOver(before, Stuff(p), after);
    DestuffStuff(Over(before + Stuff(p) + after), |before|, p);
  }

  // ------------------------------------------------ the header stays out

  /** Every FF FF FD in `o` is followed by a further FD; in particular the
      header FF FF FD 00 does not occur in `o`. */
  predicate PatternsBroken(o: seq<byte>)
  {
    forall i :: 0 <= i && i + 3 <= |o| && o[i] == 0xFF && o[i + 1] == 0xFF && o[i + 2] == 0xFD
      ==> i + 3 < |o| && o[i + 3] == 0xFD
  }

  /** The header occurs in `o` at index `i`. */
  predicate HeaderAt(o: seq<byte>, i: nat)
  {
    i + |Header| <= |o| && o[i..i + |Header|] == Header
  }

  /** How the stuffed bytes end: with the last parameter, preceded by the
      stuffing byte when the sentry fired on it, and otherwise by the
      parameter before it. */
  lemma {:induction false} StuffEnd(p: seq<byte>)
    requires |p| > 0
    ensures var o := Stuff(p);
      && |o| > 0 && o[|o| - 1] == p[|p| - 1]
      && (|o| >= 2 && o[|o| - 2] != StuffingByte
          ==> |p| >= 2 && !Fires(StuffingSentry, p) && o[|o| - 2] == p[|p| - 2])
  {
    var init := p[..|p| - 1];
    if |init| > 0 {
      StuffEnd(init);
      assert init[|init| - 1] == p[|p| - 2];
    } else {
      assert Stuff(init) == [];
    }
  }

  /** Stuffed bytes never end with FF FF FD: that FD would have been stuffed. */
  lemma StuffEndNotPattern(p: seq<byte>)
    ensures var o := Stuff(p);
      !(|o| >= 3 && o[|o| - 3] == 0xFF && o[|o| - 2] == 0xFF && o[|o| - 1] == 0xFD)
  {
    var o := Stuff(p);
    if |o| >= 3 && o[|o| - 3] == 0xFF && o[|o| - 2] == 0xFF && o[|o| - 1] == 0xFD {
      StuffEnd(p);
      StuffEnd(p[..|p| - 1]);
      StuffingSentryExact(p);
      assert false;
    }
  }

  /** Byte stuffing keeps the header out of the stuffed parameters: every
      FF FF FD in them is followed by the inserted FD. */
  lemma {:induction false} StuffBreaksPatterns(p: seq<byte>)
    ensures PatternsBroken(Stuff(p))
  {
    if p != [] {
      var init, b := p[..|p| - 1], p[|p| - 1];
      StuffBreaksPatterns(init);
      StuffEndNotPattern(init);
      StuffEndNotPattern(p);
      var o := Stuff(init);
      var hit := Fires(StuffingSentry, p);
      var o' := Stuff(p);
      assert o' == o + (if hit then [StuffingByte] else []) + [b];
      HitIsStuffingByte(CountAfter(StuffingSentry, init), b);
      forall i | 0 <= i && i + 3 <= |o'| && o'[i] == 0xFF && o'[i + 1] == 0xFF && o'[i + 2] == 0xFD
        ensures i + 3 < |o'| && o'[i + 3] == 0xFD
      {
        if i + 3 <= |o| {
          assert o[i] == 0xFF && o[i + 1] == 0xFF && o[i + 2] == 0xFD;
        }
      }
    }
  }

  /** The header never occurs inside stuffed parameters. */
  lemma NoHeaderInStuffed(p: seq<byte>, i: nat)
    ensures !HeaderAt(Stuff(p), i)
  {
    var o := Stuff(p);
    if HeaderAt(o, i) {
      assert o[i] == 0xFF && o[i + 1] == 0xFF && o[i + 2] == 0xFD && o[i + 3] == 0x00 by {
        assert o[i..i + 4][0] == o[i] && o[i..i + 4][3] == o[i + 3];
        assert o[i..i + 4][1] == o[i + 1] && o[i..i + 4][2] == o[i + 2];
      }
      StuffBreaksPatterns(p);
      assert false;
    }
  }
}

/** The sentry of include/ldp/sentry.hpp: a one-counter automaton that
    watches a byte stream for the first `n` bytes of the frame header.
    It comes in two sizes: the whole header (frame detection) and the
    header less its last byte (stuffing detection). */
module Sentry {
  import opened Detail

  /** `sentry`: detects a whole header (`sizeof header`). */
  const HeaderSentry: nat := 4

  /** `stuffing_sentry`: detects the header less its last byte, FF FF FD. */
  const StuffingSentry: nat := 3

  /** One call of the sentry in state `count` on byte `b`: the new count and
      whether the pattern was just completed (the count then restarts at 0). */
  function Step(n: nat, count: nat, b: byte): (r: (nat, bool))
    requires n == HeaderSentry || n == StuffingSentry
    requires count < n
    ensures r.0 < n
    ensures r.1 ==> r.0 == 0
  {
    var c := if Header[count] == b then count + 1
             else if b == 0xFF && count < 3 then count
             else 0;
    if c == n then (0, true) else (c, false)
  }

  /** The count of a fresh sentry after it has been fed `s`. */
  function CountAfter(n: nat, s: seq<byte>): (r: nat)
    requires n == HeaderSentry || n == StuffingSentry
    ensures r < n
  {
    if s == [] then 0 else Step(n, CountAfter(n, s[..|s| - 1]), s[|s| - 1]).0
  }

  /** What a fresh sentry returns on the last byte of `s`. */
  function Fires(n: nat, s: seq<byte>): bool
    requires n == HeaderSentry || n == StuffingSentry
    requires |s| > 0
  {
    Step(n, CountAfter(n, s[..|s| - 1]), s[|s| - 1]).1
  }

  /** Indices of `s` on which a fresh sentry fed `s` returns true. */
  function FirePositions(n: nat, s: seq<byte>): (r: seq<nat>)
    requires n == HeaderSentry || n == StuffingSentry
  {
    if s == [] then []
    else FirePositions(n, s[..|s| - 1]) + (if Fires(n, s) then [|s| - 1] else [])
  }

  /** Feeding one more byte: the state of the fold advances by one `Step`. */
  lemma {:induction false} RunSnoc(n: nat, p: seq<byte>, b: byte)
    requires n == HeaderSentry || n == StuffingSentry
    ensures CountAfter(n, p + [b]) == Step(n, CountAfter(n, p), b).0
    ensures Fires(n, p + [b]) == Step(n, CountAfter(n, p), b).1
    ensures FirePositions(n, p + [b])
         == FirePositions(n, p) + (if Step(n, CountAfter(n, p), b).1 then [|p|] else [])
  {
    assert (p + [b])[..|p|] == p;
  }

  /** One step of a concrete sentry run, for the worked examples. */
  lemma RunStep(n: nat, p: seq<byte>, b: byte, c: nat, f: seq<nat>, c': nat, hit: bool)
    requires n == HeaderSentry || n == StuffingSentry
    requires CountAfter(n, p) == c && FirePositions(n, p) == f
    requires c < n && Step(n, c, b) == (c', hit)
    ensures CountAfter(n, p + [b]) == c'
    ensures FirePositions(n, p + [b]) == f + (if hit then [|p|] else [])
  {
    RunSnoc(n, p, b);
  }

  /** One call keeps the soundness invariant: if the input so far ends with
      the first `c` header bytes, the extended input ends with the first
      new-count header bytes, and with the first `n` when the call fires. */
  lemma {:induction false} StepSound(n: nat, init: seq<byte>, c: nat, b: byte)
    requires n == HeaderSentry || n == StuffingSentry
    requires c < n && EndsWithHeader(init, c)
    ensures EndsWithHeader(init + [b], Step(n, c, b).0)
    ensures Step(n, c, b).1 ==> EndsWithHeader(init + [b], n)
  {
    if Header[c] != b && b == 0xFF && c < 3 {
      // the count stays put only at 2, after FF FF, on a further FF
      assert c == 2;
      assert init[|init| - 2 + 1] == Header[1];
    }
  }

  /** Soundness: the last `count` bytes fed are always the first `count` header
      bytes, so a sentry returns true only when the last `n` bytes fed are the
      first `n` header bytes. */
  lemma {:induction false} SentrySound(n: nat, s: seq<byte>)
    requires n == HeaderSentry || n == StuffingSentry
    ensures EndsWithHeader(s, CountAfter(n, s))
    ensures |s| > 0 && Fires(n, s) ==> EndsWithHeader(s, n)
  {
    if s != [] {
      var init, b := s[..|s| - 1], s[|s| - 1];
      assert s == init + [b];
      SentrySound(n, init);
      StepSound(n, init, CountAfter(n, init), b);
    }
  }

  /** For the stuffing sentry the count is exact: it is the longest prefix of
      FF FF FD that the input ends with. */
  lemma {:induction false} StuffingCountExact(s: seq<byte>)
    ensures EndsWithHeader(s, CountAfter(StuffingSentry, s))
    ensures CountAfter(StuffingSentry, s) < 1 ==> !EndsWithHeader(s, 1)
    ensures CountAfter(StuffingSentry, s) < 2 ==> !EndsWithHeader(s, 2)
  {
    SentrySound(StuffingSentry, s);
    if s != [] {
      var init, b := s[..|s| - 1], s[|s| - 1];
      assert s == init + [b];
      StuffingCountExact(init);
      RunSnoc(StuffingSentry, init, b);
      if EndsWithHeader(s, 1) {
        assert b == 0xFF by { assert s[|s| - 1 + 0] == Header[0]; }
      }
      if EndsWithHeader(s, 2) {
        // then `init` ends with FF, so its count was at least 1
        assert EndsWithHeader(init, 1) by { assert init[|init| - 1 + 0] == s[|s| - 2 + 0]; }
        assert s[|s| - 2 + 1] == Header[1];
      }
    }
  }

  /** The stuffing sentry returns true exactly when the three most recent bytes
      are FF FF FD; since that pattern cannot overlap itself, nothing is missed. */
  lemma {:induction false} StuffingSentryExact(s: seq<byte>)
    requires |s| > 0
    ensures Fires(StuffingSentry, s) <==> EndsWithHeader(s, StuffingSentry)
  {
    var init, b := s[..|s| - 1], s[|s| - 1];
    assert s == init + [b];
    StuffingCountExact(init);
    SentrySound(StuffingSentry, s);
    if EndsWithHeader(s, 3) {
      assert EndsWithHeader(init, 2) by {
        assert init[|init| - 2 + 0] == s[|s| - 3 + 0];
        assert init[|init| - 2 + 1] == s[|s| - 3 + 1];
      }
    }
  }

  /** What one more call tells about the bytes fed so far. */
  lemma FeedFacts(n: nat, fed: seq<byte>, b: byte)
    requires n == HeaderSentry || n == StuffingSentry
    ensures var (count, hit) := Step(n, CountAfter(n, fed), b);
      && CountAfter(n, fed + [b]) == count
      && Fires(n, fed + [b]) == hit
      && (hit ==> EndsWithHeader(fed + [b], n))
      && (n == StuffingSentry ==> (hit <==> EndsWithHeader(fed + [b], n)))
  {
    RunSnoc(n, fed, b);
    SentrySound(n, fed + [b]);
    if n == StuffingSentry {
      StuffingSentryExact(fed + [b]);
    }
  }

  /** A sentry object: the counter of `sentry_impl<N>` together with the bytes
      it has been fed so far (the latter only for the specification). */
  class SentryImpl {
    const n: nat
    var count: nat
    ghost var fed: seq<byte>

    ghost predicate Valid()
      reads this
    {
      && (n == HeaderSentry || n == StuffingSentry)
      && count < n
      && count == CountAfter(n, fed)
    }

    /** A fresh sentry has matched nothing. */
    constructor (n: nat)
      requires n == HeaderSentry || n == StuffingSentry
      ensures Valid() && this.n == n && count == 0 && fed == []
    {
      this.n := n;
      count := 0;
      fed := [];
    }

    /** `operator()`: count up the pattern and say whether it was just found. */
    method Feed(b: byte) returns (hit: bool)
      requires Valid()
      modifies this
      ensures Valid() && fed == old(fed) + [b]
      ensures (count, hit) == Step(n, old(count), b)
      ensures hit == Fires(n, fed)
      ensures hit ==> EndsWithHeader(fed, n)
      ensures n == StuffingSentry ==> (hit <==> EndsWithHeader(fed, n))
    {
      count := if Header[count] == b then count + 1
               else if b == 0xFF && count < 3 then count
               else 0;
      fed := fed + [b];
      if count == n {
        count := 0;
        hit := true;
      } else {
        hit := false;
      }
      FeedFacts(n, old(fed), b);
    }
  }
}

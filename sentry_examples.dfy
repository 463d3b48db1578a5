/** Worked sentry runs: the sequences of the library's sentry tests, and an
    input on which the full-header sentry, as written, misses a header.
    Each run is split into four-byte stretches, each one a lemma that starts
    from the state the earlier bytes leave. */
module SentryExamples {
  import opened Detail
  import opened Sentry

  /** Both header test sequences: bytes 0 to 3. */
  lemma HeaderTestsFrom0(p: seq<byte>)
    requires |p| == 0 && CountAfter(HeaderSentry, p) == 0
    requires FirePositions(HeaderSentry, p) == []
    ensures CountAfter(HeaderSentry, p + [0xFF, 0xFF, 0x00, 0xFF]) == 1
    ensures FirePositions(HeaderSentry, p + [0xFF, 0xFF, 0x00, 0xFF]) == []
  {
    var p0 := p;
    RunStep(HeaderSentry, p0, 0xFF, 0, [], 1, false); var p1 := p0 + [0xFF];
    RunStep(HeaderSentry, p1, 0xFF, 1, [], 2, false); var p2 := p1 + [0xFF];
    RunStep(HeaderSentry, p2, 0x00, 2, [], 0, false); var p3 := p2 + [0x00];
    RunStep(HeaderSentry, p3, 0xFF, 0, [], 1, false); var p4 := p3 + [0xFF];
    assert p4 == p + [0xFF, 0xFF, 0x00, 0xFF];
  }

  /** The single-header test sequence: bytes 4 to 7. */
  lemma SingleHeaderFrom4(p: seq<byte>)
    requires |p| == 4 && CountAfter(HeaderSentry, p) == 1
    requires FirePositions(HeaderSentry, p) == []
    ensures CountAfter(HeaderSentry, p + [0xFF, 0xFF, 0xFD, 0x00]) == 0
    ensures FirePositions(HeaderSentry, p + [0xFF, 0xFF, 0xFD, 0x00]) == [7]
  {
    var p0 := p;
    RunStep(HeaderSentry, p0, 0xFF, 1, [], 2, false); var p1 := p0 + [0xFF];
    RunStep(HeaderSentry, p1, 0xFF, 2, [], 2, false); var p2 := p1 + [0xFF];
    RunStep(HeaderSentry, p2, 0xFD, 2, [], 3, false); var p3 := p2 + [0xFD];
    RunStep(HeaderSentry, p3, 0x00, 3, [], 0, true); var p4 := p3 + [0x00];
    assert p4 == p + [0xFF, 0xFF, 0xFD, 0x00];
  }

  /** The single-header test sequence: bytes 8 to 10. */
  lemma SingleHeaderFrom8(p: seq<byte>)
    requires |p| == 8 && CountAfter(HeaderSentry, p) == 0
    requires FirePositions(HeaderSentry, p) == [7]
    ensures CountAfter(HeaderSentry, p + [0xFF, 0xFD, 0xFF]) == 1
    ensures FirePositions(HeaderSentry, p + [0xFF, 0xFD, 0xFF]) == [7]
  {
    var p0 := p;
    RunStep(HeaderSentry, p0, 0xFF, 0, [7], 1, false); var p1 := p0 + [0xFF];
    RunStep(HeaderSentry, p1, 0xFD, 1, [7], 0, false); var p2 := p1 + [0xFD];
    RunStep(HeaderSentry, p2, 0xFF, 0, [7], 1, false); var p3 := p2 + [0xFF];
    assert p3 == p + [0xFF, 0xFD, 0xFF];
  }

  /** The full-header sentry fires on index 7 of the single-header test
      sequence, where FF FF FD 00 ends, and nowhere else. */
  lemma HeaderSentryDetectsHeader(s: seq<byte>)
    requires s == [0xFF, 0xFF, 0x00, 0xFF, 0xFF, 0xFF, 0xFD, 0x00, 0xFF, 0xFD, 0xFF]
    ensures FirePositions(HeaderSentry, s) == [7]
  {
    var p: seq<byte> := [];
    HeaderTestsFrom0(p);
    SingleHeaderFrom4(p + [0xFF, 0xFF, 0x00, 0xFF]);
    SingleHeaderFrom8(p + [0xFF, 0xFF, 0x00, 0xFF] + [0xFF, 0xFF, 0xFD, 0x00]);
    assert p + [0xFF, 0xFF, 0x00, 0xFF] + [0xFF, 0xFF, 0xFD, 0x00] + [0xFF, 0xFD, 0xFF] == s;
  }

  /** The multiple-header test sequence: bytes 4 to 7. */
  lemma MultipleHeadersFrom4(p: seq<byte>)
    requires |p| == 4 && CountAfter(HeaderSentry, p) == 1
    requires FirePositions(HeaderSentry, p) == []
    ensures CountAfter(HeaderSentry, p + [0xFF, 0xFF, 0xFD, 0xFF]) == 0
    ensures FirePositions(HeaderSentry, p + [0xFF, 0xFF, 0xFD, 0xFF]) == []
  {
    var p0 := p;
    RunStep(HeaderSentry, p0, 0xFF, 1, [], 2, false); var p1 := p0 + [0xFF];
    RunStep(HeaderSentry, p1, 0xFF, 2, [], 2, false); var p2 := p1 + [0xFF];
    RunStep(HeaderSentry, p2, 0xFD, 2, [], 3, false); var p3 := p2 + [0xFD];
    RunStep(HeaderSentry, p3, 0xFF, 3, [], 0, false); var p4 := p3 + [0xFF];
    assert p4 == p + [0xFF, 0xFF, 0xFD, 0xFF];
  }

  /** The multiple-header test sequence: bytes 8 to 11. */
  lemma MultipleHeadersFrom8(p: seq<byte>)
    requires |p| == 8 && CountAfter(HeaderSentry, p) == 0
    requires FirePositions(HeaderSentry, p) == []
    ensures CountAfter(HeaderSentry, p + [0xFF, 0xFF, 0xFD, 0x00]) == 0
    ensures FirePositions(HeaderSentry, p + [0xFF, 0xFF, 0xFD, 0x00]) == [11]
  {
    var p0 := p;
    RunStep(HeaderSentry, p0, 0xFF, 0, [], 1, false); var p1 := p0 + [0xFF];
    RunStep(HeaderSentry, p1, 0xFF, 1, [], 2, false); var p2 := p1 + [0xFF];
    RunStep(HeaderSentry, p2, 0xFD, 2, [], 3, false); var p3 := p2 + [0xFD];
    RunStep(HeaderSentry, p3, 0x00, 3, [], 0, true); var p4 := p3 + [0x00];
    assert p4 == p + [0xFF, 0xFF, 0xFD, 0x00];
  }

  /** The multiple-header test sequence: bytes 12 to 15. */
  lemma MultipleHeadersFrom12(p: seq<byte>)
    requires |p| == 12 && CountAfter(HeaderSentry, p) == 0
    requires FirePositions(HeaderSentry, p) == [11]
    ensures CountAfter(HeaderSentry, p + [0xFF, 0xFD, 0xFF, 0xFF]) == 2
    ensures FirePositions(HeaderSentry, p + [0xFF, 0xFD, 0xFF, 0xFF]) == [11]
  {
    var p0 := p;
    RunStep(HeaderSentry, p0, 0xFF, 0, [11], 1, false); var p1 := p0 + [0xFF];
    RunStep(HeaderSentry, p1, 0xFD, 1, [11], 0, false); var p2 := p1 + [0xFD];
    RunStep(HeaderSentry, p2, 0xFF, 0, [11], 1, false); var p3 := p2 + [0xFF];
    RunStep(HeaderSentry, p3, 0xFF, 1, [11], 2, false); var p4 := p3 + [0xFF];
    assert p4 == p + [0xFF, 0xFD, 0xFF, 0xFF];
  }

  /** The multiple-header test sequence: bytes 16 to 19. */
  lemma MultipleHeadersFrom16(p: seq<byte>)
    requires |p| == 16 && CountAfter(HeaderSentry, p) == 2
    requires FirePositions(HeaderSentry, p) == [11]
    ensures CountAfter(HeaderSentry, p + [0xFF, 0xFF, 0xFD, 0x00]) == 0
    ensures FirePositions(HeaderSentry, p + [0xFF, 0xFF, 0xFD, 0x00]) == [11, 19]
  {
    var p0 := p;
    RunStep(HeaderSentry, p0, 0xFF, 2, [11], 2, false); var p1 := p0 + [0xFF];
    RunStep(HeaderSentry, p1, 0xFF, 2, [11], 2, false); var p2 := p1 + [0xFF];
    RunStep(HeaderSentry, p2, 0xFD, 2, [11], 3, false); var p3 := p2 + [0xFD];
    RunStep(HeaderSentry, p3, 0x00, 3, [11], 0, true); var p4 := p3 + [0x00];
    assert p4 == p + [0xFF, 0xFF, 0xFD, 0x00];
  }

  /** The multiple-header test sequence: bytes 20 to 23. */
  lemma MultipleHeadersFrom20(p: seq<byte>)
    requires |p| == 20 && CountAfter(HeaderSentry, p) == 0
    requires FirePositions(HeaderSentry, p) == [11, 19]
    ensures CountAfter(HeaderSentry, p + [0xFF, 0xFF, 0xFF, 0xFD]) == 3
    ensures FirePositions(HeaderSentry, p + [0xFF, 0xFF, 0xFF, 0xFD]) == [11, 19]
  {
    var p0 := p;
    RunStep(HeaderSentry, p0, 0xFF, 0, [11, 19], 1, false); var p1 := p0 + [0xFF];
    RunStep(HeaderSentry, p1, 0xFF, 1, [11, 19], 2, false); var p2 := p1 + [0xFF];
    RunStep(HeaderSentry, p2, 0xFF, 2, [11, 19], 2, false); var p3 := p2 + [0xFF];
    RunStep(HeaderSentry, p3, 0xFD, 2, [11, 19], 3, false); var p4 := p3 + [0xFD];
    assert p4 == p + [0xFF, 0xFF, 0xFF, 0xFD];
  }

  /** The multiple-header test sequence: its first half. */
  lemma MultipleHeadersFirstHalf(p: seq<byte>)
    requires |p| == 0 && CountAfter(HeaderSentry, p) == 0
    requires FirePositions(HeaderSentry, p) == []
    ensures CountAfter(HeaderSentry, p + [0xFF, 0xFF, 0x00, 0xFF, 0xFF, 0xFF, 0xFD, 0xFF, 0xFF, 0xFF, 0xFD, 0x00]) == 0
    ensures FirePositions(HeaderSentry, p + [0xFF, 0xFF, 0x00, 0xFF, 0xFF, 0xFF, 0xFD, 0xFF, 0xFF, 0xFF, 0xFD, 0x00]) == [11]
  {
    HeaderTestsFrom0(p);
    MultipleHeadersFrom4(p + [0xFF, 0xFF, 0x00, 0xFF]);
    MultipleHeadersFrom8((p + [0xFF, 0xFF, 0x00, 0xFF]) + [0xFF, 0xFF, 0xFD, 0xFF]);
    assert ((p + [0xFF, 0xFF, 0x00, 0xFF]) + [0xFF, 0xFF, 0xFD, 0xFF]) + [0xFF, 0xFF, 0xFD, 0x00] == p + [0xFF, 0xFF, 0x00, 0xFF, 0xFF, 0xFF, 0xFD, 0xFF, 0xFF, 0xFF, 0xFD, 0x00];
  }

  /** The multiple-header test sequence: its second half. */
  lemma MultipleHeadersSecondHalf(p: seq<byte>)
    requires |p| == 12 && CountAfter(HeaderSentry, p) == 0
    requires FirePositions(HeaderSentry, p) == [11]
    ensures CountAfter(HeaderSentry, p + [0xFF, 0xFD, 0xFF, 0xFF, 0xFF, 0xFF, 0xFD, 0x00, 0xFF, 0xFF, 0xFF, 0xFD]) == 3
    ensures FirePositions(HeaderSentry, p + [0xFF, 0xFD, 0xFF, 0xFF, 0xFF, 0xFF, 0xFD, 0x00, 0xFF, 0xFF, 0xFF, 0xFD]) == [11, 19]
  {
    MultipleHeadersFrom12(p);
    MultipleHeadersFrom16(p + [0xFF, 0xFD, 0xFF, 0xFF]);
    MultipleHeadersFrom20((p + [0xFF, 0xFD, 0xFF, 0xFF]) + [0xFF, 0xFF, 0xFD, 0x00]);
    assert ((p + [0xFF, 0xFD, 0xFF, 0xFF]) + [0xFF, 0xFF, 0xFD, 0x00]) + [0xFF, 0xFF, 0xFF, 0xFD] == p + [0xFF, 0xFD, 0xFF, 0xFF, 0xFF, 0xFF, 0xFD, 0x00, 0xFF, 0xFF, 0xFF, 0xFD];
  }

  /** On the multiple-header test sequence the full-header sentry fires on
      indices 11 and 19 only; the FF FF FF FD at the end is left pending. */
  lemma HeaderSentryDetectsMultipleHeaders(s: seq<byte>)
    requires s == [0xFF, 0xFF, 0x00, 0xFF, 0xFF, 0xFF, 0xFD, 0xFF, 0xFF, 0xFF, 0xFD, 0x00, 0xFF, 0xFD, 0xFF, 0xFF, 0xFF, 0xFF, 0xFD, 0x00, 0xFF, 0xFF, 0xFF, 0xFD]
    ensures FirePositions(HeaderSentry, s) == [11, 19]
  {
    var p: seq<byte> := [];
    MultipleHeadersFirstHalf(p);
    MultipleHeadersSecondHalf(p + [0xFF, 0xFF, 0x00, 0xFF, 0xFF, 0xFF, 0xFD, 0xFF, 0xFF, 0xFF, 0xFD, 0x00]);
    assert p + [0xFF, 0xFF, 0x00, 0xFF, 0xFF, 0xFF, 0xFD, 0xFF, 0xFF, 0xFF, 0xFD, 0x00] + [0xFF, 0xFD, 0xFF, 0xFF, 0xFF, 0xFF, 0xFD, 0x00, 0xFF, 0xFF, 0xFF, 0xFD] == s;
  }

  /** The stuffing test sequence: bytes 0 to 3. */
  lemma StuffingFrom0(p: seq<byte>)
    requires |p| == 0 && CountAfter(StuffingSentry, p) == 0
    requires FirePositions(StuffingSentry, p) == []
    ensures CountAfter(StuffingSentry, p + [0xFF, 0xFF, 0x00, 0xFF]) == 1
    ensures FirePositions(StuffingSentry, p + [0xFF, 0xFF, 0x00, 0xFF]) == []
  {
    var p0 := p;
    RunStep(StuffingSentry, p0, 0xFF, 0, [], 1, false); var p1 := p0 + [0xFF];
    RunStep(StuffingSentry, p1, 0xFF, 1, [], 2, false); var p2 := p1 + [0xFF];
    RunStep(StuffingSentry, p2, 0x00, 2, [], 0, false); var p3 := p2 + [0x00];
    RunStep(StuffingSentry, p3, 0xFF, 0, [], 1, false); var p4 := p3 + [0xFF];
    assert p4 == p + [0xFF, 0xFF, 0x00, 0xFF];
  }

  /** The stuffing test sequence: bytes 4 to 7. */
  lemma StuffingFrom4(p: seq<byte>)
    requires |p| == 4 && CountAfter(StuffingSentry, p) == 1
    requires FirePositions(StuffingSentry, p) == []
    ensures CountAfter(StuffingSentry, p + [0xFF, 0xFF, 0xFD, 0xFD]) == 0
    ensures FirePositions(StuffingSentry, p + [0xFF, 0xFF, 0xFD, 0xFD]) == [6]
  {
    var p0 := p;
    RunStep(StuffingSentry, p0, 0xFF, 1, [], 2, false); var p1 := p0 + [0xFF];
    RunStep(StuffingSentry, p1, 0xFF, 2, [], 2, false); var p2 := p1 + [0xFF];
    RunStep(StuffingSentry, p2, 0xFD, 2, [], 0, true); var p3 := p2 + [0xFD];
    RunStep(StuffingSentry, p3, 0xFD, 0, [6], 0, false); var p4 := p3 + [0xFD];
    assert p4 == p + [0xFF, 0xFF, 0xFD, 0xFD];
  }

  /** The stuffing test sequence: bytes 8 to 10. */
  lemma StuffingFrom8(p: seq<byte>)
    requires |p| == 8 && CountAfter(StuffingSentry, p) == 0
    requires FirePositions(StuffingSentry, p) == [6]
    ensures CountAfter(StuffingSentry, p + [0xFF, 0xFD, 0xFF]) == 1
    ensures FirePositions(StuffingSentry, p + [0xFF, 0xFD, 0xFF]) == [6]
  {
    var p0 := p;
    RunStep(StuffingSentry, p0, 0xFF, 0, [6], 1, false); var p1 := p0 + [0xFF];
    RunStep(StuffingSentry, p1, 0xFD, 1, [6], 0, false); var p2 := p1 + [0xFD];
    RunStep(StuffingSentry, p2, 0xFF, 0, [6], 1, false); var p3 := p2 + [0xFF];
    assert p3 == p + [0xFF, 0xFD, 0xFF];
  }

  /** The stuffing sentry fires on index 6 of its test sequence, where the
      first FF FF FD ends, and nowhere else. */
  lemma StuffingSentryDetectsStuffing(s: seq<byte>)
    requires s == [0xFF, 0xFF, 0x00, 0xFF, 0xFF, 0xFF, 0xFD, 0xFD, 0xFF, 0xFD, 0xFF]
    ensures FirePositions(StuffingSentry, s) == [6]
  {
    var p: seq<byte> := [];
    StuffingFrom0(p);
    StuffingFrom4(p + [0xFF, 0xFF, 0x00, 0xFF]);
    StuffingFrom8(p + [0xFF, 0xFF, 0x00, 0xFF] + [0xFF, 0xFF, 0xFD, 0xFD]);
    assert p + [0xFF, 0xFF, 0x00, 0xFF] + [0xFF, 0xFF, 0xFD, 0xFD] + [0xFF, 0xFD, 0xFF] == s;
  }

  /** A header that overlaps an earlier FF FF FD: bytes 0 to 3. */
  lemma OverlapFrom0(p: seq<byte>)
    requires |p| == 0 && CountAfter(HeaderSentry, p) == 0
    requires FirePositions(HeaderSentry, p) == []
    ensures CountAfter(HeaderSentry, p + [0xFF, 0xFF, 0xFD, 0xFF]) == 0
    ensures FirePositions(HeaderSentry, p + [0xFF, 0xFF, 0xFD, 0xFF]) == []
  {
    var p0 := p;
    RunStep(HeaderSentry, p0, 0xFF, 0, [], 1, false); var p1 := p0 + [0xFF];
    RunStep(HeaderSentry, p1, 0xFF, 1, [], 2, false); var p2 := p1 + [0xFF];
    RunStep(HeaderSentry, p2, 0xFD, 2, [], 3, false); var p3 := p2 + [0xFD];
    RunStep(HeaderSentry, p3, 0xFF, 3, [], 0, false); var p4 := p3 + [0xFF];
    assert p4 == p + [0xFF, 0xFF, 0xFD, 0xFF];
  }

  /** A header that overlaps an earlier FF FF FD: bytes 4 to 6. */
  lemma OverlapFrom4(p: seq<byte>)
    requires |p| == 4 && CountAfter(HeaderSentry, p) == 0
    requires FirePositions(HeaderSentry, p) == []
    ensures CountAfter(HeaderSentry, p + [0xFF, 0xFD, 0x00]) == 0
    ensures FirePositions(HeaderSentry, p + [0xFF, 0xFD, 0x00]) == []
  {
    var p0 := p;
    RunStep(HeaderSentry, p0, 0xFF, 0, [], 1, false); var p1 := p0 + [0xFF];
    RunStep(HeaderSentry, p1, 0xFD, 1, [], 0, false); var p2 := p1 + [0xFD];
    RunStep(HeaderSentry, p2, 0x00, 0, [], 0, false); var p3 := p2 + [0x00];
    assert p3 == p + [0xFF, 0xFD, 0x00];
  }

  /** The full-header sentry is sound but not complete: after FF FF FD its
      count is 3, so a following FF resets it to 0 instead of 1, and the
      header that starts on that FF goes unnoticed. */
  lemma HeaderSentryMissesOverlappingHeader(s: seq<byte>)
    requires s == [0xFF, 0xFF, 0xFD, 0xFF, 0xFF, 0xFD, 0x00]
    ensures EndsWithHeader(s, HeaderSentry)
    ensures FirePositions(HeaderSentry, s) == []
  {
    var p: seq<byte> := [];
    OverlapFrom0(p);
    OverlapFrom4(p + [0xFF, 0xFF, 0xFD, 0xFF]);
    assert p + [0xFF, 0xFF, 0xFD, 0xFF] + [0xFF, 0xFD, 0x00] == s;
  }

}

/**
 * The variable-width delta code of fragments.pos: every fragment's start
 * position is written as its distance from the previous fragment's start.
 * A distance below 65535 takes one 16-bit word; any other distance takes the
 * escape word 65535 followed by bits 32-47, 16-31 and 0-15 of the distance.
 * The decoder is the model's own partner of the encoder.
 */
module PositionCodec {
  import opened Words

  /** The word that announces a widened (four-word) record. */
  const Escape: Word16 := 65535

  /** `start - lastPos` in C++ `unsigned long` arithmetic. */
  function Delta(start: UInt64, lastPos: UInt64): (d: UInt64)
    ensures (lastPos + d) % Two64 == start
    ensures lastPos <= start ==> d == start - lastPos
  {
    if lastPos <= start then start - lastPos else start - lastPos + Two64
  }

  /** The words written for one record; the source refuses distances of 2^48 or more. */
  function EncodeDelta(d: nat): (w: seq<Word16>)
    requires d < Two48
    ensures d < Escape ==> w == [d]
    ensures d >= Escape ==> |w| == 4 && w[0] == Escape && w[1] * Two32 + w[2] * Two16 + w[3] == d
  {
    if d < Escape then [d]
    else [Escape, d / Two32, (d / Two16) % Two16, d % Two16]
  }

  predicate Encodable(ds: seq<nat>)
  {
    forall k :: 0 <= k < |ds| ==> ds[k] < Two48
  }

  /** The whole fragments.pos stream for a sequence of distances, record after record. */
  function EncodeDeltas(ds: seq<nat>): seq<Word16>
    requires Encodable(ds)
  {
    if ds == [] then [] else EncodeDeltas(ds[..|ds| - 1]) + EncodeDelta(ds[|ds| - 1])
  }

  /** Reads records from the front; `None` when an escape word is not followed by three words. */
  function DecodeDeltas(w: seq<Word16>): Option<seq<nat>>
    decreases |w|
  {
    if w == [] then Some([])
    else if w[0] < Escape then
      match DecodeDeltas(w[1..])
      case None => None
      case Some(rest) => Some([w[0]] + rest)
    else if |w| < 4 then None
    else
      match DecodeDeltas(w[4..])
      case None => None
      case Some(rest) => Some([w[1] * Two32 + w[2] * Two16 + w[3]] + rest)
  }

  /** Number of widened records. */
  function Escapes(ds: seq<nat>): nat
  {
    if ds == [] then 0
    else Escapes(ds[..|ds| - 1]) + (if ds[|ds| - 1] >= Escape then 1 else 0)
  }

  /** The previous position, or `p0` before the first record. */
  function Last(s: seq<UInt64>, p0: UInt64): UInt64
  {
    if s == [] then p0 else s[|s| - 1]
  }

  /** The distances the encoder computes for a stream of start positions, starting from `p0`. */
  function DeltasOf(starts: seq<UInt64>, p0: UInt64): (ds: seq<UInt64>)
    ensures |ds| == |starts|
  {
    if starts == [] then []
    else
      var init := starts[..|starts| - 1];
      DeltasOf(init, p0) + [Delta(starts[|starts| - 1], Last(init, p0))]
  }

  /** The positions a reader reconstructs by adding distances in 64-bit arithmetic. */
  function Accumulate(ds: seq<nat>, p0: UInt64): (s: seq<UInt64>)
    ensures |s| == |ds|
  {
    if ds == [] then []
    else
      var prev := Accumulate(ds[..|ds| - 1], p0);
      prev + [(Last(prev, p0) + ds[|ds| - 1]) % Two64]
  }

  function EncodePositions(starts: seq<UInt64>, p0: UInt64): seq<Word16>
    requires Encodable(DeltasOf(starts, p0))
  {
    EncodeDeltas(DeltasOf(starts, p0))
  }

  function DecodePositions(w: seq<Word16>, p0: UInt64): Option<seq<UInt64>>
  {
    match DecodeDeltas(w)
    case None => None
    case Some(ds) => Some(Accumulate(ds, p0))
  }

  // ---------------------------------------------------------------- lemmas

  lemma EncodableConcat(a: seq<nat>, b: seq<nat>)
    requires Encodable(a) && Encodable(b)
    ensures Encodable(a + b)
  {
    forall k | 0 <= k < |a + b| ensures (a + b)[k] < Two48 {
      if k < |a| { assert (a + b)[k] == a[k]; } else { assert (a + b)[k] == b[k - |a|]; }
    }
  }

  lemma {:induction false} EncodeDeltasAppend(a: seq<nat>, b: seq<nat>)
    requires Encodable(a) && Encodable(b)
    ensures Encodable(a + b)
    ensures EncodeDeltas(a + b) == EncodeDeltas(a) + EncodeDeltas(b)
    decreases |b|
  {
    EncodableConcat(a, b);
    if b == [] {
      assert a + b == a;
    } else {
      var b', x := b[..|b| - 1], b[|b| - 1];
      var ab := a + b;
      assert ab[..|ab| - 1] == a + b' && ab[|ab| - 1] == x;
      EncodeDeltasAppend(a, b');
      calc {
        EncodeDeltas(ab);
        EncodeDeltas(a + b') + EncodeDelta(x);
        EncodeDeltas(a) + EncodeDeltas(b') + EncodeDelta(x);
        EncodeDeltas(a) + (EncodeDeltas(b') + EncodeDelta(x));
        EncodeDeltas(a) + EncodeDeltas(b);
      }
    }
  }

  /** Decoding a record followed by anything reads that record first. */
  lemma DecodeOneRecord(d: nat, w: seq<Word16>)
    requires d < Two48
    ensures DecodeDeltas(EncodeDelta(d) + w) ==
            match DecodeDeltas(w)
            case None => None
            case Some(rest) => Some([d] + rest)
  {
    var e := EncodeDelta(d);
    if d < Escape {
      assert (e + w)[1..] == w;
    } else {
      assert (e + w)[4..] == w;
    }
  }

  /** Decoding the encoding of any admissible distances gives them back. */
  lemma {:induction false} DeltasRoundTrip(ds: seq<nat>)
    requires Encodable(ds)
    ensures DecodeDeltas(EncodeDeltas(ds)) == Some(ds)
    decreases |ds|
  {
    if ds != [] {
      var rest := ds[1..];
      assert EncodeDeltas([ds[0]]) == EncodeDelta(ds[0]) by {
        assert [ds[0]][..0] == [];
      }
      EncodeDeltasAppend([ds[0]], rest);
      assert [ds[0]] + rest == ds;
      DeltasRoundTrip(rest);
      DecodeOneRecord(ds[0], EncodeDeltas(rest));
    }
  }

  /** Each widened record takes three extra words. */
  lemma {:induction false} EncodedLength(ds: seq<nat>)
    requires Encodable(ds)
    ensures |EncodeDeltas(ds)| == |ds| + 3 * Escapes(ds)
    decreases |ds|
  {
    if ds != [] {
      EncodedLength(ds[..|ds| - 1]);
    }
  }

  lemma {:induction false} AccumulateDeltas(starts: seq<UInt64>, p0: UInt64)
    ensures Accumulate(DeltasOf(starts, p0), p0) == starts
    decreases |starts|
  {
    if starts != [] {
      var init := starts[..|starts| - 1];
      var ds := DeltasOf(starts, p0);
      assert ds[..|ds| - 1] == DeltasOf(init, p0);
      AccumulateDeltas(init, p0);
      assert starts == init + [starts[|starts| - 1]];
    }
  }

  /** Decoding fragments.pos from the same starting position recovers every start position. */
  lemma PositionsRoundTrip(starts: seq<UInt64>, p0: UInt64)
    requires Encodable(DeltasOf(starts, p0))
    ensures DecodePositions(EncodePositions(starts, p0), p0) == Some(starts)
  {
    DeltasRoundTrip(DeltasOf(starts, p0));
    AccumulateDeltas(starts, p0);
  }

  /** The previous start position of record `k`. */
  function Prev(starts: seq<UInt64>, p0: UInt64, k: nat): UInt64
    requires k < |starts|
  {
    if k == 0 then p0 else starts[k - 1]
  }

  lemma {:induction false} DeltasOfAt(starts: seq<UInt64>, p0: UInt64, k: nat)
    requires k < |starts|
    ensures DeltasOf(starts, p0)[k] == Delta(starts[k], Prev(starts, p0, k))
    decreases |starts|
  {
    var init := starts[..|starts| - 1];
    if k < |init| {
      DeltasOfAt(init, p0, k);
    }
  }

  /** Start positions that never decrease, beginning at `p0`, with every gap below 2^48. */
  predicate SortedWithSmallGaps(starts: seq<UInt64>, p0: UInt64)
  {
    forall k :: 0 <= k < |starts| ==> Prev(starts, p0, k) <= starts[k] < Prev(starts, p0, k) + Two48
  }

  /**
   * For a non-decreasing stream every distance is the plain gap (no 64-bit
   * wrap-around), every record is admissible, and the round trip holds.
   */
  lemma SortedRoundTrip(starts: seq<UInt64>, p0: UInt64)
    requires SortedWithSmallGaps(starts, p0)
    ensures forall k :: 0 <= k < |starts| ==> DeltasOf(starts, p0)[k] == starts[k] - Prev(starts, p0, k)
    ensures Encodable(DeltasOf(starts, p0))
    ensures DecodePositions(EncodePositions(starts, p0), p0) == Some(starts)
  {
    forall k | 0 <= k < |starts|
      ensures DeltasOf(starts, p0)[k] == starts[k] - Prev(starts, p0, k)
    {
      DeltasOfAt(starts, p0, k);
    }
    PositionsRoundTrip(starts, p0);
  }

  /** The records at the 65535 boundary and at the widest admissible distance. */
  lemma BoundaryRecords()
    ensures EncodeDelta(0) == [0]
    ensures EncodeDelta(1) == [1]
    ensures EncodeDelta(65534) == [65534]
    ensures EncodeDelta(65535) == [Escape, 0, 0, 65535]
    ensures EncodeDelta(65536) == [Escape, 0, 1, 0]
    ensures EncodeDelta(Two48 / 2 - 1) == [Escape, 0x7FFF, 0xFFFF, 0xFFFF]
    ensures EncodeDelta(Two48 - 1) == [Escape, 0xFFFF, 0xFFFF, 0xFFFF]
  {
  }

  lemma {:induction false} DeltasOfAppend(a: seq<UInt64>, b: seq<UInt64>, p0: UInt64)
    ensures DeltasOf(a + b, p0) == DeltasOf(a, p0) + DeltasOf(b, Last(a, p0))
    decreases |b|
  {
    if b == [] {
      assert a + b == a;
    } else {
      var b' := b[..|b| - 1];
      DeltasOfAppend(a, b', p0);
      assert (a + b)[..|a + b| - 1] == a + b';
      assert Last(a + b', p0) == Last(b', Last(a, p0));
    }
  }

  lemma EncodableSplit(a: seq<nat>, b: seq<nat>)
    requires Encodable(a + b)
    ensures Encodable(a) && Encodable(b)
  {
    forall k | 0 <= k < |b| ensures b[k] < Two48 {
      assert b[k] == (a + b)[|a| + k];
    }
    forall k | 0 <= k < |a| ensures a[k] < Two48 {
      assert a[k] == (a + b)[k];
    }
  }

  /** Decoding `w` from word `offset` on, starting at position `at`, yields `rest`. */
  predicate ResumesAt(w: seq<Word16>, offset: nat, at: UInt64, rest: seq<UInt64>)
  {
    offset <= |w| && DecodePositions(w[offset..], at) == Some(rest)
  }

  /**
   * Random access: the records of the fragments after the first `n` begin
   * at word `n + 3 * escapes` of fragments.pos, and decoding from there,
   * starting at the `n`-th start position, yields the remaining positions.
   */
  lemma SeekAfter(starts: seq<UInt64>, p0: UInt64, n: nat)
    requires Encodable(DeltasOf(starts, p0))
    requires 0 < n <= |starts|
    ensures ResumesAt(EncodePositions(starts, p0), n + 3 * Escapes(DeltasOf(starts[..n], p0)), starts[n - 1], starts[n..])
  {
    var a, b := starts[..n], starts[n..];
    assert a + b == starts;
    DeltasOfAppend(a, b, p0);
    EncodableSplit(DeltasOf(a, p0), DeltasOf(b, Last(a, p0)));
    EncodeDeltasAppend(DeltasOf(a, p0), DeltasOf(b, Last(a, p0)));
    EncodedLength(DeltasOf(a, p0));
    var w := EncodePositions(starts, p0);
    var offset := n + 3 * Escapes(DeltasOf(a, p0));
    assert w[offset..] == EncodePositions(b, Last(a, p0));
    PositionsRoundTrip(b, Last(a, p0));
  }
}

/**
 * The six output streams of a fragment-allocation run, as functions of the
 * fragments emitted so far, and the encoder object that `run` drives one
 * fragment at a time.
 *
 *   fragments.pos        16-bit words: one delta record per fragment
 *   fragments.length     16-bit fragment lengths
 *   fragments.tile       16-bit tile indices
 *   fragments.stats      32-bit per-tile fragment counts, written at the end
 *   fragments.pos.index  64-bit header [1, 1000], then the start position of every 1000th fragment
 *   fragments.pos.shift  32-bit `shift` (extra words used so far) at every 1000th fragment
 */
module FragmentStreams {
  import opened Words
  import opened PositionCodec
  import opened Fragments

  const IndexVersion: UInt64 := 1
  const IndexInterval: UInt64 := 1000

  /** A per-tile counter may never reach this value. */
  const CountLimit: nat := 0xFFFF_FFFF

  function StartsOf(frags: seq<Fragment>): (s: seq<UInt64>)
    ensures |s| == |frags|
  {
    seq(|frags|, k requires 0 <= k < |frags| => frags[k].startPos)
  }

  function TilesOf(frags: seq<Fragment>): (s: seq<nat>)
    ensures |s| == |frags|
  {
    seq(|frags|, k requires 0 <= k < |frags| => frags[k].tile as nat)
  }

  /** The distances written to fragments.pos when the encoder starts at `p0`. */
  function DeltasFor(frags: seq<Fragment>, p0: UInt64): seq<UInt64>
  {
    DeltasOf(StartsOf(frags), p0)
  }

  /** Lengths and tiles fit 16 bits and every delta fits 48 bits: the encoder's assertions hold. */
  predicate Admissible(frags: seq<Fragment>, p0: UInt64)
  {
    && (forall k :: 0 <= k < |frags| ==> frags[k].length < Two16 && frags[k].tile < Two16)
    && Encodable(DeltasFor(frags, p0))
  }

  function PosStream(frags: seq<Fragment>, p0: UInt64): seq<Word16>
    requires Admissible(frags, p0)
  {
    EncodePositions(StartsOf(frags), p0)
  }

  function LengthStream(frags: seq<Fragment>): (s: seq<Word16>)
    requires forall k :: 0 <= k < |frags| ==> frags[k].length < Two16
    ensures |s| == |frags|
  {
    seq(|frags|, k requires 0 <= k < |frags| => frags[k].length)
  }

  function TileStream(frags: seq<Fragment>): (s: seq<Word16>)
    requires forall k :: 0 <= k < |frags| ==> frags[k].tile < Two16
    ensures |s| == |frags|
  {
    seq(|frags|, k requires 0 <= k < |frags| => frags[k].tile)
  }

  /** The `shift` counter: `s0` plus three per widened record, as an `unsigned int`. */
  function ShiftAfter(frags: seq<Fragment>, p0: UInt64, s0: UInt32): UInt32
  {
    (s0 + 3 * Escapes(DeltasFor(frags, p0))) % Two32
  }

  /** The start position recorded after every 1000th fragment. */
  function Checkpoints(frags: seq<Fragment>): seq<UInt64>
  {
    if frags == [] then []
    else
      Checkpoints(frags[..|frags| - 1]) +
      (if |frags| % IndexInterval == 0 then [frags[|frags| - 1].startPos] else [])
  }

  function IndexStream(frags: seq<Fragment>): seq<UInt64>
  {
    [IndexVersion, IndexInterval] + Checkpoints(frags)
  }

  /** The `shift` value recorded after every 1000th fragment. */
  function ShiftStream(frags: seq<Fragment>, p0: UInt64, s0: UInt32): seq<UInt32>
  {
    if frags == [] then []
    else
      ShiftStream(frags[..|frags| - 1], p0, s0) +
      (if |frags| % IndexInterval == 0 then [ShiftAfter(frags, p0, s0)] else [])
  }

  /** How many times `t` occurs. */
  function Count(tiles: seq<nat>, t: nat): nat
  {
    if tiles == [] then 0
    else Count(tiles[..|tiles| - 1], t) + (if tiles[|tiles| - 1] == t then 1 else 0)
  }

  /** fragments.stats: the number of fragments of every tile, in tile order. */
  function Histogram(frags: seq<Fragment>, tileCount: nat): (h: seq<nat>)
    ensures |h| == tileCount
  {
    seq(tileCount, t requires 0 <= t < tileCount => Count(TilesOf(frags), t))
  }

  /** The encoder's assertions, in the order the source checks them; `None` when all hold. */
  function Admit(f: Fragment, lastPos: UInt64, tileTotal: nat): (r: Option<Failure>)
    ensures r == None <==>
              f.length < Two16 && f.tile < Two16 && Delta(f.startPos, lastPos) < Two48 && tileTotal + 1 != CountLimit
  {
    if f.length >= Two16 then Some(LengthTooLarge)
    else if f.tile >= Two16 then Some(TileTooLarge)
    else if Delta(f.startPos, lastPos) >= Two48 then Some(DeltaTooLarge)
    else if tileTotal + 1 == CountLimit then Some(TileCountOverflow)
    else None
  }

  /** The encoder accepts every fragment of `frags`, one after the other. */
  predicate Acceptable(frags: seq<Fragment>, p0: UInt64, tileCount: nat)
  {
    && Admissible(frags, p0)
    && (forall k :: 0 <= k < |frags| ==> frags[k].tile < tileCount)
    && (forall t :: 0 <= t < tileCount ==> Histogram(frags, tileCount)[t] < CountLimit)
  }

  /**
   * The assertion that stops the encoder when it is handed `todo` after it
   * has written `done`, or `None` when it writes them all.
   */
  function FirstFailure(done: seq<Fragment>, todo: seq<Fragment>, p0: UInt64, tileCount: nat): (r: Option<Failure>)
    requires forall k :: 0 <= k < |todo| ==> todo[k].tile < tileCount
    ensures r.Some? ==> todo != [] && r.value in {LengthTooLarge, TileTooLarge, DeltaTooLarge, TileCountOverflow}
    decreases |todo|
  {
    if todo == [] then None
    else
      var f := todo[0];
      var failure := Admit(f, Last(StartsOf(done), p0), Histogram(done, tileCount)[f.tile]);
      if failure.Some? then failure else FirstFailure(done + [f], todo[1..], p0, tileCount)
  }

  // ------------------------------------------------- one more fragment

  lemma PrefixOfSnoc<T>(s: seq<T>, x: T)
    ensures (s + [x])[..|s|] == s && (s + [x])[|s|] == x
  {
  }

  lemma StartsSnoc(frags: seq<Fragment>, f: Fragment, p0: UInt64)
    ensures StartsOf(frags + [f]) == StartsOf(frags) + [f.startPos]
    ensures Last(StartsOf(frags + [f]), p0) == f.startPos
    ensures DeltasFor(frags + [f], p0) == DeltasFor(frags, p0) + [Delta(f.startPos, Last(StartsOf(frags), p0))]
  {
    PrefixOfSnoc(frags, f);
    assert StartsOf(frags + [f]) == StartsOf(frags) + [f.startPos];
    PrefixOfSnoc(StartsOf(frags), f.startPos);
  }

  lemma EscapesSnoc(ds: seq<nat>, d: nat, s0: UInt32)
    ensures Escapes(ds + [d]) == Escapes(ds) + (if d >= Escape then 1 else 0)
    ensures (s0 + 3 * Escapes(ds + [d])) % Two32 ==
            if d < Escape then (s0 + 3 * Escapes(ds)) % Two32 else ((s0 + 3 * Escapes(ds)) % Two32 + 3) % Two32
  {
    PrefixOfSnoc(ds, d);
    ModAdd32(s0 + 3 * Escapes(ds), 3);
  }

  /** Appending an admitted fragment extends every stream by exactly its own records. */
  lemma StreamsSnoc(frags: seq<Fragment>, f: Fragment, p0: UInt64, s0: UInt32)
    requires Admissible(frags, p0)
    requires f.length < Two16 && f.tile < Two16
    requires Delta(f.startPos, Last(StartsOf(frags), p0)) < Two48
    ensures var d := Delta(f.startPos, Last(StartsOf(frags), p0));
            && Admissible(frags + [f], p0)
            && PosStream(frags + [f], p0) == PosStream(frags, p0) + EncodeDelta(d)
            && LengthStream(frags + [f]) == LengthStream(frags) + [f.length]
            && TileStream(frags + [f]) == TileStream(frags) + [f.tile]
            && Last(StartsOf(frags + [f]), p0) == f.startPos
            && ShiftAfter(frags + [f], p0, s0) ==
                 (if d < Escape then ShiftAfter(frags, p0, s0) else (ShiftAfter(frags, p0, s0) + 3) % Two32)
  {
    var frags' := frags + [f];
    var d := Delta(f.startPos, Last(StartsOf(frags), p0));
    var ds := DeltasFor(frags, p0);
    StartsSnoc(frags, f, p0);
    PrefixOfSnoc(ds, d);
    assert Encodable(ds + [d]);
    PrefixOfSnoc(frags, f);
    assert Admissible(frags', p0);
    assert LengthStream(frags') == LengthStream(frags) + [f.length];
    assert TileStream(frags') == TileStream(frags) + [f.tile];
    EscapesSnoc(ds, d, s0);
  }

  lemma CountSnoc(frags: seq<Fragment>, f: Fragment, t: nat)
    ensures Count(TilesOf(frags + [f]), t) == Count(TilesOf(frags), t) + (if f.tile == t then 1 else 0)
  {
    PrefixOfSnoc(frags, f);
    assert TilesOf(frags + [f]) == TilesOf(frags) + [f.tile as nat];
    PrefixOfSnoc(TilesOf(frags), f.tile as nat);
  }

  /** One more fragment adds one to the counter of its tile and to no other. */
  lemma HistogramSnoc(frags: seq<Fragment>, f: Fragment, tileCount: nat)
    requires f.tile < tileCount
    ensures Histogram(frags + [f], tileCount) ==
            Histogram(frags, tileCount)[f.tile := Histogram(frags, tileCount)[f.tile] + 1]
  {
    forall t | 0 <= t < tileCount
      ensures Histogram(frags + [f], tileCount)[t] ==
              Histogram(frags, tileCount)[f.tile := Histogram(frags, tileCount)[f.tile] + 1][t]
    {
      CountSnoc(frags, f, t);
    }
  }

  /** A checkpoint is written exactly when the fragment count reaches a multiple of 1000. */
  lemma CheckpointsSnoc(frags: seq<Fragment>, f: Fragment, p0: UInt64, s0: UInt32)
    ensures var due := (|frags| + 1) % IndexInterval == 0;
            && IndexStream(frags + [f]) == IndexStream(frags) + (if due then [f.startPos] else [])
            && ShiftStream(frags + [f], p0, s0) ==
                 ShiftStream(frags, p0, s0) + (if due then [ShiftAfter(frags + [f], p0, s0)] else [])
  {
    PrefixOfSnoc(frags, f);
  }

  /** `posDiff >> 32 < 65536` is the 48-bit bound. */
  lemma HighWordBound(x: nat)
    ensures x / Two32 < Two16 <==> x < Two48
  {
    var q, r := x / Two32, x % Two32;
    assert x == q * Two32 + r;
  }

  /**
   * One more fragment: the counter `indexCount` wraps to 0 exactly when the
   * count reaches a multiple of the interval, and that is when one more
   * checkpoint is due.
   */
  lemma CounterStep(n: nat)
    ensures (n + 1) % IndexInterval == if n % IndexInterval + 1 == IndexInterval then 0 else n % IndexInterval + 1
    ensures (n + 1) / IndexInterval == n / IndexInterval + (if (n + 1) % IndexInterval == 0 then 1 else 0)
  {
    var q, r := n / IndexInterval, n % IndexInterval;
    assert n == q * IndexInterval + r;
    if r + 1 == IndexInterval {
      assert n + 1 == (q + 1) * IndexInterval;
    } else {
      assert n + 1 == q * IndexInterval + (r + 1);
    }
  }

  /** The five streams written fragment by fragment; fragments.stats follows at the end. */
  datatype Streams = Streams(
    positions: seq<Word16>,  // fragments.pos
    lengths: seq<Word16>,    // fragments.length
    tiles: seq<Word16>,      // fragments.tile
    index: seq<UInt64>,      // fragments.pos.index
    shifts: seq<UInt32>)     // fragments.pos.shift

  /** What the fragments `frags` produce, for an encoder whose statics started at `p0` and `s0`. */
  function StreamsOf(frags: seq<Fragment>, p0: UInt64, s0: UInt32): Streams
    requires Admissible(frags, p0)
  {
    Streams(PosStream(frags, p0), LengthStream(frags), TileStream(frags), IndexStream(frags), ShiftStream(frags, p0, s0))
  }

  /** The encoder's variables hold what the fragments `frags` produce. */
  ghost predicate Encodes(frags: seq<Fragment>, p0: UInt64, s0: UInt32, tileCount: nat,
                          lastPos: UInt64, shift: UInt32, indexCount: nat, out: Streams, counts: seq<UInt32>)
  {
    && Admissible(frags, p0)
    && (forall k :: 0 <= k < |frags| ==> frags[k].tile < tileCount)
    && out == StreamsOf(frags, p0, s0)
    && lastPos == Last(StartsOf(frags), p0)
    && shift == ShiftAfter(frags, p0, s0)
    && indexCount == |frags| % IndexInterval
    && counts == Histogram(frags, tileCount)
    && (forall t :: 0 <= t < |counts| ==> counts[t] < CountLimit)
  }

  /** The fragments an encoder has written are acceptable. */
  lemma EncodesAcceptable(frags: seq<Fragment>, p0: UInt64, s0: UInt32, tileCount: nat,
                          lastPos: UInt64, shift: UInt32, indexCount: nat, out: Streams, counts: seq<UInt32>)
    requires Encodes(frags, p0, s0, tileCount, lastPos, shift, indexCount, out, counts)
    ensures Acceptable(frags, p0, tileCount)
  {
    forall t | 0 <= t < tileCount
      ensures Histogram(frags, tileCount)[t] < CountLimit
    {
      assert counts[t] < CountLimit;
    }
  }

  /** The streams after the records of one more fragment. */
  function Extend(out: Streams, f: Fragment, record: seq<Word16>, checkpoint: bool, shift: UInt32): Streams
    requires f.length < Two16 && f.tile < Two16
  {
    Streams(out.positions + record, out.lengths + [f.length], out.tiles + [f.tile],
            out.index + (if checkpoint then [f.startPos] else []),
            out.shifts + (if checkpoint then [shift] else []))
  }

  /** The streams of one more admitted fragment are the old streams extended by its records. */
  lemma StreamsOfSnoc(frags: seq<Fragment>, f: Fragment, p0: UInt64, s0: UInt32)
    requires Admissible(frags, p0)
    requires f.length < Two16 && f.tile < Two16
    requires Delta(f.startPos, Last(StartsOf(frags), p0)) < Two48
    ensures Admissible(frags + [f], p0)
    ensures StreamsOf(frags + [f], p0, s0) ==
            Extend(StreamsOf(frags, p0, s0), f, EncodeDelta(Delta(f.startPos, Last(StartsOf(frags), p0))),
                   (|frags| + 1) % IndexInterval == 0, ShiftAfter(frags + [f], p0, s0))
  {
    StreamsSnoc(frags, f, p0, s0);
    CheckpointsSnoc(frags, f, p0, s0);
  }

  /**
   * One turn of the loop body for an admitted fragment `f`: the encoder's
   * variables before (unprimed) and after (primed).
   */
  predicate Advanced(f: Fragment, lastPos: UInt64, shift: UInt32, indexCount: nat, out: Streams, counts: seq<UInt32>,
                     lastPos': UInt64, shift': UInt32, indexCount': nat, out': Streams, counts': seq<UInt32>)
  {
    && f.length < Two16 && f.tile < Two16 && Delta(f.startPos, lastPos) < Two48
    && f.tile < |counts| && counts[f.tile] + 1 < CountLimit
    && var d := Delta(f.startPos, lastPos);
       var due := indexCount + 1 == IndexInterval;
       && lastPos' == f.startPos
       && shift' == (if d < Escape then shift else (shift + 3) % Two32)
       && indexCount' == (if due then 0 else indexCount + 1)
       && out' == Extend(out, f, EncodeDelta(d), due, shift')
       && counts' == counts[f.tile := counts[f.tile] + 1]
  }

  /**
   * What one admitted fragment does to the encoder's variables (primed)
   * keeps them in step with the fragments.
   */
  lemma WriteStep(frags: seq<Fragment>, f: Fragment, p0: UInt64, s0: UInt32, tileCount: nat,
                  lastPos: UInt64, shift: UInt32, indexCount: nat, out: Streams, counts: seq<UInt32>,
                  lastPos': UInt64, shift': UInt32, indexCount': nat, out': Streams, counts': seq<UInt32>)
    requires Encodes(frags, p0, s0, tileCount, lastPos, shift, indexCount, out, counts)
    requires Advanced(f, lastPos, shift, indexCount, out, counts, lastPos', shift', indexCount', out', counts')
    ensures Encodes(frags + [f], p0, s0, tileCount, lastPos', shift', indexCount', out', counts')
  {
    StreamsSnoc(frags, f, p0, s0);
    StreamsOfSnoc(frags, f, p0, s0);
    HistogramSnoc(frags, f, tileCount);
    CounterStep(|frags|);
    var frags' := frags + [f];
    PrefixOfSnoc(frags, f);
    assert forall k :: 0 <= k < |frags'| ==> frags'[k].tile < tileCount;
  }

  // ------------------------------------------------------ the encoder

  /**
   * The state `run` keeps while it writes fragments: the function-static
   * `lastPos` and `shift`, the checkpoint counter `indexCount`, the per-tile
   * counters `tileReadCount`, and the streams written so far.  `firstLastPos`
   * and `firstShift` are the values the two statics held when the run began.
   */
  class FragmentStreamEncoder {
    const tileCount: nat
    const firstLastPos: UInt64
    const firstShift: UInt32

    var lastPos: UInt64
    var shift: UInt32
    var indexCount: nat
    var tileReadCount: array<UInt32>
    var out: Streams

    /** The fragments written so far. */
    ghost var fragments: seq<Fragment>

    ghost predicate Valid()
      reads this, tileReadCount
    {
      && tileReadCount.Length == tileCount
      && Encodes(fragments, firstLastPos, firstShift, tileCount, lastPos, shift, indexCount, out, tileReadCount[..])
    }

    /** Opening the streams: the index header is written, every tile counter is zero. */
    constructor (tileCount: nat, lastPos: UInt64, shift: UInt32)
      ensures Valid() && fresh(tileReadCount)
      ensures this.tileCount == tileCount && firstLastPos == lastPos && firstShift == shift
      ensures fragments == [] && this.lastPos == lastPos && this.shift == shift
      ensures out == Streams([], [], [], [IndexVersion, IndexInterval], [])
      ensures tileReadCount[..] == seq(tileCount, _ => 0)
    {
      this.tileCount := tileCount;
      firstLastPos, firstShift := lastPos, shift;
      this.lastPos, this.shift := lastPos, shift;
      indexCount := 0;
      tileReadCount := new UInt32[tileCount](_ => 0);
      out := Streams([], [], [], [IndexVersion, IndexInterval], []);
      fragments := [];
      new;
      forall t | 0 <= t < tileCount
        ensures tileReadCount[..][t] == Histogram([], tileCount)[t]
      {
      }
    }

    /**
     * The body of `run`'s loop for one fragment.  When an assertion of the
     * source fails the failure is reported and nothing is written.
     */
    method Append(f: Fragment) returns (failure: Option<Failure>)
      requires Valid()
      requires f.tile < tileCount
      modifies this, tileReadCount
      ensures Valid() && tileReadCount == old(tileReadCount)
      ensures failure == Admit(f, old(lastPos), old(tileReadCount[f.tile]))
      ensures failure.Some? ==> fragments == old(fragments) && unchanged(this) && unchanged(tileReadCount)
      ensures failure.None? ==>
                && fragments == old(fragments) + [f]
                && Advanced(f, old(lastPos), old(shift), old(indexCount), old(out), old(tileReadCount[..]),
                            lastPos, shift, indexCount, out, tileReadCount[..])
    {
      if f.length >= Two16 {
        return Some(LengthTooLarge);
      }
      if f.tile >= Two16 {
        return Some(TileTooLarge);
      }
      var posDiff := Delta(f.startPos, lastPos);
      var record: seq<Word16>;
      var widened := false;
      if posDiff < Escape {
        record := [posDiff];
      } else {
        var byte2 := posDiff / Two32;
        var byte1 := (posDiff / Two16) % Two16;
        var byte0 := posDiff % Two16;
        HighWordBound(posDiff);
        if byte2 >= Two16 {
          return Some(DeltaTooLarge);
        }
        record := [Escape, byte2, byte1, byte0];
        widened := true;
      }
      if tileReadCount[f.tile] as int + 1 == CountLimit {
        return Some(TileCountOverflow);
      }
      failure := None;
      Write(f, record, widened);
    }

    /** The writes of one fragment that passed the assertions. */
    method Write(f: Fragment, record: seq<Word16>, widened: bool)
      requires Valid()
      requires f.tile < tileCount
      requires Admit(f, lastPos, tileReadCount[f.tile]) == None
      requires record == EncodeDelta(Delta(f.startPos, lastPos))
      requires widened == (Delta(f.startPos, lastPos) >= Escape)
      modifies this, tileReadCount
      ensures Valid() && tileReadCount == old(tileReadCount)
      ensures fragments == old(fragments) + [f]
      ensures Advanced(f, old(lastPos), old(shift), old(indexCount), old(out), old(tileReadCount[..]),
                       lastPos, shift, indexCount, out, tileReadCount[..])
    {
      ghost var frags, last, counts := fragments, lastPos, tileReadCount[..];
      ghost var shift0, indexCount0, out0 := shift, indexCount, out;
      var shift' := if widened then (shift + 3) % Two32 else shift;
      var checkpoint := indexCount + 1 == IndexInterval;
      var indexCount' := if checkpoint then 0 else indexCount + 1;
      var out' := Extend(out, f, record, checkpoint, shift');

      tileReadCount[f.tile] := tileReadCount[f.tile] + 1;
      lastPos, shift, indexCount, out := f.startPos, shift', indexCount', out';
      fragments := fragments + [f];
      assert tileReadCount[..] == counts[f.tile := counts[f.tile] + 1];
      WriteStep(frags, f, firstLastPos, firstShift, tileCount, last, shift0, indexCount0, out0, counts,
                lastPos, shift, indexCount, out, tileReadCount[..]);
    }

    /** fragments.stats: the per-tile counters in tile order. */
    method Stats() returns (stats: seq<UInt32>)
      requires Valid()
      ensures stats == Histogram(fragments, tileCount)
    {
      stats := tileReadCount[..];
    }
  }
}

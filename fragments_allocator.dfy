/**
 * `FragmentsAllocator::run`: derive the random seed from the contig name,
 * select the contigs, open the fragment source, then draw fragments and
 * write them until the source is exhausted, and finally write the per-tile
 * counts.
 */
module FragmentsAllocator {
  import opened Words
  import opened Fragments
  import opened PositionCodec
  import opened FragmentStreams
  import opened StreamProperties
  import opened FragmentSource
  import opened RandomSeed
  import opened ContigSelection

  /** The options `run` reads. */
  datatype Options = Options(
    randomSeed: UInt32,
    contigName: CString,
    tileCount: nat,
    mergeExistingFragments: bool,
    tileAllocationMethod: TileAllocationMethod)

  /**
   * The function-static `lastPos` and `shift` of the write loop: they are
   * zero when the program starts and keep their values from one run to the
   * next.
   */
  class EncoderStatics {
    var lastPos: UInt64
    var shift: UInt32

    constructor ()
      ensures lastPos == 0 && shift == 0
    {
      lastPos, shift := 0, 0;
    }
  }

  datatype Outcome =
    | ContigAbsent                 // the requested contig does not exist: nothing is written
    | AlreadyGenerated             // merging, no fragment files to read, but fragments.done exists
    | Failed(failure: Failure)     // an assertion failed or an error was raised
    | Generated(streams: Streams, stats: seq<nat>, generatedCount: nat,
                lastPos: UInt64, shift: UInt32)  // the last two: what the statics are left holding

  /** The encoder accepts the empty sequence of fragments. */
  lemma NothingAcceptable(p0: UInt64, tileCount: nat)
    ensures Acceptable([], p0, tileCount)
  {
    assert forall t :: 0 <= t < tileCount ==> Histogram([], tileCount)[t] == 0;
  }

  /**
   * How the write loop ends once the encoder has written `done` and the
   * sources still hold `todo`: with the error a source raises, with the
   * first assertion that fails, or with every stream written.
   */
  function Finish(done: seq<Fragment>, todo: Result<seq<Fragment>, Failure>, p0: UInt64, s0: UInt32, tileCount: nat): (o: Outcome)
    requires Acceptable(done, p0, tileCount)
    requires todo.Success? ==> forall k :: 0 <= k < |todo.value| ==> todo.value[k].tile < tileCount
    ensures o.Generated? <==> todo.Success? && Acceptable(done + todo.value, p0, tileCount)
    ensures o.Generated? ==> Sum(o.stats) == o.generatedCount == |done| + |todo.value|
  {
    match todo
    case Failure(e) => Failed(e)
    case Success(t) =>
      FirstFailureAccepts(done, t, p0, tileCount);
      var failure := FirstFailure(done, t, p0, tileCount);
      if failure.Some? then Failed(failure.value)
      else
        var fs := done + t;
        HistogramTotal(fs, tileCount);
        Generated(StreamsOf(fs, p0, s0), Histogram(fs, tileCount), |fs|, Last(StartsOf(fs), p0), ShiftAfter(fs, p0, s0))
  }

  /**
   * A run that completes leaves fragments.pos decoding back to the start
   * positions of everything it wrote, a checkpoint per 1000 fragments, and
   * the static `lastPos` at the last start position written.
   */
  lemma GeneratedDecodes(done: seq<Fragment>, todo: Result<seq<Fragment>, Failure>, p0: UInt64, s0: UInt32, tileCount: nat)
    requires Acceptable(done, p0, tileCount)
    requires todo.Success? ==> forall k :: 0 <= k < |todo.value| ==> todo.value[k].tile < tileCount
    requires Finish(done, todo, p0, s0, tileCount).Generated?
    ensures var o, fs := Finish(done, todo, p0, s0, tileCount), done + todo.value;
            && DecodePositions(o.streams.positions, p0) == Some(StartsOf(fs))
            && |o.streams.index| == 2 + |fs| / IndexInterval && |o.streams.shifts| == |fs| / IndexInterval
            && o.lastPos == (if fs == [] then p0 else fs[|fs| - 1].startPos)
  {
    var fs := done + todo.value;
    PositionsRoundTrip(StartsOf(fs), p0);
    CheckpointCount(fs, p0, s0);
  }

  /** Handing the encoder one more fragment either stops the loop at its assertion or leaves the end unchanged. */
  lemma FinishStep(done: seq<Fragment>, f: Fragment, rest: seq<Fragment>, p0: UInt64, s0: UInt32, tileCount: nat)
    requires Acceptable(done, p0, tileCount)
    requires f.tile < tileCount && forall k :: 0 <= k < |rest| ==> rest[k].tile < tileCount
    ensures var failure := Admit(f, Last(StartsOf(done), p0), Histogram(done, tileCount)[f.tile]);
            && (failure.Some? ==> Finish(done, Success([f] + rest), p0, s0, tileCount) == Failed(failure.value))
            && (failure.None? ==>
                  && Acceptable(done + [f], p0, tileCount)
                  && Finish(done, Success([f] + rest), p0, s0, tileCount) == Finish(done + [f], Success(rest), p0, s0, tileCount))
  {
    AdmitStep(done, f, p0, tileCount);
    assert ([f] + rest)[0] == f && ([f] + rest)[1..] == rest;
    assert done + ([f] + rest) == (done + [f]) + rest;
  }

  /**
   * Whether a run gets as far as drawing and writing fragments: the contig
   * is present (or all contigs are used) and it is not a merge whose
   * fragment files are missing.
   */
  predicate WritesFragments(opts: Options, names: seq<CString>, lengths: seq<UInt64>, mergeSourceFound: bool)
    requires |names| == |lengths|
  {
    SelectedLengths(names, lengths, opts.contigName).Some? && !(opts.mergeExistingFragments && !mergeSourceFound)
  }

  /** What a whole run ends with. */
  function RunOutcome(opts: Options, names: seq<CString>, lengths: seq<UInt64>,
                      plan: Result<seq<Fragment>, Failure>, mergeSourceFound: bool, fragmentsDone: bool,
                      p0: UInt64, s0: UInt32): (o: Outcome)
    requires |names| == |lengths|
    requires WritesFragments(opts, names, lengths, mergeSourceFound) && plan.Success? ==>
               forall k :: 0 <= k < |plan.value| ==> plan.value[k].tile < opts.tileCount
    ensures o == ContigAbsent <==> opts.contigName != [] && opts.contigName !in names
    ensures var merging := (opts.contigName == [] || opts.contigName in names)
                           && opts.mergeExistingFragments && !mergeSourceFound;
            && (o == AlreadyGenerated <==> merging && fragmentsDone)
            && (merging && !fragmentsDone ==> o == Failed(MergeSourceMissing))
    ensures o.Generated? <==>
              && (opts.contigName == [] || opts.contigName in names)
              && !(opts.mergeExistingFragments && !mergeSourceFound)
              && plan.Success? && Acceptable(plan.value, p0, opts.tileCount)
  {
    if SelectedLengths(names, lengths, opts.contigName).None? then ContigAbsent
    else if opts.mergeExistingFragments && !mergeSourceFound then
      if fragmentsDone then AlreadyGenerated else Failed(MergeSourceMissing)
    else
      NothingAcceptable(p0, opts.tileCount);
      assert plan.Success? ==> [] + plan.value == plan.value;
      Finish([], plan, p0, s0, opts.tileCount)
  }

  /**
   * One turn of the `while (++i)` loop of `run`: fragment number `i` is
   * drawn; the loop is told to stop when it is invalid, and otherwise it
   * goes through the encoder.  `todo` is what the sources still hold.
   */
  method DrawAndWrite(s: DrawSettings, source: IntervalGenerator, reader: FragmentReader,
                      enc: FragmentStreamEncoder, i: nat, ghost todo: Result<seq<Fragment>, Failure>)
    returns (stop: bool, failure: Option<Failure>)
    requires source.Valid() && reader.Valid() && enc.Valid()
    requires enc.tileCount == s.tileCount
    requires TilesInRange(s.allocate, s.tileCount)
    requires forall k :: 0 <= k < |reader.fragments| ==> reader.fragments[k].tile < s.tileCount
    requires Plan(s, source.Rest(), reader.Rest(), i) == todo
    modifies source, reader, enc, enc.tileReadCount
    ensures source.Valid() && reader.Valid() && enc.Valid() && enc.tileReadCount == old(enc.tileReadCount)
    ensures Acceptable(old(enc.fragments), enc.firstLastPos, enc.tileCount)
    ensures var before := Finish(old(enc.fragments), todo, enc.firstLastPos, enc.firstShift, enc.tileCount);
            && (failure.Some? ==> before == Failed(failure.value))
            && (failure.None? && stop ==>
                  enc.fragments == old(enc.fragments) &&
                  before == Generated(enc.out, Histogram(enc.fragments, enc.tileCount), |enc.fragments|, enc.lastPos, enc.shift))
            && (failure.None? && !stop ==>
                  && |enc.fragments| == |old(enc.fragments)| + 1
                  && Acceptable(enc.fragments, enc.firstLastPos, enc.tileCount)
                  && Finish(enc.fragments, Plan(s, source.Rest(), reader.Rest(), i + 1),
                            enc.firstLastPos, enc.firstShift, enc.tileCount) == before
                  && source.next + reader.next > old(source.next + reader.next))
  {
    EncodesAcceptable(enc.fragments, enc.firstLastPos, enc.firstShift, enc.tileCount,
                      enc.lastPos, enc.shift, enc.indexCount, enc.out, enc.tileReadCount[..]);
    ghost var done := enc.fragments;
    var r := GetNextFragment(s, source, reader, i);
    if r.Failure? {
      return false, Some(r.error);
    }
    var f := r.value;
    if !IsValid(f) {
      assert done + [] == done;
      return true, None;
    }
    FinishStep(done, f, todo.value[1..], enc.firstLastPos, enc.firstShift, enc.tileCount);
    assert todo.value == [f] + todo.value[1..];
    assert enc.lastPos == Last(StartsOf(enc.fragments), enc.firstLastPos);
    assert enc.tileReadCount[f.tile] == Histogram(enc.fragments, enc.tileCount)[f.tile];
    stop := false;
    failure := enc.Append(f);
  }

  /**
   * The `while (++i)` loop of `run` and the final write of fragments.stats:
   * fragment number `i` is drawn, the loop stops at the first invalid one,
   * and every valid one goes through the encoder.
   */
  method Generate(s: DrawSettings, source: IntervalGenerator, reader: FragmentReader, p0: UInt64, s0: UInt32)
    returns (outcome: Outcome)
    requires source.Valid() && reader.Valid()
    requires TilesInRange(s.allocate, s.tileCount)
    requires forall k :: 0 <= k < |reader.fragments| ==> reader.fragments[k].tile < s.tileCount
    modifies source, reader
    ensures Acceptable([], p0, s.tileCount)
    ensures outcome == Finish([], old(Plan(s, source.Rest(), reader.Rest(), 1)), p0, s0, s.tileCount)
  {
    NothingAcceptable(p0, s.tileCount);
    ghost var end := Finish([], Plan(s, source.Rest(), reader.Rest(), 1), p0, s0, s.tileCount);
    var enc := new FragmentStreamEncoder(s.tileCount, p0, s0);
    var i: nat := 1;
    while true
      invariant source.Valid() && reader.Valid()
      invariant fresh(enc) && fresh(enc.tileReadCount)
      invariant enc.Valid()
      invariant enc.tileCount == s.tileCount && enc.firstLastPos == p0 && enc.firstShift == s0
      invariant i == |enc.fragments| + 1
      invariant Acceptable(enc.fragments, p0, s.tileCount)
      invariant Finish(enc.fragments, Plan(s, source.Rest(), reader.Rest(), i), p0, s0, s.tileCount) == end
      decreases |source.candidates| - source.next + |reader.fragments| - reader.next
    {
      ghost var todo := Plan(s, source.Rest(), reader.Rest(), i);
      ghost var done := enc.fragments;
      assert Finish(done, todo, p0, s0, s.tileCount) == end;
      var stop, failure := DrawAndWrite(s, source, reader, enc, i, todo);
      if failure.Some? {
        outcome := Failed(failure.value);
        assert outcome == end;
        return;
      }
      if stop {
        var stats := enc.Stats();
        outcome := Generated(enc.out, stats, i - 1, enc.lastPos, enc.shift);
        assert outcome == end;
        return;
      }
      i := i + 1;
    }
  }

  /**
   * `run`.  The candidate intervals, the GC filter, the tile allocators and
   * the stored fragments are inputs; `mergeSourceFound` says whether the
   * fragment files to merge could be opened and `fragmentsDone` whether
   * fragments.done exists; `fragmentCount` is the number of fragments asked
   * for.  The function statics are updated when the run completes.
   */
  method Run(opts: Options, names: seq<CString>, lengths: seq<UInt64>, fragmentCount: nat,
             discard: Interval -> bool, allocate: TileAllocator,
             source: IntervalGenerator, mergeSourceFound: bool, reader: FragmentReader, fragmentsDone: bool,
             statics: EncoderStatics)
    returns (seed: UInt32, totalSize: UInt64, outcome: Outcome)
    requires |names| == |lengths|
    requires source.Valid() && reader.Valid()
    requires WritesFragments(opts, names, lengths, mergeSourceFound) ==>
               && TilesInRange(allocate, opts.tileCount)
               && forall k :: 0 <= k < |reader.fragments| ==> reader.fragments[k].tile < opts.tileCount
    modifies source, reader, statics
    ensures seed == SeedFold(opts.randomSeed, opts.contigName)
    ensures var selected := SelectedLengths(names, lengths, opts.contigName);
            selected.Some? ==> totalSize == TotalSize(selected.value)
    ensures var s := DrawSettings(opts.mergeExistingFragments, opts.tileAllocationMethod, opts.tileCount,
                                  fragmentCount, discard, allocate);
            var plan := old(Plan(s, source.Rest(), reader.Rest(), 1));
            && outcome == RunOutcome(opts, names, lengths, plan, mergeSourceFound, fragmentsDone,
                                     old(statics.lastPos), old(statics.shift))
            && (outcome.Generated? ==> statics.lastPos == outcome.lastPos && statics.shift == outcome.shift)
            && (!outcome.Generated? ==> unchanged(statics))
  {
    seed := SetRandomSeed(opts.randomSeed, opts.contigName);
    totalSize := 0;
    var selected := SelectContigLengths(names, lengths, opts.contigName);
    if selected.None? {
      return seed, totalSize, ContigAbsent;
    }
    totalSize := TotalSize(selected.value);
    if opts.mergeExistingFragments && !mergeSourceFound {
      outcome := if fragmentsDone then AlreadyGenerated else Failed(MergeSourceMissing);
      return;
    }
    var s := DrawSettings(opts.mergeExistingFragments, opts.tileAllocationMethod, opts.tileCount,
                          fragmentCount, discard, allocate);
    outcome := Generate(s, source, reader, statics.lastPos, statics.shift);
    if outcome.Generated? {
      statics.lastPos, statics.shift := outcome.lastPos, outcome.shift;
    }
  }
}

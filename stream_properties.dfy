/**
 * What the six streams promise a reader: how many checkpoints there are and
 * what each holds, how long fragments.pos is, how a reader resumes decoding
 * at a checkpoint, and that the per-tile counters add up to the number of
 * fragments.
 */
module StreamProperties {
  import opened Words
  import opened PositionCodec
  import opened Fragments
  import opened FragmentStreams

  // ------------------------------------------------------- checkpoints

  /**
   * After n fragments fragments.pos.index holds the header [1, 1000] and
   * floor(n / 1000) checkpoints, and fragments.pos.shift as many entries:
   * a trailing partial block writes nothing.
   */
  lemma {:induction false} CheckpointCount(frags: seq<Fragment>, p0: UInt64, s0: UInt32)
    ensures |IndexStream(frags)| == 2 + |frags| / IndexInterval
    ensures IndexStream(frags)[..2] == [IndexVersion, IndexInterval]
    ensures |ShiftStream(frags, p0, s0)| == |frags| / IndexInterval
    decreases |frags|
  {
    if frags != [] {
      CheckpointCount(frags[..|frags| - 1], p0, s0);
      CounterStep(|frags| - 1);
    }
  }

  /** The checkpoints of the first `m` fragments are the first checkpoints of all of them. */
  lemma {:induction false} CheckpointsPrefix(frags: seq<Fragment>, p0: UInt64, s0: UInt32, m: nat)
    requires m <= |frags|
    ensures Checkpoints(frags[..m]) <= Checkpoints(frags)
    ensures ShiftStream(frags[..m], p0, s0) <= ShiftStream(frags, p0, s0)
    decreases |frags|
  {
    if m == |frags| {
      assert frags[..m] == frags;
    } else {
      var init := frags[..|frags| - 1];
      assert init[..m] == frags[..m];
      CheckpointsPrefix(init, p0, s0, m);
    }
  }

  /** Block k of 1000 fragments ends inside a sequence holding more than k whole blocks. */
  lemma BlockEnd(len: nat, k: nat)
    requires k < len / IndexInterval
    ensures IndexInterval * (k + 1) <= len
    ensures (IndexInterval * (k + 1) - 1) / IndexInterval == k && (IndexInterval * (k + 1)) % IndexInterval == 0
  {
    var n := IndexInterval * (k + 1);
    var q := len / IndexInterval;
    assert len == q * IndexInterval + len % IndexInterval;
    assert n <= q * IndexInterval;
    assert n - 1 == k * IndexInterval + (IndexInterval - 1);
    assert n == (k + 1) * IndexInterval + 0;
  }

  /**
   * Checkpoint k is written right after fragment 1000k + 999: its index
   * entry is that fragment's start position and its shift entry is the
   * value of `shift` at that moment.
   */
  lemma CheckpointAt(frags: seq<Fragment>, p0: UInt64, s0: UInt32, k: nat)
    requires k < |frags| / IndexInterval
    ensures IndexInterval * (k + 1) <= |frags|
    ensures |IndexStream(frags)| == 2 + |frags| / IndexInterval && |ShiftStream(frags, p0, s0)| == |frags| / IndexInterval
    ensures IndexStream(frags)[2 + k] == frags[IndexInterval * k + (IndexInterval - 1)].startPos
    ensures ShiftStream(frags, p0, s0)[k] == ShiftAfter(frags[..IndexInterval * (k + 1)], p0, s0)
  {
    var n := IndexInterval * (k + 1);
    BlockEnd(|frags|, k);
    var pre := frags[..n];
    CheckpointCount(frags, p0, s0);
    CheckpointsPrefix(frags, p0, s0, n);
    CheckpointCount(pre[..n - 1], p0, s0);
    assert Checkpoints(pre) == Checkpoints(pre[..n - 1]) + [frags[n - 1].startPos];
    assert ShiftStream(pre, p0, s0) == ShiftStream(pre[..n - 1], p0, s0) + [ShiftAfter(pre, p0, s0)];
  }

  // ------------------------------------------------------ fragments.pos

  lemma {:induction false} EscapesAppend(a: seq<nat>, b: seq<nat>)
    ensures Escapes(a + b) == Escapes(a) + Escapes(b)
    decreases |b|
  {
    if b == [] {
      assert a + b == a;
    } else {
      var b' := b[..|b| - 1];
      EscapesAppend(a, b');
      assert (a + b)[..|a + b| - 1] == a + b';
    }
  }

  /**
   * fragments.pos holds one word per fragment and three more per widened
   * record; with `shift` starting at 0 and not wrapped, the extra words are
   * exactly `shift`.
   */
  lemma PosStreamLength(frags: seq<Fragment>, p0: UInt64)
    requires Admissible(frags, p0)
    ensures |PosStream(frags, p0)| == |frags| + 3 * Escapes(DeltasFor(frags, p0))
    ensures |PosStream(frags, p0)| - |frags| < Two32 ==> ShiftAfter(frags, p0, 0) == |PosStream(frags, p0)| - |frags|
  {
    EncodedLength(DeltasFor(frags, p0));
  }

  /**
   * A reader can resume at checkpoint k: with `shift` starting at 0 and not
   * wrapped, the records after fragment 1000k + 999 begin at word
   * 1000(k + 1) + (shift entry k) of fragments.pos, and decoding from there,
   * starting at index entry k, yields the start positions of all later
   * fragments.
   */
  lemma SeekFromCheckpoint(frags: seq<Fragment>, p0: UInt64, k: nat)
    requires Admissible(frags, p0)
    requires 3 * Escapes(DeltasFor(frags, p0)) < Two32
    requires k < |frags| / IndexInterval
    ensures IndexInterval * (k + 1) <= |frags|
    ensures |IndexStream(frags)| == 2 + |frags| / IndexInterval && |ShiftStream(frags, p0, 0)| == |frags| / IndexInterval
    ensures ResumesAt(PosStream(frags, p0), IndexInterval * (k + 1) + ShiftStream(frags, p0, 0)[k],
                      IndexStream(frags)[2 + k], StartsOf(frags)[IndexInterval * (k + 1)..])
  {
    var n, starts := IndexInterval * (k + 1), StartsOf(frags);
    CheckpointEntries(frags, p0, k);
    SeekAfter(starts, p0, n);
    var w, offset, at := PosStream(frags, p0), n + ShiftStream(frags, p0, 0)[k], IndexStream(frags)[2 + k];
    assert w == EncodePositions(starts, p0);
    assert offset == n + 3 * Escapes(DeltasOf(starts[..n], p0));
    assert at == starts[n - 1];
    assert ResumesAt(w, offset, at, starts[n..]);
  }

  /** Checkpoint k, read off the start positions: the last start before it and the extra words up to it. */
  lemma CheckpointEntries(frags: seq<Fragment>, p0: UInt64, k: nat)
    requires 3 * Escapes(DeltasFor(frags, p0)) < Two32
    requires k < |frags| / IndexInterval
    ensures IndexInterval * (k + 1) <= |frags|
    ensures |IndexStream(frags)| == 2 + |frags| / IndexInterval && |ShiftStream(frags, p0, 0)| == |frags| / IndexInterval
    ensures ShiftStream(frags, p0, 0)[k] == 3 * Escapes(DeltasOf(StartsOf(frags)[..IndexInterval * (k + 1)], p0))
    ensures IndexStream(frags)[2 + k] == StartsOf(frags)[IndexInterval * (k + 1) - 1]
  {
    var n := IndexInterval * (k + 1);
    var starts := StartsOf(frags);
    CheckpointAt(frags, p0, 0, k);
    assert StartsOf(frags[..n]) == starts[..n];
    ShiftEntryIsEscapes(starts, p0, n);
  }

  /** Up to record `n`, `shift` (started at 0 and not wrapped) is the number of extra words. */
  lemma ShiftEntryIsEscapes(starts: seq<UInt64>, p0: UInt64, n: nat)
    requires n <= |starts|
    requires 3 * Escapes(DeltasOf(starts, p0)) < Two32
    ensures (3 * Escapes(DeltasOf(starts[..n], p0))) % Two32 == 3 * Escapes(DeltasOf(starts[..n], p0))
  {
    var a, b := starts[..n], starts[n..];
    assert a + b == starts;
    DeltasOfAppend(a, b, p0);
    EscapesAppend(DeltasOf(a, p0), DeltasOf(b, Last(a, p0)));
  }

  // ---------------------------------------------------- fragments.stats

  lemma {:induction false} SumIncrement(s: seq<nat>, i: nat)
    requires i < |s|
    ensures Sum(s[i := s[i] + 1]) == Sum(s) + 1
    decreases |s|
  {
    var s' := s[i := s[i] + 1];
    if i == |s| - 1 {
      assert s'[..|s'| - 1] == s[..|s| - 1];
    } else {
      assert s'[..|s'| - 1] == s[..|s| - 1][i := s[i] + 1];
      SumIncrement(s[..|s| - 1], i);
    }
  }

  lemma {:induction false} SumZero(s: seq<nat>)
    requires forall k :: 0 <= k < |s| ==> s[k] == 0
    ensures Sum(s) == 0
    decreases |s|
  {
    if s != [] {
      SumZero(s[..|s| - 1]);
    }
  }

  /** The counters of fragments.stats add up to the number of fragments written. */
  lemma {:induction false} HistogramTotal(frags: seq<Fragment>, tileCount: nat)
    requires forall k :: 0 <= k < |frags| ==> frags[k].tile < tileCount
    ensures Sum(Histogram(frags, tileCount)) == |frags|
    decreases |frags|
  {
    if frags == [] {
      SumZero(Histogram(frags, tileCount));
    } else {
      var init, f := frags[..|frags| - 1], frags[|frags| - 1];
      assert init + [f] == frags;
      HistogramTotal(init, tileCount);
      HistogramSnoc(init, f, tileCount);
      SumIncrement(Histogram(init, tileCount), f.tile as nat);
    }
  }

  // ------------------------------------------------- which fragments pass

  /** A fragment passes the encoder's assertions exactly when the fragments written so far stay acceptable with it. */
  lemma AdmitStep(done: seq<Fragment>, f: Fragment, p0: UInt64, tileCount: nat)
    requires Acceptable(done, p0, tileCount)
    requires f.tile < tileCount
    ensures Admit(f, Last(StartsOf(done), p0), Histogram(done, tileCount)[f.tile]) == None
            <==> Acceptable(done + [f], p0, tileCount)
  {
    var h := Histogram(done, tileCount);
    var all := done + [f];
    HistogramSnoc(done, f, tileCount);
    StartsSnoc(done, f, p0);
    PrefixOfSnoc(done, f);
    if Admit(f, Last(StartsOf(done), p0), h[f.tile]) == None {
      StreamsSnoc(done, f, p0, 0);
      assert forall k :: 0 <= k < |all| ==> all[k].tile < tileCount;
    }
    if Acceptable(all, p0, tileCount) {
      assert all[|done|] == f;
      var ds := DeltasFor(done, p0);
      PrefixOfSnoc(ds, Delta(f.startPos, Last(StartsOf(done), p0)));
      assert Histogram(all, tileCount)[f.tile] == h[f.tile] + 1;
    }
  }

  lemma {:induction false} CountPrefix(frags: seq<Fragment>, m: nat, t: nat)
    requires m <= |frags|
    ensures Count(TilesOf(frags[..m]), t) <= Count(TilesOf(frags), t)
    decreases |frags|
  {
    if m < |frags| {
      var init := frags[..|frags| - 1];
      assert init[..m] == frags[..m];
      assert init + [frags[|frags| - 1]] == frags;
      CountPrefix(init, m, t);
      CountSnoc(init, frags[|frags| - 1], t);
    } else {
      assert frags[..m] == frags;
    }
  }

  /** What the encoder accepts, it accepts fragment by fragment: every prefix is acceptable too. */
  lemma PrefixAcceptable(frags: seq<Fragment>, p0: UInt64, tileCount: nat, m: nat)
    requires Acceptable(frags, p0, tileCount)
    requires m <= |frags|
    ensures Acceptable(frags[..m], p0, tileCount)
  {
    var a, b := frags[..m], frags[m..];
    var starts := StartsOf(frags);
    assert StartsOf(a) == starts[..m] && StartsOf(b) == starts[m..];
    assert starts == starts[..m] + starts[m..];
    DeltasOfAppend(starts[..m], starts[m..], p0);
    EncodableSplit(DeltasOf(starts[..m], p0), DeltasOf(starts[m..], Last(starts[..m], p0)));
    forall t | 0 <= t < tileCount
      ensures Histogram(a, tileCount)[t] < CountLimit
    {
      assert Histogram(frags, tileCount)[t] < CountLimit;
      CountPrefix(frags, m, t);
    }
  }

  /**
   * Handed `todo` after an acceptable `done`, the encoder writes everything
   * exactly when `done + todo` is acceptable; otherwise it stops at an
   * assertion.
   */
  lemma {:induction false} FirstFailureAccepts(done: seq<Fragment>, todo: seq<Fragment>, p0: UInt64, tileCount: nat)
    requires Acceptable(done, p0, tileCount)
    requires forall k :: 0 <= k < |todo| ==> todo[k].tile < tileCount
    ensures FirstFailure(done, todo, p0, tileCount) == None <==> Acceptable(done + todo, p0, tileCount)
    decreases |todo|
  {
    if todo == [] {
      assert done + todo == done;
    } else {
      var f := todo[0];
      AdmitStep(done, f, p0, tileCount);
      assert (done + [f]) + todo[1..] == done + todo;
      if Admit(f, Last(StartsOf(done), p0), Histogram(done, tileCount)[f.tile]).Some? {
        if Acceptable(done + todo, p0, tileCount) {
          assert (done + todo)[..|done| + 1] == done + [f];
          PrefixAcceptable(done + todo, p0, tileCount, |done| + 1);
        }
      } else {
        FirstFailureAccepts(done + [f], todo[1..], p0, tileCount);
      }
    }
  }
}

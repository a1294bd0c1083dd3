/**
 * Where `run` gets its fragments from (`getNextFragment`): either drawn from
 * the interval generator, filtered by the GC-coverage fit and given a tile by
 * the configured tile allocator, or read back from existing fragment files
 * when merging.  The generator, the filter, the allocators and the reader
 * are not part of this model; they are inputs: a finite sequence of
 * candidates, a predicate and a function.
 */
module FragmentSource {
  import opened Words
  import opened Fragments

  /** `FragmentsAllocatorOptions::tileAllocationMethod`; `Unhandled` is any value no case of the switch names. */
  datatype TileAllocationMethod = Random | InSequence | Interleaved | Unhandled(code: int)

  /**
   * A tile allocator: the tile it gives fragment number `fragmentNum` (from 1)
   * of `fragmentCount` requested fragments when there are `tileCount` tiles.
   * The random and interleaved allocators keep hidden state (the C random
   * generator, a counter); the fragment number stands for that state here,
   * since each fragment number is allocated once per run.
   */
  type TileAllocator = (TileAllocationMethod, nat, nat, nat) -> UInt32

  /** Every allocator names an existing tile. */
  ghost predicate TilesInRange(allocate: TileAllocator, tileCount: nat)
  {
    forall m, n, c :: allocate(m, tileCount, n, c) < tileCount
  }

  /**
   * The interval generator: it yields its candidates in order and, once they
   * run out, `Interval(0, 0)`.  A candidate of length 0 means exhaustion.
   */
  class IntervalGenerator {
    const candidates: seq<Interval>
    var next: nat

    ghost predicate Valid()
      reads this
    {
      next <= |candidates|
    }

    /** The candidates not drawn yet. */
    ghost function Rest(): seq<Interval>
      reads this
      requires Valid()
    {
      candidates[next..]
    }

    constructor (candidates: seq<Interval>)
      ensures Valid() && this.candidates == candidates && next == 0
    {
      this.candidates := candidates;
      next := 0;
    }

    /** `getNext()`: the next candidate, or `Interval(0, 0)` after the last. */
    method GetNext() returns (c: Interval)
      requires Valid()
      modifies this
      ensures Valid()
      ensures old(Rest()) == [] ==> c == Interval(0, 0) && next == old(next)
      ensures old(Rest()) != [] ==> old(Rest()) == [c] + Rest() && next == old(next) + 1
    {
      if next < |candidates| {
        c := candidates[next];
        assert candidates[next..] == [c] + candidates[next + 1..];
        next := next + 1;
      } else {
        c := Interval(0, 0);
      }
    }
  }

  /** The reader of existing fragment files used when merging: the stored fragments, then invalid ones. */
  class FragmentReader {
    const fragments: seq<Fragment>
    var next: nat

    ghost predicate Valid()
      reads this
    {
      next <= |fragments|
    }

    ghost function Rest(): seq<Fragment>
      reads this
      requires Valid()
    {
      fragments[next..]
    }

    constructor (fragments: seq<Fragment>)
      ensures Valid() && this.fragments == fragments && next == 0
    {
      this.fragments := fragments;
      next := 0;
    }

    /** `getNext()`: the next stored fragment, or the invalid fragment after the last. */
    method GetNext() returns (f: Fragment)
      requires Valid()
      modifies this
      ensures Valid()
      ensures old(Rest()) == [] ==> f == InvalidFragment && next == old(next)
      ensures old(Rest()) != [] ==> old(Rest()) == [f] + Rest() && next == old(next) + 1
    {
      if next < |fragments| {
        f := fragments[next];
        assert fragments[next..] == [f] + fragments[next + 1..];
        next := next + 1;
      } else {
        f := InvalidFragment;
      }
    }
  }

  /**
   * The candidates the draw loop returns, in order: those the filter keeps,
   * up to the first candidate of length 0.
   */
  function Kept(cs: seq<Interval>, discard: Interval -> bool): (ks: seq<Interval>)
    ensures |ks| <= |cs|
    ensures forall j :: 0 <= j < |ks| ==> ks[j].length != 0 && !discard(ks[j])
  {
    if cs == [] || cs[0].length == 0 then []
    else if discard(cs[0]) then Kept(cs[1..], discard)
    else [cs[0]] + Kept(cs[1..], discard)
  }

  /** How many candidates the draw loop discards before it returns: every one of them has a length. */
  function Skipped(cs: seq<Interval>, discard: Interval -> bool): (j: nat)
    ensures j <= |cs|
    ensures forall i :: 0 <= i < j ==> cs[i].length != 0 && discard(cs[i])
    ensures j < |cs| ==> cs[j].length == 0 || !discard(cs[j])
  {
    if cs == [] || cs[0].length == 0 || !discard(cs[0]) then 0 else 1 + Skipped(cs[1..], discard)
  }

  /**
   * The draw loop returns the first candidate the filter keeps unless a
   * candidate of length 0 comes first, and the later calls go on after it:
   * nothing kept is skipped and nothing discarded is returned.
   */
  lemma {:induction false} KeptAfterSkipped(cs: seq<Interval>, discard: Interval -> bool)
    ensures var j := Skipped(cs, discard);
            Kept(cs, discard) == if j == |cs| || cs[j].length == 0 then [] else [cs[j]] + Kept(cs[j + 1..], discard)
    decreases |cs|
  {
    if cs != [] && cs[0].length != 0 && discard(cs[0]) {
      var tail := cs[1..];
      KeptAfterSkipped(tail, discard);
      var j := Skipped(tail, discard);
      if j < |tail| {
        assert cs[j + 1] == tail[j] && cs[j + 2..] == tail[j + 1..];
      }
    } else if cs != [] && cs[0].length != 0 {
      assert cs[0 + 1..] == cs[1..];
    }
  }

  /** The stored fragments the merge reader hands out before the first invalid one. */
  function ValidPrefix(fs: seq<Fragment>): (vs: seq<Fragment>)
    ensures vs <= fs
    ensures forall j :: 0 <= j < |vs| ==> IsValid(vs[j])
    ensures |vs| < |fs| ==> !IsValid(fs[|vs|])
  {
    if fs == [] || !IsValid(fs[0]) then [] else [fs[0]] + ValidPrefix(fs[1..])
  }

  /** The fragment made of a kept candidate and the tile the allocator gives it. */
  function Allocated(c: Interval, allocation: TileAllocationMethod, allocate: TileAllocator,
                     tileCount: nat, fragmentNum: nat, fragmentCount: nat): (f: Fragment)
    ensures f.startPos == c.start && f.length == c.length
    ensures TilesInRange(allocate, tileCount) ==> f.tile < tileCount
  {
    Fragment(c.start, c.length, allocate(allocation, tileCount, fragmentNum, fragmentCount))
  }

  /**
   * What `getNextFragment` reads besides its two sources: the options and
   * the collaborators that are not part of this model.
   */
  datatype DrawSettings = DrawSettings(
    merge: bool,                       // mergeExistingFragments
    allocation: TileAllocationMethod,  // tileAllocationMethod
    tileCount: nat,
    fragmentCount: nat,                // readCount, the number of fragments asked for
    discard: Interval -> bool,         // gcCoverageFit_.needsDiscarding
    allocate: TileAllocator)

  /** The kept candidates `ks` as fragments numbered from `fragmentNum`, each with its allocated tile. */
  function Drawn(s: DrawSettings, ks: seq<Interval>, fragmentNum: nat): (fs: seq<Fragment>)
    ensures |fs| == |ks|
  {
    seq(|ks|, j requires 0 <= j < |ks| => Allocated(ks[j], s.allocation, s.allocate, s.tileCount, fragmentNum + j, s.fragmentCount))
  }

  /**
   * Every fragment the remaining calls of `getNextFragment` return, from
   * fragment number `fragmentNum` on, when the generator has `rest` left and
   * the reader `stored`; or the error one of them raises.
   */
  function Plan(s: DrawSettings, rest: seq<Interval>, stored: seq<Fragment>, fragmentNum: nat): (p: Result<seq<Fragment>, Failure>)
    ensures p.Success? ==> forall k :: 0 <= k < |p.value| ==> IsValid(p.value[k])
    ensures p.Failure? <==> !s.merge && s.allocation.Unhandled? && Kept(rest, s.discard) != []
    ensures p.Failure? ==> p.error == UnknownTileAllocationMethod
    ensures p.Success? && TilesInRange(s.allocate, s.tileCount) && (forall k :: 0 <= k < |stored| ==> stored[k].tile < s.tileCount)
            ==> forall k :: 0 <= k < |p.value| ==> p.value[k].tile < s.tileCount
  {
    if s.merge then Success(ValidPrefix(stored))
    else
      var ks := Kept(rest, s.discard);
      if ks != [] && s.allocation.Unhandled? then Failure(UnknownTileAllocationMethod)
      else Success(Drawn(s, ks, fragmentNum))
  }

  /**
   * `getNextFragment`.  Drawing: candidates are drawn until one is kept or
   * one has length 0; length 0 gives the invalid fragment, a kept candidate
   * gets its tile, and an unhandled allocation method is an error.
   * Merging: the reader's next fragment.
   */
  method GetNextFragment(s: DrawSettings, source: IntervalGenerator, reader: FragmentReader, fragmentNum: nat)
    returns (r: Result<Fragment, Failure>)
    requires source.Valid() && reader.Valid()
    modifies source, reader
    ensures source.Valid() && reader.Valid()
    ensures source.next >= old(source.next) && reader.next >= old(reader.next)
    ensures var p := old(Plan(s, source.Rest(), reader.Rest(), fragmentNum));
            && (p == Success([]) ==> r.Success? && !IsValid(r.value))
            && (p.Failure? ==> r == Failure(p.error))
            && (p.Success? && p.value != [] ==>
                  && r == Success(p.value[0])
                  && Plan(s, source.Rest(), reader.Rest(), fragmentNum + 1) == Success(p.value[1..])
                  && source.next + reader.next > old(source.next + reader.next))
  {
    if !s.merge {
      ghost var ks := Kept(source.Rest(), s.discard);
      ghost var start := source.next;
      while true
        invariant source.Valid() && start <= source.next
        invariant unchanged(reader)
        invariant Kept(source.Rest(), s.discard) == ks
        decreases |source.candidates| - source.next
      {
        ghost var rest := source.Rest();
        var c := source.GetNext();
        if c.length == 0 {
          return Success(InvalidFragment);
        }
        if s.discard(c) {
          continue;
        }
        assert rest == [c] + source.Rest() && rest[1..] == source.Rest();
        match s.allocation
        case Unhandled(_) =>
          return Failure(UnknownTileAllocationMethod);
        case _ =>
          var f := Allocated(c, s.allocation, s.allocate, s.tileCount, fragmentNum, s.fragmentCount);
          assert Drawn(s, ks, fragmentNum)[1..] == Drawn(s, ks[1..], fragmentNum + 1);
          return Success(f);
      }
    } else {
      var f := reader.GetNext();
      return Success(f);
    }
  }
}

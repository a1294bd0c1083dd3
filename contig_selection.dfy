/**
 * Which contigs a run covers and how many bases they hold: the one contig
 * whose name is requested (the first of that name), or every contig when no
 * name is requested.
 */
module ContigSelection {
  import opened Words

  /** Index of the first contig called `name`, or `|names|` when there is none. */
  function FirstIndexOf(names: seq<CString>, name: CString): (k: nat)
    ensures k <= |names|
    ensures k < |names| ==> names[k] == name
    ensures forall j :: 0 <= j < k ==> names[j] != name
  {
    if names == [] then 0
    else if names[0] == name then 0
    else 1 + FirstIndexOf(names[1..], name)
  }

  /**
   * The lengths `run` goes on with, or `None` when the requested contig does
   * not exist and `run` returns without producing anything.
   */
  function SelectedLengths(names: seq<CString>, lengths: seq<UInt64>, contigName: CString): (r: Option<seq<UInt64>>)
    requires |names| == |lengths|
    ensures r.None? <==> contigName != [] && contigName !in names
    ensures contigName == [] ==> r == Some(lengths)
    ensures contigName != [] && r.Some? ==>
              var k := FirstIndexOf(names, contigName);
              k < |names| && names[k] == contigName && r.value == [lengths[k]]
  {
    if contigName == [] then Some(lengths)
    else
      var k := FirstIndexOf(names, contigName);
      if k == |names| then None else Some([lengths[k]])
  }

  /** The selection loop at the start of `run`. */
  method SelectContigLengths(names: seq<CString>, lengths: seq<UInt64>, contigName: CString)
    returns (selected: Option<seq<UInt64>>)
    requires |names| == |lengths|
    ensures selected == SelectedLengths(names, lengths, contigName)
  {
    if contigName != [] {
      var contigLengths: seq<UInt64> := [];
      var i := 0;
      while i < |names|
        invariant 0 <= i <= |names|
        invariant contigLengths == [] && forall j :: 0 <= j < i ==> names[j] != contigName
      {
        if names[i] == contigName {
          contigLengths := contigLengths + [lengths[i]];
          break;
        }
        i := i + 1;
      }
      if contigLengths == [] {
        assert FirstIndexOf(names, contigName) == |names|;
        selected := None;
        return;
      }
      assert i < |names| && names[i] == contigName && contigLengths == [lengths[i]];
      selected := Some(contigLengths);
      assert FirstIndexOf(names, contigName) == i;
    } else {
      selected := Some(lengths);
    }
  }

  /**
   * `std::accumulate(..., 0ul)`: a left fold of `unsigned long` additions,
   * which is the sum of the lengths reduced modulo 2^64.
   */
  function TotalSize(lengths: seq<UInt64>): (total: UInt64)
    ensures total == Sum(lengths) % Two64
    ensures Sum(lengths) < Two64 ==> total == Sum(lengths)
    decreases |lengths|
  {
    if lengths == [] then 0
    else
      var init := lengths[..|lengths| - 1];
      ModAdd64(Sum(init), lengths[|lengths| - 1]);
      (TotalSize(init) + lengths[|lengths| - 1]) % Two64
  }
}

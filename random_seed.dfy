/**
 * Per-contig random seed: the option seed is mixed with every character of
 * the contig name, `seed := seed * c + 1`, in `unsigned int` arithmetic.
 */
module RandomSeed {
  import opened Words

  /**
   * `randomSeed *= c; ++randomSeed;` with the C conversions: `c` becomes
   * `unsigned int` first, so a negative character counts as `c + 2^32`;
   * the result is the affine map `seed * c + 1` modulo 2^32 all the same.
   */
  function Step(seed: UInt32, c: CChar): (next: UInt32)
    ensures next == (seed * c + 1) % Two32
  {
    var product := (seed * (c % Two32)) % Two32;
    AffineStep(seed, c);
    (product + 1) % Two32
  }

  /** The seed after mixing in the whole name, character by character from the left. */
  function SeedFold(seed: UInt32, name: seq<CChar>): UInt32
  {
    if name == [] then seed else Step(SeedFold(seed, name[..|name| - 1]), name[|name| - 1])
  }

  /** The loop of `setRandomSeed`: the value it hands to `srand`. */
  method SetRandomSeed(optionSeed: UInt32, contigName: CString) returns (randomSeed: UInt32)
    ensures randomSeed == SeedFold(optionSeed, contigName)
  {
    randomSeed := optionSeed;
    for i := 0 to |contigName|
      invariant randomSeed == SeedFold(optionSeed, contigName[..i])
    {
      var c := contigName[i];
      randomSeed := (randomSeed * (c % Two32)) % Two32;
      randomSeed := (randomSeed + 1) % Two32;
      assert contigName[..i + 1][..i] == contigName[..i];
    }
    assert contigName[..|contigName|] == contigName;
  }

  /** Converting `c` to `unsigned int` before multiplying changes nothing modulo 2^32. */
  lemma AffineStep(seed: UInt32, c: CChar)
    ensures ((seed * (c % Two32)) % Two32 + 1) % Two32 == (seed * c + 1) % Two32
  {
    var x := seed * c;
    if c < 0 {
      assert c % Two32 == c + Two32;
      assert seed * (c + Two32) == x + seed * Two32;
      ModAddMultiple(x, seed);
    }
    ModAdd32(x, 1);
    ModAdd32(seed * (c % Two32), 1);
  }

  lemma ModAddMultiple(x: int, k: nat)
    ensures (x + k * Two32) % Two32 == x % Two32
  {
    DivMod32(x + k * Two32, x / Two32 + k, x % Two32);
  }

  /** Mixing in a concatenated name is mixing in its parts one after the other. */
  lemma {:induction false} SeedFoldAppend(seed: UInt32, a: seq<CChar>, b: seq<CChar>)
    ensures SeedFold(seed, a + b) == SeedFold(SeedFold(seed, a), b)
    decreases |b|
  {
    if b == [] {
      assert a + b == a;
    } else {
      var b' := b[..|b| - 1];
      SeedFoldAppend(seed, a, b');
      assert (a + b)[..|a + b| - 1] == a + b';
    }
  }

  /**
   * The fold read from the left, as the source's loop walks the name: an
   * empty name leaves the option seed as it is; otherwise the first
   * character is mixed in first.
   */
  lemma SeedFoldLeft(seed: UInt32, name: seq<CChar>)
    ensures name == [] ==> SeedFold(seed, name) == seed
    ensures name != [] ==> SeedFold(seed, name) == SeedFold((seed * name[0] + 1) % Two32, name[1..])
  {
    if name != [] {
      assert [name[0]] + name[1..] == name;
      SeedFoldAppend(seed, [name[0]], name[1..]);
      assert [name[0]][..0] == [];
    }
  }

  /**
   * With option seed 0 the first character is forgotten: names that differ
   * only there are given the same seed.
   */
  lemma ZeroSeedForgetsFirstCharacter(c: CChar, rest: seq<CChar>)
    ensures SeedFold(0, [c] + rest) == SeedFold(1, rest)
  {
    var first := [c];
    assert first[..0] == [];
    assert Step(0, c) == 1;
    assert SeedFold(0, first) == 1;
    SeedFoldAppend(0, first, rest);
  }
}

/** The values that travel between the interval generator, the filters, the tile allocators and the encoder. */
module Fragments {
  import opened Words

  /** What the interval generator yields: a start position and a length; length 0 means exhausted. */
  datatype Interval = Interval(start: UInt64, length: UInt32)

  /** `FragmentWithAllocationMetadata`: start position, fragment length and allocated tile. */
  datatype Fragment = Fragment(startPos: UInt64, length: UInt32, tile: UInt32)

  /** A fragment is valid when it has a length. */
  predicate IsValid(f: Fragment)
  {
    f.length > 0
  }

  /** The default-constructed fragment `getNextFragment` returns once the candidates run out. */
  const InvalidFragment: Fragment := Fragment(0, 0, 0)

  /** The ways a run can stop with an error. */
  datatype Failure =
    | LengthTooLarge               // a fragment length of 65536 or more
    | TileTooLarge                 // a tile index of 65536 or more
    | DeltaTooLarge                // a position delta that needs more than 48 bits
    | TileCountOverflow            // a per-tile counter reaching 0xFFFFFFFF
    | UnknownTileAllocationMethod  // a tile-allocation option no branch handles
    | MergeSourceMissing           // no fragment files to merge and no fragments.done marker
}

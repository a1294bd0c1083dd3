# EAGLE fragment allocation, modelled in Dafny

EAGLE's `FragmentsAllocator::run` turns one contig, or the whole reference, into a set of
sequencing fragments. It proceeds in five steps:

1. It derives a per-contig random seed from the option seed and the contig name.
2. It selects the contig lengths and adds them up.
3. It draws fragments one at a time (`getNextFragment`) from an interval generator, filtered by
   the GC-coverage fit and given a tile by the configured tile allocator. When merging, it reads
   them back from existing fragment files instead.
4. It writes each fragment into five binary streams:
   - `fragments.pos` holds the start-position deltas. Each is one 16-bit word, or the escape word
     65535 followed by three words.
   - `fragments.length` holds the fragment lengths.
   - `fragments.tile` holds the tile indices.
   - `fragments.pos.index` holds a header, then a checkpoint every 1000 fragments.
   - `fragments.pos.shift` holds the extra words used so far, at every checkpoint.
5. Finally, it writes the per-tile counts to `fragments.stats`.

## How the model is organised

| Module | File | What it holds |
|---|---|---|
| `Words` | `words.dfy` | The C++ integer widths, `Option` and `Result`, and the sum of a sequence. |
| `PositionCodec` | `position_codec.dfy` | The delta code of `fragments.pos`, with a decoder as its partner. It carries the round trip and random access from any record boundary. |
| `RandomSeed` | `random_seed.dfy` | `setRandomSeed`: the loop and the left fold it computes. |
| `ContigSelection` | `contig_selection.dfy` | Contig selection and `totalSize`. |
| `Fragments` | `fragments.dfy` | The values passed between the stages, and the ways a run can fail. |
| `FragmentStreams` | `fragment_streams.dfy` | Every stream as a function of the fragments written so far. Also the class `FragmentStreamEncoder`, which holds the loop's state (the statics `lastPos` and `shift`, `indexCount`, `tileReadCount` and the streams) and updates it one fragment at a time. |
| `StreamProperties` | `stream_properties.dfy` | What a reader of the streams can rely on: where the checkpoints are, resuming decoding at a checkpoint, that the counts add up, and which fragment sequences the encoder accepts. |
| `FragmentSource` | `fragment_source.dfy` | `getNextFragment`'s draw loop, over an interval generator and a fragment reader that are objects. |
| `FragmentsAllocator` | `fragments_allocator.dfy` | `run`: the write loop, how it ends, and how the function statics carry over to the next run. |

### Arithmetic

- `posDiff` is computed in 64-bit unsigned arithmetic, modulo 2^64. The assertion `posDiff >> 32 < 65536` is shown to be exactly "the delta is below 2^48".
- `shift` is an `unsigned int`, so it wraps modulo 2^32.
- The seed is mixed in `unsigned int` arithmetic, with C++ `char` taken as signed.
- `totalSize` is an `unsigned long` sum, modulo 2^64.

### Assertions and errors

A failed `assert` is modelled as a `Failure` outcome, and so is an `EAGLE_ERROR`. Which failure
ends a run, if any, is stated exactly: `Finish`, `FirstFailure` and `FirstFailureAccepts`.

### Behaviour the proofs bring out

- With option seed 0 the first step always yields 1, so contigs whose names differ only in their first character get the same seed (`ZeroSeedForgetsFirstCharacter`).
- `lastPos` and `shift` are function statics. A second `run` in the same process encodes its first delta from the previous run's last start position, and its shift entries continue from the previous run's total (`Run`, `EncoderStatics`).

## Model

| member | source | states |
|---|---|---|
| PositionCodec.Delta | src/c++/lib/main/FragmentsAllocator.cpp:169 | adding the delta to `lastPos` modulo 2^64 gives back the start position; without wrap-around it is the plain difference |
| PositionCodec.EncodeDelta | src/c++/lib/main/FragmentsAllocator.cpp:182-196 | a delta below 65535 is one word; any other is the escape word and three words whose weighted value is the delta |
| PositionCodec.DeltasOf | src/c++/lib/main/FragmentsAllocator.cpp:167-181 | the `posDiff` of every fragment in turn, `lastPos` moving to each start: one delta per start |
| PositionCodec.DeltasOfAt | src/c++/lib/main/FragmentsAllocator.cpp:169 | delta `k` is the 64-bit unsigned difference between start `k` and the previous start, or the initial `lastPos` for the first |
| PositionCodec.DeltasRoundTrip | src/c++/lib/main/FragmentsAllocator.cpp:182-196 | decoding the words of any admissible delta sequence gives that sequence back |
| PositionCodec.EncodedLength | src/c++/lib/main/FragmentsAllocator.cpp:182-197 | the stream has one word per record plus three per widened record |
| PositionCodec.EncodeDeltasAppend | src/c++/lib/main/FragmentsAllocator.cpp:184-196 | the stream of two delta sequences is the concatenation of their streams |
| PositionCodec.AccumulateDeltas | src/c++/lib/main/FragmentsAllocator.cpp:167-181 | adding the computed deltas back onto the previous start, modulo 2^64, restores every start position |
| PositionCodec.PositionsRoundTrip | src/c++/lib/main/FragmentsAllocator.cpp:167-196 | decoding `fragments.pos` from the initial `lastPos`, adding modulo 2^64, gives the start positions back, for any order of starts |
| PositionCodec.SortedRoundTrip | src/c++/lib/main/FragmentsAllocator.cpp:169-196 | for non-decreasing starts with gaps below 2^48, every delta is the plain gap, every record is admissible, and the round trip holds |
| PositionCodec.BoundaryRecords | src/c++/lib/main/FragmentsAllocator.cpp:182-196 | the records at 0, 65534, 65535, 65536 and the largest admissible delta |
| PositionCodec.DeltasOfAppend | src/c++/lib/main/FragmentsAllocator.cpp:167-181 | the deltas of a concatenation continue from the last start of the first part |
| PositionCodec.SeekAfter | src/c++/lib/main/FragmentsAllocator.cpp:182-197 | after `n` records, decoding from word `n + 3 * escapes`, starting at the `n`-th start, gives all later starts |
| RandomSeed.SetRandomSeed | src/c++/lib/main/FragmentsAllocator.cpp:229-235 | the loop's seed is the left fold of `seed * c + 1` over the name |
| RandomSeed.Step | src/c++/lib/main/FragmentsAllocator.cpp:232-233 | one step, with `c` converted to `unsigned int` first, is `(seed * c + 1) mod 2^32`, also for negative `char`s |
| RandomSeed.SeedFold | src/c++/lib/main/FragmentsAllocator.cpp:230-234 | defines the seed after the whole name: the step applied to each character from the first to the last |
| RandomSeed.SeedFoldAppend | src/c++/lib/main/FragmentsAllocator.cpp:230-234 | the seed of a concatenated name is the second part folded onto the seed of the first |
| RandomSeed.SeedFoldLeft | src/c++/lib/main/FragmentsAllocator.cpp:229-234 | an empty name keeps the option seed; otherwise the first character is mixed in first |
| RandomSeed.ZeroSeedForgetsFirstCharacter | src/c++/lib/main/FragmentsAllocator.cpp:229-234 | with option seed 0, names that differ only in their first character get the same seed |
| ContigSelection.FirstIndexOf | src/c++/lib/main/FragmentsAllocator.cpp:63-70 | the index found is that of the first contig with the name, or the end when there is none |
| ContigSelection.SelectedLengths | src/c++/lib/main/FragmentsAllocator.cpp:60-84 | the run stops exactly when a name is given that no contig has; no name selects every length; a name selects the length of its first contig |
| ContigSelection.SelectContigLengths | src/c++/lib/main/FragmentsAllocator.cpp:60-84 | the selection loop computes `SelectedLengths` |
| ContigSelection.TotalSize | src/c++/lib/main/FragmentsAllocator.cpp:91 | `totalSize` is the sum of the lengths modulo 2^64, and exactly the sum when that is below 2^64 |
| FragmentStreams.Admit | src/c++/lib/main/FragmentsAllocator.cpp:179-202 | a fragment passes the loop body exactly when its length and tile fit 16 bits, its delta fits 48 bits and its tile counter does not reach 0xFFFFFFFF; the first failing check, in the source's order, is reported |
| FragmentStreams.FirstFailure | src/c++/lib/main/FragmentsAllocator.cpp:157-210 | the assertion that stops the loop when the encoder is handed `todo` after `done`: only a non-empty `todo` fails, always at one of the four assertions (see `FirstFailureAccepts` for exactly when) |
| FragmentStreams.StreamsSnoc | src/c++/lib/main/FragmentsAllocator.cpp:179-200 | an admitted fragment extends `fragments.pos` by its record and the length and tile streams by one word each; `shift` grows by 3 exactly for a widened record |
| FragmentStreams.HistogramSnoc | src/c++/lib/main/FragmentsAllocator.cpp:201 | one more fragment increments its tile's counter and no other |
| FragmentStreams.CheckpointsSnoc | src/c++/lib/main/FragmentsAllocator.cpp:204-209 | a checkpoint (start position and `shift`) is appended exactly when the fragment count reaches a multiple of 1000 |
| FragmentStreams.HighWordBound | src/c++/lib/main/FragmentsAllocator.cpp:189-192 | `posDiff >> 32 < 65536` holds exactly when `posDiff < 2^48` |
| FragmentStreams.CounterStep | src/c++/lib/main/FragmentsAllocator.cpp:204-208 | resetting `indexCount` at 1000 keeps it equal to the fragment count modulo 1000, and the reset happens exactly when the number of whole blocks of 1000, and so of checkpoints, goes up by one |
| FragmentStreams.StreamsOfSnoc | src/c++/lib/main/FragmentsAllocator.cpp:181-209 | the streams of one more admitted fragment are the old streams extended by its records and its checkpoint, if one is due |
| FragmentStreams.EncodesAcceptable | src/c++/lib/main/FragmentsAllocator.cpp:179-202 | everything the encoder has written passed all of its assertions |
| FragmentStreams.WriteStep | src/c++/lib/main/FragmentsAllocator.cpp:166-209 | the updates the loop body makes keep the encoder's variables equal to the streams, `lastPos`, `shift`, counter and histogram of the fragments written |
| FragmentStreams.FragmentStreamEncoder.constructor | src/c++/lib/main/FragmentsAllocator.cpp:95-153 | the streams are opened with the index header `[1, 1000]`, no records and every tile counter at 0 |
| FragmentStreams.FragmentStreamEncoder.Append | src/c++/lib/main/FragmentsAllocator.cpp:166-209 | the loop body: the first failing assertion, in the source's order, is reported and nothing changes; otherwise the new state is the old one plus the fragment's records, its counter step and its checkpoint |
| FragmentStreams.FragmentStreamEncoder.Write | src/c++/lib/main/FragmentsAllocator.cpp:181-209 | the writes of a fragment that passed the assertions, with the new state stated field by field |
| FragmentStreams.FragmentStreamEncoder.Stats | src/c++/lib/main/FragmentsAllocator.cpp:212 | `fragments.stats` is the number of written fragments per tile, in tile order |
| StreamProperties.CheckpointCount | src/c++/lib/main/FragmentsAllocator.cpp:149-209 | after `n` fragments, the index is `[1, 1000]` followed by `n / 1000` checkpoints, and the shift file has `n / 1000` entries |
| StreamProperties.CheckpointsPrefix | src/c++/lib/main/FragmentsAllocator.cpp:204-209 | the checkpoints of the first `m` fragments are a prefix of all checkpoints |
| StreamProperties.CheckpointAt | src/c++/lib/main/FragmentsAllocator.cpp:204-209 | checkpoint `k` holds the start of fragment `1000k + 999` and the value of `shift` right after it |
| StreamProperties.PosStreamLength | src/c++/lib/main/FragmentsAllocator.cpp:182-197 | `fragments.pos` has one word per fragment plus three per widened record; when `shift` starts at 0 and does not wrap, it is exactly that surplus |
| StreamProperties.CheckpointEntries | src/c++/lib/main/FragmentsAllocator.cpp:197-209 | with `shift` starting at 0 and not wrapped, shift entry `k` counts the extra words before fragment `1000(k + 1)`, and index entry `k` is the start before it |
| StreamProperties.SeekFromCheckpoint | src/c++/lib/main/FragmentsAllocator.cpp:204-209 | a reader can resume at any checkpoint: from word `1000(k + 1) + shift[k]`, starting at index entry `k`, decoding gives the starts of all later fragments |
| StreamProperties.HistogramTotal | src/c++/lib/main/FragmentsAllocator.cpp:201-215 | the counts in `fragments.stats` add up to the number of fragments written |
| StreamProperties.AdmitStep | src/c++/lib/main/FragmentsAllocator.cpp:179-202 | a fragment passes the encoder's assertions exactly when the fragments written, with it added, stay acceptable |
| StreamProperties.PrefixAcceptable | src/c++/lib/main/FragmentsAllocator.cpp:179-202 | every prefix of an acceptable fragment sequence is acceptable |
| StreamProperties.FirstFailureAccepts | src/c++/lib/main/FragmentsAllocator.cpp:157-210 | the write loop hits no assertion exactly when the whole fragment sequence is acceptable |
| FragmentSource.IntervalGenerator.GetNext | src/c++/lib/main/FragmentsAllocator.cpp:248-251 | the next candidate is consumed; once they run out, `(0, 0)` is returned and nothing moves |
| FragmentSource.FragmentReader.GetNext | src/c++/lib/main/FragmentsAllocator.cpp:280 | the next stored fragment is consumed; once they run out, the invalid fragment is returned |
| FragmentSource.Kept | src/c++/lib/main/FragmentsAllocator.cpp:246-259 | the candidates returned are never of length 0 and never discarded |
| FragmentSource.Skipped | src/c++/lib/main/FragmentsAllocator.cpp:255-259 | the candidates the draw loop discards before returning: all have a length and are flagged by the filter, and the one after them has length 0 or is kept |
| FragmentSource.KeptAfterSkipped | src/c++/lib/main/FragmentsAllocator.cpp:246-259 | the draw loop returns the candidate after the discarded ones, or nothing when that one has length 0 or the candidates run out, and the later calls continue after it |
| FragmentSource.ValidPrefix | src/c++/lib/main/FragmentsAllocator.cpp:280 | a merge hands out the stored fragments up to the first invalid one |
| FragmentSource.Allocated | src/c++/lib/main/FragmentsAllocator.cpp:253-271 | a fragment keeps its interval's start and length, and its tile lies in range when the allocator's does |
| FragmentSource.Plan | src/c++/lib/main/FragmentsAllocator.cpp:244-281 | every fragment the remaining calls return is valid; the draw fails exactly when not merging, the allocation method is unhandled and some candidate is kept, and then with the unknown-method error; tiles stay in range |
| FragmentSource.GetNextFragment | src/c++/lib/main/FragmentsAllocator.cpp:239-282 | the draw loop returns the first fragment of the plan and leaves the rest of the plan, or an invalid fragment once the plan is empty, or the plan's error |
| FragmentsAllocator.NothingAcceptable | src/c++/lib/main/FragmentsAllocator.cpp:95 | a fresh encoder, with every counter at 0, accepts nothing written yet |
| FragmentsAllocator.Finish | src/c++/lib/main/FragmentsAllocator.cpp:156-215 | a run completes exactly when the source raises no error and the fragments it yields are acceptable; the stats then add up to `generatedCount` |
| FragmentsAllocator.GeneratedDecodes | src/c++/lib/main/FragmentsAllocator.cpp:166-209 | a completed run's `fragments.pos` decodes to the start positions written; it has a checkpoint per 1000 fragments, and the static `lastPos` ends at the last start |
| FragmentsAllocator.RunOutcome | src/c++/lib/main/FragmentsAllocator.cpp:49-222 | a run produces nothing exactly when a contig name is given that no contig has; when merging without fragment files it stops as already generated exactly when fragments.done exists and fails otherwise; it completes exactly when neither happens and the fragments are acceptable |
| FragmentsAllocator.FinishStep | src/c++/lib/main/FragmentsAllocator.cpp:157-210 | one fragment either stops the loop at its assertion or leaves the run's end unchanged |
| FragmentsAllocator.DrawAndWrite | src/c++/lib/main/FragmentsAllocator.cpp:157-209 | one turn of the loop either ends it as `Finish` says or writes one fragment, keeping `Finish` of the rest unchanged |
| FragmentsAllocator.Generate | src/c++/lib/main/FragmentsAllocator.cpp:156-215 | the write loop ends as `Finish` says for the fragments the source yields |
| FragmentsAllocator.EncoderStatics.constructor | src/c++/lib/main/FragmentsAllocator.cpp:167-168 | the statics start at 0 |
| FragmentsAllocator.Run | src/c++/lib/main/FragmentsAllocator.cpp:49-222 | the seed, `totalSize` and outcome of a run; the statics carry the final `lastPos` and `shift` over to the next run and are untouched by a run that does not complete; tiles are required below `tileCount` only of runs that reach the write loop |

## Left out

- File I/O and byte layout: the streams are sequences of 16-, 32- and 64-bit values, with no file handles, host byte order or partial writes.
- `SharedFastaReference` is not part of this model. The contig names and lengths are inputs.
- Floating point is not modelled: `readCount`, the uniform-coverage `step`, `extendedReadCount` and the coverage-error warning at the end. `readCount` is an input (`fragmentCount`).
- `srand` and the C random generator are not modelled. `SetRandomSeed` returns the value handed to `srand`.
- Logging to `clog` is not modelled.
- The interval generators, the GC-coverage fit, the tile allocators and `MultiFragmentFilesReader` are not part of this model. They are inputs: a finite sequence of candidates, a discard predicate, an allocation function, and a finite sequence of stored fragments, plus whether the fragment files could be opened.
- `FragmentSource.TileAllocator`: the random and interleaved allocators keep hidden state. The model stands in for it with the fragment number, because each number is allocated once per run.
- The candidate sequence is finite, so the model does not cover a generator that never runs out.
- `run`'s counter `i` is an unbounded natural. `while (++i)` would stop when it wraps to 0, which needs 2^64 fragments.
- `FragmentStreams.FragmentStreamEncoder.Append`: when an assertion fails, the model reports the failure and writes nothing. The source may already have written the fragment's records or set `lastPos` before aborting. After an abort the process ends and nothing it wrote is used.
- FragmentsAllocator.Run: a tile at or above `tileCount` is not modelled. Below 65536 it would index `tileReadCount` (:95) out of bounds at :201, which is undefined behaviour in the source. At 65536 or more the assertion at :180 aborts first, and the model shows that abort only when `tileCount` exceeds 65536. Runs that reach the write loop are required to keep every tile below `tileCount`:
  - the tile allocators must return tiles below `tileCount` (`TilesInRange`);
  - every tile read back from the 16-bit fragments.tile file must be below `tileCount`; `Generate` requires this, and so does `Run`.
- FragmentsAllocator.Run: a run that reaches the write loop with `tileCount` 0 is not modelled, since no tile could then be in range. Runs that stop earlier (contig absent, merge source missing) are modelled for every `tileCount`.
- The assertions at :179-180 are modelled in `Admit`, `FragmentStreamEncoder.Append` and `FirstFailure`. With tiles below `tileCount`, a run ends in `TileTooLarge` only when `tileCount` exceeds 65536.
- Builds with `NDEBUG`, where the assertions vanish, are not modelled.

# Verified models of reffs: erasure codes, canonical codec, journals and crash-safe state

This project models the parts of reffs whose correctness is hardest to see by reading, and proves what they are for.
`dafny verify dfyconfig.toml` checks all of it. Nothing here runs the C program.

Four groups of modules, each building to a few main theorems.

**Mojette erasure code** (`Geometry`, `Katz`, `Phantoms`, `Reduction`, `Forward`, `Peel`, `Sweep`, `MojetteCode`).
A grid of 64-bit words is projected along directions (p, q) by XOR.
A set of pixels is *stuck* when every direction pairs each of its pixels with another; peeling stops exactly at a stuck set.
`KatzTheorem` says when a grid has none, for every direction list: the criterion of the code's check, applied to the list reduced
to its distinct line directions in lowest terms (`Reduced`, which a caller can compute), is necessary and sufficient. `InversePeel`
then succeeds if and only if that criterion holds. The geometry-driven sweep recovers every pixel in the order it reads them exactly
when rows that share a slope are far enough apart (`InverseGdSparse`), its order is then a peeling order (`SpacedIsPeelable`), and
`SurvivesLosses` runs encode, loss and decode for every k, m, row length, loss pattern, contents of the lost shards, instruction set
and choice of inverse.

**Reed-Solomon over GF(2^8)** (`Gf256`, `GfTables`, `Vectors`, `Matrix`, `Vandermonde`, `Mds`, `ReedSolomon`).
The field laws are derived from the table-building loop (one step multiplies by x; the step is XOR-linear; its orbit of 1 has length
255) and tied to polynomial multiplication. Gauss-Jordan inversion succeeds exactly on matrices with a trivial kernel.
Any k rows of each encoding matrix are independent, for one, two and more parity rows, so `ReedSolomon.Decode` restores all k + m
shards from any k of them. The code itself is fixed: XOR and the polynomial at 2 for one and two parity shards, and for more the one
matrix that evaluates the data's polynomial (`EvaluatesOnce`).

**Canonical codec and journal** (`Bytes`, `Codec`, `Cursors`, `Envelopes`, `EnvelopeCodec`, `CompleteResults`, `Golden`, `Digest`,
`Journal`). A `Put` writes a value in front of a tail, a `Get` reads one off the front; for every form Get undoes Put, and whatever
Get accepts is what Put writes. `DecodesExactly` lifts this to request envelopes, and the cursor methods that really move through a
buffer are proved to compute these forms. `Golden` pins field order, widths and tags of every form to byte strings, those of the
repository's own fixtures (lib/d1store/tests) among them; it is support, not a result. The journal keeps its durable prefix readable over every run of appends,
faults, flushes and rollbacks; what is durable is exactly what was held at the last successful flush, and a log reads back as given
records if and only if it is their frames, byte for byte.

**Crash-safe state** (`ClientPersist`, `SuperBlock`, `WalSpace`, `WalScan`, `WalLog`).
The client set is swapped atomically under a failure of any file step and a crash between any two; opening the two-slot superblock
never goes back, and a fenced store stays closed; the write-ahead log's reservation leaves room for each of the first 64 restarts; the
recovery scan accepts exactly the chains of intact records whose every record fits its place, and is stable under truncation of the
tail. `WalLog` joins the writer to the scan: every run of STARTs and appends from provisioning on scans clean with the values the store holds, and a crash inside the next write has one of four stated outcomes.

`Basics` and `Errno` hold shared facts and error numbers, `Wrappers` the option type.

Where the code and its documentation disagree, the model follows the code:

- The header of `moj_inverse_peel` promises success for any directions that pass the check. `CheckAcceptsAStuckGrid` gives a direction
  set, (2, 2) alone on a 2 x 2 grid, that passes and is stuck; `KatzTheorem` gives the exact condition, with no assumption on the
  directions, (0, 0) included. The directions the code generates (q = 1, distinct p) meet it without reduction (`KatzForUnitSlopes`).
- The header lists q = 1 and as many directions as missing rows as the constraints of the sweep, and the dispatchers choose between it
  and peeling on these alone. The two agree on every image exactly when rows that share a slope are apart: `RepeatedSlope` gives a grid
  that peeling refuses and for which the sweep reports success with a wrong image. The codes only pass distinct slopes, which are
  always apart (`DistinctIsSpaced`).
- A comment in the direction generator says direction (0, 1) maps a whole row to one bin. By the bin formula it maps a whole column to
  one bin and peels like any other slope: `KatzForUnitSlopes` and the sweep do not exclude it. The generator skips p = 0 all the same.
- The decoder of request envelopes is documented to accept exactly what the encoder writes. A prepare-repair request is not limited
  in its total payload by the shape test but is by the decoder: `RoundTripsExactlyWithinLimit` states the exact condition, and
  `ValidRepairThatDoesNotDecode` gives a request that encodes and does not decode.
- A write-ahead log record torn after its header should be an incomplete tail. The prologue test asks for format version 1 while records
  carry 2, so the scan fences the store instead: `TornAppend` and `CrashInWrite` state exactly which torn writes are recovered, and
  `TornAppendWitness` gives a log and a record.
- A client set of 65,536 records can be written and never loaded again, because the limit is tested before the end of the file is
  seen: `StoredIsLoaded` is the exact condition, `LimitIsReached` reaches the set by one add, and by `FullSetIsLost` no later run
  leaves it.
- A START can report a failure after the incarnation has advanced, when only the closing superblock update fails (`Wal.Start`).

## Model

| member | source | states |
|---|---|---|
| Geometry.BinsAreExactlyTheRange | lib/ec/mojette.h:62-99 | every pixel falls in a bin of the allocated range and both ends of the range are hit, for every direction and grid; one row down is p bins on and one column right q |
| Geometry.BinInRange | lib/ec/mojette.h:62-99 | the bin index of any grid pixel is within the projection |
| Katz.KatzCheck | lib/ec/mojette.c:169-183 | the two running sums decide the criterion sum of abs p at least P or sum of abs q at least Q |
| Katz.StuckSetIsTall | lib/ec/mojette.c:413-549 | a stuck set has an extreme pixel below at least sum of abs q rows, with more occupied rows above it than directions |
| Katz.CriterionSuffices | lib/ec/mojette.h:203-212 | directions in lowest terms, no two parallel, that pass the criterion leave no stuck set |
| Katz.StuckSetNeedsRows | lib/ec/mojette.c:566-716 | a stuck set lies on more rows than there are row-leaving directions, wherever the rows are |
| Phantoms.PhantomIsEven | lib/ec/mojette.c:169-183 | the phantom built from any directions meets every line of each of them an even number of times |
| Phantoms.CriterionNecessary | lib/ec/mojette.c:169-183 | when the criterion fails, the phantom fits the grid and is stuck |
| Reduction.LowestTerms | lib/ec/mojette.c:169-183 | every direction but (0, 0) is a multiple of its lowest terms, which have a unit combination |
| Reduction.ReducedIsBasis | lib/ec/mojette.c:169-183 | the computed reduction holds each line direction of the list exactly once, in lowest terms, with (0, 0) dropped |
| Reduction.ReducedStuck | lib/ec/mojette.c:169-183 | directions and their reductions to lowest terms have the same stuck sets |
| Reduction.KatzTheorem | lib/ec/mojette.h:203-212 | for every direction list and every grid, peelable if and only if the criterion holds of the list reduced to its distinct lowest-terms line directions, a list the caller can compute; the one exception is a single pixel, which any direction at all peels |
| Reduction.KatzForUnitSlopes | lib/ec/mojette.c:169-183 | for q = 1 and distinct p the check itself is the exact condition |
| Reduction.CheckAcceptsAStuckGrid | lib/ec/mojette.h:203-212 | (2, 2) alone on a 2 x 2 grid passes the check, reduces to (1, 1), fails the reduced criterion and is not peelable |
| Forward.ProjectionIsUnique | lib/ec/mojette.c:294-372 | any two computations of one projection of one image agree bin for bin |
| Forward.XorChunks | lib/ec/mojette.c:219-254 | whole vector chunks are XORed in, nothing else changes, less than a chunk is left |
| Forward.XorRow | lib/ec/mojette.c:197-273 | chunks and tail together XOR exactly one row span, for each instruction set |
| Forward.CopyFirstRow | lib/ec/mojette.c:310-344 | row 0 is copied to its span and every other bin is zero, whatever was there |
| Forward.ForwardFast | lib/ec/mojette.c:304-350 | the fused q = 1 path leaves in every bin the XOR of its line, from arbitrary bin contents |
| Forward.ForwardScalar | lib/ec/mojette.c:352-371 | the pixel loop leaves in every bin the XOR of its line, for any direction |
| Forward.ForwardRows | lib/ec/mojette.c:374-394 | every projection of the image is complete whichever path each direction takes |
| Peel.Subtract | lib/ec/mojette.c:520-531 | removing a recovered pixel keeps every bin the XOR, and every count the number, of the unknown pixels on its line |
| Peel.FindUnknown | lib/ec/mojette.c:487-506 | finds an unknown pixel of the bin's line, or none exists |
| Peel.RecoverPixel | lib/ec/mojette.c:513-531 | writing a pixel, marking it and subtracting it keeps the peeling state with that pixel no longer unknown |
| Peel.PeelBin | lib/ec/mojette.c:483-532 | a bin is used exactly when one unknown pixel lies on its line, and no stuck pixel is ever recovered |
| Peel.PeelPass | lib/ec/mojette.c:474-536 | a pass that recovers nothing proves the unknown set stuck |
| Peel.PeelLoop | lib/ec/mojette.c:470-539 | ends; returns 0 exactly when the count is met and no unknown subset is stuck, with the grid then equal to the image |
| Peel.Load | lib/ec/mojette.c:626-645 | known pixels leave the bins and unknown ones are counted |
| Peel.InversePeel | lib/ec/mojette.c:413-549 | returns 0 if and only if the grid is peelable, equally if and only if the reduced criterion holds, and then the grid is the projected image |
| Peel.InversePeelSparse | lib/ec/mojette.c:566-716 | returns 0 if and only if no row is named twice and no subset of the missing rows is stuck; bad row lists are refused unchanged |
| Sweep.ComputeOffsets | lib/ec/mojette.c:993-1028 | the offset recurrence: consecutive offsets differ by slope times row gap |
| Sweep.EarlierRows | lib/ec/mojette.c:993-1028 | offsets of earlier rows are ahead by at least the slope times the row distance |
| Sweep.LaterRows | lib/ec/mojette.c:993-1028 | offsets of later rows are behind by at most the slope times the row distance, and by less where the slope is smaller |
| Sweep.LargestAtAnEnd | lib/ec/mojette.c:1030-1040 | the largest offset is at an end, so the sweep's start covers every column |
| Sweep.LineIsBehind | lib/ec/mojette.c:1042-1085 | when rows that share a slope are apart, every other missing pixel of the line through (l, x) is visited earlier or lies outside the grid |
| Sweep.WalkUp | lib/ec/mojette.c:1055-1063 | walking up until the line leaves the grid XORs every pixel of the line above |
| Sweep.WalkDown | lib/ec/mojette.c:1064-1072 | walking down adds every pixel of the line below |
| Sweep.LineXor | lib/ec/mojette.c:1054-1079 | both walks, or the column sum for p = 0, XOR all other grid pixels of the line |
| Sweep.BinIsWholeLine | lib/ec/mojette.c:1081-1083 | a bin XORed with the rest of its line is the pixel |
| Sweep.StepKeepsGood | lib/ec/mojette.c:1042-1085 | rows apart: each step keeps every pixel behind the sweep right |
| Sweep.StepKeepsSpoiling | lib/ec/mojette.c:1042-1085 | rows that clash on u: until a line through u is used only u is off, and from then on some pixel behind the sweep is wrong for good |
| Sweep.DecidedOff | lib/ec/mojette.c:1081-1083 | while only u is off, a step is right exactly when its line avoids u |
| Sweep.TooCloseClashes | lib/ec/mojette.c:993-1085 | rows that are not apart always clash, so for every grid there is an image the sweep gets wrong |
| Sweep.SpacedNeverClashes | lib/ec/mojette.c:993-1085 | rows that are apart never clash, so apart is the exact condition |
| Sweep.Step | lib/ec/mojette.c:1043-1084 | one step sets one pixel to its bin XORed with the rest of its line as the grid shows it, and changes nothing else |
| Sweep.SweepRows | lib/ec/mojette.c:1042-1085 | the sweep ends with the image when rows that share a slope are apart, and without it when two of them clash on the one pixel the grid had wrong |
| Sweep.SortBySlope | lib/ec/mojette.c:752-765 | every direction exactly once, slopes descending, repeated slopes included |
| Sweep.DistinctIsSpaced | lib/ec/mojette.c:752-765 | distinct slopes are apart on any rows |
| Sweep.SpacedIsPeelable | lib/ec/mojette.c:942-1096 | the sweep's order is a peeling order: wherever the sweep is right for every image, nothing is stuck |
| Sweep.InverseGdSparse | lib/ec/mojette.c:942-1096 | for q = 1 and ascending missing rows, as many as directions, returns 0 whatever the slopes: with the image if rows that share a slope are apart, with a wrong grid for a one-pixel difference at a clash if not; any other shape is refused unchanged |
| Sweep.InverseGd | lib/ec/mojette.c:767-926 | the same for all rows missing, from a grid the call clears |
| MojetteCode.GenerateDirections | lib/ec/mojette.c:128-163 | n directions with q = 1 and distinct non-zero p, in the source's order |
| MojetteCode.SquareIsPeelable | lib/ec/mojette.c:169-183 | at least as many unit-slope directions as rows always peel |
| MojetteCode.Inverse | lib/ec/mojette.c:1115-1137 | without the sweep, 0 exactly on peelable grids and then the image; with it, always 0, and when rows that share a slope are apart the grid is peelable and restored, so both settings of the flag agree; when two rows clash they do not |
| MojetteCode.RepeatedSlope | lib/ec/mojette.c:1115-1137 | two directions (1, 1) on a 2 x 2 grid: not peelable, yet of the shape the sweep answers 0 for, with a clash at (1, 0) |
| MojetteCode.EnoughDirections | lib/ec/mojette.c:566-716 | as many unit-slope directions as missing rows leave nothing stuck |
| MojetteCode.InverseSparse | lib/ec/mojette.c:1146-1171 | the same for missing rows, with the exact condition for 0 of the peeling branch and the refusals of both |
| MojetteCode.Create | lib/ec/mojette_encoding.c:412-467 | a code exists for exactly 1 <= k, 1 <= m, k + m <= 64, with the generated slopes in their order |
| MojetteCode.ShardHoldsRow | lib/ec/mojette_encoding.c:377-391 | every shard size has room for a data row |
| MojetteCode.SysEncode | lib/ec/mojette_encoding.c:54-95 | data shards are untouched and every parity shard is its projection |
| MojetteCode.Collect | lib/ec/mojette_encoding.c:162-184 | the first surviving projections, copied, with distinct slopes |
| MojetteCode.RecoverRows | lib/ec/mojette_encoding.c:128-205 | lost data rows come back from as many surviving parity shards |
| MojetteCode.SysDecode | lib/ec/mojette_encoding.c:97-215 | at most m losses: every data row restored; parity regenerated exactly when no data was lost; more: EIO, nothing changed |
| MojetteCode.NonsysEncode | lib/ec/mojette_encoding.c:221-295 | every shard becomes its projection although the data buffers are overwritten |
| MojetteCode.NonsysDecode | lib/ec/mojette_encoding.c:297-371 | any k surviving projections restore the k data rows; fewer: EIO, nothing changed |
| MojetteCode.Transmit | lib/ec/mojette_encoding.c:54-371 | encode, lose, decode in place restores the data exactly when at most m shards are lost, whatever words the lost shards hold |
| MojetteCode.SurvivesLosses | lib/ec/mojette_encoding.c:54-467 | end to end from rows to rows, for both code families and any contents of the lost shards |
| Gf256.StepLinear | lib/ec/gf.c:35-52 | one step of the table loop is linear over XOR |
| Gf256.IterateLinear | lib/ec/gf.c:35-52 | so is any number of steps |
| Gf256.OrderIs255 | lib/ec/gf.c:35-52 | 255 steps return to 1 and no smaller positive number does |
| Gf256.PowersDistinct | lib/ec/gf.c:35-52 | the 255 table entries are distinct |
| Gf256.PowersCover | lib/ec/gf.c:35-52 | every non-zero byte is a table entry |
| Gf256.LogPower | lib/ec/gf.c:35-52 | the antilog of the log is the byte |
| Gf256.PowerLog | lib/ec/gf.c:35-52 | the log of an antilog is the exponent |
| Gf256.MulAssoc | lib/ec/gf.c:59-64 | table multiplication is associative |
| Gf256.MulDistributes | lib/ec/gf.c:59-64 | table multiplication distributes over XOR |
| Gf256.MulInverse | lib/ec/gf.c:66-71 | the table inverse is an inverse |
| Gf256.MulNonZero | lib/ec/gf.c:59-64 | no zero divisors |
| Gf256.MulIsPolyMul | lib/ec/gf.c:59-64 | table multiplication is shift-and-add multiplication modulo the primitive polynomial |
| Gf256.TablePowIsPow | lib/ec/gf.c:73-82 | the exponent arithmetic computes repeated multiplication |
| GfTables.WideStepIsStep | lib/ec/gf.c:35-52 | the loop's wide shift and conditional XOR is one field step |
| GfTables.InitTables | lib/ec/gf.c:35-52 | both tables hold powers and logs, the antilog table doubled |
| GfTables.GfMul | lib/ec/gf.c:59-64 | the lookup is the field product |
| GfTables.GfInv | lib/ec/gf.c:66-71 | the lookup is the inverse, and 0 for 0 |
| GfTables.GfPow | lib/ec/gf.c:73-82 | the lookup is the power |
| GfTables.MulTable | lib/ec/gf.c:84-101 | entry b is c times b, for every byte |
| GfTables.SplitTable | lib/ec/gf.c:103-128 | the two nibble lookups XOR to c times b, for every byte |
| Vectors.LeftInverseSolves | lib/ec/matrix.c:75-168 | a left inverse undoes the matrix on every vector |
| Vectors.RightInverse | lib/ec/rs.c:140-164 | a left inverse with trivial kernel is a right inverse |
| Matrix.NoPivotIsSingular | lib/ec/matrix.c:97-110 | a column without a pivot yields a non-zero vector the matrix annihilates |
| Matrix.SwapInPlace | lib/ec/matrix.c:112-127 | both arrays have the two rows exchanged and nothing else |
| Matrix.AddRowInPlace | lib/ec/matrix.c:148-161 | both arrays have one row plus a multiple of another |
| Matrix.PlacePivot | lib/ec/matrix.c:112-137 | the pivot is 1 and the invariant of the elimination holds |
| Matrix.ClearColumn | lib/ec/matrix.c:139-162 | one more unit column, nothing lost |
| Matrix.Invert | lib/ec/matrix.c:75-168 | returns 0 exactly when the kernel is trivial, and then out times m is the identity and out is non-singular; shapes that do not fit are refused unchanged |
| Matrix.Multiply | lib/ec/matrix.c:52-73 | every entry is the dot product of row and column; shapes that do not fit are refused unchanged |
| Vandermonde.Division | lib/ec/matrix.c:170-193 | p(x) = p(a) + (x - a) q(x) for synthetic division |
| Vandermonde.TooManyRoots | lib/ec/matrix.c:170-193 | a polynomial with as many distinct roots as coefficients is zero |
| Vandermonde.VanishesExactly | lib/ec/matrix.c:170-193 | the product of (x - a) over given points vanishes at those points and nowhere else |
| Vandermonde.Build | lib/ec/matrix.c:170-193 | row r is the powers of r + 1 |
| Vandermonde.AnyRowsAreIndependent | lib/ec/matrix.c:170-193 | any k distinct rows of at most 255 have a trivial kernel, so they invert |
| Mds.SmallIsMds | lib/ec/rs.c:115-138 | identity, ones and powers of 2: any k of the k + 1 or k + 2 rows are independent |
| Mds.SmallSystematic | lib/ec/rs.c:115-138 | the first k rows pass the data through |
| Mds.NormalizedSystematic | lib/ec/rs.c:140-164 | so do the first k rows of the Vandermonde matrix times the inverse of its top |
| Mds.NormalizedIsMds | lib/ec/rs.c:140-164 | and any k of its rows are independent |
| Mds.NormalizedEvaluates | lib/ec/rs.c:140-164 | which code it is: where the data are the values of a polynomial with k coefficients at points 1 to k, row r gives its value at point r + 1 |
| Mds.EvaluatesOnce | lib/ec/rs.c:140-164 | no other matrix does that |
| ReedSolomon.BuildSmall | lib/ec/rs.c:115-138 | identity on top, then all ones, then powers of 2 |
| ReedSolomon.BuildLarge | lib/ec/rs.c:140-170 | never fails, and the result is systematic, with any k rows independent, and evaluates the data's polynomial at the points r + 1, so it is that one matrix |
| ReedSolomon.BuildEncodingMatrix | lib/ec/rs.c:108-171 | systematic, any k rows independent; the exact parity rows for m of 1 and 2, and the evaluating matrix for more |
| ReedSolomon.MakeTables | lib/ec/rs.c:368-375 | full and split tables of one coefficient |
| ReedSolomon.MulAdd | lib/ec/rs.c:185-255 | blocks through the split tables and the tail through the full table together multiply and accumulate every byte |
| ReedSolomon.Combine | lib/ec/rs.c:271-289 | a shard becomes the combination of the inputs with the row's coefficients, at every byte |
| ReedSolomon.Create | lib/ec/rs.c:493-570 | a code exists for exactly 1 <= k, 1 <= m, k + m <= 255, with the matrix of its m |
| ReedSolomon.Encode | lib/ec/rs.c:257-292 | every shard is its row of the codeword and data shards are untouched; with m of 1 and 2 the parity is the XOR of the data and its polynomial at 2, with more every shard is the value at its point of the polynomial whose values the data are |
| ReedSolomon.FirstAvailable | lib/ec/rs.c:328-333 | k different shards that are present |
| ReedSolomon.RecoveredIsData | lib/ec/rs.c:377-416 | the inverse of the chosen rows applied to the chosen shards is the data |
| ReedSolomon.Recover | lib/ec/rs.c:335-416 | every data shard rebuilt from any k shards |
| ReedSolomon.CopyBack | lib/ec/rs.c:420-424 | lost data shards get the data and present shards are kept |
| ReedSolomon.Regenerate | lib/ec/rs.c:426-479 | lost parity shards are re-encoded and present shards are kept |
| ReedSolomon.Decode | lib/ec/rs.c:294-491 | returns 0 exactly when at least k shards are present, and then all k + m shards are the codeword's; else EIO, nothing changed |
| ReedSolomon.SurvivesLosses | lib/ec/rs.c:257-570 | end to end from rows to rows, for every loss pattern and any contents of the lost shards |
| Bytes.U32RoundTrip | lib/d1store/d1_codec.c:84-94 | the four-byte form is a bijection |
| Bytes.U64RoundTrip | lib/d1store/d1_codec.c:96-105 | the eight-byte form is a bijection |
| Bytes.BigEndianAt | lib/d1store/d1_codec.c:96-105 | byte i is the value shifted right past the bytes after it |
| Codec.Primitives | lib/d1store/d1_codec.c:66-253 | integers, booleans and raw bytes: Get undoes Put, what Get accepts is what Put writes, and the exact lengths |
| Codec.BytesLaws | lib/d1store/d1_codec.c:120-273 | the same for length-prefixed bytes within a maximum |
| Codec.Records | lib/d1store/d1_codec.c:142-353 | the same for guards, owners, operation keys, checksums and object keys |
| Codec.Options | lib/d1store/d1_codec.c:135-314 | the same for options of every width |
| Codec.OptGuardLaws | lib/d1store/d1_envelope.c:23-48 | the same for optional guards |
| Codec.GetOfPutVec | lib/d1store/d1_envelope.c:50-110 | a counted vector of lawful elements reads back |
| Codec.PutOfGetVec | lib/d1store/d1_envelope.c:50-110 | a counted vector that reads is what would be written |
| Cursors.Cursor.Take | lib/d1store/d1_codec.c:36-64 | claims n bytes or goes bad for good |
| Cursors.Cursor.PutInt32 | lib/d1store/d1_codec.c:84-94 | appends the canonical bytes, or goes bad exactly when they do not fit |
| Cursors.Cursor.PutInt64 | lib/d1store/d1_codec.c:96-105 | the same, by the shifting loop |
| Cursors.Cursor.PutString | lib/d1store/d1_codec.c:120-128 | the same for length-prefixed bytes; a length past 32 bits goes bad |
| Cursors.Cursor.WriteChecksum | lib/d1store/d1_codec.c:163-176 | a digest longer than its array is refused before it is read |
| Cursors.Cursor.ReadU32 | lib/d1store/d1_codec.c:204-213 | succeeds exactly when the canonical form does, with its value, and moves past it |
| Cursors.Cursor.ReadU64 | lib/d1store/d1_codec.c:215-227 | the same, by the accumulating loop |
| Cursors.Cursor.ReadBool | lib/d1store/d1_codec.c:229-242 | the same; only 0 and 1 decode |
| Cursors.Cursor.ReadBytes | lib/d1store/d1_codec.c:255-273 | the same, within the maximum |
| Cursors.Cursor.Finished | lib/d1store/d1_codec.c:355-358 | nothing bad and nothing left |
| Envelopes.WriteEntryLaws | lib/d1store/d1_envelope.c:58-91 | write entries: both laws and the exact length |
| Envelopes.RepairEntryLaws | lib/d1store/d1_envelope.c:208-284 | repair entries: both laws and the exact length |
| Envelopes.WriteRoundTrip | lib/d1store/d1_envelope.c:50-110 | a valid write batch reads back as itself |
| Envelopes.WriteCanonical | lib/d1store/d1_envelope.c:50-110 | a write batch that reads is what would be written |
| Envelopes.LifecycleRoundTrip | lib/d1store/d1_envelope.c:112-153 | a valid lifecycle batch reads back as itself |
| Envelopes.LifecycleCanonical | lib/d1store/d1_envelope.c:112-153 | a lifecycle batch that reads is what would be written |
| Envelopes.RollbackRoundTrip | lib/d1store/d1_envelope.c:155-199 | a valid rollback batch reads back as itself |
| Envelopes.RollbackCanonical | lib/d1store/d1_envelope.c:155-199 | a rollback batch that reads is what would be written |
| Envelopes.ControlRoundTrip | lib/d1store/d1_envelope.c:318-349 | a valid control batch reads back as itself |
| Envelopes.ControlCanonical | lib/d1store/d1_envelope.c:318-349 | a control batch that reads is what would be written |
| Envelopes.RepairRoundTrip | lib/d1store/d1_envelope.c:201-316 | a valid repair batch within the payload limit reads back as itself |
| Envelopes.RepairCanonical | lib/d1store/d1_envelope.c:201-316 | a repair batch that reads is within the limit and is what would be written |
| Envelopes.DecodesExactly | lib/d1store/d1_envelope.c:768-853 | a byte string decodes to an envelope if and only if the envelope is valid, carries at most 4 MiB and encodes to exactly those bytes |
| Envelopes.EncodingIsInjective | lib/d1store/d1_envelope.h:7-12 | two valid envelopes with the same bytes are the same envelope, with no limit on payload |
| Envelopes.RoundTripsExactlyWithinLimit | lib/d1store/d1_envelope.c:549-853 | a valid envelope decodes to itself if its payloads come to at most 4 MiB and to nothing otherwise |
| Envelopes.OnlyRepairsExceed | lib/d1store/d1_envelope.c:395-680 | only prepare-repair requests can be valid and past the limit |
| Envelopes.ValidRepairThatDoesNotDecode | lib/d1store/d1_envelope.c:549-680 | five whole-chunk replacements: valid, encoded, refused by the decoder |
| Envelopes.EncodingFits | lib/d1store/d1_envelope.h:217-222 | an encoding is at most 1,605 bytes longer than its payloads, so within the declared buffer whenever it decodes |
| Envelopes.RepairOptions | lib/d1store/d1_envelope.h:91-170 | which options each repair operation carries, operation by operation |
| Envelopes.MembersDiffer | lib/d1store/d1_envelope.h:224-238 | one to sixteen members, no two the same |
| EnvelopeCodec.ReadWriteEntries | lib/d1store/d1_envelope.c:81-102 | entries read one by one, refused part way exactly when the running payload sum passes 4 MiB |
| EnvelopeCodec.ReadRepairEntries | lib/d1store/d1_envelope.c:252-284 | the same for repair entries |
| EnvelopeCodec.Encode | lib/d1store/d1_envelope.c:768-807 | writes exactly the canonical bytes, or returns 0 exactly when the shape is invalid or they do not fit |
| EnvelopeCodec.Decode | lib/d1store/d1_envelope.c:809-853 | the cursor walk decodes exactly the canonical encodings |
| CompleteResults.RoundTrip | lib/d1store/d1_control.c:133-206 | a result with at most 16 members decodes to one that says the same with unlogged parts zeroed; more members encode but do not decode |
| CompleteResults.Canonical | lib/d1store/d1_control.c:133-206 | whatever decodes is the encoding of what it decoded to |
| CompleteResults.SameBytes | lib/d1store/d1_control.c:133-277 | the logged parts agree if and only if the encodings are identical |
| CompleteResults.Equal | lib/d1store/d1_control.c:208-277 | the field-by-field comparison answers whether the encodings are identical, counts above 16 that differ included |
| CompleteResults.Encode | lib/d1store/d1_control.c:133-172 | writes exactly the canonical bytes, or returns 0 exactly when they do not fit |
| CompleteResults.Decode | lib/d1store/d1_control.c:174-206 | the cursor walk decodes exactly the canonical form |
| Digest.Context.Take | lib/d1store/d1_digest.c:139-159 | one piece of a block is taken and a full block compressed |
| Digest.Context.Update | lib/d1store/d1_digest.c:139-159 | the context has absorbed everything fed so far |
| Digest.Context.Final | lib/d1store/d1_digest.c:161-181 | the digest of the message padded as section 5.1.1 of FIPS 180-4 requires |
| Digest.PaddedIs | lib/d1store/d1_digest.c:161-181 | the padding byte by byte, on the first block boundary with room for it |
| Digest.PaddingInjective | lib/d1store/d1_digest.c:161-181 | no two messages are padded alike |
| Digest.OutputAt | lib/d1store/d1_digest.c:161-181 | the digest is the state word by word, most significant byte first |
| Digest.InitialHashIsRoots | lib/d1store/d1_digest.c:128-138 | the initial words are the fractional bits of the square roots of the first eight primes, as section 5.3.3 of FIPS 180-4 defines them |
| Digest.Sha256 | lib/d1store/d1_digest.c:183-190 | the digest of the whole input |
| Digest.Sha256InPieces | lib/d1store/d1_digest.c:139-190 | any way of cutting the input gives the digest of the whole |
| Digest.RequestDigest | lib/d1store/d1_digest.c:192-201 | the digest of the domain string followed by the data |
| Journal.HeaderRoundTrip | lib/d1store/d1_journal.c:60-111 | a header decodes to what was encoded |
| Journal.ReadFramed | lib/d1store/d1_journal.c:157-225 | a whole record is read back exactly, wherever it stands |
| Journal.ReadTorn | lib/d1store/d1_journal.c:157-225 | a record cut short is corrupt, never an end and never a record |
| Journal.ReadIsFramed | lib/d1store/d1_journal.c:157-225 | the converse, for any bytes: what a record was read from is exactly its frame, with magic, complement, UUID, next LSN, zero reserved word and checksum |
| Journal.ReadExactly | lib/d1store/d1_journal.c:157-225 | a record if and only if its frame stands there, the end if and only if nothing is left, corruption otherwise |
| Journal.ReadCut | lib/d1store/d1_journal.c:157-225 | a log cut at any byte yields exactly the whole records before the cut, then a clean end on a boundary and corruption elsewhere |
| Journal.ReadWhole | lib/d1store/d1_journal.c:157-225 | an uncut log reads back completely and cleanly |
| Journal.ReadBack | lib/d1store/d1_journal.c:157-225 | a drain of any bytes returns the records whose frames stand there, and is clean exactly when nothing else does |
| Journal.ReadsExactly | lib/d1store/d1_journal.c:157-225 | a log reads back cleanly as given records if and only if it is their frames, byte for byte |
| Journal.RunSound | lib/d1store/d1_journal.c:60-145 | durable never passes the end, over every run of operations and faults |
| Journal.DurableForever | lib/d1store/d1_journal.c:129-145 | a record once durable is never dropped or changed by any later run |
| Journal.DurableIsLastFlush | lib/d1store/d1_journal.c:129-145 | what is durable after any run is exactly what the log held at the last flush that succeeded |
| Journal.RollbackIsLastFlush | lib/d1store/d1_journal.c:141-145 | a rollback goes back to that flush, no further and no less |
| Journal.FlushedStays | lib/d1store/d1_journal.c:129-145 | nothing held at a successful flush is lost by anything that follows |
| Journal.ArmedCountsDown | lib/d1store/d1_journal.c:60-76 | an armed append fault counts down by appends alone, successful or not |
| Journal.ArmedAppendIsRefused | lib/d1store/d1_journal.c:60-76 | the n-th append after arming is refused, whatever lies between, and disarms |
| Journal.Log.Append | lib/d1store/d1_journal.c:60-111 | the exact condition for success; then one more record and its frame behind the old bytes, else nothing changed but the armed fault's count |
| Journal.Log.Flush | lib/d1store/d1_journal.c:129-139 | succeeds unless armed to fail; then the whole log is durable, up to its last byte and LSN; else nothing moves and the fault is spent |
| Journal.Log.Rollback | lib/d1store/d1_journal.c:141-145 | exactly the unflushed records are dropped, and length and LSN are the durable ones |
| Journal.Log.Adopt | lib/d1store/d1_journal.c:113-127 | an empty log takes over any bytes as durable, and is then a well-formed log whenever they are one; any other refuses |
| Journal.Log.Perform | lib/d1store/d1_journal.c:60-145 | the object follows the abstract run for any sequence of operations |
| Journal.Log.DurablePrefixReadsBack | lib/d1store/d1_journal.c:60-225 | the durable bytes read back as exactly the claimed records with LSNs 1, 2, ... and a clean end; by DurableIsLastFlush these are the flushed ones |
| Journal.Cursor.ReadLengths | lib/d1store/d1_journal.c:157-225 | reading magic, format, kind, header length, length and complement one by one accepts exactly the headers whose fields pass |
| Journal.Cursor.ReadIdentity | lib/d1store/d1_journal.c:157-225 | the same for UUID, LSN, incarnation and the reserved word |
| Journal.Cursor.Next | lib/d1store/d1_journal.c:157-225 | the walk over the header's fields and the trailer returns a record exactly where its frame with good checksum stands, the clean end or corruption, and only a record moves the cursor |
| Journal.Cursor.Drain | lib/d1store/d1_journal.c:147-225 | draining the cursor is reading the log |
| ClientPersist.ReadGood | lib/backends/client_persist.c:305-383 | well-formed records load exactly below the limit |
| ClientPersist.StoredIsLoaded | lib/backends/client_persist.c:305-383 | a stored set loads if and only if it has fewer than 65,536 records |
| ClientPersist.LoadExactly | lib/backends/client_persist.c:305-383 | every outcome for any file contents: the records, too many, or invalid, with the exact condition of each |
| ClientPersist.PlanStates | lib/backends/client_persist.c:152-302 | the directory after each file step of a swap |
| ClientPersist.SwapIsAtomic | lib/backends/client_persist.c:152-302 | a crash after any number of steps leaves the old set until the rename and the new one after it, whatever unsynced files hold |
| ClientPersist.SwapTidies | lib/backends/client_persist.c:178-295 | a completed swap leaves the synced new file live, and neither the old file nor a temporary symlink |
| ClientPersist.MattersMeans | lib/backends/client_persist.c:178-302 | the failures that are reported are those of every step but the two unlinks |
| ClientPersist.FailureKeepsOld | lib/backends/client_persist.c:152-302 | a failed create, write, sync, link or rename and its clean-up, interrupted anywhere, leave the old set |
| ClientPersist.FailureTidies | lib/backends/client_persist.c:296-302 | the clean-up of a failed swap removes the new file and the temporary symlink |
| ClientPersist.OperationIsAtomic | lib/backends/client_persist.c:402-477 | an add or remove, interrupted or failing at any step, is applied whole or not at all, and not at all when a step failed; applied, it is one record more at the end, or exactly the records of all other slots in their order |
| ClientPersist.WithoutKeepsOthers | lib/backends/client_persist.c:456-464 | what a remove keeps is listed by an ascending sequence of places: exactly those whose slot differs |
| ClientPersist.RunIsAtomic | lib/backends/client_persist.c:152-477 | over every run of adds and removes with failures and crashes anywhere, a load returns all completed operations with each other one whole or absent |
| ClientPersist.LimitIsReached | lib/backends/client_persist.c:402-431 | one successful add to 65,535 records stores 65,536 and makes the directory unloadable |
| ClientPersist.FullSetIsLost | lib/backends/client_persist.c:305-383 | once 65,536 records are stored no later run of operations, failures and crashes makes the directory load again |
| ClientPersist.StateDir.WriteAndSwap | lib/backends/client_persist.c:152-302 | performs exactly the planned steps with the clean-up of a failing one, up to the crash, and returns an error exactly when a step that matters fails |
| ClientPersist.StateDir.Load | lib/backends/client_persist.c:305-383 | the result codes and records of the reading loop |
| ClientPersist.StateDir.Add | lib/backends/client_persist.c:402-431 | performs exactly the add's steps on the loaded records and the new one, with the result code of each case |
| ClientPersist.StateDir.Remove | lib/backends/client_persist.c:433-477 | performs exactly the remove's steps on the loaded records of all other slots, with the result code of each case |
| ClientPersist.Compact | lib/backends/client_persist.c:456-464 | compacting in place keeps exactly the other slots' records, in order, through an ascending sequence of places |
| SuperBlock.EventKeepsConsistent | lib/d2store/d2_files.c:305-319 | updates, failed and torn slot writes and reopens keep the slot pair consistent with its history |
| SuperBlock.OpenNeverGoesBack | lib/d2store/d2_files.c:448-476 | over every run, opening selects the last completed superblock or one whose write had begun, never an older one, and never meets a tie |
| SuperBlock.UpdateStores | lib/d2store/d2_files.c:787-802 | a completed update makes a reader select the requested state under the next generation with the handle's other fields; an incomplete one may leave that superblock and no other |
| SuperBlock.FencedStaysClosed | lib/d2store/d2_files.c:448-476 | after a completed update every open before the next one returns 11 if it fenced the store and 1 if it did not |
| SuperBlock.HalfProvisioned | lib/d2store/d2_files.c:366-446 | a store whose provisioning stopped between its slots opens as never provisioned |
| SuperBlock.CrashInsideUpdate | lib/d2store/d2_files.c:787-802 | a crash inside one update leaves the superblock before it or the one being written |
| SuperBlock.GenerationsGrow | lib/d2store/d2_files.c:787-802 | the completed generation never decreases |
| SuperBlock.Handle.SuperUpdate | lib/d2store/d2_files.c:787-802 | follows the update event, with the status of each outcome; on success the slot that was not newest holds the requested state, one generation up, and is newest |
| SuperBlock.Handle.ReadSuper | lib/d2store/d2_files.c:448-476 | follows the reopen event, with the status of each outcome |
| WalSpace.RequiredDrops | lib/d2store/d2_format.h:43-48 | each START releases exactly its own record and its sweep |
| WalSpace.RunKeepsReserved | lib/d2store/d2_files.c:649-785 | the reservation is intact over every mix of appends and STARTs |
| WalSpace.RestartAlwaysHasRoom | lib/d2store/d2_files.c:649-785 | each of the first 64 restarts has room for its START and any recovery appends of 51,712 bytes in all |
| WalSpace.PromiseKept | lib/d2store/d2_files.c:682-692 | appends that come to no more than an accepted append promised are all accepted |
| WalSpace.RoomInNumbers | lib/d2store/d2_files.c:682-692 | the rule in bytes: 51,909 for each reserved restart to come, 396 for recovery, and the promise |
| WalSpace.NoRoomAfterTheLast | lib/d2store/d2_files.c:649-785 | in the state after the last reserved restart, one more START fits and then no append of any length does |
| WalSpace.SixtyFifthRestart | lib/d2store/d2_files.c:649-785 | a run from a provisioned log of the minimum size reaches that state |
| WalSpace.Wal.AppendInternal | lib/d2store/d2_files.c:649-707 | a record or group is appended whole or not at all, with the exact condition of each status, armed and real write failures included |
| WalSpace.Wal.Append | lib/d2store/d2_files.c:709-713 | an ordinary append succeeds exactly when the record decodes and continues the log, the space rule accepts it and the write is durable |
| WalSpace.Wal.Start | lib/d2store/d2_files.c:730-785 | the exact condition under which the START is written; then the incarnation advances and the closing superblock update decides the status, which can fail after the advance |
| WalScan.DecodeLocal | lib/d2store/d2_format.c:521-556 | decoding a record depends on its own bytes and nothing after them |
| WalScan.HeaderLaws | lib/d2store/d2_format.c:510-556 | record headers: Get undoes Put, what Get accepts is what Put writes, and the length |
| WalScan.StartRoundTrip | lib/d2store/d2_format.c:584-647 | all sixteen fields of a START body read back |
| WalScan.EncodedHeader | lib/d2store/d2_format.c:510-556 | an encoded record decodes to its family, length, LSN and incarnation around its body |
| WalScan.StartDecodes | lib/d2store/d2_format.c:558-647 | a START record with an acceptable decision decodes to exactly its body |
| WalScan.DecodedIsEncoded | lib/d2store/d2_format.c:521-556 | the converse: a header that decodes is, to the byte, a record as the writers make it, checksum included |
| WalScan.StartIsRecord | lib/d2store/d2_format.c:615-647 | and a START that decodes is the record of its body |
| WalScan.Decisions | lib/d2store/d2_format.c:558-582 | the thirteen recovery decisions, and what each says of truncated bytes and the verifier |
| WalScan.ScannedPrefixIsAChain | lib/d2store/d2_files.c:944-1083 | the valid prefix is exactly a run of intact records with LSNs 1 to last, a START first, incarnations stepping by one at STARTs and only there |
| WalScan.ScansExactly | lib/d2store/d2_files.c:944-1083 | a sequence of intact records scans if and only if each fits its place: LSN, incarnation, a START's cursors and capacities, payload ends; then the scan reports exactly what they say |
| WalScan.RescanIsClean | lib/d2store/d2_files.c:944-1083 | truncating the tail and scanning again gives the same result, classed clean |
| WalScan.WholeAppend | lib/d2store/d2_files.c:1017-1057 | a whole record after a clean log is the next one read, kept or fenced by the chain checks |
| WalScan.TornAppend | lib/d2store/d2_files.c:820-833 | a torn append is recovered if and only if it stopped inside the header; later it fences the store |
| WalScan.ForeignTail | lib/d2store/d2_files.c:981-1015 | bytes that are no record after a clean log: zeros and anything shorter than a header are cut off, too many or a header not of version 1 fence |
| WalScan.OldVersionTail | lib/d2store/d2_files.c:820-833 | a version 1 header is cut off when its record is not all there and fences otherwise |
| WalScan.ZerosAreNoRecord | lib/d2store/d2_files.c:804-812 | preallocated zeros never decode |
| WalScan.WalFile.Scan | lib/d2store/d2_files.c:944-1083 | the loop computes the scan, and truncation leaves exactly the valid prefix, which scans clean; a failed read, cut or sync fences the store, with the file as it then is |
| WalLog.RecordDecodes | lib/d2store/d2_files.c:339-364 | what a START or an append writes is a record the scan decodes, with the START's own fields and those of the request |
| WalLog.RunScansClean | lib/d2store/d2_files.c:649-785 | from a log in step with its scan, every run of accepted STARTs and appends keeps it in step |
| WalLog.EveryRunScansClean | lib/d2store/d2_files.c:649-785 | every run that begins with provisioning scans clean, and the scan reports exactly the LSN, incarnation, payload cursor and count the store holds |
| WalLog.CrashInWrite | lib/d2store/d2_files.c:944-1083 | a crash after any number of bytes of the next write: the old log, an incomplete tail inside the header, a fenced store past it, or the new log |
| WalLog.SpaceFollows | lib/d2store/d2_files.c:649-785 | each event moves the log's space as the reservation rule says |
| WalLog.TornAppendOnDisk | lib/d2store/d2_files.c:820-833 | a provisioned log of 197 bytes and a 76-byte record after it: cut at 71 bytes it is recovered, at 72 it fences the store |
| WalLog.TornAppendWitness | lib/d2store/d2_files.c:820-833 | that log and that record exist |

## Left out

- lib/ec/isa_l.c, lib/ec/linux_md.c and lib/ec/mirror.c: vendored arithmetic and plain copying.
- Vector instructions as instructions: they are modelled as element-wise XOR or nibble lookups over whole blocks.
- Allocation failure and NULL handling everywhere: allocation succeeds in the model.
- 32-bit overflow of grid and bin arithmetic in the Mojette code: indices are unbounded integers.
- Flattened buffers: a grid is a two-dimensional array and coefficient tables are nested sequences, so row-major indexing is not modelled; shards of the Mojette code are arrays of words, so the reinterpretation of bytes as words is not.
- Sweep.SortBySlope: an insertion sort stands for the library sort; the model needs the order, not the algorithm.
- One-time initialisation and the atomic force-scalar and force-sweep flags: they are parameters.
- CRC functions and the SHA-256 compression function: parameters, so collisions are outside the model.
- Runtime kind and issuer of handles: only the canonical u64 is modelled, as only it is encoded.
- Values behind absent options in an envelope, and array slots beyond an entry count: the envelope model has no place for them; the complete-result model does.
- Control request records and their two-field results in lib/d1store/d1_control.c: the same codec shapes again.
- Journal buffer growth: the append vector is a sequence.
- ClientPersist.RunIsAtomic: directory entries are durable once a rename returns, as the source does not sync the directory; which error number a failing file operation returns is not modelled, only that it fails.
- ClientPersist.StateDir.WriteAndSwap: a failure of one of the two unlinks the source ignores is modelled as a success.
- CompleteResults.Equal: not stated for two results that declare the same count above 16, where the source would compare past its arrays.
- The client identity log and the store reducers declared in lib/d1store/d1_store.h and lib/d2store/d2_store.h.
- WalScan.ScannedPrefixIsAChain: body decoders other than that of START, payload lookups and the caller's callback are parameters over the record's bytes and the bytes before it.
- WalLog.EveryRunScansClean: appended bodies are taken to satisfy those parameters; a rejected append leaves the store as it was.
- WalSpace.Wal.Start: durable counters kept beside the incarnation in the superblock are one opaque part of it.
- Field-by-field round trips of the D2 record bodies other than START, provisioning, rebinding and root qualification.
- Handling of payload files: appends to them and content checksums.

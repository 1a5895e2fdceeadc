# regina2 tracer serialiser and workloads, modelled in Dafny

regina2 is a memory-access tracer. Its instrumentation produces two kinds of
trace record:

- a memory reference (`MemRef_t`): read or write, access size, instruction
  address, data address and instruction symbol;
- a control-flow reference (`CallRetRef_t`): call, indirect call or return,
  with instruction and target addresses and their symbols.

`FileIO::Print` serialises one record to a `FILE *`. The binary
specialisation writes raw little-endian fields. The text specialisation
writes one or two `fprintf` lines.

The repository also ships the workload programs it traces:

- a Morton-order particle-to-grid splatter (`morton_encode` and the guarded
  flat cell index);
- a top-down merge sort with its `qsort` comparator;
- Dijkstra's shortest path on a dense 128-node cost matrix;
- the cache-optimisation kernels of a 64×64 matrix: loop interchange, loop
  fusion and loop blocking (tiled transpose).

The project has one module per core file:

| module | file | models |
|---|---|---|
| `TraceFileIO` | `trace_fileio.dfy` | `src/fileio.h` and the record types of `src/abstract_fileio.h`. A `FILE *` is a class whose byte or line sequence each write call extends. |
| `ParticleVolume` | `particlevolume.dfy` | `morton_encode` on `bv64`/`bv32`, and the bounds test plus flat index shared by `particle_over_grid_sorted` and `particle_over_grid`. |
| `Sorting` | `sorting.dfy` | `Merge` and `MergeSort` on an `array<int>`, and `comp`. |
| `Dijkstra` | `dijkstra.dfy` | `dijsktra` over an `array2` of 32-bit costs. The `dist`, `prev` and `visited` tables are arrays, and each `assert` becomes an error outcome. |
| `Matrix` | `matrix.dfy` | The six kernels on arrays of `N*N` entries. |
| `CInt` | `cint.dfy` | The 32-bit C `int` and its two's-complement wrap, shared by the three modules above that use `int`. |
| `Wrappers` | `wrappers.dfy` | `Option`. |

Each method that loops is proved against a specification function:

- `Merged` for the merge loop;
- `RelaxedDist` and `RelaxedPrev` for relaxation;
- `SumOver` with a read order for the interchange kernels;
- `Transpose` and `Blocked` for the blocking kernels.

Lemmas then state what those functions mean:

- the merge result is sorted and a permutation;
- the returned distance is the least path cost;
- both interchange orders read every entry exactly once;
- blocking with full tiles is the transpose.

## Model

| member | source | states |
|---|---|---|
| TraceFileIO.Code | src/abstract_fileio.h:10-15 | The enumerator values of MemRef, CallRef, CallIndRef, RetRef, in 0..3. KindOf inverts it (KindOfCode) |
| TraceFileIO.KindOf | src/abstract_fileio.h:10-15 | A tag names a kind exactly when it lies in 0..3, and then that kind's enumerator value is the tag |
| TraceFileIO.KindOfCode | src/abstract_fileio.h:10-15 | Decoding a kind's enumerator value gives back that kind |
| TraceFileIO.LE | src/fileio.h:145-147 | The bytes `fwrite` emits for an n-byte integer field: exactly n bytes |
| TraceFileIO.FromLE | src/fileio.h:145-147 | Reading n little-endian bytes gives a value below 256^n |
| TraceFileIO.FromLEOfLE | src/fileio.h:145-147 | Every integer that fits in n bytes is recovered from its little-endian encoding |
| TraceFileIO.LEOfFromLE | src/fileio.h:145-147 | Every byte string is the encoding of the value it reads as |
| TraceFileIO.LEInjective | src/fileio.h:145-147 | Two fitting values with equal encodings are equal |
| TraceFileIO.U64Fits | src/fileio.h:145 | An address or `size_t` field fits its 8 bytes |
| TraceFileIO.U32Fits | src/fileio.h:146 | The `unsigned int` size field fits its 4 bytes |
| TraceFileIO.CString | src/fileio.h:163-164 | `c_str()` with `strlen` stops at the first NUL: a prefix with no NUL, followed by a NUL when it is shorter than the string |
| TraceFileIO.CStringNoNul | src/fileio.h:163-164 | A symbol with no NUL byte is written in full |
| TraceFileIO.CallTag | src/fileio.h:151-160 | The call-type branch writes one tag byte equal to the tag exactly for CallRef, CallIndRef and RetRef, and none otherwise |
| TraceFileIO.MemImage | src/fileio.h:134-147 | The bytes of the five `fwrite`s of the MemRef branch. Their layout is stated by MemImageLayout and MemImageEqual |
| TraceFileIO.CallImage | src/fileio.h:149-165 | The bytes of the call-type branch: the tag, then the unconditional writes. Their layout is stated by CallImageLayout, UnknownImageLayout and CallImageEqual |
| TraceFileIO.BinaryImage | src/fileio.h:132-166 | The branch on MemRef that picks one of the two images. PrintBinary appends it |
| TraceFileIO.MemImageLayout | src/fileio.h:134-147 | A MemRef record is 25 bytes: a 4-byte tag 0, then one is_write byte (1 or 0), 8 bytes instr, 4 bytes size and 8 bytes data, each little-endian. instrSym is not written |
| TraceFileIO.MemImageEqual | src/fileio.h:134-147 | Two MemRef records serialise identically iff they agree on everything except instrSym |
| TraceFileIO.CallImageLayout | src/fileio.h:149-165 | A call, indirect-call or return record is a 1-byte tag, 8 bytes instr, 8 bytes target, then the two symbols' C strings with no separator or length |
| TraceFileIO.UnknownImageLayout | src/fileio.h:149-165 | A tag outside the enum writes no tag byte, but still writes both addresses and both symbols |
| TraceFileIO.CallImageEqual | src/fileio.h:149-165 | Two call records serialise identically iff their addresses agree and their concatenated symbol C strings agree |
| TraceFileIO.CallImageNotInjective | src/fileio.h:163-164 | The symbols ("ab","c") and ("a","bc") give the same bytes, so the binary format cannot be decoded into the symbol pair |
| TraceFileIO.TagWidths | src/fileio.h:137-153 | The MemRef tag takes 4 bytes (`sizeof(RefType)`), while a call tag takes 1 byte (`sizeof(char)`) |
| TraceFileIO.BinaryStream.Write | src/fileio.h:137-164 | One `fwrite` appends its bytes to the stream |
| TraceFileIO.PrintBinary | src/fileio.h:132-166 | Binary `Print` appends exactly `BinaryImage(refType, ref)` to the stream and changes nothing else |
| TraceFileIO.SignedView | src/fileio.h:60-62 | `%d` of the unsigned size is the 32-bit two's-complement reading. It is congruent mod 2^32, equal to the size up to INT_MAX, and negative above |
| TraceFileIO.CallLabel | src/fileio.h:68-77 | The label of each call kind's first line, and none for a tag outside the enum (TextCallLines, UnknownRefType) |
| TraceFileIO.TextLines | src/fileio.h:54-79 | The lines text Print writes. Their content is stated by TextMemLine, TextCallLines and UnknownRefType |
| TraceFileIO.TextMemLine | src/fileio.h:56-63 | A MemRef prints one line, headed MEM WRITE exactly when is_write and MEM READ otherwise, carrying instr, the symbol, the size as `%d`, and data |
| TraceFileIO.TextCallLines | src/fileio.h:65-78 | A call record prints two lines: "CALL", "CALL IND" or "RET" with instr and its symbol, then "to" with target and its symbol |
| TraceFileIO.UnknownRefType | src/fileio.h:65-165 | A tag outside the enum prints nothing in text mode, yet binary mode still writes at least both addresses |
| TraceFileIO.TextStream.Printf | src/fileio.h:60-76 | One `fprintf` appends one line |
| TraceFileIO.PrintText | src/fileio.h:54-79 | Text `Print` appends exactly `TextLines(refType, ref)` and nothing else |
| ParticleVolume.Digit | test/pv/particlevolume.cpp:40-49 | A binary-literal digit is 1 exactly for '1' and 0 otherwise. MaskSpelling reads the masks' spellings with it |
| ParticleVolume.MaskSpelling | test/pv/particlevolume.cpp:16-49 | The decimal BITMASK_* values equal the binary spellings of mask0..mask9 |
| ParticleVolume.Bit | test/pv/particlevolume.cpp:39-69 | Bit i of a 64-bit value, 0 or 1. The layout lemmas and MortonEncode's contract are stated with it |
| ParticleVolume.CodeBit | test/pv/particlevolume.cpp:67 | Bit 3k+axis of a code, 0 or 1. MortonEncode's contract places coordinate bits with it |
| ParticleVolume.Stage1 | test/pv/particlevolume.cpp:52-54 | The first mask-and-shift stage. Its effect is stated by Stage1Layout |
| ParticleVolume.Stage2 | test/pv/particlevolume.cpp:56-58 | The second stage. Its effect is stated by Stage2Nibble and Stage2Layout |
| ParticleVolume.Stage3 | test/pv/particlevolume.cpp:60-62 | The third stage. Its effect is stated by Stage3Pair and Stage3Layout |
| ParticleVolume.Stage4 | test/pv/particlevolume.cpp:64-66 | The fourth stage. Its effect is stated by SpreadBit and SpreadLayout |
| ParticleVolume.Spread | test/pv/particlevolume.cpp:51-67 | The four stages applied to one coordinate. SpreadLayout puts bit k at 3k, and SpreadLow21 shows bits above 20 are dropped |
| ParticleVolume.Interleave | test/pv/particlevolume.cpp:68 | x OR (y << 1) OR (z << 2). InterleaveLayout keeps the three spreads apart |
| ParticleVolume.Stage1Layout | test/pv/particlevolume.cpp:51-54 | Stage 1 keeps bits 0..7 and moves bits 8..20 to 24..36, with nothing outside mask8 or mask9 |
| ParticleVolume.Stage2Nibble | test/pv/particlevolume.cpp:56-58 | After stage 2, nibble i of the coordinate sits at bit 12·i |
| ParticleVolume.Stage2Layout | test/pv/particlevolume.cpp:55-59 | After stage 2 the five groups sit 12 bits apart inside mask5..mask7 |
| ParticleVolume.Stage3Pair | test/pv/particlevolume.cpp:60-62 | After stage 3, bit pair j sits at bit 6·j |
| ParticleVolume.Stage3Layout | test/pv/particlevolume.cpp:59-63 | After stage 3 the pairs sit 6 bits apart inside mask3 and mask4 |
| ParticleVolume.SpreadBit | test/pv/particlevolume.cpp:64-66 | After stage 4, coordinate bit k sits at bit 3k |
| ParticleVolume.SpreadLayout | test/pv/particlevolume.cpp:63-67 | The spread value has every bit k<21 at 3k and nothing outside mask0..mask2 |
| ParticleVolume.InterleaveBitX | test/pv/particlevolume.cpp:68 | In the final OR, bit 3k is the x spread's bit |
| ParticleVolume.InterleaveBitY | test/pv/particlevolume.cpp:68 | In the final OR, bit 3k+1 is the y spread's bit |
| ParticleVolume.InterleaveBitZ | test/pv/particlevolume.cpp:68 | In the final OR, bit 3k+2 is the z spread's bit |
| ParticleVolume.InterleaveTop | test/pv/particlevolume.cpp:68 | The top bit of the code stays 0 |
| ParticleVolume.InterleaveLayout | test/pv/particlevolume.cpp:68 | The final OR keeps the three spreads' bits apart |
| ParticleVolume.MortonEncode | test/pv/particlevolume.cpp:39-69 | Bit k of x, y and z (k<21) is bit 3k, 3k+1 and 3k+2 of the code respectively, and bit 63 is 0 |
| ParticleVolume.LowPartStep | test/pv/particlevolume.cpp:30-39 | Agreeing on bits below m and on bit m means agreeing on bits below m+1 |
| ParticleVolume.LowPart21 | test/pv/particlevolume.cpp:30 | The 21 low bits are the value masked with BITMASK_21BITS |
| ParticleVolume.SameBitsSameLow21 | test/pv/particlevolume.cpp:30-39 | Coordinates agreeing on bits 0..20 agree after masking with BITMASK_21BITS |
| ParticleVolume.MortonSameCode | test/pv/particlevolume.cpp:14-69 | Two triples share a code iff they agree on their low 21 bits |
| ParticleVolume.MortonInjective | test/pv/particlevolume.cpp:14-69 | On 21-bit components (0..2097151) the encoding is injective |
| ParticleVolume.SpreadLow21 | test/pv/particlevolume.cpp:51-67 | Spreading ignores coordinate bits 21..31 |
| ParticleVolume.MortonIgnoresHighBits | test/pv/particlevolume.cpp:39-69 | Bits above 20 of a coordinate do not affect the code |
| ParticleVolume.CellIndex | test/pv/particlevolume.cpp:119-123 | The index is computed exactly when all three coordinates pass both guards, and it lies inside the nx·ny·nz grid |
| ParticleVolume.CellIndexBound | test/pv/particlevolume.cpp:123 | In-range coordinates give an index in [0, nx·ny·nz) |
| ParticleVolume.CellIndexRoundTrip | test/pv/particlevolume.cpp:123 | The flat index decodes back to (hx, hy, hz), so distinct cells never share a grid slot |
| Sorting.MergeFrom | test/sorting.cpp:34-43 | The sequence the merge loop writes from cursors ai and bi, one branch per iteration. Its meaning is given by MergeFromStep, MergeFromPermutation and MergeFromSorted |
| Sorting.TakesLeft | test/sorting.cpp:35-42 | The branches that take the left head: the right run is empty, or both are non-empty and `lst[ai] < lst[bi]` (MergeFromStep, MergeFromTie) |
| Sorting.Merged | test/sorting.cpp:33-43 | The merge of lst[a..b) and lst[b..s). MergedSortedPermutation shows it is sorted and a permutation |
| Sorting.MergeFromLength | test/sorting.cpp:34-43 | The merge loop emits (b−ai)+(s−bi) elements |
| Sorting.MergeFromStep | test/sorting.cpp:35-42 | Each iteration takes the left head exactly in the branches the source takes it, otherwise the right head |
| Sorting.MergeFromPermutation | test/sorting.cpp:34-43 | The merge output is a permutation of the two remaining runs |
| Sorting.PermutationStep | test/sorting.cpp:35-42 | One merge step keeps the permutation property |
| Sorting.PermutationStepLeft | test/sorting.cpp:36-40 | Taking the left head keeps the permutation property |
| Sorting.PermutationStepRight | test/sorting.cpp:38-42 | Taking the right head keeps the permutation property |
| Sorting.MergeFromHead | test/sorting.cpp:34-43 | While a run is non-empty the loop emits one head and its measure decreases |
| Sorting.MergeFromBelow | test/sorting.cpp:34-43 | A lower bound of both sorted runs bounds the merge output |
| Sorting.MergeFromSorted | test/sorting.cpp:34-43 | Merging two sorted runs gives a sorted sequence |
| Sorting.MergedSortedPermutation | test/sorting.cpp:32-47 | Merge of two sorted halves of lst[a..s) is sorted and a permutation of lst[a..s) |
| Sorting.MergeFromTie | test/sorting.cpp:39-42 | On equal heads the strict `<` takes the right run's element first |
| Sorting.Merge | test/sorting.cpp:32-47 | lst[a..s) becomes the merge of its two runs, and nothing outside [a, s) changes |
| Sorting.MergeIntoTmp | test/sorting.cpp:33-43 | The loop fills tmp[a..s) with the merge |
| Sorting.CopyBack | test/sorting.cpp:45-46 | The copy loop sets lst[a..s) to tmp[a..s) and leaves the rest alone |
| Sorting.MergeLoopStep | test/sorting.cpp:34-43 | One loop iteration keeps the loop invariant |
| Sorting.MergeSort | test/sorting.cpp:49-56 | A range shorter than 2 leaves the array unchanged. Otherwise lst[a..b) ends sorted and a permutation of its old contents, and nothing outside changes |
| Sorting.SortStep | test/sorting.cpp:53-55 | Sorting both halves then merging sorts the range and permutes it |
| Sorting.SortedHalf | test/sorting.cpp:53-54 | A recursive call sorts and permutes its half and leaves the rest alone |
| CInt.Wrap32 | test/sorting.cpp:22 | The 32-bit int result of an arithmetic operation, in the int range and congruent to the exact value mod 2^32 |
| Sorting.Comp | test/sorting.cpp:21-23 | comp as written: the exact difference whenever it fits in an int, otherwise the wrapped one. CompSign and CompOverflow state what its sign means |
| Sorting.CompSign | test/sorting.cpp:21-23 | When the difference fits in an int, the sign of comp orders the elements |
| Sorting.CompOverflow | test/sorting.cpp:21-23 | comp(INT_MIN, 1) is positive, so it orders INT_MIN above 1 |
| Sorting.CompFixed | test/sorting.cpp:21-23 | A comparator whose sign is right for every pair of ints |
| Sorting.CompAgrees | test/sorting.cpp:21-23 | comp and the corrected comparator agree wherever the subtraction does not overflow |
| Dijkstra.AddOverflows | test/dijkstra.cpp:11 | IS_ADD_OVERFLOW as the macro spells it. AddOverflowsExact states what it means |
| Dijkstra.AddOverflowsExact | test/dijkstra.cpp:11 | IS_ADD_OVERFLOW(x, y) holds exactly when x+y leaves the int range |
| Dijkstra.InitDist | test/dijkstra.cpp:17-22 | Initially every distance is INT_MAX except 0 at the source |
| Dijkstra.Lowers | test/dijkstra.cpp:39-43 | The condition under which relaxing u→i writes dist[i] and prev[i] (RelaxedDist, RelaxedPrev, RelaxedDistBelow) |
| Dijkstra.RelaxedDist | test/dijkstra.cpp:38-47 | Relaxation from u lowers dist[i] to dist[u]+cost[u][i] exactly when the sum does not overflow, is smaller, and i is unvisited |
| Dijkstra.RelaxedPrev | test/dijkstra.cpp:38-47 | prev[i] becomes u exactly where the distance was lowered |
| Dijkstra.RelaxedDistBelow | test/dijkstra.cpp:43-46 | Relaxation never raises a distance and never touches a visited node |
| Dijkstra.VisitedCount | test/dijkstra.cpp:24-36 | The count of visited nodes is at most N |
| Dijkstra.VisitOne | test/dijkstra.cpp:36 | Marking an unvisited node raises the count by one, so the loop terminates |
| Dijkstra.InitTables | test/dijkstra.cpp:17-22 | dist and prev are filled as the source does |
| Dijkstra.Selected | test/dijkstra.cpp:26-33 | The first unvisited node of least, finite distance. SelectMin returns it and SelectedIsShortest shows its distance is final |
| Dijkstra.Exhausted | test/dijkstra.cpp:26-35 | No unvisited node has a finite distance, the case in which the selection returns −1 (SelectMin, ExhaustedUnreachable) |
| Dijkstra.SelectMin | test/dijkstra.cpp:26-33 | Returns −1 iff no unvisited node has a finite distance. Otherwise it returns the first unvisited node of least distance |
| Dijkstra.CostRow | test/dijkstra.cpp:39-42 | The row of costs out of u, as a value. Relax is stated with it |
| Dijkstra.Relax | test/dijkstra.cpp:38-47 | dist and prev become RelaxedDist and RelaxedPrev of their old values |
| Dijkstra.CostMatrix | test/dijkstra.cpp:13 | The cost matrix as a square value of rows. The path costs in Dijsktra's contract are stated with it |
| Dijkstra.PathCostAppend | test/dijkstra.cpp:42 | Extending a path by one edge adds that edge's cost |
| Dijkstra.PathCostPrefix | test/dijkstra.cpp:42 | With non-negative costs no prefix costs more than its path |
| Dijkstra.PathCostNonNegative | test/dijkstra.cpp:42 | With non-negative costs a path costs at least 0 |
| Dijkstra.RelaxedWitness | test/dijkstra.cpp:44-45 | The witness path of each lowered node is u's path extended by that node. PrevStep shows `prev` keeps recording the node before the last on it |
| Dijkstra.PrevTracks | test/dijkstra.cpp:44-45 | For every node other than the source with a finite distance, `prev` is the node before it on its witness path. It is a loop invariant of Dijsktra, kept by Visit |
| Dijkstra.PrevStep | test/dijkstra.cpp:38-47 | Relaxing the edges out of u keeps `prev` tracking the witness paths |
| Dijkstra.PrevLastEdge | test/dijkstra.cpp:42-45 | What `prev` records: prev[v] is a node, and some path from the source to it, extended by the edge prev[v]→v, costs exactly dist[v] |
| Dijkstra.InitInv | test/dijkstra.cpp:17-24 | The loop invariant holds after initialisation |
| Dijkstra.WitnessStep | test/dijkstra.cpp:38-47 | Every finite distance stays the cost of a real path from the source |
| Dijkstra.FrontierStep | test/dijkstra.cpp:36-47 | With non-negative costs, every edge out of a visited node is relaxed |
| Dijkstra.SettledStep | test/dijkstra.cpp:36-47 | Visited nodes keep their least-cost distance |
| Dijkstra.CrossesFrontier | test/dijkstra.cpp:25-47 | Every path from the source to an unvisited node passes an unvisited node whose distance is at most the path's cost |
| Dijkstra.SelectedIsShortest | test/dijkstra.cpp:26-36 | With non-negative costs, the selected node's distance is a lower bound on every path to it |
| Dijkstra.SelectedFirst | test/dijkstra.cpp:22-33 | The first node selected is the source |
| Dijkstra.StepPreserves | test/dijkstra.cpp:25-47 | One iteration keeps the invariant and visits one more node |
| Dijkstra.ExhaustedUnreachable | test/dijkstra.cpp:35 | With non-negative costs, the "invariant violated" assertion fires only when the target is unreachable |
| Dijkstra.VisitedShortest | test/dijkstra.cpp:25-50 | Once the target is visited its distance is finite and, with non-negative costs, the least path cost |
| Dijkstra.Visit | test/dijkstra.cpp:35-47 | Marks the selected node visited and relaxes its edges. The invariant is kept and the visited count rises by one |
| Dijkstra.ShortestCost | test/dijkstra.cpp:13-51 | d is the least cost of a path from source to target and some path costs exactly d (VisitedShortest, Dijsktra) |
| Dijkstra.Reachable | test/dijkstra.cpp:35 | Some path from source to target costs less than INT_MAX (ExhaustedUnreachable, Dijsktra) |
| Dijkstra.Dijsktra | test/dijkstra.cpp:13-51 | The two bounds asserts fire exactly on their conditions. With in-range nodes the outcome is a distance or the third assert. With non-negative costs that assert fires exactly when the target is unreachable, and otherwise the returned distance is the least path cost (below INT_MAX) |
| Matrix.Column | test/matrix.cpp:32-33 | The inner loop of loop_interchange_bad reads column j, top to bottom |
| Matrix.Row | test/matrix.cpp:43-44 | The inner loop of loop_interchange_good reads row i, left to right |
| Matrix.Columns | test/matrix.cpp:31-35 | The addresses loop_interchange_bad reads, column by column. ColumnsReadOnce shows each entry is read exactly once |
| Matrix.Rows | test/matrix.cpp:42-46 | The addresses loop_interchange_good reads, row by row. RowsSequential and RowsReadOnce show they are 0, 1, 2, …, each read once |
| Matrix.SumOver | test/matrix.cpp:28-48 | `sum +=` over the entries in a given read order. The interchange methods return it, and SumOverSnoc states one step |
| Matrix.Count | test/matrix.cpp:28-48 | How often a read order reads an address. CountIsMultiset ties it to the multiset of reads |
| Matrix.SumOverSnoc | test/matrix.cpp:33-44 | One more `sum +=` adds the entry read |
| Matrix.LoopInterchangeBad | test/matrix.cpp:28-37 | Returns the sum of memA accumulated in column-major order |
| Matrix.LoopInterchangeGood | test/matrix.cpp:39-48 | Returns the sum of memA accumulated in row-major order |
| Matrix.RowsSequential | test/matrix.cpp:42-46 | Row-major order visits addresses 0, 1, 2, … in order |
| Matrix.ColumnCount | test/matrix.cpp:32-33 | A column reads each address in that column once |
| Matrix.ColumnsCount | test/matrix.cpp:31-35 | The first j columns read each address in them once |
| Matrix.RangeCount | test/matrix.cpp:42-46 | A sequential sweep reads each address once |
| Matrix.ColumnsReadOnce | test/matrix.cpp:28-37 | loop_interchange_bad reads every entry of memA exactly once |
| Matrix.RowsReadOnce | test/matrix.cpp:39-48 | loop_interchange_good reads every entry of memA exactly once |
| Matrix.InterchangeSameReads | test/matrix.cpp:28-48 | Both loop orders read the same multiset of addresses, so they differ only in order |
| Matrix.Fused | test/matrix.cpp:50-64 | memA unchanged, memB = f(memA) and memC = g(memB) entrywise. FusedUnique shows it fixes memB and memC |
| Matrix.LoopFusionOff | test/matrix.cpp:50-57 | Afterwards memB = f(memA) and memC = g(memB) entrywise, memA unchanged |
| Matrix.LoopFusionOn | test/matrix.cpp:59-64 | The fused loop leaves the same relation |
| Matrix.FusedUnique | test/matrix.cpp:50-64 | That relation fixes memB and memC, so both versions produce the same arrays |
| Matrix.Transpose | test/matrix.cpp:69 | The reference transpose. TransposeEntries states it entrywise and TransposeInvolution shows it is an involution |
| Matrix.TransposeEntries | test/matrix.cpp:69 | t is the transpose iff t[j·N+i] = a[i·N+j] for all i, j |
| Matrix.TransposeInvolution | test/matrix.cpp:66-72 | Transposing twice gives the matrix back |
| Matrix.Offset | test/matrix.cpp:75-77 | The offset of an index inside its tile is in [0, B) |
| Matrix.TileIsCacheline | test/matrix.cpp:12-13 | The tile edge B is `cacheline_size / sizeof(float)` |
| Matrix.InTile | test/matrix.cpp:77-78 | Both in-tile offsets are below the bound w, the entries the inner loops visit (BlockedEntries) |
| Matrix.Min | test/matrix.cpp:77-78 | `std::min` of the inner loop bounds: the smaller of the two |
| Matrix.Blocked | test/matrix.cpp:74-84 | The reference tiled copy with in-tile bound w. BlockedEntries states it entrywise, and BlockedFullIsTranspose and BlockedShortMissesEdge compare it with the transpose |
| Matrix.BlockedEntries | test/matrix.cpp:77-79 | Exactly the entries whose in-tile offsets are both below the bound are copied transposed. All others keep their old memB value |
| Matrix.BlockedFullIsTranspose | test/matrix.cpp:74-84 | With the bound B the tiled copy is the full transpose, whatever memB held |
| Matrix.BlockedShortMissesEdge | test/matrix.cpp:77-78 | With the bound B−1, memB[15] is never written. The result is not the transpose whenever the old memB[15] differs from memA[15·N] |
| Matrix.LoopBlockingOff | test/matrix.cpp:66-72 | memB becomes the transpose of memA |
| Matrix.CopyTile | test/matrix.cpp:77-81 | One tile copies exactly its in-bound entries transposed and leaves the rest |
| Matrix.TileOffset | test/matrix.cpp:75-77 | Inside a tile starting at a multiple of B, the offset is the distance from the tile start |
| Matrix.OffsetIsMod | test/matrix.cpp:75-77 | The offset is the index mod B |
| Matrix.TileStep | test/matrix.cpp:76-82 | Completing a tile extends the tiled-copy invariant to the next tile |
| Matrix.LoopBlocking | test/matrix.cpp:74-84 | The tiled loop with in-tile bound w leaves `Blocked(memA, old memB, w)` |
| Matrix.LoopBlockingOn | test/matrix.cpp:74-84 | loop_blocking_on as written, with in-tile bound B−1, leaves `Blocked(memA, old memB, B−1)` |
| Matrix.LoopBlockingOnFixed | test/matrix.cpp:74-84 | With the bound `ii + B` the tiled loop leaves the transpose |

## Left out

- Floating point.
  - The matrix kernels store `float` and accumulate in `double`. The model is generic over the element type and the accumulation function, so `LoopInterchangeBad` and `LoopInterchangeGood` state the order in which entries are summed, not a numeric value.
  - The `+ 1` and `* 4` of the fusion kernels are the functions `f` and `g`.
  - `rbf`, the distance computation and `grid[cell_idx] +=` of `particle_over_grid_sorted` and `particle_over_grid` are left out. `CellIndex` models the bounds guard and flat index that both functions share.
  - `grid_over_particle` is left out. It computes the same flat index without a guard, over cells its loops keep in range.
- `create_morton_codes`: the quantisation of float positions to integers is floating point and is left out. `MortonEncode` is modelled on the integer codes.
- `ParticleVolume.CellIndex`: computed on unbounded integers. The source's `int` arithmetic could overflow for grids beyond 2^31 cells, which the model does not capture.
- Rendering of `%p`, `%s` and `%d` to characters: a text line is modelled as its label plus its field values, with `%d` given by `SignedView`. Failures of `fwrite` and `fprintf` are left out, since the source ignores their results.
- `TraceFileIO`: sizes and byte order follow the LP64 little-endian ABI, with a 4-byte enum, 8-byte `size_t` and pointers, and 1-byte `bool` and `char`.
  - Other ABIs are not modelled.
  - The one-byte call tag is `fwrite` of the first `sizeof(char)` byte of a 4-byte enum. On a little-endian target that is the low byte, which equals the tag for the values 1..3.
- The rest of `src/abstract_fileio.h` is not part of this model: file opening, the move assignment and the `writeOnly` parameter. Neither are the commented-out older text `Print` and `src/regina.cpp`, `src/log.h`, `src/trace_ref_t.h` and `src/per_thread_t.h`.
- The drivers of the workloads are left out: `main`, `initMem`, `rand`/`srand`, `rand_limit`, `malloc`, timing and output. The global arrays `memA`, `memB` and `memC` of the matrix workload become array parameters. The model requires them to be distinct arrays, as the source's separate allocations are. The sorting workload's global `memA` is what `main` passes to `MergeSort` as `lst`, which is already a parameter there.
- `QuickSort` (`std::qsort`) and the `std::sort` and `std::transform` calls of the drivers are library code and are left out. Only their comparator `comp` is modelled.
- `Sorting.Merge`'s stack buffer `int tmp[N]` is a fresh array of N elements, and `s <= N` is required for it. The source overflows the buffer otherwise.
- `Sorting.MergeSort`: stability is not stated, because the elements are plain `int`s and equal elements cannot be told apart. `MergeFromTie` states which run wins a tie.
- `Dijkstra.Dijsktra` returns only `dist[target]`, as the source does. The `prev` table is computed, as `Relax` states, and kept consistent with the witness paths (`PrevTracks`), but it is not returned.
- Helper methods: the loops of `Merge`, `dijsktra` and `loop_blocking_on` are split across `MergeIntoTmp`/`CopyBack`, `InitTables`/`SelectMin`/`Relax`/`Visit` and `CopyTile`/`LoopBlocking`. The order of the writes is the source's.
- `Matrix.B` is the literal 16. `TileIsCacheline` ties it to `cacheline_size / sizeof(float)` = 64 / 4.

## Findings

| source | as written | input that shows it | evidently intended | confidence | as-written member | corrected member |
|---|---|---|---|---|---|---|
| test/matrix.cpp:77-78 | The in-tile loops run while `i < min(ii + B - 1, N)` and `j < min(jj + B - 1, N)`, so the last row and column of every 16×16 tile are never copied | Any memA and memB with memB[15] ≠ memA[15·64]: entry (i=15, j=0) is skipped, so memB[15] keeps its old value | Bound `ii + B` (and `jj + B`), so loop_blocking_on computes the same transpose as loop_blocking_off | not executed | Matrix.LoopBlockingOn, Matrix.BlockedShortMissesEdge | Matrix.LoopBlockingOnFixed, Matrix.BlockedFullIsTranspose |
| test/sorting.cpp:21-23 | `comp` returns `a - b` in `int` arithmetic, which overflows when the difference leaves the int range (undefined behaviour, two's-complement wrap on common targets) | comp(INT_MIN, 1) wraps to INT_MAX and orders INT_MIN above 1. The driver's values 0..9 never reach it | A comparator returning the sign of the comparison, correct for every pair of ints | not executed | Sorting.Comp, Sorting.CompOverflow | Sorting.CompFixed, Sorting.CompAgrees |

# Verification models for GenSim and ArchSim

Dafny models of the algorithms in this repository that are hardest to get right, with
proofs of what they are for. `dafny verify dfyconfig.toml` checks the whole project.

| files | what they model |
|---|---|
| `Common.dfy` | types the models share |
| `Lz4*.dfy` | the LZ4 compressors and decompressors: every byte string comes back, within the size bound, and a grammar says what the decompressors make of every other input |
| `BinaryText.dfy`, `Decode*.dfy` | the instruction decode tree: it agrees with matching a word against every pattern, and which pattern wins is an order on patterns, before and after `Optimize` |
| `Ir*.dfy` | the IR sorters: each block keeps its instructions in order, whichever algorithm runs |
| `PageRegions.dfy`, `PagePool.dfy` | the page pool: free regions and live references partition every page set |
| `ZoneAllocator.dfy` | the zone allocator: live blocks never overlap, resizing keeps their bytes |
| `MemoryMonitor.dfy`, `MonitorCalls.dfy` | the load-linked/store-conditional monitor, over every interleaving of threads: its invariants, and what its calls return |
| `BlockTranslate.dfy`, `BlockPath.dfy` | block translation: what is accepted under other feature levels is what would be translated afresh, and a translation is what is on its path through the code |
| `GuestMemory.dfy` | page-cached guest memory: every run of accesses answers as flat memory does |

Code that works in place is modelled by methods over arrays and classes, each proved
against functions on values, and the laws are lemmas about those functions. Code that
only computes is modelled by functions.

How the models read the source:

- LZ4 is the 64-bit little-endian configuration. The two compressors differ only in hash
  width, table entry width, first-byte entry and distance test, so one model has both as
  variants. Reads past the end of the input, which `LZ4_uncompress` cannot avoid on bad
  input, yield zero; since the input is arbitrary this covers whatever lies there. A match
  with offset 0 repeats bytes that were never written; from then on the model says where
  the decoders write, but not what. Lengths in the decoders and all return values are `int`;
  where a length would leave its range, which C leaves undefined, the model's run ends with
  an outcome of its own.
- The decode tree holds 32-bit patterns only, which is what `Decode` supports. A pattern
  list per instruction is given. When `Optimize` shortens an edge to length 0 its value is
  the result of a shift by 32, which C leaves undefined (gensim/src/DecodeTree.cpp:364);
  nothing reads that value, and the model has 0 there.
- Pages, blocks and guest addresses are offsets from the start of their page set, chunk
  or address space. Chunks start on a page boundary.
- A thread and its id are one thing. A step of the monitor is one access to the mutex or to
  `locked_thread_`, or the whole of what a call does to the monitors while it has the lock;
  `locked_thread_` starts out null, as `std::make_shared` leaves it. `Notify` removes from
  the map it found, which is what its loop is for.
- An instruction's translator is any function that chooses each next action from the
  feature levels it has asked for so far.
- `LockRegion` gives different host pages to different guest pages; a page it does not have
  raises an exception. The memory model may give a guest page another host page at any time,
  and the page cache does not hear of it until it is invalidated.

Where the code falls short of what one would expect, the model keeps the code:

- The LZ4 decoders add up lengths in an `int` without a test. `Lz4Overflow.OverflowExact` says
  exactly when a length does whose four bits in the token are all set: when its bytes are
  8421504 times 255 and then one of at least 113. `Lz4Overflow.OverflowingInput` is such an input. On an input that nowhere
  has such bytes, and so on every input of at most 8421505 bytes, neither decoder overflows:
  `Lz4Overflow.TameKnown`, `Lz4Overflow.TameBounded`, `Lz4Overflow.ShortIsTame`.
- `LZ4_compressBound` and the return value of `LZ4_compress` are `int`. The bound fits if and
  only if the input has fewer than 2139095025 bytes: `Lz4Encode.BoundFits`. Beyond, the model
  gives the wrapped value.
- A page cache entry outlives its page's host page. After a page has changed, accesses go to
  its old host page if and only if the page is cached: `GuestMemory.CachedMemory.Remap`.
- `AddInstruction` drops the result of inserting below an existing constrained edge
  (gensim/src/DecodeTree.cpp:250). It therefore reports a conflict only for a pattern
  without any fixed bit; `DecodeInsert.AddReportsConflict` and
  `DecodeTheorems.RejectedInsertion` say exactly when, `DecodeTheorems.SilentConflict`
  is a conflict it does not report, and `DecodeTheorems.UnreportedConflict` says that every
  other conflict passes like it.
- The bounded decoder takes an input whose last match length the end of the input cuts off,
  and one that goes on after the output is full; the grammar (`Lz4Grammar.AcceptsExactly`)
  says so, and `Lz4Grammar.BoundedAccepts` that nothing else is accepted early.
- `Optimize` may change what a word decodes to: `DecodeOptimizedOrder.OptimizeChangesDecode`.
  `DecodeOptimizedOrder.LeaderWins` says which pattern wins afterwards,
  `DecodeOptimizedOrder.OptimizeKeepsExactly` when the instruction stays the same, and
  `DecodeOptimizedOrder.FirstStillLeads` when the pattern does.
- A `Notify` that returns between another thread's `AcquireMonitor` and its `LockMonitor`
  does not always disarm it, because it may have taken effect before:
  `MemoryMonitor.LateReturn`. `MonitorCalls.LockMonitorExact` gives the exact condition,
  and `MemoryMonitor.NotifiedSince` says that a `Notify` called and returned in between
  does disarm.
- `emit_block` keeps the page base in 32 bits. The translation is therefore a bare return,
  whatever the code, if and only if the address is at or above four gigabytes:
  `BlockTranslate.HighAddresses`.
- `NopFilter` may change the order of the NOPs among themselves:
  `IrNops.NopsChangePlaces` is the smallest case. `IrNops.NopOrderKept` says exactly when it
  does not: for every m, the number of other instructions between the m-th NOP and the next,
  or the end, is a multiple of m. `IrNops.FilterIsSort` says that, on IR that needs no other
  sorting, this is also exactly when the filter leaves what the sorts leave.

## Model

| member | source | states |
|---|---|---|
| Lz4.CompressThenUncompress | archsim/src/lz4/lz4.c:618-729 | for every input, decompressing what was compressed gives the input back and returns what compressing returned, which is the compressed length wherever its bound fits an int, whatever follows the compressed bytes |
| Lz4.CompressThenUncompressUnknown | archsim/src/lz4/lz4.c:618-818 | the same for the bounded decompressor, into any buffer that is large enough; it returns the input's length and no length overflows |
| Lz4Encode.Compress | archsim/src/lz4/lz4.c:618-634 | writes the encoding of a well-formed block whose contents are the input, within the bound, and returns its length as an int holds it, whichever compressor is chosen; n equal bytes take at most 11 and a 255th of n |
| Lz4Encode.CompressCtx | archsim/src/lz4/lz4.c:339-614 | the same for each compressor: the match search, hash table and output cursor only ever produce such a block |
| Lz4Encode.EncodeBound | archsim/src/lz4/lz4.c:328-331 | no block encodes to more than its length, a 255th of it and 16, however many sequences it has |
| Lz4Encode.BoundFits | archsim/src/lz4/lz4.c:328-331 | the bound fits an int if and only if the input has fewer than 2139095025 bytes |
| Lz4Encode.SequencesBound | archsim/src/lz4/lz4.c:328-331 | the extension bytes of all sequences together stay within a 255th of what they expand to |
| Lz4Encode.PositionFits | archsim/src/lz4/lz4.c:476-480 | a position that enters the 64K variant's table fits 16 bits |
| Lz4Encode.FindMatch | archsim/src/lz4/lz4.c:380-405 | takes the first of the probed positions whose table entry is near enough and agrees in four bytes, with every position before it entered, and gives up only at the end of the input; the match is a true one |
| Lz4Encode.UniformFound | archsim/src/lz4/lz4.c:375-405 | in an input of equal bytes the search finds the first byte again at once |
| Lz4Encode.CompressMatches | archsim/src/lz4/lz4.c:368-456 | the main loop leaves the encoding of sequences that stand for the input so far, and for equal bytes a single match up to the last literals |
| Lz4Encode.CatchUp | archsim/src/lz4/lz4.c:408 | extending a match backwards keeps it a match and stops only at the anchor, the start or a difference |
| Lz4Encode.EmitLiterals | archsim/src/lz4/lz4.c:411-417 | appends the literal run's encoding although the copy overruns its end |
| Lz4Encode.EmitMatch | archsim/src/lz4/lz4.c:421-441 | appends offset and length of a match that runs to the first difference or the limit, and completes the token |
| Lz4Encode.EmitMatchExtension | archsim/src/lz4/lz4.c:440 | the two-at-a-time loop writes the same length bytes as one at a time |
| Lz4Encode.EmitMatches | archsim/src/lz4/lz4.c:419-453 | a chain of matches keeps the output the encoding of sequences that stand for the input so far |
| Lz4Encode.NextPosition | archsim/src/lz4/lz4.c:446-452 | a match right after the last one is found exactly when the entry, with the position two back filled in, is near enough and four bytes agree |
| Lz4Encode.EmitLastLiterals | archsim/src/lz4/lz4.c:459-468 | appends the last literals' encoding |
| Lz4Encode.CoversStep | archsim/src/lz4/lz4.c:405-444 | a verified match extends what the sequences stand for and keeps the end-of-block conditions |
| Lz4Encode.CoversIsWellFormed | archsim/src/lz4/lz4.c:339-472 | sequences plus last literals are a well-formed block with the input as contents |
| Lz4Words.CommonBytes | archsim/src/lz4/lz4.c:260-288 | counting trailing zero bits of the xor of two words gives the length of their common prefix |
| Lz4Words.CountMatch | archsim/src/lz4/lz4.c:424-436 | eight bytes at a time finds the same match end as byte by byte |
| Lz4Words.CountTail | archsim/src/lz4/lz4.c:433-435 | the four, two and one byte tests find the first difference or the limit |
| Lz4Words.SameU32 | archsim/src/lz4/lz4.c:405 | equal 32-bit words mean four equal bytes |
| Lz4RoundTrip.KnownRoundTrip | archsim/src/lz4/lz4.c:649-729 | decoding any well-formed block's encoding, with anything after it, gives its contents and the encoding's length |
| Lz4RoundTrip.BoundedRoundTrip | archsim/src/lz4/lz4.c:732-818 | the same for the bounded decoder and every capacity that suffices |
| Lz4RoundTrip.KnownSequences | archsim/src/lz4/lz4.c:668-721 | after all sequences the decoder has produced what they expand to and stands at the last literals |
| Lz4RoundTrip.BoundedSequences | archsim/src/lz4/lz4.c:751-810 | the same for the bounded decoder, which still sees at least eight bytes after every run |
| Lz4RoundTrip.SequenceRead | archsim/src/lz4/lz4.c:671-690 | token, lengths, literals and offset of a sequence are read back as written |
| Lz4RoundTrip.ExtensionRead | archsim/src/lz4/lz4.c:672 | length extension bytes read back to the length, in both decoders' loops |
| Lz4Copy.CopyRepeated | archsim/src/lz4/lz4.c:692-720 | for every offset from 1 and every length that fits, the fast copy leaves what copying byte by byte leaves, and says when it does not fit |
| Lz4Copy.FirstEight | archsim/src/lz4/lz4.c:692-708 | the first eight bytes repeat with the offset's period, and the source pointer is left whole periods back |
| Lz4Copy.WildCopy | archsim/src/lz4/lz4.c:251 | copying eight at a time from whole periods back keeps the period |
| Lz4Copy.StepExtends | archsim/src/lz4/lz4.c:212 | one eight-byte step from at least eight back extends a periodic stretch |
| Lz4Copy.RepeatsIsCopyMatch | archsim/src/lz4/lz4.c:692-720 | a periodic stretch is exactly what the byte-by-byte match copy gives |
| Lz4Decode.Uncompress | archsim/src/lz4/lz4.c:649-729 | on every input writes the decoded output and returns the position consumed, or the negated position of the fault, each as an int holds it, or stops exactly where a length overflows; never writes outside the output up to there |
| Lz4Decode.UncompressTurn | archsim/src/lz4/lz4.c:668-721 | one turn of the loop is one step of the decoder, over-copying and overflow of the literal length included |
| Lz4Decode.UncompressMatch | archsim/src/lz4/lz4.c:685-720 | the match half of a turn, with overflow of the match length |
| Lz4Decode.ReadRun | archsim/src/lz4/lz4.c:672-690 | the int sum of length bytes is the length, or overflows exactly when the length does not fit |
| Lz4Decode.UncompressUnknownOutputSize | archsim/src/lz4/lz4.c:732-818 | the same for the bounded decoder, which on no input reads or writes out of bounds before a length overflows |
| Lz4Decode.UncompressBoundedTurn | archsim/src/lz4/lz4.c:751-810 | one turn of its loop, with overflow of the literal length |
| Lz4Decode.UncompressBoundedMatch | archsim/src/lz4/lz4.c:774-809 | the match half of a turn, with overflow of the match length |
| Lz4Decode.ReadBoundedRun | archsim/src/lz4/lz4.c:758-779 | the same as ReadRun for the loop that also stops at the end of the input |
| Lz4Overflow.OverflowExact | archsim/src/lz4/lz4.c:672-690 | a saturated length overflows, in either decoder, if and only if 8421504 bytes of 255 follow and then one of at least 113 |
| Lz4Overflow.ExtensionReaches | archsim/src/lz4/lz4.c:672-690 | length bytes reach a sum if and only if they start with as many full bytes as it has and go on high enough |
| Lz4Overflow.OverflowingInput | archsim/src/lz4/lz4.c:649-818 | an input on which the first length of both decoders overflows, whatever the output's size |
| Lz4Overflow.TameKnown | archsim/src/lz4/lz4.c:649-729 | on an input without such a run of bytes no length of the decoder overflows, in any run |
| Lz4Overflow.TameBounded | archsim/src/lz4/lz4.c:732-818 | the same for the bounded decoder |
| Lz4Overflow.ShortIsTame | archsim/src/lz4/lz4.c:649-818 | no input of at most 8421505 bytes has such a run |
| Lz4Grammar.DecodesAsParsed | archsim/src/lz4/lz4.c:649-818 | on every input each decoder answers what the grammar of the input says: success with which output and position, a fault at which position, or an overflow |
| Lz4Grammar.EveryInputParses | archsim/src/lz4/lz4.c:649-818 | the grammar says something of every input |
| Lz4Grammar.AcceptsExactly | archsim/src/lz4/lz4.c:649-818 | exactly which inputs are accepted, and at which position which others are faulty |
| Lz4Grammar.KnownAccepts | archsim/src/lz4/lz4.c:673-684 | the known-size decoder succeeds only with an output that leaves no room for another match |
| Lz4Grammar.BoundedAccepts | archsim/src/lz4/lz4.c:760-770 | the bounded decoder succeeds only at the end of the input or with a full output |
| Lz4Grammar.ReadSpells | archsim/src/lz4/lz4.c:672-779 | what a decoder reads as a length is what is spelled there, as a number of bytes of 255 and one more, cut short by the end of the input or not |
| BinaryText.ParseBinary | gensim/src/Util.cpp:95-104 | gives the value of a string of up to 32 bits |
| BinaryText.FormatBinary | gensim/src/Util.cpp:106-125 | gives the low bits of a value as text |
| BinaryText.BitAt | gensim/src/Util.cpp:106-125 | the most significant bit comes first |
| BinaryText.BitsOfValue | gensim/src/Util.cpp:95-125 | formatting the value of a bit string gives the string back |
| BinaryText.ValueOfBits | gensim/src/Util.cpp:95-125 | parsing a formatted value gives the value back |
| DecodeNodes.GetPrefix | gensim/src/DecodeTree.cpp:21-42 | finds the length of the run of x, or of bits, that starts at a position |
| DecodeNodes.DecodeNode.AddInstruction | gensim/src/DecodeTree.cpp:198-260 | in-place insertion gives the tree and the result of insertion on values |
| DecodeNodes.DecodeNode.AddUnconstrained | gensim/src/DecodeTree.cpp:213-234 | the same for a pattern that starts with x: the edge is made, followed or broken |
| DecodeNodes.DecodeNode.AddConstrained | gensim/src/DecodeTree.cpp:235-258 | the same for a pattern that starts with fixed bits |
| DecodeNodes.DecodeNode.BreakUnconstrained | gensim/src/DecodeTree.cpp:94-108 | splitting the unconstrained edge in place is the split on values |
| DecodeNodes.DecodeNode.Optimize | gensim/src/DecodeTree.cpp:262-380 | in-place left-factoring gives the tree that left-factoring on values gives |
| DecodeNodes.DecodeNode.FactorOut | gensim/src/DecodeTree.cpp:332-373 | moving the edges of one prefix below a new node, in place, is the move on values |
| DecodeNodes.DecodeNode.Decode | gensim/src/DecodeTree.cpp:394-426 | the search over the nodes gives the search on values |
| DecodeSearch.ChunkIsSlice | gensim/src/DecodeTree.cpp:417 | the extracted field of a word is the slice of its bits |
| DecodeSearch.DecodeSound | gensim/src/DecodeTree.cpp:394-426 | what the search returns lies on a path whose pattern matches the word |
| DecodeSearch.DecodeComplete | gensim/src/DecodeTree.cpp:394-426 | if any path's pattern matches the word, the backtracking search finds something |
| DecodePriority.FirstPatternWins | gensim/src/DecodeTree.cpp:394-426 | of the inserted patterns that match a word, the one that comes first in an order on patterns wins: at the first place where only one is fixed the fixed one goes first, unless a fixed bit stands before it, where the other does |
| DecodePriority.Winner | gensim/src/DecodeTree.cpp:411-424 | the search finds the pattern that leads all others that match: shorter edges before longer ones, the unconstrained one last |
| DecodePriority.OneFirst | gensim/src/DecodeTree.cpp:394-426 | of two different patterns that match a word exactly one comes before the other |
| DecodePriority.AddAscends | gensim/src/DecodeTree.cpp:235-258 | insertion keeps shorter edges first |
| DecodeInsert.AddBuilt | gensim/src/DecodeTree.cpp:198-260 | insertion keeps edges distinct, aligned and canonical |
| DecodeInsert.OwnerIsPath | gensim/src/DecodeTree.cpp:198-260 | following a pattern edge by edge finds the owner of exactly that path |
| DecodeInsert.AddOwner | gensim/src/DecodeTree.cpp:198-260 | insertion gives the pattern an owner if it had none, and changes no other pattern's owner |
| DecodeInsert.BrokenOwner | gensim/src/DecodeTree.cpp:94-108 | splitting the unconstrained edge changes no owner |
| DecodeInsert.AddReportsConflict | gensim/src/DecodeTree.cpp:198-260 | insertion reports failure if and only if the pattern has no fixed bit and another instruction owns it |
| DecodeOptimize.FactorPaths | gensim/src/DecodeTree.cpp:332-373 | factoring out a prefix keeps every pattern and its instruction, zero-length edges included |
| DecodeOptimize.GatherPaths | gensim/src/DecodeTree.cpp:361-372 | the new node has exactly the paths of the shortened edges |
| DecodeOptimize.SelectExclusive | gensim/src/DecodeTree.cpp:302-327 | no chosen prefix is a prefix of another |
| DecodeOptimize.SelectedFactorable | gensim/src/DecodeTree.cpp:274-300 | every chosen prefix is a nonempty prefix within the word |
| DecodeOptimize.SelectedMoveOnce | gensim/src/DecodeTree.cpp:302-373 | each edge moves at most once: a chosen prefix collects exactly the original edges that start with it, and no edge starts with two chosen prefixes |
| DecodeOptimize.SelectedExclusive | gensim/src/DecodeTree.cpp:274-327 | the prefixes chosen for a node's edges are mutually exclusive |
| DecodeRanking.SelectedGreedy | gensim/src/DecodeTree.cpp:274-327 | only prefixes that enough edges share are chosen, and each that is shared enough is chosen or overlaps a chosen one that more edges share, or as many and longer or larger |
| DecodeRanking.PopularityIsSharers | gensim/src/DecodeTree.cpp:274-290 | a prefix's popularity is the number of edges that share it and keep enough of their length |
| DecodeOptimizedOrder.LeaderWins | gensim/src/DecodeTree.cpp:262-426 | in the optimized tree the same order decides, except that where the tree falls through at the end of the shorter run the longer one goes first |
| DecodeOptimizedOrder.FirstStillLeads | gensim/src/DecodeTree.cpp:262-426 | the first pattern still leads if and only if the optimized tree does not fall through where its run is the shorter one |
| DecodeOptimizedOrder.OptimizeKeepsExactly | gensim/src/DecodeTree.cpp:262-426 | optimizing does not change what a word decodes to if and only if the first and the leading pattern have one owner |
| DecodeOptimizedOrder.OptimizeKeepsFirst | gensim/src/DecodeTree.cpp:262-426 | nor does it where the first pattern differs from the others first at a place with no fixed bit before it |
| DecodeOptimizedOrder.OptimizeChangesDecode | gensim/src/DecodeTree.cpp:346-373 | for every word that starts with two ones, factoring out the first makes the longer of two patterns win instead of the shorter |
| DecodeOptimize.OptimizePaths | gensim/src/DecodeTree.cpp:262-380 | optimizing keeps the set of patterns and their instructions, for every minimum of at least one |
| DecodeTheorems.BuildOwner | gensim/src/DecodeTree.cpp:188-260 | after any insertions, a pattern belongs to the instruction that inserted it first |
| DecodeTheorems.BuildPaths | gensim/src/DecodeTree.cpp:188-260 | the tree's paths are exactly the inserted patterns with their first owners |
| DecodeTheorems.BuildDecodes | gensim/src/DecodeTree.cpp:394-426 | decoding a word finds an instruction if and only if some inserted pattern matches, and only one that owns a matching pattern |
| DecodeTheorems.OptimizedDecodes | gensim/src/DecodeTree.cpp:262-426 | the same of the optimized tree |
| DecodeTheorems.OptimizeKeepsDecode | gensim/src/DecodeTree.cpp:262-426 | where one instruction owns all patterns that match a word, optimizing does not change what it decodes to |
| DecodeTheorems.RejectedInsertion | gensim/src/DecodeTree.cpp:198-260 | after any insertions, exactly when the next one is reported as a conflict |
| DecodeTheorems.RejectedKeepsOwners | gensim/src/DecodeTree.cpp:198-260 | a reported conflict changes no pattern's owner |
| DecodeTheorems.UnreportedConflict | gensim/src/DecodeTree.cpp:198-260 | a pattern with a fixed bit that another instruction owns is inserted with success reported, and the tree keeps its owner |
| DecodeTheorems.SilentConflict | gensim/src/DecodeTree.cpp:248-250 | every fully fixed pattern can be inserted for a second instruction without a report, and the tree keeps its first owner |
| DecodeTheorems.AddInstructionBuilds | gensim/src/DecodeTree.cpp:188-196 | inserting an instruction's patterns makes exactly those before the first conflict reported, and succeeds if and only if there is none |
| DecodeTheorems.AcceptedMade | gensim/src/DecodeTree.cpp:188-196 | without a reported conflict all patterns are inserted |
| DecodeIndex.AddDescription | gensim/src/DecodeTree.cpp:188-196 | on the nodes, a description's patterns are inserted up to the first one that is rejected |
| DecodeIndex.Extend | gensim/src/DecodeTree.cpp:188-196 | after each description the nodes are the tree of the insertions made, and success is reported if and only if none was rejected |
| DecodeIndex.AllAcceptedMade | gensim/src/generators/DecodeGenerator.cpp:62-78 | if no description has a rejected pattern, every pattern of every description is inserted |
| DecodeIndex.BuildAndDecode | gensim/src/generators/DecodeGenerator.cpp:62-78 | nodes built from descriptions, optimized in place and searched decode every word as matching it against the patterns inserted does: all patterns of the descriptions, save that a description stops at a pattern that is rejected; the owner of the pattern that leads wins |
| IrSorter.DifferenceOrders | archsim/inc/blockjit/ir-sorter.h:43-46 | the signed 32-bit difference orders two keys if and only if they are less than half the range apart |
| IrSorter.Sorter.Compare | archsim/inc/blockjit/ir-sorter.h:43-46 | is negative exactly for a smaller block, for blocks up to the NOP block |
| IrSorter.Sorter.GnomeSort | archsim/src/blockjit/ir-sorter.cpp:51-68 | ends, and leaves the stable sort of the positions by block |
| IrSorter.Sorter.MergeSort | archsim/src/blockjit/ir-sorter.cpp:70-74 | leaves the same array as GnomeSort |
| IrSorter.Sorter.Sort | archsim/src/blockjit/ir-sorter.cpp:76-88 | sorts a stretch stably and touches nothing else |
| IrSorter.Sorter.Merge | archsim/src/blockjit/ir-sorter.cpp:90-121 | merges two sorted neighbouring stretches stably in place |
| IrSorter.Sorter.Rotate | archsim/src/blockjit/ir-sorter.cpp:123-128 | three reversals exchange two neighbouring stretches |
| IrSorter.Sorter.Reverse | archsim/src/blockjit/ir-sorter.cpp:148-153 | mirrors a stretch |
| IrSorter.Sorter.InsertSort | archsim/src/blockjit/ir-sorter.cpp:155-170 | sorts a stretch stably and touches nothing else |
| IrSorter.Sorter.Upper | archsim/src/blockjit/ir-sorter.cpp:172-187 | binary search: everything before is not larger, everything from there on is larger |
| IrSorter.Sorter.Lower | archsim/src/blockjit/ir-sorter.cpp:189-204 | binary search: everything before is smaller, nothing from there on is |
| IrSorter.Sorter.NopFilter | archsim/src/blockjit/ir-sorter.cpp:206-234 | the entries that are not NOPs come first in their order; the NOPs follow in the order that the passing entries have turned them into |
| IrNops.StageExchange | archsim/src/blockjit/ir-sorter.cpp:214-230 | the exchange keeps the entries that are not NOPs in order and turns the waiting NOPs by one place |
| IrNops.FilteredCompacted | archsim/src/blockjit/ir-sorter.cpp:206-234 | what the filter leaves has all other entries first, as they stood, and only NOPs after them |
| IrNops.NopOrderKept | archsim/src/blockjit/ir-sorter.cpp:206-234 | the NOPs keep their order if and only if, for every m, the number of other entries between the m-th NOP and the next, or the end, is a multiple of m |
| IrNops.NopsChangePlaces | archsim/src/blockjit/ir-sorter.cpp:206-234 | two NOPs in front of another entry come out in the opposite order |
| IrNops.FilterIsSort | archsim/src/blockjit/ir-sorter.cpp:206-234 | with the other blocks in order, the filter leaves what the sorts leave under exactly that condition |
| IrOrder.SortedUnique | archsim/src/blockjit/ir-sorter.cpp:51-88 | there is only one stable arrangement |
| IrOrder.StableSortSorted | archsim/src/blockjit/ir-sorter.cpp:51-88 | the reference sort is sorted by block and then by position |
| IrOrder.SwapRemovesInversion | archsim/src/blockjit/ir-sorter.cpp:58-59 | each exchange of GnomeSort removes an inversion |
| IrOrder.CutMerges | archsim/src/blockjit/ir-sorter.cpp:102-120 | after rotating at the cuts, two smaller merges remain whose results concatenate in order |
| IrTransform.FindRunSize | archsim/src/blockjit/ir-sorter.cpp:11-20 | finds the longest run of consecutive positions |
| IrTransform.CopyRuns | archsim/src/blockjit/ir-sorter.cpp:33-43 | copying runs gathers the instructions one by one |
| IrTransform.PerformSort | archsim/src/blockjit/ir-sorter.cpp:22-49 | each algorithm keeps all instructions and every other block's order; the sorts group the blocks and agree, the filter puts the NOPs last and gathers by its order |
| IrTransform.StableKeeps | archsim/src/blockjit/ir-sorter.cpp:22-88 | gathering by the stable order keeps every block as it was, in block order |
| IrTransform.CompactedKeeps | archsim/src/blockjit/ir-sorter.cpp:206-234 | gathering by the filter's order keeps every block but the NOPs' |
| IrTransform.Scan | archsim/src/blockjit/block-compiler/transforms/SortIRTransform.cpp:36-58 | calls the IR sorted if and only if its other blocks are in order and it does not start with a NOP that something else follows, and finds exactly whether the NOPs are last |
| IrTransform.Apply | archsim/src/blockjit/block-compiler/transforms/SortIRTransform.cpp:27-76 | whichever path is taken, the blocks come out in order, each one as it was |
| IrTransform.SameProgram | archsim/src/blockjit/block-compiler/transforms/SortIRTransform.cpp:60-68 | any two outputs in block order that keep the blocks hold the same program, so it does not matter which path is taken |
| IrTransform.GroupedUnique | archsim/src/blockjit/ir-sorter.cpp:22-49 | IR in block order is determined by its blocks |
| PagePool.PageSet.constructor | archsim/src/util/PagePool.cpp:38-51 | starts with all pages free |
| PagePool.PageSet.CanAllocate | archsim/src/util/PagePool.cpp:58-77 | with coalescing, true if and only if that many free pages lie side by side; without, if and only if some region is large enough |
| PagePool.PageSet.Get | archsim/src/util/PagePool.cpp:79-128 | hands out free pages, first fit, and fails only when there are none; free and handed-out pages still partition the set |
| PagePool.PageSet.Coalesce | archsim/src/util/PagePool.cpp:136-167 | keeps the free pages and leaves regions sorted with gaps between them |
| PagePool.PageSet.CoalesceOnce | archsim/src/util/PagePool.cpp:150-166 | merges two touching neighbours, or there are none |
| PagePool.PageSet.Return | archsim/src/util/PagePool.cpp:189-207 | exactly the returned pages become free |
| PagePool.PageSet.EmptyExact | archsim/inc/util/PagePool.h:39-45 | after coalescing, Empty holds if and only if nothing is handed out |
| PagePool.CoalescedExact | archsim/src/util/PagePool.cpp:58-77 | in a coalesced list, a run of free pages exists if and only if one region is that large |
| PageRegions.ContiguousInOne | archsim/src/util/PagePool.cpp:136-187 | in a coalesced list, neighbouring free pages lie in one region |
| PageRegions.JoinedCovers | archsim/src/util/PagePool.cpp:169-187 | merging two touching regions keeps the pages |
| PageRegions.SortKeeps | archsim/src/util/PagePool.cpp:130-134 | sorting by start keeps the regions and orders them |
| PagePool.Pool.constructor | archsim/src/util/PagePool.cpp:209-212 | an empty pool |
| PagePool.Pool.Allocate | archsim/src/util/PagePool.cpp:214-230 | succeeds for every size below a set, from the current set if it fits, else from a new one |
| PagePool.Pool.AllocateB | archsim/inc/util/PagePool.h:77-82 | gives more than enough bytes, by at most one page |
| PagePool.Pool.Destroy | archsim/src/util/PagePool.cpp:33-36 | destroying a reference frees its pages and no others |
| PagePool.Pool.GC | archsim/src/util/PagePool.cpp:232-259 | ends, and deletes a set if and only if no live reference points into it |
| PagePool.Pool.Sweep | archsim/src/util/PagePool.cpp:240-257 | one pass deletes one unused set, in whatever order, or there is none |
| PagePool.Pool.ReferencesApart | archsim/src/util/PagePool.cpp:214-230 | two live references into one set never share a page |
| ZoneAllocator.Chunk.Allocate | archsim/inc/util/MemAllocator.h:105-143 | cuts an aligned block behind a header above all others, or fails exactly when it does not fit |
| ZoneAllocator.Chunk.Extend | archsim/inc/util/MemAllocator.h:145-158 | rounding up after an extension stays inside the chunk and is exact |
| ZoneAllocator.Chunk.Grow | archsim/src/util/MemAllocator.cpp:103-126 | the topmost block grows and the chunk stays well laid out |
| ZoneAllocator.Chunk.Shrink | archsim/inc/util/MemAllocator.h:160-165 | the topmost block shrinks and the rest is given back |
| ZoneAllocator.Chunk.Free | archsim/inc/util/MemAllocator.h:167-189 | the count says exactly whether the chunk is empty |
| ZoneAllocator.Zone.Allocate | archsim/src/util/MemAllocator.cpp:73-92 | gives a new block of the size behind the last one and changes no other, from the active chunk if it has room, or null exactly for a size no chunk holds |
| ZoneAllocator.Zone.Free | archsim/src/util/MemAllocator.cpp:159-175 | takes off one block; a chunk goes exactly when its last live block does; the last buffer stays topmost or null |
| ZoneAllocator.Zone.Reallocate | archsim/src/util/MemAllocator.cpp:94-157 | the first bytes are kept, nothing is written outside the result and the header in front of it, every other block stays, it is in place exactly for the last buffer when there is room, and the result is the last buffer |
| ZoneAllocator.Zone.ResizeLast | archsim/src/util/MemAllocator.cpp:101-142 | the in-place half: done exactly when it fits |
| ZoneAllocator.Zone.Replace | archsim/src/util/MemAllocator.cpp:144-157 | the moving half: allocate, copy, free |
| ZoneAllocator.Zone.Apart | archsim/inc/util/MemAllocator.h:105-143 | two live blocks, headers included, do not overlap |
| ZoneAllocator.Zone.Inside | archsim/inc/util/MemAllocator.h:105-143 | a live block is 16-byte aligned and lies in its chunk behind its header |
| MemoryMonitor.StepKeepsLock | archsim/src/core/MemoryMonitor.cpp:9-33 | every step of every thread keeps: locked_thread_ is t only while t has the mutex, and each thread's position agrees with the lock |
| MemoryMonitor.StepKeepsMonitors | archsim/src/core/MemoryMonitor.cpp:35-76 | every step keeps the monitors equal to what the history arms |
| MemoryMonitor.StepKeepsNotify | archsim/src/core/MemoryMonitor.cpp:65-76 | every step keeps each Notify's order: called, effective, returned |
| MemoryMonitor.RunKeeps | archsim/src/core/MemoryMonitor.cpp:9-76 | all of these hold after every interleaving |
| MemoryMonitor.UnlockedReadHarmless | archsim/src/core/MemoryMonitor.cpp:13-20 | the unlocked comparison finds t exactly when t has the mutex, so no thread waits for a mutex it holds |
| MemoryMonitor.LockHeldBetweenCalls | archsim/src/core/MemoryMonitor.cpp:9-76 | between calls a thread has the mutex if and only if its latest call was Lock or a LockMonitor that succeeded |
| MemoryMonitor.OnlyOwnerStores | archsim/src/core/MemoryMonitor.cpp:13-16 | only thread t ever stores t |
| MemoryMonitor.CheckExact | archsim/src/core/MemoryMonitor.cpp:49 | LockMonitor decides for success if and only if the thread's latest AcquireMonitor was on that address and no other thread's Notify of it took effect since |
| MonitorCalls.LockMonitorExact | archsim/src/core/MemoryMonitor.cpp:45-57 | LockMonitor returns true if and only if that was so when it decided, which was the thread's last event |
| MonitorCalls.CallsAnswered | archsim/src/core/MemoryMonitor.cpp:9-76 | in every interleaving a thread's calls are answered in order, and its events are exactly the effects its answers stand for |
| MonitorCalls.CallReturns | archsim/src/core/MemoryMonitor.cpp:9-76 | while no other thread has the mutex, a call returns within eight steps of its thread |
| MonitorCalls.StepAdvances | archsim/src/core/MemoryMonitor.cpp:9-76 | a step brings a call nearer to its end unless another thread has the mutex it waits for |
| MemoryMonitor.ArmedMeans | archsim/src/core/MemoryMonitor.cpp:35-76 | the armed address, folded over the history, is the one taken last and not dropped since |
| MemoryMonitor.NotifyTakesEffect | archsim/src/core/MemoryMonitor.cpp:65-76 | a Notify takes effect between its call and its return |
| MemoryMonitor.NotifiedSince | archsim/src/core/MemoryMonitor.cpp:45-76 | a Notify called and returned since the AcquireMonitor makes LockMonitor fail |
| MemoryMonitor.LateReturn | archsim/src/core/MemoryMonitor.cpp:45-76 | an interleaving in which a Notify returns in between and LockMonitor still succeeds |
| MemoryMonitor.Exclusive | archsim/src/core/MemoryMonitor.cpp:9-33 | while a thread has the lock, no steps of other threads touch a monitor or the lock |
| MonitorCalls.LockMonitorLocks | archsim/src/core/MemoryMonitor.cpp:45-57 | from a LockMonitor that returns true until the thread's next step, whatever others do, it has the lock and its monitor is on the address |
| BlockTranslate.TranslationReuse | archsim/src/blockjit/BlockJitTranslate.cpp:54-168 | a translation accepted under other feature levels equals the one made afresh under them, IR and required features |
| BlockTranslate.BlockReuse | archsim/src/blockjit/BlockJitTranslate.cpp:309-377 | from states alike on the levels asked for, a block is built alike |
| BlockTranslate.BodyReuse | archsim/src/blockjit/BlockJitTranslate.cpp:134-145 | the same for one instruction, whatever it reads, sets and emits |
| BlockPath.TranslatesAlong | archsim/src/blockjit/BlockJitTranslate.cpp:54-377 | a translation is the operations of the instructions on a path through the code, in order, and one return, with the features asked for on it; the path goes from instruction to instruction or along merged jumps, on one page, at most 32 instructions between jumps |
| BlockPath.EveryBlockHasPath | archsim/src/blockjit/BlockJitTranslate.cpp:309-377 | every translation has such a path, and it ends in one of four ways |
| BlockPath.BodyPerforms | archsim/src/blockjit/BlockJitTranslate.cpp:134-197 | for a translator that performs a list of actions, the IR grows by exactly their operations in order, and levels, mode and features asked for are as the list says |
| BlockPath.EveryBodyPerforms | archsim/src/blockjit/BlockJitTranslate.cpp:256 | every translator performs some list of actions, or faults after one |
| BlockPath.LastLevel | archsim/src/blockjit/BlockJitTranslate.cpp:134-138 | a feature has the level it was set to last |
| BlockPath.KeptLevel | archsim/src/blockjit/BlockJitTranslate.cpp:134-138 | a feature that is not set keeps its level |
| BlockTranslate.HeadsGrow | archsim/src/blockjit/BlockJitTranslate.cpp:356-363 | a merged jump stays on the page and adds a block head, so the recursion ends |
| BlockTranslate.HighAddresses | archsim/src/blockjit/BlockJitTranslate.cpp:313-345 | the translation is a bare return that requires nothing, whatever the code, if and only if the address is at or above four gigabytes |
| BlockTranslate.FirstInstructionSeen | archsim/src/blockjit/BlockJitTranslate.cpp:341-352 | below, code that cannot be decoded makes the translation fail |
| BlockTranslate.Translator.EmitBlock | archsim/src/blockjit/BlockJitTranslate.cpp:309-377 | the loop with its recursion builds what the block function says, or throws when it says so |
| BlockTranslate.Translator.EmitInstruction | archsim/src/blockjit/BlockJitTranslate.cpp:226-272 | runs an instruction's translator against the feature state |
| BlockTranslate.Translator.SetIsaMode | archsim/src/blockjit/BlockJitTranslate.cpp:178-197 | the mode changes, but once unknown it stays unknown |
| BlockTranslate.Translator.GetFeatureLevel | archsim/src/blockjit/BlockJitTranslate.cpp:140-145 | answers the current level and records that it was asked for |
| BlockTranslate.Translator.AttachFeatures | archsim/src/blockjit/BlockJitTranslate.cpp:163-168 | requires exactly the features asked for, at their initial levels; throws exactly when one had none |
| BlockTranslate.Translator.TranslateBlock | archsim/src/blockjit/BlockJitTranslate.cpp:54-103 | gives the translation that the reuse law is about |
| BlockTranslate.FeaturesValid | archsim/src/blockjit/BlockProfile.cpp:24-33 | true if and only if every required feature has its level; otherwise the first that has not decides between false and an exception |
| BlockTranslate.ValidAccepts | archsim/src/blockjit/BlockProfile.cpp:24-33 | the loop decides exactly what the reuse law asks for |
| BlockTranslate.CheckReuse | archsim/src/blockjit/BlockProfile.cpp:24-33 | where the loop returns true on a translation's features, the translation made afresh is the same |
| GuestMemory.CachedMemory.PerformAll | archsim/src/core/MemoryInterface.cpp:208-343 | every run of reads, writes and invalidations of every width answers as flat memory does and leaves it so |
| GuestMemory.CachedMemory.Perform | archsim/src/core/MemoryInterface.cpp:254-343 | one access answers and changes memory as flat memory does, errors included |
| GuestMemory.CachedMemory.PerformRead | archsim/src/core/MemoryInterface.cpp:254-289 | a read of any width, sixteen bytes included, answers as flat memory does |
| GuestMemory.CachedMemory.PerformWrite | archsim/src/core/MemoryInterface.cpp:291-327 | a write of any width answers and changes memory as flat memory does |
| GuestMemory.CachedMemory.GetPtr | archsim/src/core/MemoryInterface.cpp:222-252 | gives the host page that the address's cache entry has, or else the current one, and leaves it in its slot; with no stale entry, the current one |
| GuestMemory.CachedMemory.Remap | archsim/src/core/MemoryInterface.cpp:222-252 | when a page gets another host page, accesses to it see the old one if and only if it is cached; all others see what they saw |
| GuestMemory.CachedMemory.SeenIsCurrent | archsim/src/core/MemoryInterface.cpp:222-252 | every access goes to the current host page if and only if no entry is stale |
| GuestMemory.CachedMemory.Stale | archsim/src/core/MemoryInterface.cpp:222-252 | after one page has changed, exactly that page's entry is stale |
| GuestMemory.CachedMemory.Invalidate | archsim/src/core/MemoryInterface.cpp:208-214 | leaves no entry in use, so that every access goes to the current host page, however the pages were changed before |
| GuestMemory.CachedMemory.Read8 | archsim/src/core/MemoryInterface.cpp:254-258 | gives the byte of the page the access goes to; with no stale entry, the flat byte |
| GuestMemory.CachedMemory.Write8 | archsim/src/core/MemoryInterface.cpp:291-295 | changes that flat byte and no other |
| GuestMemory.CachedMemory.ReadWord | archsim/src/core/MemoryInterface.cpp:260-284 | gives the little-endian word of the flat bytes, across a page boundary or not |
| GuestMemory.CachedMemory.WriteWord | archsim/src/core/MemoryInterface.cpp:297-322 | writes the word's bytes and nothing else, up to the first page that is missing |
| GuestMemory.CachedMemory.ReadBytes | archsim/src/core/MemoryInterface.cpp:329-335 | gives the flat bytes, around the end of the address space too |
| GuestMemory.CachedMemory.WriteBytes | archsim/src/core/MemoryInterface.cpp:337-343 | writes the bytes up to the first page that is missing |
| GuestMemory.CachedMemory.Read | archsim/src/core/MemoryInterface.cpp:60-92 | steps of eight, four and one give the same bytes as byte by byte |
| GuestMemory.ReadExpected | archsim/src/core/MemoryInterface.cpp:254-289 | a read fails if and only if some byte of it is on no page; otherwise the byte at a + i has weight 256 to the i |
| GuestMemory.WriteExpected | archsim/src/core/MemoryInterface.cpp:291-327 | a write puts the digit of weight 256 to the i at a + i, up to the first byte that is on no page, and changes no other byte |
| GuestMemory.WordDigit | archsim/src/core/MemoryInterface.cpp:260-284 | in a word, the byte at i is the digit of weight 256 to the i |
| GuestMemory.BytesDigit | archsim/src/core/MemoryInterface.cpp:297-322 | the same of the bytes of a word |
| GuestMemory.WriteThenRead | archsim/src/core/MemoryInterface.cpp:254-343 | a word written to memory that is there is read back |
| GuestMemory.WithinPage | archsim/src/core/MemoryInterface.cpp:262-281 | an access whose ends are on one page lies in it side by side |

## Left out

- DecodeNodes.DecodeNode.BreakUnconstrained: only positions inside the edge, which is all that insertion passes; beyond it the source goes on to `DecodeTransition::Break`, which is left out below.
- Lz4Encode.EmitMatches: says that what is written stands for the input, not that every match right behind another is taken; `Lz4Encode.NextPosition` says which are found.
- LZ4 on big-endian and 32-bit hosts and with other compilers, and the bit-scan fallbacks.
- What the LZ4 decoders do after a length has overflowed, which C leaves undefined; positions and pointers are unbounded.
- The compressor's early return when it must not expand its input: `LZ4_COMPRESSMIN` is 0 in this configuration.
- The header bytes of zone blocks are kept as a table beside the memory rather than in it, and `mmap` failures are not modelled. A debug build also asserts that a freed address lies before the end of its chunk, which a block of size 0 at the very end does not.
- The decode tree's `DecodeTransition::Break`, `MergeNodes` and `MergeCommonNodes`, code generation from the tree, and the fields that `Decode` extracts once it has found the instruction.
- Patterns of other lengths than 32 bits, for which `Decode` has no support.
- Concurrent use of the page pool, which takes its lock in `Allocate` and `GC` but not when a reference is destroyed.
- `mprotect`, alignment of page sets, and the debug fill patterns of the page pool.
- Weak memory effects of the monitor's unlocked read: it is one atomic step.
- Reference counts, iterator invalidation and logging in `Notify` and elsewhere.
- Optimizing and lowering IR to native code, and `emit_chain`, which always ends in a return.
- Trace, profile and tick operations around an instruction, and the MMU translations of `emit_chain`.
- `BlockPageProfile` and the translation caches: storing translations and dropping them page by page.
- Memory-mapped devices, the MMU and memory models behind `LockRegion`.
- `MemoryInterface::Write` and the string accesses, which are loops of one-byte accesses.

# Storage formats, index keys and structure checks, verified

This project models parts of a PostgreSQL server's contributed modules in Dafny
and proves what they promise.

- **Bloom index** (`Bloom*.dfy`): the Park-Miller generator with its exact 32-bit
  arithmetic, column signatures, data pages, building, and the access method as a
  concurrent system in which inserts, bulk deletes, cleanups and scans interleave
  one page lock at a time and the free space map answers arbitrarily.
- **Variable-length GiST keys** (`VarKey.dfy`): truncated bounds for `bytea`, the
  invariant that survives any nesting of unions, and the exact conditions under
  which a page split keeps it and under which a search still finds everything.
- **hstore** (`Hstore*.dfy`): the packed sorted format; the set operations, which
  merge packed values into a buffer and slide the strings down at the end; key
  search with a remembered lower bound; comparison and hashing; the text parser,
  which agrees with a grammar on every text, and the printer, with their buffers;
  the in-place upgrade of the old format; and the signature index. Everything
  refines a finite map from byte strings to byte strings or null.
- **Structure checks** (`Nbtree*.dfy`, `Toast.dfy`): exactly when a read-only pass
  of the B-tree checker over a level is silent and when it never ends, what a
  silent pass implies, and when the check of an out-of-line attribute is silent.
- **Cubes** (`Cube.dfy`): bounding boxes of mixed dimension counts and the
  distances nearest-neighbour search orders by.

Code that changes memory step by step is modelled by methods and classes on
arrays and fields, proved against functions; protocols are state machines whose
theorems are about every run. Several promises turn out to hold only under a
condition. The condition is proved exact, and a concrete input shows the failure:
degenerate generator seeds, splits of truncated GiST keys, the text round trip
beyond 2^24 pairs, old hstore values taken for new ones, zero downlinks in the
B-tree check, leaf order across empty pages, B-tree link walks that never end,
and the least integer as a cube coordinate.

`dafny verify dfyconfig.toml` checks the whole project.

## Model

| member | source | states |
|---|---|---|
| `BloomRand.TruncDiv` | contrib/bloom/blutils.c:239-240 | The quotient has the sign of the dividend, and its size times the divisor is the greatest multiple that does not exceed the size of the dividend. |
| `BloomRand.TruncMod` | contrib/bloom/blutils.c:255 | Signed remainder: the division identity holds, the remainder is smaller than the divisor and has the sign of the dividend. |
| `BloomRand.Generator.Srand` | contrib/bloom/blutils.c:250-256 | Seeding below 2^31 gives one plus the seed modulo 2^31 - 2; from 2^31 on the seed counts as negative and the state is at most one. |
| `BloomRand.Generator.Rand` | contrib/bloom/blutils.c:223-248 | Every intermediate value fits int32; the new state is 16807 times the old one modulo 2^31 - 1, and the result is the state minus one. |
| `BloomRand.SplitExact` | contrib/bloom/blutils.c:226-247 | The split multiplication with 127773 and 2836 computes the modular product without overflow, for positive and negative states. |
| `BloomRand.StateIsPower` | contrib/bloom/blutils.c:223-248 | After k draws the state is 16807^k times the start state modulo 2^31 - 1. |
| `BloomRand.ParkNonzero` | contrib/bloom/blutils.c:223-248 | A draw lands in 0 to 2^31 - 2 and is zero only from state zero. |
| `BloomRand.SeedStateRange` | contrib/bloom/blutils.c:250-256 | Seeding gives state zero exactly for the seeds 0xFFFFFFFF and 0x80000001. |
| `BloomRand.StateInRangeIff` | contrib/bloom/blutils.c:223-256 | After every draw the state is in 1 to 2^31 - 2 if and only if the seed is not one of the two degenerate ones, where it stays zero. |
| `BloomSignature.DrawBit` | contrib/bloom/blutils.c:281-288 | One draw adds the bit that the new state selects, modulo the signature length, and no other bit; it fails exactly when the generator state is zero. |
| `BloomSignature.SignValue` | contrib/bloom/blutils.c:258-289 | The signature has a bit if and only if it had it before or one of the draws from the seed of column number and hash selects it, whatever the generator state was before; it fails exactly for degenerate seeds. |
| `BloomSignature.SetBitHas` | contrib/bloom/blutils.c:284-286 | Setting bit n of the word array adds bit n and no other. |
| `BloomSignature.ValueSeedBits` | contrib/bloom/blutils.c:270-279 | Bit for bit, the seed of a value is the exclusive or of its hash and 16807 times the column number plus one, minus one. |
| `BloomSignature.SignedHas` | contrib/bloom/blutils.c:281-288 | Which bits a signed value has: those before, and those its draws select. |
| `BloomSignature.UnsignableHashes` | contrib/bloom/blutils.c:265-288 | A value cannot be signed if and only if its hash is one of two values determined by the column. |
| `BloomSignature.FormSignature` | contrib/bloom/blutils.c:291-313 | The row signature has a bit if and only if a draw for one of its non-null columns selects it. |
| `BloomSignature.RowHas` | contrib/bloom/blutils.c:295-313 | A row signature has exactly the bits that the draws for its non-null columns select. |
| `BloomSignature.ScanHas` | contrib/bloom/blscan.c:90-117 | A scan signature has exactly the bits that the draws for its keys select. |
| `BloomSignature.Test` | contrib/bloom/blscan.c:147-155 | The word-wise loop accepts exactly when every masked word matches. |
| `BloomSignature.SignedIsOr` | contrib/bloom/blutils.c:281-288 | Signing a value ORs in a mask that does not depend on what was there before. |
| `BloomSignature.RowContains` | contrib/bloom/blutils.c:295-313 | A row signature contains the signature of each of its columns. |
| `BloomSignature.NoFalseNegative` | contrib/bloom/blscan.c:90-163 | For every row and every set of non-null scan keys equal to its columns, the mask test accepts the row. |
| `BloomSignature.MaskTestIffSubset` | contrib/bloom/blscan.c:147-155 | The mask test accepts if and only if every scan bit is a tuple bit. |
| `BloomPage.AppendKeepsValid` | contrib/bloom/blutils.c:316-347 | Appending a tuple that fits keeps the page valid and adds exactly that tuple. |
| `BloomPage.EmptyPageFits` | contrib/bloom/bloom.h:149-152 | A tuple of the largest permitted signature fits an empty page. |
| `BloomPage.KeepCounts` | contrib/bloom/blvacuum.c:88-108 | Compaction keeps each living tuple as often as it was there and drops each dead one as often. |
| `BloomPage.CompactKeepsValid` | contrib/bloom/blvacuum.c:88-139 | Compaction keeps the page valid; an emptied page becomes deleted, and what is live is what was live minus the dead. |
| `BloomPage.Buffer.constructor` | contrib/bloom/blutils.c:397-410 | A fresh buffer shows a new page. |
| `BloomPage.Buffer.InitAndAdd` | contrib/bloom/blutils.c:316-347 | The in-place append succeeds exactly when the tuple fits, and the page then shows one more tuple. |
| `BloomPage.Buffer.Compact` | contrib/bloom/blvacuum.c:74-139 | The in-place two-pointer compaction shows the compacted page and returns how many tuples went. |
| `BloomPage.Slide` | contrib/bloom/blvacuum.c:88-108 | The two-pointer loop leaves the kept tuples, in order, at the front of the array. |
| `BloomIndex.StepValid` | contrib/bloom/blinsert.c:174-341 | Every step of every process, with any free-space-map answer, keeps the index valid: each page is new, deleted and empty, or live with tuples that fit, and the free list names data blocks. |
| `BloomIndex.StepConserves` | contrib/bloom/blinsert.c:206-340 | One step adds a tuple exactly when an insert completes and removes one exactly when bulk delete drops it. |
| `BloomIndex.RunConserves` | contrib/bloom/blvacuum.c:58-158 | Over every interleaving, the tuples on live pages are those at the start plus completed inserts minus deleted ones, counted with multiplicity. |
| `BloomIndex.StepMovesNothing` | contrib/bloom/blvacuum.c:57-139 | No step moves a tuple from one block to another. |
| `BloomIndex.ScanComplete` | contrib/bloom/blscan.c:122-168 | A scan that takes one page lock at a time, interleaved with inserts and vacuums, emits every matching tuple that stays on its block throughout, even if an equal one is inserted meanwhile. |
| `BloomIndex.HeldUnlessAdded` | contrib/bloom/blvacuum.c:57-139 | A tuple that is in the index at the end and was not inserted meanwhile stayed on its block throughout. |
| `BloomIndex.ScanSound` | contrib/bloom/blscan.c:122-168 | Every pointer a scan emits belonged, at some point of the run, to a live tuple that matches. |
| `BloomIndex.VacuumComplete` | contrib/bloom/blvacuum.c:57-139 | When bulk delete has finished, a tuple its callback condemns occurs at most as often as it was inserted while bulk delete ran, whatever else ran. |
| `BloomIndex.InsertFinishes` | contrib/bloom/blinsert.c:206-340 | An insert whose steps are not interrupted finishes within a bounded number of steps plus one for each unusable page the free space map proposes, whatever the map answers. |
| `BloomFree.RunFinds` | contrib/bloom/blvacuum.c:57-128 | Over every run, bulk delete lists in ascending order exactly the blocks that were live, not empty and had room for another tuple when it had dealt with them, as far as the list can hold them. |
| `BloomFree.FinishLists` | contrib/bloom/blvacuum.c:141-158 | The step that ends bulk delete makes the blocks it found the whole free list. |
| `BloomFree.StepLists` | contrib/bloom/blinsert.c:233-340 | In any state, an insert that adds its tuple without the metapage lock leaves the free list alone; with the lock, the list then starts at the block that took the tuple and goes on with what was still to try, or is only the allocated block. |
| `BloomFree.InsertLists` | contrib/bloom/blinsert.c:206-340 | An insert that runs alone leaves the free list from its first block that takes the tuple on, with the tuple in that block; if none takes it, only the block it allocated. |
| `BloomFree.CleanupCounts` | contrib/bloom/blvacuum.c:166-214 | While only cleanup moves, it has counted exactly the unused pages and the tuples on the other pages so far. |
| `BloomBuild.BuildState.constructor` | contrib/bloom/blinsert.c:60-68 | A new build holds no tuples. |
| `BloomBuild.BuildState.Add` | contrib/bloom/blinsert.c:70-115 | Each heap tuple is appended to the sequence of tuples held, across page flushes; a page is flushed only when it is full. |
| `BloomBuild.BuildState.Finish` | contrib/bloom/blinsert.c:143-155 | After the last flush the pages hold all tuples in order, none is empty and all but the last are full. |
| `BloomBuild.Build` | contrib/bloom/blinsert.c:117-158 | A build stores exactly the heap tuples, in heap order, on valid nonempty pages, all but the last of them full. |
| `BloomBuild.BuildIsValid` | contrib/bloom/blinsert.c:117-158 | A freshly built index is a valid start state with the multiset of the heap. |
| `VarKey.CpUnique` | contrib/btree_gist/btree_utils_var.c:121-162 | The common prefix length is determined by agreeing so far and differing there. |
| `VarKey.NodeCpLen` | contrib/btree_gist/btree_utils_var.c:121-162 | The byte loop returns the common prefix length of the two bounds. |
| `VarKey.Fold` | contrib/btree_gist/btree_utils_var.c:233-277 | Widening entry by entry gives the smallest lower and the greatest upper string. |
| `VarKey.BoundsExtreme` | contrib/btree_gist/btree_utils_var.c:233-277 | The folded bounds are extreme among the entries and taken from them. |
| `VarKey.Union` | contrib/btree_gist/btree_utils_var.c:322-357 | The union key is the folded bounds cut two bytes past their common prefix. |
| `VarKey.UnionIs` | contrib/btree_gist/btree_utils_var.c:322-357 | The strings of a union key are the smallest lower and the greatest upper string of the entries, cut two bytes past their common prefix. |
| `VarKey.CutRestores` | contrib/btree_gist/btree_utils_var.c:204-228 | Cutting a widened key keeps the promise: lower at most v, and v at most upper, or upper a prefix of v at least two bytes longer than the common prefix. |
| `VarKey.UnionCovers` | contrib/btree_gist/btree_utils_var.c:322-357 | A union key promises every value one of its entries promised. |
| `VarKey.LeafExact` | contrib/btree_gist/btree_utils_var.c:554-612 | On a leaf the consistent function answers exactly the indexed condition, for all six strategies. |
| `VarKey.InternalIff` | contrib/btree_gist/btree_utils_var.c:554-612 | An internal key answers yes if and only if, for an equality query, it spans the query, for an order query, it spans some value on the asked side of it, with less taken as less or equal, and for inequality, its two strings are not both the query. |
| `VarKey.AdmitsIff` | contrib/btree_gist/btree_utils_var.c:554-612 | An internal key never rejects a query v satisfies if and only if v is within reach of its bounds. |
| `VarKey.CoversReaches` | contrib/btree_gist/btree_utils_var.c:554-612 | The invariant on covered values implies that every satisfied strategy is answered consistent. |
| `VarKey.PickSplit` | contrib/btree_gist/btree_utils_var.c:458-547 | The split keeps all entries in order, leaves neither side empty and cuts both keys at the larger common prefix. |
| `VarKey.SplitKeepsIff` | contrib/btree_gist/btree_utils_var.c:533-546 | A half of a split promises everything its entries promised if and only if each entry is exact, or the greatest upper string of the half does not extend its upper string, or does so up to the cut by 0xFF bytes only. |
| `VarKey.SplitFindsIff` | contrib/btree_gist/btree_utils_var.c:533-546 | A search of the half rejects no query satisfied by a value its entries promised if and only if each entry meets that condition or its upper string starts with the cut smallest lower string of the half. |
| `VarKey.SplitLosesValue` | contrib/btree_gist/btree_utils_var.c:533-546 | Four concrete internal entries whose split loses a value: an equality search rejects the half that holds it. |
| `VarKey.OriginCovers` | contrib/btree_gist/btree_utils_var.c:322-357 | The invariant survives any nesting of unions and of splits that meet the condition. |
| `VarKey.SearchExact` | contrib/btree_gist/btree_utils_var.c:554-612 | A search in any tree keyed this way returns exactly the values that satisfy the strategy, in index order. |
| `VarKey.SearchAllExact` | contrib/btree_gist/btree_utils_var.c:554-612 | The same for a forest of subtrees. |
| `HstoreLayout.EntryFields` | contrib/hstore/hstore.h:20-33 | Position and flags read back from an entry word. |
| `HstoreLayout.PackedReads` | contrib/hstore/hstore.h:76-90 | The accessor macros read pair i of a packed value as the i-th pair, inside the value. |
| `HstoreLayout.PackedPairsUnique` | contrib/hstore/hstore.h:76-90 | A packed value determines its pairs. |
| `HstoreLayout.PackedMemUnique` | contrib/hstore/hstore.h:92-140 | The pairs determine the packed value, address by address. |
| `HstoreBuilder.Builder.constructor` | contrib/hstore/hstore_op.c:252-264 | A fresh buffer laid out for a provisional number of pairs holds none. |
| `HstoreBuilder.Builder.CopyItem` | contrib/hstore/hstore.h:99-106 | Copying a contiguous pair appends it to the pairs written. |
| `HstoreBuilder.Builder.AddItem` | contrib/hstore/hstore.h:112-126 | Adding a pair from separate strings appends it, with no value bytes for a null. |
| `HstoreBuilder.Builder.Finalize` | contrib/hstore/hstore.h:128-140 | Finalizing, with the memmove when fewer pairs were written, leaves the exact packed form of the pairs written. |
| `HstoreOrder.KeyCmpDecides` | contrib/hstore/hstore_io.c:325-347 | A key precedes another if and only if it is shorter, or as long and smaller in the first byte that differs. |
| `HstoreOrder.KeyCmpTrans` | contrib/hstore/hstore_io.c:325-347 | Length-first key comparison is transitive. |
| `HstoreOrder.SortedUnique` | contrib/hstore/hstore_io.c:325-347 | A strictly sorted list of pairs is determined by the map it stands for. |
| `HstoreOrder.CanonicalUnique` | contrib/hstore/hstore_io.c:445-471 | Canonical values are equal if and only if they stand for the same map. |
| `HstoreOps.Delete` | contrib/hstore/hstore_op.c:243-287 | Deletion by key removes that key from the map and gives a canonical value. |
| `HstoreOps.DeleteKeys` | contrib/hstore/hstore_op.c:331-363 | The merge against sorted keys removes exactly those keys. |
| `HstoreOps.DeletePairs` | contrib/hstore/hstore_op.c:369-466 | Deletion by hstore removes exactly the pairs whose key and value agree, nulls equal to nulls only. |
| `HstoreOps.Concat` | contrib/hstore/hstore_op.c:469-564 | Concatenation is map override with the right operand winning; it fails exactly when the two sizes together cannot be allocated. |
| `HstoreOps.Pack` | contrib/hstore/hstore_io.c:444-471 | Packing a strictly sorted list gives its canonical value, or fails exactly when it cannot be allocated. |
| `HstoreOps.Assign` | contrib/hstore/hstore_subs.c:142-258 | Subscript assignment is a single-key update, of the empty map for a null container; each error occurs exactly on its condition. |
| `HstoreUnique.ItemCmpTrans` | contrib/hstore/hstore_io.c:325-347 | The sort comparison, with items that need freeing last among equal keys, is transitive. |
| `HstoreUnique.SqueezedSwept` | contrib/hstore/hstore_io.c:374-400 | The sweep over a sorted array keeps one item per key, the first of its run. |
| `HstoreUnique.Squeeze` | contrib/hstore/hstore_io.c:374-400 | The in-place sweep leaves the swept items at the front and sums their lengths. |
| `HstoreUnique.UniquePairs` | contrib/hstore/hstore_io.c:349-401 | The result is strictly sorted, has the same keys, only items of the input, and an item that needs freeing only where all with its key do; buflen is the exact string length. |
| `HstoreFind.FindKey` | contrib/hstore/hstore_op.c:35-70 | The binary search from any valid lower bound finds what a full search finds and leaves a bound valid for every later key. |
| `HstoreFind.FindNext` | contrib/hstore/hstore_op.c:29-70 | In a run over increasing keys each call with the shared bound equals an independent full search. |
| `HstoreFind.Fetch` | contrib/hstore/hstore_op.c:126-240 | Fetch, exists and defined answer what the map says, null for an absent key. |
| `HstoreFind.ArrayToPairs` | contrib/hstore/hstore_op.c:72-123 | The key list is sorted and has exactly the non-null elements; too many elements is the only error. |
| `HstoreFind.ExistsAny` | contrib/hstore/hstore_op.c:160-191 | True if and only if some non-null element is a key. |
| `HstoreFind.ExistsAll` | contrib/hstore/hstore_op.c:194-225 | True if and only if every non-null element is a key. |
| `HstoreFind.Contains` | contrib/hstore/hstore_op.c:960-1005 | True if and only if every association of the template is in the value, nulls compared as equal. |
| `HstoreFind.Slice` | contrib/hstore/hstore_op.c:628-687 | The slice is the map restricted to the listed keys; it always fits. |
| `HstoreFind.DeleteArray` | contrib/hstore/hstore_op.c:290-366 | Deletion by array removes exactly the listed keys. |
| `HstoreCmp.CompareMin` | contrib/hstore/hstore_op.c:1111-1118 | memcmp over the shorter length and then the lengths is the lexicographic order. |
| `HstoreCmp.OrderDecides` | contrib/hstore/hstore_op.c:1081-1158 | What decides the order: an empty value comes first; then the first byte in which the string areas differ or the shorter area; then the number of pairs; then the first pair whose entries differ, by key end, value end and null flag. |
| `HstoreCmp.Cmp` | contrib/hstore/hstore_op.c:1081-1158 | The routine on packed values is negative if and only if the first value precedes the second, positive if and only if the second precedes the first, and zero if and only if the maps are equal. |
| `HstoreCmp.CmpIsTotalOrder` | contrib/hstore/hstore_op.c:1081-1158 | The order is antisymmetric and transitive; zero means equal maps, and equal maps are the same as identical hashed bytes. |
| `HstoreCmp.HashSize` | contrib/hstore/hstore_op.c:1228-1250 | The size word of a canonical value is the exact data size the hash function asserts. |
| `HstoreText.ReadEsc` | contrib/hstore/hstore_io.c:92-205 | Reading an escaped word inside quotes gives back the word and stops at the closing quote. |
| `HstoreText.ParsePair` | contrib/hstore/hstore_io.c:214-323 | Parsing one printed pair yields that pair, or an allocation error when the pair array is full. |
| `HstoreText.PrintParse` | contrib/hstore/hstore_io.c:214-323 | Parsing the printed text gives back the pairs if and only if there are at most 2^24 of them; with more it is an allocation error. |
| `HstoreGrammar.ReadSpelled` | contrib/hstore/hstore_io.c:92-205 | A word spelled with plain and backslashed bytes, in quotes or up to a space or its terminator, reads as exactly the bytes it stands for. |
| `HstoreGrammar.SpellingDecides` | contrib/hstore/hstore_io.c:214-323 | A text spelled as entries with arrows, commas and spaces, or as such entries and one of the ways to go wrong, has exactly that outcome, with the position of the wrong byte. |
| `HstoreSpelling.WordIff` | contrib/hstore/hstore_io.c:92-205 | At any position the word reader returns what the grammar of words says there, and only that. |
| `HstoreSpelling.ParseIff` | contrib/hstore/hstore_io.c:214-323 | On every text the parser returns the pairs, nulls and errors of its spelling in the grammar, and every text has exactly one outcome. |
| `HstoreSpelling.PrintSnoc` | contrib/hstore/hstore_io.c:1206-1288 | Printed text is the pairs in order, separated by a comma and one space, keys and values in quotes with quotes and backslashes escaped, null as NULL. |
| `HstoreIO.HSParser.Put` | contrib/hstore/hstore_io.c:48-57 | The doubling buffer takes the byte, always leaves room for a terminator, and fails exactly when it would have to pass the allocation limit. |
| `HstoreIO.HSParser.ReadWord` | contrib/hstore/hstore_io.c:92-205 | The word reader ends on every input, reads nothing past the NUL, writes nothing past its buffer, and returns the word or error that the grammar of words gives at that position. |
| `HstoreIO.HSParser.ReadPairs` | contrib/hstore/hstore_io.c:214-323 | The pair reader ends on every input and returns what the grammar says the text stands for: its pairs, or the kind and position of its error. |
| `HstoreIO.In` | contrib/hstore/hstore_io.c:474-495 | Ill-formed text is rejected for the reason the grammar gives; otherwise the value is canonical with exactly the keys of the text, each with a value given for it, and fails exactly when it cannot be allocated. |
| `HstoreIO.CopyWord` | contrib/hstore/hstore_io.c:1206-1218 | The escaping copy appends the word with quotes and backslashes escaped. |
| `HstoreIO.BufLenIs` | contrib/hstore/hstore_io.c:1246-1254 | The size estimate is eight bytes for each pair, two for each null value and twice the length of all strings. |
| `HstoreIO.BufLenBound` | contrib/hstore/hstore_io.c:1246-1254 | The size estimate cannot overflow a 32-bit int. |
| `HstoreIO.PairFits` | contrib/hstore/hstore_io.c:1246-1283 | A printed pair and the separator after it stay within its part of the estimate. |
| `HstoreIO.Out` | contrib/hstore/hstore_io.c:1220-1288 | The text with its terminator fits the buffer computed beforehand and is the printed form; printing fails exactly when the estimate cannot be allocated. |
| `HstoreIO.RoundTrip` | contrib/hstore/hstore_io.c:474-495 | Reading what was printed for a canonical NUL-free value returns that value if and only if it has at most 2^24 pairs, and otherwise is an allocation error. |
| `HstoreLimit.PrintsButDoesNotRead` | contrib/hstore/hstore_io.c:236-240 | A concrete canonical value of 2^24 + 1 pairs that prints and whose text is rejected. |
| `HstoreCompat.ValidOld` | contrib/hstore/hstore_compat.c:164-229 | The check, with its wrapping position counter, accepts exactly the values whose old entries are contiguous, ordered by key length and inside the value, and tells exact from padded ones. |
| `HstoreCompat.ValidNew` | contrib/hstore/hstore_compat.c:112-162 | The check accepts exactly values whose new entries have increasing positions, key lengths and a size that fits; a value with too high a count is rejected whatever memory lies behind it. |
| `HstoreCompat.OldRoundTrip` | contrib/hstore/hstore_compat.c:40-76 | A value written in the old format, with any length for a null, is valid and reads as its pairs. |
| `HstoreCompat.ConvertEntries` | contrib/hstore/hstore_compat.c:322-337 | The in-place loop over overlaid entries writes the new entries of every pair and touches nothing else. |
| `HstoreCompat.ConvertOld` | contrib/hstore/hstore_compat.c:313-344 | A valid old value becomes the packed form, of exact size, of the same pairs. |
| `HstoreCompat.Upgrade` | contrib/hstore/hstore_compat.c:232-347 | Which of the outcomes unchanged, relabelled, converted and rejected occurs, and that a converted value keeps its pairs, whatever memory lies behind the value. |
| `HstoreCompat.UpgradeKeepsIff` | contrib/hstore/hstore_compat.c:232-347 | A valid old value keeps its pairs if and only if it does not have less than 32768 bytes and a null first value with a stale length of 32768 or more. |
| `HstoreCompat.CapturedLoses` | contrib/hstore/hstore_compat.c:250-256 | Every old value the short cut takes loses the null of its first pair. |
| `HstoreCompat.CapturedValue` | contrib/hstore/hstore_compat.c:250-256 | A concrete old value of one pair whose null comes out as an empty string. |
| `HstoreCompat.TruncatedRejected` | contrib/hstore/hstore_compat.c:258-276 | A value that holds fewer entries than its count says, and that the short cut does not take, is rejected unchanged. |
| `HstoreCompat.EmptyUpgrade` | contrib/hstore/hstore_compat.c:250-256 | An empty old value becomes the empty new value. |
| `HstoreCompat.FastPathIff` | contrib/hstore/hstore_compat.c:250-256 | The short cut takes an old value if and only if it is shorter than 32768 bytes and its first value is null with a stale length of 32768 or more; never one whose first value is non-null. |
| `HstoreCompat.RelabelKeeps` | contrib/hstore/hstore_compat.c:261-273 | Relabelling a value that passed the new check keeps its pairs and makes its size exact. |
| `HstoreGist.CompressLeaf` | contrib/hstore/hstore_gist.c:148-180 | A leaf signature has exactly the bits of the hashes of its keys and non-null values. |
| `HstoreGist.CompressInner` | contrib/hstore/hstore_gist.c:184-203 | Replacing a full signature by the all-true flag keeps the denoted bits, and happens exactly for full signatures. |
| `HstoreGist.Union` | contrib/hstore/hstore_gist.c:296-334 | A union denotes exactly the bits of its entries. |
| `HstoreGist.Consistent` | contrib/hstore/hstore_gist.c:509-611 | The consistent function answers whether all, or for exists-any some, of the query bits are set. |
| `HstoreGist.MaybeIff` | contrib/hstore/hstore_gist.c:509-611 | The answer is yes if and only if some row with no other bits than those of the key satisfies the query; only an all-true key is not asked whether an exists-any array has a key at all. |
| `HstoreGist.SoundAdmits` | contrib/hstore/hstore_gist.c:509-611 | A key with the bits of a row admits contains, exists, exists-any and exists-all whenever the row satisfies them. |
| `HstoreSplit.SizeBitVec` | contrib/hstore/hstore_gist.c:252-264 | The byte-wise sum is the number of set bits. |
| `HstoreSplit.HemDist` | contrib/hstore/hstore_gist.c:266-294 | The distance is the Hamming distance of the denoted bit sets in all representation cases. |
| `HstoreSplit.Seeds` | contrib/hstore/hstore_gist.c:397-422 | The seeds are two different offsets, farthest apart among all but the last entry. |
| `HstoreSplit.CostVector` | contrib/hstore/hstore_gist.c:430-441 | The cost vector lists every offset once, by increasing cost. |
| `HstoreSplit.PickSplit` | contrib/hstore/hstore_gist.c:366-505 | Every offset is placed exactly once, neither side is empty and each key is exactly the union of its side. |
| `HstoreTree.LeafKey` | contrib/hstore/hstore_gist.c:148-180 | The key of a row denotes exactly the bits of that row. |
| `HstoreTree.InnerKey` | contrib/hstore/hstore_gist.c:184-334 | The compressed union of keys denotes exactly the bits of all rows they were made from. |
| `HstoreTree.DenotesSound` | contrib/hstore/hstore_gist.c:148-334 | A key made by any nesting of unions and splits has the bits of every row it was made from. |
| `HstoreTree.NewNode` | contrib/hstore/hstore_gist.c:296-334 | A page made over built subtrees is built. |
| `HstoreTree.SplitNode` | contrib/hstore/hstore_gist.c:366-505 | A page split turns built subtrees into two built pages that together hold each of them and nothing else. |
| `HstoreTree.NeverPruned` | contrib/hstore/hstore_gist.c:509-611 | In a tree of any depth built by these operations no row that satisfies the query is pruned. |
| `NbtreePages.LeftmostIgnoringHalfDead` | contrib/amcheck/verify_nbtree.c:1142-1199 | The leftward walk ends on every link graph and returns true if and only if everything to the left is a half-dead chain that links back to the start. |
| `NbtreePages.LevelBounded` | contrib/amcheck/verify_nbtree.c:788-973 | On graphs without half-dead pages a walk that raises no error visits no block twice, so it is no longer than the number of blocks. |
| `NbtreeLeaf.RightPage` | contrib/amcheck/verify_nbtree.c:1976-2040 | The page to compare with is the first to the right that is not ignorable, or the rightmost; corruption is reported only at a page that fails to load; the search never ends exactly on a ring of ignorable pages. |
| `NbtreeLeaf.SkipEndlessIff` | contrib/amcheck/verify_nbtree.c:2016-2040 | The search for the next page never ends if and only if the right links run into a ring of ignorable pages; otherwise it ends within the number of blocks. |
| `NbtreeLeaf.LastItemCheck` | contrib/amcheck/verify_nbtree.c:1831-1871 | The comparison of the last item with the page to the right ends as that search does, or by the order of the two keys. |
| `NbtreeLeaf.LeafPageCheck` | contrib/amcheck/verify_nbtree.c:1701-1872 | A page check with enough fuel is silent if and only if the items are in order, at most the high key, and the last one below the first item of the next live page. |
| `NbtreeLeaf.LeafIff` | contrib/amcheck/verify_nbtree.c:1701-1872 | A leaf page is passed exactly when it is in order, and its check never ends exactly when it is in order and stands before a ring of ignorable pages. |
| `NbtreeLeaf.LeafLevelSorted` | contrib/amcheck/verify_nbtree.c:1425-1428 | After a silent pass over a leaf level the first keys of all items are strictly increasing if and only if they are so across empty live pages; their key ranges are disjoint and increasing if and only if they are so across empty live pages and within each page; no item exceeds its high key. |
| `NbtreeChild.Descend` | contrib/amcheck/verify_nbtree.c:2745-2833 | The descent accepts exactly the top of an interrupted deletion: first downlinks, level by level, to a half-dead leaf that names the page. |
| `NbtreeChild.DownlinkMissingCheck` | contrib/amcheck/verify_nbtree.c:2668-2833 | A page without a downlink is accepted if and only if it is the root, right of an incomplete split, or the top of an interrupted deletion. |
| `NbtreeChild.ChildCheck.constructor` | contrib/amcheck/verify_nbtree.c:785-786 | Before the first downlink nothing below has been seen. |
| `NbtreeChild.ChildCheck.HighKeyMatches` | contrib/amcheck/verify_nbtree.c:2378-2466 | The comparison succeeds if and only if the child has no high key to compare, or it equals the separator right of its downlink, the one at the downlink for pages before it, or the saved low key; right of the last downlink a page with a high key is an error. |
| `NbtreeChild.ChildCheck.ChildHighkeyCheck` | contrib/amcheck/verify_nbtree.c:2256-2487 | A silent call extends the chain of pages below up to the downlink, or to the right edge at the end, with every page in between accounted for; its outcome is that of the walk below. |
| `NbtreeChild.CallEndlessIff` | contrib/amcheck/verify_nbtree.c:2300-2487 | The walk below never ends if and only if the right links run into a ring of accepted pages without meeting the downlink; otherwise it ends within the number of blocks. |
| `NbtreeTrail.CallIff` | contrib/amcheck/verify_nbtree.c:2256-2487 | A call is silent if and only if there is a trail along right links from the page of the downlink before to that of this one, or to the right edge, without repetition, on which every page is one level below, accounted for and has the separator there as its high key. |
| `NbtreeLevel.InternalPageCheck` | contrib/amcheck/verify_nbtree.c:1701-1954 | A silent check of an internal page appends its downlinks, in order, to those already found on the chain below, and has found separators ascending to the high key, children above their separators and the next page above the last separator; its outcome is that of the page checks as a function, silent exactly as `NbtreeSilent.PageIff` says. |
| `NbtreeLevel.LowerBound` | contrib/amcheck/verify_nbtree.c:2609-2649 | The loop accepts exactly the children whose keys are all above the separator. |
| `NbtreeLevel.VisitBlock` | contrib/amcheck/verify_nbtree.c:795-919 | A block is let through if and only if it loads, is not deleted, agrees with its left sibling and level and, when first, is leftmost but for half-dead pages and the root where it must be. |
| `NbtreeLevel.CheckLevel` | contrib/amcheck/verify_nbtree.c:762-986 | A silent pass covers the whole level with agreeing links and passed pages; on internal levels the downlinks occur in order on one chain from a leftmost page to the right edge, with every other page accounted for, if and only if no downlink is zero; the outcome is that of the pass as a function of the index, silent exactly as `NbtreeSilent.SilentIff` and `NbtreePass.LeafPassIff` say. |
| `NbtreeLevel.LevelsLink` | contrib/amcheck/verify_nbtree.c:1937-1954 | The chain found below is the path of the pass over the level below. |
| `NbtreeLevel.FirstIsNext` | contrib/amcheck/verify_nbtree.c:856-885 | The block handed to the next level is the first downlink of the level. |
| `NbtreeLevel.LeafWithinSeparators` | contrib/amcheck/verify_nbtree.c:2503-2652 | After silent passes over the leaf level and the level above, every leaf item lies above the separator of its page and at most at the next one. |
| `NbtreePass.PassEnds` | contrib/amcheck/verify_nbtree.c:762-986 | The whole pass with all walks inside it ends within the number of blocks when right links form no ring, and also when no page is half-dead or deleted and none just below is a root or incompletely split. |
| `NbtreePass.LeafPassIff` | contrib/amcheck/verify_nbtree.c:762-986 | A pass over a leaf level is silent if and only if all checks hold on a path to the right end, and never ends if and only if they hold up to a block that returns or up to a page before a ring of ignorable pages. |
| `NbtreePass.PassEndlessIff` | contrib/amcheck/verify_nbtree.c:762-986 | On every index a pass over any level never ends if and only if all checks pass up to a page on which they run into a ring of ignorable pages to its right or of accepted pages below, or until the walk comes back to a live block or goes round half-dead ones. |
| `NbtreePass.BoundsDecide` | contrib/amcheck/verify_nbtree.c:762-986 | On every index more fuel than blocks and more steps than twice the blocks decide the outcome: other bounds give the same or are too small, and when these are exhausted so is every other. |
| `NbtreeSilent.PageIff` | contrib/amcheck/verify_nbtree.c:1701-1954 | The checks on an internal page are silent if and only if its separators and children are in order and every downlink, and from the last page the right edge below, is reached by a trail. |
| `NbtreeSilent.SilentIff` | contrib/amcheck/verify_nbtree.c:762-986 | On every index the pass over an internal level is silent if and only if there is a path of blocks to the right edge with links, levels, separators and children in order, on which every downlink is reached by a trail below from the one before; after a zero downlink the next one starts at a leftmost page again. |
| `NbtreeSilent.SilentChain` | contrib/amcheck/verify_nbtree.c:762-986 | The same with the pages below as one chain and the positions in it at which the downlinks are met. |
| `NbtreeRuns.HealthyPasses` | contrib/amcheck/verify_nbtree.c:762-986 | Two internal pages in order over four leaves in order, on which the whole pass is silent. |
| `NbtreeRuns.EmptyPageHides` | contrib/amcheck/verify_nbtree.c:2137-2168 | A leaf level with an empty live page between two pages that are out of order, on which the whole pass is silent. |
| `NbtreeRuns.OverlapPasses` | contrib/amcheck/verify_nbtree.c:1727-1774 | A page with two overlapping posting lists on which the whole pass is silent. |
| `NbtreeRuns.ZeroDownlinkPasses` | contrib/amcheck/verify_nbtree.c:2294-2310 | A root with a zero first downlink on which the whole pass is silent and hands down zero, which ends the check before the leaf level. |
| `NbtreeRuns.HalfDeadLoop` | contrib/amcheck/verify_nbtree.c:788-973 | A leaf level with one half-dead page along which the walk goes round for ever without an error. |
| `NbtreeRuns.DeletedRing` | contrib/amcheck/verify_nbtree.c:2016-2040 | A leaf level without half-dead pages on which the search for the next page goes round two deleted pages for ever. |
| `NbtreeRuns.SplitRing` | contrib/amcheck/verify_nbtree.c:2300-2487 | A root without half-dead or deleted pages below it on which the walk below goes round two incompletely split pages for ever. |
| `Toast.HeapCheckContext.CheckToastTuple` | contrib/amcheck/verify_heapam.c:1458-1541 | A chunk draws no report if and only if it is the expected one, not after the last, well formed and of its planned size. |
| `Toast.HeapCheckContext.CheckToastedAttribute` | contrib/amcheck/verify_heapam.c:1764-1814 | The attribute draws no report if and only if its chunks are numbered 0 to last in order with planned sizes. |
| `Toast.PlannedTotal` | contrib/amcheck/verify_heapam.c:1531-1534 | For a positive external size planned sizes sum to it. |
| `Toast.TotalPlanned` | contrib/amcheck/verify_heapam.c:1531-1534 | Chunks in order, full but for the last, that sum to the external size are as planned. |
| `Toast.ZeroSize` | contrib/amcheck/verify_heapam.c:1463 | An external size of zero wraps around and asks for 2151788 chunks. |
| `Cube.UnionV0` | contrib/cube/cube.c:747-805 | Along every axis, with missing dimensions as zero, the union spans exactly both cubes. |
| `Cube.TreeCovers` | contrib/cube/cube.c:747-805 | Any nesting of unions covers every member, whatever the dimension counts. |
| `Cube.DistanceIsGap` | contrib/cube/cube.c:1502-1515 | The one-dimensional distance of unordered end points is the gap between the intervals. |
| `Cube.GapIsLeast` | contrib/cube/cube.c:1502-1515 | The gap along an axis is the least distance between a point of one interval and a point of the other. |
| `Cube.ComputeDistance` | contrib/cube/cube.c:1252-1395 | The two loops compute the sum of the gaps, the greatest gap or the sum of the squared gaps over all axes, with absent dimensions at zero. |
| `Cube.DistanceMeasures` | contrib/cube/cube.c:1252-1395 | Taxicab is the sum of the gaps, Chebyshev the greatest of them, squared Euclidean the sum of their squares. |
| `Cube.UnionNoFarther` | contrib/cube/cube.c:1252-1395 | Taxicab, Chebyshev and squared Euclidean distances to any nesting of unions never exceed those to a member. |
| `Cube.CoordNoGreater` | contrib/cube/cube.c:1405-1467 | For every coordinate but 0 and the least integer, the signed coordinate ordering value of any nesting of unions never exceeds that of a member, leaf or inner. |
| `Cube.LeafCoordExact` | contrib/cube/cube.c:1411-1467 | On a leaf an odd coordinate gives the lower and an even one the upper end of its axis, negated for a negative coordinate. |
| `Cube.OutsideIff` | contrib/cube/cube.c:1411-1434 | The coordinate branch reads outside the cube if and only if the coordinate is the least 32-bit integer, whose negative wraps to itself. |

## Left out

- Buffer manager, WAL, memory contexts, catalogs and the function manager: a step under a buffer lock is atomic, and the free space map, hash functions and CRC-32 are arbitrary functions or answers of the schedule.
- Memory layout of words: hstore memory is addressed by the byte, but a 32-bit word is kept whole in the first of its four addresses, so byte order inside a word is not modelled. The size word holds the size itself instead of the size shifted by two.
- Sizes are those of a 64-bit server with 8 kB blocks: 40 bytes for a work pair, 1996 bytes for a toast chunk, 2004 block numbers in the bloom metapage.
- qsort and qsort_arg: only order and permutation are relied on; the hstore work array and the cost vector are sorted by insertion, and `VarKey.PickSplit` takes its entries already sorted.
- Penalty functions and the balance heuristic of signature splits: the choice of side is an arbitrary function of the distances and counts.
- Collations, and text, numeric and bit keys of btree_gist: only `bytea` keys are modelled. The byte layout of those keys is left out.
- HstoreIO.In: which of several values given for one key survives is not stated, because qsort may order equal keys either way; locale rules for case folding of the word null are left out, and soft and hard errors are one outcome.
- hstore_from_arrays, hstore_from_record, hstore_send, hstore_recv, JSON conversion and set-returning functions: they go through the same sorting, packing and accessors as the operations modelled here.
- HstoreCompat.ValidNew and HstoreCompat.Upgrade: the validity check reads the last entry before it compares sizes, so memory behind the value is a parameter; value and memory together stay below 1 GB and hold the entries the count names. Big-endian and other bit-field layouts are left out.
- NbtreeLevel.CheckLevel: tuple format, uniqueness and heap checks are left out, which can only raise more errors, and so is the optional search from the root for every tuple. Reading the metapage as a data page counts as an error, except as the target of a zero downlink, whose keys are not looked at.
- NbtreeLevel.CheckLevel: walks take `steps` and `fuel`; running out of them is the outcome `TooLong`. `NbtreePass.BoundsDecide` shows that ample bounds stand for no bound.
- NbtreeChild.ChildCheck.HighKeyMatches: right of the last downlink the code looks up line pointer 0, the word before the line pointers; that word is taken to be zero, as page initialisation leaves it, so the lookup raises an error.
- Toast.HeapCheckContext.CheckToastedAttribute: the index scan is the sequence of chunks it returned; report texts are reduced to their kinds.
- BloomFree.InsertLists: stated for an insert that runs alone; with others running, blocks fill and empty between its steps, and `BloomFree.StepLists` says what each step does.
- BloomFree.CleanupCounts: stated for a cleanup that runs alone, because pages it has passed may change while others run.
- Cube.ComputeDistance: real numbers instead of doubles, without NaN, and the Euclidean distance before the square root, which is monotone.
- Cube.OutsideIff: signed 32-bit overflow wraps around, as the server is compiled to do; what such a read returns is not modelled.
- Cube comparison order, containment and overlap: their conventions for missing dimensions differ and no law ties them together.

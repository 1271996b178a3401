# OrnaDB store model

OrnaDB keeps a database as a content-addressed graph of Git objects. This project models, in Dafny,
the parts of the repository whose correctness is about whole structures and whole runs rather than
single calls, and proves what they are for:

- **The format-3 store.** The canonical CBOR codec, the logical key order, the content-defined
  partition of pages, ordered maps, content-defined chunks and the byte indexes over them, overflow
  expansion, and media-type normalisation. The central results are canonical-form theorems: content
  determines the bytes, the pages, the tree and the root id.
- **The legacy readers.** Git trees and byte ranges of the old blob format, generation resolution of
  compact segments, and the RLE/bit-packed hybrid of Parquet pages.
- **The migration.** Legacy tables are assigned to relations, lowered, completed, staged and compared
  again through a paged scan of ordered maps; one theorem spans all three files, from the rows as they
  were read to the rows of the candidate, and the scan itself is proved down to the pages it skips.
- **REPL transactions.** The overlay that restores Blob references, and the reserve-before-outcome
  protocol of automatic IDs as a state machine over every interleaving.
- **Static table reachability.** The walkers over the syntax tree and the worklist over functions.

Each source file has its own form here. Code that only computes is a function; a loop, a cursor or an
object that changes is a method or a class whose `ensures` ties it to the function that specifies it,
and the theorems are about that function. What such a function means is told a second time without
it: the lemmas whose names end in `Exact`, `Exactly` or `Means` say, by bytes, fields and positions,
which results it has and when it refuses. Two properties that read naturally turn out to hold only
under a condition, and the condition is stated with them:

- *Automatic IDs are unique* fails when a lost ref update finds its own watermark already in the ref
  and is let through (`crates/orna-repository/src/allocator.rs:155-160`). `AutoIds.FallbackIssuesTwice`
  gives a run in which two activations hand out one ID. For reserved *ranges* the condition is exact:
  `AutoIds.DisjointExactly` shows that the ranges of a table are disjoint if and only if that branch was
  never taken for it. For *issued IDs*, an ID handed out twice always means the branch was taken
  (`AutoIds.IssuedTwiceOnlyByFallback`); the converse needs more, because an activation may have
  observed its highest ID rather than handed it out (`AutoIds.FallbackMayIssueNothing`). When every
  holder of the table passed and drew its own high water the two are equivalent
  (`AutoIds.IssuedTwiceExactly`). The doc comment of `advance_automatic_id_watermark` promises an error
  whenever another writer moved the allocator first; the model follows the code.
- *Appending entries never changes a page* holds of every page but the last, and of the last one
  exactly when its own final entry closed it or the next entry does not fit (`Partition.AppendStable`).

Hash functions are parameters. Where an object id must be a function of content the store is required
to name each object by the hash of what it holds; no injectivity of any hash is assumed.

## Model

| member | source | states |
|---|---|---|
| `Cbor.ParseSound` | scripts/orna_extract.py:306-376 | whatever one item parses to is well formed, within the depth and item limits, and its encoding followed by the rest is the input |
| `Cbor.ParseComplete` | scripts/orna_extract.py:306-376 | every well-formed value within the limits parses back from its encoding, whatever bytes follow, at any depth and item count |
| `Cbor.DecodeExact` | scripts/orna_extract.py:379-384 | the decoder returns a value if and only if the input is that value's canonical encoding and the value is well formed within the limits |
| `Cbor.DecodeInjective` | scripts/orna_extract.py:379-384 | two accepted inputs with one value are the same bytes |
| `Cbor.PrefixFree` | scripts/orna_extract.py:244-276 | no encoding of a well-formed value is a proper prefix of another, bignums, NaN and maps included |
| `Cbor.EncodeInjective` | scripts/orna_extract.py:244-276 | well-formed values with one encoding are equal |
| `CborForms.HeadExact` | scripts/orna_extract.py:228-240 | a head is the shortest of the five forms that holds its argument, highest byte first, for every major type and every argument below 2^64 |
| `CborForms.FloatExact` | scripts/orna_extract.py:326-332 | a float is admitted if and only if it is no NaN or the one NaN 0x7ff8000000000000, told by its bytes |
| `CborForms.Utf8Exact` | scripts/orna_extract.py:344-348 | text is admitted if and only if its bytes spell a sequence of Unicode scalar values as in section 3 of RFC 3629 |
| `CborForms.ExampleBignum` | scripts/orna_extract.py:244-276 | 2^64 and -2^64 - 1 have the bytes Appendix A of RFC 8949 gives them |
| `ValueTree.DepthExact` | scripts/orna_extract.py:306-311 | the nesting a value is charged for is the length of the longest way down into it, a wide integer being a tag over its bytes |
| `CborReader.Reader.Take` | scripts/orna_extract.py:298-304 | exactly the next bytes, or no movement when too few remain |
| `CborReader.Reader.NextToken` | scripts/orna_extract.py:306-350 | one head with the content it delimits, agreeing with the token function on the bytes left |
| `CborReader.Reader.Item` | scripts/orna_extract.py:306-376 | the cursor-and-counter reader returns what the recursive parse returns and leaves the position and the item count where that parse ends |
| `CborReader.DecodeCanonical` | scripts/orna_extract.py:379-384 | acceptance is exactly re-encoding to the input, for the imperative reader |
| `Decimals.CompareExact` | scripts/orna_extract.py:549-565 | the digit-position comparison is the sign of c1·10^e1 − c2·10^e2 for coefficients and exponents of either sign |
| `Decimals.CompareZero` | scripts/orna_extract.py:539-565 | normalised decimals compare equal only when coefficient and exponent agree |
| `Decimals.NormalForm` | scripts/orna_extract.py:539-546 | every decimal has a normalised form of the same value, which by `CompareZero` is the only one |
| `Decimals.CompareTransitive` | scripts/orna_extract.py:549-565 | decimal comparison composes |
| `KeyOrder.Antisymmetric` | scripts/orna_extract.py:574-623 | an accepted pair is accepted the other way round with the opposite sign, and zero means the same key, nested tuples and references included; which of the two comes first is fixed by `KeyMeaning.CompareMeans` |
| `KeyOrder.Transitive` | scripts/orna_extract.py:574-623 | chained comparisons compose and the composed pair is never refused; the direction is fixed by `KeyMeaning.CompareMeans` |
| `KeyOrder.Reflexive` | scripts/orna_extract.py:574-623 | a key is accepted against itself if and only if every component at every nesting has the permitted shape, and is then equal to itself |
| `KeyOrder.AscendingPairs` | scripts/orna_extract.py:1725-1736 | checking neighbours orders every pair of keys, however far apart |
| `KeyMeaning.LexExact` | scripts/orna_extract.py:626-627 | one byte string comes first exactly when it is a proper prefix of the other or smaller at the first byte that differs |
| `KeyMeaning.PlainMeans` | scripts/orna_extract.py:586-618 | booleans and integers by value, text, bytes, UUIDs, dates and enums by their bytes, decimals by exact value, instants by seconds and then nanosecond |
| `KeyMeaning.CompareMeans` | scripts/orna_extract.py:574-623 | a comparison succeeds if and only if the two keys are of one permitted type at every component it reaches, and answers -1 if and only if the left key comes first: tuples and arrays at the first component that differs and then by length, references by target ids and then by key |
| `Partition.CanonicalUnique` | scripts/orna_extract.py:635-686 | at most one grouping obeys the partition rule |
| `Partition.GreedyCanonical` | scripts/orna_extract.py:635-686 | the greedy reading obeys the rule: every page ends at its first closing entry or before the first entry that does not fit |
| `Partition.GreedyRefuses` | scripts/orna_extract.py:676-680 | it refuses if and only if some entry does not fit a node of its own |
| `Partition.CanonicalByPages` | scripts/orna_extract.py:635-686 | a grouping obeys the rule if and only if it covers the entries and every page in turn fits, holds no earlier end, and ends itself or has no room for the next entry |
| `Partition.GreedyExact` | scripts/orna_extract.py:635-686 | the loop produces a grouping if and only if that grouping obeys the rule |
| `Partition.CanonicalBounds` | scripts/orna_extract.py:635-686 | group sizes sum to the entry count, each is 1 to 256, and each page keeps the size and reference bounds |
| `Partition.AppendStable` | scripts/orna_extract.py:635-686 | appending entries keeps every page but the last, and keeps the last one if and only if its final entry closed it or the next entry does not fit |
| `Partition.ReplayPartition` | scripts/orna_extract.py:635-686 | the streaming loop with its running counters equals the greedy specification, canonical, refusing exactly when an entry is too large |
| `OrderedMap.LevelsAgree` | scripts/orna_extract.py:1693-1779 | counted from the leaves, two accepted maps with the same rows agree level by level |
| `OrderedMap.ManyPagesBelow` | scripts/orna_extract.py:1693-1738 | only the root stands alone at its level |
| `OrderedMap.SameHeight` | scripts/orna_extract.py:1693-1779 | two accepted maps with the same rows have the same height |
| `OrderedMap.CanonicalForm` | scripts/orna_extract.py:1693-1779 | history independence: two maps accepted for one domain and the same rows, in any two stores, have the same pages at every level and the same root id |
| `MapStructure.SearchStructure` | scripts/orna_extract.py:1693-1751 | rows ascend across all leaves, the root covers exactly them, and at every height child i holds as many rows as it counts, all above fence i−1 and at or below fence i |
| `MapStructure.PageSize` | scripts/orna_extract.py:1753-1772 | the size tracked for a leaf or branch is the exact length of its encoded node |
| `MapStructure.PageBounds` | scripts/orna_extract.py:1753-1779 | every page of an accepted non-empty map holds 1 to 256 entries and encodes to at most 65,536 bytes |
| `MapStructure.LoadLevel` | scripts/orna_extract.py:1703-1724 | the children of a level in order, after every child check |
| `MapStructure.CheckLeaves` | scripts/orna_extract.py:1725-1736 | the rows of the leaves, if and only if every page belongs to the map and all keys ascend |
| `MapStructure.CheckPartitions` | scripts/orna_extract.py:1753-1779 | accepts exactly when every level is the canonical partition of its entries, which `MapPages.LevelExact` tells page by page from keys, encoded bytes and references |
| `MapStructure.ReadOrderedMap` | scripts/orna_extract.py:1693-1738 | the level walk terminates by height and returns the rows exactly of the maps the acceptance function admits, which are the canonical maps of `MapPages.AcceptExactly` |
| `MapPages.LevelExact` | scripts/orna_extract.py:1753-1779 | a level passes the partition check if and only if every page of it holds at most 256 items, 65,536 encoded bytes and 256 references, ends at the first item from the 16th on whose encoded key or fence is anchored or at the 256th, and otherwise ends only where the next item would break a limit |
| `MapPages.SizesDecided` | scripts/orna_extract.py:1753-1779 | leaf levels with the same keys, equal encoded value lengths and the same references have pages of the same sizes |
| `MapPages.AcceptExactly` | scripts/orna_extract.py:1693-1779 | the verifier accepts a map if and only if every child is the page its branch describes, all keys ascend, the root has more than one child, and every page of every height is right in the sense of `LevelExact` |
| `Gear.Window` | scripts/orna_extract.py:702-723 | 64 bytes determine the rolling accumulator, whatever came before |
| `Gear.GearCuts` | scripts/orna_extract.py:702-723 | the scan that starts 64 bytes before the minimum reports exactly the cuts of the scan from the chunk's start |
| `Gear.GearBoundaries.Push` | scripts/orna_extract.py:726-743 | a chunk is admitted exactly when none before it was left open and it holds no cut inside; it is left open exactly when it does not end at a cut |
| `Gear.AdmitsCanonical` | scripts/orna_extract.py:726-743 | non-empty chunks are admitted if and only if they are the chunker's own partition of their concatenation |
| `Gear.CheckChunks` | scripts/orna_extract.py:726-743 | pushing chunk after chunk decides exactly that |
| `Gear.ChunksExact` | scripts/orna_extract.py:702-743 | the chunks of some bytes are the one way to cut them in which no chunk holds an earlier cut and every chunk but the last ends at one: at 65,536 bytes or later where the weighted sum of the gear words is a multiple of 262,144, or at 1,048,576 bytes |
| `Gear.CutWindow` | scripts/orna_extract.py:702-723 | only the last 18 bytes before a place decide whether the sum is a multiple there, fewer than the 64 the scan restarts with |
| `Gear.ChunkSizes` | scripts/orna_extract.py:702-743 | every chunk has at most 1,048,576 bytes and every one but the last at least 65,536 |
| `ByteIndex.CanonicalIndex` | scripts/orna_extract.py:1783-1839 | history independence: two accepted byte indexes that stream the same bytes, in any two stores, have the same nodes at every height and the same root id |
| `ByteIndex.AcceptedChunks` | scripts/orna_extract.py:1783-1818 | the chunks of an accepted index are the chunker's chunks of the bytes it streams |
| `ByteIndex.StreamLength` | scripts/orna_extract.py:1783-1788 | an accepted index streams exactly the recorded number of bytes |
| `ByteIndex.NodeSize` | scripts/orna_extract.py:1822-1834 | the tracked size, running total included, is the exact length of the encoded index node |
| `ByteIndex.NodeBounds` | scripts/orna_extract.py:1819-1839 | every node of an accepted index encodes to at most 65,536 bytes |
| `ByteIndex.Walker.Walk` | scripts/orna_extract.py:1793-1816 | the depth-first walk succeeds exactly when every entry below checks out and the chunks are admitted, appends to each height's list exactly the nodes at that height from left to right, and streams the chunks in order |
| `ByteIndex.ReadByteIndex` | scripts/orna_extract.py:1783-1839 | returns the streamed bytes exactly when the index is accepted |
| `IndexPages.LevelExact` | scripts/orna_extract.py:1819-1839 | a level passes the grouping check if and only if every node of it keeps the limits and ends at the first anchored entry from the 16th on, the 256th, or where the next entry would break a limit; chunks are anchored by length and digest, smaller indexes by identity |
| `IndexPages.AcceptExactly` | scripts/orna_extract.py:1783-1839 | the walk accepts an index if and only if every entry describes the chunk or smaller index it names, every chunk ends where it must, and every node of every height is right in that sense |
| `Overflow.MakeMapCanonical` | scripts/orna_extract.py:279-285 | a map built from pairs holds exactly those pairs in canonical key order |
| `Expansion.MakeMapExact` | scripts/orna_extract.py:279-285 | the map built from pairs is the only one with exactly those pairs in strictly ascending order of encoded keys, and there is none if two keys encode alike |
| `Overflow.ResolvedPath` | scripts/orna_extract.py:1912-1948 | below a resolved node every path of references is simple and meets nothing active |
| `Overflow.AcceptedIsAcyclic` | scripts/orna_extract.py:1912-1948 | nothing reachable from a resolved node lies on a cycle |
| `Overflow.ResolveFewer` | scripts/orna_extract.py:1912-1948 | a smaller set of active nodes never changes a result |
| `Overflow.SurvivalUnreachable` | scripts/orna_extract.py:2065-2077 | an expanded value holds no tag 60113 where the semantic form would meet one, so that refusal never fires |
| `ValueTree.KidsDetermine` | scripts/orna_extract.py:209-221 | a value is determined by its constructor, its tag number or length, and the values it holds in order |
| `Expansion.ExpandExact` | scripts/orna_extract.py:1912-1948 | a value expands to another if and only if that one has its form and holds the expansions of its kids in their places, map entries reordered by encoded key, where an overflow reference expands to what its node resolves to and a stored Blob reference to itself |
| `Expansion.ExpandFixed` | scripts/orna_extract.py:1937-1948 | a well-formed value without an overflow reference outside stored Blob references expands to itself, tags included |
| `Expansion.SemanticExact` | scripts/orna_extract.py:2065-2077 | the semantic form is the same relation with each stored Blob reference cut to its first four items under the semantic tag |
| `OverflowMemo.MemoHit` | scripts/orna_extract.py:1912-1935 | a remembered node resolves to the same value below any of its ancestors |
| `OverflowMemo.Expander.OverflowValue` | scripts/orna_extract.py:1912-1935 | the memo returns what resolution without a memo returns, which `Expansion.ExpandExact` describes; recursion shrinks the set of inactive nodes |
| `OverflowMemo.Expander.ExpandValue` | scripts/orna_extract.py:1937-1948 | the same for every value, by the inactive nodes and then the size of the value; what an expansion keeps and replaces is `Expansion.ExpandExact` |
| `OverflowMemo.ExpandRows` | scripts/orna_extract.py:1937-1948 | for any sequence of calls sharing one memo, each result is the memo-free one, hence the one `Expansion.ExpandExact` describes |
| `Media.RenderParses` | scripts/orna_extract.py:417-488 | every canonical media type is what its own text parses to |
| `Media.ParseCanonical` | scripts/orna_extract.py:417-488 | whatever text is accepted parses to a canonical media type whose text keeps the length and parameter limits |
| `Media.Idempotent` | scripts/orna_extract.py:417-488 | an accepted text normalises to a text that is accepted again and returned unchanged |
| `Media.FixedExactly` | scripts/orna_extract.py:417-488 | a text is its own normal form if and only if it renders a canonical media type |
| `Media.SameContent` | scripts/orna_extract.py:417-488 | two texts normalise alike if and only if they name one essence up to alias and case and carry the same parameters, order aside |
| `Media.NormaliseMedia` | scripts/orna_extract.py:417-488 | the moving cursor computes exactly the specified normal form and refusals |
| `Media.AnnotationFixpoint` | scripts/orna_extract.py:491-507 | a canonical annotation is its own canonical form |
| `Media.AnnotationExactly` | scripts/orna_extract.py:982-996 | an annotation is its own canonical form, as a stored Blob must have it, if and only if its media type is canonical text and its hint is absent or a well-formed, admitted, non-preferred suffix within the limit |
| `Media.HeadIsEssence` | scripts/orna_extract.py:493-496 | the text before the first semicolon is the essence the registry is asked about |
| `MediaGrammar.ContentExact` | scripts/orna_extract.py:417-488 | a text is accepted and says a media type if and only if it is within the limits and is one of the ways to write that media type: outer spaces, tokens, spaces around semicolons, parameters with names distinct up to case, values as tokens or in quotes with any character escaped |
| `MediaGrammar.RenderExact` | scripts/orna_extract.py:483-488 | a canonical media type is written without spaces, with quotes only where a token will not do, backslashes only before quotes and backslashes, and names in ascending order by code point |
| `GitTree.ParseExact` | scripts/orna_legacy.py:100-135 | a tree is accepted if and only if it is the canonical writing of admitted entries with distinct names, which are what is returned |
| `GitTree.OrderExact` | scripts/orna_legacy.py:100-110 | entries are ordered by the first place where their names go on differently, a directory's name going on with a slash and a blob's with a zero byte |
| `GitTree.RoundTrip` | scripts/orna_legacy.py:100-135 | admitted entries in any order survive writing and parsing |
| `GitTree.ParseGitTree` | scripts/orna_legacy.py:112-135 | the position loop computes the specified parse |
| `RangeRead.ReadNode` | scripts/orna_legacy.py:204-242 | the entries of a node, with every offset and shape check, against the specification |
| `RangeRead.WalkExact` | scripts/orna_legacy.py:244-272 | if the full walk of a node succeeds, any sub-range walk returns exactly that slice, at any height |
| `RangeRead.WalkTree` | scripts/orna_legacy.py:244-272 | the recursive generator with its running offset computes the specified walk |
| `RangeRead.RangeIsSlice` | scripts/orna_legacy.py:274-298 | for every root that verifies and every admissible offset and length the read succeeds with exactly that slice of the content, so the incomplete-read refusal never fires |
| `RangeRead.VerifyExact` | scripts/orna_legacy.py:204-298 | a blob verifies if and only if at every entry of its tree there is a chunk or a smaller tree of exactly the size and digest recorded, all limits kept, and its bytes have the recorded digest |
| `RangeRead.AdjacentReads` | scripts/orna_legacy.py:274-286 | adjacent reads concatenate to the read of the joint range |
| `RangeRead.ReadBlobRange` | scripts/orna_legacy.py:274-286 | the read with all its refusals computes the specified range |
| `RleHybrid.DecodeExact` | scripts/orna_parquet.py:354-407 | for every positive width the decoder returns `out` if and only if the input is some serialised run list that covers the count only in its last run and expands to `out` first |
| `RleHybrid.DecodeRange` | scripts/orna_parquet.py:354-407 | exactly `count` values come out, each below 2^width |
| `RleHybrid.UnpackAt` | scripts/orna_parquet.py:383-394 | value i of a packed group is the shift-and-mask of the group |
| `RleHybrid.LittleEndianAt` | scripts/orna_parquet.py:383-400 | byte i of a group or run value counts 256^i |
| `RleHybrid.VarintAt` | scripts/orna_parquet.py:370-382 | the low seven bits of header byte i count 128^i |
| `RleHybrid.DecodeHybrid` | scripts/orna_parquet.py:354-407 | the nested loops compute the specified decoding for widths 0 to 32 and refuse all others |
| `RleHybrid.LookupExact` | scripts/orna_parquet.py:459-464 | every value is the dictionary's at its index, and one index out of range refuses the page |
| `RleHybrid.DictionaryValues` | scripts/orna_parquet.py:450-464 | dictionary pages decode to the looked-up indices, the empty page included |
| `RleHybrid.FillCells` | scripts/orna_parquet.py:504-507 | a value for each non-zero level in order, none missing and none left over |
| `RleHybrid.CellsUnique` | scripts/orna_parquet.py:504-507 | levels and values determine the cells |
| `RleHybrid.DataPage` | scripts/orna_parquet.py:467-507 | succeeds exactly when levels, sizes and values all decode, and then the cells are present exactly at the non-zero levels and hold all the values in order |
| `Compact.WinStep` | scripts/orna_compact.py:433-452 | one dictionary step keeps, for every key seen, its only latest item, or finds the conflict |
| `Compact.Resolve` | scripts/orna_compact.py:433-452 | succeeds if and only if no key occurs twice at one generation, and returns the latest row of every key in strict key order |
| `Compact.ResolvesUnique` | scripts/orna_compact.py:433-452 | at most one row list is the resolution of some items |
| `Compact.SegmentOrderIrrelevant` | scripts/orna_compact.py:433-452 | for any two listings of the same segments, conflicting ones included, one is refused exactly when the other is, and accepted ones resolve to the same rows |
| `Compact.LiveRows` | scripts/orna_compact.py:249-251 | the live rows are exactly the keys whose highest-generation item is data |
| `Compact.RowsFromSegments` | scripts/orna_compact.py:433-452 | the rows segments resolve to are exactly those of the newest segment that holds each key: its stored fields, or none where that segment deletes |
| `Compact.ConflictExact` | scripts/orna_compact.py:433-452 | segments are refused if and only if two different rows of one key are in segments of one generation |
| `BlobCompletion.NoneLeft` | crates/orna-application/src/migration_rows.rs:604-629 | replacement leaves no occurrence of what was replaced |
| `BlobCompletion.Undone` | crates/orna-application/src/migration_rows.rs:604-629 | replacement is undone by the reverse replacement when the new subtree was absent before |
| `BlobCompletion.ReplaceExact` | crates/orna-application/src/migration_rows.rs:604-629 | replacement puts the new subtree where the sought one stands; any other value keeps its form and holds the replacements of its kids in their places |
| `BlobCompletion.OccursExact` | crates/orna-application/src/migration_rows.rs:604-629 | a subtree occurs in a value if and only if it is the value or occurs in one of its kids |
| `BlobCompletion.Completion` | crates/orna-application/src/migration_rows.rs:590-629 | a non-empty descriptor leaves no provisional reference anywhere, changes nothing where none occurred, and can be undone |
| `LegacyRows.OneRowPerKey` | crates/orna-application/src/legacy_store.rs:501-511 | succeeds if and only if keys are distinct, returning the same rows in strict key order |
| `Migration.ChosenHolds` | crates/orna-application/src/legacy_store.rs:286-299 | when a source is chosen for a relation it is the rows of every non-empty table that answers the relation |
| `Migration.ChosenSupplied` | crates/orna-application/src/legacy_store.rs:286-299 | a chosen non-empty source is one of the supplied tables |
| `Migration.CollectExact` | crates/orna-application/src/migration_rows.rs:501-531 | the values of a row by schema field: each is what the row holds under that field's name or object id, every field is known and none is given twice |
| `Migration.LowerFieldExact` | crates/orna-application/src/migration_rows.rs:531-553 | a field is lowered from its value or, exactly where the value fills a Blob slot, from a provisional reference with the length and digest of the slot's bytes |
| `Migration.LowerRowExact` | crates/orna-application/src/migration_rows.rs:501-556 | a lowered row has one field for each stored schema field, in schema order: the lowering of the value the row holds under that field's name or id |
| `Migration.LoweredExact` | crates/orna-application/src/migration_rows.rs:81-115 | a stored tuple is a row's lowering if and only if its item at the position of every stored schema field is the completed lowering of the value the row holds under that field |
| `Migration.TargetExact` | crates/orna-application/src/migration_rows.rs:372-420 | a table answers the relation with its id, or the first relation declared under its name, and no other |
| `Migration.GatherExact` | crates/orna-application/src/migration_rows.rs:372-420 | the tables are refused if and only if one of them answers no declared relation or two of them claim one relation by the same kind of address |
| `Migration.LowerRelationExact` | crates/orna-application/src/migration_rows.rs:420-436 | a relation is mapped if and only if it has no automatic key and at most one non-empty source, to rows that are one for one the lowered rows of that source under their own keys |
| `Migration.ExpectedRows` | crates/orna-application/src/migration_rows.rs:203-222 | the expected rows of a relation are one for one those of its carrying source, each under its own key with a tuple that holds, at the position of every stored schema field, the completed lowering of the value the row has under that field |
| `Migration.OneBlobPerDefault` | crates/orna-application/src/migration_rows.rs:190-197 | the expectation lists one Blob per counted annotation default |
| `MigrationLoops.GatherSources` | crates/orna-application/src/migration_rows.rs:372-420 | the loop over the legacy tables fills the specified slots or refuses |
| `MigrationLoops.Payloads.LowerRowFields` | crates/orna-application/src/migration_rows.rs:501-556 | lowered fields as specified, which by `Migration.LowerRowExact` is field by field in schema order, with a payload recorded for every pending Blob and none lost |
| `MigrationLoops.Payloads.LowerTable` | crates/orna-application/src/migration_rows.rs:443-495 | the same for all rows of a table, keys kept |
| `MigrationLoops.BuildRowInput` | crates/orna-application/src/migration_rows.rs:372-437 | the whole mapping equals its specification, told by positions in `Migration.LowerRelationExact`, and every pending Blob's payload is staged under its own identity |
| `MigrationLoops.CompleteRows` | crates/orna-application/src/migration_rows.rs:81-115 | stored tuples and expected Blobs of all rows as specified |
| `RangeScan.BoundsExact` | crates/orna-repository/src/native_graph.rs:7386-7464 | the count and end keys read from the outermost pages of a sound page are those of all the rows beneath it |
| `RangeScan.CollectExact` | crates/orna-repository/src/native_graph.rs:7732-7872 | scanning a sound page at any height succeeds and appends exactly the rows of the interval beneath it, up to the limit, although children outside the interval are not read |
| `RangeScan.RangeExact` | crates/orna-repository/src/native_graph.rs:997-1032 | a scan of a sound map with lower bound, upper bound, resume key and limit is the first rows of that interval |
| `RangeScan.RangeIsStretch` | crates/orna-repository/src/native_graph.rs:7747-7777 | the rows returned are one stretch of the map: from the first key that is neither below the lower bound nor at or before the resume key, up to the first at or above the upper bound or the limit |
| `RangeScan.AcceptedScan` | crates/orna-repository/src/native_graph.rs:997-1032 | every map the store verifier accepts is sound, so its scans return exactly the first rows of the interval |
| `RangeScan.ScanLeaf` | crates/orna-repository/src/native_graph.rs:7747-7777 | the loop over a leaf computes the specified scan, refusals included |
| `RangeScan.ScanChildren` | crates/orna-repository/src/native_graph.rs:7779-7866 | the loop over the children of a branch computes the specified scan, refusals included |
| `RangeScan.ScanPage` | crates/orna-repository/src/native_graph.rs:7732-7872 | the recursive collector computes the specified scan for any page, sound or not |
| `UpgradeGate.ResumeSkips` | crates/orna-application/src/upgrade_gate.rs:113-150 | resuming after the k-th key of an ordered relation skips exactly k rows |
| `UpgradeGate.CandidateRows` | crates/orna-application/src/upgrade_gate.rs:113-150 | the paged scan of a relation's ordered map rebuilds the whole relation, failing only when a row does not decode |
| `UpgradeGate.CheckRelation` | crates/orna-application/src/upgrade_gate.rs:153-180 | accepts exactly when the actual rows are the expected ones, no more and no fewer |
| `UpgradeGate.CheckStoreRelations` | crates/orna-application/src/upgrade_gate.rs:63-84 | accepts exactly when the store binds every staged relation and only staged or system ones |
| `UpgradeGate.VerifyRelation` | crates/orna-application/src/upgrade_gate.rs:87-110 | accepts exactly when rows agree and every Blob resolves to its payload |
| `UpgradeGate.VerifyCandidate` | crates/orna-application/src/upgrade_gate.rs:42-60 | accepts exactly when all of the above hold for every relation |
| `UpgradeGate.Preservation` | crates/orna-application/src/upgrade_gate.rs:42-180 | when the gate accepts, every declared relation holds exactly the rows of its one carrying source, each with every stored field lowered at its own position, no row of any supplied table is lost, every candidate row decodes to such a lowering of a supplied row, and no other relation exists |
| `UpgradeGate.OneForOne` | crates/orna-application/src/upgrade_gate.rs:153-180 | with one row per key on the legacy side, the k-th row of the relation is the lowering of the k-th row of its source, and there are as many |
| `UpgradeGate.SnapshotPreserved` | crates/orna-application/src/legacy_store.rs:501-511 | composed with one row per key: every relation is, row for row, field for field and in order, the lowering of its carrying source, and every row read from every table is in the candidate |
| `UpgradeGate.BlobPreserved` | crates/orna-application/src/upgrade_gate.rs:184-221 | every Blob of every migrated row resolves to content of the same identity |
| `ReplOverlay.RestoreTraces` | crates/orna-project/src/table_storage.rs:426-470 | a restored tuple stores only references its source row stores; every other field is as written by `RestoreExact` |
| `ReplOverlay.RestoreExact` | crates/orna-project/src/table_storage.rs:432-470 | restoring succeeds with a tuple if and only if the lengths agree, every present Blob field is the placeholder over a reference of the source row, and the tuple equals the written one at every ordinary field and absent Blob and the source row at every placeholder |
| `ReplOverlay.NormaliseMutations` | crates/orna-application/src/repl_transaction.rs:272-381 | restoring from the overlay equals restoring from the table replayed with all earlier normalised mutations, for inserts, updates, deletes and moves; field by field it is `RestoreExact` |
| `ReplOverlay.NormaliseExact` | crates/orna-application/src/repl_transaction.rs:272-381 | a run of mutations normalises to another if and only if, at every position, the mutation is the same with its tuple restored from the row its source key has in the table replayed with all normalised ones before it |
| `ReplOverlay.ApplyAt` | crates/orna-application/src/repl_transaction.rs:272-381 | after a mutation each key holds what it wrote there, nothing where it deleted or moved away, and otherwise what it held |
| `ReplOverlay.ReferencesTrace` | crates/orna-application/src/repl_transaction.rs:272-381 | every Blob reference written, and every one in the replayed table, is a committed reference or one of an admitted insert |
| `AutoIds.WatermarksNeverDecrease` | crates/orna-repository/src/allocator.rs:123-164 | over any further steps of any interleaving no watermark decreases or disappears |
| `AutoIds.PassedHasReserved` | crates/orna-application/src/repl_transaction.rs:129-140 | whatever the evaluation's outcome, an activation past reservation has reserved every table it took an ID from, and its IDs ascend inside its reserved range |
| `AutoIds.ObservedIsPassed` | crates/orna-application/src/lib.rs:2348-2375 | an ID an activation observed is never handed out by it afterwards in any interleaving, and once it is past reservation the watermark is at least that ID |
| `AutoIds.AdvancedApart` | crates/orna-application/src/repl_transaction.rs:198-217 | two reservations that moved the ref share no ID |
| `AutoIds.ReservedOnce` | crates/orna-repository/src/allocator.rs:123-164 | an ID is between the first and the present watermark if and only if some ref movement reserved it, and only one did |
| `AutoIds.DisjointExactly` | crates/orna-repository/src/allocator.rs:150-162 | in every reachable state the reserved ranges of a table are disjoint if and only if no reservation of it passed through the same-watermark fallback |
| `AutoIds.IssuedTwiceOnlyByFallback` | crates/orna-application/src/repl_transaction.rs:166-217 | an ID handed out by two activations that passed reservation implies that one of them passed through the fallback |
| `AutoIds.IssuedTwiceExactly` | crates/orna-repository/src/allocator.rs:150-162 | when every activation holding a table passed and handed out its own high water, some ID of the table was issued twice if and only if the fallback was taken for it |
| `AutoIds.WholeRangeDrawsHigh` | crates/orna-application/src/repl_transaction.rs:198-217 | an activation that handed out as many IDs as it reserved handed out its high water |
| `AutoIds.FallbackMayIssueNothing` | crates/orna-repository/src/allocator.rs:155-160 | a reachable state in which the fallback was taken, all holders passed having only observed the ID, and no ID was issued twice |
| `AutoIds.FallbackIssuesTwice` | crates/orna-repository/src/allocator.rs:155-160 | a reachable state in which two passed activations have handed out the same ID |
| `Syntax.SegmentsExact` | crates/orna-application/src/table_reference.rs:66-71 | the segments of a name are the one way to split it at `::` from the left: joined they give it back, none holds a separator, and none but the last ends in a colon |
| `Syntax.OwnExact` | crates/orna-application/src/table_reference.rs:66-71 | a qualified text contributes itself and every part it splits into, and nothing else |
| `Syntax.LabelExact` | crates/orna-application/src/table_reference.rs:173-326 | only the names of arguments and of record, pattern and type fields are taken whole |
| `Syntax.NodeDetermined` | crates/orna-application/src/table_reference.rs:79-326 | nodes of one constructor with the same operators, literals, optional parts and list lengths are equal if their children are, so no part of any expression, statement, pattern, type or target is left out of the walk |
| `TableReference.FinalSegmentExact` | crates/orna-application/src/table_reference.rs:60-64 | the final segment is what follows the last separator, or the whole key |
| `TableReference.Collector.ExprIdentifiers` | crates/orna-application/src/table_reference.rs:79-171 | the shared set grows by exactly the names mentioned in the expression, wherever they are nested; by `Syntax.NodeDetermined` every part of it is walked |
| `TableReference.Collector.StatementIdentifiers` | crates/orna-application/src/table_reference.rs:208-234 | the same for statements |
| `TableReference.Collector.AssignmentTargetIdentifiers` | crates/orna-application/src/table_reference.rs:236-248 | the same for assignment targets |
| `TableReference.Collector.PatternIdentifiers` | crates/orna-application/src/table_reference.rs:250-285 | the same for patterns |
| `TableReference.Collector.TypeIdentifiers` | crates/orna-application/src/table_reference.rs:287-326 | the same for types |
| `TableReference.Identifiers` | crates/orna-application/src/table_reference.rs:79-326 | a name is collected if and only if the node at the end of some path of child positions contributes it, where the children leave no part out |
| `TableReference.ClosedHolds` | crates/orna-application/src/table_reference.rs:22-58 | a set of names closed under edges holds everything reachable from its members |
| `TableReference.EntryReferencesTables` | crates/orna-application/src/table_reference.rs:22-58 | the worklist terminates and answers true if and only if the entry is undefined or a function reachable by name edges mentions a table in any part of its body |

## Left out

- Git subprocesses, object streaming, file output and JSON reports: the object store is a finite map from id to content.
- SHA-1, SHA-256, CRC-32, Zstandard and Unicode case folding: parameters of the operations that use them.
- Text is modelled as its UTF-8 bytes in the codec and the key order; error messages collapse to one refusal.
- `node_tuple`, schema descriptor and native reference-tree checks, and the meta and index decoding of legacy blobs: their results are the well-formedness predicates the stores are required to meet.
- Dependency indexes: they use the same partition rule as byte indexes and would add the same lemmas again.
- The digest of an overflow value's full bytes and its dependency index: whether a stored overflow value loads is a field of the graph.
- Thrift decoding, PLAIN values, record-text and row-unit parsers, `decode_loose_rows` and `legacy_row_key`: flat decoding without a printer to round-trip against.
- `encode_stored` and the staged writer of the migration: the gate is modelled over whatever candidate store results.
- UpgradeGate.CandidateRows: the candidate's relations are required to be sound ordered maps, which accepted ones are by `RangeScan.AcceptedScan`; read budgets and overflow loading of row values are not modelled.
- RangeScan.RangeExact: keys are compared by a total order given as a parameter, as `TypedKey` provides one; for maps of the store verifier it must extend the logical key order.
- RangeScan.ScanPage: page domains are compared as values rather than bytes, and keys are taken as already decoded.
- Decimals.CompareExact: Python refuses to convert integers of more than 4,300 digits to text, so comparing coefficients of one sign beyond that size raises there; the model has no such limit.
- KeyOrder.Reflexive: for the same reason a decimal key whose coefficient has more than 4,300 digits is accepted by the model and raises in the source.
- UpgradeGate.BlobPreserved: Blob content is read through a map from descriptor to content, so chunked reading of the payload is not modelled; empty Blobs have no bytes to compare.
- UpgradeGate.Preservation: only role-1 fields are lowered, so fields the schema does not store are not claimed to survive.
- Compact.Resolve: keys of one table are required to be comparable with each other and to match their encoded bytes, as segment loading checks.
- ReplOverlay.NormaliseMutations: an admitted insert is required to carry no move to another key; a move to the same key is refused as in `with_reencoded_keys`.
- AutoIds.DisjointExactly: the refs may start at any non-negative watermarks; errors of the object database are one abort step, and the ref update is one atomic compare-and-swap as Git provides.
- AutoIds.WatermarksNeverDecrease: allocator refs are changed only through the modelled operation, not by hand.
- RleHybrid.DataPage: PLAIN decoding and decompression are parameters; PLAIN is required to return as many values as asked for.
- GitTree.ParseExact: the parsed dictionary is modelled as its entries in insertion order.
- Media.AnnotationFixpoint: Unicode lower-casing of the suffix is a parameter that must leave valid suffixes alone.
- TableReference.EntryReferencesTables: the visible names are passed as a list that must hold exactly the visible ones; source spans of the syntax tree are dropped.
- The automatic-ID loops visit their tables in any order, which includes map order.
- Secondary indexes, archives, the catalogue, packaging, editors and the command line.

# Verified core of the metrics store

This project models the parts of the metrics store whose correctness is hardest to see from the
code, and proves what they are for. It is a plain Dafny project: `dafny verify dfyconfig.toml` checks all
of it. The main results, by subject:

* **The set of u64** (`Bits`, `Listing`, `Slots`, `Bucket16Level`, `Bucket32*`, `BucketList*`, `Uint64Set`,
  `SetCodec`). Every program of add, add_multi, del, clone, union, intersect and subtract leaves an object
  that stands for the same mathematical set, with its exact size. The invariant is the real one: bucket keys
  may repeat, because `intersect` leaves default buckets with key 0 behind, and only the first bucket of each
  key may hold items. Stable sorting and the two-cursor merges keep it. Listing is strictly ascending,
  `equal` decides equality, and unmarshaling inverts marshaling before any tail.
* **Regular expression rewriting** (`Spans`, `RuneClass`, `Regex*`). A tree means, for a fixed text, the set of
  spans it matches. `factor` and `collapse`, which call each other, keep that meaning through all four rounds and
  terminate by a weight that never grows, and leave neighbours with nothing in common; the same weight bounds size
  and height, so every refusal has its cause; `simplify` keeps the meaning and leaves no counted repeat; rune
  classes have a unique normal form with an exact complement; and the list of strings is extracted exactly from
  the trees that spell out at most 100, is exact for every tree without surrogates, and in general if and only if
  every string with an invalid rune is replaced by one the tree matches anyway.
* **The sample block codec** (`Varint*`, `Words`, `NearestDelta*`, `DeltaCodec`, `BlockCodec`,
  `NonDecreasingFix`, `Decimal`). The word-at-a-time varint reader equals the byte-wise one in value, index and
  failure on every input; batches decode to what was encoded; blocks come back exactly at precision 64, and
  within a bound that does not accumulate below it, modulo 2^64; values below 2^62 keep their range and order
  under delta coding; scale calibration is exact on one side and truncating on the other if and only if the
  difference of the exponents is within reach of the i16 arithmetic.
* **HTTP/1.1 framing** (`HttpFraming`, `HttpStream`, `HttpBody`, `HttpWriter`, `HttpConn`, `HttpPipeline`,
  `HttpGrammar`, `HttpWitness`), after sections 6.3 and 7.1 of RFC 9112. The bytes arrive in pieces of any sizes,
  and reads fail at any positions of the wire, any number of times. For every such arrival and every amount of
  body the handlers leave unread, the requests a connection serves are the first messages on the wire, each
  starting right after the one before it, up to the first message with a failure inside a control line of its
  body; a connection that serves fewer requests than there are messages had a reason. So requests with a length,
  without one or in chunked coding, written one after another, are served one by one, each with its own head and
  payload, whatever the pieces and whatever time-outs there are outside bodies. The reader takes exactly the
  chunked bodies of an independent grammar, and it inverts the chunked writer for every sequence of writes,
  flushes, partial socket writes, partial socket reads, buffer sizes and failures it may read on after: with
  enough buffers the whole payload arrives and the reader ends in its final state right after the encoding.
* **Concurrent and ordered effects** (`WorkQueue`, `Backup*`, `Balance*`, `ServerStop`). Under every interleaving
  the work queue processes each item once; a backup stopped anywhere shows its completion marker only over a
  destination that equals the source or was not touched; accepted part lists cover every byte once and rebuild
  files in any order; a restore over an old file gives the content except for one family of old files; names of
  remote objects are read back and never collide; in-flight counts equal the holders, and a request that gives up
  has tried every healthy backend; after a stop an open connection was shut down unless its handle could not be
  cloned and it had been checked before the flag was set.
* **Path cleaning** (`PathClean`, `PathNormalize`, `PathPlace`). The byte-buffer loop is the fold of the
  components over a stack and leads to the same place; normalizing twice is normalizing once if and only if the
  path keeps no `..` in front.

Conventions. Code that changes state is a class or a method with loops, proved against a specification
function or predicate; the lemmas then say what the specification means. A `Vec` that a function appends to is a
sequence passed in and returned. The outside world (how reads are cut up, what fails, who runs next) is an
argument that the theorems quantify over. Errors are values. Bytes of the codec are `bv8` and words `bv64`; a
signed 64-bit integer there is its two's complement pattern, and in the arithmetic of differences it is an
integer with explicit wrap-around.

What the proofs found about the code, each stated by the members named:

* `marshal_var_int64` writes -64 in two bytes where the batch encoder writes one; both read back
  (`VarintBatch.MarshalVarInt64Item`).
* `uvarint` and the batch reader disagree exactly on ten-byte numbers whose last byte is 0
  (`VarintBatch.UvarintAgrees`).
* A surrogate in a class is listed as U+FFFD, which the class does not match
  (`RegexOrValues.SurrogateListedWrongly`); trees without surrogates are listed exactly
  (`RegexOrValues.OrValuesOfScalarTree`).
* A read that fails inside a chunk-size or trailer line loses the bytes of the line read so far, and the body
  then ends elsewhere (`HttpWitness.FailedReadLosesPlace`). A failed read anywhere else leaves the reader in step
  (`HttpBody.Body.Read`, `HttpConn.HandleConnection`, `HttpPipeline.ServePipeline`).
* A head between 64 KiB and 68 KiB is refused if and only if a read ends beyond 64 KiB and before the end of the
  head (`HttpConn.ReadHead`), so the same bytes are accepted or refused depending on how they arrive
  (`HttpWitness.ArrivalDecides`).
* Calibrating two empty arrays gives a different exponent when the arguments are swapped
  (`Decimal.CalibrationSymmetric`).
* Calibration meets its promise if and only if no ordinary non-zero value of the side with the higher exponent
  leaves more than 32767 of the difference after its own limit (`Decimal.CalibrationMeaning`): a difference of
  32768 can still come out right and one of 65535 does not (`Decimal.WideDifferences`).
* A restore leaves a longer local file as it is when the backed-up content is a whole number of full parts, because
  the keys of parts leave the file size out and there is nothing to copy; in every other case the file becomes the
  content (`BackupResume.RestoreFile`, `BackupResume.StaleTailKept`).
* `parse_from_remote_path` accepts lower-case digits and a leading plus sign, so several names are read as one
  part; the name is the one the part is written under if and only if it has neither (`BackupNames.NameCanonical`).
* `ensure_non_decreasing_sequence` cannot give a single item both ends (`NonDecreasingFix.FixedShape`).
* A connection escapes the sweep of `stop` if and only if its handle could not be cloned and it was checked before
  the flag was set (`ServerStop.ServerSafe`, `ServerStop.UnclonedEscapes`).

## Model

| member | source | states |
|---|---|---|
| Bucket16Level.Add | crates/esm-common/src/uint64set.rs:787-843 | the bucket gains exactly the value and stays valid, also when a full pool turns into a bitmap, and the result says whether it was new |
| Bucket16Level.AddMulti | crates/esm-common/src/uint64set.rs:801-829 | the low 16 bits of all items are added and the number of new ones is returned |
| Bucket16Level.Del | crates/esm-common/src/uint64set.rs:869-892 | the value is gone, all others stay, and the result says whether it was there |
| Bucket16Level.GetLen | crates/esm-common/src/uint64set.rs:723-736 | the length is the cardinality of the items, whether pooled or in the bitmap |
| Bucket16Level.Union | crates/esm-common/src/uint64set.rs:738-755 | the items are the union, for every mix of pool and bitmap |
| Bucket16Level.Intersect | crates/esm-common/src/uint64set.rs:757-777 | the items are the intersection, for every mix of pool and bitmap |
| Bucket16Level.AppendTo | crates/esm-common/src/uint64set.rs:894-931 | the appended part lists base plus each item, strictly ascending |
| Bucket32Level.BinarySearch16 | crates/esm-common/src/uint64set.rs:942-959 | the least position whose element is not below the key |
| Bucket32Level.GetLen | crates/esm-common/src/uint64set.rs:487-493 | the length is the cardinality of the items |
| Bucket32Level.Add | crates/esm-common/src/uint64set.rs:598-658 | the bucket gains the value whatever the hint says, keys stay strictly ascending, and the result says whether it was new |
| Bucket32Level.Has | crates/esm-common/src/uint64set.rs:660-670 | exact membership whatever the hint says |
| Bucket32Level.Del | crates/esm-common/src/uint64set.rs:672-690 | the value is gone, all others stay, and the result says whether it was there |
| Bucket32Bulk.AddMulti | crates/esm-common/src/uint64set.rs:609-627 | run by run, the low 32 bits of all items are added and the number of new ones is returned |
| Bucket32Bulk.AppendTo | crates/esm-common/src/uint64set.rs:692-700 | the appended part lists the items with their key, strictly ascending |
| Bucket32Bulk.ForEach | crates/esm-common/src/uint64set.rs:577-587 | one part for each slot in key order, strictly ascending, until the callback stops |
| Bucket32Merge.Union | crates/esm-common/src/uint64set.rs:495-535 | the two-cursor merge and the sort give a valid bucket whose items are the union |
| Bucket32Merge.SortRestores | crates/esm-common/src/uint64set.rs:525-535 | sorting pairs with distinct keys restores strictly ascending keys and keeps the items |
| Bucket32Merge.Intersect | crates/esm-common/src/uint64set.rs:537-575 | the merge and the removal of zero buckets give a valid bucket whose items are the intersection |
| Slots.StableSortKeepsFirst | crates/esm-common/src/uint64set.rs:263-268 | stable sorting keeps the first slot of each key first, so only firsts hold items afterwards |
| BucketList.SortedCorrect | crates/esm-common/src/uint64set.rs:263-268 | the sorted list has the same items, ascending keys, and items only in the first bucket of each key |
| BucketList.FirstDecides | crates/esm-common/src/uint64set.rs:215-224 | membership in a list with repeated keys is decided by the first bucket of the key |
| BucketList.CountItems | crates/esm-common/src/uint64set.rs:108-117 | the sum of the bucket sizes is the cardinality of the set |
| BucketListMerge.Union | crates/esm-common/src/uint64set.rs:284-329 | the merge of two sorted lists with repeated keys stands for the union, with items only in first buckets |
| BucketListMerge.Intersect | crates/esm-common/src/uint64set.rs:333-372 | the merge stands for the intersection although dropped buckets become default ones with key 0 |
| Uint64Set.GetOrCreateBucket32 | crates/esm-common/src/uint64set.rs:199-213 | the index is that of the first bucket of the key, and the items do not change |
| Uint64Set.ForEach | crates/esm-common/src/uint64set.rs:425-438 | the parts hold items of the set, each at most once, and all of them unless the callback stops; it is asked after every part, and a stop is at the last one |
| Uint64Set.Visit | crates/esm-common/src/uint64set.rs:430-438 | with a callback that never stops it, every item is handed out exactly once |
| Uint64Set.Set.Len | crates/esm-common/src/uint64set.rs:129-133 | the count kept in the object is the cardinality |
| Uint64Set.Set.Clone | crates/esm-common/src/uint64set.rs:46-58 | a new object with the same items |
| Uint64Set.Set.Has | crates/esm-common/src/uint64set.rs:215-224 | exact membership |
| Uint64Set.Set.Add | crates/esm-common/src/uint64set.rs:140-172 | the set gains the item, in the cached bucket or a found or new one, and the invariant and the count are kept |
| Uint64Set.Set.AddMulti | crates/esm-common/src/uint64set.rs:179-197 | the set gains all items of the list |
| Uint64Set.Set.Del | crates/esm-common/src/uint64set.rs:227-246 | the set loses the item and nothing else |
| Uint64Set.Set.AppendTo | crates/esm-common/src/uint64set.rs:253-268 | the appended part is the strictly ascending list of the members, and the set is unchanged |
| Uint64Set.Set.Union | crates/esm-common/src/uint64set.rs:271-329 | the set becomes the union and the other set keeps its items |
| Uint64Set.Set.Intersect | crates/esm-common/src/uint64set.rs:333-372 | the set becomes the intersection, with a correct count |
| Uint64Set.Set.Subtract | crates/esm-common/src/uint64set.rs:376-404 | the set becomes the difference, whichever of the two sets is walked |
| Uint64Set.Set.Equal | crates/esm-common/src/uint64set.rs:408-423 | equal sizes and one-way inclusion decide equality of the two sets, both directions |
| SetCodec.EncodeRoundTrip | crates/esm-common/src/uint64set.rs:67-106 | decoding a length header and big-endian items gives the items and exactly the tail |
| SetCodec.ByteOrder | crates/esm-common/src/uint64set.rs:97-106 | the k-th byte of a written number is its digit to base 256, the most significant first |
| SetCodec.DecodedIsEncoded | crates/esm-common/src/uint64set.rs:67-90 | whatever is decoded is exactly the encoding of the items before the tail |
| SetCodec.DecodeAccepts | crates/esm-common/src/uint64set.rs:67-90 | an input is accepted if and only if it holds the items its header announces |
| SetCodec.Marshal | crates/esm-common/src/uint64set.rs:97-106 | the encoding of a duplicate-free listing of the set is appended |
| SetCodec.Unmarshal | crates/esm-common/src/uint64set.rs:60-90 | a set with the decoded items and the tail, or the error the input calls for |
| SetCodec.Run | crates/esm-common/src/uint64set.rs:140-404 | every program of operations gives a valid object that stands for its mathematical meaning, with its exact size |
| SetCodec.MarshalRoundTrip | crates/esm-common/src/uint64set.rs:67-106 | marshaling the outcome of any program and unmarshaling it before any tail gives an equal set and that tail |
| Spans.StackedUnbounded | crates/esm-common/src/regexutil.rs:1834-1848 | a star of a star is the star, and a plus of a plus is the plus, as sets of spans |
| RuneClass.AppendRange | crates/esm-common/src/regexutil.rs:294-313 | adding a range is set union, also when it widens one of the last two ranges |
| RuneClass.AppendClass | crates/esm-common/src/regexutil.rs:348-353 | adding a class is set union |
| RuneClass.CleanClass | crates/esm-common/src/regexutil.rs:248-277 | the outcome is sorted, without touching ranges, and has the same members |
| RuneClass.CleanUnique | crates/esm-common/src/regexutil.rs:248-277 | two clean lists with the same members are equal: the normal form is unique |
| RuneClass.NegateClass | crates/esm-common/src/regexutil.rs:377-393 | on a clean class of runes the outcome is clean and is the exact complement within the runes |
| RuneClass.ComplementInvolution | crates/esm-common/src/regexutil.rs:377-393 | negating twice gives the class back |
| RuneClass.AppendFoldedRune | crates/esm-common/src/regexutil.rs:331-343 | a rune and the rest of its folding orbit are added, for any folding table |
| RuneClass.AppendFoldedRange | crates/esm-common/src/regexutil.rs:315-345 | a range and the orbits of all its runes are added, through the splits at the ends of the folding runes; a range that holds all of these is added as it is, which is the same when orbits stay among them |
| RuneClass.FoldedWhole | crates/esm-common/src/regexutil.rs:317-320 | a range that holds all folding runes is closed under folding when orbits stay among them |
| RegexTree.EqualMatch | crates/esm-common/src/regexutil.rs:105-146 | trees the source calls equal match the same spans of every text |
| RegexLeading.RemovePrefix | crates/esm-common/src/regexutil.rs:1574-1613 | a tree that starts with a string is that string followed by what is left after removing it |
| RegexLeading.RemoveNode | crates/esm-common/src/regexutil.rs:1616-1642 | a tree is its leading node followed by the rest |
| RegexLeading.MergeCharClass | crates/esm-common/src/regexutil.rs:507-534 | the merged node matches the union of the runes of both, through literals, classes and dots |
| RegexLeading.CleanAlt | crates/esm-common/src/regexutil.rs:537-556 | cleaning a class and recognising the two dots keeps the runes it matches |
| RegexFactorLaws.CommonStart | crates/esm-common/src/regexutil.rs:1011-1163 | alternatives with a common start are that start followed by the alternation of their rests |
| RegexFactorLaws.FactorString | crates/esm-common/src/regexutil.rs:1016-1066 | pulling a literal prefix out of a run keeps its spans and does not add weight |
| RegexFactorLaws.FactorNode | crates/esm-common/src/regexutil.rs:1068-1114 | pulling a leading node out of a run keeps its spans and does not add weight |
| RegexFactorLaws.MergedClasses | crates/esm-common/src/regexutil.rs:1116-1151 | one node with exactly the runes of single-rune alternatives stands for their alternation |
| RegexFactor.MergeClasses | crates/esm-common/src/regexutil.rs:1116-1151 | round three keeps the spans of the alternation and leaves no two neighbours that are single runes |
| RegexFactor.DropEmpties | crates/esm-common/src/regexutil.rs:1153-1161 | round four keeps the spans of the alternation and leaves no two neighbouring empty matches |
| RegexFactor.Flatten | crates/esm-common/src/regexutil.rs:993-999 | lifting children of the same operator keeps the spans |
| RegexFactor.WeightBoundsSize | crates/esm-common/src/regexutil.rs:720-748 | the size the parser computes is below twice the weight, counted repeats included |
| RegexFactor.WeightBoundsHeight | crates/esm-common/src/regexutil.rs:750-752 | the height the parser computes is at most the weight |
| RegexSize.SizeBoundsExpansion | crates/esm-common/src/regexutil.rs:720-748 | the size the parser computes is at least the number of runes and classes of the tree after all counted repeats are expanded |
| RegexSize.HeightIsLongestWay | crates/esm-common/src/regexutil.rs:750-752 | the height the parser computes is the length of the longest way down the tree |
| RegexFactor.Parser.CheckLimits | crates/esm-common/src/regexutil.rs:777-822 | a tree is refused as large only for too many runes or a size beyond the limit and as nested only for a height beyond it; it is always refused for these once enough nodes have been counted |
| RegexFactor.Parser.Collapse | crates/esm-common/src/regexutil.rs:988-1008 | the node matches exactly what the list matches under the operator and weighs no more than the list and one; an error means too many runes or a weight that can break the limit of its kind |
| RegexFactor.Parser.Factor | crates/esm-common/src/regexutil.rs:1011-1163 | the alternation matches the same spans of every text, its weight does not grow, and no two neighbours share a leading literal, are both single runes or both empty, or share a leading node unless one of them is a single rune; an error means too many runes or a weight that can break the limit of its kind |
| RegexFactor.Parser.FactorStrings | crates/esm-common/src/regexutil.rs:1016-1066 | round one keeps the spans of the alternation and leaves no two neighbours with a common leading literal, or fails for such a cause |
| RegexFactor.Parser.FactorNodes | crates/esm-common/src/regexutil.rs:1068-1114 | round two keeps the spans of the alternation and leaves no two neighbours with a common leading class or fixed repeat of one, or fails for such a cause |
| RegexSimplify.ExpandMatch | crates/esm-common/src/regexutil.rs:1774-1828 | n copies and nested optional copies match between n and m spans of the body, for every bound, also unbounded |
| RegexSimplify.SimplifyMatch | crates/esm-common/src/regexutil.rs:1763-1848 | the simplified tree matches the same spans of every text |
| RegexSimplify.SimplifyUncounted | crates/esm-common/src/regexutil.rs:1763-1848 | the simplified tree has no counted repeat anywhere |
| RegexOrValues.RawValuesExact | crates/esm-common/src/regexutil.rs:2297-2376 | whenever a list is produced, a span matches exactly when its text is in the list before runes are converted |
| RegexOrValues.ListProduced | crates/esm-common/src/regexutil.rs:2292-2376 | a list is given if and only if the tree is built of literals that do not fold, empty matches, classes, captures, concatenations and alternations, none of the parts empty, and spells out at most 100 strings; it then has one entry for each |
| RegexOrValues.OrValuesExact | crates/esm-common/src/regexutil.rs:2292-2376 | the returned list has at most 100 entries and is exact if and only if every string with an invalid rune is replaced by one the tree matches |
| RegexOrValues.OrValuesOfScalarTree | crates/esm-common/src/regexutil.rs:2292-2376 | for a tree without surrogates or invalid runes the list is given under the same condition and is exactly the language |
| RegexOrValues.SurrogateListedWrongly | crates/esm-common/src/regexutil.rs:2292-2295 | a class of one surrogate is listed as U+FFFD, which it does not match |
| Varint.CanonicalValue | crates/esm-encoding/src/int.rs:85-185 | the seven-bit digits of an encoding give the number back |
| Varint.AppendIsCanonical | crates/esm-encoding/src/int.rs:85-185 | every one of the ten branches appends the base 128 digits of the number |
| VarintReader.ReadVarUint64Slow | crates/esm-encoding/src/int.rs:341-438 | value, new index and failure of the byte-wise reader on every input, as a function of the first unmarked byte |
| VarintReader.StopBit | crates/esm-encoding/src/int.rs:320-323 | the lowest stop bit of the eight-byte word is the top bit of the first unmarked byte, and there is none without one |
| VarintReader.ReadVarUint64Fast | crates/esm-encoding/src/int.rs:317-336 | the same value, new index and failure as the byte-wise reader on every input |
| VarintReader.Uvarint | crates/esm-encoding/src/int.rs:243-261 | value and size of the single reader, zero for a cut-off number and negative for an overlong one |
| VarintBatch.ZigzagRoundTrip | crates/esm-encoding/src/int.rs:187-239 | zigzag decoding inverts the coding on every 64-bit word |
| VarintBatch.MarshalVarInt64Item | crates/esm-encoding/src/int.rs:189-211 | the single writer appends the minimal form if and only if the value is not -64 |
| VarintBatch.ReadHeld | crates/esm-encoding/src/int.rs:341-438 | any encoded number is read back wherever it stands, up to its end |
| VarintBatch.UvarintHeld | crates/esm-encoding/src/int.rs:243-273 | the single reader reads any encoded number back, before any tail |
| VarintBatch.UvarintAgrees | crates/esm-encoding/src/int.rs:243-261 | both decoders accept the same inputs with the same size; the values agree if and only if the form is not ten bytes ending in 0 |
| VarintBatch.MarshalVarInt64s | crates/esm-encoding/src/int.rs:214-233 | fast path or restart, the appended bytes are the minimal encodings of all items and the prefix is kept |
| VarintBatch.DecodeNeedsBytes | crates/esm-encoding/src/int.rs:283-289 | the initial length test only refuses inputs that would fail anyway |
| VarintBatch.UnmarshalVarInt64s | crates/esm-encoding/src/int.rs:282-311 | the array holds the decoded items and the rest is the tail, or the error of the first bad number, on the one-byte path and the mixed one |
| VarintBatch.BatchRoundTrip | crates/esm-encoding/src/int.rs:214-311 | decoding a batch inverts the encoder for every sequence and leaves exactly the tail |
| Words.WordRoundTrip | crates/esm-encoding/src/int.rs:189-239 | the two's complement pattern of an i64 gives the i64 back |
| NearestDelta.BitLengthMeaning | crates/esm-encoding/src/nearest_delta.rs:117-163 | the bit length is the exponent of the least power of two above the number |
| NearestDelta.RoundedDeltaBound | crates/esm-encoding/src/nearest_delta.rs:99-163 | one step ends within 2^(bits - precision) of the item, modulo 2^64, and the state stays in 0..63 |
| NearestDelta.RoundedDeltaShort | crates/esm-encoding/src/nearest_delta.rs:123-145 | within four of the previous state the low bits of the difference really are cleared, and its magnitude falls by less than the cleared power |
| NearestDelta.RoundedDeltaWhole | crates/esm-encoding/src/nearest_delta.rs:99-122 | without a difference, or for an item that fits the precision, nothing is lost and the state goes down by one |
| NearestDelta.RoundedDeltaFar | crates/esm-encoding/src/nearest_delta.rs:123-145 | more than four away from the previous state nothing is cleared and the state moves two towards the item's |
| NearestDelta.RelativeError | crates/esm-encoding/src/nearest_delta.rs:99-163 | the bound in terms of the value: nothing is lost below 2^p, and else less than the share 2^(1 - p) of it |
| NearestDelta.DeltasBound | crates/esm-encoding/src/nearest_delta.rs:31-49 | over a whole run every decoded item is within 2^(bits - precision) of its source and every state is in 0..63: no error accumulates |
| NearestDelta.DeltasExact | crates/esm-encoding/src/nearest_delta.rs:32-38 | at precision 64 the running sums are the source, also when differences wrap |
| NearestDelta.StepBetween | crates/esm-encoding/src/nearest_delta.rs:134-145 | away from overflow the new value lies between the previous one and the item |
| NearestDelta.HullKept | crates/esm-encoding/src/nearest_delta.rs:31-49 | values below 2^62 decode into any range that holds the source |
| NearestDelta.OrderKept | crates/esm-encoding/src/nearest_delta.rs:31-49 | a non-decreasing source below 2^62 decodes to a non-decreasing sequence, never above its source |
| NearestDelta2.Deltas2Bound | crates/esm-encoding/src/nearest_delta2.rs:34-55 | every decoded item is within the bound given by the item minus the previous decoded item, modulo 2^64, with every state in 0..63 |
| NearestDelta2.Deltas2Exact | crates/esm-encoding/src/nearest_delta2.rs:35-42 | at precision 64 the sums of sums are the source |
| DeltaCodec.MarshalNearestDelta | crates/esm-encoding/src/nearest_delta.rs:14-52 | on the fast and the slower path the bytes are the batch of the rounded differences, after what was there |
| DeltaCodec.UnmarshalNearestDelta | crates/esm-encoding/src/nearest_delta.rs:59-93 | the running sums are appended, or nothing and the error: bad number or tail left |
| DeltaCodec.DeltaDecodes | crates/esm-encoding/src/nearest_delta.rs:14-93 | decoding the written bytes gives the running sums of the written differences |
| DeltaCodec.MarshalNearestDelta2 | crates/esm-encoding/src/nearest_delta2.rs:15-58 | the bytes are the first difference by itself and the batch of second differences |
| DeltaCodec.UnmarshalNearestDelta2 | crates/esm-encoding/src/nearest_delta2.rs:65-107 | the sums of sums are appended, or nothing and the error |
| DeltaCodec.ItemThenBatch | crates/esm-encoding/src/nearest_delta2.rs:31-55 | a number written by itself, in either form, and a batch after it are read as one batch |
| DeltaCodec.Delta2Decodes | crates/esm-encoding/src/nearest_delta2.rs:15-107 | decoding the written bytes gives the first value and the sums of sums of the written differences |
| BlockCodec.IsConst | crates/esm-encoding/src/encoding.rs:339-353 | true exactly for a non-empty array of equal values |
| BlockCodec.IsDeltaConst | crates/esm-encoding/src/encoding.rs:356-369 | true exactly when there are two items and all differences agree modulo 2^64 |
| BlockCodec.IsGauge | crates/esm-encoding/src/encoding.rs:377-413 | true exactly for a negative start, a drop no counter makes, or more than two drops in over an eighth of the items |
| BlockCodec.GaugeMeaning | crates/esm-encoding/src/encoding.rs:377-413 | a non-negative sequence that never falls is no gauge; a negative start, a fall below zero or one to more than an eighth makes one |
| BlockCodec.MarshalInt64Array | crates/esm-encoding/src/encoding.rs:172-228 | the chosen block is appended, the prefix of the buffer is kept also when compression is undone, and no length assertion inside is hit |
| BlockCodec.UnmarshalInt64Array | crates/esm-encoding/src/encoding.rs:231-301 | for every block type the decoded values are appended, or nothing and the error |
| BlockCodec.PackRestores | crates/esm-encoding/src/encoding.rs:207-224 | the stored bytes give the plain data back, compressed or not |
| BlockCodec.BlockDecodes | crates/esm-encoding/src/encoding.rs:172-301 | every gauge or counter block, compressed or plain, decodes to the sums of its differences |
| BlockCodec.BlockRoundTrip | crates/esm-encoding/src/encoding.rs:172-301 | exact round trip for every array at precision 64, and for constant and steady arrays at every precision |
| BlockCodec.DecodedWithin | crates/esm-encoding/src/encoding.rs:188-205 | the first items are exact and every other is within its bound, at p + 2 bits for gauges below precision 6 |
| BlockCodec.DecodedRelative | crates/esm-encoding/src/encoding.rs:188-205 | every decoded item is off by less than the share 2^(1 - p) of its value, or of its step for counters, and by a quarter of that for gauges below precision 6 |
| BlockCodec.GaugeShapeKept | crates/esm-encoding/src/encoding.rs:191-200 | a gauge block below 2^62 keeps range and order |
| NonDecreasingFix.EnsureNonDecreasing | crates/esm-encoding/src/encoding.rs:309-336 | in place, every item becomes the running maximum cut at the upper end |
| NonDecreasingFix.FixedShape | crates/esm-encoding/src/encoding.rs:303-336 | the outcome never decreases and ends at the maximum; it starts at the minimum if and only if there are two items or both ends agree |
| NonDecreasingFix.FixedKeeps | crates/esm-encoding/src/encoding.rs:309-336 | a sequence that is already right is left alone |
| NonDecreasingFix.FixedLeast | crates/esm-encoding/src/encoding.rs:309-336 | between the ends an item becomes one of the values up to it, not below any of them, or the maximum if that is smaller |
| Decimal.MaxUpExponent | crates/esm-common/src/decimal.rs:274-294 | the search gives the limit of the value |
| Decimal.MaxUpMeaning | crates/esm-common/src/decimal.rs:274-294 | an ordinary non-zero value times 10^k fits i64 if and only if k is within the limit |
| Decimal.MarkerMeaning | crates/esm-common/src/decimal.rs:274-294 | the values that are not scaled are the two greatest of i64 and the least |
| Decimal.MarkersKept | crates/esm-common/src/decimal.rs:72-131 | whatever the exponents, lengths are kept and every marker stays in its place |
| Decimal.QuotMeaning | crates/esm-common/src/decimal.rs:110-129 | the division goes toward zero |
| Decimal.CalibrateScale | crates/esm-common/src/decimal.rs:72-131 | both arrays are scaled in place and the exponent is returned, with i16 and i64 wrap-around as written |
| Decimal.CalibrationMeaning | crates/esm-common/src/decimal.rs:84-130 | one side is scaled exactly without overflow, the other is divided by one power of ten toward zero, markers stay and none appears, if and only if no ordinary non-zero value leaves more than 32767 of the difference after its limit |
| Decimal.CalibrationExact | crates/esm-common/src/decimal.rs:72-131 | the same for the whole operation: it fails exactly when there is something to scale down and the difference is out of reach |
| Decimal.ScaleDownMeaning | crates/esm-common/src/decimal.rs:110-129 | the cut-off above 18 is the division by that power of ten |
| Decimal.LeastExponent | crates/esm-common/src/decimal.rs:90-98 | within reach the exponent is the least at which the exact side fits, if it holds an ordinary non-zero value |
| Decimal.CalibrationSymmetric | crates/esm-common/src/decimal.rs:72-88 | swapping the arguments swaps the outcome if and only if the sides are not both empty with different exponents |
| Decimal.WideDifferences | crates/esm-common/src/decimal.rs:90-98 | the i16 arithmetic recovers from its wrap at a difference of 32768 and not at one of 65535 |
| HttpFraming.RestEnd | crates/esm-http/src/request.rs:435-517 | a complete body ends at or after its start, within the bytes |
| HttpFraming.CutsLater | crates/esm-http/src/request.rs:364-433 | a position inside a control line lies after the start of the body and before its end |
| HttpFraming.SizeRead | crates/esm-http/src/request.rs:365-403 | a size line of the writer is read as its size, up to the data |
| HttpFraming.EncodingRead | crates/esm-http/src/request.rs:365-483 | any chunked encoding is read as its payload, up to its end and nothing after it |
| HttpGrammar.SizeLineGrammar | crates/esm-http/src/request.rs:365-411 | a size line is taken if and only if it is one to sixteen digits in either case, an optional extension after a semicolon and a line break; its value is the number the digits say |
| HttpGrammar.TrailerGrammar | crates/esm-http/src/request.rs:414-433 | trailers are taken if and only if they are lines of one to 8192 bytes besides carriage returns and then an empty line |
| HttpGrammar.BodyGrammar | crates/esm-http/src/request.rs:435-483 | a chunked body is complete with a payload and an end if and only if the bytes up to there are non-empty chunks that carry it, the last chunk and trailers |
| HttpStream.WriteAllVectored | crates/esm-http/src/response.rs:393-421 | all parts are delivered once and in order under short writes and interruptions, or a write failed with a first part delivered; it succeeds when every write makes progress or is interrupted |
| HttpBody.Body.ReadRaw | crates/esm-http/src/request.rs:330-340 | the bytes are the next ones on the wire, from the buffered prefix first and the connection after it |
| HttpBody.Body.ReadChunkSize | crates/esm-http/src/request.rs:365-411 | the size and the position after the line, or the failure the bytes call for, with at most sixteen digits and extensions skipped |
| HttpBody.Body.SkipTrailers | crates/esm-http/src/request.rs:414-433 | the position after the empty line, or the failure the bytes call for, with lines of at most 8192 bytes |
| HttpBody.Body.ReadChunked | crates/esm-http/src/request.rs:435-483 | a read takes the next part of the payload, ends the body in its final state, or fails as the bytes call for; after a failed read the reader is in step unless the failure lies inside a control line |
| HttpBody.Body.Read | crates/esm-http/src/request.rs:490-517 | the same for every kind of body: what was to come is what was read and what is still to come |
| HttpBody.Body.Drain | crates/esm-http/src/request.rs:310-328 | success means the reader stands exactly at the end of the body and no more than the cap was discarded; for a complete body a read failed before its end, or the answer is whether it is within the cap |
| HttpBody.Consume | crates/esm-http/src/request.rs:490-517 | for every sequence of buffer sizes the bytes are a first part of the payload, and the end is reached only with all of it, in the final state; so too for a reader that goes on after failed reads, if none lies inside a control line; given more buffers than bytes and failures it reaches the end |
| HttpWriter.ChunkedWriter.FlushChunk | crates/esm-http/src/response.rs:252-265 | the pending bytes go out as exactly one more chunk, or nothing for HEAD and for nothing pending; it succeeds on an accepting sink |
| HttpWriter.ChunkedWriter.Write | crates/esm-http/src/response.rs:302-308 | the bytes are pending or sent as chunks, never more than the threshold pending and nothing sent below it; it succeeds on an accepting sink |
| HttpWriter.ChunkedWriter.Finish | crates/esm-http/src/response.rs:210-223 | all that was written has been sent as chunks, followed by the last chunk; nothing for HEAD; it succeeds on an accepting sink |
| HttpWriter.WriteResponse | crates/esm-http/src/response.rs:210-318 | every sequence of writes and flushes, finished, is one chunked encoding of the concatenated data; it succeeds on an accepting sink |
| HttpWriter.EncodesRead | crates/esm-http/src/response.rs:252-265 | any such encoding before any tail is read as the data, up to its last byte |
| HttpWriter.StreamBlocks | crates/esm-http/src/response.rs:193-206 | relaying a body block by block is one chunked encoding of all its bytes; it succeeds on an accepting sink and a quiet source |
| HttpWriter.WriteThenRead | crates/esm-http/src/response.rs:193-318 | written in any pieces over any partial writes that accept, and read back over any partial reads and failures outside control lines with more buffers than bytes and failures, exactly the payload comes back, the reader is in its final state and stands right after the encoding |
| HttpConn.FindHeadEnd | crates/esm-http/src/conn.rs:168-173 | the position after the first empty line from the given one on, or none |
| HttpConn.ReadHead | crates/esm-http/src/conn.rs:112-166 | a complete head ends at the first empty line on the wire although scanning resumes three bytes back; too large if and only if a read ends beyond 64 KiB before the end of the head; never more than 68 KiB buffered; it fails only at a place of trouble in the head, and allowed time-outs are harmless |
| HttpConn.MessageFraming | crates/esm-http/src/request.rs:283-292 | with chunked coding a message has the chunked body whatever the length says; else exactly the given number of bytes, or none; the next message starts right after |
| HttpConn.ServeBody | crates/esm-http/src/conn.rs:70-100 | after a request that keeps the connection the leftover bytes start exactly at the end of its body, unless a place of trouble is inside a control line of it; a complete body within the drain cap keeps the connection unless there is trouble inside it; the handler gets a first part of the payload, and all of it if nothing fails and it asks on |
| HttpConn.ServeNext | crates/esm-http/src/conn.rs:63-100 | serving one message keeps the account of the served ones, and ending there has a reason |
| HttpConn.HandleConnection | crates/esm-http/src/conn.rs:44-101 | the served requests are the first messages on the wire with first parts of their payloads, up to the first message with a place of trouble inside a control line of its body; ending early has a reason; without trouble in bodies and within the limits all well-formed messages are served |
| HttpPipeline.ChunkedRestMoved | crates/esm-http/src/request.rs:435-483 | a complete chunked body means the same wherever it stands and whatever follows it |
| HttpPipeline.PipelineMessages | crates/esm-http/src/conn.rs:44-101 | the messages of concatenated requests are those requests, each starting where the one before it ends, with the payload it has by itself |
| HttpPipeline.ServePipeline | crates/esm-http/src/conn.rs:44-101 | for concatenated requests, pieces of any sizes and any trouble outside bodies, each served request has the head, the framing and a first part of the payload of the request in its place, and all of it if nothing fails; within the limits all are served |
| HttpPipeline.ServeSent | crates/esm-http/src/conn.rs:44-101 | requests written as a head and so many bytes, no bytes, or chunks, one after another and arriving in any pieces, are served in order with their heads and the first bytes they carry, all of them if the handler reads on; within the limits every one is served |
| HttpWitness.FailedReadLosesPlace | crates/esm-http/src/request.rs:364-411 | reading a body whose connection fails once inside its size line ends it at byte 6 of 27 |
| HttpWitness.ArrivalDecides | crates/esm-http/src/conn.rs:112-166 | one head of 65538 bytes is complete when it arrives in full reads and too large when it arrives byte by byte |
| WorkQueue.StepKeepsInv | crates/esm-backup/src/lib.rs:33-46 | every atomic action keeps: indices handed out once, finished items different, none forgotten, errors on their way or recorded |
| WorkQueue.EachItemOnce | crates/esm-backup/src/lib.rs:19-53 | in every interleaving no item is processed twice; Ok means each was processed exactly once, and an error names a call that failed |
| WorkQueue.AfterFailure | crates/esm-backup/src/lib.rs:33-46 | once the flag is set only items already taken are still called, at most one by each worker |
| WorkQueue.FirstErrorStays | crates/esm-backup/src/lib.rs:41-45 | the first error recorded stays the one that is returned |
| WorkQueue.TurnsBringTheEnd | crates/esm-backup/src/lib.rs:33-46 | every turn of a worker that is not gone lowers a measure, so the queue returns |
| BackupParts.KeyCounter.KeyOf | crates/esm-backup/src/part.rs:27-36 | a `parts.json` in any directory never gets the same key twice; other keys leave the file size out |
| BackupParts.MutableMeaning | crates/esm-backup/src/part.rs:28-31 | the mutable files are `parts.json` and every path that ends in `/parts.json` |
| BackupNames.RemoteRoundTrip | crates/esm-backup/src/part.rs:38-64 | under any prefix, the name of a part without the prefix is read as that part |
| BackupNames.NameSpelled | crates/esm-backup/src/part.rs:38-46 | the text of a name: the prefix without its final slashes and one slash, the path, a slash, and file size, offset and size in sixteen upper-case digits each, joined by underscores |
| BackupNames.NamesApart | crates/esm-backup/src/part.rs:38-46 | under one prefix two parts share an object if and only if path and all three sizes agree |
| BackupNames.NameAccepted | crates/esm-backup/src/part.rs:48-64 | a name is accepted if and only if it is a non-empty path, a slash and three fields of sixteen characters, each digits after at most one plus sign |
| BackupNames.NameCanonical | crates/esm-backup/src/part.rs:48-64 | an accepted name is the one its part is written under if and only if its last fifty characters hold no sign and no lower-case digit |
| BackupNames.KeysApart | crates/esm-backup/src/part.rs:27-36 | two keys are the same text if and only if they are the same key, also a unique one and a fixed one |
| BackupParts.PartsDifference | crates/esm-backup/src/part.rs:92-98 | in order, every `parts.json` in any directory, and every other part for which the second list has none with the same path, offset, size and actual size |
| BackupParts.PartsIntersect | crates/esm-backup/src/part.rs:101-107 | in order, the parts of the second list for which the first has one with the same path, offset, size and actual size, without any `parts.json` |
| BackupRun.AfterDeletions | crates/esm-backup/src/backup.rs:47-58 | after the deletions only objects of the source are left, and all it has but those to copy |
| BackupRun.PartsFilesMayDiffer | crates/esm-backup/src/backup.rs:30-58 | a destination that holds other bytes in any `parts.json`, at any depth, is one a run may start from |
| BackupRun.DeleteAll | crates/esm-backup/src/backup.rs:55-55 | a pass removes nothing but its items, and all of them when it succeeds |
| BackupRun.StoreAll | crates/esm-backup/src/backup.rs:69-91 | a pass stores first parts of its items' data and nothing else, and all data when it succeeds |
| BackupRun.CopyMissing | crates/esm-backup/src/backup.rs:60-91 | copies from the origin and uploads make the destination equal to the source, or leave first parts of the source's objects; they succeed when every call and pass works |
| BackupRun.Run | crates/esm-backup/src/backup.rs:30-111 | stopped anywhere, the marker stands only over a destination equal to the source or not touched; success means both, and a plan in which everything works succeeds; the next run can take up what is left |
| BackupRun.QueueGivesPass | crates/esm-backup/src/lib.rs:19-53 | every interleaving of the work queue, with its finished, failed and unfinished items and their fates, is a pass as the passes assume |
| BackupRestore.SplitIntoParts | crates/esm-backup/src/part.rs:68-85 | the parts tile the file from 0 to its size, all but the last of the greatest size, none empty unless the file is |
| BackupRestore.SortedUnique | crates/esm-backup/src/part.rs:87-89 | a strictly sorted list is the only sorted list of its parts |
| BackupRestore.PathStaysInside | crates/esm-backup/src/restore.rs:111-122 | a path is accepted if and only if, from any directory, every component leads one further down |
| BackupRestore.ValidateParts | crates/esm-backup/src/restore.rs:110-153 | accepts exactly the lists whose paths stay inside and whose files are whole chains after sorting |
| BackupRestore.AcceptedCovers | crates/esm-backup/src/restore.rs:123-152 | in an accepted list every byte of every file is held by exactly one part and no part reaches beyond its file |
| BackupRestore.FilesAccepted | crates/esm-backup/src/restore.rs:110-153 | the parts of any files, listed in any order, are accepted |
| BackupRestore.ListAndValidate | crates/esm-backup/src/restore.rs:110-153 | listing any files, shuffling the parts and validating them succeeds and gives back the parts file by file in order |
| BackupRestore.WritePartAt | crates/esm-backup/src/localfs.rs:62-100 | the file has the part's file size and the data in place, or nothing happened for a part beyond its file, or a short copy is reported |
| BackupRestore.AcceptedRebuilds | crates/esm-backup/src/restore.rs:68-96 | writing the parts of a file of an accepted list, in any order over any old file and without those it already holds, gives exactly the content if and only if there is something to write or the old file has its size |
| BackupResume.NothingMissing | crates/esm-backup/src/restore.rs:67-75 | every part of a file has a key of the local one if and only if the sizes agree or the content is whole full parts and the local file longer, for files that are not mutable |
| BackupResume.RestoreFile | crates/esm-backup/src/restore.rs:47-96 | deleting by the first part and writing the missing ones gives the content, for any old file, if and only if that is not a longer one after whole full parts; such a file is left as it is |
| BackupResume.StaleTailKept | crates/esm-backup/src/restore.rs:47-96 | a local file of two full parts whose backup is its first part keeps the second one |
| PathClean.KeptShape | crates/esm-auth/src/route.rs:125-194 | the kept components are not empty, hold no slash and are not `.`; `..` stays only in front of a relative path |
| PathClean.Clean | crates/esm-auth/src/route.rs:125-194 | the byte-buffer loop with its backtracking computes the fold of the components over a stack |
| PathNormalize.CleanIdempotent | crates/esm-auth/src/route.rs:125-194 | cleaning a cleaned path changes nothing |
| PathPlace.CleanedPlace | crates/esm-auth/src/route.rs:125-194 | cleaning does not change where a path leads, from any directory, or from the root for a rooted path |
| PathNormalize.NormalizePath | crates/esm-auth/src/route.rs:96-116 | the steps give a slash, the kept components and the trailing slash of the path, or nothing for the root |
| PathNormalize.NormalizedShape | crates/esm-auth/src/route.rs:86-116 | the outcome is empty or starts with a slash, has no empty component inside and no `.`, and no `..` if and only if none was kept in front, as for every rooted path |
| PathPlace.NormalizedPlace | crates/esm-auth/src/route.rs:96-116 | normalizing does not change where a path leads from the root |
| PathNormalize.NormalizeIdempotent | crates/esm-auth/src/route.rs:86-116 | normalizing twice is normalizing once if and only if the path keeps no `..` in front |
| Balance.Pool.FirstAvailableBackend | crates/esm-auth/src/balance.rs:138-159 | the first backend that is not broken, or the first of all when all are, and its count goes up by one |
| Balance.Pool.TakeIdle | crates/esm-auth/src/balance.rs:177-200 | the first idle healthy backend of the rotation is taken, or there is none in the rotation |
| Balance.Pool.LeastLoadedBackend | crates/esm-auth/src/balance.rs:165-233 | in pools of two or more, before the counter wraps: an idle healthy backend if any, else a healthy one of least load, and the first only when all are broken; the rotation continues after the chosen one |
| Balance.BestMeaning | crates/esm-auth/src/balance.rs:165-233 | the best choice is a healthy backend of least load among the healthy ones, and the first one only if none is healthy |
| Balance.Pool.Select | crates/esm-auth/src/balance.rs:121-132 | a backend for every non-empty pool, chosen by the policy and counted once |
| Balance.Attempt | crates/esm-auth/src/proxy.rs:262-338 | an attempt gives its backend back, goes to a healthy one if there is one, marks it if the attempt failed for it, and ends the request unless it may be retried |
| Balance.Proxy | crates/esm-auth/src/proxy.rs:258-344 | every backend taken is given back, at most one attempt per backend, a body that cannot be resent is sent once; the reply is Relayed, ClientGone, NotRetried or Unavailable exactly for what became of the last attempt, so a failed one that may be retried is followed by another while there are backends; a quick request does not come back to a backend while a healthy one is untried |
| Balance.MarkedMeaning | crates/esm-auth/src/proxy.rs:289-331 | a backend is marked from the last attempt on it that failed to connect, or failed by its status while the request could be retried, and else keeps its mark |
| BalanceRetry.HealthyIsTried | crates/esm-auth/src/proxy.rs:258-344 | a request that tried as many times as there are backends has tried every backend that was healthy all the time |
| BalanceRuns.StepKeepsInv | crates/esm-auth/src/balance.rs:63-74 | every atomic action keeps each count equal to the number of holders |
| BalanceRuns.CountersExact | crates/esm-auth/src/balance.rs:138-233 | in every interleaving the counts equal the holders, attempts and sends stay within their limits, and all counts are zero when all requests are done |
| BalanceRuns.CanFinish | crates/esm-auth/src/proxy.rs:258-344 | a request that looks for a backend or holds one can finish, and leaves the counts as they were |
| BalanceRuns.SwapDecides | crates/esm-auth/src/balance.rs:184-200 | the compare-and-swap takes an idle backend, and else the request looks on |
| BalanceRuns.FailedGoesOn | crates/esm-auth/src/proxy.rs:289-331 | after a failed attempt a request that may be retried goes on while it has attempts left |
| ServerStop.StepKeepsInv | crates/esm-http/src/lib.rs:155-281 | every action of the accept thread, a connection thread or `stop` keeps the invariant of ids, counts, registry and shutdown |
| ServerStop.ServerSafe | crates/esm-http/src/lib.rs:155-292 | in every run the counter equals the unfinished admitted connections and stays within the limit, and the accept thread ends only when stopped; after the join a running connection was not shut down if and only if its handle was not cloned and it was checked before the flag |
| ServerStop.Admission | crates/esm-http/src/lib.rs:206-262 | a server that is not stopped and has a free slot admits the next connection under a new id, registered and counted |
| ServerStop.AcceptRetried | crates/esm-http/src/lib.rs:211-222 | after a failed accept the loop goes on unless the server is stopped |
| ServerStop.StopCompletes | crates/esm-http/src/lib.rs:155-185 | wherever the accept thread stands, a few of its turns after the sweep it can be joined |
| ServerStop.NothingAfterJoin | crates/esm-http/src/lib.rs:170-198 | after the join no connection is admitted any more and the counter only falls |
| ServerStop.UnclonedEscapes | crates/esm-http/src/lib.rs:228-230 | a connection whose handle could not be cloned stays open after `stop` |

## Left out

- Bitmap words of the set are lists of 64 booleans and the `Bucket16`/`Bucket32` values are datatypes (they are stored inline in vectors); updates of a bucket inside its vector are replacements of the element.
- The loops that push the rest of a list after a merge are folded into the loops that push smaller keys.
- Uint64Set.Set.Add: the inlined path for the first bucket is part of `GetOrCreateBucket32`, and buckets a union takes over keep their hint where the clone of the source resets it; neither changes the items.
- `size_bytes` and `is_empty` of the set add nothing hard.
- The regular expression text parser and printer, anchors removal, the `regex` crate and the prefix fast paths of `PromRegex` are not modelled; trees are taken as the parser builds them.
- Case folding is any table in which newline has no other case; the ASCII and table lookups of `simple_fold` are not modelled.
- A class keeps its ranges as pairs in a field of its own instead of a flat vector of runes.
- Capture names and flags that do not affect matching are carried but not interpreted.
- Zstd is any pair of functions of which one inverts the other, and the 90 percent test is an arbitrary predicate.
- Overflow of the running offset in `validate_parts` and of u64 key and connection counters is not modelled.
- Conversion of floats in the decimal module, and with it `append_float_to_decimal`, is IEEE arithmetic and is not part of this model.
- The head parser is any function from head bytes to framing, so header syntax is not modelled; neither are the buffered, gzipped and Content-Length responses.
- Timeouts are read outcomes; clocks do not appear except as readings given to the balancer and the retry loop.
- Remote stores are a map from object names to bytes with listing, deletion and storing; directories are not modelled.
- A path other than parts.json is taken to determine its content, as the incremental design does: a local part with the key of a backed-up one is taken to hold its bytes (`Agree`).
- Balance.Pool.LeastLoadedBackend: promises its choice only before the u32 counter wraps, because the rotation is not a full cycle then.
- The auth configuration, routing tables, header rewriting, metrics and logging are plumbing.

# Membership service: verified model

A node of the service listens for heartbeats, keeps the addresses it hears in a hash table with one timer
each, and submits the table's key set to Paxos whenever it changes. All nodes learn the group from the
common log. This project models the code that carries the membership data from a heartbeat to the agreed
group, and proves what each part and the whole chain keep.

* **The hash table** (`src/include/uthash.h`): `Bits`, `HashBuckets`, `StableSort`, `ListSort`, `HashTable`,
  `HashRuns`. Handles are heap objects threaded through two doubly linked structures. Ghost fields hold the
  application order and the chain of every bucket. The hash is an arbitrary function of the key.
* **The serializer** (`src/tpl.c`): `TplFormat` says in which order a level of a format is walked (a `#`
  after a structure jumps back); `TplCodec` gives the bytes of typed values and, independently, parses
  bytes; `TplOrder` treats byte order. The walkers are methods over a tree of `TplNode` objects:
  `TplPack`, `TplDump`, `TplSerlen`, `TplUnpack`. `TplImage` has the theorems about whole images and
  `TplMirror` those about machines of different byte order, `TplTree`, `TplSanity` and `TplMaps` the map
  object with its operations, `TplRoundTrip` what a program gets that uses them, `TplReload` what a failed
  load does to the next one, `TplGather` the stream reassembler.
* **The timeout estimator** (`src/adaptive_delay_model.c`): `AdaptiveTimeout`, with exact reals and any
  window sizes 1 <= W1 <= W2; the failure detector uses it with 10 and 10000.
* **Membership** (`src/utils.c`, `src/timer.c`, `src/failure_detector_main.c`, `src/paxos_replica.c`):
  `CStrings`, `ZLists`, `GroupMessage`, `Membership`, `TimerList`, `PaxosReplica`. `DetectorView` says as
  values what a node knows and how a heartbeat, a timeout and a log entry change that; `FailureDetector` has
  the objects and proves each step against it; `DetectorRuns` is about whole runs. Critical sections are
  atomic steps; a timeout step may carry any address that ever had a timer.

`Sequences`, `Bits` and `Bytes` are helpers. Parts that the outside world decides are parameters: the hash
functions, the machine's byte order, timer descriptors, UUIDs, clock readings, the application's answers to
gathered images, and the old contents of local buffers (`stack`) and of new memory (`unset`). czmq's lists
are not part of the repository; `ZLists` models them as sequences with a cursor, as their documentation
describes them.

Results at a glance:

* every sequence of adds, in-order adds, deletes and sorts by any comparisons, with the expansions they
  cause, leaves a table that HASH_FSCK accepts and that behaves as a map (`HashRuns.Run`); by a total
  preorder, the sort is the unique stable one;
* whatever is packed comes back on load and nested unpacking, on a machine of either byte order
  (`TplRoundTrip.Transfer`, `TplMirror.MirrorImage`); counts of 2^31 or more aside, a buffer is accepted
  exactly if the bytes of some content stand in it, which it then holds (`TplImage.AcceptedIff`), and the class
  invariant `TplMaps.TplMap.Valid` keeps every later read inside the image;
* a buffer is a membership message exactly if it has the header, the format, and a count that makes up its size,
  and the UUID, the sender and the members stand at fixed places in it (`GroupMessage.DecodableIff`);
* an image with every number reversed and the endian flag flipped means the same (`TplImage.CrossEndian`);
* how a stream is cut into pieces does not matter, for any bytes (`TplGather.Gatherer.FeedAll`), and what is
  delivered from it is what its headers say (`TplGather.ScanMeans`);
* the rolling windows refine sums over the whole history; the timeout for any heartbeats in arrival times alone
  (`AdaptiveTimeout.TimeoutIs`), and in closed form for periodic ones;
* after any run of heartbeats, timeouts and log entries, from the start on, a node's members are the addresses
  with a heartbeat that no timeout has followed, it has submitted exactly the changes of that set, in order,
  and its group is what the log means (`DetectorRuns.Run`); each member's timer waits once for the time estimated
  from all its heartbeats since it joined (`FailureDetector.Detector.TimerWaitsAsEstimated`);
* a node whose log ends with another node's submission holds exactly that node's member set of the time, on
  machines of any byte order (`DetectorRuns.TwoNodes`).

Where the code falls short of its intent:

* The size walker takes an array count as a signed `int` (`src/tpl.c:1640`, `src/tpl.c:1651`) and so lets
  images through that the unpacker would read past. `TplImage.AcceptedIsReadIff`: in an accepted image of at
  most 2^31 bytes, unpacking everything stays inside exactly if every count, nested ones included, is below
  2^31. `TplImage.HugeCountIsAccepted` and `TplImage.NestedCountIsAccepted` give failing images.
* A failed load of a buffer of the other byte order leaves the swap flag set (`src/tpl.c:1196`), so that the
  next load checks numbers in the wrong order (`TplReload.LoadAfterFailure`) and rejects every good image whose
  size is not the same number in both orders (`TplReload.SwappedSize`); `TplReload.FailureSticks` gives two
  buffers.
* The reassembler delivers an image whose header says length 0 without moving on (`src/tpl.c:2447-2454`).
  It ends only when the application closes the source: `TplGather.EndlessIff` says exactly on which streams
  it does not, `TplGather.EndlessLoops` that the loop then goes on after any number of passes, and
  `TplGather.ZeroLengthExample` gives bytes on which it depends on the application.
* The average gap is the telescoped one from the first heartbeat on only if the model was created at the
  time of that heartbeat (as it is at `src/failure_detector_main.c:217-221`) or the window is full:
  `AdaptiveTimeout.AverageTelescopes`.
* A node ignores its own log entries (`src/paxos_replica.c:129-158`), so its group can differ from the
  others' when the last entry is its own: `PaxosReplica.SenderAgreesIff` says exactly when it does not, and
  `PaxosReplica.ReplicasCanDiffer` gives a log of two messages after which two replicas differ.
* `on_deliver` frees a pending entry before it unlinks it (`src/paxos_replica.c:149-151`); the model unlinks
  first. `is_equal_lists` is false for two empty lists (`src/utils.c:85`), so an empty group is copied again
  and moves the instance number, which `PaxosReplica.Replica.OnDeliver` states.

## Model

| member | source | states |
|---|---|---|
| `HashBuckets.ToBkt` | `src/include/uthash.h:427-430` | masking with a power of two less one gives the hash value modulo the number of buckets |
| `HashBuckets.PushFront` | `src/include/uthash.h:846-855` | the handle becomes the first of its bucket's chain; links, back links, counts and the partition of the members over the buckets stay right |
| `HashBuckets.DelInBucket` | `src/include/uthash.h:868-881` | exactly this handle leaves its chain; links, counts and partition stay right for the rest |
| `HashTable.Table.MakeTable` | `src/include/uthash.h:209-239` | a new table has 32 empty buckets with multiplier 0, no items, all counters at 0 and expansion not inhibited, and its tail is the first element |
| `HashTable.Table.AppendList` | `src/include/uthash.h:275-281` | the application order grows by the element at its end, all links and back links right |
| `HashTable.Table.AddToBkt` | `src/include/uthash.h:846-865` | the element is filed, and exactly when the chain has reached (expand_mult + 1) * 10 and expansion is not inhibited, the buckets double with counters and multipliers as ExpandBuckets leaves them; otherwise buckets and counters stay |
| `HashTable.Table.AddToTable` | `src/include/uthash.h:334-342` | the item count and the members filed in the buckets grow by the element; the buckets double under just that condition |
| `HashTable.IdealChainLength` | `src/include/uthash.h:925-927` | the shift-and-mask expression is exactly ceil(items / buckets) |
| `Bits.CeilDivMeans` | `src/include/uthash.h:925-927` | that ceiling c is the number with items <= buckets * c < items + buckets |
| `HashTable.RefileChain` | `src/include/uthash.h:930-946` | walking an old chain by its own links moves each of its handles into the new bucket of its hash value |
| `HashTable.Redistribute` | `src/include/uthash.h:928-947` | all members are filed in twice as many buckets; nonideal counts the sum of max(0, count - ideal) |
| `HashBuckets.ExcessMeans` | `src/include/uthash.h:934-936` | this excess is the number of places in the chains from the ideal length on |
| `HashTable.MultForMeans` | `src/include/uthash.h:937` | the multiplier counts how often the ideal length fits in the chain, and is 0 up to the ideal length |
| `HashTable.Table.ExpandBuckets` | `src/include/uthash.h:912-960` | same members filed by hash value modulo the doubled number; the ideal length is the least that holds all items, the multiplier m of a chain of more than the ideal length has ideal * m <= length < ideal * (m + 1) and is 0 for the others; inefficient expansions are counted and the second one in a row inhibits more |
| `HashTable.Table.Add` | `src/include/uthash.h:393-412` | order grows at its end, the abstract map by the new key; every consistency clause is kept, and the buckets double only under the guard |
| `HashTable.Table.FindPlace` | `src/include/uthash.h:283-290` | the loop stops at the place where insertion before the first greater element belongs |
| `StableSort.InsertMeans` | `src/include/uthash.h:283-290` | for any comparison and any list, the insertion puts the element behind elements that do not compare greater, right before one that does or at the end |
| `HashTable.Table.AddInOrder` | `src/include/uthash.h:347-378` | the order becomes the insertion of the element into it, the map grows, every consistency clause is kept, and the buckets double only under the guard |
| `HashTable.Table.FindInBkt` | `src/include/uthash.h:824-844` | the chain walk finds the element with this key, or there is none in the chain |
| `HashTable.Table.Find` | `src/include/uthash.h:153-168` | the lookup agrees with the abstract map for every key |
| `HashTable.Table.Delete` | `src/include/uthash.h:447-474` | exactly this element leaves the order and its key the map; bucket number, counters and multipliers stay; the last element takes the table with it |
| `HashTable.Table.Sort` | `src/include/uthash.h:967-1049` | for any comparison the links, head and tail are right, the elements are the same and the buckets are untouched; by a total preorder the order becomes its stable sort |
| `HashTable.Table.Fsck` | `src/include/uthash.h:512-559` | of any table that can be walked forward, it reports true exactly if all back links, bucket counts, the item count and the application list are right |
| `HashTable.Table.ValidPasses` | `src/include/uthash.h:512-559` | a table with the kept invariant can be walked and passes |
| `HashTable.Table.ItemCount` | `src/include/uthash.h:519-541` | the bucket counts add up to the item count |
| `HashTable.InOrderAddIsAppendThenSort` | `src/include/uthash.h:347-378` | inserting into a sorted list equals appending and sorting stably, and the result is sorted |
| `HashRuns.Step` | `src/include/uthash.h:393-474` | each operation acts on the abstract map as its name says, for any hash function |
| `HashRuns.Run` | `src/include/uthash.h:512-559` | after any sequence of operations, sorts by any comparisons included, the check passes and the table holds what a map would |
| `HashRuns.AddAllInOrder` | `src/include/uthash.h:347-378` | adding elements in order one by one gives their stable sort, sorted after every step |
| `HashRuns.AddAllThenSort` | `src/include/uthash.h:967-1049` | appending all elements and sorting once gives the same order |
| `ListSort.SplitRun` | `src/include/uthash.h:983-992` | the right run starts where the left one ends, or at the end of the list |
| `ListSort.MergeRuns` | `src/include/uthash.h:994-1034` | two runs are relinked into the output as their stable merge, with right back links |
| `ListSort.SortPass` | `src/include/uthash.h:977-1039` | for any comparison one pass relinks the whole list into merged pairs of runs and counts the merges |
| `ListSort.RunsFall` | `src/include/uthash.h:1040-1045` | the number of runs falls each time their length doubles, so the loop ends |
| `ListSort.SortList` | `src/include/uthash.h:967-1049` | for any comparison the passes end with the same elements linked in one list; by a total preorder it is the stable sort of what it was |
| `StableSort.SortOfIsSorted` | `src/include/uthash.h:963-966` | the specified sort is in order |
| `StableSort.SortOfIsStable` | `src/include/uthash.h:1007-1011` | elements that compare equal keep their order |
| `StableSort.StableSortIsUnique` | `src/include/uthash.h:967-1049` | a sorted list with the same groups of equal elements is that sort: the specification has one solution |
| `StableSort.PassDoublesBlocks` | `src/include/uthash.h:976-1046` | merging adjacent sorted blocks of size k gives the sorted blocks of size 2k |
| `TplFormat.WalkVisitsEachSlotOnce` | `src/tpl.c:1906-1941` | jumping back at # nodes visits every slot of every field of a level exactly once |
| `TplFormat.WalkInOrder` | `src/tpl.c:1906-1941` | fields come in the order of the format; in a structure with # all fields of one iteration come before those of the next |
| `TplFormat.SlotsOfField` | `src/tpl.c:1906-1941` | a field has one slot for each iteration of the loop it is in, and one if it is in none |
| `TplNodes.PoundStep` | `src/tpl.c:1707-1717` | the # block moves the walker as the walk says and leaves every other loop counter at 0; the walk gets shorter |
| `TplWords.Byteswap` | `src/tpl.c:2164-2173` | the word is reversed in place |
| `TplWords.ReadU32` | `src/tpl.c:2015-2017` | a word copied and swapped if needed has the value the image's byte order gives it |
| `TplWords.ReadAtom` | `src/tpl.c:2001-2012` | element by element swapping, or one bulk copy, gives the atom as this machine holds it |
| `TplWords.U32Inverse` | `src/tpl.c:2164-2173` | writing and reading a word in one byte order are inverse |
| `TplWords.WordBytes` | `src/tpl.c:2164-2173` | the four bytes of a word: least significant first, or last on a big-endian machine |
| `TplWords.WordMeans` | `src/tpl.c:2015-2017` | the number that four bytes stand for in either order |
| `TplWords.NativeMeans` | `src/tpl.c:2001-2012` | an atom stands in the image byte for byte as the machine holds it; read on the other kind of machine, byte j of an element of sz bytes is byte sz - 1 - j of the stored one |
| `TplWords.ReverseEachTwice` | `src/tpl.c:2164-2173` | swapping every element of any width is an involution |
| `TplCodec.ParseOfEncCell` | `src/tpl.c:841-913` | the bytes of any typed value parse back to it, however counts are taken |
| `TplCodec.EncOfParseCell` | `src/tpl.c:1951-2087` | whatever parses is the encoding of the parsed value: no other bytes give it |
| `TplCodec.EncodedBytes` | `src/tpl.c:841-913` | what stands for a value: the bytes of an atom as they are, a buffer behind its length, the elements of an array behind their count |
| `TplCodec.EncodedStrs` | `src/tpl.c:879-888` | a string stands behind its length plus one, and NULL is a word of 0 |
| `TplCodec.StrsInOrder` | `src/tpl.c:879-888` | the strings of a field stand one behind the other |
| `TplCodec.FieldsInOrder` | `src/tpl.c:841-913` | so do the fields of an element, as the walk comes to them |
| `TplCodec.CountsMean` | `src/tpl.c:1640-1658` | of an array with a count of 2^31 or more the size walker sees no elements and the unpacker all |
| `TplOrder.StrictRecIsAny` | `src/tpl.c:1638-1727` | without counts of 2^31 or more the size walker and the unpacker read the same values |
| `TplOrder.RecsTakeBytes` | `src/tpl.c:1659-1724` | every element of an array takes at least one byte, so that no image of up to 2^31 bytes has the elements of a huge count |
| `TplOrder.ParsedIsTyped` | `src/tpl.c:1638-1727` | what the size walker sees is a typed value, in which no array has 2^31 elements or more |
| `TplOrder.TypedIsStrict` | `src/tpl.c:1951-2087` | if the unpacker reads a typed value, it met no count of 2^31 or more on the way |
| `TplOrder.SignedExtentIsRightIff` | `src/tpl.c:1640-1658` | on a level that the size walker takes, reading each array to its own end gives the same exactly if all counts met, nested ones included, are below 2^31; in at most 2^31 bytes that is exactly when it stays inside them |
| `TplOrder.InsideTakesBytes` | `src/tpl.c:1983-2077` | the elements that the unpacker hands out of an array take at least one byte each, all inside the text |
| `TplOrder.InsideIsStrict` | `src/tpl.c:2069-2077` | of a value that the size walker takes in at most 2^31 bytes, the unpacker stays inside the text exactly if every count in it is below 2^31 |
| `TplOrder.FlipCellIsOther` | `src/tpl.c:2001-2013` | reversing every number of a value gives its encoding in the other byte order |
| `TplSerlen.SkipStrs` | `src/tpl.c:1687-1701` | the string branch stays inside the buffer and stops where parsing the strings stops |
| `TplSerlen.SerlenLevel` | `src/tpl.c:1659-1724` | a round over a level succeeds exactly if its fields parse inside the buffer, and gives their size; all loop counters are back at 0 |
| `TplSerlen.Serlen` | `src/tpl.c:1638-1727` | an array's size is computed, or refused, exactly as parsing with a signed count does |
| `TplPack.TakeKid` | `src/tpl.c:1886-1904` | a nested array's elements and size move up and it starts over empty |
| `TplPack.PackAry` | `src/tpl.c:1810-1949` | the array grows by one element with the given values and the nested arrays' content; the size field stays the size of its encoding |
| `TplPack.EncRecsSnoc` | `src/tpl.c:803-824` | the encoding of an array grows by the encoding of its new element |
| `TplDump.PackRoot` | `src/tpl.c:1811-1949` | packing the root stores every slot of every field |
| `TplDump.SerOsz` | `src/tpl.c:916-986` | preamble, fields and the sizes the arrays carry add up to the size of the whole encoding |
| `TplDump.DumpStr` | `src/tpl.c:879-888` | a string is written with its length plus one, a NULL string with 0 |
| `TplDump.DumpAtyp` | `src/tpl.c:841-913` | exactly the encoding of the array's elements is appended to the buffer |
| `TplDump.DumpRoot` | `src/tpl.c:1099-1162` | exactly the encoding of the root's content is appended to the buffer |
| `TplUnpack.OpenArray` | `src/tpl.c:2069-2077` | count and read position are set and the walker goes on behind the extent that was checked; without huge counts the array yields the elements the image holds |
| `TplUnpack.UnpackA0` | `src/tpl.c:2090-2161` | the walk ends exactly where the checked content ends; without huge counts the root's arrays are ready to yield theirs |
| `TplUnpack.UnpackFields` | `src/tpl.c:1989-2085` | every slot gets the value the image holds, nested arrays stand ready, and the walker ends behind the content |
| `TplUnpack.PickIsInjective` | `src/tpl.c:1951-2087` | values read in walk order determine every slot: unpacking loses nothing |
| `TplImage.ImageIsAccepted` | `src/tpl.c:1076-1247` | every image that can be written is accepted, on machines of either byte order, and holds what was packed |
| `TplImage.AcceptedIff` | `src/tpl.c:1181-1247` | counts of 2^31 or more aside, a buffer of less than 2^32 bytes is accepted, with bytes to spare allowed or not, exactly if magic, flags below 4, size word, format, # lengths and the encoding of some content stand in it; and it holds that content |
| `TplImage.ImageBytes` | `src/tpl.c:1085-1097` | what an image starts with: magic, flags with bit 1 for a format with an s, total size, format with NUL and # lengths, in the byte order of the machine |
| `TplImage.FormatCharacters` | `src/tpl.c:233` | the characters of formats |
| `TplImage.AcceptedIsImage` | `src/tpl.c:1181-1247` | an accepted buffer without counts of 2^31 or more and with the right string-format flag is the image of its content |
| `TplImage.AcceptedReadsToEnd` | `src/tpl.c:1181-1247` | an accepted buffer without huge counts is read to its very end, however counts are taken |
| `TplImage.FlipIsImage` | `src/tpl.c:1262-1268` | the image with all numbers reversed is the one the other kind of machine writes for the same content |
| `TplImage.CrossEndian` | `src/tpl.c:1262-1268` | that image is accepted, holds the same content, and reverses back to the first one |
| `TplImage.HugeCountIsAccepted` | `src/tpl.c:1650-1658` | a concrete image with count 2^31 passes all checks although its elements lie behind its end |
| `TplImage.NestedCountIsAccepted` | `src/tpl.c:1650-1658` | so does a concrete image with one outer element whose inner array has count 2^31 |
| `TplImage.AcceptedIsReadIff` | `src/tpl.c:1638-1727` | reading each array of an accepted image to its own end gives what was checked exactly if no count in it is 2^31 or more; up to 2^31 bytes, the unpacker, which goes on where the size walker does, stays inside under just that condition |
| `TplTree.Build` | `src/tpl.c:497-519` | nodes for a format, all arrays empty, with the index of its arrays: each once, an array before those below it, and those below an earlier field before those below a later one |
| `TplTree.EmptyArrays` | `src/tpl.c:634-650` | an array and all arrays below it are emptied |
| `TplSanity.ScanFormat` | `src/tpl.c:1210-1227` | the scan succeeds exactly if the map's format text stands there with its NUL; the two other errors have their exact conditions |
| `TplSanity.CompareFxlens` | `src/tpl.c:1230-1238` | the stored # lengths are compared one by one with the map's, in the image's byte order |
| `TplSanity.FindDataStart` | `src/tpl.c:1249-1260` | the data starts behind the format's NUL and the # lengths |
| `TplMaps.TplMap.constructor` | `src/tpl.c:322-565` | a mapped format is valid, empty, has its arrays numbered as the text opens them, and a slot for every iteration over a field, with zeros and NULLs in them |
| `TplMaps.TplMap.FindI` | `src/tpl.c:787-796` | number 0 is the root, number i the i-th array of the format, others nothing |
| `TplMaps.TplMap.FreeKeepMap` | `src/tpl.c:584-677` | all arrays are empty, the root's strings and buffers are cleared and its other values stay, and the map is neither packed nor loaded |
| `TplMaps.TplMap.Pack` | `src/tpl.c:1787-1949` | the root's values, or one more array element with the nested arrays' content; everything else is unchanged, except that a loaded map starts over empty |
| `TplMaps.TplMap.Dump` | `src/tpl.c:989-1070` | refused on a loaded map, otherwise exactly the image of what is packed |
| `TplMaps.TplMap.Sanity` | `src/tpl.c:1181-1247` | 0 exactly for buffers that pass in the order it reads them in, and each error code from -1 to -11 with its condition; a swap flag that was set stays; loop counters are back at 0 unless the data was cut off |
| `TplMaps.TplMap.Load` | `src/tpl.c:1480-1552` | succeeds exactly on buffers that pass the checks, which read in swapped order if a failed load left the flag; without huge counts the map is then valid and each array of the root yields what the image holds; a failure leaves the map fit to be loaded unless the data was cut off |
| `TplMaps.TplMap.Unpack` | `src/tpl.c:1951-2087` | the next element goes out with the number of elements that were left, or 0 when none is; nested arrays yield its content; packed data is first dumped and loaded |
| `TplMaps.NextElement` | `src/tpl.c:1983-1985` | the elements behind the read position are the first one and the rest |
| `TplRoundTrip.DumpThenLoad` | `src/tpl.c:1076-1163` | an image dumped from one map loads on any other map of the format, on a machine of either byte order, with the packed content as that machine sees it |
| `TplRoundTrip.UnpackAll` | `src/tpl.c:1983-1986` | unpacking an array until 0 gives its elements in packed order with returns n, n - 1, ..., 1, 0; only this array and those directly in it change what they yield |
| `TplRoundTrip.Drain` | `src/tpl.c:1951-2087` | nested unpack loops build from the values they read exactly the elements the array was to yield; arrays elsewhere are undisturbed |
| `TplRoundTrip.ReadNested` | `src/tpl.c:1951-2087` | reading the arrays of one element to their ends gives its slots with the nested content, and leaves the outer array's position |
| `TplRoundTrip.Transfer` | `src/tpl.c:989-2087` | pack, dump, load and nested unpacking on another map, on a machine of either byte order, give the program the packed values back as its machine holds them |
| `TplMirror.MirrorCellSame` | `src/tpl.c:2001-2013` | a value written by one machine is the one the other machine, swapping, holds for the same numbers |
| `TplMirror.MirrorCellTwice` | `src/tpl.c:2164-2173` | going to the other machine's form and back gives the value again |
| `TplMirror.MirrorImage` | `src/tpl.c:1262-1268` | the image one machine writes is byte for byte the one the other, swapping, would write for the mirrored content |
| `TplMirror.ImageIsSeen` | `src/tpl.c:1181-1247` | every written image is accepted on machines of both kinds, and holds the content as each sees it |
| `TplMirror.ImageAcross` | `src/tpl.c:2001-2013` | an image of a format without numbers of several bytes is accepted on both kinds of machine or on none, and holds the same content on both |
| `TplReload.LoadAfterFailure` | `src/tpl.c:1196` | after a rejected buffer of the other byte order, a buffer of the own order is taken exactly if it passes the checks in the wrong order |
| `TplReload.SwappedSize` | `src/tpl.c:1209-1210` | which a good image can only do if its size word is the same in both orders |
| `TplReload.FailureSticks` | `src/tpl.c:1196-1210` | two concrete buffers: the first is rejected, and then so is the second, a good image |
| `TplGather.Gatherer.Isolate` | `src/tpl.c:2437-2455` | the loop delivers exactly the images the scan of the bytes finds, empty ones up to the application's refusal included, and stops where it stops |
| `TplGather.Gatherer.GatherMem` | `src/tpl.c:2408-2489` | images, stored rest and return code are those of scanning the old rest with the new bytes; the limit error has its exact condition |
| `TplGather.Gatherer.FeedAll` | `src/tpl.c:2408-2489` | feeding any pieces delivers what scanning their concatenation finds, errors included; it fails with the limit error exactly if some piece does not fit, and then at the first such piece, with all found before it delivered |
| `TplGather.ScanOn` | `src/tpl.c:2464-2482` | scanning can stop after any prefix and go on with the rest it left |
| `TplGather.ScanConserves` | `src/tpl.c:2449-2482` | delivered images and the rest are together exactly the bytes fed |
| `TplGather.ScanMeans` | `src/tpl.c:2436-2470` | the images stand at the front of the bytes, each with its length in its header, all but the last let pass by the application; what stands behind them, and its last answer, tell how the scan ends |
| `TplGather.NextImageMeans` | `src/tpl.c:2437-2449` | an image is found where at least 9 bytes start with tpl and a length in the byte order of the flags that fits; with fewer bytes or a longer length it is waited for, and other bytes are refused |
| `TplGather.ScanOfImages` | `src/tpl.c:2436-2455` | a stream of images with right headers is scanned into exactly these images |
| `TplGather.ChunkingDoesNotMatter` | `src/tpl.c:2408-2489` | however such a stream is cut, exactly its images are delivered in order and nothing is left |
| `TplGather.ImageIsFramed` | `src/tpl.c:1091-1094` | every image that is dumped has a right header |
| `TplGather.EndlessIff` | `src/tpl.c:2436-2455` | the loop on a stream is endless exactly if some images stand at its front that all pass, a header with length 0 follows, and the application never closes the source at an empty image |
| `TplGather.StuckIsEndless` | `src/tpl.c:2436-2455` | and then exactly these images were found before it |
| `TplGather.FramedStream` | `src/tpl.c:2436-2455` | images with right headers are such a front, whatever follows them |
| `TplGather.EndlessLoops` | `src/tpl.c:2438-2454` | an endless scan is a loop that goes on after any number of passes, and no other loop does |
| `TplGather.EmptyStep` | `src/tpl.c:2449-2453` | one delivery of an empty image is one less until the application closes the source, or changes nothing if it never does |
| `TplGather.ZeroLengthExample` | `src/tpl.c:2449-2453` | nine bytes that loop for ever if the application lets them pass, and end the source with two deliveries if it refuses the second |
| `AdaptiveTimeout.WindowSlides` | `src/adaptive_delay_model.c:76-82` | subtracting the entry that leaves and adding the new one keeps the sum of the window |
| `AdaptiveTimeout.RingSlides` | `src/adaptive_delay_model.c:77-81` | slot k mod W holds the entry that leaves, and overwriting it keeps entry j in slot j mod W for the whole window |
| `AdaptiveTimeout.Slide` | `src/adaptive_delay_model.c:73-82` | one rolling sum with its ring buffer refines the window over the history |
| `AdaptiveTimeout.TimeoutModel.constructor` | `src/adaptive_delay_model.c:16-36` | the fresh model has an empty history; its unset average does not matter |
| `AdaptiveTimeout.TimeoutModel.EstimateNextDelay` | `src/adaptive_delay_model.c:38-135` | all sums and rings are those of the history with the new arrival, and the next timeout is the specified function of it, to which estimated arrival, freshness point and sequence number fit |
| `AdaptiveTimeout.TimeoutIs` | `src/adaptive_delay_model.c:87-130` | the timeout for any arrivals in arrival times alone: average gaps a window at most, offsets from what they predict, the later of the two estimates that add the mean offset in a window to the average gaps, and 50 behind it |
| `AdaptiveTimeout.TimeoutDetermined` | `src/adaptive_delay_model.c:87-106` | every history has such averages and offsets, so this determines every timeout |
| `AdaptiveTimeout.FirstTimeout` | `src/adaptive_delay_model.c:102-130` | after one heartbeat it is 100 from the creation of the model |
| `AdaptiveTimeout.LateHeartbeat` | `src/adaptive_delay_model.c:102-130` | eleven heartbeats each 50 and then one 100 late, with windows of 10 and 10000: the timeout is 1310 / 11 |
| `AdaptiveTimeout.WindowTelescopes` | `src/adaptive_delay_model.c:87-98` | the sum of the gaps in the window is a difference of two arrival times |
| `AdaptiveTimeout.AverageTelescopes` | `src/adaptive_delay_model.c:104-106` | the average gap is (t_k - t_{k-m}) / m exactly if the window is full or the first heartbeat came at the start |
| `AdaptiveTimeout.AverageInBounds` | `src/adaptive_delay_model.c:87-106` | the average stays within every bound that the gaps in the window satisfy, once the window is full or if the model was created at the first heartbeat |
| `AdaptiveTimeout.ShiftKeepsTimeout` | `src/adaptive_delay_model.c:42-45` | shifting all timestamps changes no timeout |
| `AdaptiveTimeout.PeriodicTimeout` | `src/adaptive_delay_model.c:102-130` | the timeout under strictly periodic heartbeats, in closed form for every k |
| `AdaptiveTimeout.PeriodicTimeoutIsSafe` | `src/adaptive_delay_model.c:102-130` | it exceeds the period from the second heartbeat on, is 100 for period 50, and period plus 50 once both windows have moved on |
| `CStrings.StrCpy` | `src/utils.c:56` | the string and its NUL are written, the bytes behind stay, and the buffer reads back as the string |
| `CStrings.StrCmpIsTotal` | `src/utils.c:27-29` | the comparison orders all strings totally, with ties only between equal ones |
| `CStrings.BeforeMeans` | `src/utils.c:27-29` | a string compares less exactly if it is a proper prefix of the other or has the smaller byte at the first difference |
| `CStrings.AscendingIsUnique` | `src/utils.c:42-43` | a strictly ascending list is determined by its elements |
| `ZLists.IsEqualLists` | `src/utils.c:84-113` | true exactly if the lists are equal and not empty |
| `ZLists.CopyList` | `src/utils.c:141-150` | the destination holds the source's items, whatever it held |
| `GroupMessage.ContentIsGroup` | `src/utils.c:48` | the content of a message is a 16-byte UUID, a 16-byte address and 16-byte slots, and any such content is one |
| `GroupMessage.GroupImageSize` | `src/utils.c:48-60` | a message has 66 bytes and 16 for each member |
| `GroupMessage.DecodableIff` | `src/utils.c:48-139` | the wire format both ways: on a machine of either byte order exactly the buffers with this header, format, lengths, and a count that makes up the size are messages; the UUID stands at 30, the sender at 46, and member i is the string at 66 + 16 * i |
| `GroupMessage.MessageBytes` | `src/utils.c:48-60` | every byte of the message that is written for a UUID, a sender and slots |
| `GroupMessage.SameForAll` | `src/utils.c:115-139` | a message is decodable on both kinds of machine or on none, and says the same on both |
| `Membership.SerializeHash` | `src/utils.c:31-70` | fails only on an empty table; otherwise the bytes of the message, from its header through UUID at 30, sender at 46 and count at 62 to the strings of the table's keys, in ascending order, from 66 on; the table holds the same elements |
| `Membership.DeserializeHash` | `src/utils.c:115-139` | succeeds exactly on decodable messages, and gives UUID, sender and the members in reverse order of the message |
| `Membership.GetMembershipGroup` | `src/utils.c:73-82` | the list gets the table's keys in descending order; the table holds the same elements |
| `Membership.GroupKeysAscend` | `src/utils.c:43` | the group of a table has exactly its keys, each before the next as strings compare byte by byte |
| `Membership.SameMembersSameGroup` | `src/utils.c:42-43` | tables with the same keys give the same group whatever was added and deleted before |
| `Membership.MembershipRoundTrip` | `src/utils.c:31-139` | reading a message back gives its sender, its UUID, and the very list the table gives |
| `TimerList.Timers.StartTimer` | `src/timer.c:36-77` | nothing happens without a descriptor; otherwise the timer is first in the list, its seconds and nanoseconds make up the interval, and its period is the interval or, if single-shot, 0 |
| `TimerList.Timers.GetTimerFromFd` | `src/timer.c:79-88` | finds the timer with the descriptor, or there is none |
| `TimerList.Timers.StopTimer` | `src/timer.c:90-111` | exactly this timer leaves the list and the rest keeps its order |
| `TimerList.Timers.TerminateTimerManager` | `src/timer.c:113-114` | the list is empty |
| `PaxosReplica.ReplayIsLastForeign` | `src/paxos_replica.c:121-166` | after a log the group is that of the last decodable entry of another node |
| `PaxosReplica.ReplayOfNothing` | `src/paxos_replica.c:121-158` | a log without such entries changes nothing |
| `PaxosReplica.ReplicasAgree` | `src/paxos_replica.c:110-178` | replicas with the same log hold the same group whenever its last decodable entry came from neither |
| `PaxosReplica.SenderAgreesIff` | `src/paxos_replica.c:128-158` | the sender of the last entry agrees with the others exactly if the last entry from others names the same group or, without one, it held this group from the start |
| `PaxosReplica.CrossedSubmissionsDiffer` | `src/paxos_replica.c:121-166` | after two entries from different senders that name different groups, each sender holds the other's group |
| `PaxosReplica.ReplicasCanDiffer` | `src/paxos_replica.c:128-158` | two concrete messages after which one replica holds two members and the other one |
| `PaxosReplica.Replica.OnDeliver` | `src/paxos_replica.c:110-178` | an entry of another node gives its group, an own one only drops its UUID from the pending ones, others do nothing; instance number and time move exactly when the group changes or is empty |
| `PaxosReplica.Replica.Submit` | `src/paxos_replica.c:181-234` | one message with the table's group, this sender and this UUID is submitted, the UUID is pending since this time, the list kept for the log is the same group |
| `PaxosReplica.DeliverLog` | `src/paxos_replica.c:110-178` | a replica handed a log holds the group the log means |
| `PaxosReplica.UuidDigits` | `src/paxos_replica.c:204` | the text of a UUID has two hexadecimal digits for each byte, the higher one first |
| `PaxosReplica.UuidStrInjective` | `src/paxos_replica.c:204` | different UUIDs have different texts, without a NUL in them |
| `FailureDetector.InitNodesStruct` | `src/failure_detector_main.c:79-91` | the table starts with the local node alone |
| `FailureDetector.Detector.constructor` | `src/failure_detector_main.c:133-184` | every invariant holds at the start, for a view with the local node alone, nothing heard and nothing submitted; all objects are new and no timer runs |
| `FailureDetector.Detector.HandleTimeout` | `src/failure_detector_main.c:33-76` | the view changes as specified: a member leaves with its history, its timer stays as a stray, and exactly then the new set is submitted; otherwise nothing changes; objects in use are those from before or new |
| `FailureDetector.Detector.Heartbeat` | `src/failure_detector_main.c:186-251` | the view changes as specified: the history of the address grows by this time, its timer waits as estimated from all of it, and the set is submitted exactly if the address was no member; objects in use are those from before or new |
| `FailureDetector.Detector.Refresh` | `src/failure_detector_main.c:228-234` | the member's model takes in the heartbeat, exactly its timer is replaced by a fresh one in front that waits for the new estimate, the others keep their order |
| `FailureDetector.Detector.Join` | `src/failure_detector_main.c:213-225` | a new address becomes a member with a model of this one heartbeat and a timer by its estimate, and exactly this new set is submitted |
| `FailureDetector.Detector.AddMember` | `src/failure_detector_main.c:213-224` | the member is filed with a fresh model, and its single-shot timer by the model's estimate is the new first of the list |
| `FailureDetector.Detector.NewEntry` | `src/failure_detector_main.c:214-221` | the new member's model has taken in its first heartbeat, whatever its memory held |
| `FailureDetector.Detector.Reestimate` | `src/failure_detector_main.c:229-234` | the member's model takes in one more heartbeat, and those of the others hold what they held |
| `FailureDetector.Detector.RestartTimer` | `src/failure_detector_main.c:228-232` | the old timer leaves the list and a fresh single-shot one with the estimated interval comes in front; every other member's timer stays |
| `FailureDetector.Detector.SubmitChange` | `src/failure_detector_main.c:72` | the submitted message names exactly the members, is noted as pending with this time, and extends the record of groups |
| `FailureDetector.Detector.Lookup` | `src/failure_detector_main.c:209` | an entry is found exactly for members, and is the one with this address |
| `FailureDetector.Detector.DropMember` | `src/failure_detector_main.c:62-70` | exactly this entry leaves the table with its history, and its timer stays in the list |
| `FailureDetector.Detector.Deliver` | `src/paxos_replica.c:110-178` | a log entry changes the view as specified: the group learned with its instance and time, and the pending submissions; members, timers and models are untouched |
| `DetectorView.HeartbeatIsOk` | `src/failure_detector_main.c:205-247` | a heartbeat keeps the groups one address apart with the local node in each, descriptors unique, and each timer at its member's estimate; the address is a member afterwards |
| `DetectorView.TimeoutIsOk` | `src/failure_detector_main.c:33-76` | so does a timeout, after which the address is no member |
| `DetectorRuns.Run` | `src/failure_detector_main.c:133-251` | after any run from the start the node's invariants hold, its members are the living, its messages name exactly the changes of the living in order, its group is the replay of the log, and every timer fires once |
| `DetectorRuns.Step` | `src/failure_detector_main.c:186-251` | any legal event on any valid node leads to a valid node with the specified view, and uses only its own or new objects |
| `DetectorRuns.RunIsOk` | `src/failure_detector_main.c:186-251` | what a step keeps holds after any run |
| `DetectorRuns.MembersAreLiving` | `src/failure_detector_main.c:205-247` | the members after a run are the local node and the addresses with a heartbeat that no timeout for them has followed |
| `DetectorRuns.GroupsAreChanges` | `src/failure_detector_main.c:72-224` | the groups submitted are the course of the living sets, without repeats |
| `DetectorRuns.HeardIsSince` | `src/failure_detector_main.c:213-234` | a member's history is that of its heartbeats since the last timeout for it |
| `DetectorRuns.TimedWereHeard` | `src/failure_detector_main.c:213-224` | a timer was ever started exactly for the remote addresses that were heard |
| `DetectorRuns.LearnedIsReplay` | `src/paxos_replica.c:110-178` | the group after a run is the replay of the log entries in it |
| `DetectorRuns.LoggedAtLastChange` | `src/paxos_replica.c:128-178` | instance number and time are those of the last entry in the run that brought another group or an empty one, or 0 |
| `DetectorRuns.PendingIsAwaited` | `src/paxos_replica.c:128-234` | a UUID is pending exactly if it was submitted with a change and its message has not come back since, and the time noted is that of this change |
| `DetectorRuns.TwoNodes` | `src/paxos_replica.c:110-234` | after any two runs: if the log of one ends with the i-th submission of the other, it holds the other's living after its i-th change, each address before the next in descending byte order |
| `DetectorRuns.ShortRun` | `src/failure_detector_main.c:205-247` | a heartbeat, a timeout for it and a stray timeout after that are a legal run with three groups |
| `FailureDetector.Detector.TimersDiffer` | `src/failure_detector_main.c:213-234` | each remote member's timer is in the list with its address, and different members have different timers |
| `FailureDetector.Detector.TimersFireOnce` | `src/failure_detector_main.c:224-232` | every timer in the list, those of dropped members included, is single-shot with period 0, and a member's expires after its interval in milliseconds |
| `FailureDetector.Detector.TimerWaitsAsEstimated` | `src/failure_detector_main.c:217-234` | a remote member's timer waits for the whole milliseconds of the timeout estimated, with windows of 10 and 10000, from all its heartbeats since it joined |
| `FailureDetector.Detector.PeriodicMemberWaits` | `src/failure_detector_main.c:228-232` | a member with strictly periodic heartbeats is waited for at least its period in whole milliseconds, for 100 if the period is 50, and for the period and 50 once both windows have moved on |
| `FailureDetector.OthersHoldSubmission` | `src/paxos_replica.c:121-166` | when the last decodable entry of a log is a submission of this node, every other replica holds exactly the member set of that submission, in descending order |
| `FailureDetector.RecordedAcross` | `src/utils.c:115-139` | the record of submissions is the same for machines of the other byte order |

## Left out

- Unsigned 32-bit wrap-around of table counters, hash values and bucket numbers: all are natural numbers here.
- Out-of-memory paths, the Bloom filter, HASH_SELECT, HASH_REPLACE and the hash functions themselves.
- The parser of format texts and the varargs layer of `tpl_map`: `TplMaps.TplMap` is built from a format tree, its text and its # lengths.
- Formats with # after A(...) or $(...), which the walkers do not support, nested $(...), and the padding of C structures: fields of S(...)# are numbered slots.
- Files, descriptors, caller-provided buffers, `tpl_peek`, `tpl_jot`, `tpl_Alen`, the blocking and nonblocking gather modes, and deallocation.
- TplMaps.TplMap.constructor: takes the format as a tree, as said above; memory of atoms that the original leaves unset is taken to be zero.
- TplMaps.TplMap.Load: not for images in the old string format, which the code reads in one place and not in another; with a count of 2^31 or more the loaded map is not promised to be valid, as the unpacker would leave the image. After a failed load: not if that one was cut off in the data, which can leave a # loop half done, and not for buffers that pass the checks only in the wrong byte order, which the code then opens unchecked.
- TplMaps.TplMap.Sanity: the same restrictions on strings and loop counters.
- TplImage.AcceptedIsImage: not for images with a count of 2^31 or more, or with the wrong string-format flag, of which it is false.
- TplMaps.TplMap.Dump: for content whose image is smaller than 2^32 bytes and, for a root with fields, after the root was packed; the original dereferences NULL for an unpacked B field.
- TplMaps.TplMap.Pack: for arrays of fewer than 2^31 elements.
- TplGather.Gatherer.GatherMem: nothing is said of input on which the original loop does not end; the application's answer is a function of the images delivered so far.
- TplGather.Gatherer.FeedAll: the same holds for it, unless the limit is hit before.
- Packed strings: any bytes are allowed where a C string has none that are 0, so the results hold for more values than can be packed.
- Membership.SerializeHash: for fewer than 2^27 members whose addresses fit their 16-byte buffers.
- Membership.DeserializeHash: for messages whose array count is below 2^31, as the original reads past the others; a slot without a NUL reads as all of its 16 bytes, where the original reads on behind it.
- PaxosReplica.Replica.OnDeliver: the same restriction on the messages in the log.
- FailureDetector.Detector.Heartbeat: timer creation succeeds, as the original assumes; a negative estimate gives the interval 0, where the original's cast is undefined.
- FailureDetector.Detector.AddMember: timer creation succeeds; after a failure the original goes on with timer id 0.
- FailureDetector.Detector.Join: the same.
- FailureDetector.Detector.Refresh: the same.
- FailureDetector.Detector.RestartTimer: the same.
- PaxosReplica.Replica.Submit: UUIDs do not repeat, and there are fewer than 2^27 members.
- DetectorRuns.Run: a run is legal (`DetectorRuns.Legal`): what the outside world gives the node meets the restrictions of the steps.
- Floating-point rounding, and estimates of 2^32 milliseconds or more: the estimator uses exact reals.
- Paxos, event loops, beacons, logging, threads and the poll loop; races on the unlocked timer list and the limit of 1000 polled timers.

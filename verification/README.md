# A verified model of lscov and of the libxml2 cores in its test bed

This project models, in Dafny, the two halves of the repository and proves what they are meant to guarantee.

* **lscov** (`lscov/`) measures logic-state coverage. A fuzzed target and a daemon pass one shared byte map back and
  forth over two semaphores. The daemon hashes each snapshot into a Bloom filter, and a second thread tallies that filter
  while it is being updated.
* **libxml2** (`testbed/libxml2/`) is the measured target. Modelled are its interning dictionary, canonical-XML
  namespace rendering, the HTML parser's element stack, entity encoder and push-mode scanners, the non-recursive HTML
  printer, the growable buffer, and catalog identifier resolution.

## How the model is laid out

| file | what it models |
|---|---|
| `RobinHood.dfy` | the open-addressing table: its order invariant, insertion with wrap-around shift, growth by doubling |
| `StringPool.dfy`, `DictHash.dfy`, `Dictionary.dfy`, `DictionaryRuns.dfy` | the append-only string pool, the hash as an arbitrary fold, the dictionary object, and whole runs of lookups |
| `HandOff.dfy`, `HandOffInvariant.dfy`, `HandOffTheorems.dfy` | the target/daemon/tally protocol as a step relation, its invariant, and the results over all runs |
| `Murmur.dfy`, `Bloom.dfy` | the 32-bit hash and the filter |
| `Namespaces.dfy`, `C14n.dfy` | namespace scopes, the windowed stack, the rendering walk and two readers of its output |
| `HtmlTags.dfy`, `HtmlParser.dfy`, `HtmlContent.dfy`, `HtmlGiven.dfy` | the tag machine and content loop as functions, the parser object, what the loop makes of a written document, and which elements any input names |
| `HtmlEntities.dfy`, `HtmlLookup.dfy` | entity encoding and references, the resumable scanners |
| `HtmlTree.dfy`, `HtmlTreeReader.dfy` | the printer and a reader of its output |
| `Buffer.dfy` | `xmlBuf` with its five allocation schemes |
| `Catalog.dfy` | URN unwrapping, public-identifier normalization and the resolution recursion |
| `Bits.dfy`, `Options.dfy` | bytes, powers of two, exclusive or; optional values |

Code that updates state in place is modelled by classes and methods proved against specification functions; the
properties proper are lemmas about those functions, or about sequences of states.

## Main results

1. **Growth keeps the Robin Hood order** (the unproved claim at dict.c:631-637). The old table read cyclically from an
   empty slot lists its entries by home. In the doubled table each home falls into one of two interleaved copies of the
   old range, and each probe stays inside its copy. So plain linear probing never puts an entry further from its home
   than one step past its predecessor.
2. **The dictionary refines a set of strings with stable addresses**, except for qualified names with an empty prefix,
   where it fails in two ways that are characterised exactly. `xmlStrQEqual` compares an empty prefix by its terminator
   (xmlstring.c:196-209). So a joined string that is already stored is not recognised and is stored a second time; and an
   empty string under the same hash, with the key's bytes right behind it in the pool, is taken for the key. Both are
   shown on a dictionary, and from an empty dictionary a run of calls interns if and only if neither case occurs in it.
3. **One token in every reachable state of the hand-off.** The abort checks never fire, the daemon never copies a map
   that a run is clearing or writing, each ended or recovered run is recorded once, with exactly the edges of the path it
   took through the program (the exclusive or of each location with half of the one before), and neither side waits for
   ever. The environment is trusted only with what is needed: a crash, or a store before the start call, keeps the
   invariant if and only if the stated condition holds, and three lemmas show what happens otherwise.
4. **Canonical form keeps the document and its namespace scopes**: the declarations printed are exactly the differences
   from the parent. One reader of the output recovers the scope of every element; another, which checks every end tag,
   rebuilds names, nesting, order and text.
5. **The tag machine keeps its shape and the content loop ends** on every input, for every table of closing rules, and
   ends with all elements closed and all events properly nested. What it opens is stated over the input: on any input the
   elements given are those of the start tags it stands at, in order and without a gap; a document of elements, scripts
   and text is read exactly as it is written; and one that leaves out html, head and body gets each of them once. A
   discarded start tag does not always leave the open elements alone: `<html/>` closes the innermost one, and exactly
   when that happens is stated.
6. **Pointer walk equals recursion** for the HTML printer, even where parent pointers are wrong, and what it prints reads
   back as the tree; formatting adds newlines and nothing else.
7. **Round trips**: entities encode and parse back, and the encoding has neither the quote asked for nor an angle
   bracket nor a byte above 0x7F, and no ampersand but at the start of a reference; URNs wrap and unwrap; chunked
   scanning equals one scan.

## Environment assumptions of the hand-off

They are the predicate `HandOff.Allowed` and the initial state. The constructor has run, and the daemon is past its
start-up wait. A run may die at any point where the status byte tells whether it has the map (`CrashSafe`): not while it
waits for the map, not between marking its end and posting, and not after a store of its own to byte 0. While it clears
the map, none of the last run's marks may be left. A store before the start call (`EarlySafe`) must not overwrite the
status of a crashed run, nor mark a byte that the daemon still has to copy for the run before. Stores to byte 0 by a run
that then ends normally are allowed. The compiler pass rules none of this out (lscov/lscov-llvm-pass.so.cc:46-50, 77-78
and 92-105). Byte 0 of a snapshot doubles as the status byte, so snapshot properties are about bytes 1 and up.

## Model

| member | source | states |
|---|---|---|
| `RobinHood.MaskIsHome` | testbed/libxml2/dict.c:555-557 | masking a hash with size - 1 is the remainder by the size, for every power of two, which justifies computing homes by remainder |
| `RobinHood.Climb` | testbed/libxml2/dict.c:560-595 | in an ordered table displacements rise by at most one per slot, over any stretch |
| `RobinHood.AbortIsSound` | testbed/libxml2/dict.c:561-595 | once the entry at hand is closer to its home than the key would be, no entry further on can have the key's home |
| `RobinHood.InsertedBag` | testbed/libxml2/dict.c:777-800 | shifting the rest of the probe sequence, across the end of the table or not, loses and duplicates no entry |
| `RobinHood.InsertKeepsOrder` | testbed/libxml2/dict.c:777-806 | insertion with its cyclic shift leaves a table that is again ordered and, if more than one slot was empty, still has an empty one |
| `RobinHood.CopyOrder` | testbed/libxml2/dict.c:631-643 | read cyclically from an empty slot, the entries' homes never decrease |
| `RobinHood.DoubledHome` | testbed/libxml2/dict.c:631-647 | a hash's home in the doubled table is its old home or the old home plus the old size |
| `RobinHood.ProbeStaysInHalf` | testbed/libxml2/dict.c:645-653 | during the copy a probe never runs from one copy of the old range into the other |
| `RobinHood.CopyStepOk` | testbed/libxml2/dict.c:645-653 | the copied entry lands at most one step further from home than its predecessor |
| `RobinHood.CopyStep` | testbed/libxml2/dict.c:645-657 | one entry copied by linear probing keeps order, contents and the placement of everything copied before |
| `RobinHood.GrowthKeepsOrder` | testbed/libxml2/dict.c:610-666 | the completed copy satisfies the Robin Hood invariant and holds exactly the old entries, the rest being empty |
| `StringPool.StoredStays` | testbed/libxml2/dict.c:137-187 | a string stored at an address stays there however the pool is extended |
| `StringPool.QBlockSize` | testbed/libxml2/dict.c:223-231 | under the length guard the 32-bit sum in the block size cannot wrap, and the block holds the joined name, the colon and the terminator |
| `StringPool.Pools.Append` | testbed/libxml2/dict.c:179-186 | the string and its terminator are appended to the written part of one block, and nothing else changes |
| `StringPool.Pools.AddString` | testbed/libxml2/dict.c:137-187 | the string is appended to a block with room, or to a new block if and only if none has room; it is refused just when the limit is passed or no block could be large enough |
| `StringPool.Pools.AddQString` | testbed/libxml2/dict.c:202-254 | the same for prefix, colon and name, refused if and only if no block has room and the limit is passed |
| `StringPool.Pools.SameStringIs` | testbed/libxml2/dict.c:571-576 | strncmp and the look at the terminator decide equality with the string stored there |
| `StringPool.Pools.ShowsStored` | testbed/libxml2/dict.c:571-583 | finding a key and a zero in memory where a string is stored means that it is that string |
| `StringPool.Pools.QEqual` | testbed/libxml2/xmlstring.c:196-209 | the byte walk accepts exactly prefix, colon, name and zero or, for an empty prefix, a zero with colon, name and zero right behind it, wherever that lies |
| `DictHash.FoldAppend` | testbed/libxml2/dict.c:464-511 | hashing a concatenation is hashing its parts in turn |
| `DictHash.WithTopBit` | testbed/libxml2/dict.c:506-510 | a hash value has its top bit set and is therefore never the mark of an empty slot |
| `DictHash.HashName` | testbed/libxml2/dict.c:465-481 | the loop hashes exactly the bytes up to the terminator or the length cut, and reports how many |
| `DictHash.HashQName` | testbed/libxml2/dict.c:485-511 | the three-part loop yields the hash of prefix, colon and name joined |
| `Dictionary.NothingMissed` | testbed/libxml2/dict.c:561-595 | when the probe gives up, no slot of the table is accepted |
| `Dictionary.Compare` | testbed/libxml2/dict.c:569-586 | both comparisons decide whether the bytes of the key, or those of the empty-prefix walk, lie at the address |
| `Dictionary.FindIn` | testbed/libxml2/dict.c:547-599 | the probe loop ends, with an accepted slot or, when there is none, at the slot where Robin Hood order wants the new entry |
| `Dictionary.EntryAdded` | testbed/libxml2/dict.c:777-810 | storing a new entry keeps the whole dictionary invariant for the extended set of strings |
| `Dictionary.CopyTable` | testbed/libxml2/dict.c:639-657 | the copying loops produce a valid table with the same multiset of entries |
| `Dictionary.ShiftAndStore` | testbed/libxml2/dict.c:777-806 | the two block moves are the cyclic shift of the probe sequence by one |
| `Dictionary.Dict.FindEntry` | testbed/libxml2/dict.c:547-599 | finds an accepted address if there is one, an over-read empty string included; otherwise none is accepted, and the slot for the new entry is returned |
| `Dictionary.Dict.Grow` | testbed/libxml2/dict.c:610-666 | a table of twice the size, or the first table, with the same strings; the size stays a power of two within its limit |
| `Dictionary.Doubled` | testbed/libxml2/dict.c:610-666 | the new table is valid and has the same multiset of entries |
| `Dictionary.Dict.Insert` | testbed/libxml2/dict.c:774-810 | the abstract set gains exactly the new string, and the invariant holds |
| `Dictionary.Dict.Lookup` | testbed/libxml2/dict.c:677-812 | answers if and only if the key is not too long and an address is accepted or the string can be added; says what it does to the set of strings; and keeps strings unique if and only if the request, as it stood before the call, is no duplicating one |
| `Dictionary.UniqueUnless` | testbed/libxml2/xmlstring.c:196-209 | strings are unique afterwards if and only if they were before and the request is not an empty-prefix one that can be added, is misread by nothing, and whose string is stored already |
| `Dictionary.RightUnless` | testbed/libxml2/xmlstring.c:196-209 | the answer is the string asked for if and only if the request is not misread, and else it is the empty string |
| `DictionaryRuns.EmptyPrefixDuplicates` | testbed/libxml2/xmlstring.c:196-209 | on a new dictionary two lookups store the same string at two addresses |
| `DictionaryRuns.EmptyPrefixMisreads` | testbed/libxml2/xmlstring.c:201-208 | on a new dictionary, when two hashes collide, the third lookup is answered with the empty string |
| `DictionaryRuns.QNameIsPlain` | testbed/libxml2/dict.c:691-706 | with a non-empty prefix a qualified lookup has exactly the outcomes of a plain lookup of the joined string |
| `DictionaryRuns.RoomForMany` | testbed/libxml2/dict.c:738-748 | without a limit and with fewer than 0x6FFF_FFFF strings, a key of at most INT_MAX / 2 bytes is never refused |
| `DictionaryRuns.StringsStay` | testbed/libxml2/dict.c:677-812 | over any run an interned address keeps its string |
| `DictionaryRuns.RunIsUnique` | testbed/libxml2/dict.c:677-812 | over any run strings are unique after k requests if and only if none of them was a duplicating one |
| `DictionaryRuns.Origin` | testbed/libxml2/dict.c:677-812 | every interned string was put there by an earlier request for it |
| `DictionaryRuns.InternedAddresses` | testbed/libxml2/dict.c:677-812 | from an empty dictionary, equal addresses mean equal strings and conversely, over the whole run, if and only if no request duplicates its string and none is misread |
| `DictionaryRuns.RunCalls` | testbed/libxml2/dict.c:677-812 | every sequence of calls on a dictionary object is such a run |
| `HandOffInvariant.StoreInMap` | lscov/lscov-llvm-pass.so.cc:80-112 | the location halved stays below half the map, so the exclusive or of previous and current location is inside the map |
| `HandOffInvariant.AdvanceKeeps` | lscov/lscov-llvm-rt.a.c:30-51 | every step of the target's runtime keeps the invariant |
| `HandOffInvariant.BlockKeeps` | lscov/lscov-llvm-pass.so.cc:80-112 | an instrumented block keeps the invariant, a store to the status byte included |
| `HandOffInvariant.EarlyKeeps` | lscov/lscov-llvm-pass.so.cc:46-50 | a store before the start call keeps the invariant if and only if it neither hides a crash nor marks a byte still to be copied |
| `HandOffInvariant.CrashKeepsToken` | lscov/lscov-llvm-rt.a.c:95-101 | death leaves one token if and only if the status byte tells whether the run has the map |
| `HandOffInvariant.CrashKeeps` | lscov/lscov-llvm-rt.a.c:95-101 | death keeps the whole invariant if and only if, besides, no marks of the last run are left in the map |
| `HandOffInvariant.ServeKeeps` | lscov/lscov-daemon.c:438-461 | every step of the daemon keeps the invariant |
| `HandOffInvariant.CountKeeps` | lscov/lscov-daemon.c:308-320 | every step of the tally keeps the invariant |
| `HandOffInvariant.RunKeeps` | lscov/lscov-daemon.c:438-474 | the invariant holds in every state of every run |
| `HandOffTheorems.Safety` | lscov/lscov-daemon.c:83-92 | in every reachable state the two semaphores, the target's hold and the daemon's hold add up to one, no sanity check has fired, and the daemon does not hold the map while a run clears or writes it |
| `HandOffTheorems.HitsAreEdges` | lscov/lscov-llvm-pass.so.cc:80-112 | what a run has hit are the edges of the locations it has executed, each joined with half of the one before, the first with half of the last location before the start call or with 0 |
| `HandOffTheorems.FinishedIsPath` | lscov/lscov-llvm-pass.so.cc:80-112 | what is kept of a finished run are the edges of its whole path, from then on for good |
| `HandOffTheorems.RecordedOnce` | lscov/lscov-llvm-rt.a.c:90-118 | records and finished runs differ by at most the last run, and the i-th record marks, from byte 1 on, exactly the edges of the path of the i-th run |
| `HandOffTheorems.HistoryStays` | lscov/lscov-daemon.c:443-461 | records, finished runs and filter bits are never lost or changed |
| `HandOffTheorems.WaiterIsServed` | lscov/lscov-daemon.c:438-461 | while the target waits without a token the daemon can always move, and each of its steps brings the token nearer |
| `HandOffTheorems.OnlyOthersMove` | lscov/lscov-llvm-rt.a.c:34-35 | while a target waits without a token, only the daemon and the tally can move |
| `HandOffTheorems.WaitIsBounded` | lscov/lscov-llvm-rt.a.c:34-35 | in every run a waiting target has its token by the time the daemon has moved a number of times known beforehand, whatever else happens in between |
| `HandOffTheorems.DaemonIsServed` | lscov/lscov-daemon.c:83-92 | while the daemon waits the target side can always move, crashed runs included, and each move brings the record nearer |
| `HandOffTheorems.RecordIsBounded` | lscov/lscov-daemon.c:83-92 | if runs end when they can and new ones start, a waiting daemon has a record by the time the target side has moved a number of times known beforehand, tally steps interleaved |
| `HandOffTheorems.FilterIsUnion` | lscov/lscov-daemon.c:456-460 | between records the filter's set bits are exactly the hash indices of all recorded states |
| `HandOffTheorems.DaemonConfigOk` | lscov/lscov-daemon.c:292-306 | with the daemon's own hash every index is inside the filter, and the abstract index set is what recording on the real filter sets |
| `HandOffTheorems.FilterOfStates` | lscov/lscov-daemon.c:456-460 | the filter depends only on the set of recorded states, not on order or repetition |
| `HandOffTheorems.FilterSize` | lscov/lscov-daemon.c:456-460 | the number of ones is at most the number of hashes times the number of distinct states |
| `HandOffTheorems.TallyBetween` | lscov/lscov-daemon.c:463-472 | a tally that overlaps updates reports a count between the number of ones at its start and at its end, for every interleaving |
| `HandOffTheorems.TallyStart` | lscov/lscov-daemon.c:308-320 | the count it is compared with is that of the filter in the very state the scan began in |
| `HandOffTheorems.WordBitsAreCounted` | lscov/lscov-daemon.c:312-317 | what the tally adds for a word is the population count of that word of the filter's bytes |
| `HandOffTheorems.StatusStoreDeadlocks` | lscov/lscov-llvm-pass.so.cc:92-105 | one store to byte 0 followed by a crash leaves both sides waiting for ever |
| `HandOffTheorems.KilledWaiterDoublesToken` | lscov/lscov-llvm-rt.a.c:100-101 | a run killed while waiting creates a second token |
| `HandOffTheorems.EarlyStoreTaintsRecord` | lscov/lscov-llvm-pass.so.cc:46-50 | an unsafe store before the start call, while the daemon copies, makes the record of the previous run wrong |
| `Murmur.TimesInjective` | lscov/lscov-daemon.c:257-265 | multiplication by a constant with an inverse modulo 2^32 is injective on words |
| `Murmur.FoldWordInjective` | lscov/lscov-daemon.c:286-290 | a word folded with itself shifted right is injective |
| `Murmur.FinalizeInjective` | lscov/lscov-daemon.c:286-290 | the finalizer maps different words to different words |
| `Murmur.HashInjectiveInSeed` | lscov/lscov-daemon.c:225-290 | for a fixed state different seeds always hash differently |
| `Murmur.HashSeparatesOneChunk` | lscov/lscov-daemon.c:252-290 | changing one chunk, anywhere in any number of chunks, always changes the hash |
| `Bloom.HashOf` | lscov/lscov-daemon.c:245-290 | the chunk loop computes that hash of the state's chunks |
| `Bloom.HashIndex` | lscov/lscov-daemon.c:225-293 | the index is the hash reduced to the filter's bits |
| `Bloom.StatesOneChunkApart` | lscov/lscov-daemon.c:225-290 | two byte states that differ, and only inside one 4-byte chunk, hash differently |
| `Bloom.SumIsSize` | lscov/lscov-daemon.c:308-320 | the word-wise sum of ones is the number of set bit positions |
| `Bloom.Filter.SetByIndex` | lscov/lscov-daemon.c:295-306 | sets exactly one bit, or refuses exactly when the byte is outside the filter |
| `Bloom.Filter.NumOnes` | lscov/lscov-daemon.c:308-320 | the tally loop returns the number of set bits |
| `Bloom.Filter.Record` | lscov/lscov-daemon.c:456-460 | recording a state adds exactly its hash indices, and the "bogus" exit is never taken |
| `Namespaces.LatestInForce` | testbed/libxml2/c14n.c:618-645 | the last entry for a prefix among the declarations in force is the nearest declaration of that prefix |
| `Namespaces.PrintedExactly` | testbed/libxml2/c14n.c:592-667 | an element prints exactly the bindings that differ from its parent's, each once, in order of prefix |
| `Namespaces.InsertAscends` | testbed/libxml2/c14n.c:499-511 | sorted insertion keeps the list ascending by prefix |
| `Namespaces.ReadBack` | testbed/libxml2/c14n.c:592-667 | a reader that knows the parent's scope recovers the element's scope from what is printed |
| `C14n.NsStack.Add` | testbed/libxml2/c14n.c:303-340 | pushes one entry, growing the table when it is full, and keeps all others |
| `C14n.NsStack.Find` | testbed/libxml2/c14n.c:396-427 | searches the window back from the top and answers by the most recent entry for the prefix, or by emptiness of an unbound default |
| `C14n.RenderedIs` | testbed/libxml2/c14n.c:396-427 | while the axis is walked, the answer says whether the parent's scope already has that binding |
| `C14n.Canonicalizer.NamespacesAxis` | testbed/libxml2/c14n.c:592-667 | pushes the declarations in force and collects exactly those to print, including an undeclared default namespace |
| `C14n.Canonicalizer.Process` | testbed/libxml2/c14n.c:1429-1516 | the walk emits the specified rendering of the subtree, text included, and restores the stack |
| `C14n.ReadNode` | testbed/libxml2/c14n.c:1429-1516 | reading a rendered subtree under the parent's scope reports the scope of every element in it, then goes on with what follows |
| `C14n.CanonicalFormKeepsScopes` | testbed/libxml2/c14n.c:1429-1516 | reading canonical form back gives every element of the document its original in-scope namespaces |
| `C14n.RebuildNode` | testbed/libxml2/c14n.c:1429-1516 | a stack reader that checks the name in every end tag rebuilds a rendered subtree, whatever is open and whatever follows |
| `C14n.CanonicalFormKeepsDocument` | testbed/libxml2/c14n.c:1528-1704 | canonical form gives the document back but for its declarations: names, nesting, order and every text |
| `C14n.Canonicalize` | testbed/libxml2/c14n.c:1528-1704 | what the walk over a whole document writes reads back as that document, with the scopes every element had |
| `HtmlTree.Climb` | testbed/libxml2/HTMLtree.c:893-941 | going up emits the end tags and newlines the recursive printer would, and stops at the next sibling or at the root |
| `HtmlTree.Visit` | testbed/libxml2/HTMLtree.c:734-892 | a node prints its opening part or, if it does not descend, all of itself, including the recursive fallback for a node with a foreign parent |
| `HtmlTree.Dump` | testbed/libxml2/HTMLtree.c:720-942 | the pointer walk terminates and emits byte for byte what the recursive printer emits, whatever the parent pointers are |
| `HtmlTreeReader.TextChoice` | testbed/libxml2/HTMLtree.c:834-854 | text is encoded unless its parent is named script or style in any mixture of cases, or the node is marked to be left alone |
| `HtmlTreeReader.PrintReadsBack` | testbed/libxml2/HTMLtree.c:720-942 | a stack reader that knows only start tags, end tags and text gets the tree back from what is printed: names, nesting, order and each text once; only elements without content, or childless ones whose end tag is left out, print none |
| `HtmlTreeReader.DocumentReadsBack` | testbed/libxml2/HTMLtree.c:893-941 | the same for a whole document and the newline behind it |
| `HtmlTreeReader.DumpReadable` | testbed/libxml2/HTMLtree.c:720-942 | what the pointer walk emits reads back as the tree |
| `HtmlTreeReader.FormatAddsNewlines` | testbed/libxml2/HTMLtree.c:806-825 | formatting adds newlines to the output and changes nothing else |
| `HtmlEntities.DecodeUtf8` | testbed/libxml2/HTMLparser.c:2183-2203 | the inline decoder reads back every encoded character, whatever follows |
| `HtmlEntities.EncodingIsEscaped` | testbed/libxml2/HTMLparser.c:2205-2227 | every byte of an encoding is ASCII and neither an angle bracket nor the quote asked for, and every ampersand starts a reference that runs to a semicolon |
| `HtmlEntities.EncodeEntities` | testbed/libxml2/HTMLparser.c:2159-2239 | for any room, the consumed part is whole characters, the output is exactly their encoding and escaped, and the loop stops only at malformed or cut input or for want of room |
| `HtmlEntities.ResumedEncoding` | testbed/libxml2/HTMLparser.c:2159-2239 | the encoding of a text is the encoding of its first characters followed by that of the rest |
| `HtmlEntities.EncodeInPieces` | testbed/libxml2/HTMLparser.c:2159-2239 | any sequence of calls, each with its own room and with what the last one left, encodes exactly what it consumes, escaped, and the whole text when all is consumed |
| `HtmlEntities.DecimalReadsBack` | testbed/libxml2/HTMLparser.c:3475-3537 | the digits of a decimal reference read back as the number |
| `HtmlEntities.NameFindsEntity` | testbed/libxml2/HTMLparser.c:2002-2037 | lookup by name inverts lookup by value |
| `HtmlEntities.ParseEncodedChar` | testbed/libxml2/HTMLparser.c:4062-4128 | parsing the encoding of one character yields its UTF-8 bytes and leaves what follows |
| `HtmlEntities.RoundTrip` | testbed/libxml2/HTMLparser.c:2159-2239 | for every text of XML characters, parsing the references in its encoding gives the text back |
| `HtmlLookup.StopStays` | testbed/libxml2/HTMLparser.c:5123-5179 | whether a search stops at a position does not change when more data arrives |
| `HtmlLookup.AnswerIsUnique` | testbed/libxml2/HTMLparser.c:5123-5179 | a search has one answer |
| `HtmlLookup.NotInValues` | testbed/libxml2/HTMLparser.c:5151-5161 | a search that skips attribute values stops nowhere inside one in single or double quotes, and behind it none is open |
| `HtmlLookup.ResumedAnswer` | testbed/libxml2/HTMLparser.c:5133-5136 | starting behind a part that was ruled out gives the answer of the whole search |
| `HtmlLookup.Scanner.Lookup` | testbed/libxml2/HTMLparser.c:5123-5179 | the first stop from the saved index on, the cut at INT_MAX / 2 included; without one, the saved index and quote belong to the data read |
| `HtmlLookup.Scanner.LookupChunks` | testbed/libxml2/HTMLparser.c:5123-5179 | one search per chunk gives the answer of a single search over all the data, for every way of cutting it up |
| `HtmlLookup.CommentLoop` | testbed/libxml2/HTMLparser.c:5196-5218 | the comment loop ends with the first comment end, or -1, if and only if the data, or a comment end in it, or a last `--!`, stays before the cut at INT_MAX / 2; otherwise it answers the cut less 2 exactly when `>` or `!>` stands at the cut, and else never ends |
| `HtmlLookup.BadTurn` | testbed/libxml2/HTMLparser.c:5146-5150 | past the cut a turn goes on up to the cut, and from there answers wrongly or is put back before it |
| `HtmlLookup.Scanner.TakeTurn` | testbed/libxml2/HTMLparser.c:5202-5216 | the loop body computes one turn |
| `HtmlLookup.Scanner.CommentEnd` | testbed/libxml2/HTMLparser.c:5196-5218 | under that condition, from any saved index before which comment ends are ruled out: the first `-->` or `--!>`, or -1 with a saved index before which none can still appear |
| `HtmlLookup.Scanner.CommentEndChunks` | testbed/libxml2/HTMLparser.c:5196-5218 | under that condition on all the data, the first comment end of all of it, however it is cut up |
| `HtmlTags.OpenSound` | testbed/libxml2/HTMLparser.c:3797-3834 | opening a tag where it fits keeps html at the bottom only, head right above it, body unique, and the stack what the events leave open |
| `HtmlTags.ShapeMeans` | testbed/libxml2/HTMLparser.c:3797-3834 | on a stack on which every element was opened where it may be, html stands only at index 0, head only at index 1, body at most once, and with implied tags html is at the bottom |
| `HtmlTags.PrepareFits` | testbed/libxml2/HTMLparser.c:1554-1608 | after closing and implying, a tag that is not discarded as misplaced fits the stack |
| `HtmlTags.AutoCloseMeans` | testbed/libxml2/HTMLparser.c:1479-1490 | a start tag closes the whole run of innermost elements that it closes, one by one, and stops at the first it does not |
| `HtmlTags.ReachIsReachable` | testbed/libxml2/HTMLparser.c:1410-1430 | the search of an end tag finds the innermost element of that name if and only if nothing inside it has higher priority |
| `HtmlTags.DiscardedPair` | testbed/libxml2/HTMLparser.c:3995-4001 | reading a discarded start tag and then its end tag by name closes and opens nothing but what the start tag closes and implies, and the count is as before |
| `HtmlTags.DiscardedKeepsOpen` | testbed/libxml2/HTMLparser.c:4454-4510 | a discarded start tag leaves the innermost element open if and only if it ends with `>` and that element may have content: its ending is taken for that of the innermost element's tag |
| `HtmlTags.TurnFalls` | testbed/libxml2/HTMLparser.c:4544-4714 | every turn of the content loop takes in bytes, closes an element, or notes anew an element it had lost |
| `HtmlTags.TurnSound` | testbed/libxml2/HTMLparser.c:4544-4714 | every turn keeps the shape of the stack and its agreement with the events |
| `HtmlTags.RunSound` | testbed/libxml2/HTMLparser.c:4525-4717 | so does the whole loop, which ends at a zero byte with everything closed unless the tree got too deep |
| `HtmlGiven.TurnGives` | testbed/libxml2/HTMLparser.c:4544-4714 | a turn that takes in a start tag outside of scripts opens that element, unless it is misplaced, and no other turn opens one that is not implied |
| `HtmlGiven.RunGives` | testbed/libxml2/HTMLparser.c:4525-4717 | on every input the start events that are not implied are those of the start tags the loop stood at, in order, and each stop begins where the one before ended |
| `HtmlContent.StartTurn` | testbed/libxml2/HTMLparser.c:4438-4514 | a start tag that closes nothing opens its element, in what it implies, and closes it at once if it has no content |
| `HtmlContent.ShortTurn` | testbed/libxml2/HTMLparser.c:4470-4477 | an element in short form is opened and closed at once |
| `HtmlContent.DiscardedCloses` | testbed/libxml2/HTMLparser.c:4454-4480 | `<html/>` inside an element closes that element |
| `HtmlContent.EndTurn` | testbed/libxml2/HTMLparser.c:3960-4050 | the end tag of the innermost element closes it |
| `HtmlContent.CodeReads` | testbed/libxml2/HTMLparser.c:4626-4631 | inside a script or style sheet tags are no tags, up to its end tag |
| `HtmlContent.ReadNode` | testbed/libxml2/HTMLparser.c:4525-4717 | the loop gets behind a written node with exactly its events, wherever it stands |
| `HtmlContent.WrittenIsRead` | testbed/libxml2/HTMLparser.c:4525-4717 | with implied tags off, a document of elements, scripts and text is opened and closed exactly as it is written |
| `HtmlContent.ImpliedAreRead` | testbed/libxml2/HTMLparser.c:1554-1608 | with implied tags on, elements of the head followed by elements of the body get html, head and body around them, each opened once and closed |
| `HtmlContent.LooseText` | testbed/libxml2/HTMLparser.c:1622-1650 | text outside of any element gets html, body and a paragraph |
| `HtmlContent.ParsePage` | testbed/libxml2/HTMLparser.c:4525-4717 | the parser object logs exactly those events for such a document |
| `HtmlParser.Parser.Open` | testbed/libxml2/HTMLparser.c:117-139 | name and node stack grow together unless the tree is too deep, which stops the parser |
| `HtmlParser.Parser.DropTop` | testbed/libxml2/HTMLparser.c:4488-4494 | closing without an end event still pops both stacks |
| `HtmlParser.Parser.AutoClose` | testbed/libxml2/HTMLparser.c:1479-1490 | closes exactly the run of innermost elements the new tag closes |
| `HtmlParser.Parser.AutoCloseOnClose` | testbed/libxml2/HTMLparser.c:1410-1444 | closes down to the reachable element of that name, or nothing |
| `HtmlParser.Parser.AutoCloseOnEnd` | testbed/libxml2/HTMLparser.c:1453-1464 | closes everything, with one end event for each element, innermost first |
| `HtmlParser.Parser.CheckImplied` | testbed/libxml2/HTMLparser.c:1554-1608 | opens exactly the implied html, head or body |
| `HtmlParser.Parser.CheckParagraph` | testbed/libxml2/HTMLparser.c:1622-1650 | text outside any element, in html or in head gets a paragraph, and only there |
| `HtmlParser.Parser.ParseStartTag` | testbed/libxml2/HTMLparser.c:3760-3942 | closes, implies and opens as the start tag asks, and discards and counts a misplaced html, head or body |
| `HtmlParser.Parser.ParseEndTag` | testbed/libxml2/HTMLparser.c:3960-4050 | closes by name; end tags of discarded tags are ignored and counted off |
| `HtmlParser.Parser.ParseElement` | testbed/libxml2/HTMLparser.c:4438-4514 | a start tag together with what ends it: empty-element forms, unfinished tags and elements without content |
| `HtmlParser.Parser.ParseContent` | testbed/libxml2/HTMLparser.c:4525-4717 | the content loop ends on every input, computes the run whose start events, shape and events for written documents are given above, and unless the tree is too deep leaves both stacks empty |
| `Buffer.NoOverflow` | testbed/libxml2/buf.c:378-388 | the size computed for growth, with the IO gap in front, never exceeds the size type |
| `Buffer.Doubled` | testbed/libxml2/buf.c:649-662 | the doubling loop computes the specified size |
| `Buffer.DoubledToIs` | testbed/libxml2/buf.c:649-662 | that size is the least power-of-two multiple of the old size that reaches the request, and is missing only where doubling overflows |
| `Buffer.Buf.CheckCompat` | testbed/libxml2/buf.c:71-77 | in every valid state the compatibility check changes nothing |
| `Buffer.Buf.Empty` | testbed/libxml2/buf.c:289-305 | the contents become empty, in IO mode by sliding back to the base |
| `Buffer.Buf.Shrink` | testbed/libxml2/buf.c:320-354 | exactly the requested bytes leave the front, in IO mode by sliding and, past half the block, moving back |
| `Buffer.Buf.GrowInternal` | testbed/libxml2/buf.c:368-422 | contents survive; it fails if and only if the block cannot be allocated or the bounded scheme's limit is reached; success leaves more than the requested room |
| `Buffer.Buf.Resize` | testbed/libxml2/buf.c:621-735 | contents survive; it fails if and only if doubling overflows, the block cannot be allocated or the limit is reached; success gives the requested size |
| `Buffer.AddIsSafe` | testbed/libxml2/buf.c:767-784 | what adding asks for never wraps around and never asks for an empty block |
| `Buffer.UnsafeRequests` | testbed/libxml2/buf.c:656-700 | two requests for which the size computation does not make sense: none on a hybrid buffer without a block, and one that wraps around with the IO gap |
| `Buffer.FailureCauses` | testbed/libxml2/buf.c:621-735 | a request fails only at the text limit or when twice the need, with the gap, cannot be allocated |
| `Buffer.Buf.Add` | testbed/libxml2/buf.c:750-795 | appends the string and a terminator, or leaves the contents alone; it fails if and only if room cannot be had |
| `Buffer.Buf.Cat` | testbed/libxml2/buf.c:808-814 | the same for a zero-terminated string, where one longer than INT_MAX counts as empty |
| `Buffer.Buf.AddLen` | testbed/libxml2/buf.c:521-531 | takes in exactly the bytes that lie behind the contents, if and only if they and a terminator fit |
| `Buffer.Run` | testbed/libxml2/buf.c:289-422 | each operation is refused exactly when it has to be, and otherwise acts on the buffer as on a queue of bytes |
| `Buffer.RunAll` | testbed/libxml2/buf.c:289-814 | any sequence of add, cat, shrink, empty, grow and add-length leads the buffer through the states of a byte queue, refusals included, and keeps it valid |
| `Catalog.UnwrapUrn` | testbed/libxml2/catalog.c:796-849 | the loop over the 2000-byte buffer stays in bounds and yields the expansion as far as it fits |
| `Catalog.CutIsPrefix` | testbed/libxml2/catalog.c:805-806 | the result is a prefix of the full expansion and always leaves room for the terminator |
| `Catalog.CutIsWholeIff` | testbed/libxml2/catalog.c:804-846 | nothing is cut if and only if the expansion has at most 1997 characters, or 1998 with a two-character step last |
| `Catalog.ExpandInvertsWrap` | testbed/libxml2/catalog.c:807-844 | expanding the URN form of any public identifier (section 2 of RFC 3151) gives the identifier back |
| `Catalog.UnwrapInvertsWrap` | testbed/libxml2/catalog.c:796-849 | unwrapping inverts wrapping exactly when the identifier fits the buffer, and otherwise yields a prefix |
| `Catalog.UnwrapIsLighter` | testbed/libxml2/catalog.c:796-849 | unwrapping lowers the weight (`;` 2, `/` 0, others 1) by at least 13, although the string may get longer |
| `Catalog.NormalizePublic` | testbed/libxml2/catalog.c:1000-1040 | returns nothing if and only if the identifier is already in normal form, and otherwise its words joined by single spaces |
| `Catalog.NormalIsNormal` | testbed/libxml2/catalog.c:1022-1038 | the result is in normal form (section 6.2 of the OASIS draft of 6 August 2001) or empty |
| `Catalog.NormalIdempotent` | testbed/libxml2/catalog.c:1009-1020 | normal identifiers are fixed points, so returning nothing for them is right |
| `Catalog.NormalKeepsWords` | testbed/libxml2/catalog.c:1022-1038 | normalization keeps the words of the identifier and their order |
| `Catalog.NormalIsLight` | testbed/libxml2/catalog.c:1000-1040 | normalization never raises the weight |
| `Catalog.ListResolve` | testbed/libxml2/catalog.c:1970-2045 | the recursion terminates by the weight of both identifiers, and its answer is the first hit for the settled identifiers |
| `Catalog.FirstHitDecides` | testbed/libxml2/catalog.c:2025-2042 | the answer is that of the first catalog that has one, found or broken off, and none only if no catalog has one |
| `Catalog.Settled` | testbed/libxml2/catalog.c:1970-2024 | the identifiers finally looked up are free of URN prefixes, and the public one is in normal form |
| `Catalog.SettledIsFinal` | testbed/libxml2/catalog.c:1970-2024 | resolving the settled identifiers again changes nothing |
| `Catalog.UrnResolvesAsPublic` | testbed/libxml2/catalog.c:1986-2024 | a lone system URN, and a public URN in normal form, resolve as the public identifier they unwrap to |

## Left out

- `Dictionary.Dict.Lookup`: no sub-dictionary (dict.c:714-730), reference counting or allocation failure. Bytes behind the end of a block, which only the empty-prefix comparison reads, are an arbitrary function that does not change.
- `DictHash.HashName`: the mixing macros of include/private/dict.h are an arbitrary fold with an arbitrary seed, so nothing is claimed about collisions.
- `HandOffTheorems.RecordedOnce`: the bucketed build (LSCOV_BUCKET) that counts hits is not modelled, only the default one that marks them.
- `HandOffTheorems.TallyBetween`: one tally at a time; words are read and bits are set atomically.
- `HandOffTheorems.WaitIsBounded`: counts the daemon's own steps; that the daemon process is scheduled at all is taken for granted, as it is for the target in `RecordIsBounded`.
- `HandOff.Allowed`: stores after a run has marked its end (by destructors that run later) are not modelled.
- `Bloom.HashOf`: the tail of one to three bytes is not modelled, because the map size is a multiple of four.
- Shared-memory set-up, signals, command line, CSV output, the cardinality estimate and the rates in `lscov/`: operating-system plumbing and floating-point display figures.
- `C14n.CanonicalFormKeepsScopes`: every node visible, inclusive mode; no node subsets, exclusive mode, attribute axis, `xml:base` fix-up, escaping, or refusal of relative namespace URIs. A declaration of the prefix `xml` is never in force, as `xmlSearchNs` answers for it (tree.c:6185-6256).
- `HtmlTree.Dump`: attribute text, escaped text and the document type are strings given with each node; the output encoding is not modelled. Sibling and child pointers are sound, parent pointers arbitrary.
- `HtmlTreeReader.PrintReadsBack`: trees of elements and text (`Readable`): no attributes, comments or other nodes, names without `<`, `>` and `/`, and text that prints without `<`; texts side by side read back as one text; formatting puts no newline around these elements. `FormatAddsNewlines` holds for every tree.
- `HtmlEntities.RoundTrip`: the entity table is a parameter with distinct ASCII names and XML characters as values; references to names outside ASCII (`htmlParseNameComplex`) are not modelled.
- `HtmlLookup.Scanner.LookupChunks`: the first chunk must have the bytes the length adjustment subtracts; with fewer the source's unsigned length wraps around.
- `HtmlLookup.Scanner.CommentEnd`: asks for the condition under which the loop is right, because elsewhere it need not end (`CommentLoop`).
- `HtmlContent.ImpliedAreRead`: documents, as in `WrittenIsRead`, whose tags have no attributes and names of letters, whose elements do not close the ones they are in, and whose text lies in an element other than html and head; the first element of head and body is not in short form; leaf parsers take a byte at a time (`Simple`). `HtmlGiven.RunGives` asks for none of this.
- `HtmlParser.Parser.ParseContent`: attributes, comments, processing instructions and text take an arbitrary number of bytes beyond those they always skip; encoding changes in mid-stream, node-info recording and memory errors are not modelled. Lock-step of the two stacks is claimed until a too-deep tree stops the parser.
- `Buffer.RunAll`: no detach or free; a block can be allocated if and only if it has at most 2^63 - 1 bytes.
- `Buffer.Buf.Resize`: asks for a request whose size does not wrap around (`ResizeSafe`); its only caller makes no other (`AddIsSafe`).
- `Catalog.ListResolve`: what a single catalog answers (entries, delegation, depth counting, loading) is an arbitrary function, so its own recursion is not modelled.
- The attribute ordering and text escaping of c14n.c, entities.c and chvalid.c, the SAX and validation layers, catalog file loading and the SGML catalog parser: none of the properties above depends on them, and they share no state with what is modelled.

# Models and proofs for AK and the kernel

This project models the algorithms and protocols of the AK base library and the kernel that
have the hardest invariants, and proves what they promise. `dafny verify dfyconfig.toml`
checks everything. The code that updates objects in place is modelled as classes and loops;
concurrent protocols are state machines over their atomic steps.

| files | component | main results |
|---|---|---|
| RedBlackShape, RedBlackTree, RedBlackRuns | red-black tree with parent pointers | insertion and removal keep every invariant and the in-order sequence; height bound; every run |
| WeakLink, RefPtr | shared ownership | no interleaving of any number of threads touches a freed object or loses a reference; each object is deleted exactly once; what every call leaves behind |
| KernelLock | recursive reader-writer lock | in every run the fields are what the returned calls say; exclusion; forced unlock and restore |
| HashTable | open addressing with tombstones | every run means exactly a map, for any hash functions; when a probe never ends |
| Json, JsonText, JsonRoundTrip, JsonMachine, JsonPrinter | JSON printer and parser | every text of RFC 8259 is read as what it means; the round trip and its exact range; the cursor and builder code computes the grammar functions |
| MemMem | shift-or and chunked Knuth-Morris-Pratt search | the first occurrence, and the exact inputs where it is missed |
| Bitmap | word-at-a-time bitmap operations | counting, painting and searching agree with single bits, and exactly where the searches do not |
| QuickSort | dual- and single-pivot quicksort | sorted permutation under any strict weak order; call depth at most log2(n) |
| InlineLinkedList, TimerRuns, TimerQueue | timer queue | in every run of any threads three well-formed linked lists over shared links, their order and due times; which timers fire; what cancelling means |
| ReadyQueues | scheduler ready queues | mask, buckets and threads agree in every run; which thread is pulled, and by one processor only |
| BitStream, DuplexMemoryStream, CircularStream | streams | write-then-read round trips over every chunk and ring border |
| Time | saturating time arithmetic | exact results, clamped, without false saturation |

## Where the code differs from what is said about it

- `memmem_optional` does not find a 31-byte needle in a longer text. The int shift that makes
  the test mask reaches the sign bit, so bits that are always set are tested
  (MemMem.MemMemOptional, MemMem.MissedMatch).
- `set_range_and_verify_that_all_bits_flip` verifies only the first and the last byte of the
  range (Bitmaps.VerifyExact).
- `find_one_anywhere` never looks at the bits after the last whole byte (Bitmaps.UnseenBit). On
  data that is not word-aligned it can run into a VERIFY (Bitmaps.FailedRescan) or past the data
  (Bitmaps.ReadsOn), and with the hint 8 it can miss the first byte (Bitmaps.SkippedByte);
  Bitmaps.BitmapView.FindOneAnywhere says exactly when.
- `find_next_range_of_unset_bits` can return a range that starts before the bit it is given
  (Bitmaps.MovedBack); Bitmaps.BitmapView.Origin is where it starts.
- `thread_priority_to_priority_index` divides before it multiplies, so only two of the 32
  buckets are used (ReadyQueues.PriorityIndex).
- The JSON printer leaves control characters other than four as they are, so such texts are
  not JSON by section 7 of RFC 8259; the parser reads them back
  (JsonRoundTrip.EscapedControls, JsonRoundTrip.RawReturn).
- A code point above 0xffff that is written as a surrogate pair is read as two sequences of three
  bytes, which is not UTF-8 (JsonText.StringsExact, JsonText.SplitPair).
- Integers outside [-2^31, 2^63-1] do not survive printing and parsing (JsonRoundTrip.RoundTrip,
  JsonRoundTrip.LostIntegers).
- The comment on `Time` gives zero as its minimum; the least time is -2^63 seconds.
- `DuplexMemoryStream::write` carries a question whether it writes around chunk borders
  correctly; it does (DuplexMemoryStreams.DuplexMemoryStream.Write).

## What the models take as given

- Concurrent protocols: memory is sequentially consistent and counters do not overflow.
- Clock readings, hash functions, the processor number, and the deferred-call queue's order are inputs.
- Containers that the source only uses (vectors, hash maps of the lock and of JsonObject, the
  intrusive list of the scheduler) are sequences and maps.
- Machine words are sequences of bits or unbounded integers with the wrap-around written out
  where the code depends on it; sizes and indices do not overflow.

## Model

| member | source | states |
|---|---|---|
| RedBlackShape.RotateLeftKeeps | AK/RedBlackTree.h:39-64 | a left rotation keeps the in-order node sequence and the set of nodes |
| RedBlackShape.RotateRightKeeps | AK/RedBlackTree.h:66-91 | a right rotation keeps the in-order node sequence and the set of nodes |
| RedBlackTrees.RedBlackTree.RotateLeft | AK/RedBlackTree.h:39-64 | rotating at any node of a linked tree, with parent pointers and the root, gives the linked rotated tree in the same place |
| RedBlackTrees.RedBlackTree.RotateRight | AK/RedBlackTree.h:66-91 | the mirror image of RotateLeft |
| RedBlackTrees.RedBlackTree.Find | AK/RedBlackTree.h:93-103 | returns a node with the key, and null exactly when no node has it |
| RedBlackTrees.RedBlackTree.FindLargestNotAbove | AK/RedBlackTree.h:105-119 | returns a node with the largest key not above the argument, and null exactly when all keys are above |
| RedBlackTrees.RedBlackTree.Insert | AK/RedBlackTree.h:121-153 | a fresh node goes after all keys not above its own and before all above; links, colours, black heights, order, size and minimum stay right |
| RedBlackTrees.RedBlackTree.InsertFixups | AK/RedBlackTree.h:155-195 | from a tree whose only fault is a red node under a red parent, the loop restores all colour rules and keeps the in-order sequence |
| RedBlackShape.TurnRightSound | AK/RedBlackTree.h:183-191 | the rotate-and-recolour case of the insertion repairs the red-red edge and keeps the black height |
| RedBlackShape.RecolorSound | AK/RedBlackTree.h:162-166 | the red-uncle case moves the red-red edge two levels up and keeps the black heights |
| RedBlackTrees.RedBlackTree.RefreshMinimum | AK/RedBlackTree.h:150-152 | looking only at the old minimum's left child finds the new in-order first node |
| RedBlackTrees.RedBlackTree.Remove | AK/RedBlackTree.h:197-274 | removing any node leaves a valid tree whose in-order sequence is the old one without that node, with size and minimum right; a tree of one node becomes empty |
| RedBlackTrees.RedBlackTree.RemoveOnly | AK/RedBlackTree.h:201-206 | removing the only node empties the tree |
| RedBlackTrees.RedBlackTree.AdvanceMinimum | AK/RedBlackTree.h:208-209 | the minimum after the removal is the first of the remaining in-order sequence |
| RedBlackTrees.RedBlackTree.Lower | AK/RedBlackTree.h:214-254 | relinking a node with its successor, neighbours or not, is the same linked tree with the two nodes swapped |
| RedBlackShape.SwappedOrder | AK/RedBlackTree.h:211-254 | after the swap the node can be dropped from the next position and the order is the old one without it |
| RedBlackTrees.RedBlackTree.Detach | AK/RedBlackTree.h:256-274 | taking out a node with at most one child and fixing up leaves a valid tree over the other nodes in the same order |
| RedBlackTrees.RedBlackTree.RemoveFixups | AK/RedBlackTree.h:277-332 | from a place that is one black short, the loop restores equal black heights and all colour rules and keeps the order |
| RedBlackShape.RedSiblingLeft | AK/RedBlackTree.h:282-287 | the red-sibling case leaves a black sibling and the same shortage one level down |
| RedBlackShape.BlackNephews | AK/RedBlackTree.h:288-290 | the two-black-nephews case moves the shortage one level up |
| RedBlackShape.NearNephewLeft | AK/RedBlackTree.h:292-297 | the near-red-nephew case turns into the far-red-nephew case |
| RedBlackShape.FarNephewLeft | AK/RedBlackTree.h:298-302 | the far-red-nephew case ends the shortage |
| RedBlackTrees.RedBlackTree.Successor | AK/RedBlackTree.h:334-350 | returns the next node of the in-order sequence, or null for the last |
| RedBlackShape.HeightBound | AK/RedBlackTree.h:155-195 | in a valid tree 2^height <= (n+1)^2, that is, height <= 2*log2(n+1) |
| RedBlackRuns.InsertInto | AK/RedBlackTree.h:440-449 | inserting a key puts it into the sorted key sequence after its equals |
| RedBlackRuns.RemoveFrom | AK/RedBlackTree.h:479-491 | removing a key takes one occurrence out of the sorted key sequence and says whether there was one |
| RedBlackRuns.Run | AK/RedBlackTree.h:121-332 | after any sequence of insertions and removals the tree is valid, holds the sorted keys that the sequence means, and meets the height bound |
| WeakLinks.StepInv | AK/Weakable.h:28-82 | every atomic step of every thread keeps the invariant, passes every VERIFY and touches no freed object |
| WeakLinks.RunSafe | AK/Weakable.h:28-82 | so does every interleaving of any length and any number of threads |
| WeakLinks.ZeroIsFinal | AK/RefCounted.h:52-62 | once the count is zero it is zero in every continuation, and the object is released at most once |
| WeakLinks.ReachableStates | AK/RefCounted.h:45-100 | in every reachable state the count is the number of owned references, the object is released at most once and only with count zero, null pointer and nobody looking, and is released when all threads are idle with count zero |
| WeakLinks.PointerCleared | AK/Weakable.h:66-82 | in every reachable state the link is null exactly when the destructor has cleared it or the object is released |
| WeakLinks.CanFinish | AK/Weakable.h:72-79 | from every state with count zero some continuation lets the waiting destructor release the object |
| WeakLinks.StrongRefGives | AK/Weakable.h:28-48 | strong_ref among any steps of other threads: apart from what they hand to it, the caller owns one reference more if the object is still alive when it returns, and none more otherwise |
| WeakLinks.StrongRefAlone | AK/Weakable.h:28-48 | with nobody else running strong_ref returns with one reference more exactly when the object is alive, and changes nothing else |
| WeakLinks.OwnerSteps | AK/RefCounted.h:45-82 | ref adds one reference to its caller, unref takes one, and handing on moves one |
| WeakLinks.OthersGive | AK/RefCounted.h:45-82 | no step of another thread changes what a thread owns, except handing it a reference |
| RefPtrs.StepInv | AK/RefPtr.h:45-102 | every atomic step of copy, move, assign, clear and create keeps the invariant, passes every VERIFY and touches no deleted object |
| RefPtrs.RunSafe | AK/RefPtr.h:388-418 | so does every interleaving of any length over any slots, objects and threads |
| RefPtrs.Conservation | AK/RefPtr.h:388-418 | in every reachable state each count is the number of slots pointing to the object plus the references in flight; with all threads idle an object is deleted exactly when no slot points to it |
| RefPtrs.DeadForGood | AK/RefCounted.h:76-100 | a count that reached zero never rises, and a deleted object stays deleted, until its address is used for a new object |
| RefPtrs.CallEffect | AK/RefPtr.h:388-418 | in every interleaving a copy points dst once, to what src pointed to when it was locked, and leaves src; a move takes the pointer out of src and puts that one into dst; clear and create point dst to null and to the new object; no other step of the call changes a pointer |
| RefPtrs.CallAlone | AK/RefPtr.h:209-299 | with nobody else running every call returns: copy leaves both slots at the old pointer of src, move empties src, clear empties dst, create points dst to the object, and no other slot changes |
| KernelLocks.LockGives | Kernel/Lock.cpp:26-106 | a pass of lock fails no VERIFY, gives exactly one more hold to the caller exactly when the lock admits it, and changes no other thread's hold |
| KernelLocks.UnlockGives | Kernel/Lock.cpp:116-171 | a pass of unlock by a holder fails no VERIFY and takes exactly one hold away |
| KernelLocks.ForceUnlockGives | Kernel/Lock.cpp:184-250 | a pass of force_unlock_if_locked returns the caller's whole hold and leaves it none |
| KernelLocks.RestoreGives | Kernel/Lock.cpp:272-321 | a pass of restore_lock fails no VERIFY, succeeds exactly when the mode allows, and gives the hold back |
| KernelLocks.HoldsDetermine | Kernel/Lock.cpp:34-98 | mode, holder, shared-holder map and times-locked are determined by what the threads hold |
| KernelLocks.Exclusion | Kernel/Lock.cpp:56-59 | while one thread holds the lock exclusively no other holds it |
| KernelLocks.ForceThenRestore | Kernel/Lock.cpp:177-325 | restoring after a forced unlock gives the same hold, and at once the same lock |
| KernelLocks.Lock.TryLock | Kernel/Lock.cpp:26-106 | the field updates of one pass do what LockPass says, with every VERIFY an assertion |
| KernelLocks.Lock.Unlock | Kernel/Lock.cpp:116-171 | the field updates of one pass do what UnlockPass says, with every VERIFY an assertion |
| KernelLocks.Lock.ForceUnlockIfLocked | Kernel/Lock.cpp:177-254 | the field updates do what ForceUnlockPass says and return the caller's hold |
| KernelLocks.Lock.TryRestore | Kernel/Lock.cpp:264-325 | the field updates do what RestorePass says, or leave the lock as it was |
| KernelLocks.StepInv | Kernel/Lock.cpp:17-325 | every step of the guard protocol keeps fields and per-thread holds in agreement and fails no VERIFY |
| KernelLocks.RunSafe | Kernel/Lock.cpp:17-325 | so does every interleaving of calls by any number of threads that unlock only what they hold and restore only what was taken |
| KernelLocks.ReachableStates | Kernel/Lock.cpp:17-325 | in every reachable state the fields agree with the holds and an exclusive holder excludes all others |
| KernelLocks.AdmitsMeans | Kernel/Lock.cpp:36-103 | a lock call waits exactly while somebody holds the lock, unless that is the caller holding it exclusively, or both sharing it |
| KernelLocks.WorkDid | Kernel/Lock.cpp:17-325 | in every reachable state, from the fields and the call: an admitted lock leaves the caller one hold more, a refused one changes nothing and starts over, unlock leaves one fewer, a forced unlock none and saves the old hold, restore gives exactly the saved one; nobody else is affected |
| KernelLocks.CallsCount | Kernel/Lock.cpp:17-325 | in every run a thread that is in no call holds the lock as its own returned calls say, counted from the events alone; two threads whose calls give them the lock at once both share it |
| KernelLocks.CallAlone | Kernel/Lock.cpp:17-325 | a call that need not wait and is not disturbed returns after three steps with that effect |
| HashTables.StopIsRight | AK/HashTable.h:282-298 | a probe that stops at a never-used bucket is right: tombstones never hide an entry |
| HashTables.PlaceLaid | AK/HashTable.h:305-328 | filling the first free bucket on a key's probes keeps every entry findable and adds that one |
| HashTables.ReplaceLaid | AK/HashTable.h:184-187 | overwriting an equal entry changes only its value |
| HashTables.EraseLaid | AK/HashTable.h:231-243 | a tombstone removes its entry and no other, and keeps every other probe sequence going |
| HashTables.HashTable.Probe | AK/HashTable.h:281-298 | stops at the first bucket of the probe sequence that has the key or was never used, and never exactly when there is none |
| HashTables.HashTable.Lookup | AK/HashTable.h:281-298 | finds the key exactly when the map has it; runs for ever exactly when no probe of the key stops |
| HashTables.HashTable.LookupForWriting | AK/HashTable.h:305-328 | returns the bucket of the key, or a free bucket its probes reach, growing the table first when it is loaded |
| HashTables.HashTable.Rehash | AK/HashTable.h:253-279 | keeps exactly the same map in at least the asked-for buckets, without tombstones; its nested growth terminates |
| HashTables.HashTable.Set | AK/HashTable.h:180-197 | the table then means the map with that entry; reports whether one was replaced; counts and load stay right |
| HashTables.HashTable.Remove | AK/HashTable.h:221-243 | the table then means the map without the key; reports whether there was one |
| HashTables.HashTable.EnsureCapacity | AK/HashTable.h:132-136 | keeps the map and gives twice the capacity asked for |
| HashTables.HashTable.HasNeverUsed | AK/HashTable.h:330-331 | a table within its load factor has a never-used bucket |
| HashTables.HashTable.CoveringProbesStop | AK/HashTable.h:287-297 | if the probes of a hash visit every bucket, they stop |
| HashTables.Run | AK/HashTable.h:132-331 | after any sequence of set, remove and ensure_capacity the table means exactly the map of that sequence, or some probe never stops |
| JsonText.SpellingReads | AK/JsonParser.cpp:14-70 | every spelling of a string, with raw characters, the eight short escapes and four hexadecimal digits in any case, is read as the bytes its pieces stand for |
| JsonText.StringsExact | AK/JsonParser.cpp:42-68 | the parser reads a string as section 7 of RFC 8259 says if and only if it has no surrogate pair |
| JsonText.SplitPair | AK/JsonParser.cpp:58-64 | the two escapes of U+1F600 come out as two surrogates of three bytes each |
| JsonText.Utf8Decodes | AK/StringBuilder.cpp:105-126 | what append_code_point writes is decoded to the code point again by section 3 of RFC 3629, for every code point |
| JsonText.NumberReads | AK/JsonParser.cpp:147-220 | what the parser makes of a written integer, with its width tag, and when it fails |
| JsonText.ItemsRead | AK/JsonParser.cpp:111-137 | array items with any blanks around them are collected in order behind those already read |
| JsonText.EntriesRead | AK/JsonParser.cpp:76-109 | members with any blanks and any spelling of their names are set in order |
| JsonText.DocReads | AK/JsonParser.cpp:243-275 | every JSON text without fractions and exponents, in front of a delimiter, is read as what it means |
| JsonText.WholeTextReads | AK/JsonParser.cpp:277-286 | such a text with blanks before it is accepted, as what it means, exactly when only blanks follow |
| JsonText.ArrayRefused | AK/JsonParser.cpp:116-136 | an array whose last item is followed by the end, by no comma, or by a comma and the bracket is refused |
| JsonText.ObjectRefused | AK/JsonParser.cpp:81-107 | the same for an object |
| JsonText.SetFinds | AK/JsonObject.h:75-80 | setting a name gives it one member with the new value and leaves all others |
| JsonText.LastWins | AK/JsonParser.cpp:94-97 | of several members with one name the last gives the value |
| JsonRoundTrip.EscapedTextReads | AK/StringBuilder.cpp:136-162 | unescaping an escaped text gives the text back, for every string of bytes |
| JsonRoundTrip.DocPrints | AK/JsonObject.h:130-171 | what the printer writes is a JSON text of RFC 8259 without blanks |
| JsonRoundTrip.EscapedControls | AK/StringBuilder.cpp:136-162 | an escaped text has control characters, which section 7 of RFC 8259 forbids, if and only if the text has one other than backspace, tab, line feed and escape |
| JsonRoundTrip.RawReturn | AK/StringBuilder.cpp:136-162 | a carriage return is printed as it is |
| JsonRoundTrip.PrintedReadsBefore | AK/JsonParser.cpp:243-275 | parsing a printed value in front of a delimiter reads that value and stops there, and fails exactly when an integer in it is above 2^63-1; as a whole text it is accepted exactly when only blanks follow |
| JsonRoundTrip.PrintedReads | AK/JsonParser.cpp:277-286 | what parsing a printed value gives, for every value the printer accepts |
| JsonRoundTrip.RoundTrip | AK/JsonParser.cpp:277-286 | parsing a printed value gives it back up to integer widths if and only if all its integers are in [-2^31, 2^63-1] |
| JsonRoundTrip.LostIntegers | AK/JsonParser.cpp:199-216 | 2^63 is refused, and -2^31 - 1 comes back as 2^31 - 1 |
| JsonMachine.JsonParser.ConsumeAndUnescapeString | AK/JsonParser.cpp:9-74 | the cursor and builder loops compute the unescaped string, with the cursor after the closing quote |
| JsonMachine.JsonParser.ConsumeEscaped | AK/JsonParser.cpp:40-68 | the switch gives what the escape stands for and takes its characters, up to four digits for a code point |
| JsonMachine.ConvertFromHex | AK/StringUtils.cpp:150-179 | the number the trimmed digits stand for, or nothing |
| JsonMachine.JsonParser.ParseNumberHere | AK/JsonParser.cpp:147-220 | the buffer loop and conversions compute the number, its tag and the rest of the input |
| JsonMachine.JsonParser.ConsumeWord | AK/GenericLexer.h:60-82 | consumes the word exactly when the input goes on with it |
| JsonMachine.JsonParser.ParseArray | AK/JsonParser.cpp:111-137 | the loop computes what the grammar function ParseItems says, and terminates |
| JsonMachine.JsonParser.ParseObject | AK/JsonParser.cpp:76-109 | the loop computes what the grammar function ParseMembers says, and terminates |
| JsonMachine.JsonParser.ParseHelper | AK/JsonParser.cpp:243-275 | computes what the grammar function ParseValue says; recursion decreases the characters left |
| JsonMachine.JsonParser.ParseAll | AK/JsonParser.cpp:277-286 | returns a value exactly when the whole input is one value |
| JsonMachine.JsonObject.Set | AK/JsonObject.h:75-80 | order vector and map together are the member list with the key moved to the end |
| JsonMachine.JsonObject.Remove | AK/JsonObject.h:91-98 | order vector and map together are the member list without the key; says whether there was one |
| JsonMachine.JsonObject.ForEachMember | AK/JsonObject.h:82-89 | visits the members in the order they were last set |
| Json.AccumulateExact | AK/StringUtils.cpp:81-140 | checking the range at every digit refuses exactly the numbers that are out of range as a whole |
| JsonMachine.ConvertToUint32 | AK/StringUtils.cpp:119-140 | the number the digits stand for exactly when they are all digits and it fits in 32 bits, and nothing otherwise |
| JsonMachine.ConvertToInt64 | AK/StringUtils.cpp:81-112 | the number that sign and digits stand for exactly when they are all digits and it fits in 64 bits, and nothing otherwise |
| JsonPrinter.PositionalValue | AK/Format.cpp:27-53 | reading positional notation back in the same base gives the number |
| JsonPrinter.ConvertUnsignedToString | AK/Format.cpp:27-53 | the buffer filled backwards and reversed in place holds the positional notation, in at most 64 bytes, for every base from 2 to 16, every 64-bit value and both cases of letters |
| JsonPrinter.StringBuilder.AppendEscapedForJson | AK/StringBuilder.cpp:136-162 | appends the escaped text |
| JsonPrinter.StringBuilder.PutU64 | AK/Format.cpp:210-307 | with the default specifier, appends a sign if negative and the decimal digits |
| JsonPrinter.Magnitude | AK/Format.cpp:319-322 | negating in 64 bits and casting gives the magnitude of every 64-bit value, also of the least, which negation leaves as it is |
| JsonPrinter.StringBuilder.PutI64 | AK/Format.cpp:308-323 | appends the decimal notation of every 64-bit integer, the least one included |
| JsonPrinter.JsonArraySerializer.Add | AK/JsonArraySerializer.h:28-32 | appends a comma except before the first item, and the printed value |
| JsonPrinter.JsonObjectSerializer.Add | AK/JsonObjectSerializer.h:26-30 | appends a comma except before the first member, the escaped key and the printed value |
| JsonPrinter.SerializeArray | AK/JsonArray.h:79-84 | the serializer's brackets, commas and items are the printed array |
| JsonPrinter.SerializeObject | AK/JsonObject.h:113-120 | the serializer's braces, commas and members are the printed object |
| JsonPrinter.Serialize | AK/JsonObject.h:130-171 | appends exactly the printed value, whatever was in the builder |
| JsonPrinter.SerializeAndParse | AK/JsonObject.h:130-171 | serializing into a builder and running the parser gives the value back up to integer widths if and only if its integers are in [-2^31, 2^63-1] |
| MemMem.BuildMasks | AK/MemMem.h:20-27 | bit i of a byte's mask is clear exactly when the needle has that byte at i |
| MemMem.TrackStep | AK/MemMem.h:29-31 | one or-and-shift keeps bit j clear exactly when the text read ends with the first j bytes of the needle |
| MemMem.SignBitsStick | AK/MemMem.h:33-34 | with a 31-byte needle the sign-extended test mask is never clear |
| MemMem.BitapBitwise | AK/MemMem.h:14-38 | returns the first occurrence for needles of 1 to 30 bytes, and what it returns for 0 and 31 bytes |
| MemMem.CopiedEntry | AK/MemMem.h:53-54 | the copied table entry is the longest border that continues differently |
| MemMem.FollowTable | AK/MemMem.h:57-59 | the inner loop finds the longest border that can be extended, or none |
| MemMem.PrepareTable | AK/MemMem.h:44-65 | every entry is the longest border of its prefix that continues differently, or -1 |
| MemMem.Shift | AK/MemMem.h:88-93 | following the table on a mismatch skips no occurrence |
| MemMem.MemMemChunks | AK/MemMem.h:41-97 | returns the first occurrence in the concatenation of the chunks, or none exactly when there is none, however the text is cut |
| MemMem.MemMemOptional | AK/MemMem.h:99-123 | returns the first occurrence if and only if it is not the case that a 31-byte needle occurs in a longer text; then it returns none |
| MemMem.MissedMatch | AK/MemMem.h:113-118 | a 31-byte needle at the start of a 32-byte text that is not found |
| Bitmaps.BitmapView.Set | AK/BitmapView.h:27-34 | changes bit i and no other |
| Bitmaps.CountMasked | AK/BitmapView.h:48-63 | counting under the first-byte and last-byte masks is counting the selected part of the byte |
| Bitmaps.BitmapView.CountInRange | AK/BitmapView.h:41-85 | the number of bits of the value in the range, at every alignment of the data |
| Bitmaps.BitmapView.SetRange | AK/BitmapView.h:92-150 | sets exactly the bits of the range; a VERIFY fails exactly when some range bit in the first or last byte has the value already |
| Bitmaps.VerifyExact | AK/BitmapView.h:108-138 | those VERIFYs ensure that all bits flip if and only if the range has no byte between its first and its last |
| Bitmaps.BitmapView.FindOneAnywhere | AK/BitmapView.h:173-239 | at every address and for any hint: a matching bit of the whole bytes from the first byte looked at, and none exactly when they have none, unless the search derails; then what it does instead |
| Bitmaps.BitmapView.SearchRound | AK/BitmapView.h:180-237 | one round finds a bit of the whole bytes from its start on exactly when there is one, or else runs past the end it was given |
| Bitmaps.UnseenBit | AK/BitmapView.h:207-217 | a set bit after the last whole byte is not found |
| Bitmaps.FailedRescan | AK/BitmapView.h:219-236 | at an odd address with no bit set, a search from bit 9 fails a VERIFY |
| Bitmaps.ReadsOn | AK/BitmapView.h:187-192 | on data that ends before its first word boundary, with no bit set, the search reads behind the data |
| Bitmaps.SkippedByte | AK/BitmapView.h:183-217 | one byte before a word boundary, a search from bit 8 misses bit 0 |
| Bitmaps.OnesEnd | AK/BitmapView.h:348-351 | the shifted-out run of set bits is not empty, ends inside the bucket, and the inverted bucket is not zero |
| Bitmaps.BitmapView.ScanBucket | AK/BitmapView.h:320-354 | scanning a partly full bucket by runs misses no start of a fitting range |
| Bitmaps.BitmapView.VisitBucket | AK/BitmapView.h:297-354 | a full, an empty or a partly full bucket: the range that ends the search is the first that fits, and otherwise no start is missed |
| Bitmaps.BitmapView.ScanBuckets | AK/BitmapView.h:297-354 | the loop over the whole buckets finds the first fitting range up to its next set bit, or misses no start |
| Bitmaps.BitmapView.FindNextRange | AK/BitmapView.h:282-374 | from any bit: where the search really starts, the first start from there of at least the minimum of unset bits, and how long the range is: the maximum, or up to the next set bit or the last whole bucket, or the minimum when it reaches into the bits after that; none exactly when there is none |
| Bitmaps.MovedBack | AK/BitmapView.h:307-318 | in an empty bucket the range found from bit 5 starts at bit 0 |
| Bitmaps.BitmapView.FindFirstFit | AK/BitmapView.h:402-410 | the least start of n unset bits in a row, or none exactly when there is none, for every size and n |
| BitStreams.OutputBitStream.WriteBits | AK/BitStream.h:131-166 | on the 32-, 16- and 8-bit fast paths and bit by bit, appends the low count bits; no error as long as they fit |
| BitStreams.OutputBitStream.AlignToByteBoundary | AK/BitStream.h:173-181 | the bytes are everything written, filled up with clear bits |
| BitStreams.InputBitStream.ReadBits | AK/BitStream.h:57-82 | the next bits in order, or zero and a fatal error exactly when there are too few or the stream is in error already |
| BitStreams.RoundTrip | AK/BitStream.h:57-181 | any sequence of values and widths up to 32, written, aligned and read back with the same widths, gives each value modulo 2^width |
| QuickSorts.PartitionOne | AK/QuickSort.h:95-109 | the loop splits the part into smaller elements, the pivot and the others, and permutes it |
| QuickSorts.SinglePivotQuickSort | AK/QuickSort.h:87-120 | sorts and permutes the part, under any strict weak order, with calls nested at most log2(n) deep |
| QuickSorts.HighPass | AK/QuickSort.h:44-54 | the swap of a high element, with its nested swap, keeps the three-way partition |
| QuickSorts.PartitionTwo | AK/QuickSort.h:17-61 | choosing pivots and partitioning gives three parts in order around two pivots, and permutes |
| QuickSorts.DualPass | AK/QuickSort.h:63-83 | sorting the two smaller parts leaves only the largest to be sorted |
| QuickSorts.DualPivotQuickSort | AK/QuickSort.h:13-85 | sorts and permutes the part, under any strict weak order, with calls nested at most log2(n) deep |
| QuickSorts.QuickSort | AK/QuickSort.h:134-138 | the collection is then sorted and has the same elements |
| InlineLinkedLists.InlineLinkedList.Append | AK/InlineLinkedList.h:171-188 | the linked list is the old one with the node at the end; every VERIFY holds |
| InlineLinkedLists.InlineLinkedList.InsertBefore | AK/InlineLinkedList.h:190-210 | the linked list is the old one with the node before the given one; every VERIFY holds |
| InlineLinkedLists.InlineLinkedList.Remove | AK/InlineLinkedList.h:234-255 | the linked list is the old one without the node, whose links are cleared; every VERIFY holds |
| InlineLinkedLists.InlineLinkedList.ContainsSlow | AK/InlineLinkedList.h:101-108 | says whether the node is in the list |
| TimerQueues.TimerList.AddLocked | Kernel/TimeQueue.cpp:83-111 | the list and due time after adding are those of TimerRuns.Insert |
| TimerQueues.TimerList.RemoveLocked | Kernel/TimeQueue.cpp:202-217 | the list and due time after removing are those of TimerRuns.RemoveAt |
| TimerQueues.TimerList.UpdateNextTimerDue | Kernel/TimeQueue.cpp:258-266 | the due time is that of the head, or zero |
| TimerQueues.AddBeside | Kernel/TimeQueue.cpp:83-111 | adding to one of three disjoint lists over the same links leaves the other two as they were |
| TimerQueues.RemoveBeside | Kernel/TimeQueue.cpp:202-217 | so does removing, and the timer is then in none of them |
| TimerQueues.FireBeside | Kernel/TimeQueue.cpp:228-234 | of three disjoint lists over the same links, one loses its head, the executing list gains it, and the third stays a well-formed list of the same timers |
| TimerQueues.ItemsApart | Kernel/TimeQueue.cpp:83-266 | linked lists that show a good state share no timer |
| TimerQueues.TimerQueue.constructor | Kernel/TimeQueue.cpp:49-52 | three fresh, different, empty lists that show the start state |
| TimerQueues.TimerQueue.AddTimer | Kernel/TimeQueue.cpp:54-81 | from lists that show a good state, all three lists, the due times and the id counter show the state after the add step; returns the new id |
| TimerQueues.TimerQueue.CancelTimer | Kernel/TimeQueue.cpp:174-200 | all three lists show the state after the cancel step; returns true, or starts to wait, exactly as that step says |
| TimerQueues.TimerQueue.CancelTimerById | Kernel/TimeQueue.cpp:120-172 | the same for an id, searching both queues |
| TimerQueues.TimerQueue.Recheck | Kernel/TimeQueue.cpp:145-160 | a waiting canceller gives up exactly when its target is not in the executing list any more |
| TimerQueues.TimerQueue.FireSection | Kernel/TimeQueue.cpp:219-256 | from taking the lock to releasing it: the VERIFY on the due time holds, all three lists show the state after the fire step, and the thread goes on with a queue or is done as that step says |
| TimerQueues.TimerQueue.FinishCallback | Kernel/TimeQueue.cpp:241-244 | all three lists show the state after the timer left the executing list |
| TimerQueues.TimerQueue.Perform | Kernel/TimeQueue.cpp:54-256 | any step of any thread, on the linked lists, leads from lists that show a good state to lists that show the next |
| TimerQueues.Run | Kernel/TimeQueue.cpp:54-256 | every run from the constructor on, over any timers and threads, fails no VERIFY and leaves three well-formed linked lists, with due times and ids, that show the state the run leads to |
| TimerRuns.InsertKeeps | Kernel/TimeQueue.cpp:89-110 | insertion keeps the queue sorted by expiry, first-in first-out among equals, with the due time that of the head |
| TimerRuns.RemoveKeeps | Kernel/TimeQueue.cpp:202-212 | so does removal |
| TimerRuns.StepInv | Kernel/TimeQueue.cpp:83-266 | every step of adding, cancelling, waiting, firing and callbacks keeps the invariant and passes the VERIFYs of fire |
| TimerRuns.RunSafe | Kernel/TimeQueue.cpp:83-266 | so does every run, and queueings only move forward from queued to executing or cancelled to finished |
| TimerRuns.ReachableStates | Kernel/TimeQueue.cpp:83-266 | every state reachable from the empty queues is good |
| TimerRuns.NoTimerTwice | Kernel/TimeQueue.cpp:83-266 | no timer is in two lists, or twice in one |
| TimerRuns.CancelledNeverRuns | Kernel/TimeQueue.cpp:174-200 | a cancel that returns true took a queueing of its target that had not started, and it stays cancelled in every continuation |
| TimerRuns.NotCancelledIsOver | Kernel/TimeQueue.cpp:145-166 | when a cancel returns false, no queueing of the target is executing, and every one made before the call is finished or was cancelled |
| TimerRuns.RunsOnce | Kernel/TimeQueue.cpp:239-245 | a callback runs at most once for each queueing |
| TimerRuns.StartsOnlyDue | Kernel/TimeQueue.cpp:219-256 | in every step a queueing starts only while firing, only when its own clock has passed its expiry, only from the head of its queue, a realtime one only when no monotonic one still to be visited is due, and alone |
| TimerRuns.FiringSteps | Kernel/TimeQueue.cpp:219-256 | firing is done exactly when no entry of the queues still to be visited is due |
| TimerRuns.NewQueueing | Kernel/TimeQueue.cpp:54-81 | an added timer is queued, with an id that was never given before exactly when it is given one |
| TimerRuns.CancelFinds | Kernel/TimeQueue.cpp:120-200 | cancelling a queued timer, by itself or by its id, returns true and cancels that queueing and no other |
| TimerRuns.WaitsExactly | Kernel/TimeQueue.cpp:145-166 | a canceller that found nothing queued waits exactly while a queueing it means is executing |
| TimerRuns.CallbackSteps | Kernel/TimeQueue.cpp:238-245 | running a callback and returning from it ends that queueing, takes it off the executing list and changes nothing else |
| ReadyQueues.PriorityIndex | Kernel/Scheduler.cpp:58-68 | the lowest priority goes to the last bucket and every other priority to bucket 0 |
| ReadyQueues.Scheduler.QueueRunnableThread | Kernel/Scheduler.cpp:131-147 | appends the thread to its bucket, names the bucket in the thread, and keeps mask, buckets and threads in agreement; leaves the processor's idle thread alone |
| ReadyQueues.Scheduler.DequeueRunnableThread | Kernel/Scheduler.cpp:108-129 | takes the thread out of the bucket it names, or says why not, and keeps the agreement; true for the idle thread |
| ReadyQueues.Scheduler.FindEligible | Kernel/Scheduler.cpp:75-104 | finds the first eligible thread of the lowest bucket that has one, and nothing exactly when no bucket has one |
| ReadyQueues.Scheduler.PullNextRunnableThread | Kernel/Scheduler.cpp:70-106 | returns that thread, out of its bucket and active, and the idle thread exactly when none is eligible |
| ReadyQueues.Scheduler.PerformDequeue | Kernel/Scheduler.cpp:108-129 | the buckets become the old ones without the thread, whichever held it; true exactly when it is idle, or ready and allowed here |
| ReadyQueues.Scheduler.PerformPull | Kernel/Scheduler.cpp:70-106 | gets the first thread that may run here of all buckets joined in order, and the idle thread exactly when there is none |
| ReadyQueues.Run | Kernel/Scheduler.cpp:70-147 | every run of queue, dequeue, pull and switching away, from empty queues, keeps mask, buckets and every thread's bucket in agreement and ends in the buckets and active threads that the steps on plain lists give |
| ReadyQueues.PulledOnce | Kernel/Scheduler.cpp:90-101 | a thread that a processor pulled is not pulled again, even if it is queued in between, before that processor has switched from it |
| ReadyQueues.StaysActive | Kernel/Scheduler.cpp:408-411 | a thread on a processor stays active in every run that does not switch from it |
| ReadyQueues.SwitchedBack | Kernel/Scheduler.cpp:408-411 | once its processor has switched from it, a ready thread is the one pulled again where none before it may run |
| DuplexMemoryStreams.Fill | AK/MemoryStream.h:218-223 | bytes copied into the last chunk extend what the chunks hold |
| DuplexMemoryStreams.DropFirst | AK/MemoryStream.h:251-257 | dropping a chunk that was read keeps the rest in place |
| DuplexMemoryStreams.DuplexMemoryStream.Write | AK/MemoryStream.h:213-227 | the unread bytes are the old ones and the new ones, across every chunk border |
| DuplexMemoryStreams.DuplexMemoryStream.ReadWithoutConsuming | AK/MemoryStream.h:178-188 | the first unread bytes, as many as asked for or there are |
| DuplexMemoryStreams.DuplexMemoryStream.Read | AK/MemoryStream.h:190-201 | the same, and they are no longer unread; nothing after an error |
| DuplexMemoryStreams.DuplexMemoryStream.DiscardOrError | AK/MemoryStream.h:141-151 | drops the first unread bytes, or sets the error exactly when there are fewer |
| DuplexMemoryStreams.DuplexMemoryStream.OffsetOf | AK/MemoryStream.h:153-176 | the first occurrence in the unread bytes, or none exactly when there is none |
| DuplexMemoryStreams.Run | AK/MemoryStream.h:141-257 | in every run what was read and discarded is a prefix of what was written, and the rest is still there |
| CircularStreams.CircularQueue.Enqueue | AK/CircularQueue.h:38-50 | a queue of at most the capacity, dropping the oldest element when full |
| CircularStreams.CircularQueue.Dequeue | AK/CircularQueue.h:52-61 | returns and drops the oldest element |
| CircularStreams.CircularQueue.At | AK/CircularQueue.h:63-63 | the element at the index, oldest first |
| CircularStreams.CircularDuplexStream.Write | AK/CircularDuplexStream.h:13-22 | takes as many bytes as there is room for, in order |
| CircularStreams.CircularDuplexStream.Read | AK/CircularDuplexStream.h:36-47 | the first unread bytes, as many as asked for or there are |
| CircularStreams.CircularDuplexStream.DiscardOrError | AK/CircularDuplexStream.h:77-88 | drops the first unread bytes, or sets the error exactly when there are fewer |
| CircularStreams.CircularDuplexStream.ReadBack | AK/CircularDuplexStream.h:49-64 | the last `seekback` bytes ever written, whatever was read or discarded since; an error exactly when there were not so many or the ring is smaller |
| CircularStreams.CircularDuplexStream.ReserveContiguousSpace | AK/CircularDuplexStream.h:98-108 | the span after the unread bytes counts as written, with what is in it |
| CircularStreams.CircularDuplexStream.FillSpan | AK/CircularDuplexStream.h:98-108 | filling a span that is still in the ring, at any later time, changes those bytes of what was written and no others |
| CircularStreams.CircularDuplexStream.ReserveAndFill | AK/CircularDuplexStream.h:98-108 | reserving a span and filling it at once is writing those bytes |
| Times.SaneMod | AK/Time.h:82-97 | floor division out of truncating division, for every 64-bit numerator |
| Times.FromNanoseconds | AK/Time.h:110-114 | exact for every 64-bit count |
| Times.FromMicroseconds | AK/Time.h:115-119 | exact for every 64-bit count |
| Times.FromMilliseconds | AK/Time.h:120-124 | exact for every 64-bit count |
| Times.FromHalfSanitized | AK/Time.cpp:264-284 | the nearest time to the exact sum |
| Times.FromTimespec | AK/Time.cpp:49-54 | the nearest time to the exact value, nanoseconds out of range or negative included |
| Times.FromTimeval | AK/Time.cpp:55-61 | the nearest time to the exact value, microseconds out of range or negative included |
| Times.ToTruncatedSeconds | AK/Time.cpp:63-71 | the exact time rounded towards zero |
| Times.ToSeconds | AK/Time.cpp:108-117 | the exact time rounded away from zero, clamped to 64 bits |
| Times.ConvertClamps | AK/Time.cpp:118-163 | the overflow flag of the checked steps is set exactly when the exact result is out of range |
| Times.ToTruncatedMilliseconds | AK/Time.cpp:72-89 | the exact time rounded towards zero, clamped to 64 bits |
| Times.ToTruncatedMicroseconds | AK/Time.cpp:90-107 | the exact time rounded towards zero, clamped to 64 bits |
| Times.ToMilliseconds | AK/Time.cpp:118-133 | the exact time rounded away from zero, clamped to 64 bits |
| Times.ToMicroseconds | AK/Time.cpp:134-149 | the exact time rounded away from zero, clamped to 64 bits |
| Times.ToNanoseconds | AK/Time.cpp:150-163 | the exact time, clamped to 64 bits |
| Times.ToTimeval | AK/Time.cpp:169-173 | the exact time rounded down to microseconds, in normal form |
| Times.Plus | AK/Time.cpp:175-214 | the exact sum, clamped to the least and greatest time |
| Times.Minus | AK/Time.cpp:222-239 | the exact difference, clamped to the least and greatest time |
| Times.Less | AK/Time.cpp:247-250 | orders times by their exact values |
| Times.NanosecondsRoundTrip | AK/Time.cpp:150-163 | to_nanoseconds undoes from_nanoseconds on every 64-bit count |
| Times.PlusMinus | AK/Time.cpp:175-239 | subtracting undoes adding if and only if the exact sum is in range |

## Left out

- RedBlackTrees.RedBlackTree.Remove: says nothing about the cached minimum of an empty tree, because the code leaves it stale.
- Bitmaps.BitmapView.FindOneAnywhere: does not say what is read outside the bytes of the bitmap, because nothing is known of it.
- Bitmaps.BitmapView.SetRange: does not say what the data holds after a failed VERIFY, because the program stops there.
- HashTables.HashTable.Set: a probe that never ends is reported as an outcome, because nothing makes double_hash visit every bucket; the iterator and the end-of-table bucket are not modelled.
- TimerQueues.Run: the callback of a timer is told which one it holds, and each thread where it was, by the state of the run, because stacks are not modelled.
- TimerRuns.StepInv: a timer is added only while no list holds it, because the code's own flag for this is never set; reference counts and the remaining time of a timer are not modelled.
- WeakLinks.StepInv: does not model make_weak_ptr and m_being_destroyed, because the link exists before the race starts; nor the callbacks of unref.
- JsonPrinter.StringBuilder.PutU64: models the empty format specifier only, because JSON uses no other.
- JsonText.WholeTextReads: covers numbers without fraction and exponent, because the kernel build has no doubles; nor does it say which other texts outside RFC 8259 are accepted.
- Doubles in JSON and all floating-point formatting: the kernel build has none.
- RefPtr::swap and assign_if_null: they do not promise to conserve references.
- Weak memory ordering, the blocking and waking of threads, and liveness under a scheduler.
- IntrusiveRedBlackTree, predecessor and the iterators: they would only add easy members.
- find_best_fit and find_longest_range_of_unset_bits: they rest on a search that can start before the bit it is given (Bitmaps.MovedBack).
- Calendar functions of Time.h, timespec and timeval helpers: they would only add easy members.
- Context switching, interrupts, hardware access, files, system calls and the rest of the kernel.
- Vector, Span, Optional, Function and the other plain containers of AK.

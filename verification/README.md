# pvz2vita: verified models of the loader and the fake Java layer

A Dafny model of the parts of the PS Vita port that carry state, protocol or arithmetic, with proofs of what they are
for. `dafny verify dfyconfig.toml` checks everything. The modules follow the program:

- **Tracked objects** (`object_graph`, `jni_objects`): reference counts over a graph in which object arrays own
  references to their members, and the recursive destructor. Each counter equals its number of holders in every
  reachable state, so no live slot names a freed object; a release frees exactly the complete cascade, each object
  once.
- **The tracking table** (`tracker_table`, `tracked_refs`, `tracker_threads`, `tracker_refines`, `tracker_history`):
  bucket chains, record pool and free list as values, as linked records updated in place, and as a step system of any
  number of threads in which every locked section is one step. The table refines the map of the object graph, and
  after any run it is the map that the calls themselves make.
- **Class names** (`class_names`): the lookup, unlock, allocate, look up again pattern under many threads.
- **Deferred downloads** (`glu_downloads`, `glu_calls`): the single-producer single-consumer ring, one shared access
  at a time, including the read of a path slot after the tail has moved past it, and what the callback hears of which
  call.
- **Strings** (`mutf8`, `strict_utf`, `strict_converter`, `java_strings`): two independent transcoders, each as loops
  over buffers with a sizing and a writing pass, their round trips, their agreement, and the strings built with them.
- **SHA-1** (`sha1_spec`, `sha1_context`): FIPS 180-4 as mathematics, and the buffered context that refines it.
- **The loader** (`so_segments`, `so_load`, `so_relocate`, `so_hash`, `so_symbols`): segment mapping with cleanup on
  every failure, relocation and import resolution in two passes over byte memory, hashed symbol lookup with a linear
  fallback.
- **The rewriter** (`ldm_rewrite`, `so_arena`): LDMIA as single loads with ARM semantics for both, the two-arena
  allocator, the branch encoder, and the pass that moves every LDMIA of a function out of line. `so_image` shows that
  the arenas a load leaves are what the rewriter needs.
- **Input** (`input_packet`, `input_queue`, `touch_contacts`): the packet writer and a reader for it, the drop-oldest
  ring, and the touch contacts.
- **Config store** (`config_table`, `config_store`, `config_runs`): a table with swap-with-last deletion as a finite
  map, its file, and whole runs with restarts.

Code that changes memory is modelled by classes and array methods proved against functions on values; the lemmas about
those functions state the main results, many of them in terms of the standards or of the calls alone. `basics` holds
shared types and facts. Bytes, words and addresses are integers in their range with wrap-around written out, except
for SHA-1, the symbol hash and the bucket function, which use bit vectors.

Where code and comments disagree, the model follows the code:

- The word behind the emitted jump is the address of the LDMIA plus one, not plus four (`so_util.c:671`).
- The range test is biased by eight words, not by eight bytes, because it adds to a pointer to words (`so_util.c:59`,
  `674`).
- A list that holds both the base and PC loses the load of the base, because the delayed load comes after the jump
  (`so_util.c:653-668`). `LdmRewrite.RewriteExact` shows that this is the only such case.
- Keys of more than 95 characters are cut when stored but compared in full, so that setting one twice makes two
  entries (`java.c:748-757`). `ConfigTable.MeansSetExact` and `ConfigRuns.RunExact` say exactly when the table still
  is the map; the Java side cuts its keys before.
- Loading does not look for a key that is there already (`java.c:697-716`). `ConfigRuns.LoadDistinctExact` says which
  files give distinct keys.
- Deleting a global reference does not ask whether the caller holds one (`FalsoJNI.c:536-541`).
  `JniObjects.JniHeap.DeleteGlobalRef` says for every handle when the counts stay exact.
- The cave starts at the end of the code rounded to 4, which for an alignment below 4 may lie behind its block
  (`so_util.c:181-182`): `SoImage.CaveExact`.

What the environment decides is a parameter or a free choice: results of malloc, reads, opens, seeks and kernel
allocations (the loader keeps a record of every refusal, so that its results are stated exactly), times, file content,
the addresses malloc returns, and the content of fresh memory. A kernel block asked for at an address is placed there
or refused.

## Model

| member | source | states |
|---|---|---|
| ObjectGraph.CascadeUnique | vita/direct/lib/falso_jni/FalsoJNI.c:213-248 | Which objects die is fixed by who holds what: any two complete cascades over the same graph free the same set, in whatever order the destructor visits shared, nested or self-containing arrays |
| ObjectGraph.CascadeAppend | vita/direct/lib/falso_jni/FalsoJNI.c:213-221 | Freeing one array member after another is again one cascade: each object dies only when no outside holder and no surviving slot is left |
| ObjectGraph.CountedIsComplete | vita/direct/lib/falso_jni/FalsoJNI.c:318-365 | If the counters of the survivors equal their holders, every survivor still has a holder, so nothing more could have been freed |
| ObjectGraph.NoDanglingSlot | vita/direct/lib/falso_jni/FalsoJNI.c:2040-2055 | In a state with exact counters no slot of a live array names an object that has been freed |
| ObjectGraph.UntrackCounted | vita/direct/lib/falso_jni/FalsoJNI.c:338-347 | Taking an object out of the table turns the references of its slots into outside references and keeps all other counters exact |
| ObjectGraph.RecountCounted | vita/direct/lib/falso_jni/FalsoJNI.c:332-336 | Changing one counter together with its holder keeps all counters exact |
| ObjectGraph.ReleaseSound | vita/direct/lib/falso_jni/FalsoJNI.c:318-361 | What giving up one reference does: the counters stay exact, and the object leaves exactly when both counters reach zero, at which time nothing holds it |
| ObjectGraph.UnheldCount | vita/direct/lib/falso_jni/FalsoJNI.c:318-336 | The global counter of an object without outside global holders is positive if and only if a slot of a live array holds it |
| ObjectGraph.StaleExact | vita/direct/lib/falso_jni/FalsoJNI.c:318-361 | A release of a global reference that nobody outside holds, of an object that slots hold, leaves exact counters if and only if it was the last reference and every other array holding the object dies by the cascade |
| ObjectGraph.OrphanedBy | vita/direct/lib/falso_jni/FalsoJNI.c:213-248 | Whether all holders of an object die with it does not depend on the complete cascade looked at |
| ObjectGraph.AddRefSound | vita/direct/lib/falso_jni/FalsoJNI.c:304-316 | One more reference to a tracked object, or to one that never will be tracked, keeps the counters exact |
| ObjectGraph.RegisterSound | vita/direct/lib/falso_jni/FalsoJNI.c:250-302 | A new entry with one local reference takes over the references its slots hold |
| ObjectGraph.StoreSound | vita/direct/lib/falso_jni/FalsoJNI.c:2071-2075 | Overwriting a slot trades one counted reference for another |
| ObjectGraph.SetElementSound | vita/direct/lib/falso_jni/FalsoJNI.c:2057-2076 | Counting the new element and overwriting the slot leaves exactly one reference to the old element to release, also when both are the same object |
| ObjectGraph.NoNetEffect | vita/direct/lib/falso_jni/FalsoJNI.c:318-361 | Between two states with the same holders nothing can have been freed and no counter has changed |
| ObjectGraph.ReleaseSettles | vita/direct/lib/falso_jni/FalsoJNI.c:318-365 | A release between two client-visible states frees a complete cascade |
| ObjectGraph.ArrayFailed | vita/direct/lib/falso_jni/FalsoJNI.c:269-274 | When there is no memory for the record of a filled array, destroying it restores the state before the call |
| JniObjects.JniHeap.constructor | vita/direct/lib/falso_jni/FalsoJNI.c:65-67 | An empty table satisfies the counting invariant |
| JniObjects.JniHeap.FreeObject | vita/direct/lib/falso_jni/FalsoJNI.c:213-248 | Destroying an untracked object releases its slots, frees its memory and a cascade of others, and leaves exact counters |
| JniObjects.JniHeap.ReleaseSlots | vita/direct/lib/falso_jni/FalsoJNI.c:218-221 | The element loop gives up the references of all slots, whatever dies on the way |
| JniObjects.JniHeap.Release | vita/direct/lib/falso_jni/FalsoJNI.c:318-365 | Drops one reference; at zero the object and everything it alone kept alive are freed, each once. Terminates on every graph, with the number of tracked objects as measure. A drop nobody has a reference for leaves what Stale says |
| JniObjects.JniHeap.AddRef | vita/direct/lib/falso_jni/FalsoJNI.c:304-316 | Adds one reference of the named kind if and only if the object is tracked |
| JniObjects.JniHeap.Register | vita/direct/lib/falso_jni/FalsoJNI.c:250-302 | Tracks a new object with one local reference, or destroys it when there is no memory for the record; a tracked object comes back unchanged, a placeholder or an unknown kind gives 0 |
| JniObjects.JniHeap.NewGlobalRef | vita/direct/lib/falso_jni/FalsoJNI.c:523-534 | Returns the same handle with one more global reference and keeps the counting invariant |
| JniObjects.JniHeap.NewLocalRef | vita/direct/lib/falso_jni/FalsoJNI.c:552-555 | Returns the same handle with one more local reference and keeps the counting invariant |
| JniObjects.JniHeap.DeleteGlobalRef | vita/direct/lib/falso_jni/FalsoJNI.c:536-541 | Frees exactly the objects whose counts fall to zero by cascading, and does nothing if no one holds a global reference. The counting invariant survives every call if and only if an object held by slots alone loses its last reference and all its holders die with it |
| JniObjects.JniHeap.DeleteLocalRef | vita/direct/lib/falso_jni/FalsoJNI.c:543-545 | The same for a local reference; without one held it changes nothing |
| JniObjects.JniHeap.FillSlots | vita/direct/lib/falso_jni/FalsoJNI.c:2030-2034 | Every slot of the new array holds the initial element and owns a reference to it |
| JniObjects.JniHeap.NewObjectArray | vita/direct/lib/falso_jni/FalsoJNI.c:2023-2038 | A new array owned by one local reference, every slot counted; on any failure the state is as before |
| JniObjects.JniHeap.GetObjectArrayElement | vita/direct/lib/falso_jni/FalsoJNI.c:2040-2055 | Returns the element with a local reference and never a freed object; 0 and no change for a missing array or a bad index |
| JniObjects.JniHeap.StoreElement | vita/direct/lib/falso_jni/FalsoJNI.c:2071-2074 | Counts the new element and writes the slot; exactly one reference to the old element is left to give up |
| JniObjects.JniHeap.SetObjectArrayElement | vita/direct/lib/falso_jni/FalsoJNI.c:2057-2076 | Writes the slot and then frees exactly what loses its last holder by it; no change for a missing array or a bad index |
| JniObjects.JniHeap.NewObject | vita/direct/lib/falso_jni/FalsoJNI.c:250-302 | Tracks strings, buffers and primitive arrays; the state is as before when tracking fails |
| TrackerThreads.BeginOk | vita/direct/lib/falso_jni/FalsoJNI.c:257-267 | The first locked section of a registration moves one record from pool or free list to the caller, or finds the object known, and keeps the table consistent |
| TrackerThreads.CommitOk | vita/direct/lib/falso_jni/FalsoJNI.c:283-301 | The second one puts the private record into its bucket, or gives it back when another thread was faster |
| TrackerThreads.AddRefOk | vita/direct/lib/falso_jni/FalsoJNI.c:304-316 | Counting moves no record |
| TrackerThreads.ReleaseOk | vita/direct/lib/falso_jni/FalsoJNI.c:318-356 | Unlinking moves one record from its chain to the free list or to the caller |
| TrackerThreads.StepInv | vita/direct/lib/falso_jni/FalsoJNI.c:250-365 | Every step of every thread keeps the invariant: each record that exists is in exactly one place, chains are free of duplicates and in their own bucket, counters match |
| TrackerThreads.RunInv | vita/direct/lib/falso_jni/FalsoJNI.c:250-365 | The invariant holds after every interleaving of any number of threads |
| TrackerThreads.ReachableRecords | vita/direct/lib/falso_jni/FalsoJNI.c:63-85 | In every reachable state a pool record is never used or in exactly one of free list, chains and private hands, no two threads share a record, and live = created - freed = total chain length in 32-bit counters |
| TrackerThreads.OneRecordPerObject | vita/direct/lib/falso_jni/FalsoJNI.c:283-299 | In every reachable state two records of one object are the same record of the same chain |
| TrackerRefines.AddRefRefines | vita/direct/lib/falso_jni/FalsoJNI.c:304-316 | The chained table does to the map from objects to counts what the object-graph operation says |
| TrackerRefines.RegisterRefines | vita/direct/lib/falso_jni/FalsoJNI.c:276-301 | Linking a record adds the entry with one local reference |
| TrackerRefines.RegisterKnown | vita/direct/lib/falso_jni/FalsoJNI.c:258-265 | A registration that finds the object known changes nothing |
| TrackerRefines.ReleaseRefines | vita/direct/lib/falso_jni/FalsoJNI.c:318-361 | For every map the table represents: the walk finds the object exactly if it is tracked, unlinks it exactly with its last reference, and reports the kind it was registered with |
| TrackerRefines.RegisterMeans | vita/direct/lib/falso_jni/FalsoJNI.c:250-302 | The two sections of a registration leave a known object as it is and give an unknown one an entry with one local reference |
| TrackerHistory.RunRepresents | vita/direct/lib/falso_jni/FalsoJNI.c:250-365 | Over any interleaving the table is the map of counts that the calls themselves make: an entry comes with the first registration to reach its second section, counts every reference added and dropped, and goes with the last one |
| TrackerHistory.DestroyedAsRegistered | vita/direct/lib/falso_jni/FalsoJNI.c:343-361 | In every reachable state a release destroys an object exactly if it gives up the last reference, and under the kind it was registered with |
| TrackerHistory.NeedsMalloc | vita/direct/lib/falso_jni/FalsoJNI.c:74-80 | In every reachable state a registration needs malloc exactly when its object is unknown, the free list empty and all 128 records used |
| TrackedRefs.RefTable.constructor | vita/direct/lib/falso_jni/FalsoJNI.c:65-73 | Empty buckets, empty free list and an unused pool |
| TrackedRefs.RefTable.TakeLocked | vita/direct/lib/falso_jni/FalsoJNI.c:74-80 | Free list first, then the next unused pool record, else none; the record belongs to the caller alone |
| TrackedRefs.RefTable.ReturnLocked | vita/direct/lib/falso_jni/FalsoJNI.c:81-85 | A pool record goes to the front of the free list, any other one is refused |
| TrackedRefs.RefTable.FindLocked | vita/direct/lib/falso_jni/FalsoJNI.c:200-209 | Follows the links of the one bucket to the record of the object, null if it has none |
| TrackedRefs.RefTable.AddRefLocked | vita/direct/lib/falso_jni/FalsoJNI.c:304-316 | The linked records hold the table with the one counter increased, and so the map with it |
| TrackedRefs.RefTable.RegisterBeginLocked | vita/direct/lib/falso_jni/FalsoJNI.c:257-267 | The linked records hold what the first section of a registration says; the object is reported known exactly if the map has it |
| TrackedRefs.RefTable.RegisterCommitLocked | vita/direct/lib/falso_jni/FalsoJNI.c:283-301 | The map gains the entry with its kind and one local reference if it has none; tells whether the caller must free the record |
| TrackedRefs.RefTable.LinkLocked | vita/direct/lib/falso_jni/FalsoJNI.c:295-299 | The private record becomes the head of its bucket chain, counted as live and created |
| TrackedRefs.RefTable.UnlinkLocked | vita/direct/lib/falso_jni/FalsoJNI.c:338-347 | The record is bypassed from its predecessor or the bucket head, the rest of the chain stays |
| TrackedRefs.RefTable.ReleaseLocked | vita/direct/lib/falso_jni/FalsoJNI.c:318-361 | The walk with a pointer to the link: counts down, unlinks at zero, and reports the object, the kind that the map has for it, and the record left to free |
| ClassNames.StepInv | vita/direct/lib/falso_jni/FalsoJNI.c:131-168 | Every step of every caller keeps names distinct and every copy owned by one list entry or one caller, across the unlock between lookup and allocation |
| ClassNames.RunInv | vita/direct/lib/falso_jni/FalsoJNI.c:131-168 | The same after every interleaving: no copy is lost or freed while it is in use |
| ClassNames.SameNameSameHandle | vita/direct/lib/falso_jni/FalsoJNI.c:131-168 | Over any interleaving two calls that succeed return the same handle if and only if they asked for the same name |
| ClassNames.CallsAnswered | vita/direct/lib/falso_jni/FalsoJNI.c:131-168 | Over any interleaving every call that has returned gives back the name it asked for with a handle, unless its own allocation failed; a name that is known comes back at once |
| ClassNames.NeverStuck | vita/direct/lib/falso_jni/FalsoJNI.c:131-168 | A caller always has a step to take, and only the one its place in the function allows |
| ClassNames.HandleStays | vita/direct/lib/falso_jni/FalsoJNI.c:163-166 | A name keeps its address in the list whatever comes later |
| GluDownloads.ProducerInv | vita/direct/lib/falso_jni/FalsoJNI.c:850-856 | Every single write of the producer keeps the ring invariant: it never touches the slot the drain is reading |
| GluDownloads.ConsumerInv | vita/direct/lib/falso_jni/FalsoJNI.c:915-922 | Every single step of the drain keeps the invariant, the reads after the tail has moved included |
| GluDownloads.RunInv | vita/direct/lib/falso_jni/FalsoJNI.c:836-858 | The invariant holds after every interleaving of single accesses |
| GluDownloads.StepCloser | vita/direct/lib/falso_jni/FalsoJNI.c:915-922 | While anything is outstanding every access of the drain comes closer to a delivery |
| GluCalls.FifoDelivery | vita/direct/lib/falso_jni/FalsoJNI.c:836-858 | Over any interleaving the callback has received a prefix of this list: for each returned call that met fewer than 31 waiting completions, in the order of the calls and each once, its handle and the first 255 bytes of its destination; at most 31 wait and one more is in the hands of the drain |
| GluCalls.EmptyMeansDelivered | vita/direct/lib/falso_jni/FalsoJNI.c:915-922 | When the drain finds the ring empty, that whole list has been delivered |
| GluCalls.AllDelivered | vita/direct/lib/falso_jni/FalsoJNI.c:912-923 | From every reachable state finitely many steps of the drain alone deliver the whole list |
| GluCalls.CallReturns | vita/direct/lib/falso_jni/FalsoJNI.c:850-857 | A call that has begun returns after at most 261 accesses of its own, whatever the drain does |
| GluCalls.FrameBound | vita/direct/lib/falso_jni/FalsoJNI.c:914-923 | At most eight completions are delivered in a frame, and a frame ends only with an empty ring or after eight |
| GluDownloads.RefusedWhenFull | vita/direct/lib/falso_jni/FalsoJNI.c:850-851 | A completion is turned away exactly when 31 are waiting |
| Mutf8.RoundTrip | vita/direct/lib/falso_jni/jni_string_codec.h:10-71 | Decoding what was encoded gives back every sequence of UTF-16 units, lone surrogates and NULs included |
| Mutf8.NormalizeIdempotent | vita/direct/lib/falso_jni/jni_string_codec.h:10-71 | On arbitrary bytes, encoding after decoding once is the same as twice |
| Mutf8.EncodedIsCanonical | vita/direct/lib/falso_jni/jni_string_codec.h:10-32 | Output is modified UTF-8 in shortest form without NUL bytes ("Modified UTF-8 Strings", chapter 3 of the JNI Specification) |
| Mutf8.LosslessIffCanonical | vita/direct/lib/falso_jni/jni_string_codec.h:37-71 | Decoding and encoding gives the same bytes if and only if they are canonical |
| Mutf8.EncodeConcat | vita/direct/lib/falso_jni/jni_string_codec.h:10-32 | The encoding of a concatenation is the concatenation of the encodings |
| Mutf8.EncodeInto | vita/direct/lib/falso_jni/jni_string_codec.h:10-32 | The sizing pass and the writing pass return the same number, the writing pass writes exactly the encoding and nothing behind it |
| Mutf8.DecodeInto | vita/direct/lib/falso_jni/jni_string_codec.h:37-71 | The same for decoding arbitrary bytes, never reading past the end |
| Mutf8.DecodeOne | vita/direct/lib/falso_jni/jni_string_codec.h:39-59 | The branches of the decoder at one position compute the specified unit and length |
| Mutf8.NextExact | vita/direct/lib/falso_jni/jni_string_codec.h:39-71 | Byte range by byte range, what the decoder accepts and as which number; anything else is U+FFFD for one byte |
| StrictUtf.AlwaysWellFormed | vita/direct/lib/falso_jni/converter.c:180-197 | Whatever the input, the output of both directions is well-formed (sections 3 and 4 of RFC 3629, section 2 of RFC 2781) |
| StrictUtf.Utf8RoundTrip | vita/direct/lib/falso_jni/converter.c:325-342 | UTF-8 survives the trip through UTF-16 if and only if it is well-formed |
| StrictUtf.Utf16RoundTrip | vita/direct/lib/falso_jni/converter.c:180-197 | UTF-16 survives the trip through UTF-8 if and only if it is well-formed |
| StrictUtf.DecodersAgree | vita/direct/lib/falso_jni/converter.c:207-271 | On every well-formed UTF-8 string the strict decoder and the JNI decoder agree unit for unit |
| StrictUtf.SequenceDecodes | vita/direct/lib/falso_jni/converter.c:207-271 | Every sequence of RFC 3629 is decoded by both decoders to the scalar that encodes to the same bytes |
| StrictUtf.IllFormed8 | vita/direct/lib/falso_jni/converter.c:207-271 | Bytes that start no sequence of RFC 3629 are one U+FFFD; used up are the first byte and the trailing bytes behind it, as many as it announces |
| StrictUtf.Point16Exact | vita/direct/lib/falso_jni/converter.c:86-121 | A unit outside the surrogates is itself, a high and a low one are the pair, any other is U+FFFD for one unit |
| StrictConverter.DecodeUtf16 | vita/direct/lib/falso_jni/converter.c:86-121 | Reads one code point, pairing surrogates; a lone one becomes U+FFFD and consumes one unit |
| StrictConverter.EncodeUtf8 | vita/direct/lib/falso_jni/converter.c:151-178 | Writes one code point of one to four bytes, or nothing if it does not fit |
| StrictConverter.DecodeUtf8 | vita/direct/lib/falso_jni/converter.c:207-271 | Reads one code point; malformed, overlong, surrogate and too large sequences become U+FFFD |
| StrictConverter.EncodeUtf16 | vita/direct/lib/falso_jni/converter.c:292-322 | Writes one or two units, or nothing if they do not fit |
| StrictConverter.Utf16ToUtf8 | vita/direct/lib/falso_jni/converter.c:180-197 | Sizing returns the length of the conversion; a buffer of that size receives exactly the conversion, a smaller one skips what does not fit |
| StrictConverter.Utf8ToUtf16 | vita/direct/lib/falso_jni/converter.c:325-342 | The same in the other direction |
| StrictConverter.Fit8All | vita/direct/lib/falso_jni/converter.c:180-197 | A buffer of the sized length loses nothing |
| StrictConverter.Fit16All | vita/direct/lib/falso_jni/converter.c:325-342 | A buffer of the sized length loses nothing |
| JavaStrings.JavaString.Utf16ToUtf8 | vita/direct/lib/falso_jni/FalsoJNI_ImplBridge.c:454-475 | Succeeds exactly when there are units, their encoding is shorter than INT_MAX and memory is there, for a new or an existing array, and then the bytes are the encoding plus one NUL |
| JavaStrings.JavaString.Utf8ToUtf16 | vita/direct/lib/falso_jni/FalsoJNI_ImplBridge.c:477-498 | Succeeds exactly when there are bytes and memory, for a new or an existing array, and then the units are the decoding of the bytes without their terminator |
| JavaStrings.NewString | vita/direct/lib/falso_jni/FalsoJNI.c:1944-1957 | A string with the given units and their encoding plus one NUL, tracked with one local reference, exactly when argument, encoding length and every allocation allow it; otherwise null, all blocks taken are freed and nothing is tracked |
| JavaStrings.NewStringUTF | vita/direct/lib/falso_jni/FalsoJNI.c:1976-1991 | The same from a C string: the decoded units and their canonical encoding plus one NUL |
| JavaStrings.Publish | vita/direct/lib/falso_jni/FalsoJNI.c:269-274 | A complete string is tracked, or its five blocks are freed |
| JavaStrings.GetStringUTFLength | vita/direct/lib/falso_jni/FalsoJNI.c:1993-1995 | The length of the encoding without the terminator, 0 for null |
| JavaStrings.GetStringUTFChars | vita/direct/lib/falso_jni/FalsoJNI.c:1997-2006 | A copy of the encoding with its terminator |
| JavaStrings.GetStringUTFRegion | vita/direct/lib/falso_jni/FalsoJNI.c:2415-2425 | Writes exactly the slice of the full encoding between the encoded lengths of the two prefixes; nothing for a bad range |
| JavaStrings.RegionIsSlice | vita/direct/lib/falso_jni/FalsoJNI.c:2415-2425 | The encoding of a range of units is the range of the encoding between the encoded lengths of the prefixes |
| JavaStrings.Rebuild | vita/direct/lib/falso_jni/FalsoJNI.c:1976-2006 | The characters handed out have no NUL inside and decode to the same units |
| JavaStrings.CopyThroughUTF | vita/direct/lib/falso_jni/FalsoJNI.c:1976-2006 | A string made from the UTF-8 characters of another has the same units and the same bytes |
| Sha1Context.Expand | vita/direct/lib/sha1/sha1.c:21-31 | The eighty words of the message schedule of FIPS 180-4 section 6.1.2 |
| Sha1Context.EightyRounds | vita/direct/lib/sha1/sha1.c:32-68 | The four loops compute eighty rounds of section 6.1.2 with the functions of 4.1.1 and the constants of 4.2.1 |
| Sha1Context.Context.constructor | vita/direct/lib/sha1/sha1.c:78-91 | The initial hash value and an empty message |
| Sha1Context.Context.Transform | vita/direct/lib/sha1/sha1.c:21-76 | The compression of section 6.1.2 on the buffered block |
| Sha1Context.Context.Update | vita/direct/lib/sha1/sha1.c:93-106 | The message absorbed so far grows by exactly the given bytes |
| Sha1Context.Context.UpdateByte | vita/direct/lib/sha1/sha1.c:97-105 | One byte more, with a transform when the buffer is full |
| Sha1Context.Context.FinishBlocks | vita/direct/lib/sha1/sha1.c:108-139 | The state is the fold of the padded message: padding of section 5.1.1 in one or two blocks |
| Sha1Context.Context.FillToEnd | vita/direct/lib/sha1/sha1.c:113-127 | Both padding branches: with and without room for the length in the last block |
| Sha1Context.Context.PutLength | vita/direct/lib/sha1/sha1.c:129-138 | The message length in bits in eight big-endian bytes |
| Sha1Context.Context.Final | vita/direct/lib/sha1/sha1.c:108-149 | The output is the SHA-1 digest of everything absorbed, for every message under 2^64 bits |
| Sha1Context.PutDigest | vita/direct/lib/sha1/sha1.c:140-148 | The five words go out in big-endian order, and nothing behind them changes |
| Sha1Context.DigestOfChunks | vita/direct/lib/sha1/sha1.c:78-149 | However a message is cut into updates, the digest is that of the whole message |
| Sha1Spec.ZeroCountLeast | vita/direct/lib/sha1/sha1.c:113-127 | The number of zero bytes is the least that leaves room for the length at the end of a block |
| Sha1Spec.RotationMultiplies | vita/direct/lib/sha1/sha1.c:18-18 | Rotating left by 1, 5 and 30 multiplies by 2, 32 and 2^30 modulo 2^32 - 1 |
| Sha1Spec.RotationLaw | vita/direct/lib/sha1/sha1.c:18-18 | The rotations are those of section 3.2 of FIPS 180-4 |
| Sha1Spec.ChooseLaw | vita/direct/lib/sha1/sha1.c:39-39 | Bit by bit the first argument chooses between the other two |
| Sha1Spec.MajorityLaw | vita/direct/lib/sha1/sha1.c:55-55 | Bit by bit what at least two of the three say |
| Sha1Spec.ConstantLaw | vita/direct/lib/sha1/sha1.c:87-90 | The round constants are the whole parts of 2^30 times the square roots of 2, 3, 5 and 10 |
| Sha1Spec.WordOfBytes | vita/direct/lib/sha1/sha1.c:142-148 | The four bytes written for a word make up that word |
| LdmRewrite.DecodeEncoded | vita/direct/lib/so_util/so_util.c:40-56 | The word LDR_OFFS builds decodes to the load with those registers and that offset, no write-back (section A8.8.63 of DDI 0406C) |
| LdmRewrite.DecodeLdmEncoded | vita/direct/lib/so_util/so_util.c:649-651 | From the LDMIA word of A8.8.58 for any base and list the decoder reads that base and that list, and the pass takes it exactly for a base below 13 |
| LdmRewrite.LdmIsEncoded | vita/direct/lib/so_util/so_util.c:718-719 | Every word the pass takes is the LDMIA word of its base and list |
| LdmRewrite.LdrReadBack | vita/direct/lib/so_util/so_util.c:40-56 | Any fields of a word load are read back from its word |
| LdmRewrite.LdrIsWord | vita/direct/lib/so_util/so_util.c:40-56 | No other word is taken for a word load |
| LdmRewrite.LoadForms | vita/direct/lib/so_util/so_util.c:45-54 | Offset, pre-indexed and post-indexed loads: which address is read, and what the base becomes |
| LdmRewrite.KnownWords | vita/direct/lib/so_util/so_util.c:40-56 | Words as an assembler gives them: LDR R1, [R4, #8]; LDR R0, [SP, #-4]; LDMIA R4, {R0, R1} |
| LdmRewrite.LdmExpected | vita/direct/lib/so_util/so_util.c:643-671 | What LDMIA without write-back leaves in each register (section A8.8.58) |
| LdmRewrite.RunExpected | vita/direct/lib/so_util/so_util.c:648-668 | What the emitted loads leave in each register |
| LdmRewrite.RewritePreserves | vita/direct/lib/so_util/so_util.c:643-671 | For every base of R0 to R12, every list without both PC and base, every register file and memory: the emitted loads leave the same registers as the LDMIA, the base being listed or not |
| LdmRewrite.RewriteExact | vita/direct/lib/so_util/so_util.c:653-668 | The rewriting preserves the meaning if and only if the list does not hold both the base and the program counter |
| LdmRewrite.LoadCount | vita/direct/lib/so_util/so_util.c:645-671 | One load for each listed register, so with the jump never more than the twenty words of the buffer |
| LdmRewrite.EmitOthers | vita/direct/lib/so_util/so_util.c:651-664 | The loop over the register list emits all loads but that of the base, which it keeps |
| LdmRewrite.BuildLoads | vita/direct/lib/so_util/so_util.c:643-669 | The buffer holds the loads with the delayed one last |
| SoArena.Align4Exact | vita/direct/lib/so_util/so_util.c:630-630 | The rounded size makes room for the request if and only if the 32-bit addition does not wrap |
| SoArena.BranchExact | vita/direct/lib/so_util/so_util.c:36-60 | The branch word decodes to the destination if and only if the distance fits the 24-bit offset (section A8.8.18 of DDI 0406C) |
| SoArena.ReachBack | vita/direct/lib/so_util/so_util.c:624-634 | The range test keeps addresses of the patch arena within branch distance, up to 0x1FFFFE4 bytes behind its start |
| SoArena.ReachForward | vita/direct/lib/so_util/so_util.c:635-637 | The range test keeps addresses of the cave within branch distance, up to 0xFFFFE8 bytes behind its start |
| SoArena.PatchReachExact | vita/direct/lib/so_util/so_util.c:624-634 | Every branch that passes the range test reaches an address of the patch arena if and only if it is at most 0x1FFFFE4 bytes behind the start |
| SoArena.CaveReachExact | vita/direct/lib/so_util/so_util.c:635-637 | Every branch that passes the range test reaches an address of the cave if and only if it is at most 0xFFFFE8 bytes behind the start |
| SoArena.InstallRewrites | vita/direct/lib/so_util/so_util.c:680-684 | After the two copies the branch leads to the trampoline, and no other word has changed |
| SoArena.RewrittenKept | vita/direct/lib/so_util/so_util.c:673-684 | A trampoline stays intact while its words and its branch are not overwritten |
| SoArena.RewrittenRuns | vita/direct/lib/so_util/so_util.c:643-684 | Where the LDMIA with base R0 to R12 and a register list stood, following the branch and running one word for each listed register has the effect of that LDMIA; behind them stand the jump and its operand |
| SoArena.JumpReads | vita/direct/lib/so_util/so_util.c:670-671 | The jump is LDR PC, [PC, #-4] and takes the word behind it, which is the address of the LDMIA plus one |
| SoArena.AllDoneMeans | vita/direct/lib/so_util/so_util.c:714-723 | After the pass every LDMIA word with a base below 13 is rewritten and every other word is as it was |
| SoArena.KnownBranches | vita/direct/lib/so_util/so_util.c:60-60 | A branch to the word after next and one to itself, as an assembler gives them |
| SoArena.BuildTrampoline | vita/direct/lib/so_util/so_util.c:643-673 | The loads, the jump and its operand, in at most twenty words |
| SoArena.SoModule.constructor | vita/direct/lib/so_util/so_util.c:156-183 | Two empty arenas |
| SoArena.SoModule.AllocArena | vita/direct/lib/so_util/so_util.c:622-641 | Patch before cave, each if it has room and is in range, else 0; over any run the ranges handed out are 4-byte aligned, inside an arena and pairwise disjoint |
| SoArena.SoModule.ChoiceExact | vita/direct/lib/so_util/so_util.c:624-640 | The choice in whole numbers: bytes left behind the head, and at most 0xFFFFFF bytes between the block and the biased address |
| SoArena.AnyRange | vita/direct/lib/so_util/so_util.c:625-626 | A range of 0 admits every address |
| SoArena.SoModule.EnoughPatch | vita/direct/lib/so_util/so_util.c:714-723 | A patch block that has room for the trampolines of all LDMIAs of the function and is in range of it is enough for the pass to succeed |
| SoArena.SoModule.ReachOfChoice | vita/direct/lib/so_util/so_util.c:622-641 | A branch to the address handed out decodes to that address, for arenas within these two bounds |
| SoArena.SoModule.DoneKept | vita/direct/lib/so_util/so_util.c:703-724 | Moving a later instruction leaves all earlier trampolines as they are |
| SoArena.SoModule.TrampolineLdm | vita/direct/lib/so_util/so_util.c:643-685 | Succeeds exactly if one of the arenas has room and is in range; then the instruction becomes a branch to a fresh trampoline and no other code changes, else nothing does |
| SoArena.SoModule.FixLdmia | vita/direct/lib/so_util/so_util.c:714-723 | Succeeds exactly if every LDMIA finds room in turn; then each one with a base of R0 to R12 is moved out of line and every other word of the function stays. Code outside the function and the arenas never changes |
| SoArena.SoModule.FixSymbol | vita/direct/lib/so_util/so_util.c:703-724 | The same for the function of that name in the symbol table; without such a symbol nothing changes |
| SoArena.SoModule.ElsewhereKept | vita/direct/lib/so_util/so_util.c:714-723 | Moving one instruction changes no word outside the function and the arenas |
| SoImage.CaveExact | vita/direct/lib/so_util/so_util.c:181-182 | The 32-bit size of the cave does not wrap if and only if the end of the code rounded to 4 does not pass the end of the text block |
| SoImage.CaveFits | vita/direct/lib/so_util/so_util.c:169-182 | It does not for any alignment that is a multiple of 4 |
| SoImage.CaveWraps | vita/direct/lib/so_util/so_util.c:181-182 | With an alignment of 1 and an odd end it does |
| SoImage.PatchAligned | vita/direct/lib/so_util/so_util.c:156-169 | The patch block is a multiple of 4 long for every power of two as alignment |
| SoImage.ArenasOfLoad | vita/direct/lib/so_util/so_util.c:160-186 | The patch block below the image and the cave behind its code are placed as the rewriter requires, and the cave ends with the text block |
| SoImage.SegmentsOutside | vita/direct/lib/so_util/so_util.c:160-238 | No byte of a loaded segment lies in the patch block or in the cave |
| SoImage.Arenas | vita/direct/lib/so_util/so_util.c:156-183 | A loaded module gives the rewriter its two empty arenas |
| SoHash.StepAgrees | vita/direct/lib/so_util/so_util.c:581-590 | One character in 64 bits agrees with one in 32 bits, although a carry leaves the low word |
| SoHash.Hash | vita/direct/lib/so_util/so_util.c:581-590 | The System V gABI hash (chapter 5, "Hash Table") for every name, below 2^28 |
| SoHash.KnownHash | vita/direct/lib/so_util/so_util.c:581-590 | The hash of "printf" is 0x077905A6 |
| SoSymbols.SymbolIndex | vita/direct/lib/so_util/so_util.c:592-615 | First match along the hash chain, else the lowest match at all; ends on every acyclic chain |
| SoSymbols.FindExact | vita/direct/lib/so_util/so_util.c:592-615 | -1 if and only if no symbol of that name has a section and a type byte other than 0; with unique names the result is that of the linear scan, even if the hash table is incomplete |
| SoSymbols.ImportsNotFound | vita/direct/lib/so_util/so_util.c:600-601 | An import entry is never found, whatever stands before it |
| SoSymbols.RankIrrelevant | vita/direct/lib/so_util/so_util.c:599-605 | The result along a chain does not depend on how its acyclicity is witnessed |
| SoSymbols.Walk | vita/direct/lib/so_util/so_util.c:594-605 | The walk from the bucket of the hash |
| SoSymbols.Scan | vita/direct/lib/so_util/so_util.c:608-614 | The lowest match of the whole table |
| SoSymbols.SymbolAddress | vita/direct/lib/so_util/so_util.c:687-693 | Base plus value of the symbol found, 0 if there is none |
| SoSymbols.ResolveLink | vita/direct/lib/so_util/so_util.c:408-431 | Dependencies in their order, for each the modules in load order, the first nonzero address |
| SoSymbols.LinkOf | vita/direct/lib/so_util/so_util.c:412-422 | One dependency: all other modules with that name, first nonzero address |
| SoSymbols.LinkExact | vita/direct/lib/so_util/so_util.c:408-431 | 0 if and only if no loaded dependency defines the name at a nonzero address |
| SoSymbols.LinkFirst | vita/direct/lib/so_util/so_util.c:408-431 | A link that is not 0 is the address of an eligible symbol in the first module of the first dependency that offers one; all that come before in that order offer 0 |
| SoRelocate.AfterBoth | vita/direct/lib/so_util/so_util.c:371-535 | Both passes on one cell give what section 4.6 of ELF for the Arm Architecture (IHI 0044) asks for, with the addend applied once: table before link before weak, else unchanged |
| SoRelocate.WantedDefined | vita/direct/lib/so_util/so_util.c:386-399 | By the numbers of the kinds: 23 is B + A, 2 is S + A, 21 and 22 are S, with S of a symbol the object defines |
| SoRelocate.WantedImported | vita/direct/lib/so_util/so_util.c:491-530 | For an import: the first table entry of its name, else the link, else 0 exactly for binding 2; in every other case, and only then, it is counted and its cell stays |
| SoRelocate.PassCell | vita/direct/lib/so_util/so_util.c:371-404 | A pass does its work on each cell once, on what the cell held before the pass, for cells of four bytes that do not overlap |
| SoRelocate.PassOutside | vita/direct/lib/so_util/so_util.c:371-404 | A pass leaves every byte alone that belongs to no cell |
| SoRelocate.LinkedCell | vita/direct/lib/so_util/so_util.c:371-535 | After relocating and resolving, every cell that shares no byte with another is as the standard wants it |
| SoRelocate.LinkedOutside | vita/direct/lib/so_util/so_util.c:371-535 | Every byte outside the cells is as before both passes |
| SoRelocate.OverlapSpoils | vita/direct/lib/so_util/so_util.c:386-390 | Two relocations two bytes apart spoil the first cell |
| SoRelocate.Image.Relocate | vita/direct/lib/so_util/so_util.c:371-406 | The first pass over all relocations; it stops the process at the first unknown kind, and only there |
| SoRelocate.Image.RelocateOne | vita/direct/lib/so_util/so_util.c:373-402 | One relocation of the first pass |
| SoRelocate.Image.Resolve | vita/direct/lib/so_util/so_util.c:477-537 | The second pass; the result is the number of imports that nothing provides and that are not weak |
| SoRelocate.Image.ResolveOne | vita/direct/lib/so_util/so_util.c:480-533 | One relocation of the second pass; only imports of the three symbol kinds are looked up |
| SoRelocate.Image.ResolveImport | vita/direct/lib/so_util/so_util.c:491-530 | One import: link, then table over it, else the addend if weak, else unresolved |
| SoRelocate.WantedImport | vita/direct/lib/so_util/so_util.c:491-530 | What the standard wants for an import, by what table and modules say |
| SoRelocate.LookUp | vita/direct/lib/so_util/so_util.c:509-516 | The first table entry with the name |
| SoSegments.AlignUnique | vita/direct/lib/so_util/so_util.c:156-169 | The rounded address is the only multiple of the alignment in reach |
| SoSegments.ExtentOf | vita/direct/lib/so_util/so_util.c:143-152 | The last executable PT_LOAD gives the end of the image, the last one with an alignment gives the alignment |
| SoSegments.ExtentNone | vita/direct/lib/so_util/so_util.c:143-154 | Without executable code the end is 0, without an alignment it is a page |
| SoSegments.WithSegmentLoaded | vita/direct/lib/so_util/so_util.c:189-201 | The two copies leave the file bytes followed by zeros, and every disjoint segment as it was |
| SoSegments.DataCountIs | vita/direct/lib/so_util/so_util.c:204-208 | One data block for each PT_LOAD that starts at or behind the end of the executable image |
| SoSegments.LayoutBounded | vita/direct/lib/so_util/so_util.c:142-240 | Segments that are disjoint and in order of their blocks are copied inside blocks |
| SoSegments.PageLayoutSuffices | vita/direct/lib/so_util/so_util.c:142-240 | Ascending segments that are disjoint after rounding to a common page size are all the loader needs |
| SoSegments.DataEndBelow | vita/direct/lib/so_util/so_util.c:204-224 | No data block reaches into a later segment |
| SoLoad.EndBehind | vita/direct/lib/so_util/so_util.c:204-224 | Every block ends at or behind the segment it is for |
| SoLoad.PlacedStep | vita/direct/lib/so_util/so_util.c:189-238 | Copying one more segment keeps the others in place |
| SoLoad.PlacedReads | vita/direct/lib/so_util/so_util.c:189-201 | A reader of a segment in place finds the bytes of the file and zeros behind them, inside one of the blocks |
| SoLoad.Module.Extent | vita/direct/lib/so_util/so_util.c:143-152 | End and alignment of the last executable segment |
| SoLoad.Module.CopyText | vita/direct/lib/so_util/so_util.c:188-201 | All copies for segments below the end of the executable one stay inside the text block; if segments are disjoint, all are in place |
| SoLoad.Module.MapOne | vita/direct/lib/so_util/so_util.c:208-236 | A block behind the previous one that contains the segment; if segments are disjoint, it and all before it are in place |
| SoLoad.Module.MapData | vita/direct/lib/so_util/so_util.c:204-238 | A block for every data segment. Without a refusal it succeeds exactly for at most four, else -1; a refusal is what it returns |
| SoLoad.Module.Release | vita/direct/lib/so_util/so_util.c:294-301 | Every block of the module and the staging block are freed, each once |
| SoLoad.Module.Load | vita/direct/lib/so_util/so_util.c:121-304 | For every image whose copies stay inside blocks: succeeds exactly if magic number, headers and sections are in order and no allocation is refused, with -1, -2 or the refusal otherwise. Success frees the staging block, owns the others once each and appends the module to the list; failure leaves exactly the blocks from before without the staging block. If segments are disjoint, success leaves every one equal to its file bytes followed by zeros |
| SoLoad.FileLoad | vita/direct/lib/so_util/so_util.c:322-369 | The same from a file: size, magic number, headers and sections in order and no open, seek, allocation or read refused. For every pattern of refusals the file is closed once and the staging block freed once, and a load that fails leaves no block |
| SoLoad.ReadAll | vita/direct/lib/so_util/so_util.c:353-366 | Pieces of any size add up to the file unless a read fails or ends early, which is -1 |
| SoLoad.Stage | vita/direct/lib/so_util/so_util.c:329-351 | The staging block, or nothing at all: -1 for a size or seek, the refusal otherwise |
| InputPacket.PacketParses | vita/direct/source/java.c:293-338 | Reading a packet by the kind of each record gives back exactly its events, whatever lies behind it |
| InputPacket.ParseEncoded | vita/direct/source/java.c:308-329 | Each record reads back as its event: ids, both positions, time, phase; key code and action; text with its length |
| InputPacket.ParseAllEncoded | vita/direct/source/java.c:299-335 | Records one after the other read back in order |
| InputPacket.WordAt | vita/direct/source/java.c:286-291 | A little-endian word reads back |
| InputPacket.TouchBytes | vita/direct/source/java.c:308-317 | The 48 bytes of a touch record by offset: 0, id, position twice, time, phase, zeros elsewhere |
| InputPacket.KeyBytes | vita/direct/source/java.c:318-323 | The 32 bytes of a key record by offset: 1, code, 0, then 0 for down and 1 for up, time, zeros |
| InputPacket.TextBytes | vita/direct/source/java.c:324-329 | A text record by offset: 6, 0, number of bytes, the bytes, zeros to a multiple of four |
| InputPacket.PacketBytes | vita/direct/source/java.c:293-297 | A packet starts with the number of events and twelve zeros; one more event adds its record behind the others |
| Basics.KnownWord | vita/direct/source/java.c:286-291 | The lowest byte of a word comes first |
| InputPacket.WriteEvent | vita/direct/source/java.c:306-329 | Exactly one record is written at the cursor, and nothing else in the buffer changes |
| InputPacket.PutU32 | vita/direct/source/java.c:286-291 | Four bytes, the lowest first, and nothing else |
| InputQueue.FittingExact | vita/direct/source/java.c:299-304 | Everything that is delivered fits and the next event would not have |
| InputQueue.FilledParses | vita/direct/source/java.c:293-338 | The drained buffer reads back as the delivered events and is untouched behind them |
| InputQueue.RunFair | vita/direct/source/java.c:232-338 | Over any mix of enqueues and drains events come out in order of arrival, none twice, and event n is lost only once event n + 64 has come |
| InputQueue.AfterQueued | vita/direct/source/java.c:232-338 | One enqueue or drain is one step of the run |
| InputQueue.Queue.constructor | vita/direct/source/java.c:218-220 | An empty ring |
| InputQueue.Queue.Enqueue | vita/direct/source/java.c:232-240 | The 64-slot ring is a bounded sequence that drops its oldest element when full |
| InputQueue.Queue.Drain | vita/direct/source/java.c:293-338 | The longest run of events that fits goes into the buffer as one packet, the rest stays queued in order, and nothing is written behind the packet; a missing or too small buffer changes nothing |
| TouchContacts.PushedInv | vita/direct/source/java.c:242-267 | Every call keeps the stream legal: a DOWN only for an idle source and under the next id, everything else under the id of the open contact |
| TouchContacts.CallAdds | vita/direct/source/java.c:242-267 | What one call adds: nothing for a bad source or an idle one without a DOWN, one event under the live id for any other phase, and for a DOWN one under a fresh id, after an UP under the old one exactly if the source was live |
| TouchContacts.RunTells | vita/direct/source/java.c:242-267 | Over any calls the events of each source, with phase, position and time, are those that follow from the calls of that source alone, in their order |
| TouchContacts.RunInv | vita/direct/source/java.c:242-267 | The same after any calls, and the table of ids always names the open contacts |
| TouchContacts.SourceGrammar | vita/direct/source/java.c:242-267 | The events of each source are whole contacts DOWN, MOVE..., UP under one non-zero id, with at most one still open at the end; a repeated DOWN first closes the earlier one |
| TouchContacts.SharedIdIsOld | vita/direct/source/java.c:248-250 | Two live sources share an id only if at least 2^32 - 1 contacts began since the older of the two did |
| TouchContacts.RunSharedIdIsOld | vita/direct/source/java.c:242-267 | The same for the table of ids after any sequence of calls |
| TouchContacts.LiveIdsApart | vita/direct/source/java.c:248-250 | Live ids differ in any run of fewer than 2^32 - 1 contacts |
| TouchContacts.OpenBegan | vita/direct/source/java.c:244-252 | An open contact began with a DOWN of its source, whose number gives its id |
| TouchContacts.Touches.constructor | vita/direct/source/java.c:221-224 | No contact and the first id |
| TouchContacts.Touches.Begin | vita/direct/source/java.c:248-250 | The next id that is not 0 |
| TouchContacts.Touches.Send | vita/direct/source/java.c:253-262 | The event goes to the queue, and UP forgets the contact |
| TouchContacts.Touches.PushTouch | vita/direct/source/java.c:242-267 | The queue receives exactly the events of the call: none, one under the live id, or for a DOWN the UP of a live contact and then the DOWN under a fresh id |
| ConfigTable.MeansSetExact | vita/direct/source/java.c:745-762 | Setting is the update of a finite map of at most 256 keys if and only if the key fits 95 characters or the table is full |
| ConfigTable.MeansSet | vita/direct/source/java.c:745-762 | For a key that fits: overwritten, appended, or refused by a full table, as in the map |
| ConfigTable.MeansErase | vita/direct/source/java.c:764-777 | Erasing with the last entry moved into the gap is removal from the map |
| ConfigTable.MeansFind | vita/direct/source/java.c:729-733 | The search finds a key exactly if the map has it, and its value |
| ConfigTable.MeansSize | vita/direct/source/java.c:687-691 | The count is the size of the map |
| ConfigTable.DistinctExact | vita/direct/source/java.c:748-757 | Setting keeps keys distinct if and only if the key fits, the table is full or the cut key is not there yet |
| ConfigTable.LongKeyTwice | vita/direct/source/java.c:748-757 | A key of 96 characters set twice leaves two entries |
| ConfigTable.LoadSaved | vita/direct/source/java.c:697-727 | Saving and loading into an empty table restores it if and only if no key holds a tab or newline and no value a newline |
| ConfigTable.LoadedClean | vita/direct/source/java.c:697-716 | Whatever a file holds, loaded keys and values are free of separators and fit their buffers |
| ConfigTable.LineReadBack | vita/direct/source/java.c:703-712 | The line of one entry is read by one call and splits into the same key and value |
| ConfigTable.LineExact | vita/direct/source/java.c:702-703 | A line ends with the first newline, the end of the file, or 367 bytes |
| ConfigTable.EntryExact | vita/direct/source/java.c:704-711 | A line is the entry of what stands before its first tab and from there to the newline or the end, cut to 95 and 255 characters |
| ConfigTable.NoTabNoEntry | vita/direct/source/java.c:704-705 | A line is skipped exactly if it has no tab |
| ConfigTable.SavedExact | vita/direct/source/java.c:722-723 | The file is the entries in order, each as its key, a tab, its value and a newline |
| ConfigRuns.RunExact | vita/direct/source/java.c:687-777 | From every file with distinct keys, over any sets, erases and restarts: the table is at every moment the finite map the same calls make if and only if each set has a key that fits or meets a full table and each restart meets a table without separators |
| ConfigRuns.StepExact | vita/direct/source/java.c:745-777 | The same for one call or restart |
| ConfigRuns.RestartExact | vita/direct/source/java.c:697-727 | A restart gives back the same items if and only if no key holds a tab or newline and no value a newline |
| ConfigRuns.LoadDistinctExact | vita/direct/source/java.c:697-716 | A file loads into a table with distinct keys if and only if the keys of its first 256 lines with a tab are different |
| ConfigRuns.LoadedKeys | vita/direct/source/java.c:697-716 | Loading takes the keys of the lines in order until the table is full, without looking for earlier ones |
| ConfigRuns.DoubleLine | vita/direct/source/java.c:697-716 | Two lines with one key become two entries, and erasing the key leaves one of them |
| ConfigStore.Store.constructor | vita/direct/source/java.c:687-693 | An empty table that has not been loaded |
| ConfigStore.Store.Load | vita/direct/source/java.c:697-716 | Reads the file once, line by line, until it ends or the table is full |
| ConfigStore.Store.Save | vita/direct/source/java.c:718-727 | The file holds one line for each entry, if it can be written |
| ConfigStore.Store.FindKey | vita/direct/source/java.c:729-733 | The first entry with the key, -1 if there is none |
| ConfigStore.Store.Get | vita/direct/source/java.c:736-743 | Whether the key is there, and as much of its value as the caller's buffer holds |
| ConfigStore.Store.Put | vita/direct/source/java.c:745-762 | The table is set and saved, as one step of the run if the write succeeds; a full table refuses a new key and writes nothing |
| ConfigStore.Store.Remove | vita/direct/source/java.c:764-777 | The key is gone, the last entry has taken its place, and the file follows, as one step of the run if the write succeeds |

## Left out

- Kernel, audio, graphics, IME and file calls, logging, telemetry and cache flushes: only their results appear.
- hook_arm, hook_thumb, reloc_err, so_resolve_with_dummy, so_initialize and so_mem_load: one-branch code or code that only jumps.
- The ring of deferred HTTP successes (`FalsoJNI.c:800-808`): it has no test for a full ring, so deliveries can be lost there.
- The request ring of the HTTP bypass is the download ring without the path and is not repeated.
- Call*Method wrappers, name tables, consent and spoofing policy, monitors, exceptions, primitive array regions: constants and one-branch facts.
- 32-bit overflow of the two reference counters of an object: they are unbounded, as are object ids.
- Parsing of the ELF header, the section names and DT_SONAME: the program headers and whether all sections were found are given.
- pvz2_input_push_key and pvz2_input_push_text build one event each; the notification of the keyboard on delivery is not modelled.
- Weak memory: the download ring and the tracked table are sequentially consistent.
- TrackedRefs.RefTable.TakeLocked: records are entries of a map from record ids to nodes with links, instead of addresses in one block, so the address test for pool records is the kind of the id.
- TrackerThreads.RunInv: destruction of the released object runs outside the steps; it is a sequence of further releases by the same thread.
- JniObjects.JniHeap.Release: sequential; the interleaving of its locked section is that of TrackerThreads, and the two are tied by TrackerRefines on the table only.
- LdmRewrite.RewritePreserves: alignment faults, banked registers and the continuation behind the jump are not modelled; the word behind the jump is stored as the code does, and no claim is made about where it leads.
- SoArena.SoModule.TrampolineLdm: for a patch block of at most 0x1FFFFE4 bytes and a cave of at most 0xFFFFE8 bytes, placed in this order; PatchReachExact and CaveReachExact show that a branch misses its trampoline behind these bounds.
- SoArena.SoModule.FixLdmia: for a function outside the arenas, whole words of code at word addresses, that does not end in the last word of the address space.
- SoImage.ArenasOfLoad: for an image whose code, rounded to 4, ends inside its text block, with a power of two as alignment; where it does not, CaveExact shows that the size of the cave wraps.
- SoLoad.Module.Load: 32-bit wrap-around of sizes and a calloc that fails for the zeros are not modelled; an image whose copies leave their blocks, or whose segments leave the file, is outside the model.
- SoRelocate.LinkedCell: for cells that share no byte with another; OverlapSpoils shows two that do.
- ConfigRuns.RunExact: saves inside a run succeed; what a failed one leaves is stated for a single call by ConfigStore.Store.Put and Remove.
- JavaStrings.NewString: the address that the new string is tracked under is a parameter, and blocks of the C heap are counted, not told apart.
- SoSymbols.SymbolIndex: for hash tables whose links stay inside the symbol table and form no circle; the code checks neither.
- StrictConverter.Utf16ToUtf8: buffer positions do not wrap around the address space.
- StrictConverter.Utf8ToUtf16: the same.
- InputQueue.Queue.Drain: a buffer so close to 4 GiB that the cursor would wrap is not modelled.
- ConfigStore.Store.Save: what a write that fails half way leaves in the file is arbitrary.

# GrayCore: a verified model of its containers and concurrency protocols

GrayCore is a C++ library of containers, reference counted objects and conversions. This project models its
hardest logic in Dafny and proves what that logic promises:

- `RingProtocol`, `RingQueue`: the wrapping queue `cQueueStatic`, once as an interleaving of the loads and stores
  of one writer and one reader, once as an object with its bulk write.
- `ChunkQueue`, `DynQueue`: the queue over a linked list of chunks, and the linear queue that compacts and grows.
- `Interlocked`, `RefProtocol`, `SharedArray`: the compare-exchange retry loops, the reference counts built on them under
  any interleaving of any number of threads, and the arrays that share one counted heap block until their size changes.
- `Singleton`: creation of a lazy singleton by double-checked locking, with its reentrant lock.
- `QuickSort`, `NearSearch`, `SortedArray`, `PrefixSearch`, `HashTable`, `DisposeWalk`: the in-place sort, the search
  that tells where to insert, arrays with equal keys, prefix searches, bucketed tables, and the walks over an array
  that shrinks under them.
- `Mem`: the overlapping moves that compaction, insertion and removal are made of.
- `FloatDeco`, `CachedPowers`, `Grisu`, `DoubleDigits`: the rounded 64 bit product and the boundaries of a double, the
  table of powers of ten with the error of every entry, the generation of digits, and from these that the digits of every
  double read back as that double.
- `Digits`, `TextBuilder`: integers to digits and back, and the text builder with its truncation guarantee.
- `Arith`, `RealPowers`, `Wrappers`: shared arithmetic facts and types.

A protocol is a state machine: a state, a step function, `Run` over a sequence of steps, an invariant that every step
keeps, and theorems over every run. An object that the program updates in place is a class; each of its methods is proved
against the abstract contents before and after it. What the program computes on values is a function, with lemmas about it.

## What the code does that its callers may not expect

The model follows the code. These facts come out of it and are proved or stated as exact conditions:

- `cQueueStatic::WriteSpanQ` compares with `>` where the wrap needs `>=`. A bulk write that ends exactly at the end of the
  array leaves the write index at `_QTY`, and every ring gets there from empty by three calls
  (`RingQueue.UnwrappedIsReached`). Contents and count are still right and are read in order. But the read index never
  meets that index: the queue is then never empty again, reading returns the cells of the array round and round
  (`RingQueue.ReadsForEver`), `ReadSpanQ` fills its whole target (`RingQueue.Queue.ReadSpanQ`), and every later write fails
  its assertion (`RingQueue.DrainAfterBulk`).
- A `cQueueChunked` that is drained exactly at the end of a chunk keeps a stale `_nLastIndex`
  (`ChunkQueue.Queue.NotReadyIsAtEnd`, reached in `ChunkQueue.FillAndDrain`). The next `Write1` fails its assertion. The next
  `WriteSpanQ` stores behind a blank chunk, which is what is read next; what can be read stays one chunk behind what is
  stored from then on (`ChunkQueue.Queue.WriteSpanQ`, `ChunkQueue.DrainedWriteSpanQ`).
- `cQueueChunked::SetEmptyQ` leaves `_nFirstIndex` and `_nLastIndex` alone. If `_nLastIndex` was not 0, the next `Write1` fails
  its assertion; if only `_nFirstIndex` was not, the next `Read1` does (`ChunkQueue.Queue.EmptyAndUse`). Bulk operations fail alike
  (`ChunkQueue.Queue.EmptyAndUseSpan`).
- `FindKeyDerived` can miss a prefix that is in the array when one element is a prefix of another
  (`PrefixSearch.DerivedMayMiss`). Whether an array is safe can be tried with one search for each of its elements
  (`PrefixSearch.DerivedFindsAll`).
- `AddSort` on an array in which `AddAfter` put equal keys out of address order can add an object a second time, and only
  on such an array (`SortedArray.AddSortFindsAll`, `SortedArray.AddSortCanAddTwice`). The keys stay sorted all the same.
- `DisposeAll` can dispose one object several times, up to n(n+1)/2 calls for n entries (`DisposeWalk.BoundIsMet`). It
  disposes none of several distinct entries twice if and only if every call leaves the array alone, or empty, or with a last
  entry that stood before the one disposed (`DisposeWalk.DisposesOnce`).
- A caller of `get_Single` that does not take the lock can get an object whose construction has not finished
  (`Singleton.UnlockedCallerMayBeEarly`): exactly while the owner of the lock is between publishing the pointer and
  registering the object (`Singleton.FinishedUnlessBusy`). With the pointer set and the lock free it is finished, for good
  (`Singleton.UnownedIsFinished`).
- A reference count that reaches 2^30 spills into the flag bits. Objects are destroyed rightly if and only if no decrement
  leaves a count that is a multiple of 2^30 other than 0 (`RefProtocol.SafeIfHarmless`); the first that does destroys an
  object that is static or still referenced (`RefProtocol.HarmDestroys`). A thread that creates an object, holds
  2^30 + 1 references and releases one is such a run (`RefProtocol.ReleaseAtTheLimit`). The protocol theorems are about
  all runs before that, among them every run in which no count gets to 2^30 (`RefProtocol.BoundedRunIsHarmless`).
- `cQueueDyn::put_GrowSizeChunk(0)` is documented as "never grow", but `GetWritePrep` asserts a positive chunk whenever it
  has to grow below the maximum: `DynQueue.Queue.CanGrow` is that demand, and `DynQueue.ChunkOfZero` says when it fails.
- `ULtoARev` puts its terminator at `pszOut[iStrMax]`, one place beyond the width that its documentation says includes it.
- `QSort()` of a single element calls the partition with both ends equal, where it asserts that they differ. That is the
  only span for which an assertion fails, at any depth (`QuickSort.QSort`, `QuickSort.QSortRange`), and the loop is correct
  there.
- Grisu2 rounds the last digit by a table of powers of ten that ends at 10^9, and looks up the number of places behind
  the point. That is beyond the end if and only if the digits may not end at any of those places
  (`DoubleDigits.ReadsBeyondTable`), which is so for 1/3 (`DoubleDigits.OneThirdReadsBeyondTable`). The digits read back as
  the double whatever is read there; how close to it they are rounded depends on it.

## Model

| member | source | states |
|---|---|---|
| RingProtocol.RingIsSafe | include/cQueue.h:408-494 | over every interleaving of one writer and one reader, what is read is a prefix of what was accepted, in order; at most _QTY-1 are outstanding; neither quantity query promises more than its caller can still use; no assertion fails |
| RingProtocol.RejectedOnlyWhenFull | include/cQueue.h:486-494 | Write1 gives up exactly when _QTY-1 are outstanding, and never for a writer that was promised room |
| RingProtocol.EmptyOnlyWhenEmpty | include/cQueue.h:62-64 | isEmptyQ is true exactly when nothing published is unread |
| RingProtocol.QuantityAnswers | include/cQueue.h:408-422 | get_ReadQtyT gives the reader the exact number outstanding, get_WriteQtyT the writer the room as of its load of the read index |
| RingProtocol.Write1Delivers | include/cQueue.h:486-494 | a whole Write1(x), with any steps of the reader between its own, adds exactly x to what was accepted and advances the write index by one, or changes nothing, exactly when _QTY-1 were outstanding as it looked at the read index |
| RingProtocol.Read1Takes | include/cQueue.h:457-465 | a whole Read1, with any steps of the writer between its own, takes exactly the next element of what was accepted and advances the read index by one |
| RingProtocol.PollTells | include/cQueue.h:62-64 | a whole isEmptyQ answers whether anything accepted is unread when it loads the write index, and changes nothing |
| RingProtocol.ReadQtyTells | include/cQueue.h:414-422 | a whole get_ReadQtyT answers the number outstanding when it loads the write index |
| RingProtocol.WriteQtyTells | include/cQueue.h:447-449 | a whole get_WriteQtyT answers the room there was when it loaded the read index |
| RingProtocol.RunKeepsInv | include/cQueue.h:408-494 | every step of either thread keeps the invariant that ties indexes and cells to the streams accepted and consumed |
| RingQueue.Write1Appends | include/cQueue.h:486-494 | Write1 appends one element, or changes nothing exactly when there is no room |
| RingQueue.Read1Removes | include/cQueue.h:457-465 | Read1 takes off the first element, if and only if that was not the last one before a write index of _QTY; then what is left is every cell of the array |
| RingQueue.TakenIsContents | include/cQueue.h:457-465 | repeated Read1 returns the contents in order and leaves the rest |
| RingQueue.ReadsForEver | include/cQueue.h:457-465 | with a write index of _QTY no number of reads empties the queue, and they return the cells round and round |
| RingQueue.WriteEachLays | include/cQueue.h:486-494 | repeated Write1 lays elements down round the end of the array until it is full |
| RingQueue.BulkIsRepeatedWrite1 | include/cQueue.h:502-519 | WriteSpanQ stores and counts what repeated Write1 does, and leaves the same fields if and only if it does not end exactly at _QTY |
| RingQueue.WriteSpanAppends | include/cQueue.h:502-519 | WriteSpanQ appends as much of the span as there is room for |
| RingQueue.DrainAfterBulk | include/cQueue.h:502-519 | reading out what there is after a bulk write returns exactly that; the queue is then empty if and only if the write did not end exactly at _QTY, and otherwise is never empty nor fit for writing again |
| RingQueue.UnwrappedIsReached | include/cQueue.h:502-519 | every ring of two or more cells gets there from empty, by filling it, reading one and writing one in bulk |
| RingQueue.SkipRemoves | include/cQueue.h:437-441 | advancing the read index takes off that many elements; taking off all before a write index of _QTY leaves every cell instead of none |
| RingQueue.Queue.ReadQtyT | include/cQueue.h:414-422 | the count is the number of elements, also after an unwrapped bulk write |
| RingQueue.Queue.WriteOne | include/cQueue.h:486-494 | the method on the array does what Write1Appends says |
| RingQueue.Queue.ReadOne | include/cQueue.h:457-465 | the method on the array returns the first element and does what Read1Removes says, whatever the write index |
| RingQueue.Queue.AdvanceRead | include/cQueue.h:437-441 | takes off at most as many elements as there are, as SkipRemoves says |
| RingQueue.Queue.ReadSpanQ | include/cQueue.h:471-477 | moves the first elements, in order, as many as fit, and leaves the rest of the target alone; with a write index of _QTY it fills the target |
| RingQueue.Queue.WriteSpanQ | include/cQueue.h:502-519 | the copying in two parts lays down what the specification says and appends |
| ChunkQueue.Queue.constructor | include/cQueueChunked.h:24-27 | a new queue is empty and ready |
| ChunkQueue.Queue.GetWritePrep | include/cQueueChunked.h:66-81 | makes room for an element in the last chunk and keeps the stream; on a queue that is not ready the chunk it gives is blank and counts as full |
| ChunkQueue.Queue.WriteSome | include/cQueueChunked.h:172-173 | one turn of the bulk write makes progress, except the first on a queue that is not ready |
| ChunkQueue.Queue.Write1 | include/cQueueChunked.h:162-165 | appends if and only if the queue is ready; otherwise the assertion of AdvanceWrite fails, and so it does after SetEmptyQ if and only if the last base index was not 0 |
| ChunkQueue.Queue.WriteSpanQ | include/cQueueChunked.h:168-177 | terminates; appends all of the span to the stream of a ready queue; otherwise a blank chunk and the span, with the write index one chunk behind from then on; after SetEmptyQ an assertion fails if and only if the last base index was not 0 and the span is not empty |
| ChunkQueue.Queue.GetSpanRead | include/cQueueChunked.h:107-111 | what can be read directly is a first part of what is unread, and not empty unless the queue is |
| ChunkQueue.ReadKeepsPlaced | include/cQueueChunked.h:117-129 | reading within the first chunk keeps both base indexes right, and frees the chunk exactly when it is read to its end |
| ChunkQueue.Queue.AdvanceRead | include/cQueueChunked.h:116-135 | terminates; takes off that many elements, also from a queue that is a chunk behind; the list keeps exactly the chunks not read to their end |
| ChunkQueue.Queue.NotReadyIsAtEnd | include/cQueueChunked.h:131-134 | a queue is not ready if and only if it was drained at the end of its last chunk, and one that is a chunk behind always is |
| ChunkQueue.Queue.Read1 | include/cQueueChunked.h:137-142 | returns and takes off the next element of the stream |
| ChunkQueue.Queue.ReadSpanQ | include/cQueueChunked.h:145-152 | moves the first elements, in order, as many as fit |
| ChunkQueue.Queue.SetEmptyQ | include/cQueueChunked.h:154-160 | frees every chunk of the list once; the queue is a good empty one afterwards if and only if both base indexes were 0 |
| ChunkQueue.Queue.EmptyAndUse | include/cQueueChunked.h:154-165 | the Write1 after SetEmptyQ passes its assertions if and only if the last base index was 0, and the Read1 after that its first one if and only if the first base index was |
| ChunkQueue.Queue.EmptyAndUseSpan | include/cQueueChunked.h:154-177 | the same for a bulk write and what is read after it |
| ChunkQueue.FillAndDrain | include/cQueueChunked.h:116-135 | writing any non-empty span whose length is the chunk size and reading it out gives a queue that is not ready |
| ChunkQueue.DrainedWrite1 | include/cQueueChunked.h:162-165 | the next Write1 fails |
| ChunkQueue.DrainedWriteSpanQ | include/cQueueChunked.h:145-177 | the next bulk write succeeds, and what is then read is a blank chunk followed by what of the span fits after it |
| Mem.CopyOverlap | include/cMem.h:252-283 | whatever the overlap, the target gets what the source held before, and nothing else changes: the block is then Moved |
| Mem.MovedAt | include/cMem.h:252-283 | element by element: the target holds what the source held, and all else is as before |
| Mem.ShiftElements | include/cValSpan.h:139-153 | one element moves to another index and those between close up |
| Mem.ShiftedAt | include/cValSpan.h:139-153 | element by element: one goes to its new index, those between move by one towards its old one, and all else is as before |
| Mem.ShiftedIsPermutation | include/cValSpan.h:139-153 | shifting loses and adds no element |
| DynQueue.Queue.constructor | include/cQueueDyn.h:45-60 | a maximum of 0 makes the chunk 0; otherwise the chunk is at least 64 and the maximum at least the chunk, both exactly as given where that holds; the first chunk is allocated |
| DynQueue.Queue.AllocSizeMaxQ | include/cQueueDyn.h:33-42 | gives the storage the size asked for, keeping what fits, or changes nothing if that is beyond the maximum; the queue stays good if and only if the size is not below the write index |
| DynQueue.Queue.GetWritePrep | include/cQueueDyn.h:83-97 | leaves room for what is needed, or storage of the maximum size, and keeps what is unread; it grows to the next whole chunk or the maximum |
| DynQueue.ChunkOfZero | include/cQueueDyn.h:68-71 | a new queue whose chunk is then set to 0 can prepare a write if and only if it fits in the storage or the storage has its maximum size |
| DynQueue.Queue.WriteSpanQ | include/cQueue.h:342-348 | appends what fits up to the maximum, or nothing when it is atomic and does not all fit |
| DynQueue.Queue.Write1 | include/cQueue.h:364-372 | appends if and only if the write index is below the maximum |
| DynQueue.Queue.WriteQ | include/cQueue.h:378-382 | all elements of another queue move, or none; an empty one counts as failure |
| DynQueue.Queue.Read1 | include/cQueue.h:130-133 | returns and takes off the first element |
| DynQueue.Queue.ReadSpanQ | include/cQueue.h:319-323 | moves the first elements, as many as fit, and commits when far enough |
| DynQueue.Queue.ReadCommitNow | include/cQueue.h:165-177 | moves what is unread to the front without changing it |
| DynQueue.Queue.PutAutoReadCommit | include/cQueue.h:278-287 | sets the commit size, and commits at once if it is new and not 0 |
| DynQueue.Queue.PutReadIndex | include/cQueue.h:292-297 | what is unread then begins at that index of what is stored |
| DynQueue.Queue.InsertDataHead | include/cQueueDyn.h:123-133 | what is inserted is read before the rest, if and only if it fits below the maximum |
| DynQueue.Queue.SetAllData | include/cQueueDyn.h:138-146 | the queue holds this and nothing else, if and only if it is within the maximum |
| RefProtocol.CountIsReferences | include/cRefPtr.h:40-71 | over every interleaving of any number of threads, as long as steps are harmless, the word of a referenced object is the number of its references plus the static mark, as far as its bits go; the masked count is that number modulo 2^30 |
| RefProtocol.NoUseAfterDelete | include/cRefPtr.h:346-357 | an object that a thread holds or is about to access is alive |
| RefProtocol.DestroyedAtMostOnce | include/cRefPtr.h:118-121 | no object is destroyed twice, none while referenced, a static one never |
| RefProtocol.DestroyedExactlyOnce | include/cRefPtr.h:54-71 | once all threads are idle, an object is destroyed exactly once if nobody refers to it, and not otherwise |
| RefProtocol.LastReleaseDestroys | include/cRefPtr.h:65-71 | a decrement goes on to destroy if and only if the count it left is a multiple of 2^30; if it is harmless, if and only if it left no reference to an object that is not static |
| RefProtocol.SafeIfHarmless | include/cRefPtr.h:54-71 | in a run nobody ever gets ready to destroy an object that is static or referenced, if and only if no decrement leaves a non-zero multiple of 2^30 |
| RefProtocol.HarmDestroys | include/cRefPtr.h:54-71 | after the first decrement that does, the thread's next three steps destroy an object that is static or referenced |
| RefProtocol.BoundedRunIsHarmless | include/cRefPtr.h:32-35 | a run in which every count, with the static mark, stays below 2^30 has only harmless steps |
| RefProtocol.ReleaseAtTheLimit | include/cRefPtr.h:32-35 | for every k > 0, the run in which one thread creates an object, copies its pointer until it holds k references and releases one destroys the object if and only if 2^30 divides k - 1 |
| Interlocked.LoopsAreAtomic | include/cInterlockedVal.h:112-153 | over every interleaving of any number of threads, the retry loops leave the word and return the results of running the completed operations one by one, in the order of their compare-exchanges |
| Interlocked.EachDoesItsWork | include/cInterlockedVal.h:112-153 | every operation that completed found the word as the one before left it: an increment or decrement leaves and returns one more or less, wrapped to 32 bits, an exchange leaves its value and returns the old one, an addition leaves the sum and returns the old one |
| Interlocked.EachCompletesOnce | include/cInterlockedVal.h:112-153 | whatever other threads do meanwhile, a thread that begins an operation completes that one, and once, before it is idle again |
| Interlocked.CompletesAlone | include/cInterlockedVal.h:112-153 | left alone, it does so in two steps |
| Interlocked.RetryMeansProgress | include/cInterlockedVal.h:112-153 | a compare-exchange fails only if another operation completed since the load, and then changes nothing |
| Interlocked.CountIsSum | include/cInterlockedVal.h:112-153 | no increment, decrement or addition is lost: the word is the first value plus their sum, modulo 2^32 |
| Interlocked.RunKeepsInv | include/cInterlockedVal.h:112-153 | every thread about to compare holds the value the word had at its load, and every step keeps that |
| RefProtocol.StepKeepsInv | include/cRefPtr.h:280-305 | every step of attaching, copying, assigning and releasing keeps the invariant |
| RefProtocol.RunKeepsInv | include/cRefPtr.h:280-357 | so does every run |
| RefProtocol.OperationEnds | include/cRefPtr.h:280-305 | whatever other threads do meanwhile, a thread that has begun to create, attach, copy, release, assign or hand over a pointer and is idle again holds what it held before, without the pointer let go and with the one attached |
| RefProtocol.OthersHold | include/cRefPtr.h:280-305 | a step changes what another thread holds only by handing it a pointer, which is then added |
| RefProtocol.NotAllowedIsNothing | include/cRefPtr.h:280-285 | an operation whose pointers are not held, or that assigns a pointer to itself, changes nothing |
| RefProtocol.OperationsEndAlone | include/cRefPtr.h:280-357 | no operation gets stuck: from any state reached, a thread left alone is idle after at most eight steps of its own |
| RefProtocol.CreatedAsIs | include/cRefPtr.h:187-197 | an object created static stays static, and one created otherwise does not become so |
| RefProtocol.DeletedIsFlagged | include/cRefPtr.h:213-217 | while an object is being deleted its word has the flag of destruction |
| SharedArray.Handle.ReleasePtr | include/cRefPtr.h:346-357 | counts stay right, and the last handle to let go frees the head |
| SharedArray.Handle.Share | include/cRefPtr.h:280-285 | after assignment both handles see one array, and no other handle sees a change |
| SharedArray.Handle.SetCopyFrom | include/cArrayT.h:204-211 | gives this handle a head of its own with a copy of any head or none, resized: each element at its index as far as they go, defaults behind; or no head for a size of 0 |
| SharedArray.Handle.ResizeHead | include/cArrayT.h:140-183 | changes an unshared head in place or moves it, and frees the old block when it moves; each element stays at its index as far as the size goes, and new ones are default |
| SharedArray.Handle.PutCount | include/cArrayT.h:317-348 | every head's count equals its handles before and after; for this handle only, each element stays at its index as far as the size goes, and new ones are default; the same size changes nothing |
| SharedArray.Handle.SetAt | include/cArrayT.h:274-279 | every handle that shares the head, and no other, sees the write |
| SharedArray.Handle.SetAtGrow | include/cArrayT.h:350-356 | beyond the end only this handle sees it; within, every sharer does |
| SharedArray.Handle.Add | include/cArrayT.h:361-366 | appends for this handle only |
| SharedArray.Handle.InsertAt | include/cArrayT.h:368-382 | inserts for this handle only, padding with defaults beyond the end |
| SharedArray.Handle.RemoveAt | include/cArrayT.h:422-441 | cuts out the range, clipped to the end, for every handle that shares the head; bad arguments change nothing |
| Singleton.OnlyOne | include/cSingleton.h:192-201 | over any schedule of any number of threads at most one object is made and registered, no two threads are in the lock, and all callers get that object |
| Singleton.PointerIsStable | include/cSingleton.h:62-71 | the pointer never changes once it is set |
| Singleton.LockedCallersSeeItFinished | include/cSingleton.h:192-201 | a caller that took the lock returns only after construction and registration |
| Singleton.OwnerNeverWaits | src/cThreadLock.cpp:23-57 | the reentrant lock never keeps its owner waiting |
| Singleton.CallEnds | include/cSingleton.h:192-201 | after any schedule, a thread for which the lock is free, or which owns it, returns within 18 steps of its own with the one object |
| Singleton.FirstCallMakesIt | include/cSingleton.h:192-201 | a first caller on its own gets an object that is built and registered, and leaves the lock free |
| Singleton.UnlockedCallerMayBeEarly | include/cSingleton.h:62-71 | a caller without the lock can get the object before it is built or registered |
| Singleton.FinishedUnlessBusy | include/cSingleton.h:62-71 | over every schedule, once the pointer is set the object is built and registered if and only if no thread is in the derived constructors or on its way to registration, and only the owner of the lock can be |
| Singleton.UnlockedCallerIsEarlyWhenBusy | include/cSingleton.h:192-201 | whatever caller returns has the one object, unfinished if and only if the owner of the lock is busy with it |
| Singleton.UnownedIsFinished | include/cSingleton.h:192-201 | with the pointer set and the lock free the object is finished, and stays so however the run goes on |
| Singleton.StepKeepsInv | include/cSingleton.h:192-201 | every step of every thread keeps the invariant and the published pointer |
| QuickSort.QSortPartition | include/cSpan.h:432-447 | terminates; permutes the range; the first element ends at the index returned, with no larger one before it and no smaller one after it; its assertion holds if and only if the range has two elements |
| QuickSort.QSortRange | include/cSpan.h:449-454 | sorts the range, permutes it and touches nothing else; every assertion in it and in its recursive calls holds if and only if the range has two elements |
| QuickSort.QSort | include/cSpan.h:426-429 | leaves the whole span sorted and a permutation of what it was; every assertion holds if and only if it does not have exactly one element |
| QuickSort.HalvesSorted | include/cSpan.h:449-454 | sorting both sides of a partition sorts the whole |
| QuickSort.IsSpanSorted | include/cSpan.h:456-466 | comparing neighbours decides sortedness of all pairs |
| QuickSort.IsSpanSortedND | include/cSpan.h:468-478 | comparing neighbours decides strict order of all pairs |
| NearSearch.NearIsBetween | include/cSpan.h:383-405 | for any comparison, the last probe and its sign name a hit, or a place between a neighbour below and one above |
| NearSearch.NearIsExact | include/cArraySort.h:174-198 | when the argument splits the array once, a miss has everything before the place below and everything after it above |
| NearSearch.ProbeHalves | include/cSpan.h:383-405 | a probe in the middle leaves at most half of what there is to search, on either side |
| SortedArray.AddSortKeepsSorted | include/cArraySort.h:153-172 | AddSort keeps the keys sorted even where addresses are not |
| SortedArray.AddSortKeepsStrict | include/cArraySort.h:153-172 | AddSort keeps a strictly sorted array strict |
| SortedArray.AddSortFindsAll | include/cArraySortRef.h:110-120 | for objects ordered by key and address and without repeats, AddSort adds none of them a second time if and only if the array is strictly sorted |
| SortedArray.AddSortNewKey | include/cArraySort.h:121-125 | an element with a new key goes to its one place |
| SortedArray.AddSortMeetsEqual | include/cArraySort.h:158-169 | an element that compares equal is left alone if it is the same, replaced by another if collideAction is 1, and otherwise kept, with the answer bad; nothing else moves |
| SortedArray.AddSortMeetsAll | include/cArraySort.h:153-172 | on a strictly sorted array AddSort meets an equal element if and only if there is one |
| SortedArray.RunKeepsSorted | include/cArraySortRef.h:110-162 | any run of AddSort, AddAfter and RemoveArgKey keeps keys sorted; without AddAfter it keeps them strict |
| SortedArray.AddSortCanAddTwice | include/cArraySortRef.h:110-120 | after AddAfter out of address order AddSort can add an object again |
| SortedArray.AddAfterIsStableSort | include/cArraySortRef.h:155-162 | a run of AddAfter gives the sorted arrangement of its inputs in which equal keys keep their order |
| SortedArray.StableSortIsUnique | include/cArraySortRef.h:155-162 | there is only one such arrangement |
| SortedArray.PtrArray.FindINear | include/cArraySort.h:174-198 | the loop computes the specified last probe and sign, and looks at no more elements than their number has bits |
| SortedArray.PtrArray.FindIForKey | include/cArraySort.h:77-82 | finds a key if and only if it is there |
| SortedArray.PtrArray.FindIFirstForKey | include/cArraySort.h:89-98 | the first of a run of equal keys, or none if and only if there is none |
| SortedArray.PtrArray.FindILastForKey | include/cArraySort.h:104-112 | the last of a run of equal keys, or none if and only if there is none |
| SortedArray.PtrArray.FindIForAK | include/cArraySortRef.h:133-145 | the first index of the object itself, or none if and only if it is not there |
| SortedArray.PtrArray.RemoveArgKey | include/cArraySortRef.h:146-151 | removes the object once if and only if it is there |
| SortedArray.PtrArray.RemoveArgForKey | include/cArraySort.h:49-59 | removes the object, and only it, if and only if it is there under that key |
| SortedArray.PtrArray.RemoveKey | include/cArraySort.h:130-135 | removes one element with the key if and only if there is one; where keys are unique, it is the element with the key |
| SortedArray.PtrArray.Add | include/cArraySort.h:153-172 | AddSort on the array: the specified array, index and treatment of an equal element |
| SortedArray.PtrArray.AddAfter | include/cArraySortRef.h:155-162 | inserts after all elements whose key is not greater |
| PrefixSearch.CutKeepsOrder | include/cArraySortString.h:47-63 | comparing only as far as the root keeps the order of a sorted array |
| PrefixSearch.CutAtElement | include/cArraySortString.h:72-88 | comparing as far as each element keeps it except where one element is a prefix of another |
| PrefixSearch.FindKeyRoot | include/cArraySortString.h:47-63 | returns an element that starts with the root if and only if there is one |
| PrefixSearch.FindKeyDerived | include/cArraySortString.h:72-88 | what it returns is a prefix of the argument; it finds one whenever there is one and none such is a proper prefix of another element |
| PrefixSearch.DerivedFindsAll | include/cArraySortString.h:72-88 | every argument that has a prefix in the array gets one, if and only if for each element the search for what follows all its extensions has a hit |
| PrefixSearch.DerivedMayMiss | include/cArraySortString.h:72-88 | otherwise it can miss: a concrete array and argument |
| HashTable.AgreesAfter | include/cHashTable.h:120-150 | changing the entry of one hash in its bucket changes that entry of the map and no other |
| HashTable.Table.constructor | include/cHashTable.h:62 | a new table is the empty map over 2^bits buckets |
| HashTable.Table.FindArgForKey | include/cHashTable.h:207-210 | the object the map holds under the hash, or null |
| HashTable.Table.Add | include/cHashTable.h:211-214 | the map then holds the object under its hash, each entry is in its masked bucket, and buckets are strictly sorted |
| HashTable.Table.DeleteArg | include/cHashTable.h:215-218 | takes the object out of the map if and only if the map holds it |
| HashTable.Table.DeleteKey | include/cHashTable.h:142-145 | takes the entry of the hash out of the map if and only if there is one |
| HashTable.Table.RemoveAt | include/cHashTable.h:109-113 | takes one entry out of the map and steps the iterator back |
| HashTable.Table.ForEach | include/cHashTable.h:284-286 | a walk whose body removes entries visits every entry that was there, in order, and leaves exactly those not removed |
| HashTable.KeptIsFiltered | include/cHashTable.h:284-286 | what the walk leaves of a bucket is exactly the entries that the body did not remove when it visited them |
| HashTable.WalkMeetsEach | include/cHashTable.h:284-286 | the entries of a walk are the objects of the map, each once |
| HashTable.NamesShareBuckets | include/cHashTable.h:246-248 | names equal without regard to ASCII case always share a bucket if and only if there are at most 5 hash bits |
| DisposeWalk.PtrList.DisposeAll | include/cArrayRef.h:28-41 | terminates and stays within the array for every callback that only removes; follows the specified walk; the array is empty in the end |
| DisposeWalk.PtrList.DeleteAll | include/cArray.h:388-404 | the same for the walk that empties a slot before it deletes |
| DisposeWalk.WalkDisposesAll | include/cArraySortRef.h:31-42 | every object of the array is disposed or was taken out by a callback |
| DisposeWalk.WalkDisposesItsOwn | include/cArraySortRef.h:31-42 | only objects of the array are disposed |
| DisposeWalk.DeleteWalkDeletesOnce | include/cArray.h:388-404 | no object is left, and none is deleted more often than the array held it |
| DisposeWalk.CallsAreBounded | include/cArrayRef.h:28-41 | n entries need at most 1 + 2 + ... + n calls |
| DisposeWalk.BoundIsMet | include/cArrayRef.h:28-41 | a callback that needs exactly that many, for every n |
| DisposeWalk.DisposesOnce | include/cArrayRef.h:28-41 | in an array without nulls and repeats no object is disposed twice, if and only if every call leaves the array alone, or empty, or with a last entry that stood before the one disposed |
| DisposeWalk.KeepingDisposesOnce | include/cArrayRef.h:28-41 | when no object takes out any, each is disposed once, last to first |
| DisposeWalk.LeavingDisposesOnce | include/cArrayRef.h:28-41 | when each takes out itself only, each is disposed once, last to first |
| DisposeWalk.MayDisposeTwice | include/cArrayRef.h:28-41 | otherwise an object can be disposed twice: a concrete case |
| FloatDeco.HalvesAreRounded | include/cFloatDeco.h:76-87 | the product from 32 bit halves is floor((x*y + 2^63) / 2^64), with no overflow on the way |
| FloatDeco.ProductIsRounded | include/cFloatDeco.h:65-74 | so is the 128 bit product; it is within half a unit of the exact one |
| FloatDeco.Multiply | include/cFloatDeco.h:62-90 | the product of decomposed floats has that mantissa and the sum of the exponents plus 64 |
| FloatDeco.Highest1Bit | include/cBits.h:160-167 | the loop counts the bits a number takes |
| FloatDeco.BitLengthBounds | include/cBits.h:160-167 | a number of n bits is from 2^(n-1) to 2^n - 1 |
| FloatDeco.Normalize | include/cFloatDeco.h:92-98 | keeps the number exactly and sets the top bit |
| FloatDeco.Upper | include/cFloatDeco.h:100-107 | exactly m + 1/2 units, with the top bit set |
| FloatDeco.Lower | include/cFloatDeco.h:100-107 | exactly m - 1/2 units, or m - 1/4 at the hidden bit, with the exponent of the upper one |
| FloatDeco.NormalizedBoundaries | include/cFloatDeco.h:100-107 | the shifts give exactly these two numbers and lose no bit |
| FloatDeco.NumberBetween | include/cFloatDeco.h:92-107 | the normalized number has the exponent of its boundaries and lies between them, 512 or more from each |
| CachedPowers.PowerIsClose | src/cFloatDeco.cpp:22-44 | every one of the 87 entries is within half a unit of its power of ten |
| CachedPowers.CachedPowerFits | src/cFloatDeco.cpp:46-60 | for every boundary of a double the index is within the table, and the scaled number has from 34 to 60 bits behind the point |
| Grisu.CountDecimalDigit32 | include/cFloatDeco.h:117-131 | the number of decimal digits of a 32 bit number, 1 for 0 |
| Grisu.GrisuRound | src/cFloatDeco.cpp:103-109 | lowers the last digit so that no whole number of units within delta leaves what is closer to the number, stays within delta, and never takes a digit below 0 nor the first one to 0 |
| Grisu.IntegerDigits | src/cFloatDeco.cpp:134-158 | the integer part gives digits between the boundaries, and no decimal with a larger exponent lies there, if and only if the digits may end at a place of it; or else all its digits and what is left |
| Grisu.FractionDigits | src/cFloatDeco.cpp:160-173 | the endless loop ends, without overflow, at the first place behind the point where the digits may end, with digits between the boundaries |
| Grisu.StopsMeans | src/cFloatDeco.cpp:152-168 | the test for the end after some places holds if and only if a decimal with so many places lies between the boundaries (strictly above the lower one behind the point) |
| Grisu.Generate | src/cFloatDeco.cpp:130-174 | the digits and exponent stand for a decimal between the boundaries, and no decimal with a larger exponent does (strictly above the lower one for places behind the point); with at most nine places, no other decimal of that exponent between the boundaries is closer to the number |
| Grisu.BeyondTable | src/cFloatDeco.cpp:168-171 | a power of ten beyond the table is looked up if and only if the digits may not end with the integer part nor at any of nine places behind the point |
| DoubleDigits.Decompose | include/cFloatDeco.h:39-52 | mantissa and exponent of every finite double are in the range of the theorems below |
| DoubleDigits.DecomposeKeepsBits | include/cFloatDeco.h:39-52 | the bits of a finite double but its sign are restored from its mantissa and exponent |
| DoubleDigits.ScaledNumberIsClose | src/cFloatDeco.cpp:123-124 | the scaled number that rounding aims at is less than one unit from the double, scaled |
| DoubleDigits.MovedInwards | src/cFloatDeco.cpp:123-130 | moving a rounded product by a stored power inwards by one puts it strictly inside the product by the power of ten itself |
| DoubleDigits.GeneratedReadsBack | src/cFloatDeco.cpp:123-174 | digits between the scaled boundaries, moved inwards, stand for a decimal strictly between the points half way to the neighbours once the scale is taken off |
| DoubleDigits.Grisu2 | src/cFloatDeco.cpp:111-174 | for every double, the digits and exponent stand for a decimal strictly between the points half way to its neighbours, so that it reads back as that double; no decimal with a larger exponent lies between the scaled boundaries; with at most nine places none with the same exponent is closer to the scaled number; the number of places, which is what the exponent takes off the scale, is beyond the table if and only if ReadsBeyondTable holds |
| DoubleDigits.OneThirdReadsBeyondTable | src/cFloatDeco.cpp:168-171 | it holds for the double 1/3, whose digits go to the twelfth place |
| Digits.ULtoARev | include/StrNum.h:81-99 | writes the digits just before the terminator, which is at the width, and nothing else |
| Digits.DigitsStandFor | include/StrNum.h:81-99 | the digits stand for the value modulo radix^width |
| Digits.DigitsOfFitting | include/StrNum.h:81-99 | a value below radix^width is written in full, without leading zeros except for zero itself |
| Digits.ToUL | src/StrNum.cpp:53-88 | the value modulo 2^64 of the longest run of digits after space and prefix, and where it ends |
| Digits.RunIsLongest | src/StrNum.cpp:72-79 | the digits read are those of the text from there on, up to the first character that is none of the radix |
| Digits.RoundTrip | src/StrNum.cpp:53-88 | reading back what was written gives the value, in every radix and either case |
| Digits.HexRoundTrip | src/StrNum.cpp:144-157 | a hexadecimal number with the leading 0 that ULtoA adds is read back without naming the radix |
| Digits.DecimalRoundTrip | src/StrNum.cpp:53-88 | a decimal number, after any tabs and spaces, is read back without naming the radix |
| TextBuilder.GrownSize | include/StrBuilder.h:91-99 | growth covers the need or reaches the limit and its terminator, and goes no more than a block beyond the need |
| TextBuilder.StrBuilder.constructor | include/StrBuilder.h:54-60 | a new builder is empty and terminated |
| TextBuilder.StrBuilder.GetWritePrep | include/StrBuilder.h:83-105 | room for what is needed, or none to be had; the text is kept |
| TextBuilder.StrBuilder.AddChar | include/StrBuilder.h:171-177 | the text stays a first part of all that was added, and the terminator within the buffer |
| TextBuilder.StrBuilder.AddCharRepeat | include/StrBuilder.h:187-194 | the same for a repeated character; a negative count takes that many characters off |
| TextBuilder.StrBuilder.AddSpan | include/StrBuilder.h:196-206 | the same for a span without terminators; with one, what comes before it is copied and the length still grows by the span |
| TextBuilder.StrBuilder.FixedKeepsFirst | include/StrBuilder.h:70-76 | a fixed buffer of n holds the first n-1 characters added |
| TextBuilder.StrBuilder.HeapKeepsAll | include/StrBuilder.h:85-103 | a heap buffer holds everything as long as that is below k_LEN_MAX |

## Left out

- Weak memory: every interleaving is of sequentially consistent loads, stores and compare-exchanges.
- Running out of memory: allocation always succeeds.
- Integer width: indexes and sizes of containers are unbounded integers; 64 bit arithmetic and 32 bit counts are modelled with their wrap-around.
- Element types: constructors, destructors and byte-level moves of elements; an element is a value. Destructors that release further references, and `put_Ptr` with the last reference to its own target, are not modelled: a thread passes only pointers it holds another reference to.
- Asserts of the source are preconditions of a method or an outcome it reports.
- Bulk operations of cQueueStatic while the other thread runs: the interleaved protocol covers Write1, Read1, isEmptyQ and the two quantity queries.
- PrefixSearch.DerivedFindsAll: about strings of character codes above that of the terminator, without an upper bound on the codes. With an upper bound the condition is still sufficient.
- CachedPowers.GetCachedPower: the index is computed from the decimal constant of the source in exact arithmetic, not in a double.
- DoubleDigits.Grisu2: what is read beyond the table of powers of ten is any number; the sign of a double, infinities and the formatting of the digits are not part of this model.
- Digits.ULtoARev: the model allows any value, the source a 64 bit one.
- DynQueue.Queue.AllocSizeMaxQ: put_Count asserts that a size is below k_ALLOC_MAX, which a queue with that very maximum reaches; the limit is not part of this module.
- DynQueue.Queue.SetAllData: the source data is a value, so data that overlaps the storage is not distinguished.
- TextBuilder.StrBuilder.constructor: a builder without a buffer, which only estimates, is not modelled.
- SharedArray.Handle: SetCopy uses the count of the wrong array and InsertArray asserts on a shared head, so neither has a contract; the cached hash code of a head is left out.
- HashTable.Table: the table of structs and the sorted buckets of cHashTableName are not modelled; only its choice of bucket is.
- cRefBase::SetSmartDebug and pointer tracing: debugging only.
- StaticDestruct: the end of a static object is outside the counting protocol.
- Streams, files, threads of the operating system, strings beyond comparison and digits: calls into foreign code, or easy members.

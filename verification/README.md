# Hash tables, queues, hashes and codecs of a systemd-derived library

A Dafny model of the basic data structures and codecs of the repository, with
proofs that they do what their callers rely on. `dafny verify dfyconfig.toml`
checks all of it.

- **The Robin Hood hash table** (`Ring`, `Table`, `RobinHood`, `Removal`,
  `Rehash`, `State`, `Insertion`, `Growth`, `Hashmap`, `Cursor`,
  `PlainLoop`, `NullKeyLoop`, `MisledLoop`, `HashmapIterate`, `HashmapRun`). `Hashmap.HashmapBase` is the table with its
  bucket and DIB arrays, direct and indirect storage, and the list that is
  threaded through the buckets. Its validity says that every DIB byte decodes
  to the true displacement (saturated or not), that displacements rise by at
  most one from bucket to bucket, that the list runs through just the occupied
  buckets, that some bucket stops a backward shift even at 100% load, and that
  keys compare pairwise different. All operations keep it, and `Items()`, the
  stored pairs oldest first, is what they are specified by. The heap methods
  work on the arrays; each is tied to a function or relation on `Table`
  values, about which the lemmas are. `HashmapRun` states the refinement over
  whole runs against an abstract machine whose state is that list of pairs.
  `Witnesses` builds tables on which operations do what may not be expected.
- **The priority queue** (`Prioq`, `PrioqLimits`), a heap that rewrites index
  cells kept by its callers, over whole runs against the bag of its items.
- **SipHash-2-4 and SHA-256** (`SipHash`, `SipHashExample`, `Sha256`,
  `Sha256Examples`, `Sha256Constants`, `Word32`), whose buffering is proved
  to be invisible: every way of cutting the input gives the hash of the whole.
  The rounds are modelled on bit vectors as they are; the examples of the
  paper and of the standard are computed, and the constants of SHA-256 shown to
  be the roots that they are taken from.
- **Paths and strings as keys** (`Paths`, `HashFuncs`, `PathExamples`): the order, the prefix
  test and the hash of paths agree, which discharges what the table assumes of
  its callbacks (`HashOps.Ops.Lawful`).
- **Codecs** (`Signature`, `Gvariant`, `Utf8`, `Cellescape`, `BusLabel`).

`Common` and `Bytes` hold what the modules share.

Conventions. A C string is a sequence of non-zero bytes; pointers that advance
over one are the sequences that remain, or indices. Sizes and counters are
unbounded except where wrapping matters; there the reduction modulo 2^32 or
2^64 is written out (`Common.Wrapped32`, `Common.Wrapped`). Allocation failure is a
parameter `memory`. Random hash keys are parameters. Contents of memory that
keys point to are assumed not to change while the keys are in a table. C fixes
only the sign of `memcmp` and `strcmp`, and only their sign is used. Functions
of 64-bit and 32-bit words (`SipHash.Xor`, `Sha256.Plus`, ...) are given names
so that proofs can treat them as uninterpreted.

Results that differ from what the sources say or intend, with exact
conditions and inputs:

- `1U << new_shift` is undefined when more than 2^31 bytes are needed. Puts of
  new keys require that it is defined (`HashmapBase.ShiftDefined`);
  `Growth.UndefinedShiftJustWhen` says exactly when it is not, and
  `Growth.ShiftOverflows` gives a table.
- The loop of `hashmap_clear_with_destructor` stops at the first NULL value.
  `HashmapIterate.ClearWithDestructor` says exactly when all values are
  destroyed and when entries are left behind, `Witnesses.LeftBehind` shows a
  table with one left.
- A loop over a plain table that removes current entries may visit an entry
  twice, because a backward shift can cross the end of the table. No choice of
  removals does so if and only if the DIB of the first or of the last bucket is
  free or 0 before the loop (`HashmapIterate.PlainForeach`);
  `Witnesses.VisitedTwice` is a loop that does.
- An entry with a NULL key is an entry like others for all operations but one:
  when it is the next one of an iteration and the current one is removed, the
  iterator takes the free bucket behind it for it if it is the last entry that
  the shift moves (`Cursor.OrderedCursorSurvives`, `Cursor.PlainCursorSurvives`,
  `Witnesses.NullKeyMisleads`). For a loop over a plain table
  `NullKeyLoop.NeverMisled` says from the table before the loop when no choice
  of removals leads there, and `MisledLoop.MisleadIsPossible` gives one for all
  other tables. The loops are followed up to that moment.
- `prioq_put` computes the size of a new array in an unsigned. The new array
  holds the items if and only if `(n_items + 1) * 2 < 2^32`
  (`Prioq.CapacitySuffices`), and a queue that only grows breaks at 2415919102
  items (`Prioq.CapacityWraps`).
- `shuffle_down` computes children in an unsigned. A removal is right if neither
  the item nor a descendant of it is at index 2^31 or above
  (`Prioq.LowShuffleRight`), so with at most 2^31 + 1 items all are; for every larger number there is a queue on which
  `prioq_pop` never ends (`PrioqLimits.PopNeverEnds`).
- `bus_gvariant_get_size` means `()` to have size 1, but
  `signature_element_length` does not accept it (`Gvariant.UnitTypeIsMalformed`).
- `bus_gvariant_determine_word_size` may wrap around (`Gvariant.WordSizeWrapsAround`);
  `Gvariant.LeastWordSize` says exactly when its answer is right.

## Model

| member | source | states |
|---|---|---|
| `Ring.RunDown` | src/basic/hashmap.c:1149-1153 | In a ring of displacements where each is at most one above its predecessor, everything from the home bucket of a displaced entry up to it is displaced at least as far as it is away from that home. This is why a lookup may stop at `dib < distance`. |
| `Ring.HeadRoom` | src/basic/hashmap.c:886-931 | With an unsettled bucket somewhere, no displacement reaches the last value of the ring, so a probe always has room to go on and terminates. |
| `Ring.PlaceKeepsRing` | src/basic/hashmap.c:895-927 | A larger displacement that the predecessor supports may be written over any bucket, and the ring invariant still holds. |
| `Ring.ShiftHole` | src/basic/hashmap.c:504-524 | One step of the backward shift moves the hole of the ring on by one bucket and keeps all that a removal relies on. |
| `Ring.CloseHole` | src/basic/hashmap.c:489-528 | Once the bucket behind the hole is free or holds an entry in its own bucket, the hole may stay: the ring invariant holds again. |
| `Ring.StepsAreModular` | src/basic/hashmap.c:454-460 | The steps of next_idx and prev_idx, computed with the remainder, are those around the ring. |
| `Table.MoveKeepsList` | src/basic/hashmap.c:418-452 | Moving an entry between a bucket and a swap slot keeps the list: same entries, same order, every neighbour and both list ends redirected, no link left at the old place. |
| `Table.LinkedInBuckets` | src/basic/hashmap.c:418-452 | When no entry is in a swap slot, no link and neither list end points at one. |
| `RobinHood.FillFree` | src/basic/hashmap.c:895-913 | Putting an entry into a free bucket keeps the invariant and the contents. |
| `RobinHood.ExchangeKeepsCore` | src/basic/hashmap.c:918-926 | The three moves through IDX_TMP that swap an entry with a wealthier one keep the ring, the list order and the contents. |
| `RobinHood.ProbeSwap` | src/basic/hashmap.c:918-927 | After a swap the probe goes on for the displaced entry at that entry's true distance. |
| `RobinHood.ProbeOn` | src/basic/hashmap.c:929-930 | A bucket whose entry is not wealthier is passed; the distance to the known unsettled bucket shrinks, which is the termination argument. |
| `RobinHood.ProbeFill` | src/basic/hashmap.c:895-913 | The probe ends at a free bucket: every entry is settled as before plus this one, the contents are the same, the bucket behind is a stop bucket, and IDX_PUT is empty. |
| `RobinHood.ProbeEvict` | src/basic/hashmap.c:895-913 | The probe ends at a bucket still to be rehashed: as above, and the evicted entry is in IDX_PUT. |
| `Removal.UnlinkKeepsList` | src/basic/hashmap.c:502-515 | Unlinking one entry leaves the list of the others in the same order. |
| `Removal.OpenHoleAt` | src/basic/hashmap.c:477-515 | Taking an entry out of its bucket gives a table with one hole whose other buckets are all in order. |
| `Removal.ShiftKeepsHoled` | src/basic/hashmap.c:518-524 | Moving the next entry one bucket back, with its displacement lowered by one, keeps the invariant of the removal, with the hole one bucket on. |
| `Removal.CloseHoleAt` | src/basic/hashmap.c:526-528 | Marking the last hole free gives back the full invariant with unchanged contents. |
| `Removal.ShiftStep` | src/basic/hashmap.c:518-524 | After r + 1 steps just the first r + 1 entries behind the hole are one bucket further back. |
| `Removal.EndShifting` | src/basic/hashmap.c:477-529 | The whole removal: exactly the k-th oldest pair is gone, the p entries behind it are one bucket back, all others stay, and a bucket is free. |
| `Rehash.FindRoom` | src/basic/hashmap.c:1116-1128 | Whenever an entry is homeless some bucket is unsettled, by counting. |
| `Rehash.TakeUpKeepsList` | src/basic/hashmap.c:1108-1111 | Taking an entry into IDX_PUT keeps the list and the contents. |
| `Rehash.RoundReady` | src/basic/hashmap.c:1116-1121 | In every round of the do/while loop fewer entries are settled than there are entries, and there is room for one more. |
| `Rehash.RoundSettles` | src/basic/hashmap.c:1116-1128 | Every round settles exactly one more entry and keeps the contents; this is why the loop ends. |
| `Rehash.AllRehashed` | src/basic/hashmap.c:1130-1131 | After the loop over the old buckets no REHASH mark is left and n_rehashed is the number of entries. |
| `State.EmptiedQuiet` | src/basic/hashmap.c:698-706 | Freshly reset storage is a valid empty table. |
| `State.FreeBucket` | src/basic/hashmap.c:1019-1028 | A table with fewer entries than buckets has a free bucket, by counting. |
| `State.EntriesFit` | src/basic/hashmap.c:1078-1082 | Entries never outnumber buckets. |
| `State.RehashedQuiet` | src/basic/hashmap.c:1092-1131 | After an in-place rehash the table is valid again with the same pairs in the same order, and n_rehashed equals n_entries. |
| `State.RemovedQuiet` | src/basic/hashmap.c:477-529 | A removal gives a valid table again, with just that pair missing. |
| `State.RemovedLowest` | src/basic/hashmap.c:153-156 | After a removal all buckets below idx_lowest_entry are still free. |
| `State.FilledKeepsLowest` | src/basic/hashmap.c:899-904 | Lowering idx_lowest_entry to the bucket filled keeps all buckets below it free. |
| `State.InsertedQuiet` | src/basic/hashmap.c:489-500 | An insertion into a table that may become full leaves a bucket at which a later backward shift stops: the one behind the bucket filled last. |
| `State.RemovalStop` | src/basic/hashmap.c:489-500 | Every valid table, full or not, has a bucket that is free or has DIB 0, so the search for `right` ends. |
| `State.EarlyStopIsExact` | src/basic/hashmap.c:1144-1153 | Stopping at a free bucket or at `dib < distance` never misses a key that is present. |
| `State.MatchIsLookup` | src/basic/hashmap.c:1154-1157 | A match in a bucket is the one pair of the table whose key compares equal. |
| `Insertion.AppendKeepsCore` | src/basic/hashmap.c:962-979 | Linking the new entry in IDX_PUT at the end of the list keeps the invariant; it becomes the newest. |
| `Growth.Log2uRoundUpIsLeast` | src/basic/util.h:95-108 | log2u_round_up is the least exponent that suffices. |
| `Growth.ShiftDefined` | src/basic/hashmap.c:1040-1046 | `1U << new_shift` is defined exactly when at most 2^31 bytes are asked for. |
| `Growth.AddressableJustWhenDefined` | src/basic/hashmap.c:1000-1048 | Making room succeeds without an undefined shift (or nothing needs to be done) exactly when the entries, at the load factor, take at most 2^31 bytes. |
| `Growth.UndefinedShiftJustWhen` | src/basic/hashmap.c:1013-1046 | The undefined shift is reached exactly when the wanted bucket count is above the present one, passes the overflow checks, and takes more than 2^31 bytes; all other requests keep the table, fail with -ENOMEM, or shift by less than 32. |
| `Growth.ShiftOverflows` | src/basic/hashmap.c:1018-1046 | It is reached: a plain hashmap with 8-byte pointers in its largest table takes one more entry after 101058053, and the next one asks for `1U << 32`. |
| `Growth.WantedUnwrapped` | src/basic/hashmap.c:1023-1031 | The overflow check on n + n/4 lets through just the sums that did not wrap. |
| `Growth.SumUnwrapped` | src/basic/hashmap.c:1013-1016 | The overflow check on n_entries + entries_add is exact. |
| `Growth.GrowthDoubles` | src/basic/hashmap.c:1023-1067 | A resize at least doubles the number of buckets, covers n + n/4, and stays below the special indices. |
| `Growth.DibArraysApart` | src/basic/hashmap.c:1056-1069 | So the old and the new DIB array do not overlap in the reallocated storage. |
| `Growth.KeptIsEnough` | src/basic/hashmap.c:1018-1036 | A table that is not resized has room for the entries to add, so `n_entries < n_buckets` holds before each insertion. |
| `Growth.DirectStorageFits` | src/basic/hashmap.c:176-183 | Direct storage has room for at least one entry and for fewer than 8, for every type and pointer size. |
| `Growth.DirectRoom` | src/basic/hashmap.c:72-177 | Entries have 16, 24 and 8 bytes with pointers of 8 bytes (8, 16 and 4 otherwise), direct storage has 39 (35), which is room for 2, 1 and 4 (3, 2 and 7) entries of hashmaps, ordered hashmaps and sets. |
| `Hashmap.HashmapBase.constructor` | src/basic/hashmap.c:708-766 | A new table is valid and empty. |
| `Hashmap.HashmapBase.DecodeDib` | src/basic/hashmap.c:369-395 | For every settled bucket the DIB byte decodes to the true cyclic distance from the home bucket of its key, also when the byte is saturated. |
| `Hashmap.HashmapBase.BucketMoveEntry` | src/basic/hashmap.c:418-452 | The in-place move equals the move on tables, and clears the source. |
| `Hashmap.HashmapBase.HashmapPutRobinHood` | src/basic/hashmap.c:886-932 | The entry in IDX_PUT and those it displaces are settled; contents and list order are kept; it returns true exactly when an entry to be rehashed is left in IDX_PUT; idx_lowest_entry follows. |
| `Hashmap.HashmapBase.FindStopBucket` | src/basic/hashmap.c:489-500 | Finds the first bucket behind idx that is free or has DIB 0. It is idx itself exactly when it is found after n - 1 steps. |
| `Hashmap.HashmapBase.BaseRemoveEntry` | src/basic/hashmap.c:477-529 | Removes just the entry of that bucket by a backward shift, and lowers the count by one. |
| `Hashmap.HashmapBase.BaseBucketScan` | src/basic/hashmap.c:1138-1161 | Finds the entry whose key compares equal if there is one, and terminates also on a full table. |
| `Hashmap.HashmapBase.RehashHomeless` | src/basic/hashmap.c:1116-1128 | The do/while loop ends with IDX_PUT empty and the same contents. |
| `Hashmap.HashmapBase.RehashEntries` | src/basic/hashmap.c:1092-1131 | The loop over the old buckets keeps the contents and visits all of them. |
| `Hashmap.HashmapBase.EnlargeStorage` | src/basic/hashmap.c:1046-1090 | The enlarged storage holds the same entries, all marked as pending, under the new hash key and bucket count; the counters survive the upgrade from direct storage. |
| `Hashmap.HashmapBase.ResizeBuckets` | src/basic/hashmap.c:1000-1132 | Same pairs in the same order under a new hash key and bucket count, or an early -ENOMEM that changes nothing; afterwards there is room for entries_add more. |
| `Hashmap.HashmapBase.HashmapBasePutBoldly` | src/basic/hashmap.c:944-991 | The new pair is appended, or -ENOMEM and nothing changes. |
| `Hashmap.HashmapBase.HashmapPut` | src/basic/hashmap.c:1164-1184 | 1, 0, -EEXIST or -ENOMEM exactly as the abstract contents say; only a 1 changes anything, and then appends the pair. |
| `Hashmap.HashmapBase.SetPut` | src/basic/hashmap.c:1186-1201 | The same for sets, where a key that is there gives 0. |
| `Hashmap.HashmapBase.Get` | src/basic/hashmap.c:1203-1217 | The value of the stored pair whose key compares equal, for a hashmap, ordered or not; for a set the stored key; NULL if there is no such pair. |
| `Hashmap.HashmapBase.Contains` | src/basic/hashmap.c:1219-1227 | True exactly if a stored key compares equal. |
| `Hashmap.HashmapBase.Remove` | src/basic/hashmap.c:1229-1247 | The same answer, and just that pair is gone; or NULL and no change. |
| `Hashmap.HashmapBase.Size` | src/basic/hashmap.c:1280-1286 | The number of stored pairs. |
| `Hashmap.HashmapBase.Clear` | src/basic/hashmap.c:826-844 | Back to empty direct storage. |
| `HashmapIterate.SkipFreeBuckets` | src/basic/hashmap.c:401-411 | The first bucket in use from an index on, or IDX_NIL if all are free. |
| `HashmapIterate.IterateInInsertionOrder` | src/basic/hashmap.c:532-581 | Returns the k-th oldest entry and points the iterator at the next one. |
| `HashmapIterate.IterateInInternalOrder` | src/basic/hashmap.c:583-636 | Returns the first bucket in use from the iterator's position on, allowing for one backward shift of the remembered entry. |
| `HashmapIterate.FirstKeyAndValue` | src/basic/hashmap.c:1249-1278 | Key and value of the first entry, the oldest one of an ordered table; for a set the key is the value, for hashmaps what was put. Removes it if asked to. |
| `HashmapIterate.ClearWithDestructor` | src/basic/hashmap.h:177-183 | The loop destroys values of entries taken off, each once, oldest first in an ordered table, and stops at the first NULL value. All values are destroyed if and only if none is NULL; the table is emptied if and only if no value but that of the entry to be taken off last is NULL (the newest one, or in a plain table or set the one in the last bucket in use). For sets the values are the keys. |
| `HashmapIterate.FirstIsNotTheLast` | src/basic/hashmap.c:1249-1278 | Taking off the first entry leaves the last one in its role, although the shift may move entries. |
| `Witnesses.LeftBehind` | src/basic/hashmap.h:177-183 | An ordered table with the values NULL and 7: nothing is destroyed, and the second entry stays. |
| `HashmapIterate.OrderedForeach` | src/basic/hashmap.c:532-581 | Iterating an ordered table while removing any of the current entries visits every entry exactly once, in insertion order, and removes just those. The exception is a loop that is misled to a free bucket: it has done all that up to the removal of an entry right before one with a NULL key. It is not misled if that entry is in its own bucket. |
| `HashmapIterate.PlainForeach` | src/basic/hashmap.c:583-636 | Iterating a plain table with a body that decides at every visit whether to remove the current entry skips no entry and removes just those, unless it is misled to a free bucket. Every entry is visited exactly once if nothing is removed, and also for every choice of removals if the first or the last bucket is free or holds an entry with DIB 0; otherwise removing just the entry in the last bucket but one makes the loop visit an entry twice. No choice of removals misleads it if an entry with a NULL key, if there is one, is harmless (a condition on the table before the loop); the body of `MisledLoop.MisleadIsPossible` misleads it otherwise. |
| `PlainLoop.RevisitIsPossible` | src/basic/hashmap.c:583-636 | If both the first and the last bucket hold displaced entries, there is a body for which the loop visits an entry twice. |
| `PlainLoop.BehindStaysBehind` | src/basic/hashmap.c:504-528 | If not, a removal brings no entry behind the loop back in front of it. |
| `PlainLoop.NoWayOpens` | src/basic/hashmap.c:504-528 | That one of the two is free or at home is kept by every removal in front of the last bucket. |
| `PlainLoop.EntryCrosses` | src/basic/hashmap.c:504-528 | If both are displaced, the removal of the entry in the last bucket but one carries that in the first bucket over to the last. |
| `PlainLoop.ProgressKept` | src/basic/hashmap.c:583-636 | A visit without removal keeps what the loop has achieved: nothing skipped, removals accounted for, each entry behind the loop if revisits are ruled out, some entry in front of it again (or the fatal removal still to come) if they are certain. |
| `PlainLoop.ProgressRemoved` | src/basic/hashmap.c:583-636 | So does a visit with removal, with the shift taken into account. |
| `PlainLoop.EndProgress` | src/basic/hashmap.c:583-636 | When no bucket in use is left, that is what the loop promises. |
| `Witnesses.VisitedTwice` | src/basic/hashmap.c:583-636 | A set of three keys with home bucket 2 of four, and a body that removes one entry: the loop visits an entry twice. |
| `Witnesses.StopsAtItself` | src/basic/hashmap.c:489-500 | A full table of two buckets whose keys are both at home in bucket 0: removing the first entry, the search for the stop bucket ends at that bucket. |
| `Cursor.OrderedCursorSurvives` | src/basic/hashmap.c:545-566 | After the current entry is removed, the iterator of an ordered table still finds the next one, also if the shift moved it back by one bucket, if and only if that one's key is not NULL or it is not the last one that the shift moves. |
| `Cursor.PlainCursorSurvives` | src/basic/hashmap.c:596-622 | The same for a plain table, with the same condition. |
| `Cursor.AheadStaysAhead` | src/basic/hashmap.c:596-622 | After such a removal, everything that lay in front of the iterator still does. |
| `Cursor.FreedBucket` | src/basic/hashmap.c:504-528 | Of the buckets in use, a removal leaves just the last one free that it shifts. |
| `Cursor.KeyLocates` | src/basic/hashmap.c:552-563 | The remembered key shows in which bucket the next entry is, with one exception: a free bucket shows a NULL key. |
| `Witnesses.NullKeyMisleads` | src/basic/hashmap.c:596-622 | A set with a NULL key: after a removal during the iteration the iterator takes a free bucket for the next entry. |
| `NullKeyLoop.NotMisled` | src/basic/hashmap.c:596-622 | Where the entry with the NULL key is harmless (it has DIB 0; or it is not in the last bucket, has not come across the end of the table by more than one bucket, and the entry behind it is displaced as far as it, or as far as it is from the first bucket), the removal of the first entry in front of the loop does not mislead it. |
| `NullKeyLoop.HarmlessRemoved` | src/basic/hashmap.c:504-528 | No removal during the loop makes it harmful. |
| `NullKeyLoop.NullStaysAtHome` | src/basic/hashmap.c:504-528 | An entry with a NULL key in its own bucket stays there. |
| `MisledLoop.MisleadIsPossible` | src/basic/hashmap.c:583-636 | Where it is not harmless, there is a body that misleads the loop. |
| `MisledLoop.StageKept` | src/basic/hashmap.c:583-636 | A visit without removal keeps the loop on its way to be misled. |
| `MisledLoop.StageRemoved` | src/basic/hashmap.c:504-528 | A visit with removal misleads it or keeps it on its way. |
| `MisledLoop.AcrossTheEnd` | src/basic/hashmap.c:504-528 | The removal in the last bucket but one that takes the entry with the NULL key from the first bucket to the last. |
| `MisledLoop.StageIsNotLast` | src/basic/hashmap.c:583-636 | Such a loop does not end before it is misled. |
| `HashmapRun.Execute` | src/basic/hashmap.c:1138-1278 | Every operation on a table is a step of the abstract machine, with the same answer. |
| `HashmapRun.Run` | src/basic/hashmap.c:1138-1278 | Every run of put, get, contains, remove, steal-first and clear, of any length, is a run of the abstract machine with the same answers, if in whatever state the abstract machine comes to a put, that put does not reach the undefined shift. |
| `HashmapRun.FewPutsDefined` | src/basic/hashmap.c:1000-1048 | That is so whenever the pairs stored plus the puts of the run, at the load factor, take at most 2^31 bytes. |
| `HashmapRun.StepKeepsSound` | src/basic/hashmap.c:1164-1247 | Keys stay pairwise different under every step. |
| `HashmapRun.PutBinds` | src/basic/hashmap.c:1164-1201 | A put that returns 1 binds the key under all equal keys and leaves all other bindings alone. |
| `HashmapRun.RemoveUnbinds` | src/basic/hashmap.c:1229-1247 | A remove unbinds the key under all equal keys and leaves all other bindings alone. |
| `HashmapRun.BindingDecides` | src/basic/hashmap.c:1203-1247 | The binding of its key decides what a get or a remove answers: the value, for a set the stored key, or NULL. |
| `HashmapRun.PutThenGet` | src/basic/hashmap.c:1164-1217 | After a put that returns 1, a get of any equal key answers the value put, for a set the key put. |
| `HashmapRun.BindingLasts` | src/basic/hashmap.c:1164-1247 | A binding lasts over any run that does not remove its key, steal, or clear. |
| `HashmapRun.RunKeepsOrder` | src/basic/hashmap.c:962-979 | Two pairs that stay in the table keep their order over any run, whatever is put, removed or resized. |
| `Prioq.UpStep` | src/basic/prioq.c:92-109 | Swapping a too small item with its parent keeps all other edges of the heap. |
| `Prioq.DownStep` | src/basic/prioq.c:111-149 | Swapping a too large item with its smaller child keeps all other edges of the heap. |
| `Prioq.SmallerChild` | src/basic/prioq.c:115-142 | What the two comparisons single out is the smaller child if some child is smaller, or else the item itself. |
| `Prioq.RootIsLeast` | src/basic/prioq.c:253-262 | No item comes before the root. |
| `Prioq.RegisteredIsFound` | src/basic/prioq.c:213-237 | A registered item is found through its cell just where it is, and the linear scan agrees where the data is unique. |
| `Prioq.Prioq.Swap` | src/basic/prioq.c:67-90 | Two items change places and both cells follow. |
| `Prioq.Prioq.ShuffleUp` | src/basic/prioq.c:92-109 | Gives back a heap of the same items with correct cells. |
| `Prioq.Prioq.ShuffleDown` | src/basic/prioq.c:111-149 | At most the edge to the parent is wrong afterwards; same items, correct cells. Asked for is that the loop comes to no item whose children it computes wrong, unless it ends there. |
| `Prioq.NextDownRight` | src/basic/prioq.c:115-142 | Below index 2^31 the indices of the children are right, and a turn of the loop finds the smaller child or ends rightly; so it does if it ends anywhere else. |
| `Prioq.LowShuffleRight` | src/basic/prioq.c:111-149 | The loop goes right if neither the item it starts with nor a descendant is at index 2^31 or above. |
| `Prioq.FewRemovable` | src/basic/prioq.c:183-211 | So every item of at most 2^31 + 1 can be taken off. |
| `Prioq.ChildrenWrong` | src/basic/prioq.c:115-121 | From index 2^31 on they wrap around to the children of another item. |
| `PrioqLimits.PopNeverEnds` | src/basic/prioq.c:111-149 | For every number of items above 2^31 + 1 there is a heap on which prioq_pop does not come to an end: the item shuffled down goes around in a circle. |
| `PrioqLimits.CirclesOn` | src/basic/prioq.c:115-148 | Every turn of the loop moves that item on along the circle. |
| `Prioq.Prioq.Put` | src/basic/prioq.c:151-181 | Adds the item and keeps heap order and cells, or -ENOMEM and the queue is as it was; the array grows exactly when it is full. Asked for is only that a new size does not wrap around. |
| `Prioq.CapacitySuffices` | src/basic/prioq.c:158-167 | The size of the new array, an unsigned, exceeds the number of items if and only if (n + 1) * 2 does not wrap around. |
| `Prioq.CapacityWraps` | src/basic/prioq.c:158-167 | It does: a queue that only grows gets room for 16, 34, 70, ..., 2415919102 items, and then for 536870910. |
| `Prioq.Prioq.RemoveItem` | src/basic/prioq.c:183-211 | Removes exactly that item from anywhere, if shuffle_down goes right for it; down and then up restores the heap. |
| `Prioq.Prioq.FindItem` | src/basic/prioq.c:213-237 | The position recorded in the cell if its item has that data, or without a cell the first item with it. |
| `Prioq.Prioq.Remove` | src/basic/prioq.c:239-251 | 1 and the found item is gone, or 0 and nothing has changed. |
| `Prioq.Prioq.Peek` | src/basic/prioq.c:253-262 | An item that no other comes before, or NULL. |
| `Prioq.Prioq.Pop` | src/basic/prioq.c:264-276 | Takes such an item off. |
| `Prioq.FoundInBag` | src/basic/prioq.c:213-237 | What is found belongs to the bag of items; through a cell in use it is the very item registered with it; nothing found means nothing to find. |
| `Prioq.Execute` | src/basic/prioq.c:151-276 | Every operation keeps heap order and cells and is an operation of the bag of items; it adds no cell but the one put in. Asked for is only what each operation asks in that state of the queue. |
| `Prioq.Run` | src/basic/prioq.c:151-276 | Every run of put, remove and pop is a run of the bag of items with the same answers and keeps heap order and cells, if in whatever state the bag comes to an operation, its cell is not in use, a new size does not wrap around, and there is nothing to take off or there are at most 2^31 + 1 items. A cell may be used again once its item is gone. |
| `Prioq.FewPutsAdmissible` | src/basic/prioq.c:151-276 | That is so whenever the items stored plus the puts of the run are fewer than 2^31 and no cell is put in twice or is in use already. |
| `Prioq.RunGrowsByPuts` | src/basic/prioq.c:151-276 | Over any run the items are at most those stored and those put, and the cells held were held before or put in. |
| `Prioq.Drain` | src/basic/prioq.c:264-276 | Draining by pop gives a sorted permutation. |
| `SipHash.AbsorbSplit` | src/basic/siphash24.c:113-124 | Compressing whole words one string after the other is compressing their concatenation. |
| `SipHash.CollectedIsLittleEndian` | src/basic/siphash24.c:127-151 | Collecting the bytes of a word from the last one down gives its little-endian value. |
| `SipHash.LastWord` | src/basic/siphash24.c:154-173 | The partial word with the length in its top byte is the last word of the padded message of section 2 of the SipHash paper. |
| `SipHash.LengthOnTop` | src/basic/siphash24.c:159-159 | inlen << 56 is the low byte of the length in the top byte of the word. |
| `SipHash.Siphash.constructor` | src/basic/siphash24.c:51-69 | The initial state for the key, nothing fed; the text it is made of is in `SipHashExample.InitialText`. |
| `SipHash.Siphash.Round` | src/basic/siphash24.c:32-49 | The sequential round is the SipRound of the paper. |
| `SipHash.Siphash.Compress` | src/basic/siphash24.c:71-152 | Afterwards the state is that of all bytes fed so far: whole words compressed, the last `inlen mod 8` bytes little-endian in the padding word, the length modulo 2^64. |
| `SipHash.Siphash.CollectPadding` | src/basic/siphash24.c:127-151 | The falling-through switch puts just the remaining bytes into the padding word. |
| `SipHash.Siphash.Finalize` | src/basic/siphash24.c:154-188 | SipHash-2-4 of everything fed; what that is for the example of the paper is in `SipHashExample.Example`. |
| `SipHash.HashPieces` | src/basic/siphash24.c:71-188 | However the input is cut into pieces, the hash is that of the concatenation. |
| `SipHash.SameInputSameState` | src/basic/siphash24.c:71-152 | The state depends on the key and the concatenated input only, and the padding word is 0 on a word boundary. |
| `SipHashExample.InitialText` | src/basic/siphash24.c:51-69 | The state is initialized with "somepseudorandomlygeneratedbytes", to which the words of the key are added in turn. |
| `SipHashExample.RoundAt` | src/basic/siphash24.c:32-49 | The eight rounds of the example, on literals. |
| `SipHashExample.Example` | src/basic/siphash24.c:51-188 | The example of Appendix A of the SipHash paper: with the key 00 01 ... 0f, the hash of 00 01 ... 0e is a129ca6149be45e5. |
| `Sha256.HashBlocksSplit` | src/fundamental/sha256-fundamental.c:236-293 | Folding blocks of a then b is folding those of a + b. |
| `Sha256.PrepareSchedule` | src/fundamental/sha256-fundamental.c:257-263 | The message schedule of section 6.2.2 of FIPS 180-2. |
| `Sha256.ProcessOne` | src/fundamental/sha256-fundamental.c:236-293 | One turn of the loop is the hash computation of section 6.2.2 of FIPS 180-2 for one block; rotation amounts and functions are fixed by the examples, constants by their roots. |
| `Sha256.KeptGrows` | src/fundamental/sha256-fundamental.c:155-210 | When more data arrives and k of the bytes at hand are processed, hash value, byte count and remaining bytes are those of the longer message. |
| `Sha256.FillLengthLeast` | src/fundamental/sha256-fundamental.c:136-137 | The number of fill bytes is the least that leaves room for the length. |
| `Sha256.LengthInWords` | src/fundamental/sha256-fundamental.c:139-142 | The two shifted halves of the byte count are the length in bits as a 64-bit big-endian number. |
| `Word32.ShiftedWord` | src/fundamental/sha256-fundamental.c:142-144 | A word shifted by three bits, or-ed with the upper three bits of another one, is eight times a number modulo 2^32 plus the carry from the lower one: proved on bits. |
| `Sha256.LengthStored` | src/fundamental/sha256-fundamental.c:139-144 | The two words stored, computed with shifts and or, are the length field of the padding. |
| `Sha256.PaddedTail` | src/fundamental/sha256-fundamental.c:127-142 | The bytes added to the buffer are those section 5.1.1 of FIPS 180-2 adds to the message. |
| `Word32.WordBytesInverse` | src/fundamental/sha256-fundamental.c:150-151 | The bytes a word is written as are those a block is read from: both are big-endian. |
| `Sha256.Sha256Ctx.constructor` | src/fundamental/sha256-fundamental.c:109-123 | The initial hash value, nothing fed. |
| `Sha256.Sha256Ctx.ProcessBlock` | src/fundamental/sha256-fundamental.c:214-305 | Folds the blocks into the hash value and adds to the byte count. |
| `Sha256.Sha256Ctx.FillBuffer` | src/fundamental/sha256-fundamental.c:162-183 | Completes the buffered bytes to one or two blocks. |
| `Sha256.Sha256Ctx.ProcessUnaligned` | src/fundamental/sha256-fundamental.c:191-197 | The copying loop leaves 1 to 64 bytes and has the same effect as processing in place. |
| `Sha256.Sha256Ctx.KeepRest` | src/fundamental/sha256-fundamental.c:200-209 | Buffers what remains, and processes it if it is a whole block. |
| `Sha256.Sha256Ctx.ProcessBytes` | src/fundamental/sha256-fundamental.c:155-210 | For every alignment the context holds the concatenation of all data; 64 bytes wait exactly when bytes already waiting and the new ones add up to 64. |
| `Sha256.Sha256Ctx.FinishCtx` | src/fundamental/sha256-fundamental.c:127-153 | The digest of FIPS 180-2 of all data fed. |
| `Sha256.Sha256Direct` | src/fundamental/sha256-fundamental.c:307-312 | The digest of the data. |
| `Sha256.DigestPieces` | src/fundamental/sha256-fundamental.c:127-210 | However a message is cut, and wherever the pieces start in memory, the digest is that of the whole. |
| `Sha256Examples.AbcDigest` | src/fundamental/sha256-fundamental.c:214-312 | Appendix B.1 of FIPS 180-2: the digest of "abc". |
| `Sha256Examples.LongDigest` | src/fundamental/sha256-fundamental.c:214-312 | Appendix B.2 of FIPS 180-2: the digest of a message of 56 bytes, which takes two blocks. |
| `Sha256Constants.PrimesInOrder` | src/fundamental/sha256-fundamental.c:86-103 | The 64 numbers whose roots are taken are the first 64 primes. |
| `Sha256Constants.ConstantsAreCubeRoots` | src/fundamental/sha256-fundamental.c:86-103 | K holds the first 32 bits of the fractions of the cube roots of the first 64 primes (section 4.2.2 of FIPS 180-2). |
| `Sha256Constants.CubeRootIsUnique` | src/fundamental/sha256-fundamental.c:86-103 | There is only one such word for each number. |
| `Sha256Constants.InitialHashIsSquareRoots` | src/fundamental/sha256-fundamental.c:109-123 | The initial hash value holds those of the square roots of the first eight (section 5.3.2). |
| `Paths.PathCompare` | src/basic/path-util.c:59-103 | -1, 1 or 0 as paths are sorted: relative before absolute ones; a path before the longer ones it starts; or else by the first names that differ, a name before the longer ones it starts, or else by the first bytes that differ. |
| `Paths.ComparePathsSorts` | src/basic/path-util.c:59-103 | That order, in terms of components and bytes only. |
| `PathExamples.Compared` | src/basic/path-util.c:59-103 | "foo" comes before "/foo", that before "//foo//bar/" and before "/g". |
| `PathExamples.FooBar` | src/basic/path-util.c:59-103 | The components of "//foo//bar/" are "foo" and "bar". |
| `Paths.CompareNamesByMemcmp` | src/basic/path-util.c:90-98 | memcmp over the shorter length and then the lengths is the lexicographic order of names. |
| `Paths.ComparePathsOrder` | src/basic/path-util.c:59-103 | The result is -1, 0 or 1, changes sign when the arguments are swapped, and is 0 exactly for equal absoluteness and components. |
| `Paths.ComparePathsTransitive` | src/basic/path-util.c:59-103 | The order is transitive. |
| `Paths.PathStartsWith` | src/basic/path-util.c:16-57 | Succeeds exactly if absoluteness agrees and the components of prefix start those of path; what is returned is a suffix of path with just the remaining components. |
| `Paths.StartsWithBothWays` | src/basic/path-util.c:16-103 | Two paths start each other exactly when path_compare gives 0. |
| `HashFuncs.PathHashFunc` | src/basic/hash-funcs.c:24-61 | Feeds exactly the canonical form of the path to the hash. |
| `PathExamples.FooBarHashed` | src/basic/hash-funcs.c:24-61 | "//foo//bar/" is hashed as "/foo/bar". |
| `HashFuncs.ComponentsOfJoined` | src/basic/hash-funcs.c:34-60 | Splitting undoes joining with single slashes. |
| `HashFuncs.CanonicalIsSamePath` | src/basic/hash-funcs.c:24-61 | The bytes that are hashed are themselves a path that path_compare does not tell from the original. |
| `HashFuncs.SameBytesWhenEqual` | src/basic/hash-funcs.c:24-65 | Two paths feed the hash the same bytes exactly when path_compare gives 0. |
| `HashFuncs.StringHashFunc` | src/basic/hash-funcs.c:11-13 | Feeds the string with its terminating NUL. |
| `HashFuncs.PathHash` | src/basic/hashmap.c:298-309 | The hash of a path under a hash key, as a table computes it. |
| `HashFuncs.StringHash` | src/basic/hashmap.c:298-309 | The same for strings. |
| `HashFuncs.PathHashOpsLawful` | src/basic/hash-funcs.c:67-70 | path_hash_ops meets what a table needs of its callbacks: equality is an equivalence, and equal paths hash equally under every key. |
| `HashFuncs.StringHashOpsLawful` | src/basic/hash-funcs.c:19-22 | So does string_hash_ops. |
| `Signature.ElementAnywhere` | src/libsystemd/sd-bus/bus-signature.c:9-98 | A type recognized at the start of a string is recognized wherever the same characters appear, and less deeply nested. |
| `Signature.TextIsElement` | src/libsystemd/sd-bus/bus-signature.c:9-98 | The signature of every type that keeps the rules (at most 32 arrays and at most 32 structures and dictionary entries around a type, no empty structure, dictionary entries only as array elements or where allowed, and with a basic key) is recognized as that type, whatever follows. |
| `Signature.ElementIsText` | src/libsystemd/sd-bus/bus-signature.c:9-98 | And only such a signature is: what is recognized is the signature of a type that keeps the rules. |
| `Signature.CompleteIsTexts` | src/libsystemd/sd-bus/bus-gvariant.c:16-105 | A signature of which no type is rejected, one after the other, is that of a sequence of such types. |
| `Signature.TextsAreComplete` | src/libsystemd/sd-bus/bus-gvariant.c:16-105 | The signature of every sequence of such types is accepted, type by type, and gives the types back. |
| `Signature.ContainerParsed` | src/libsystemd/sd-bus/bus-gvariant.c:66-82 | The inside of an array, structure or dictionary entry is a complete signature of its member types. |
| `Gvariant.AlignmentsIsGreatest` | src/libsystemd/sd-bus/bus-gvariant.c:107-185 | The alignment of a signature is the greatest of its types', or 1. |
| `Gvariant.AlignToLeast` | src/basic/macro.h:87-89 | ALIGN_TO gives the least multiple that is large enough. |
| `Gvariant.SizesIsLeast` | src/libsystemd/sd-bus/bus-gvariant.c:16-105 | The size of a fixed-size container is the least multiple of its alignment in which its members fit at aligned places, in order and without overlap. |
| `Gvariant.DictEntryAsPair` | src/libsystemd/sd-bus/bus-gvariant.c:66-86 | A dictionary entry is laid out as a structure of its key and value. |
| `Gvariant.GetAlignment` | src/libsystemd/sd-bus/bus-gvariant.c:107-185 | The greatest alignment for every well-formed signature; for others an error unless alignment 8 is reached first. |
| `Gvariant.IsFixedSize` | src/libsystemd/sd-bus/bus-gvariant.c:187-243 | 1 exactly for well-formed signatures of fixed-size types; 0 if a complete type of variable size comes before any malformed part. |
| `Gvariant.GetSize` | src/libsystemd/sd-bus/bus-gvariant.c:16-105 | The size for every well-formed signature of fixed-size types, and -EINVAL for all others. |
| `Gvariant.BasicCodes` | src/libsystemd/sd-bus/bus-type.c:33-51 | The codes of basic types are just y, b, n, q, i, u, h, x, t, d, s, o and g. |
| `Gvariant.CodeLayout` | src/libsystemd/sd-bus/bus-gvariant.c:16-185 | Size and alignment of each code: 1 for y and b, 2 for n and q, 4 for i, u and h, 8 for x, t and d; no size and alignment 1 for s, o and g, no size and alignment 8 for v; no other character is a type. |
| `Gvariant.ArrayLayout` | src/libsystemd/sd-bus/bus-gvariant.c:16-185 | An array has the alignment of its elements, and no fixed size. |
| `Gvariant.FixedJustWhenSized` | src/libsystemd/sd-bus/bus-gvariant.c:16-243 | is_fixed_size says yes exactly when get_size succeeds. |
| `Gvariant.UnitTypeIsMalformed` | src/libsystemd/sd-bus/bus-gvariant.c:68-71 | The special case for `()` is never reached: the type is not accepted, and get_size fails. |
| `Gvariant.LeastWordSize` | src/libsystemd/sd-bus/bus-gvariant.c:245-254 | For all size_t values the word size is the least one in which the offsets fit, if and only if sz + 4 * extra does not wrap around, or all three sums are above their limits in spite of it. |
| `Gvariant.WordSizeWrapsAround` | src/libsystemd/sd-bus/bus-gvariant.c:245-254 | An input for which it is too small because a sum wraps around. |
| `Gvariant.ReadAfterWrite` | src/libsystemd/sd-bus/bus-gvariant.c:256-303 | Reading gives back any value that fits the width. |
| `Gvariant.WriteAfterRead` | src/libsystemd/sd-bus/bus-gvariant.c:256-303 | Writing what was read gives back the bytes. |
| `Gvariant.WriteWordLe` | src/libsystemd/sd-bus/bus-gvariant.c:280-303 | Writes the value little-endian and nothing else. |
| `Gvariant.ReadWordLe` | src/libsystemd/sd-bus/bus-gvariant.c:256-278 | What is read, width by width from single bytes and halves, is the little-endian value of the bytes. |
| `Gvariant.ValueSplit` | src/libsystemd/sd-bus/bus-gvariant.c:256-278 | The little-endian value of two strings of bytes one after the other is that of the first plus that of the second shifted behind it. |
| `Gvariant.WriteThenRead` | src/libsystemd/sd-bus/bus-gvariant.c:256-303 | Reading a word just written gives the value back. |
| `Utf8.ValidUnichars` | src/basic/utf8.c:34-46 | The valid characters are the Unicode scalar values other than noncharacters. |
| `Utf8.EncodingDigits` | src/basic/utf8.c:168-201 | The encoding of section 3 of RFC 3629 in numbers: a first byte that tells the length, and the digits to the base 64. |
| `Utf8.EncodingExamples` | src/basic/utf8.c:168-201 | The examples of section 7 of RFC 3629. |
| `Utf8.EncodedToUnichar` | src/basic/utf8.c:72-114 | Decodes if the right number of continuation bytes follows, and fails otherwise. |
| `Utf8.BitsOfBytes` | src/basic/utf8.c:81-110 | Which bits of the first byte and of the others are put together, in numbers. |
| `Utf8.EncodedIsAccepted` | src/basic/utf8.c:168-201 | The encoding of a valid character is accepted and that character is recovered. |
| `Utf8.AcceptedIsEncoded` | src/basic/utf8.c:168-201 | What is accepted is the encoding, of section 3 of RFC 3629, of the valid character recovered; so overlong forms, surrogates and 5- or 6-byte forms never are. |
| `Utf8.AcceptedJustWhenEncoded` | src/basic/utf8.c:168-201 | A character is accepted exactly when the string starts with the encoding of a valid one. |
| `Utf8.EncodingIsPrefixFree` | src/basic/utf8.c:168-201 | No encoding starts another. |
| `Utf8.EncodedValidUnichar` | src/basic/utf8.c:168-201 | Returns the length of what is accepted, or -EINVAL; at the end of the string 1, for its NUL. |
| `Utf8.Utf8IsValid` | src/basic/utf8.c:116-133 | Accepts exactly the concatenations of encodings of valid characters. |
| `Utf8.TextIsUnique` | src/basic/utf8.c:116-133 | A text is determined by its encoding. |
| `Cellescape.EscapeIsPrintable` | src/basic/escape.c:10-73 | Escape sequences consist of printable ASCII only. |
| `Cellescape.Escapes` | src/basic/escape.c:10-73 | The sequence of every character: a letter after a backslash for BEL, BS, FF, LF, CR, HT and VT, a backslash before backslashes and quotation marks, other printable characters as they are, three octal digits for the rest. |
| `Cellescape.EllipsisIs` | src/basic/string-util.c:164-176 | The ellipsis is three dots, or U+2026 in UTF-8. |
| `Cellescape.CellExample` | src/basic/string-util.c:332-400 | "abcdefgh" in six bytes is "ab...". |
| `Cellescape.EscapeIsPrefixFree` | src/basic/escape.c:10-73 | No escape sequence starts another. |
| `Cellescape.FullIsInjective` | src/basic/escape.c:10-73 | Different strings look different when escaped in full. |
| `Cellescape.CescapeChar` | src/basic/escape.c:10-73 | Writes the escape sequence of one character. |
| `Cellescape.RingStep` | src/basic/string-util.c:366-368 | The ring of widths always holds those of the last four characters. |
| `Cellescape.BackOff` | src/basic/string-util.c:372-386 | Stepping back finds the longest prefix of whole sequences that leaves room for the ellipsis; four remembered widths always suffice. |
| `Cellescape.CellEscape` | src/basic/string-util.c:332-400 | The full escape if it fits; or else the longest prefix of whole sequences with an ellipsis; in buffers of less than 4 bytes just dots. Nothing beyond len is written, and the result ends in NUL. |
| `Cellescape.CellIsUnique` | src/basic/string-util.c:332-400 | That determines the result. |
| `BusLabel.RoundTrip` | src/basic/bus-label.c:9-80 | Unescaping an escaped string gives it back, also when it is empty. |
| `BusLabel.EscapeIsInjective` | src/basic/bus-label.c:9-44 | Different strings get different labels. |
| `BusLabel.EscapedIsLabel` | src/basic/bus-label.c:9-44 | A label is not empty, consists of letters, digits and underscores ("Valid Object Paths" in the D-Bus Specification), does not start with a digit, and is at most three times as long as the string. |
| `BusLabel.EscapedChars` | src/basic/bus-label.c:9-44 | Which characters are left alone, and the two hex digits of all others. |
| `BusLabel.HexValues` | src/basic/bus-label.c:46-80 | The values of hex digits, the letters also in upper case, and of two of them. |
| `BusLabel.OnlyHexDigits` | src/basic/bus-label.c:46-80 | There are no other hex digits. |
| `BusLabel.LabelExamples` | src/basic/bus-label.c:9-44 | "a.1" becomes "a_2e1", "1" becomes "_31", and the empty string "_". |
| `BusLabel.LabelEscape` | src/basic/bus-label.c:9-44 | Fills a buffer of 3n + 1 bytes (2 for the empty string) with the label and a NUL. |
| `BusLabel.LabelUnescapeN` | src/basic/bus-label.c:46-80 | Fills a buffer of l + 1 bytes (one for a lone underscore) with the string and a NUL; what is no escape code is taken literally. |

## Left out

- HashmapRun.Execute: a steal-first from a plain table or a set takes some entry; which one is said by `HashmapIterate.FindFirstEntry` only.
- HashmapIterate.OrderedForeach: does not go on after the iterator has taken a free bucket for the next entry, nor does `PlainForeach`; for ordered tables the condition on the table before the loop (an entry with a NULL key is in its own bucket, or no entry before it in the list is removed) is sufficient only.
- Prioq.Prioq.RemoveItem: asks that shuffle_down goes right, as do `Remove` and `Pop`; a shuffle that has gone wrong may still end with a heap.
- Prioq.Run: for more than 2^31 + 1 items excludes removals that happen to go right, which the bag of items does not show; `Prioq.Execute` does not.
- Prioq.Drain: is about at most 2^31 + 1 items.
- Debug bookkeeping, IteratedCache and its dirty flag, the memory pools and the locks of hashmap.c.
- The packed union of direct and indirect storage: the model has one pair of arrays and says which kind of storage it is, so byte layout and memmove of the DIB array are covered only by `Growth.DibArraysApart`.
- How hash keys are drawn and shared; a table is given its shared key, and every resize the key to use.
- NULL as the table argument.
- hashmap_clear_free and the other destructors, get_strv, set_consume, set_put_strdup: they only combine what is modelled.
- Iterators of several loops at once over one table, and loops that put or remove other entries than the current one.
- trivial_hash_ops, uint64_hash_ops and devt_hash_ops, whose callbacks read and compare fixed-size keys.
- prioq_reshuffle is not part of the repository; prioq_free and prioq_ensure_allocated only allocate and free.
- SHA-256 of messages of 2^61 bytes or more is that of the padding with the length taken modulo 2^64, for which FIPS 180-2 has no definition.
- The rest of utf8.c, string-util.c, escape.c, path-util.c and hexdecoct.c.
- hmac.c, json.c, xml.c, the D-Bus message code, and everything that talks to the operating system.

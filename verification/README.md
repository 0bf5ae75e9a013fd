# Storage engine and message codec: a verified model

This project models two libraries that the application vendors, and proves what
their callers rely on.

**The storage engine** (`KD Tiktok-Clone/Pods/leveldb-library`) is a multi-version
key/value store. A put or delete becomes an entry with a sequence number; a read
at a sequence number sees, per user key, the newest entry at or below it. The
model covers internal keys, the skip list (as linked nodes changed in place, and
once more as a machine of single-pointer steps with concurrent readers), the
memtable, the list of live snapshots, the log file with its reader and writer,
the compaction loop, the bidirectional iterator, the writer queue, and the store
as a whole: commits, memtable switches, flushes, compactions, snapshots, reads
that hold on to what they captured, log files and recovery.

**The message codec** (`KD Tiktok-Clone/Pods/nanopb`) encodes and decodes structs
by descriptors, in the wire format of the Protocol Buffers Encoding
specification, sections "Base 128 Varints", "Message Structure", "Signed
Integers", "Submessages" and "Packed Repeated Fields". The model covers output
streams that write or only count, input streams and substreams, varints, the
cyclic field iterator, the encoder with its sizing passes, and the decoder with
its defaults, fixed-count arrays and bitmap of required fields.

## How the files belong together

| files | about |
|---|---|
| `Bytes`, `Wrappers`, `Operations` | bytes, options, user operations |
| `DbFormat`, `Views` | internal keys; what a set of entries means to a user |
| `SkipLayout`, `SkipList`, `SkipListConcurrent`, `SkipListInserts`, `MemTable` | the in-memory table |
| `SnapshotList`, `DbIter`, `Compaction`, `CompactionExact` | live snapshots, the iterator, the compaction loop |
| `LogFormat`, `LogWriter`, `LogReader` | the log file, its writer and its reader |
| `LogRecovery`, `LogDamage`, `LogBytes` | whole and torn logs, damaged blocks, the bytes of a log written out |
| `LogSize`, `LogAstray`, `LogPlace`, `LogFailure` | failed appends: what is lost after them, and exactly when nothing is |
| `GroupCommit`, `CommitOutcomes`, `Durability` | the writer queue, as a protocol and as methods; errors and numbers; what ok means for the bytes of the log |
| `History`, `Engine`, `EngineSafety` | the reference history, the store's steps, what they keep |
| `SnapshotReads`, `EngineProgress` | which state a read answers for; what can always go on |
| `DbFiles`, `ManifestFiles`, `TableFiles`, `CrashRecovery` | which files are kept, replaying a log, a crash and what is found after it |
| `Streams`, `Varint`, `LongVarint`, `VarintLimits`, `Descriptor`, `FieldIter` | streams, numbers, field descriptors, the field iterator |
| `PbEncode`, `PbDecode`, `PbRoundTrip`, `PbUnknown` | encoder, decoder, round trip, unknown and required fields |
| `WireFormat`, `PbWire` | the wire format as a grammar of its own, and what the encoder writes in its terms |
| `PbValues`, `PbPresence`, `PbReencode` | what the decoder takes from the wire, absent and repeated fields, encoding again what was decoded |

Code that changes things step by step is a method or a class with loops, proved
against a function that says what it computes; what users rely on is then proved
about that function. Concurrent code is a state machine over its atomic steps,
and its results hold for every run.

The engine's main results read as follows. `Engine.Steps` lists what may happen,
in any order. `EngineSafety.SnapshotIsolation` says that every read returns what
`History.Replay` gives for a whole number of batches. It rests on one invariant,
that the store answers as the history does at every number that can still be
read; `SnapshotReads.ReadAnswersAt` says which number that is for each read; a compaction keeps it because of `Compaction.KeptPreserves`, a flush because
no entry changes, a commit because new numbers are invisible to old reads.

## What is taken as given

- The user comparator is any strict total order on user keys.
- Sequence numbers stay below 2^56 - 1; that constant also stands for "no newer
  entry" in the compaction loop.
- Installing a version edit is atomic, and a version is a list of layers, deepest
  first. A flushed memtable goes into a layer such that neither that layer nor a
  shallower one holds any of its keys, or becomes a new top layer. The inputs of a
  compaction contain, with an entry, all older entries of its key down to the
  output layer; its base-level test is right about keys no deeper layer holds;
  where it cuts its output is an arbitrary oracle.
- A batch is a list of puts and deletes; entry `i` of a batch with base `b` gets
  number `b + i`. Its size in bytes is an arbitrary function of its contents.
- The checksum is an arbitrary function to 32 bits.
- Steps on shared memory are sequentially consistent.
- The codec is built as the Pods project builds it: sizes in structs have 32 bits,
  and `uint_fast8_t` has 8. A struct has a value for each field of its type; the
  model's functions are also defined on values of a wrong kind, where they mean nothing.

## Where code and documentation differ

- `pb_decode_varint32` reports overflow by looking at `bitpos`, an 8-bit counter that
  starts again on long input; the model follows the code, and the round-trip
  results are about what the encoder writes. Up to 37 bytes the counter is right
  (`LongVarint.LengthExactly`), beyond that it is not (`LongVarint.DecodesTo8`).
- `pb_decode_varint32` means to report a number that exceeds 32 bits and is not a
  negative one sign-extended. It looks at each group of seven bits alone, so some
  others pass (`VarintLimits.OverflowPasses`); `VarintLimits.TakesExactly` says which.
- `pb_field_iter_find` answers tag 0 on an empty message, because the terminator
  has tag 0; the decoder then reads a boolean. The model consumes the same bytes
  and leaves out the store into the empty struct.
- A log writer's `AddRecord` gives the status of appending the fragments. That of
  filling a trailer before them is not looked at, so a record may be appended where
  no reader looks for it (`LogFailure.TrailerExactly`).
- After a failed append the block offset moves on all the same, and the database goes
  on writing to the log, since only a failed Sync is a background error. Records that
  are then appended, synced and reported as ok can be lost (`LogFailure.LostAfterFailure`);
  `LogPlace.LaterRecordsExactly` says when they are not. So `Durability.OkIsDurable`
  promises the bytes of a record only while no append to its file has left the writer
  out of its place.
- A comment in the compaction loop says that, once a deletion is dropped, older data
  of its key is dropped by the next iterations. An unparsable key in between resets
  the loop's memory, and then it is not (`Compaction.ForgottenDeletion`).

## Model

| member | source | states |
|---|---|---|
| `DbFormat.ParseUndoesAppend` | KD Tiktok-Clone/Pods/leveldb-library/db/dbformat.h:165-175 | Parsing a stored internal key gives back user key, sequence number and type exactly for the types that exist; any other type byte is a bad key |
| `DbFormat.StoredBytes` | KD Tiktok-Clone/Pods/leveldb-library/db/dbformat.cc:13-23 | A stored internal key is the user key, one byte of type, 0 for a deletion and 1 for a value, and seven bytes of sequence number, lowest first |
| `DbFormat.CompareIsBefore` | KD Tiktok-Clone/Pods/leveldb-library/db/dbformat.cc:51-67 | The comparator on stored keys orders them as the entries are ordered: user key up, then sequence number and type down; it calls two keys equal only for the same version |
| `DbFormat.SeparatorSeparates` | KD Tiktok-Clone/Pods/leveldb-library/db/dbformat.cc:69-100 | The shortened key is after the first key, shorter than it, before the second, and after everything that was before the first, whatever shorter key the user comparator proposes between the two; the successor form is the case without a second key |
| `DbFormat.LookupKeyStands` | KD Tiktok-Clone/Pods/leveldb-library/db/dbformat.cc:121-137 | An entry is before a lookup key exactly when its user key is smaller, or is the same with a sequence number too new for the lookup |
| `Views.SameShownSameView` | KD Tiktok-Clone/Pods/leveldb-library/db/db_iter.cc:141-299 | Two sets of entries that show the same entries have the same user-level map |
| `DbIter.MovesIsAFunction` | KD Tiktok-Clone/Pods/leveldb-library/db/db_iter.cc:141-299 | From every position every legal move of a cursor over the visible map has exactly one outcome, so the moves below are fully determined |
| `DbIter.StepsAreInverse` | KD Tiktok-Clone/Pods/leveldb-library/db/db_iter.cc:141-225 | On the keys of the map, stepping back undoes stepping forward, and the other way round |
| `DbIter.DBIter.FindNextUserEntry` | KD Tiktok-Clone/Pods/leveldb-library/db/db_iter.cc:168-198 | The forward scan stops at the first entry that is the newest visible one of its key, is a value and is not being skipped; unless a corruption is reported every key it looked at parses |
| `DbIter.DBIter.FindPrevUserEntry` | KD Tiktok-Clone/Pods/leveldb-library/db/db_iter.cc:227-267 | The backward scan saves the newest visible value of the nearest smaller key that has one, and stops right before that key's entries; unless a corruption is reported every key it looked at parses |
| `DbIter.DBIter.Next` | KD Tiktok-Clone/Pods/leveldb-library/db/db_iter.cc:141-166 | Moves the cursor to the next key of the map that is visible at the sequence number, in either direction state, with the key's newest visible value |
| `DbIter.DBIter.Prev` | KD Tiktok-Clone/Pods/leveldb-library/db/db_iter.cc:200-225 | Moves the cursor to the previous key of the visible map, in either direction state |
| `DbIter.DBIter.Seek` | KD Tiktok-Clone/Pods/leveldb-library/db/db_iter.cc:269-281 | Moves the cursor to the first key of the visible map at or after the target |
| `DbIter.DBIter.SeekToFirst` | KD Tiktok-Clone/Pods/leveldb-library/db/db_iter.cc:283-292 | Moves the cursor to the first key of the visible map |
| `DbIter.DBIter.SeekToLast` | KD Tiktok-Clone/Pods/leveldb-library/db/db_iter.cc:294-299 | Moves the cursor to the last key of the visible map |
| `DbIter.DBIter.CurrentKey` | KD Tiktok-Clone/Pods/leveldb-library/db/db_iter.cc:63-66 | Gives the key of the cursor in either direction state |
| `DbIter.DBIter.CurrentValue` | KD Tiktok-Clone/Pods/leveldb-library/db/db_iter.cc:67-70 | Gives the value that the visible map has for that key |
| `Compaction.KeptElements` | KD Tiktok-Clone/Pods/leveldb-library/db/db_impl.cc:928-963 | An entry is kept exactly when it stands somewhere in the input where the drop rules do not apply |
| `CompactionExact.KeptIsNeeded` | KD Tiktok-Clone/Pods/leveldb-library/db/db_impl.cc:928-963 | On parsable input with one entry per key and number, an entry is kept if and only if it is the newest of its key at some number that is still read, and is not a deletion at or below the smallest snapshot of a key that no deeper level holds |
| `Compaction.PreservesViewsExactly` | KD Tiktok-Clone/Pods/leveldb-library/db/db_impl.cc:928-972 | For a sorted input, every job below the sentinel leaves the map at every snapshot at or after the smallest one as it was, with any rest of the database, if and only if no deletion can be forgotten across an unparsable key |
| `Compaction.ForgottenDeletion` | KD Tiktok-Clone/Pods/leveldb-library/db/db_impl.cc:929-935 | Every input in which an unparsable key stands between a deletion and an older value of the same user key loses the deletion, and shows the value again, in the job for which the deletion is obsolete |
| `Compaction.DeletionIsForgotten` | KD Tiktok-Clone/Pods/leveldb-library/db/db_impl.cc:929-963 | One such input, written out: three entries of one key, the middle one unparsable |
| `Compaction.ParseableIsNotRevivable` | KD Tiktok-Clone/Pods/leveldb-library/db/db_impl.cc:929-935 | Input in which every key parses is never of that kind |
| `Compaction.SnapshotBelowSentinelExactly` | KD Tiktok-Clone/Pods/leveldb-library/db/db_impl.cc:905-946 | On parsable input a job preserves every readable view if and only if its smallest snapshot is below the constant that stands for no newer entry |
| `Compaction.OutputPartition` | KD Tiktok-Clone/Pods/leveldb-library/db/db_impl.cc:920-1006 | Whatever the stop oracle and the size limit decide, the kept entries appear once each and in order, in non-empty files whose smallest and largest are their first and last keys and whose ranges strictly increase |
| `Compaction.OpenIsSmall` | KD Tiktok-Clone/Pods/leveldb-library/db/db_impl.cc:989-996 | Every output file was below the size limit before its last entry was added |
| `CompactionExact.StopCuts` | KD Tiktok-Clone/Pods/leveldb-library/db/db_impl.cc:920-926 | Where the output is to stop before an entry, a file ends: no file has entries from both sides |
| `CompactionExact.EveryCutIsDue` | KD Tiktok-Clone/Pods/leveldb-library/db/db_impl.cc:920-996 | Every file but the last ends because it has reached the size limit or because the output was to stop there |
| `Compaction.DoCompactionWork` | KD Tiktok-Clone/Pods/leveldb-library/db/db_impl.cc:903-1006 | The loop, with its two variables about the previous key, keeps and cuts exactly as the entry-by-entry rules say |
| `SkipLayout.LinkLowest` | KD Tiktok-Clone/Pods/leveldb-library/db/skiplist.h:361-367 | Linking a node at the lowest level puts it into the list there and leaves every other link of every level right |
| `SkipLayout.LinkHigher` | KD Tiktok-Clone/Pods/leveldb-library/db/skiplist.h:361-367 | Linking a node at its next level puts it into the list of that level and changes no other level |
| `SkipList.SkipList.FindGreaterOrEqual` | KD Tiktok-Clone/Pods/leveldb-library/db/skiplist.h:261-281 | Returns the least key at or after the target, and per level the last node before it, with a measure of level and nodes ahead for termination |
| `SkipList.SkipList.FindLessThan` | KD Tiktok-Clone/Pods/leveldb-library/db/skiplist.h:284-302 | Returns the greatest key strictly before the target, or the head |
| `SkipList.SkipList.FindLast` | KD Tiktok-Clone/Pods/leveldb-library/db/skiplist.h:304-322 | Returns the last node, or the head of an empty list |
| `SkipList.SkipList.Contains` | KD Tiktok-Clone/Pods/leveldb-library/db/skiplist.h:371-378 | True exactly when an equal key is in the list |
| `SkipList.SkipList.RandomHeight` | KD Tiktok-Clone/Pods/leveldb-library/db/skiplist.h:242-252 | The first height at which the coin says no, and 12 if it never does |
| `SkipList.SkipList.Insert` | KD Tiktok-Clone/Pods/leveldb-library/db/skiplist.h:337-368 | The key list becomes the old one with just the new key at its sorted place, and the new node is linked at exactly as many levels as the coin gives, all others staying as they were |
| `SkipList.Iterator.Next` | KD Tiktok-Clone/Pods/leveldb-library/db/skiplist.h:207-210 | Moves to the following key |
| `SkipList.Iterator.Prev` | KD Tiktok-Clone/Pods/leveldb-library/db/skiplist.h:213-221 | Searches for the last node before the current key and so moves to the preceding one |
| `SkipList.Iterator.Seek` | KD Tiktok-Clone/Pods/leveldb-library/db/skiplist.h:224-226 | Moves to the first key at or after the target |
| `SkipList.Iterator.NextThenPrev` | KD Tiktok-Clone/Pods/leveldb-library/db/skiplist.h:207-221 | Going forward and back ends on the node it started from |
| `SkipListConcurrent.LastLoadAnswers` | KD Tiktok-Clone/Pods/leveldb-library/db/skiplist.h:261-322 | At the moment of its last pointer load a search has the right answer for the list as it then is |
| `SkipListConcurrent.StepKeeps` | KD Tiktok-Clone/Pods/leveldb-library/db/skiplist.h:337-368 | Every single-pointer step of an insert and of any number of searches keeps the list well formed and every search on course |
| `SkipListConcurrent.SearchesAreLinearizable` | KD Tiktok-Clone/Pods/leveldb-library/db/skiplist.h:261-322 | In every run, with an insert interleaved at single stores and with stale maximum heights, a search whose next load is its last returns the answer for the list at that moment |
| `SkipListConcurrent.EveryoneCanGoOn` | KD Tiktok-Clone/Pods/leveldb-library/db/skiplist.h:261-368 | Nobody waits: in every reachable state an insert that is under way and each search that is under way have a next step of their own |
| `SkipListInserts.SearchCanBegin` | KD Tiktok-Clone/Pods/leveldb-library/db/skiplist.h:261-322 | In every reachable state any further search can begin, whatever the writer is doing |
| `SkipListInserts.InsertCanBegin` | KD Tiktok-Clone/Pods/leveldb-library/db/skiplist.h:337-368 | Whenever no insert is under way one of a new key can begin, whatever searches are |
| `SkipListInserts.InsertTakesEffect` | KD Tiktok-Clone/Pods/leveldb-library/db/skiplist.h:337-368 | In every run, when an insert that was under way is finished its key is in the list, and every node is linked at all the levels it has |
| `SkipListConcurrent.KeysOnlyGrow` | KD Tiktok-Clone/Pods/leveldb-library/db/skiplist.h:337-368 | A step leaves the lowest-level list as it is or adds exactly the key being inserted, at its sorted place |
| `SkipListConcurrent.LevelsAreSortedSublists` | KD Tiktok-Clone/Pods/leveldb-library/db/skiplist.h:337-368 | At every moment of every run each level is a strictly sorted sublist of the level below |
| `MemTable.PlaceDecides` | KD Tiktok-Clone/Pods/leveldb-library/db/memtable.cc:100-134 | The entry at the place of a lookup key decides the lookup: if it has the wanted user key it is the newest visible one, otherwise there is none |
| `MemTable.MemTable.Add` | KD Tiktok-Clone/Pods/leveldb-library/db/memtable.cc:75-98 | Adds exactly the given entry to the contents |
| `MemTable.MemTable.Get` | KD Tiktok-Clone/Pods/leveldb-library/db/memtable.cc:100-134 | Answers with what the newest visible entry of the key says: a value, a deletion, or nothing known |
| `SnapshotList.SnapshotList.New` | KD Tiktok-Clone/Pods/leveldb-library/db/snapshot.h:57-69 | Appends a snapshot to the circular list; the list stays well formed, ordered and without duplicates |
| `SnapshotList.SnapshotList.Delete` | KD Tiktok-Clone/Pods/leveldb-library/db/snapshot.h:79-86 | Removes exactly the given member and leaves the others in order |
| `SnapshotList.SnapshotList.Oldest` | KD Tiktok-Clone/Pods/leveldb-library/db/snapshot.h:47-50 | Returns the member with the smallest sequence number |
| `SnapshotList.SnapshotList.Newest` | KD Tiktok-Clone/Pods/leveldb-library/db/snapshot.h:51-54 | Returns the member with the greatest sequence number |
| `SnapshotList.SnapshotList.EmptyMeansNoneLive` | KD Tiktok-Clone/Pods/leveldb-library/db/snapshot.h:46 | The pointer test for emptiness is right |
| `LogFormat.UnmaskMask` | KD Tiktok-Clone/Pods/leveldb-library/util/crc32c.h:29-38 | Unmasking undoes masking for every 32-bit checksum |
| `LogBytes.MaskRotates` | KD Tiktok-Clone/Pods/leveldb-library/util/crc32c.h:24-32 | The stored checksum is the computed one with its 32 bits rotated right by 15 places, bit by bit, plus 0xa282ead8 modulo 2^32 |
| `LogBytes.FragmentBytes` | KD Tiktok-Clone/Pods/leveldb-library/db/log_writer.cc:88-97 | The bytes of a fragment are exactly: four bytes of stored checksum, lowest first, the length modulo 256, the length over 256, the type, the payload |
| `LogBytes.RecordBytes` | KD Tiktok-Clone/Pods/leveldb-library/db/log_writer.cc:34-80 | A record is appended as zeros where fewer than 7 bytes are left of a 32768-byte block, and then either one fragment of type 1, or one of type 2, some of type 3 and one of type 4; each but the last fills its block, and their payloads joined are the record |
| `LogBytes.LaidReadsBack` | KD Tiktok-Clone/Pods/leveldb-library/db/log_reader.cc:56-174 | A file of such fragments reads back as the one record of their joined payloads, without a report |
| `LogBytes.ReadsWholeRecord` | KD Tiktok-Clone/Pods/leveldb-library/db/log_reader.cc:89-107 | A file of a 7-byte header as the format describes it, with type 1, and data reads back as that data |
| `LogBytes.StrayFragment` | KD Tiktok-Clone/Pods/leveldb-library/db/log_reader.cc:89-170 | In front of a log a middle or last fragment without a first, a first one without a last, or one of an unknown type is reported with its length, and every record behind it is read; a first fragment that ends the file goes unreported |
| `LogFormat.OffsetFollows` | KD Tiktok-Clone/Pods/leveldb-library/db/log_writer.cc:34-80 | The block offset after a record is where its bytes end, up to whole blocks |
| `LogFormat.LogContinues` | KD Tiktok-Clone/Pods/leveldb-library/db/log_writer.cc:27-30 | Continuing a log, from the length of the file alone, writes what one long session writes |
| `LogWriter.Writer.AddRecord` | KD Tiktok-Clone/Pods/leveldb-library/db/log_writer.cc:34-80 | However the calls on the file turn out: success means that the file has all fragments of the record behind what it took of the trailer, and, if they fit the block, one fragment of type 1; failure that it has those before one fragment and part of that one, while the block offset stands behind it; if no call fails it succeeds and the offset stays that of the file |
| `LogWriter.Writer.EmitPhysicalRecord` | KD Tiktok-Clone/Pods/leveldb-library/db/log_writer.cc:82-108 | Appends one fragment, whose bytes are those of `LogBytes.FragmentBytes`, and flushes; on failure a first part of it, and the block offset moves on all the same |
| `LogReader.Reader.ReadPhysicalRecord` | KD Tiktok-Clone/Pods/leveldb-library/db/log_reader.cc:189-271 | The buffered reader gives the physical record that the file holds at its position, with the same reports |
| `LogReader.Reader.ReadRecord` | KD Tiktok-Clone/Pods/leveldb-library/db/log_reader.cc:56-174 | The reassembly loop gives the logical record that the file holds at its position, with the same reports; what that is for given bytes say the rows of `LogBytes` |
| `LogRecovery.CompleteExactly` | KD Tiktok-Clone/Pods/leveldb-library/db/log_reader.cc:189-233 | The records counted as complete before a cut are exactly those whose last byte lies before it |
| `LogRecovery.TornTail` | KD Tiktok-Clone/Pods/leveldb-library/db/log_reader.cc:144-233 | A log cut at any byte reads back, without any report, as exactly the records that lie wholly before the cut |
| `LogRecovery.RoundTrip` | KD Tiktok-Clone/Pods/leveldb-library/db/log_reader.cc:56-271 | Every list of records reads back as written, in order and without any report |
| `LogRecovery.ContinuedRoundTrip` | KD Tiktok-Clone/Pods/leveldb-library/db/log_writer.cc:27-30 | The same for a log written in two sessions |
| `LogDamage.DamageIsContained` | KD Tiktok-Clone/Pods/leveldb-library/db/log_reader.cc:56-271 | If one fragment of a log fails its checksum, whatever its block holds from there on, exactly the records before its record and those that begin after the block are read, in order; reported are the rest of the block, what had been gathered of the record, and each fragment of what the block leaves of its last record |
| `LogDamage.BegunExactly` | KD Tiktok-Clone/Pods/leveldb-library/db/log_writer.cc:34-80 | The records counted as begun before a position are exactly those whose first header lies before it |
| `LogFailure.PartOfRecord` | KD Tiktok-Clone/Pods/leveldb-library/db/log_reader.cc:144-233 | A record that was appended in part is as if it had not been: the log reads back as before and without a report; appended whole, it is read |
| `LogFailure.TrailerExactly` | KD Tiktok-Clone/Pods/leveldb-library/db/log_writer.cc:45-55 | The status of writing a trailer is not looked at: the record appended after it, whatever it is, reads back if and only if the trailer was written whole |
| `LogFailure.LostBehindTrailer` | KD Tiktok-Clone/Pods/leveldb-library/db/log_writer.cc:45-55 | A record behind part of a trailer is not among those that are read, although the call that appended it succeeded; the records before it are |
| `LogFailure.LostAfterFailure` | KD Tiktok-Clone/Pods/leveldb-library/db/log_writer.cc:82-108 | A family of records that are lost after a failed call, written out: one byte of a fragment was written, and a record of 12 bytes appended after it is not found, and nothing is reported |
| `LogSize.TakesAtLeast` | KD Tiktok-Clone/Pods/leveldb-library/db/log_reader.cc:56-271 | From no file, and with no checksum function, does a reader get a record out of fewer bytes than the writer needs for it |
| `LogAstray.RecordIsLost` | KD Tiktok-Clone/Pods/leveldb-library/db/log_writer.cc:34-108 | A writer whose block offset is not that of the end of its file loses records: whatever the file holds and whatever the checksum function, there is one that it appends without failure and that is not among those that are read |
| `LogPlace.LaterRecordsExactly` | KD Tiktok-Clone/Pods/leveldb-library/db/log_writer.cc:34-108 | After a call of AddRecord that succeeded or failed behind a whole trailer, every list of later records reads back, behind all that were there, if and only if the block offset is that of the end of the file |
| `LogPlace.SessionReads` | KD Tiktok-Clone/Pods/leveldb-library/db/log_writer.cc:34-108 | If every call of a session left the writer in its place, its whole records are read, in order, from every file that begins with the session's bytes |
| `LogPlace.OkIsWhole` | KD Tiktok-Clone/Pods/leveldb-library/db/log_writer.cc:34-80 | Among those records is every one whose call succeeded |
| `GroupCommit.GroupIsUnique` | KD Tiktok-Clone/Pods/leveldb-library/db/db_impl.cc:1260-1306 | The rules on sync writes and sizes determine one group |
| `CommitOutcomes.GroupIsSmall` | KD Tiktok-Clone/Pods/leveldb-library/db/db_impl.cc:1259-1289 | A group has at most 1048576 bytes of batches, or as many as its leader alone; behind a leader of at most 131072 bytes at most 131072 more |
| `CommitOutcomes.GroupIsFull` | KD Tiktok-Clone/Pods/leveldb-library/db/db_impl.cc:1259-1289 | The request behind a group wants a Sync that the leader does not, or its batch would exceed that bound |
| `GroupCommit.WriterQueue.BuildBatchGroup` | KD Tiktok-Clone/Pods/leveldb-library/db/db_impl.cc:1260-1306 | The batch built is that of the longest run of waiting writers that may join, in order, and no caller's batch is changed |
| `GroupCommit.WriterQueue.FinishGroup` | KD Tiktok-Clone/Pods/leveldb-library/db/db_impl.cc:1236-1253 | Exactly the group leaves the queue, each follower gets the leader's status and is signalled, and of the others only the new head is signalled |
| `GroupCommit.StepKeeps` | KD Tiktok-Clone/Pods/leveldb-library/db/db_impl.cc:1185-1256 | Every step of the protocol, with errors anywhere, keeps the invariants of queue, log and statuses |
| `GroupCommit.FifoLinearization` | KD Tiktok-Clone/Pods/leveldb-library/db/db_impl.cc:1185-1256 | Absent errors, at every moment of every run the log is the settled batches in arrival order, numbered consecutively, each in exactly one record |
| `GroupCommit.InOneRecord` | KD Tiktok-Clone/Pods/leveldb-library/db/db_impl.cc:1204-1215 | In every state of every run, whatever fails, no batch is in two records |
| `GroupCommit.OkIsLogged` | KD Tiktok-Clone/Pods/leveldb-library/db/db_impl.cc:1213-1224 | Whatever fails, a call that returned ok has its batch in a record that was reported as appended and that is in the memtable, and a sync call's record has been covered by a Sync of its file |
| `Durability.OkIsDurable` | KD Tiktok-Clone/Pods/leveldb-library/db/db_impl.cc:1204-1231 | Whatever fails, the record of a call that returned ok is read from the bytes of the current log if no append to that file, up to its own, left the writer out of its place |
| `Durability.SoundIsRead` | KD Tiktok-Clone/Pods/leveldb-library/db/db_impl.cc:1213-1224 | Such a record is read from every file that has the bytes of the calls up to its own, so also from what a crash leaves after a Sync |
| `GroupCommit.HeadIsAwake` | KD Tiktok-Clone/Pods/leveldb-library/db/db_impl.cc:1192-1253 | The head of a non-empty queue is running or signalled, and nobody else in the queue is running |
| `GroupCommit.HeadCanGoOn` | KD Tiktok-Clone/Pods/leveldb-library/db/db_impl.cc:1185-1256 | Nobody is stuck: in every reachable state with waiting calls the head of the queue has a next step, whether files fail or not |
| `GroupCommit.FailedForever` | KD Tiktok-Clone/Pods/leveldb-library/db/db_impl.cc:1226-1231 | After a background error, once no commit is under way, the log never grows again |
| `CommitOutcomes.NoFailureNoError` | KD Tiktok-Clone/Pods/leveldb-library/db/db_impl.cc:1184-1257 | As long as no file operation, insertion or request for room fails, every call that has returned has returned ok, and there is no background error |
| `CommitOutcomes.SyncOnlyIfAsked` | KD Tiktok-Clone/Pods/leveldb-library/db/db_impl.cc:1218-1219 | In every run the log is synced only for a leader that asked for it |
| `CommitOutcomes.FailedSyncIsKept` | KD Tiktok-Clone/Pods/leveldb-library/db/db_impl.cc:1224-1231 | A failed Sync is a background error as soon as its leader has left the queue, in every later state |
| `CommitOutcomes.BackgroundErrorHasCause` | KD Tiktok-Clone/Pods/leveldb-library/db/db_impl.cc:1218-1231 | There is no background error unless a Sync or background work has failed; failed appends and insertions do not make one |
| `CommitOutcomes.NumbersNeverRepeat` | KD Tiktok-Clone/Pods/leveldb-library/db/db_impl.cc:1202-1234 | Whatever fails, no two records of a run share a sequence number, and the next commit's numbers lie behind all given out |
| `History.TwoLayers` | KD Tiktok-Clone/Pods/leveldb-library/db/db_impl.cc:1120-1132 | Asking the newer of two layers first and only then the older finds the newest visible entry of both |
| `History.LayeredGet` | KD Tiktok-Clone/Pods/leveldb-library/db/db_impl.cc:1129 | Searching layers from the shallowest down is a lookup in all of them together, when shallower layers are newer per key |
| `History.NextEntry` | KD Tiktok-Clone/Pods/leveldb-library/db/db_impl.cc:1221 | Inserting the next operation's entry makes a store that answers right up to a number right up to the next |
| `EngineSafety.CommitKeeps` | KD Tiktok-Clone/Pods/leveldb-library/db/db_impl.cc:1202-1234 | Numbering and logging a group keeps every invariant of the store |
| `EngineSafety.InsertKeeps` | KD Tiktok-Clone/Pods/leveldb-library/db/db_impl.cc:1221 | Inserting one operation while others read keeps them, including the answers of reads under way |
| `EngineSafety.SwitchKeeps` | KD Tiktok-Clone/Pods/leveldb-library/db/db_impl.cc:1345-1366 | Starting a new log and memtable keeps them |
| `EngineSafety.InstallTableKeeps` | KD Tiktok-Clone/Pods/leveldb-library/db/db_impl.cc:535-566 | Installing the flushed table, also during a compaction, keeps them |
| `EngineSafety.CompactionAnswers` | KD Tiktok-Clone/Pods/leveldb-library/db/db_impl.cc:890-963 | Replacing a compaction's inputs by what it keeps leaves every answer at or after its smallest snapshot as it was |
| `EngineProgress.CompactionCollects` | KD Tiktok-Clone/Pods/leveldb-library/db/db_impl.cc:928-963 | Installing a compaction leaves of its inputs exactly the entries that are newest of their key at a number from its smallest snapshot on, without the old deletions of keys that no deeper level holds |
| `EngineSafety.InstallKeeps` | KD Tiktok-Clone/Pods/leveldb-library/db/db_impl.cc:860-876 | Installing a compaction, however much was committed, flushed, snapshotted or released since it started, keeps every invariant |
| `EngineSafety.MoveKeeps` | KD Tiktok-Clone/Pods/leveldb-library/db/db_impl.cc:718-728 | Moving a file to the next level keeps them |
| `EngineSafety.CapturedLookups` | KD Tiktok-Clone/Pods/leveldb-library/db/db_impl.cc:1112-1132 | The memtable, the immutable memtable and the version a read holds on to answer, in that order, as the history does |
| `EngineSafety.SnapshotIsolation` | KD Tiktok-Clone/Pods/leveldb-library/db/db_impl.cc:1100-1145 | In every run a finished read has returned exactly what replaying a whole number of batches gives, up to its sequence number; which number that is says the next row |
| `SnapshotReads.ReadAnswersAt` | KD Tiktok-Clone/Pods/leveldb-library/db/db_impl.cc:1105-1145 | Whenever a read that began at a step finishes, its result is what the operations up to then had left at the number of the snapshot it was given, or, without one, at the last sequence number published when it began |
| `SnapshotReads.SnapshotReadAnswers` | KD Tiktok-Clone/Pods/leveldb-library/db/db_impl.cc:1166-1169 | A read at a snapshot answers for the last number published when the snapshot was taken, whatever was written, flushed, compacted or released since |
| `SnapshotReads.ReadSeesCommitted` | KD Tiktok-Clone/Pods/leveldb-library/db/db_impl.cc:1108-1110 | A read that begins without a snapshot answers for a whole number of batches, and among them is every batch of a commit that had ended before |
| `EngineProgress.SnapshotStays` | KD Tiktok-Clone/Pods/leveldb-library/db/db_impl.cc:1171-1174 | A snapshot can be read at in every later state until it is released itself |
| `EngineProgress.SnapshotsAfter` | KD Tiktok-Clone/Pods/leveldb-library/db/db_impl.cc:1171-1174 | Releasing a snapshot takes away just that one, and no other step takes one away |
| `EngineProgress.SmallestIsLeastLive` | KD Tiktok-Clone/Pods/leveldb-library/db/db_impl.cc:889-894 | The smallest snapshot with which a compaction begins is the least number at which a read may start then |
| `EngineProgress.ReadCanGoOn` | KD Tiktok-Clone/Pods/leveldb-library/db/db_impl.cc:1122-1134 | In every reachable state a read under way has a next step of its own, and needs at most three |
| `EngineProgress.ReadCanBegin` | KD Tiktok-Clone/Pods/leveldb-library/db/db_impl.cc:1100-1118 | In every reachable state a read can begin, at any live snapshot or without one |
| `EngineProgress.CommitCanBegin` | KD Tiktok-Clone/Pods/leveldb-library/db/db_impl.cc:1202-1215 | Between two commits the next one can begin, as long as there are sequence numbers |
| `EngineProgress.CommitCanGoOn` | KD Tiktok-Clone/Pods/leveldb-library/db/db_impl.cc:1215-1234 | A commit under way can insert its next operation, or publish its end |
| `EngineProgress.FlushCanGoOn` | KD Tiktok-Clone/Pods/leveldb-library/db/db_impl.cc:535-566 | A memtable can always be set aside between commits, then written out, then installed |
| `EngineProgress.CompactionCanEnd` | KD Tiktok-Clone/Pods/leveldb-library/db/db_impl.cc:860-876 | A compaction can be installed whenever no flush is under way |
| `EngineSafety.LiveReadsAnswer` | KD Tiktok-Clone/Pods/leveldb-library/db/db_impl.cc:1100-1145 | In every reachable state a lookup at a live snapshot or at the last sequence number gives what replaying the operations up to that number gives |
| `EngineSafety.LiveViewIsReplay` | KD Tiktok-Clone/Pods/leveldb-library/db/db_impl.cc:1062-1093 | What an iterator made at a live number walks over is the replayed map |
| `EngineSafety.CapturedViewIsReplay` | KD Tiktok-Clone/Pods/leveldb-library/db/db_impl.cc:1062-1093 | What a reader captured stays, in every later state of every run, whatever is inserted, flushed or compacted, the map that replaying the operations up to its number gives |
| `EngineSafety.LogFileStays` | KD Tiktok-Clone/Pods/leveldb-library/db/db_impl.cc:1336-1366 | In every run no step changes the log file number while a memtable waits to be flushed |
| `EngineSafety.UnflushedIsLogged` | KD Tiktok-Clone/Pods/leveldb-library/db/db_impl.cc:223-278 | In every reachable state each entry that is only in memory is in a log that deleting obsolete files keeps, and the current memtable's in the current log |
| `EngineProgress.LogsAfterDeletion` | KD Tiktok-Clone/Pods/leveldb-library/db/db_impl.cc:243-247 | After a deletion of obsolete files the logs hold exactly the operations that are not in tables |
| `EngineSafety.RecoveryIsComplete` | KD Tiktok-Clone/Pods/leveldb-library/db/db_impl.cc:371-443 | At any moment of any run the tables and the logs that are kept answer, for every key, as the whole history does |
| `CrashRecovery.CrashLosesOnlyATail` | KD Tiktok-Clone/Pods/leveldb-library/db/db_impl.cc:282-489 | At any moment of any run, with the bytes of the current log cut anywhere, the tables and what is read and replayed from the kept logs show exactly the map after a prefix of whole batches, which has every batch whose record lies before the cut, so all that a Sync covered |
| `CrashRecovery.LogsAreBatches` | KD Tiktok-Clone/Pods/leveldb-library/db/db_impl.cc:1345-1366 | In every reachable state each kept log begins with a whole batch and holds exactly the batches from there on, up to where the next log begins |
| `CrashRecovery.RunVersions` | KD Tiktok-Clone/Pods/leveldb-library/db/db_impl.cc:535-566 | In every reachable state the tables alone answer as the history does up to where the memtables start, and memtables start between batches |
| `EngineSafety.RunKeeps` | KD Tiktok-Clone/Pods/leveldb-library/db/db_impl.cc:1100-1366 | All invariants hold in every state of every run |
| `DbFiles.Directory.DeleteObsoleteFiles` | KD Tiktok-Clone/Pods/leveldb-library/db/db_impl.cc:223-278 | After a background error deletes nothing; otherwise CURRENT, LOCK, info logs and foreign files stay, a MANIFEST stays exactly if its number is at least that of the one in use, a log exactly if its number is at least the log number or is the previous one's, a table or temporary file exactly if it is live |
| `ManifestFiles.ManifestIsThere` | KD Tiktok-Clone/Pods/leveldb-library/db/version_set.cc:826-884 | However a database is created, opened, closed, or stopped in the middle of any of that, and whenever obsolete files are deleted: once CURRENT is there it stays, and so does the MANIFEST it names |
| `ManifestFiles.CanBeOpened` | KD Tiktok-Clone/Pods/leveldb-library/db/version_set.cc:886-1049 | So in every reachable state a database that was created and is not open can be opened, with its MANIFEST or with a new one |
| `ManifestFiles.OpenFindsItsFiles` | KD Tiktok-Clone/Pods/leveldb-library/db/db_impl.cc:223-278 | After a deletion all that opening reads is there as it was before: CURRENT, the MANIFEST it names, the logs to replay and the tables; all older MANIFESTs and logs and all other tables are gone |
| `DbFiles.UnflushedLogIsKept` | KD Tiktok-Clone/Pods/leveldb-library/db/db_impl.cc:243-247 | In every reachable state the log of an entry that is only in memory is among the files kept |
| `TableFiles.NeededTablesAreThere` | KD Tiktok-Clone/Pods/leveldb-library/db/db_impl.cc:223-278 | In every reachable state every table of the current version, of a version that a reader holds, of a compaction's inputs, or that is being built or added, is on disk, and every version held is in the list |
| `TableFiles.DeletedAreUnneeded` | KD Tiktok-Clone/Pods/leveldb-library/db/db_impl.cc:233-265 | What a deletion of obsolete files removes is none of these, and it removes nothing after a background error |
| `TableFiles.DeletionIsThorough` | KD Tiktok-Clone/Pods/leveldb-library/db/db_impl.cc:233-265 | What it leaves, without a background error, is pending or in a version that somebody holds |
| `TableFiles.InstallReplaces` | KD Tiktok-Clone/Pods/leveldb-library/db/db_impl.cc:860-876 | Installing a compaction takes its inputs out of the current version, puts its outputs in, and leaves every other table |
| `TableFiles.FailureStopsDeletion` | KD Tiktok-Clone/Pods/leveldb-library/db/db_impl.cc:223-231 | From a failed flush, compaction, move or edit on there is a background error, and no deletion removes a table any more |
| `TableFiles.MethodDeletesTheseTables` | KD Tiktok-Clone/Pods/leveldb-library/db/db_impl.cc:223-278 | The deletion method removes exactly the tables that the step of the machine removes |
| `TableFiles.RefsKeep` | KD Tiktok-Clone/Pods/leveldb-library/db/version_set.cc:476-483 | The reference counts are right: a version is in the list exactly as long as the store, a reader, a flush or a compaction holds it |
| `DbFiles.RecoverLogFile` | KD Tiktok-Clone/Pods/leveldb-library/db/db_impl.cc:402-489 | If replaying succeeds, the tables written and the memtable kept hold exactly what the records insert, and the largest sequence number is right; it succeeds if tables can be written and, with paranoid checks, exactly if every record was whole |
| `DbFiles.ReplayedAre` | KD Tiktok-Clone/Pods/leveldb-library/db/db_impl.cc:413-445 | What the records insert are the entries of the batches in records of at least 12 bytes; shorter ones are passed over |
| `Varint.VarintRoundTrip` | KD Tiktok-Clone/Pods/nanopb/pb_decode.c:255-275 | For every 64-bit number the encoder writes 1 to 10 bytes and the decoder consumes exactly those and returns it |
| `Varint.Varint32RoundTrip` | KD Tiktok-Clone/Pods/nanopb/pb_decode.c:187-247 | Every 32-bit number comes back from the 32-bit decoder |
| `Varint.NegativeVarint32` | KD Tiktok-Clone/Pods/nanopb/pb_decode.c:214-233 | Every negative 32-bit number, encoded sign-extended, comes back modulo 2^32 |
| `Varint.Varint32Below` | KD Tiktok-Clone/Pods/nanopb/pb_decode.c:187-247 | Whatever the bytes, a decoded value fits 32 bits |
| `Varint.OrAdds` | KD Tiktok-Clone/Pods/nanopb/pb_decode.c:268 | The bitwise or of the accumulator with a shifted digit is a sum, because they share no bits |
| `Varint.ZigZagInverse` | KD Tiktok-Clone/Pods/nanopb/pb_encode.c:630-639 | Zigzag is a bijection between signed and unsigned 64-bit numbers: n goes to 2n, and a negative n to -2n - 1, and back by the parity; small magnitudes go to small numbers |
| `Varint.EncodeVarint` | KD Tiktok-Clone/Pods/nanopb/pb_encode.c:608-628 | Writes the base-128 digits of the value if they fit, and nothing that counts as success otherwise |
| `WireFormat.VarintBytesAre` | KD Tiktok-Clone/Pods/nanopb/pb_encode.c:608-628 | The bytes written for a number are the only varint without a zero at the end whose low seven bits of each byte, lowest first, make up the number |
| `Varint.EncodeSVarint` | KD Tiktok-Clone/Pods/nanopb/pb_encode.c:630-639 | Writes the varint of 2n, or of -2n - 1 for a negative n |
| `Varint.EncodeFixed32` | KD Tiktok-Clone/Pods/nanopb/pb_encode.c:641-650 | Writes the four bytes, least significant first |
| `Varint.EncodeFixed64` | KD Tiktok-Clone/Pods/nanopb/pb_encode.c:653-666 | Writes the eight bytes, least significant first |
| `Varint.FixedReadsBack` | KD Tiktok-Clone/Pods/nanopb/pb_decode.c:1283-1316 | Fixed-width numbers come back |
| `Varint.DecodeVarint` | KD Tiktok-Clone/Pods/nanopb/pb_decode.c:255-275 | Decodes as the digit-by-digit definition says, with its failure for more than 64 bits |
| `LongVarint.LengthExactly` | KD Tiktok-Clone/Pods/nanopb/pb_decode.c:187-247 | Every accepted varint of n bytes has the value of its digits modulo 2^32 if and only if n is at most 37 |
| `LongVarint.DecodesTo8` | KD Tiktok-Clone/Pods/nanopb/pb_decode.c:204-237 | The failing input for every greater length: a single one in digit 37, which stands for 0 modulo 2^32, decodes to 8 |
| `VarintLimits.TakesExactly` | KD Tiktok-Clone/Pods/nanopb/pb_decode.c:187-247 | Of the encodings of 64-bit numbers the 32-bit decoder takes, for their low 32 bits, exactly those of 32-bit numbers and those with bit 31 set whose bits from 35 on are bit 63 and, in groups of seven, all zeros or all ones; it refuses all others |
| `VarintLimits.OverflowPasses` | KD Tiktok-Clone/Pods/nanopb/pb_decode.c:215-223 | So it does not refuse every number that is too great: 2^63 + 2^31 is taken for 2^31 |
| `VarintLimits.TakesUpToTen` | KD Tiktok-Clone/Pods/nanopb/pb_decode.c:255-275 | The 64-bit decoder takes every varint of at most ten bytes, for its value modulo 2^64, and refuses every longer one |
| `Varint.DecodeVarint32Eof` | KD Tiktok-Clone/Pods/nanopb/pb_decode.c:187-247 | Decodes as the byte-by-byte definition says, including the 8-bit counter that starts again on overlong input |
| `Streams.OutStream.Write` | KD Tiktok-Clone/Pods/nanopb/pb_encode.c:103-124 | Succeeds exactly when there is room, then appends just the given bytes; a counting stream only counts |
| `PbEncode.EncodeTwice` | KD Tiktok-Clone/Pods/nanopb/pb_encode.c:717-765 | Encoding once into a counting stream and once into a buffer gives one size, and the second pass succeeds exactly when that size fits |
| `FieldIter.FieldIterator.Begin` | KD Tiktok-Clone/Pods/nanopb/pb_common.c:8-18 | Stands at the first field with the index and pointers of that position |
| `FieldIter.FieldIterator.Next` | KD Tiktok-Clone/Pods/nanopb/pb_common.c:20-76 | Goes round; afterwards the required-field index and both pointers are those of the position, whatever the way there |
| `FieldIter.FieldIterator.Find` | KD Tiktok-Clone/Pods/nanopb/pb_common.c:78-95 | Finds the first field with the tag, going round from where it stands, or comes back to where it stood; an empty message answers only to tag 0 |
| `FieldIter.StorageIsApart` | KD Tiktok-Clone/Pods/nanopb/pb_common.c:20-76 | In a descriptor whose fields lie behind each other the data of two fields overlap if and only if they are members of one union |
| `PbEncode.EncodeSubmessage` | KD Tiktok-Clone/Pods/nanopb/pb_encode.c:717-765 | Length and contents are written exactly when they fit; the size of the second pass cannot differ from that of the first |
| `PbEncode.EncodeArray` | KD Tiktok-Clone/Pods/nanopb/pb_encode.c:147-236 | A packed or unpacked array is written as defined, exactly when it fits |
| `PbEncode.EncodePacked` | KD Tiktok-Clone/Pods/nanopb/pb_encode.c:164-205 | The length in front of a packed array is that of the payload that follows, for counting and for writing streams |
| `PbEncode.EncodeField` | KD Tiktok-Clone/Pods/nanopb/pb_encode.c:341-426 | A field is written as its repetition rule, presence and zero value demand; the bytes are those of `PbWire.FieldIsWire` |
| `PbEncode.EncodeValue` | KD Tiktok-Clone/Pods/nanopb/pb_encode.c:769-912 | A value is written as its type demands, or refused when it exceeds its place; in bytes: `PbWire.ValueIsWire` |
| `PbEncode.Encode` | KD Tiktok-Clone/Pods/nanopb/pb_encode.c:528-550 | The fields of a struct are written in order; success exactly when all can be encoded and there is room; the bytes are those of `PbWire.MessageIsWire` |
| `PbEncode.GetEncodedSize` | KD Tiktok-Clone/Pods/nanopb/pb_encode.c:567-576 | The size told is the length of the encoding, and there is one exactly when encoding succeeds |
| `PbWire.FieldTagIs` | KD Tiktok-Clone/Pods/nanopb/pb_encode.c:687-712 | The tag in front of a value is the varint of 8 times the tag number, plus 0 for booleans and integers, 1 for 64-bit and 5 for 32-bit fixed width, 2 for strings, bytes and submessages |
| `PbWire.ValueIsWire` | KD Tiktok-Clone/Pods/nanopb/pb_encode.c:769-912 | The body of a value is, by its type, the varint of 0 or 1, of the number in two's complement, of the number, of 2n or -2n - 1; four or eight bytes, lowest first; or a length and the bytes, the text up to its terminator, or the encoding of the submessage |
| `PbWire.FieldIsWire` | KD Tiktok-Clone/Pods/nanopb/pb_encode.c:341-426 | With its tag it is exactly one field of the grammar of the wire format |
| `PbWire.PackedIsWire` | KD Tiktok-Clone/Pods/nanopb/pb_encode.c:164-205 | A packed array is one field with a length, whose bytes are the bodies of its entries one after the other; it has no more entries than its place |
| `PbWire.MessageIsWire` | KD Tiktok-Clone/Pods/nanopb/pb_encode.c:528-550 | Every encoding is a list of fields of the grammar whose tag numbers are those of the message type |
| `PbWire.ForeignMessage` | KD Tiktok-Clone/Pods/nanopb/pb_decode.c:943-986 | Decoded as a type that lists none of its tags, every encoding is like no bytes at all |
| `PbPresence.ZeroIsLeftOut` | KD Tiktok-Clone/Pods/nanopb/pb_encode.c:240-337 | A single value without a has flag is left out if and only if it is 0, no bytes, or a text that begins with its terminator |
| `PbDecode.SkipField` | KD Tiktok-Clone/Pods/nanopb/pb_decode.c:278-331 | Skips what the wire type says and fails on unknown wire types; exactly which bytes says `PbUnknown.SkipsExactly` |
| `PbUnknown.SkipsExactly` | KD Tiktok-Clone/Pods/nanopb/pb_decode.c:278-331 | What is skipped is exactly a varint for wire type 0, eight bytes for 1, a length and that many bytes for 2, four bytes for 5, and nothing for any other |
| `PbDecode.MakeStringSubstream` | KD Tiktok-Clone/Pods/nanopb/pb_decode.c:372-385 | The substream is exactly the announced bytes, and only if the parent has them |
| `PbDecode.DecodeStaticField` | KD Tiktok-Clone/Pods/nanopb/pb_decode.c:406-480 | A field is stored as its repetition rule and type demand, from packed or single values |
| `PbDecode.SetToDefaults` | KD Tiktok-Clone/Pods/nanopb/pb_decode.c:836-919 | Every field is initialized, nested messages included |
| `PbDecode.FoundIsFieldAt` | KD Tiktok-Clone/Pods/nanopb/pb_common.c:78-95 | With distinct tags the field found does not depend on where the search starts |
| `PbDecode.WholeWord` | KD Tiktok-Clone/Pods/nanopb/pb_decode.c:1050-1055 | A word of the bitmap is all ones if and only if each of its 32 indexes has been seen |
| `PbDecode.PartWord` | KD Tiktok-Clone/Pods/nanopb/pb_decode.c:1057-1064 | The last word equals the mask if and only if each index below the count has been seen |
| `PbDecode.CheckRequired` | KD Tiktok-Clone/Pods/nanopb/pb_decode.c:1024-1066 | The bitmap check passes if and only if each of the first 64 required fields has been seen |
| `PbDecode.DecodeNoInit` | KD Tiktok-Clone/Pods/nanopb/pb_decode.c:925-1073 | The decoding loop, with its cyclic iterator, bitmap and fixed-count tracking, succeeds and stores exactly as the field-by-field definition says |
| `PbDecode.Decode` | KD Tiktok-Clone/Pods/nanopb/pb_decode.c:1075-1087 | Initializes and then decodes |
| `PbValues.IntegersExactly` | KD Tiktok-Clone/Pods/nanopb/pb_decode.c:1329-1412 | Of every 64-bit varint an integer place makes the number of its type, at most four bytes wide from the low 32 bits, and takes it if and only if it fits its 1, 2, 4 or 8 bytes |
| `PbValues.BooleansExactly` | KD Tiktok-Clone/Pods/nanopb/pb_decode.c:1318-1327 | A boolean is whether the number is not zero |
| `PbValues.BytesExactly` | KD Tiktok-Clone/Pods/nanopb/pb_decode.c:1431-1548 | Bytes are taken if and only if they are all there and fit their place with its 4 bytes of size or its terminator, or are exactly as many as a fixed place has; none at all make a fixed place zero |
| `PbValues.FixedExactly` | KD Tiktok-Clone/Pods/nanopb/pb_decode.c:1283-1316 | Four or eight bytes are a number, lowest first, and are always taken |
| `PbPresence.AbsentIsDefault` | KD Tiktok-Clone/Pods/nanopb/pb_decode.c:836-919 | After decoding, a field that the bytes do not have is unset: no flag, no entries, not the chosen member, or else the declared default, or zero without one |
| `PbPresence.LastCounts` | KD Tiktok-Clone/Pods/nanopb/pb_decode.c:406-480 | Of a single value that comes twice the last counts |
| `PbPresence.MessagesMerge` | KD Tiktok-Clone/Pods/nanopb/pb_decode.c:1503-1525 | A submessage that comes again is merged: what the second does not have stays as it was |
| `PbPresence.PackedOrNot` | KD Tiktok-Clone/Pods/nanopb/pb_decode.c:424-472 | An array of numbers decodes to the same whether its entries come packed or one by one; in either form too many are refused |
| `PbReencode.DecodedInPlaces` | KD Tiktok-Clone/Pods/nanopb/pb_decode.c:925-1087 | Whatever bytes are decoded, and whatever the struct held before, every value stored is within the capacity of its place and every count within its array |
| `PbReencode.Reencodes` | KD Tiktok-Clone/Pods/nanopb/pb_decode.c:925-1087 | Any bytes that decode at all, from whatever encoder, decode to a message that can be encoded, and its encoding decodes, into any struct, to the same message |
| `PbRoundTrip.DefaultsAreFresh` | KD Tiktok-Clone/Pods/nanopb/pb_decode.c:836-919 | Initialization makes every field unset, whatever the struct held before, unions included |
| `PbRoundTrip.DefaultIsFresh` | KD Tiktok-Clone/Pods/nanopb/pb_encode.c:240-337 | A field left out for being zero comes back from initialization, nested messages included |
| `PbRoundTrip.PackedReturns` | KD Tiktok-Clone/Pods/nanopb/pb_decode.c:424-457 | The payload of a packed array fills exactly its entries and is used up |
| `PbRoundTrip.MessageEncodes` | KD Tiktok-Clone/Pods/nanopb/pb_encode.c:528-550 | Every message within its capacities can be encoded |
| `PbRoundTrip.MessageRoundTrip` | KD Tiktok-Clone/Pods/nanopb/pb_decode.c:1075-1087 | Every message within its capacities encodes, and if that is fewer than 2^32 bytes they decode, into any struct and with nothing left over, to the same message up to the contents of unset fields |
| `PbUnknown.FieldLocal` | KD Tiktok-Clone/Pods/nanopb/pb_decode.c:406-480 | Decoding a field looks only at the bytes of that field, for any bytes |
| `PbUnknown.UnknownSkips` | KD Tiktok-Clone/Pods/nanopb/pb_decode.c:943-986 | A field of the wire format with an unlisted tag, that is a tag and what the format has after it, is consumed exactly and changes nothing |
| `PbUnknown.UnknownIsTransparent` | KD Tiktok-Clone/Pods/nanopb/pb_decode.c:943-986 | Putting such a field between any two fields of any input leaves the status and the struct as they are |
| `PbUnknown.GrammarIsField` | KD Tiktok-Clone/Pods/nanopb/pb_decode.c:943-986 | The varint of 8 times a tag number with a varint, plus 1 with eight bytes, plus 2 with a length and that many bytes, plus 5 with four bytes is such a field |
| `PbUnknown.UnknownBytesAreTransparent` | KD Tiktok-Clone/Pods/nanopb/pb_decode.c:943-986 | Putting any of these bytes between any two fields of any input leaves the status and the struct as they are |
| `PbUnknown.RequiredExactly` | KD Tiktok-Clone/Pods/nanopb/pb_decode.c:1012-1069 | Decoding that comes to the final check passes it if and only if each of the first 64 required fields in descriptor order was met, in whatever order on the wire |

## Left out

- Compaction.DoCompactionWork: does not flush a waiting memtable between two entries, count statistics or stop at shutdown; the flush during a compaction is a step of `Engine` instead.
- DbIter.DBIter.Next: does not model read sampling, nor swapping the buffers of saved keys and values.
- LogPlace.LaterRecordsExactly: is for calls behind a whole trailer. Behind a part of one, an offset that agrees with the end of the file by chance leaves a block whose bytes a reader may take for anything, depending on the checksum function.
- LogReader.Reader.ReadPhysicalRecord: does not model read errors, nor a record that starts before a non-zero initial offset.
- LogReader.Reader.ReadRecord: does not model a non-zero initial offset with its resynchronization, nor the offset of the last record; checksums are on.
- LogDamage.DamageIsContained: is for a fragment whose checksum fails; a damaged length that reaches beyond the block, and a fragment zeroed altogether, are left to the definition of the reader.
- MemTable.MemTable.Add: does not model the length-prefixed bytes of an entry in the arena, nor their decoding.
- GroupCommit.FifoLinearization: does not cover runs with errors; those are covered by `InOneRecord`, `OkIsDurable` and `FailedForever`. `GroupCommit` counts a failed append as no record; if all its bytes were written it is read all the same (`LogPlace.Whole`).
- Durability.OkIsDurable: speaks of the current log file; for an older one it is applied to the state before the switch. It says nothing about bytes the operating system loses without a Sync.
- EngineSafety.SnapshotIsolation: starts from an empty database; commits in `Engine` do not fail (`GroupCommit` has the failures), while flushes and compactions may be abandoned.
- EngineSafety.CommitKeeps: is for commits that succeed; a failing append, sync or insert is a step of `GroupCommit`.
- EngineSafety.RecoveryIsComplete: takes log files as sets of operations; `CrashRecovery.CrashLosesOnlyATail` has their bytes.
- CrashRecovery.CrashLosesOnlyATail: cuts the current log only. An older log that is still kept is taken to be whole; it is closed without a Sync, so a crash of the machine could cut it too. Records stand for their batches (`Faithful`), and commits do not fail.
- TableFiles.NeededTablesAreThere: has no temporary files, and takes opening the database as done.
- DbFiles.RecoverLogFile: does not let the reader's own corruption reports stop a paranoid recovery; it takes what inserting a record's batch does, the memory use and the success of writing a table as given functions.
- SkipListConcurrent.SearchesAreLinearizable: has sequentially consistent steps; release and acquire orders are not modelled.
- Streams.OutStream.Write: does not wrap the number of bytes written round the width of `size_t`, nor test for that.
- PbEncode.EncodeArray: does not model arrays of pointers.
- PbEncode.EncodeField: does not model pointer and callback fields.
- PbEncode.EncodeValue: does not model strings and bytes behind pointers.
- PbEncode.Encode: does not wrap the number of bytes written round 2^64, and has no extension, callback or pointer fields.
- PbDecode.DecodeStaticField: is for submessage types without extension, pointer and callback fields and with distinct tags.
- PbDecode.SetToDefaults: does not model pointer, callback and extension fields.
- PbDecode.DecodeNoInit: is for descriptors without extension, pointer and callback fields and with distinct tags, at every level; it does not describe the partly written struct after a failure.
- PbDecode.Decode: is for the same descriptors.
- PbRoundTrip.MessageRoundTrip: is for encodings below 2^32 bytes, because lengths are read as 32-bit numbers.
- PbReencode.Reencodes: is for message types whose arrays have counts of their own, whose defaults fit, and for encodings below 2^32 bytes. An array without a count that the bytes do not have keeps what the struct held.
- PbReencode.DecodedInPlaces: says nothing of the entries of arrays without a count of their own.
- ManifestFiles.ManifestIsThere: takes switching CURRENT as one step that happens or does not, and a file operation that fails as having no effect but the one written down.
- CompactionExact.KeptIsNeeded: is for input in which a key has one entry per sequence number, as the store makes it.
- LogBytes.StrayFragment: is for stray fragments at the start of a file, of types other than 0, 1, 5 and 6; the last two are numbers the reader uses for its own results.
- PbUnknown.UnknownIsTransparent: is for message types without an extension field.
- The insides of version sets, table files, arenas, write batches and checksums; caches, filters, file names, repair, statistics and logging; delays of writers and shutdown.
- Pointer fields, callbacks, extensions, user-defined streams, null-terminated and delimited messages, and releasing memory in the codec; struct layout beyond the offsets of the field iterator.
- The application's own Swift code and its other dependencies.

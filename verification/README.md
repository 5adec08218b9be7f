# Docs++: a verified model of the document store

Docs++ keeps text files on storage servers and finds them through a name server. This project models its
stateful cores in Dafny and proves what they guarantee, over all inputs and over whole runs.

- **Editing** (`Text`, `Splitting`, `SentenceParser`, `WordParser`, `CommitSplice`): a file is cut into
  sentences at `.`, `!` and `?`, one sentence is edited as a list of words, and the result is spliced back.
- **Storage server** (`HashTable`, `SentenceLock`, `UndoBuffer`, `InvertedIndex`, `StorageServer`): the handlers as
  methods over the directory, a lock table, an undo table, an index and the one global write session. Every
  handler is proved to be a step of one value, `StorageServer.Server`. What holds over sequences of those steps is
  in `StorageRuns`, `IndexRuns`, `SessionOwners`, `FileHistory`, `LockRuns` and `WordSearch`.
- **Name server** (`LruCache`, `LruRuns`, `RoundRobin`, `NameServer`): a linked-list cache in front of a chained
  file map, with replicas and server liveness behind it, in the same two layers; the runs are in `CacheRuns`,
  `CacheLimits`, `FileLife`, `ServerLife` and `NameAnswers`.
- **Access** (`Acl`, `AclPersistence`, `AccessRequests`): access lists, their text file, and requests for access;
  the runs are in `AccessRuns`, `RequestRuns` and `AccessHistory`.
- **Registration** (`Registration`): the file list in a fixed message buffer and what is read back from it.

`HashTable` is the chained hash table that five of the C tables share: real nodes linked by `next`, proved once
against a map. `LruCache` is the doubly linked list with its pointer surgery. The C functions take a table
pointer, so their models are methods that take a table. The clock is a parameter, and so is the outcome of
every network exchange. The directory is a map from names to bytes; reading goes through a 4096-byte buffer and
stops at the first NUL, and a commit writes a temporary file and renames it.

What the operations do and answer is told from the history of a run, without the functions that compute it:

- WRITE_START is granted exactly by `StartAnswers`, UPDATE by `UpdateAnswers`, UNDO by `UndoAnswers`. A session that
  ends frees its sentence (`NextIsGranted`).
- A file is on a storage server exactly by `PresentIff` and holds what was last written (`ContentIsLastWritten`); a
  search finds it exactly if it has the word in any spelling (`SearchFindsAlways`).
- A storage server lives exactly if it was heard of within 15 seconds of every check (`LivesIff`), which decides
  what a lookup finds (`FoundByHistory`, `LookupAnswers`) and what CREATE and DELETE answer
  (`CreateAndDeleteAnswer`).
- Who owns, reads and writes a file is decided by `OwnerIff` and `MayIff`, and with it every answer of the access
  handlers (`DeleteAnswers`, `GrantAnswers`, `RequestAnswers`, `SettleAnswers`, `OwnerIsShown`).

Some natural claims are false of the code. For these the exact condition is proved, for all inputs, and a
concrete input or run on which the claim fails, most of them in `StorageExamples`, `NameServerExamples` and
`AccessExamples`:

- The sentences in memory after a commit are those a re-parse finds exactly when the edited text is not empty
  and no two neighbours fuse (`CommitReparse`; `AppendFuses`).
- UNDO restores every byte exactly when the file fits the buffer and holds no NUL (`UndoRestoresStart`;
  `UndoCutsLongFile`).
- A commit to `f` keeps the index sound exactly when no indexed file is named `f.tmp`, because that file is
  overwritten and renamed away (`CommitSoundIff`; `TempNameLosesFile`). UNDO does not re-index: it keeps index
  and files in agreement exactly when the file holds the words it held at START (`UndoAfterStartIff`,
  `UndoOfSessionIff`; `UndoLeavesWordListed`). A word's list holds 50 files, so the index is complete exactly as
  long as no word is in more (`IndexAgrees`; `ManyFilesIncomplete`). `AgreesThroughoutIff` puts the three
  together, over every run.
- A commit writes the session of the client whose START opened the loop exactly when that START succeeded;
  otherwise it writes what an earlier client left behind (`CommitWritesWhose`; `StrangerEditsSession`).
- A release, unlike an acquire, does see whether expired locks were collected (`ReleaseSeesExpired`;
  `ReleaseAfterAMinute`).
- A saved access file loads back to the same lists exactly when every file with a writer has a reader, because
  an empty third field stops `sscanf` (`LoadOfSaveIsIdentityIff`; `WriterWithoutReaderIsLost`). An approval is
  not saved, so a restart also forgets the readers approved since the last save (`ReadAfterRestart`,
  `WriteAfterRestart`; `ApprovalIsForgotten`).
- A request for access is not withdrawn when its file is deleted. It stays pending until it is settled
  (`PendingIffAsked`), which it can be exactly while the file belongs to the owner recorded in the request
  (`SettledByRecordedOwner`; `RequestIsOrphaned`).
- A cached lookup differs from a cache-free one exactly on stale entries, which only a heartbeat or a
  registration that revives the mapped server can cause (`LookupTransparent`, `DifferenceFromRevival`;
  `StaleAfterHeartbeat`). This holds until a CREATE finds its server full while the file is still cached at its
  old replica: up to then both kinds of lookup agree in success whatever follows, and from then on a heartbeat
  and a failure detection make them disagree (`AgreesForEverIff`; `CreateWithoutRoom`).
- A replicated file is found exactly while its replica lives, since the map points at the replica afterwards
  (`CreatedFileHangsOnReplica`; `PrimaryIsNotAsked`). The comments in the source promise fail-over to a backup;
  the code gives it only once the primary has registered again (`ReturnedPrimaryGivesFailover`). An entry for a
  replica that was never reached is asked all the same (`UnreachedReplicaIsAsked`), and a DELETE reaches only
  one of the two copies (`DeleteLeavesPrimaryCopy`).

## Model

| member | source | states |
|---|---|---|
| SentenceParser.ParseSentences | storage_server/sentence_parser.c:19-67 | the pointer scan computes the unique decomposition into sentences |
| SentenceParser.SplitByDelimiters | storage_server/sentence_parser.c:209-255 | the second scan computes the same list |
| SentenceParser.RebuildFile | storage_server/sentence_parser.c:181-199 | the output is the sentences glued together |
| SentenceParser.HasDelimiter | storage_server/sentence_parser.c:201-207 | true exactly if some character is a delimiter |
| SentenceParser.ParseIsCanonical | storage_server/sentence_parser.c:19-67 | for every string: gluing the parse gives the string back, and the parse has the canonical shape |
| SentenceParser.ReparseIffCanonical | storage_server/sentence_parser.c:181-199 | a list survives being glued and parsed exactly when it is canonical |
| SentenceParser.DecompositionUnique | storage_server/sentence_parser.c:19-67 | two canonical lists with the same text are equal |
| SentenceParser.CutsAreMarks | storage_server/sentence_parser.c:15-67 | a text is cut exactly behind every `.`, `!` and `?` |
| Splitting.JoinRoundTrip | nameserver/acl.c:442-459 | joining and `strtok`-splitting is the identity exactly on lists of non-empty, separator-free pieces |
| Splitting.JoinList | storage_server/storage_server.c:494-501 | the joining loop puts one separator between neighbours |
| WordParser.ParseWords | storage_server/sentence_parser.c:77-126 | the buffer scan computes the maximal space-free runs in order |
| WordParser.WordsAreRuns | storage_server/sentence_parser.c:77-126 | the words are exactly the longest pieces without the six blank characters |
| WordParser.WordListRoundTrip | storage_server/sentence_parser.c:77-126 | joining and re-parsing a word list is the identity exactly on lists of words |
| WordParser.InsertWord | storage_server/sentence_parser.c:136-179 | out-of-range index refused; otherwise the words of the result are the old words with the new ones in between, joined by spaces, with a space left over behind a final delimiter |
| WordParser.InsertNewWord | storage_server/storage_server.c:450-461 | the copy loops of WRITE_UPDATE insert one entry and keep the rest |
| WordParser.UpdateAgreesWithInsertWord | storage_server/storage_server.c:440-467 | an update in a session and `insert_word` give the same words, whatever is inserted |
| WordParser.UpdatesOnlyInsert | storage_server/storage_server.c:440-467 | any run of updates keeps the old words in order and adds exactly the accepted ones |
| CommitSplice.SpliceParts | storage_server/storage_server.c:520-552 | the computed array size is filled to its end and never passed; the contents are before, parts, after |
| CommitSplice.CommitSentences | storage_server/storage_server.c:503-571 | all four branches leave one and the same spliced array |
| CommitSplice.CommitText | storage_server/storage_server.c:494-574 | the text written is the text before, the joined words, the text after |
| CommitSplice.CommitReparse | storage_server/storage_server.c:494-574 | the array equals a re-parse of the written text exactly if the edited text is non-empty and nothing fuses |
| CommitSplice.NoOpKeepsWords | storage_server/storage_server.c:404-574 | a session without updates on a non-blank sentence keeps every other sentence and all words |
| CommitSplice.NoOpIdempotent | storage_server/storage_server.c:404-574 | a second such session leaves the text identical |
| CommitSplice.NoOpKeepsCount | storage_server/storage_server.c:404-574 | the number of sentences is kept exactly if the sentence is not blank |
| HashTables.HashTable.Find | storage_server/sentence_lock.c:37-74 | the chain walk finds the node of a key exactly if the table maps the key |
| HashTables.HashTable.Prepend | nameserver/nameserver.c:321-335 | inserting at the head of a bucket adds the one mapping |
| HashTables.HashTable.Append | storage_server/inverted_index.c:85-104 | inserting at the end of a chain adds the one mapping |
| HashTables.HashTable.Unlink | storage_server/sentence_lock.c:104-111 | unlinking with the predecessor removes the one mapping and keeps the chain |
| HashTables.HashTable.Sweep | storage_server/sentence_lock.c:163-186 | one pass over all chains lets every entry be kept, changed or dropped, and counts the touched ones |
| HashTables.HashTable.Entries | nameserver/acl.c:373-397 | a pass over all chains lists every entry exactly once |
| Protocol.Djb2Append | nameserver/nameserver.c:292-302 | the hash of a longer string: times 33 plus the new character, in the given width |
| SentenceLock.LockTableInit | storage_server/sentence_lock.c:26-32 | the table starts without locks |
| SentenceLock.LockAcquire | storage_server/sentence_lock.c:34-86 | grants unless an unexpired lease of another client stands; then records client and time |
| SentenceLock.LockRelease | storage_server/sentence_lock.c:88-124 | removes the entry for its owner; denied to others; not found if absent |
| SentenceLock.LockIsLocked | storage_server/sentence_lock.c:126-155 | 1 exactly if somebody else holds an unexpired lease |
| SentenceLock.LockCleanupExpired | storage_server/sentence_lock.c:157-197 | drops exactly the expired entries and counts them |
| SentenceLock.CleanupUnobservable | storage_server/sentence_lock.c:157-197 | on a clock that never runs back, inserting or deleting cleanups anywhere changes no acquire and no is-locked result |
| SentenceLock.ReleaseSeesExpired | storage_server/sentence_lock.c:88-124 | a cleanup changes a release result exactly if the entry has expired |
| SentenceLock.ReleaseAfterAMinute | storage_server/sentence_lock.c:88-124 | a concrete lease for which it does |
| SentenceLock.ClockMustNotRunBack | storage_server/sentence_lock.c:34-86 | a concrete run on a clock set back where a cleanup is visible |
| SentenceLock.IsLockedPredictsAcquire | storage_server/sentence_lock.c:126-155 | is-locked answers 0 exactly if an acquire at that instant would succeed |
| SentenceLock.MutualExclusion | storage_server/sentence_lock.c:34-124 | over every run, another client gets the lock only after a release or 60 seconds after the last acquire |
| UndoBuffer.UndoTable.Save | storage_server/undo_buffer.c:39-111 | keeps one valid entry per file; content over 1 MB is refused |
| UndoBuffer.UndoTable.Restore | storage_server/undo_buffer.c:113-157 | hands the content out once |
| UndoBuffer.UndoTable.IsAvailable | storage_server/undo_buffer.c:159-176 | true exactly if a valid entry stands |
| UndoBuffer.UndoTable.ClearFile | storage_server/undo_buffer.c:178-211 | removes the entry of one file and keeps the entry count right |
| UndoBuffer.SaveThenRestore | storage_server/undo_buffer.c:39-157 | what was saved last is handed out, once; content over 1 MB is refused and other files are untouched |
| InvertedIndex.TokensAreRuns | storage_server/inverted_index.c:205-230 | a word is indexed exactly if it is a maximal alphanumeric run of two or more, lower-cased and cut to 99 |
| InvertedIndex.IndexAddWord | storage_server/inverted_index.c:45-107 | lists the file for the lower-cased word unless listed or full; tells whether it is listed |
| InvertedIndex.IndexRemoveFile | storage_server/inverted_index.c:109-155 | takes the file from every list, drops empty words, returns how many words listed it |
| InvertedIndex.IndexSearch | storage_server/inverted_index.c:157-186 | answers the file list of the normalised word, which `SearchIgnoresCase` and `SearchFinds` say for every spelling |
| InvertedIndex.AddRuns | storage_server/inverted_index.c:198-230 | the tokenizer loop adds exactly the words of the text and counts them |
| InvertedIndex.IndexContent | storage_server/inverted_index.c:188-234 | the file is re-indexed with exactly the words of the first 4095 characters; empty content changes nothing |
| InvertedIndex.ReindexLists | storage_server/inverted_index.c:188-234 | each list loses the file, keeps the others in order, and gets it back at the end exactly for its words with room |
| InvertedIndex.ReindexRelation | storage_server/inverted_index.c:188-234 | the word-file relation changes for this file only, to its occurring words |
| InvertedIndex.IndexStaysTidy | storage_server/inverted_index.c:45-234 | lists stay non-empty, duplicate-free and within 50 files |
| WordSearch.SearchIgnoresCase | storage_server/inverted_index.c:24-32 | the search answers the same for all spellings of a word in the two alphabets |
| WordSearch.SearchFinds | storage_server/inverted_index.c:157-230 | a search finds a file exactly if the file has, as a whole run of letters and digits, the word in some spelling |
| WordSearch.SearchFindsAlways | storage_server/inverted_index.c:157-230 | the same in every state of every run from start-up that re-indexes what it changes and keeps every word within 50 files |
| StorageServer.ViewIsWhole | storage_server/storage_server.c:100-122 | a file is read whole exactly if it is under 4096 bytes and without NUL |
| StorageServer.ViewIsLongestPrefix | storage_server/storage_server.c:100-122 | what is read of a file are exactly its beginnings under 4096 bytes without NUL |
| StorageServer.StorageServer.HandleStart | storage_server/storage_server.c:338-424 | WRITE_START is the step that locks, checks the index, opens the session and saves the undo content |
| StorageServer.StorageServer.HandleUpdate | storage_server/storage_server.c:426-474 | WRITE_UPDATE is the step that inserts one word |
| StorageServer.StorageServer.HandleCommit | storage_server/storage_server.c:476-621 | WRITE_COMMIT is the step that replaces the file, releases the lock, re-indexes and ends the session |
| StorageServer.StorageServer.HandleDisconnect | storage_server/storage_server.c:1185-1195 | a broken connection ends the session and releases its lock |
| StorageServer.StorageServer.HandleUndo | storage_server/storage_server.c:624-673 | UNDO is the step that writes the saved content back |
| StorageServer.StorageServer.HandleCreate | storage_server/storage_server.c:1028-1034 | CREATE makes an empty file or reports a conflict |
| StorageServer.StorageServer.HandleReplicate | storage_server/storage_server.c:1103-1117 | REPLICATE makes an empty file unless there is one |
| StorageServer.StorageServer.HandleDelete | storage_server/storage_server.c:1035-1041 | DELETE removes the file and its index entries |
| StorageServer.StorageServer.ClientMessage | storage_server/storage_server.c:1175-1267 | which messages are handled inside and outside a write loop |
| StorageServer.StorageServer.Handle | storage_server/storage_server.c:998-1287 | every event changes the concrete state exactly as the abstract step says |
| StorageServer.StorageServer.IndexExisting | storage_server/storage_server.c:1423-1428 | start-up indexes the files found, in order |
| StorageServer.StepInBounds | storage_server/storage_server.c:487-571 | no step takes the session's sentence number out of the bounds in which a commit's copying loops stay inside their arrays |
| StorageRuns.SessionAlwaysHolds | storage_server/storage_server.c:338-615 | in every reachable state the active session's lock is its own client's or nobody's |
| StorageRuns.BoundsAlways | storage_server/storage_server.c:487-571 | the same over every run that starts without a session |
| StorageRuns.EndOfSessionReleases | storage_server/storage_server.c:603-615 | the release at the end of a session is never denied and frees exactly that key |
| LockRuns.EndedIsFree | storage_server/storage_server.c:1185-1195 | over every run, a commit or a broken connection in a session frees exactly its lock and ends the session |
| LockRuns.NextIsGranted | storage_server/storage_server.c:338-372 | whoever comes next can start on that sentence at once |
| LockRuns.BlockedIff | storage_server/sentence_lock.c:34-124 | over every run on an ordered clock a client is kept from a sentence exactly if another's START was granted under a minute ago and the lock was not given back since |
| LockRuns.StartAnswers | storage_server/storage_server.c:338-424 | over every run, what WRITE_START answers, by the history of the file and of the lock |
| LockRuns.CleanupLeaves | storage_server/storage_server.c:1277-1287 | a cleanup leaves exactly the leases younger than a minute |
| StorageRuns.UndoRestoresStart | storage_server/undo_buffer.c:39-157 | UNDO gives the bytes seen at the latest START, all of them exactly if the file fits the buffer without NUL |
| StorageRuns.SecondUndoFails | storage_server/storage_server.c:630-636 | a second UNDO without a new START reports not found and changes nothing |
| FileHistory.UndoAnswers | storage_server/storage_server.c:624-673 | over every run UNDO succeeds exactly if a START on the file did, and neither a START nor an UNDO of it since; else it changes nothing |
| StorageRuns.CommitWrites | storage_server/storage_server.c:487-598 | what a commit writes, and that no other file changes but the temporary one |
| FileHistory.PresentIff | storage_server/storage_server.c:1028-1117 | over every run a file is there exactly if it was at first or was given by CREATE, REPLICATE, UNDO or COMMIT, and neither deleted nor renamed away since |
| FileHistory.ContentIsLastWritten | storage_server/storage_server.c:487-673 | over every run a file holds what the last event that wrote it has written |
| FileHistory.NsAnswers | storage_server/storage_server.c:1028-1117 | over every run, what CREATE, REPLICATE and DELETE answer, by that history |
| FileHistory.DeleteForgets | storage_server/storage_server.c:124-133 | over every run a DELETE removes the file and takes it from every list, and touches no other file |
| StorageRuns.StartThenCommit | storage_server/storage_server.c:338-621 | START then COMMIT on an existing sentence is always possible and is the no-op edit |
| StorageRuns.NoOpSessionTwice | storage_server/storage_server.c:338-621 | START, COMMIT and again START, COMMIT, on a sentence that is not blank: the second session is granted and changes no file |
| SessionOwners.OwnSessionIff | storage_server/storage_server.c:1163-1267 | inside a write loop the session is the loop's own exactly if the loop's START succeeded |
| SessionOwners.CommitWritesWhose | storage_server/storage_server.c:1163-1267 | over every run, which START began the session that a commit writes and which one opened the loop, and when they are the same |
| SessionOwners.SessionWorksOnStart | storage_server/storage_server.c:338-474 | over every run the session's words are those of its START with all updates since, and the file still reads as that START saw it unless it reads as empty |
| SessionOwners.CommitOfSession | storage_server/storage_server.c:338-621 | over every run a commit puts these words in the place of the edited sentence of the text that START saw |
| SessionOwners.UpdateAnswers | storage_server/storage_server.c:426-474 | over every run an update is accepted exactly if its index is at most the number of words that START and updates have given |
| SessionOwners.RefusedWrites | storage_server/storage_server.c:1215-1228 | an update or commit outside a loop, or without a session, is refused and changes no data |
| IndexRuns.FreshSessionHarmless | storage_server/inverted_index.c:189-191 | a fresh session commits an empty file only if the old content had no indexable word |
| IndexRuns.CommitSound | storage_server/storage_server.c:576-611 | a commit keeps the index sound exactly if no word lists the temporary file's name and it does not empty a listed file |
| IndexRuns.CommitSoundIff | storage_server/storage_server.c:576-611 | with sessions begun since the last UNDO the temporary file's name alone decides |
| IndexRuns.UndoAgreesIff | storage_server/storage_server.c:651-665 | UNDO keeps the index sound exactly if the restored text has every word of the present one, and complete exactly if it has no other |
| IndexRuns.UndoAfterStartIff | storage_server/storage_server.c:624-673 | over runs, an UNDO keeps index and files in agreement exactly if the file holds the same words as at the latest START |
| IndexRuns.UndoOfSessionIff | storage_server/storage_server.c:338-673 | START, updates, COMMIT and UNDO keep them in agreement exactly if the committed text and the text at START hold the same words |
| IndexRuns.StepKeepsIndex | storage_server/storage_server.c:998-1287 | every re-indexing step keeps soundness; it keeps completeness exactly if no word is then in more than 50 files |
| IndexRuns.CompleteIsCapped | storage_server/inverted_index.c:76-82 | an index that lists every file that holds a word shows that no word is in more than 50 files |
| IndexRuns.IndexAgrees | storage_server/inverted_index.c:45-234 | over whole runs every listed file contains the word; the converse holds in all states exactly if it holds at first and no word is ever in more than 50 files |
| IndexRuns.IndexAgreesFromStartup | storage_server/storage_server.c:1417-1429 | from start-up on every listed file contains the word; if the whole directory was listed, the converse holds in all states exactly if no word is ever in more than 50 files |
| IndexRuns.StepAgreesIff | storage_server/storage_server.c:998-1287 | any step at all: index and files still agree exactly under a condition on the state before it |
| IndexRuns.AgreesThroughoutIff | storage_server/storage_server.c:998-1287 | any run at all, with UNDO: index and files agree in every state exactly if they do at first and every step meets its condition |
| IndexRuns.SearchIsScan | storage_server/inverted_index.c:157-186 | a search finds exactly the files in which the word occurs |
| StorageExamples.AppendFuses | storage_server/storage_server.c:553-560 | a concrete append with two sentences in memory and one in the file |
| StorageExamples.UndoCutsLongFile | storage_server/storage_server.c:100-122 | a concrete file of 4096 characters that UNDO shortens |
| StorageExamples.TempNameLosesFile | storage_server/storage_server.c:576-598 | a concrete run from start-up in which a commit loses an indexed file |
| StorageExamples.UndoLeavesWordListed | storage_server/storage_server.c:651-665 | a concrete run from start-up: START, update, COMMIT, UNDO, and the index lists a word that is gone |
| StorageExamples.StrangerEditsSession | storage_server/storage_server.c:1163-1267 | a concrete run in which one client edits the session of another |
| StorageExamples.ManyFilesIncomplete | storage_server/inverted_index.c:76-82 | a concrete directory that no start-up can index completely |
| LruCaches.LruCache.MoveToFront | nameserver/nameserver.c:199-213 | the pointer surgery moves one entry to the front and keeps the others in order |
| LruCaches.LruCache.LruGet | nameserver/nameserver.c:216-228 | a hit answers the value and becomes the most recent entry |
| LruCaches.LruCache.LruPut | nameserver/nameserver.c:231-268 | the key becomes the most recent entry; a full cache loses its least recent one |
| LruCaches.LruCache.LruInvalidate | nameserver/nameserver.c:271-285 | the entry is unlinked |
| LruRuns.AlwaysOk | nameserver/nameserver.c:199-285 | over every run no key stands twice and at most 100 stand |
| LruRuns.OrderedByLastTouch | nameserver/nameserver.c:199-285 | over every run the list is ordered by last use |
| LruRuns.RecentStaysCached | nameserver/nameserver.c:231-268 | a key used with fewer than 100 distinct other keys used since, and not invalidated, is still cached |
| LruRuns.HitIsLastPut | nameserver/nameserver.c:216-268 | over every run a hit answers what was last put under the key |
| RoundRobin.ChooseIsNext | nameserver/nameserver.c:449-467 | the choice is the first live server cyclically after the last one; -1 exactly if none lives |
| RoundRobin.RoundIsFair | nameserver/nameserver.c:449-467 | with a fixed set of n live servers, n calls in a row choose each exactly once |
| NameServer.NameServer.HashmapAdd | nameserver/nameserver.c:304-339 | maps the file and drops it from the cache |
| NameServer.NameServer.HashmapFind | nameserver/nameserver.c:342-356 | the mapped server or -1 |
| NameServer.NameServer.HashmapRemove | nameserver/nameserver.c:359-387 | unmaps the file and drops it from the cache |
| NameServer.NameServer.FindReplicaSs | nameserver/nameserver.c:125-132 | the replica of the first entry of the file or -1 |
| NameServer.NameServer.AddReplicationEntry | nameserver/nameserver.c:135-151 | a known file gets a new replica, a new file an entry, a full table nothing |
| NameServer.NameServer.FindSsForFile | nameserver/nameserver.c:422-447 | cache, map and fail-over together are the lookup step |
| NameServer.NameServer.FindAvailableSs | nameserver/nameserver.c:449-467 | the loop computes the round-robin choice and remembers it |
| NameServer.NameServer.AddFile | nameserver/nameserver.c:469-484 | lists and maps the file unless the server has 1000 files |
| NameServer.NameServer.HandleRegistration | nameserver/nameserver.c:519-637 | recovery or first registration of a server with its file list; `RegisteredLives` says that it then lives |
| NameServer.NameServer.HandleCreate | nameserver/nameserver.c:695-833 | CREATE with its replication step |
| NameServer.NameServer.HandleDelete | nameserver/nameserver.c:882-981 | DELETE; replication entries stay |
| NameServer.NameServer.HandleHeartbeat | nameserver/nameserver.c:2067-2097 | revives the server and leaves the cache alone |
| NameServer.NameServer.DetectFailedServers | nameserver/nameserver.c:2275-2291 | marks dead exactly the live servers silent for more than 15 seconds |
| NameServer.NameServer.Handle | nameserver/nameserver.c:2103-2258 | every event changes the concrete state exactly as the abstract step says |
| CacheRuns.LookupTransparent | nameserver/nameserver.c:422-447 | a lookup succeeds exactly if the cache-free one does, names a live server, and differs exactly on stale entries |
| CacheRuns.CacheTransparentAlways | nameserver/nameserver.c:422-447 | the same in every state of every run without such a CREATE |
| CacheRuns.StepKeeps | nameserver/nameserver.c:199-484 | a step keeps cached files at the mapped server or the present replica exactly if it is not a CREATE that gives a file cached elsewhere a new replica and no room |
| CacheRuns.InvAlwaysIff | nameserver/nameserver.c:199-387 | over every run cached files are at the mapped server or the present replica, in all states, exactly if no such CREATE happens |
| CacheLimits.AgreesForEverIff | nameserver/nameserver.c:422-484 | lookups and cache-free lookups agree in success after every part of a run, whatever may follow short of another CREATE, exactly if no such CREATE happens in it |
| CacheLimits.CreateAstray | nameserver/nameserver.c:469-484 | such a CREATE leaves the file cached at a server that is neither the mapped one nor its replica |
| CacheLimits.DistinctAlways | nameserver/nameserver.c:519-637 | over every run no two servers have the same address |
| CacheRuns.DifferenceFromRevival | nameserver/nameserver.c:2089-2090 | a differing answer has one cause: the mapped server was revived while the entry stayed cached |
| CacheRuns.ReplicaIsElsewhere | nameserver/nameserver.c:806-808 | with two live servers the replica chosen differs from the primary |
| FileLife.StepMaps | nameserver/nameserver.c:469-981 | one step: the two ways into the file map, the one way out, and the server a file is then mapped to |
| FileLife.MappedIffPutAndKept | nameserver/nameserver.c:469-981 | over every run a file is mapped exactly if a CREATE with room or a registration put it there and no DELETE succeeded since |
| FileLife.MappedWherePut | nameserver/nameserver.c:469-981 | over every run the mapping stays where the last of these put it |
| FileLife.FoundIff | nameserver/nameserver.c:422-447 | a lookup succeeds exactly if that holds and the mapped server or the replica lives |
| ServerLife.LivesIff | nameserver/nameserver.c:2067-2291 | over every run a server lives exactly if no check since its last registration or heartbeat came more than 15 seconds after it |
| ServerLife.RegisteredLives | nameserver/nameserver.c:519-637 | an accepted registration makes the server live, with the port and the files it names, whatever was known of it |
| ServerLife.KnownIff | nameserver/nameserver.c:519-637 | over every run an address is known exactly if a registration from it was accepted |
| ServerLife.BeatAnswers | nameserver/nameserver.c:2067-2097 | over every run, which heartbeats and registrations are accepted |
| ServerLife.PortSince | nameserver/nameserver.c:525-545 | clients are sent to the port of the last accepted registration |
| ServerLife.PlaceKeepsAddress | nameserver/nameserver.c:519-637 | a place in the server table keeps its address for ever |
| ServerLife.FoundByHistory | nameserver/nameserver.c:422-447 | a lookup succeeds exactly if the file was put and kept and its server or its replica was heard of lately |
| NameAnswers.LookupAnswers | nameserver/nameserver.c:422-447 | which server a lookup names: the mapped one if it lives and no stale entry hides it, else the replica |
| NameAnswers.CreateAndDeleteAnswer | nameserver/nameserver.c:695-981 | over every run with room, what CREATE and DELETE answer, by history alone; a failed DELETE leaves map and lists alone |
| NameAnswers.CreatedIsMapped | nameserver/nameserver.c:773-804 | a CREATE answered with 200 or 201 maps the file to a server that lists it, if its server has room |
| NameAnswers.StepNotes | nameserver/nameserver.c:469-981 | one step, one server: how its list of files changes, as a multiset |
| NameAnswers.ListsBounded | nameserver/nameserver.c:469-637 | over every run no server's list passes 1000 names |
| NameAnswers.NamesHoldNoMark | nameserver/nameserver.c:590-715 | over every run no mapped name holds the mark of the registration listing |
| NameAnswers.ReplicationNotes | nameserver/nameserver.c:135-151 | a known file keeps its primary and gets a new replica, a new file an entry, a full table nothing; other files keep theirs |
| FileLife.ReplicaOutlivesDelete | nameserver/nameserver.c:135-151 | over every run only another successful CREATE of a file changes its replica entry: it outlives deletion, deaths and re-registration |
| FileLife.CreateEffect | nameserver/nameserver.c:773-833 | the mapping, the replica entry and both listings after any successful CREATE with a replica, reached or not, full or not |
| FileLife.FoundSince | nameserver/nameserver.c:422-447 | from such a CREATE on a file is found exactly while the server it was last put to, or its replica, lives |
| FileLife.CreatedFileHangsOnReplica | nameserver/nameserver.c:805-829 | until it is registered, created or deleted again, a replicated file is found exactly while its replica lives |
| FileLife.ReturnedPrimaryGivesFailover | nameserver/nameserver.c:519-637 | once the primary has registered again with the file, it is found exactly while one of the two lives |
| FileLife.UnreachedReplicaIsAsked | nameserver/nameserver.c:805-829 | a replica that was never reached is still asked once the primary dies |
| FileLife.DeleteLeavesPrimaryCopy | nameserver/nameserver.c:955-977 | deleting a replicated file leaves the primary's copy listed and the replica entry in place |
| NameServerExamples.PairIsReached | nameserver/nameserver.c:519-637 | two registrations from the start give two servers without files |
| NameServerExamples.FirstCreateHasReplica | nameserver/nameserver.c:695-833 | the first CREATE on them succeeds with a replica |
| NameServerExamples.StaleAfterHeartbeat | nameserver/nameserver.c:2067-2097 | a concrete run from the start that ends in a stale lookup |
| NameServerExamples.StaleRunIsUnreached | nameserver/nameserver.c:805-829 | that run meets the premises of `UnreachedReplicaIsAsked` |
| NameServerExamples.ReplicaDiesAfterCreate | nameserver/nameserver.c:695-833 | the next run meets the premises of `CreatedFileHangsOnReplica` |
| NameServerExamples.PrimaryIsNotAsked | nameserver/nameserver.c:805-829 | a concrete run from the start in which the primary lives and holds a file that is not found |
| NameServerExamples.PrimaryAnswersOnceReturned | nameserver/nameserver.c:519-637 | a concrete run that meets the premises of `ReturnedPrimaryGivesFailover` and finds the file at the primary |
| NameServerExamples.CreateWithoutRoom | nameserver/nameserver.c:469-484 | a concrete run from the start with a CREATE without room, after which the cache answers where the map and the replica do not |
| Acl.AddToList | nameserver/acl.c:66-82 | adds once, refuses when full |
| Acl.RemoveFromList | nameserver/acl.c:85-97 | closes the gap over the first match |
| Acl.AclTable.AclAddFile | nameserver/acl.c:112-144 | a new file gets its owner and empty lists |
| Acl.AclTable.CheckRead | nameserver/acl.c:146-168 | owner, reader or writer |
| Acl.AclTable.CheckWrite | nameserver/acl.c:170-187 | owner or writer |
| Acl.AclTable.CheckOwner | nameserver/acl.c:189-196 | owner only |
| Acl.AclTable.AclAddAccess | nameserver/acl.c:198-225 | grants reading or writing, with the error cases |
| Acl.AclTable.AclRemoveAccess | nameserver/acl.c:227-245 | takes the user from both lists |
| Acl.AclTable.AclRemoveFile | nameserver/acl.c:247-271 | removes the entry |
| Acl.AclTable.AccessibleFiles | nameserver/acl.c:330-354 | every file the user can read, each once, unless the result is full |
| Acl.RevocationExact | nameserver/acl.c:227-245 | one revocation takes exactly that user's non-owner access to that file |
| Acl.DuplicateDefeatsRevocation | nameserver/acl.c:85-97 | one revocation fails exactly on a user who stands twice in a list, which the run invariant rules out |
| AclPersistence.AclSave | nameserver/acl.c:356-407 | the text written: header and one line per entry |
| AclPersistence.DecimalReadsBack | nameserver/acl.c:370 | the count is written in decimal without leading zeros |
| AclPersistence.AclLoad | nameserver/acl.c:409-468 | the `fgets` and `sscanf` loop computes the load of the text |
| AclPersistence.LoadOfSave | nameserver/acl.c:356-468 | loading what was saved restores owners and ordered users, except writers of entries without readers |
| AclPersistence.LoadOfSaveIsIdentityIff | nameserver/acl.c:432-459 | nothing is lost exactly if every file with a writer has a reader |
| AclPersistence.WriterWithoutReaderIsLost | nameserver/acl.c:432-459 | a concrete file that loses its writer |
| AccessExamples.SavedText | nameserver/acl.c:364-397 | the exact text saved for a concrete entry |
| AclPersistence.Restart | nameserver/acl.c:356-468 | saving the table and loading it into a fresh one restores every entry, except writers of entries without readers |
| AccessRequests.RequestTable.Add | nameserver/access_requests.c:25-54 | appends a pending request unless full or a duplicate |
| AccessRequests.RequestTable.GetForOwner | nameserver/access_requests.c:56-67 | the owner's pending requests in order, up to the limit |
| AccessRequests.RequestTable.SettleRequest | nameserver/access_requests.c:69-95 | the first matching pending request is pending no more |
| AccessRequests.SettleConsumes | nameserver/access_requests.c:69-95 | succeeds exactly if such a request is pending, and leaves none of that user's pending |
| AccessRuns.AccessServer.HandleAddAccess | nameserver/nameserver.c:1253-1323 | only an owner grants, only to a known user; the lists are saved |
| AccessRuns.AccessServer.HandleRemAccess | nameserver/nameserver.c:1325-1362 | only an owner revokes; the lists are saved |
| AccessRuns.AccessServer.HandleRequestAccess | nameserver/nameserver.c:1801-1849 | who may ask, and what is recorded |
| AccessRuns.AccessServer.HandleApprove | nameserver/nameserver.c:1902-1937 | an owner's approval settles the request and grants reading; nothing is saved |
| AccessRuns.AccessServer.HandleDeny | nameserver/nameserver.c:1940-1969 | an owner's denial settles the request; nothing is saved |
| AccessRuns.AccessServer.HandleCreated | nameserver/nameserver.c:796-801 | the creator becomes the owner; the lists are saved |
| AccessRuns.AccessServer.HandleDeleted | nameserver/nameserver.c:886-964 | only a writer deletes, and the entry goes; the lists are saved |
| AccessRuns.AccessServer.Persist | nameserver/acl.c:356-407 | the file then holds the text of the present lists |
| AccessRuns.TablesStayOk | nameserver/acl.c:66-97 | over every run lists are duplicate-free and at most 50 long, and one request per file and user is pending |
| AccessRuns.RevocationInEveryRun | nameserver/nameserver.c:1325-1362 | in every reachable state one revocation is exact |
| AccessRuns.ListedIffGranted | nameserver/nameserver.c:1253-1362 | over every run a user is listed exactly if an owner granted it and neither a revocation nor a deletion succeeded since |
| AccessHistory.OwnerIff | nameserver/acl.c:112-144 | over every run a file has an entry exactly if it was made and not deleted since, and its owner is the first who made it |
| AccessHistory.ListedForIff | nameserver/acl.c:198-245 | over every run each of the two lists holds exactly the users who were granted just that access and whose grant stands |
| AccessHistory.MayIff | nameserver/acl.c:146-187 | over every run, who passes the checks for reading and for writing |
| AccessHistory.DeleteAnswers | nameserver/nameserver.c:886-964 | DELETE is refused exactly to those who neither own the file nor were granted writing |
| AccessHistory.GrantAnswers | nameserver/nameserver.c:1253-1362 | over every run, what ADDACCESS and REMACCESS answer |
| AccessHistory.RequestAnswers | nameserver/nameserver.c:1801-1849 | over every run, which requests for access are recorded, and the answer otherwise |
| AccessHistory.SettleAnswers | nameserver/nameserver.c:1902-1969 | over every run, what APPROVE and DENY answer |
| AccessHistory.ShownAre | nameserver/access_requests.c:56-67 | the listing holds the pending requests to the owner, in order, all of them unless there are too many |
| AccessHistory.OwnerIsShown | nameserver/nameserver.c:1852-1899 | over every run an owner is shown exactly the requests made to him and not settled |
| AccessHistory.ViewRequests | nameserver/nameserver.c:1852-1899 | VIEWREQUESTS: only an owner of the file, and exactly the users whose requests for it wait for him |
| AccessRuns.EveryListingIsJustified | nameserver/nameserver.c:1801-1969 | the grant that stands was made by the present owner; an approval among them used up an own earlier request |
| AccessRuns.SavedIsBehind | nameserver/nameserver.c:1902-1937 | over every run the saved lists lag behind in readers only |
| AccessRuns.UnsavedReaderIff | nameserver/nameserver.c:1902-1937 | a reader is missing from the saved lists exactly if an approval made him one after the last save |
| AccessRuns.ReadAfterRestart | nameserver/nameserver.c:176-190 | who can read after a restart, exactly |
| AccessRuns.WriteAfterRestart | nameserver/nameserver.c:176-190 | who can write after a restart, exactly: owners, and the writers of files saved with a reader |
| RequestRuns.PendingIffAsked | nameserver/access_requests.c:25-95 | over every run a request is pending exactly if it was made and not settled since; deleting the file does not end it |
| RequestRuns.SettledByRecordedOwner | nameserver/nameserver.c:1902-1969 | in every reachable state a pending request can be approved or denied exactly by the owner recorded in it while the file is his |
| AccessExamples.ApprovalIsForgotten | nameserver/nameserver.c:1902-1937 | a concrete run whose approved reader is not in what was saved |
| AccessExamples.RequestIsOrphaned | nameserver/nameserver.c:1801-1969 | a concrete run after which a pending request can be settled by nobody and not be made again |
| Registration.Snprintf | storage_server/storage_server.c:265-267 | writes what fits, a NUL behind it, and returns the full length |
| Registration.SerializeFiles | storage_server/storage_server.c:259-283 | the content of the message buffer after the fill loop |
| Registration.ListingIsLongestPrefix | nameserver/nameserver.c:590-613 | the name server reads whole names only: the longest prefix that fits, up to 1000 |
| Registration.WholeNamesIff | storage_server/storage_server.c:263-280 | no name arrives truncated exactly if the first name is under 4096 characters |

## Left out

- Sockets, message structs, threads and mutexes: each handled message is one atomic step, so data races between the unlocked threads are not modelled.
- REVERT, MOVE, folders and checkpoints: thin wrappers over the file system; REVERT and MOVE do not re-index, so they are no steps of the index runs.
- STREAM, EXEC, VIEW, LIST, INFO and the aggregation of SEARCH results: formatting and shell calls over the modelled state.
- The client program, logging, display times and response texts.
- Growth of the `malloc`ed arrays, `free` and allocation failure: grown arrays are sequences; only the arrays whose size the code computes beforehand are arrays here.
- Name fields: file names and user names are taken to fit their fixed fields, so `strncpy` never cuts them.
- Characters above 127 in hashes: C may sign-extend them; any deterministic hash would do for the proofs.
- StorageServer.StorageServer.HandleCommit: requires the file to exist and the joined words to fit the buffer; outside this the C code reads an unset buffer or passes its end. That the sentence number is in range is proved of every run (BoundsAlways). The failing `fopen` of the temporary file is not modelled.
- StorageServer.StorageServer.HandleUndo: a failing `fopen` after the entry has been used up is not modelled.
- InvertedIndex.IndexSearch: answers the list of files; joining their names with newlines into the result buffer is not modelled.
- Registration.SerializeFiles: for directory names without `|` and NUL; a name with `|` would be read back as two.
- IndexRuns.IndexAgrees: over runs without UNDO and without a commit over an indexed `.tmp` file; AgreesThroughoutIff covers the runs with them. Start-up lists at most 100 files.
- CacheRuns.CacheTransparentAlways: over runs in which no CREATE gives a file that is cached elsewhere a new replica without listing it anywhere; AgreesForEverIff shows that agreement in success is safe exactly then.
- FileLife.FoundIff: over the same runs, and so are FoundSince and what follows from it.
- NameAnswers.CreateAndDeleteAnswer: over the same runs, and so are LookupAnswers and ServerLife.FoundByHistory.
- LockRuns.StartAnswers: on a clock that does not run back and from a state without locks; SentenceLock.ClockMustNotRunBack shows why.
- WordSearch.SearchFindsAlways: over runs without UNDO, without a commit over an indexed `.tmp` file and with no word in more than 50 files; AgreesThroughoutIff covers the others.
- AccessHistory.ViewRequests: answers the users; the lines of text and the message buffer that cuts them are not modelled.
- AclPersistence.LoadOfSave: for names free of `|`, newline and, for users, `,`, lines that fit the 4096-byte buffer, file names not read as a comment or a count, and a file count that fits a 32-bit integer; creation times are not modelled.
- WordParser.InsertWord: requires a non-empty sentence or word, since otherwise the C code looks before the start of its buffer.
- In-place shifting inside the fixed user and file arrays of an entry: lists are values that the methods replace; aliasing between them cannot be expressed.

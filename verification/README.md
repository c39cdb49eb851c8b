# A verified model of the distributed file system

The repository is a distributed file system in C: clients talk to a name server, which knows where files live,
and to storage servers, which keep them. This project models the stateful logic underneath the sockets and
proves, in Dafny, what it promises.

`dafny verify dfyconfig.toml` checks everything.

**The document engine of the storage server.** A file is parsed into sentences of words (`Document`, laws in
`ParserLaws`). WRITE sessions lock a sentence, queue insertions against the word count they saw, unlock, and
commit under a global lock with every index shifted by the growth of the sentence (`Editing`, `WriteSession`,
`DocumentOps`); any number of them interleave step by step in `SessionProtocol`, whose commit laws need nothing of
users and locks; `TypedSessions` says that a session commits what its client typed, and `SentenceLocks` is about who
holds what. `UndoLaws` is about backup, commit, UNDO and sessions that break off. `NestedInsert` specifies `write_to_file_ll`, the insertion of a text that may itself hold several
sentences. The heap side - linked sentence and word nodes, the parser's and printers' loops, the commit's
splices, the whole list surgery of `write_to_file_ll` - is in `LinkedDocument`, `DocumentStorage`, `LinkedInsert`,
`LinkedWrite` and `WriteToFile`, each method proved equal to the function of the same step.

**The permission cache.** `AccessList` and `AccessRights` treat the access list as the string it is, spliced in
place, and relate it to the finite map it stands for. `CacheTable` is the open-addressing table with linear
probing, no tombstones, a home slot that insertion never fills and a rebuild on every miss; `PermissionLaws` runs
checks, grants and revocations on it; `RightsOverRuns` sums up over runs: checks follow the latest grant or
revocation; `PermissionGaps` says what a check answers where cache and lists part; `PermissionCache` is the code with
its loops.

**The name server.** `Directory` holds file tables and hash index as values, stale slots and stale pointers
included; `NameServerLaws` the handlers as steps, with the location cache; `PlacementLaws` where files are placed
and found, and what is answered; `Moving` the effect of shifts and MOVE; `PointerDrift` how far pointers are off
after a run; `RoundRobin` the order of placement; `Registration` the file list a
server registers with. `HashIndex` and `NameServerState` are the linked chains, the arrays and the handlers as code.

**Transfers.** `Transfer` has chunked READ and EXEC and the word stream.

`Text`, `Sequences`, `CStrings` and `Hashing` hold character classes, sequences without repetition, the C string
scanners and the djb2 hash.

## How the code is read

- Integers are unbounded except where a width shows: the djb2 hash wraps at 32 and 64 bits, a READ size is cut to
  the 32-bit field of the message. Buffers cut where the code cuts: 255-byte words, 4095-byte messages and lists,
  63-byte access entries, 321-byte cache keys.
- A region under one lock is one atomic step; a handler of the name server is one atomic step. Whether a storage
  server was reached and answered is an input of the step.
- The disk is a text per file that is replaced as a whole. The clock is an input of the location lookups.
- `isspace` is that of the C locale on bytes below 128.
- A struct array of the C code is an array of values, a pointer into one is a pair of indices (`FilePtr`), and the
  metadata array is a map from file names, which the code keeps unique.
- Preconditions on names are the sizes of the message fields they arrive in (255 bytes for file names, 63 for
  users).

## Where the code and its intent part

The model follows the code. Each of these is stated as a theorem, with the exact condition under which the
intended property holds:

- The parser leaves the terminator in the last word and also in the sentence's terminator field, and the sync
  printer writes both: `SyncDoublesTerminators`, `SyncRoundsGrow`, `SyncReloadsIff`. The undo printer writes
  words only and is the parser's exact inverse: `ParsePrintParse`; for edited documents see `UndoTextReloads` and
  `UndoKeepsWordsIff`.
- A WRITE session that breaks off undoes the whole file, other sessions' commits included, and re-reads it, which may
  split words: `AbortLosesCommits`, `AbortSplitsWord`.
- The admission test of a WRITE counts periods, the parser counts . ! and ?: `AdmissionRefinesLockRange`. With a
  NUL byte in the file, or once the file was synced, it may let indices through that the lock refuses:
  `AdmissionWithNul`, `AdmissionAfterSyncIff`, `SyncAdmitsTooMuch`.
- `write_to_file_ll` reads the terminator it means to keep after overwriting it: `RestKeepsTerminatorIff`.
- Revoking and granting search by substring, so a longer name ending in the user's name may be hit:
  `RevokeExactIff`, `GrantExactIff`, over runs `AccessListRefinesMapIff`; `WrongUserRevoked`. An entry longer than
  its buffer is cut: `CutOffEntry`.
- `delete_file_ll` does not invalidate the permission cache: `RecreatedFileFollowsOldList`, `OldGrantSurvives`, and over
  all runs `AnswersOverAllRuns`. A user name with a colon shares its cache key with another file's user:
  `ColonUserGrantedIff`, `ColonUserBorrows`.
- `remove_file_from_server` shifts slots without re-pointing index nodes: `PointersOverRuns` says after every run
  which record, and so which owner, each name leads to, `NeighbourDecides` shows a wrong one; `MoveKeepsInvIff`
  says when MOVE, which writes through that pointer, does no harm.
- CREATEFOLDER ignores whether the folder could be entered, and reports success when the server's table is full:
  `CreateFolderPlaces`.
- A registration text that does not fit its message is cut: `RegistrationRoundTripIff`, `TwelveFilesRegister`. A
  READ size that does not fit its field, or a NUL byte in a small file, changes what the client shows:
  `ReadExactIff`.
- Unlocking compares user names, and a session on a sentence that does not exist yet is let in without a lock
  (`file_handler_ll.c:1015` says the write handler will take it; it does not). So a session can release a lock
  that another session of the same user holds: `StepKeepsExclusionIff`, `ExclusionOverRunsIff`,
  `SameUserBreaksExclusion`.

## Model

| member | source | states |
|---|---|---|
| `ParserLaws.ParsePrintParse` | storage_server/file_write_ll.c:551-569 | Parser and undo printer undo each other: for every text, parsing the printed parse gives the same document, sentence for sentence and terminator for terminator. |
| `ParserLaws.UndoTextReloads` | storage_server/file_write_ll.c:551-569 | Reloading what the undo printer wrote gives a document back if and only if the document is canonical (unlocked, non-empty sentences, whose terminator is the last byte of their last word, only the last one unterminated). |
| `ParserLaws.ParseIsCanonical` | storage_server/file_handler_ll.c:278-403 | The parser produces canonical documents only, for every text. |
| `ParserLaws.ParseKeepsText` | storage_server/file_handler_ll.c:300-377 | Parsing keeps every non-space byte in order, including words cut at 255 bytes and "e.g."-style cuts. |
| `ParserLaws.PrintParseKeepsText` | storage_server/file_write_ll.c:551-569 | Printing what was parsed has the same non-space bytes in the same order as the text. |
| `ParserLaws.PrintUndoKeepsText` | storage_server/file_write_ll.c:551-569 | The undo printer keeps the non-space bytes of any document, canonical or not. |
| `ParserLaws.SyncDoublesTerminators` | storage_server/file_handler_ll.c:907-939 | Exact law of sync: re-parsing the sync printer's output gives each terminated sentence followed by one sentence holding only its terminator; an unterminated tail is unchanged, so k terminated sentences become 2k. |
| `ParserLaws.SyncOfCanonical` | storage_server/file_handler_ll.c:907-939 | The same law for every canonical document, whether or not it came from a text; the result is canonical again. |
| `ParserLaws.SyncRoundsGrow` | storage_server/file_handler_ll.c:907-939 | n rounds of sync and reload turn k terminated sentences into k * 2^n and add no other sentence. |
| `ParserLaws.SyncReloadsIff` | storage_server/file_handler_ll.c:907-939 | Loading what the sync printer wrote gives a document back if and only if it is canonical and none of its sentences is terminated: exactly then a reload after a commit reproduces memory. |
| `ParserLaws.SyncIsIdentityIff` | storage_server/file_handler_ll.c:917-927 | Sync and reload is the identity on a file if and only if it has no terminated sentence. |
| `ParserLaws.UndoKeepsWordsIff` | storage_server/file_write_ll.c:551-569 | Loading the undo text of any document gives its words back, in order, if and only if the reader could have made each of them: short, no white space, a terminator at most as the last byte. |
| `ParserLaws.SentenceCount` | storage_server/file_handler_ll.c:278-403 | The number of sentences is the number of . ! ? in the text plus one for a tail that is not blank. |
| `ParserLaws.AdmissionRefinesLockRange` | storage_server/ss_client_comm.c:251-271 | Every index the period-counting admission test accepts passes the range test of the lock on the freshly parsed text; the two tests agree on every index exactly when the text has no ! and no ? and no tail. |
| `ParserLaws.AdmissionWithNul` | storage_server/ss_client_comm.c:251-271 | For files with NUL bytes the guarantee holds if and only if the periods behind the first NUL do not outnumber the ! and ? before it plus an unterminated tail. |
| `ParserLaws.AdmissionAfterSyncIff` | storage_server/ss_client_comm.c:251-271 | While a document is in memory the admission test reads the text it was last synced to: every index it accepts passes the lock's range test if and only if that text (words, and terminators once more) has no more periods than the document has sentences. |
| `ParserLaws.AdmissionAfterSyncOfCanonicalIff` | storage_server/file_handler_ll.c:907-939 | For a document as the parser leaves it this means that at most half of its sentences end in a period. |
| `ParserLaws.SyncAdmitsTooMuch` | storage_server/ss_client_comm.c:251-271 | After a sync of "a. b. c." index 6 is admitted and the lock refuses it. |
| `ParserLaws.NulAdmitsTooMuch` | storage_server/ss_client_comm.c:251-271 | In a file of a letter, a NUL and two periods index 2 is admitted although there is one sentence. |
| `ParserLaws.WordsKeepText` | storage_server/file_handler_ll.c:300-377 | Every word the reader makes is short, free of white space and terminated at most at its end; together they are the text without its white space. |
| `ParserLaws.PrintSyncShows` | storage_server/file_handler_ll.c:907-939 | What the sync printer writes of any document is, white space aside, its words in order and each terminator once more behind its sentence. |
| `ParserLaws.PrintersJoin` | storage_server/file_handler_ll.c:907-939 | Sync and undo printer put single blanks between words and between sentences and nothing else; the sync printer alone adds each terminator behind its sentence. |
| `LinkedDocument.SentenceNode.LinkAfter` | storage_server/ss_client_comm.c:595-612 | Linking a new node behind a given one inserts its word, cut to 255 bytes, at that position of the chain and leaves every other node in place. |
| `LinkedDocument.SentenceNode.InsertWord` | storage_server/ss_client_comm.c:595-612 | The walk to the position before the target and the relinking insert exactly one word at the index. |
| `LinkedDocument.SentenceNode.ApplyEdits` | storage_server/ss_client_comm.c:567-613 | The commit loop over the linked words equals CommitWords: each index shifted by the growth and clamped. |
| `LinkedDocument.SentenceNode.CountWords` | storage_server/file_write_ll.c:21-29 | The counting loop returns the number of words on the chain. |
| `LinkedDocument.LoadedFile.LockSentence` | storage_server/file_handler_ll.c:980-1050 | The traversal and lock of the linked list have exactly the outcome and effect of LockOutcome and LockAt on the document. |
| `LinkedDocument.LoadedFile.UnlockSentence` | storage_server/file_handler_ll.c:1052-1101 | Unlocking clears the lock of exactly the indexed sentence, and only if it is held under the same name. |
| `LinkedDocument.LoadedFile.OtherSentences` | storage_server/ss_client_comm.c:580-612 | Two sentences of a file share no word node, so splicing one leaves the others as they are. |
| `LinkedDocument.LoadedFile.SentenceAt` | storage_server/ss_client_comm.c:534-539 | The traversal stops at the indexed sentence, or at null if there is none. |
| `LinkedDocument.LoadedFile.AppendSentence` | storage_server/ss_client_comm.c:541-554 | A commit to the index one past the end links one new empty sentence at the end and counts it. |
| `LinkedDocument.LoadedFile.Commit` | storage_server/ss_client_comm.c:533-613 | The commit on the linked list equals CommitAt: find or create the sentence, then insert the rebased edits; a failed commit changes nothing; the sentence count stays the length of the list. |
| `LinkedDocument.LoadedFile.FinishSentence` | storage_server/file_handler_ll.c:340-352 | Closing a sentence sets its terminator and links exactly one empty sentence behind it. |
| `LinkedDocument.LoadedFile.RemoveBlankTail` | storage_server/file_handler_ll.c:379-400 | The last sentence is unlinked exactly if it has neither words nor terminator. |
| `LinkedDocument.LoadedFile.CountSentences` | storage_server/file_handler_ll.c:406-477 | After the counting loop of the loader the stored count is the length of the list. |
| `DocumentStorage.LoadText` | storage_server/file_handler_ll.c:278-403 | The parser loops build a linked list whose value is Parse of the text, with the right sentence count. |
| `DocumentStorage.AddBuffer` | storage_server/file_handler_ll.c:315-376 | The inner loop cuts one word buffer after each terminator and opens a sentence behind each. |
| `DocumentStorage.ReadWord` | storage_server/file_handler_ll.c:305-313 | The reader returns the next run of non-space bytes, at most 255 of them. |
| `DocumentStorage.BuildList` | storage_server/file_handler_ll.c:294-402 | The outer loop over a non-empty text builds the list of Parse. |
| `DocumentStorage.ReadCString` | storage_server/file_handler_ll.c:406-477 | The reading loop stops at the first NUL byte. |
| `DocumentStorage.PrintForSync` | storage_server/file_handler_ll.c:907-939 | The two nested printing loops write PrintSync of the document. |
| `DocumentStorage.PrintForUndo` | storage_server/file_write_ll.c:551-569 | The nested loops of the backup write PrintUndo of the document. |
| `DocumentStorage.StoredFile.Get` | storage_server/file_handler_ll.c:531-563 | Lazy loading returns the cached document, or the parse of the disk text if there is none. |
| `DocumentStorage.StoredFile.SaveUndoBackup` | storage_server/file_write_ll.c:507-576 | Saving a backup stores the undo text of the document in memory and changes nothing else. |
| `DocumentStorage.StoredFile.Sync` | storage_server/file_handler_ll.c:942-977 | Sync replaces the disk text by PrintSync of the document and changes nothing else. |
| `DocumentStorage.StoredFile.CommitSession` | storage_server/ss_client_comm.c:521-621 | Edit and sync succeed exactly if the commit finds its sentence; memory then holds the committed document, the disk the sync text of that very document, and the backup is untouched; a failed commit changes nothing. |
| `DocumentStorage.StoredFile.Undo` | storage_server/file_write_ll.c:455-504 | UNDO copies the backup over the disk text and reloads; without a backup nothing changes. |
| `UndoLaws.UndoRestores` | storage_server/ss_client_comm.c:285-338 | Lock, backup, any locks, unlocks and commits of any sessions, UNDO: the disk is the undo text of the document before the lock, memory its parse with every sentence unlocked; that is the document before the lock, locks aside, if and only if it was canonical; in any case it has the same non-space bytes in order; a second UNDO changes nothing. |
| `UndoLaws.UndoAfterLoad` | storage_server/file_write_ll.c:455-576 | For a file freshly loaded from a text, a session on any index the lock admits and what follows it, UNDO restores memory exactly and the disk up to white space. |
| `UndoLaws.AbortLosesCommits` | storage_server/ss_client_comm.c:509-519 | Any WRITE session that breaks off is undone to the state in which the last session on the file began, be it that one or another. Every byte but white space is then as it was; the words are those from then if and only if the reader could have made each of them, and then exactly the words that any sessions committed since are lost; the words stay what they are if and only if nothing was committed since and the reader could have made them. |
| `UndoLaws.AbortSplitsWord` | storage_server/ss_client_comm.c:509-519 | A run from an empty file: one session commits the word "a.b", another breaks off without a commit, and the word has become two, in two sentences. |
| `UndoLaws.StepsAddWords` | storage_server/ss_client_comm.c:533-613 | Over any locks, unlocks and commits the words of a document grow by exactly the words of the commits that succeed. |
| `UndoLaws.CommitReachesDisk` | storage_server/ss_client_comm.c:617-618 | A commit that finds its sentence leaves the new document in memory and its sync text on disk, whatever the disk held; every other commit leaves the file as it is. |
| `UndoLaws.StepsKeepSynced` | storage_server/ss_client_comm.c:521-621 | Once the disk holds the sync text of the document in memory, every lock, unlock and commit of any session keeps it so. |
| `UndoLaws.SameCommit` | storage_server/ss_client_comm.c:521-621 | The commit of a file with its disk and the commit step of the session protocol do the same to document and disk. |
| `UndoLaws.PrintUndoIgnoresLocks` | storage_server/file_write_ll.c:551-569 | The backup text does not depend on who holds which sentence. |
| `Editing.RebaseLaw` | storage_server/ss_client_comm.c:567-612 | Rebase law: if the sentence grew by d words, the commit leaves the first d words alone and replays the session's edits on the rest; no index is ever clamped. |
| `Editing.CommitKeeps` | storage_server/ss_client_comm.c:580-612 | A commit keeps the old words as a subsequence in order, adds exactly the queued words as a multiset, and grows the sentence by the length of the queue, for any indices and any growth. |
| `Editing.QueueFits` | storage_server/ss_client_comm.c:395-449 | Every accepted batch queues its i-th edit at an index of at most original count + i, the fact that keeps the clamps dead. |
| `Editing.DelimiterTracking` | storage_server/ss_client_comm.c:389-494 | Once set, the delimiter index names the same queued word through every later batch, accepted or rejected, and the words from it to the end never change. |
| `Editing.DelimiterIsSet` | storage_server/ss_client_comm.c:491-494 | The first accepted batch with a terminated word sets the tracked position to the position of that very word. |
| `Editing.DelimiterStaysTracked` | storage_server/ss_client_comm.c:409-489 | One more batch keeps tracking the same word and leaves everything behind it alone. |
| `Editing.AlwaysTracked` | storage_server/ss_client_comm.c:389-494 | From an empty queue, whatever batches arrive, the tracked position is that of a queued terminated word or unset. |
| `Editing.BatchProvenance` | storage_server/ss_client_comm.c:452-489 | Queueing a valid batch puts its edits, by number, side by side at the base index of the simulated sentence; for the words themselves see BatchReplays. |
| `Editing.ProvenanceNamesWords` | storage_server/ss_client_comm.c:580-612 | The tags used to follow words through edits name exactly the words that stand there. |
| `Editing.SameTagsSameWords` | storage_server/ss_client_comm.c:580-612 | Equal tags of two suffixes mean equal words while the queue only grows. |
| `WriteSession.Writer.Validate` | storage_server/ss_client_comm.c:389-450 | The validating strtok loop accepts a batch exactly if every word passes both tests, and reports the position of the first terminated word. |
| `WriteSession.Writer.Enqueue` | storage_server/ss_client_comm.c:452-489 | The storing loop appends one edit for each token, in order: its index is the base plus its place in the batch, its word the token or the first 255 bytes of it; the tracked position moves along. |
| `WriteSession.Writer.Receive` | storage_server/ss_client_comm.c:366-506 | One command leaves queue and tracked position as QueueBatch says: a valid batch appends its tokens, word by word with explicit indices, a rejected batch leaves both unchanged. |
| `TypedSessions.SessionCommitsTyped` | storage_server/ss_client_comm.c:324-621 | A session counts the words of its sentence, receives commands while any others run, and commits. What its client typed into the counted words (each command inserts its words, cut to 255 bytes, side by side at its index, or is refused whole) then stands behind the words gained meanwhile, if and only if the others left the counted words at the end; the count is that of the words seen; if nobody else committed to the sentence, the outcome is exactly what was typed. |
| `TypedSessions.BatchReplays` | storage_server/ss_client_comm.c:452-489 | Queueing a valid batch inserts its words side by side at the base index of the simulated sentence: the words before, each token or its first 255 bytes, the words behind. |
| `TypedSessions.ValidIffAccepted` | storage_server/ss_client_comm.c:395-449 | A batch is accepted if and only if each of its words goes to a place that exists by then and not behind the terminator typed before. |
| `TypedSessions.CommandTypes` | storage_server/ss_client_comm.c:366-506 | One command does to the queue what it does to the sentence in the client's mind, terminator position included. |
| `TypedSessions.TypesAllOnce` | storage_server/ss_client_comm.c:366-506 | What the client has in mind is determined by the commands it sent. |
| `TypedSessions.RunStands` | storage_server/ss_client_comm.c:366-506 | Through any interleaving a session's queue stands for what its own commands typed, until it commits. |
| `TypedSessions.StepStands` | storage_server/ss_client_comm.c:366-506 | Step by step: only the session's own commands change its view, only its own commit ends it. |
| `TypedSessions.ReplayTellsApart` | storage_server/ss_client_comm.c:580-612 | Different words stay different under the same edits. |
| `TypedSessions.JoinedTokens` | storage_server/ss_client_comm.c:389-390 | Words joined by single blanks are read back one by one. |
| `SentenceLocks.StepKeepsExclusionIff` | storage_server/file_handler_ll.c:1079-1090 | From a state in which a sentence is locked exactly when one session holds it, under that session's name: this holds after a step if and only if the step is not an ETIRW of a session that holds no lock while its user's name is on the sentence. |
| `SentenceLocks.ExclusionOverRunsIff` | storage_server/file_handler_ll.c:980-1101 | A sentence stays exclusive throughout a run if and only if no step of the run is such a foreign unlock; no assumption on users. |
| `SentenceLocks.MutualExclusion` | storage_server/file_handler_ll.c:980-1101 | If no user asks for a sentence that another session of the same user has open, every sentence is exclusive in every reachable state, however often a user writes. |
| `SentenceLocks.DistinctUsersExclude` | storage_server/file_handler_ll.c:980-1101 | Sessions of distinct users exclude each other on every sentence. |
| `SentenceLocks.LoadedSentencesExclude` | storage_server/file_handler_ll.c:1023-1040 | On a sentence that exists when the file is loaded exclusion needs no assumption on users: every open session there holds the lock, so there is at most one. |
| `SentenceLocks.LockReleasedIff` | storage_server/file_handler_ll.c:1052-1101 | The lock of a held sentence changes in a step if and only if its holder ends its session or the step is a foreign unlock, and then it is cleared; only the holder's own end of write ends its hold. |
| `SentenceLocks.GrantedIffFree` | storage_server/file_handler_ll.c:980-1050 | A lock request is granted if and only if its sentence exists or is the next one and no session holds it; it takes a lock exactly on a sentence that exists; a refused request leaves the document alone. |
| `SessionProtocol.NoLostUpdates` | storage_server/ss_client_comm.c:509-621 | No lost updates: over every interleaving of sessions of any users, each sentence ends with its initial words in order plus exactly the words of all sessions that committed to it. |
| `SessionProtocol.CommitLaw` | storage_server/ss_client_comm.c:521-621 | A commit in any state that any users' sessions can reach succeeds (the range error cannot happen), leaves the words of every other sentence and all terminators and locks alone, grows its sentence by exactly the queue's length, obeys the rebase law and keeps the count equal to the list length. |
| `SessionProtocol.UndisturbedCommit` | storage_server/ss_client_comm.c:533-613 | Replaying edits queued against a count on a sentence that did not grow since gives that sentence with the edits applied; SessionCommitsTyped says it of sessions. |
| `SessionProtocol.DiskShowsWholeCommits` | storage_server/ss_client_comm.c:617-618 | Commit and sync are one step here, as they are under one mutex in the code; what is proved is that no other step makes the disk differ from the printed document, because the sync printer ignores locks. |
| `SessionProtocol.NextKeepsInv` | storage_server/ss_client_comm.c:297-621 | Every step of every session keeps what the sessions counted and queued in order with the document, and only extends the document. |
| `SessionProtocol.RunKeepsInv` | storage_server/ss_client_comm.c:297-621 | So does every run. |
| `SessionProtocol.InitEstablishesInv` | storage_server/file_handler_ll.c:406-477 | A freshly loaded file with waiting sessions satisfies it. |
| `SessionProtocol.CommitStep` | storage_server/ss_client_comm.c:533-613 | What one commit by a session in good standing does to the whole state, and that it does no more. |
| `SessionProtocol.QuietStep` | storage_server/ss_client_comm.c:297-506 | Only commits change words, terminators, the number of sentences or the disk. |
| `SentenceLocks.SameUserBreaksExclusion` | storage_server/file_handler_ll.c:1079-1090 | A run from an empty file in which two sessions of one user make a foreign unlock, after which two sessions hold one sentence. |
| `NestedInsert.WriteIsFlatInsertion` | storage_server/file_write_ll.c:150-444 | A successful write makes the flattened words the old ones with the content's words inserted at (words before the sentence) + word index, in every branch; the sentences before and behind stay as they were. |
| `NestedInsert.SplitFindsParserWords` | storage_server/file_write_ll.c:66-147 | Splitting the content into groups finds exactly the words the parser would find, in order. |
| `NestedInsert.CommandBranchInsertsParserWords` | storage_server/file_write_ll.c:222-298 | With only blanks and tabs as white space and tokens that fit, the command branch inserts the parser's words too. |
| `NestedInsert.RestKeepsTerminatorIff` | storage_server/file_write_ll.c:416-424 | After a split by an unfinished last group, the cut-off words carry the first group's terminator, hence the sentence's own if and only if the two are the same. |
| `NestedInsert.GroupShape` | storage_server/file_write_ll.c:66-147 | Every group has words, and every group but the last was closed by a terminator or a newline. |
| `NestedInsert.GroupsAreSentences` | storage_server/file_write_ll.c:110-146 | Every group is one sentence: only its last word may be terminated, its delimiter is that terminator, else a newline or none. |
| `NestedInsert.SplitAtNewline` | storage_server/file_write_ll.c:75-88 | A newline ends the group in front of it, if one is open, and the content behind it is split on its own. |
| `NestedInsert.SentencesAreGroups` | storage_server/file_write_ll.c:313-434 | Sentence by sentence: the first group goes in front of the cut or, alone, into the sentence, each further group is a sentence of its own with its own terminator, and a single terminated group is followed by an empty one. |
| `NestedInsert.CommandsAreSentences` | storage_server/file_write_ll.c:245-298 | In the command branch sentence k holds exactly token k, cut to 255 bytes; only the first one keeps terminator and lock of the target. |
| `NestedInsert.CommandBranchIff` | storage_server/file_write_ll.c:222-243 | The command branch is taken exactly at word 0 of an empty sentence, for two or more tokens and a content without . ! ? and quotes. |
| `NestedInsert.ReplacementFlat` | storage_server/file_write_ll.c:222-438 | The sentences that replace the target hold its words up to the index, the inserted words, and the rest. |
| `LinkedInsert.SplitContentIntoGroups` | storage_server/file_write_ll.c:66-147 | The splitter's loops fill its table with exactly the groups of the content, if they fit the 100 by 100 table. |
| `LinkedInsert.AddBufferToGroups` | storage_server/file_write_ll.c:110-138 | One word buffer is cut after each terminator and each cut closes a group. |
| `LinkedInsert.HandleNewline` | storage_server/file_write_ll.c:75-88 | A newline closes the open group unless it is empty. |
| `LinkedWrite.NodeBefore` | storage_server/file_write_ll.c:32-44 | The traversal returns the node before the index. |
| `LinkedWrite.InsertWords` | storage_server/file_write_ll.c:318-345 | The insertion loop splices the words into the target at the index, in order, and returns the last new node. |
| `LinkedWrite.CutTail` | storage_server/file_write_ll.c:369-375 | Cutting behind the last inserted word leaves the sentence with the words up to it and a loose chain of the others. |
| `LinkedWrite.AttachTail` | storage_server/file_write_ll.c:410-415 | Hanging the loose chain behind another sentence's last word appends its words there. |
| `LinkedWrite.FinishLast` | storage_server/file_write_ll.c:409-425 | The last new sentence takes the cut-off words, and the first group's terminator if it has none. |
| `LinkedWrite.LinkBehind` | storage_server/file_write_ll.c:360-362 | Linking a sentence behind another inserts it at that place of the document and counts it. |
| `LinkedWrite.AddGroups` | storage_server/file_write_ll.c:377-434 | The loop over the further groups links one new sentence each, in order, behind the target. |
| `LinkedWrite.SplitTarget` | storage_server/file_write_ll.c:367-434 | The target is cut behind the inserted words and the further groups follow it; the words behind go to the last of them. |
| `LinkedWrite.SeveralGroups` | storage_server/file_write_ll.c:313-434 | First group, cut and further sentences together are exactly SplitSentence. |
| `LinkedWrite.OneGroup` | storage_server/file_write_ll.c:313-364 | A single group is inserted in place; if it is terminated, one empty sentence follows. |
| `WriteToFile.WriteGroups` | storage_server/file_write_ll.c:313-434 | On the linked list, inserting the groups replaces the target by SplitSentence and nothing else; the count stays the length of the list. |
| `WriteToFile.HasNoTerminator` | storage_server/file_write_ll.c:55-64 | The scan answers whether the content has no . ! or ?. |
| `WriteToFile.CountTokens` | storage_server/file_write_ll.c:236-243 | The counting strtok loop returns the number of blank-separated tokens. |
| `WriteToFile.PlaceNext` | storage_server/file_write_ll.c:259-289 | One round of the command loop: fill the waiting sentence, link an empty one behind it if tokens remain. |
| `WriteToFile.WriteCommands` | storage_server/file_write_ll.c:245-298 | The command loop turns every token into a sentence of its own, the first one in the target. |
| `WriteToFile.FindSentence` | storage_server/file_write_ll.c:161-170 | The traversal returns the indexed sentence and the one before it. |
| `WriteToFile.WriteToFile` | storage_server/file_write_ll.c:150-444 | The whole of write_to_file_ll on the linked list has exactly the outcome of WriteAt, errors included, and an error leaves the document unchanged. |
| `AccessRights.RevokeExactIff` | storage_server/file_handler_ll.c:1395-1431 | Revoking deletes exactly that user and leaves every other right alone if and only if the substring search hits no entry, the user's own, or a longer name directly followed by the user's entry with the same mode. |
| `AccessRights.GrantExactIff` | storage_server/file_handler_ll.c:1342-1393 | Granting sets exactly that user's mode if and only if the revocation before it hits right and the new entry fits both buffers. |
| `AccessRights.AccessListRefinesMapIff` | storage_server/file_handler_ll.c:1342-1431 | Over every run of grants and revocations the text means the finite map after each edit if and only if every edit, when its turn comes, hits the right entry among those then listed and every grant fits the buffers. |
| `AccessRights.AccessListRefinesMap` | storage_server/file_handler_ll.c:1342-1431 | At the end of such a run the text is the list of the entries left, each user once, and means the map. |
| `AccessRights.SuffixFreeNamesFit` | storage_server/file_handler_ll.c:1342-1431 | Among names of which none ends with another every edit hits right, so only the buffers can fail. |
| `AccessRights.RevokeKeepsList` | storage_server/file_handler_ll.c:1404-1421 | With a right hit the splice cuts out exactly the user's entry and keeps all others in order, also where the text cut belongs to the longer name in front of it. |
| `AccessRights.GrantKeepsList` | storage_server/file_handler_ll.c:1349-1383 | With a right hit the list stays well formed: old entry cut out, new entry last, users still distinct. |
| `AccessRights.FindUserListed` | storage_server/file_handler_ll.c:1349-1354 | The double search ends at the first entry of mode RW whose name ends with the user, else at the first such entry of any mode. |
| `AccessRights.FindInCommas` | storage_server/file_handler_ll.c:1353-1354 | The first occurrence of "user:mode" in a list text is at the first entry it matches, never across a comma. |
| `AccessRights.OccursInEntry` | storage_server/file_handler_ll.c:1353-1354 | An occurrence of the search text is a match at the end of an entry's name or lies in the entries behind it. |
| `AccessRights.WrongHitLoses` | storage_server/file_handler_ll.c:1356-1371 | A hit on a longer name takes some other user's right away or changes it. |
| `AccessRights.GrantedRight` | storage_server/file_handler_ll.c:1373-1383 | What strncat really appends gives the user the mode if it fits, and otherwise never that mode. |
| `AccessRights.CutOffEntry` | storage_server/file_handler_ll.c:1374-1383 | An entry cut by a buffer grants nothing, or reading where writing was meant. |
| `AccessRights.OwnerList` | storage_server/file_handler_ll.c:682 | A new file's list gives its owner RW and nobody else anything. |
| `AccessRights.WrongUserRevoked` | storage_server/file_handler_ll.c:1405-1421 | A concrete list on which revoking one user takes away another user's right. |
| `AccessList.CutIsOnFields` | storage_server/file_handler_ll.c:1408-1421 | Cutting the text at a position inside a field is one of three splices on the sequence of fields. |
| `AccessList.RightAppend` | storage_server/file_handler_ll.c:1383 | Appending text after a comma adds its rights, whatever the list looks like. |
| `AccessList.TokensOfListed` | storage_server/file_handler_ll.c:59-60 | Reading a rendered list gives back its fields, leading comma or not. |
| `CacheTable.Place` | storage_server/file_handler_ll.c:84-106 | Insertion and lookup of a key end at a slot that is free or has the key. |
| `CacheTable.PlaceStable` | storage_server/file_handler_ll.c:87-106 | Storing another key neither moves a key that is in the table nor makes room for one that is not. |
| `CacheTable.PlaceAfter` | storage_server/file_handler_ll.c:87-106 | A stored key is found where it was stored. |
| `CacheTable.NoPlaceMeansFull` | storage_server/file_handler_ll.c:93-106 | A key without a place means that every slot but its home slot is taken by another key. |
| `CacheTable.KeyInjective` | storage_server/file_handler_ll.c:71-72 | Two pairs of file and colon-free user with the same key are the same pair, although file names may hold colons and the key buffer truncates. |
| `CacheTable.BuildStep` | storage_server/file_handler_ll.c:60-111 | Storing one field keeps every claim in the table, stale duplicates included, in line with the lists. |
| `CacheTable.BuildAgrees` | storage_server/file_handler_ll.c:51-114 | A rebuild keeps agreement and leaves every listed user findable unless there is no room. |
| `CacheTable.FoundIsRight` | storage_server/file_handler_ll.c:135-170 | Whatever a lookup finds is what the access list says. |
| `CacheTable.RebuiltLookup` | storage_server/file_handler_ll.c:1205-1211 | After a rebuild a lookup finds exactly what the list says, or the table is full for that key. |
| `CacheTable.InvalidateAgrees` | storage_server/file_handler_ll.c:117-132 | After invalidation no slot claims anything about the file, so agreement holds for any new list. |
| `CacheTable.InvalidateExactly` | storage_server/file_handler_ll.c:117-132 | Invalidation drops a claim if and only if it is about this file or about one whose name begins with this file's name and a colon; every other slot stays as it is. |
| `PermissionLaws.CheckIsExact` | storage_server/file_handler_ll.c:1193-1233 | A check grants only what owner and list grant, and grants all of it while the table it leaves has a free slot that is not the key's home; exactly, a permitted user is denied only if the key is not in that table. |
| `PermissionLaws.PermissionsOverRuns` | storage_server/file_handler_ll.c:1193-1233 | The same over every run of checks, grants, revocations, creations and deletions that does not reuse a deleted name. |
| `PermissionLaws.AnswersOverAllRuns` | storage_server/file_handler_ll.c:1193-1233 | Over every run at all, deleted names used again or not: a check grants what owner and list say, if the table has room for the key, and nothing that neither they say nor the list of a deleted file of that name said in the end. |
| `PermissionLaws.NextKeepsTraced` | storage_server/file_handler_ll.c:1342-1431 | Every step, whatever names it uses again, keeps every entry of the table, reachable or stale, traced to the list of the file or of a deleted file of that name. |
| `PermissionLaws.NextKeepsInv` | storage_server/file_handler_ll.c:1342-1431 | Every step that does not use a deleted name again keeps table and lists in agreement. |
| `PermissionLaws.RunKeepsInv` | storage_server/file_handler_ll.c:1193-1431 | Agreement after every such run. |
| `PermissionLaws.RevokedUserIsDenied` | storage_server/file_handler_ll.c:1395-1431 | A revocation that hits right takes effect at the very next check, whatever was cached or stale. |
| `PermissionLaws.GrantedUserIsAllowed` | storage_server/file_handler_ll.c:1342-1393 | A grant that hits right and fits takes effect at the next check, if the table has room. |
| `RightsOverRuns.CheckFollowsLatest` | storage_server/file_handler_ll.c:644-1431 | A file is created and any events of any users on any files follow, in which its own list is edited properly and it is not deleted: a check of it then grants to its owner everything and to every other user nothing but what the most recent grant or revocation for that user on that file says, and grants that, if the table has room. |
| `RightsOverRuns.ListFollowsRun` | storage_server/file_handler_ll.c:1342-1431 | Over such runs, from any list: the file keeps its owner, and its list gives every user what was last granted or revoked. |
| `RightsOverRuns.FileAfterStep` | storage_server/file_handler_ll.c:644-1431 | Only a grant or a revocation on the file itself changes its list; nothing changes its owner. |
| `PermissionGaps.RecreatedFileGrantsIff` | storage_server/file_handler_ll.c:772-779 | delete_file_ll leaves the cache alone: when a file of the same name is created, a user other than its owner is permitted nothing, and the next check grants it if and only if its key is found with enough mode as the table stands or once the owner's entry is stored; an entry found before is the one found after. |
| `PermissionGaps.RecreatedFileFollowsOldList` | storage_server/file_handler_ll.c:772-779 | The same on the lists: such a user is granted if and only if the list of the deleted file gave it enough in the end and the entry is found before or after the owner's is stored. |
| `PermissionGaps.RecreatedOverRuns` | storage_server/file_handler_ll.c:695-785 | So it is after every run, the first time a name is used again. |
| `PermissionGaps.OldGrantSurvives` | storage_server/file_handler_ll.c:695-785 | A run from start-up that gets there, for any names: create, grant, check, delete, create by somebody else; the user of the first file may read the second. |
| `PermissionGaps.ColonSharesKey` | storage_server/file_handler_ll.c:136-137 | The key of a file and a user with a colon is that of another file and user, the text split at its last colon. |
| `PermissionGaps.ColonUserGrantedIff` | storage_server/file_handler_ll.c:1193-1233 | A user with a colon who does not own the file is permitted nothing, and is granted if and only if the list of the other file, deleted or not, gives the other user enough and the shared key is found before the check or after the rebuild. |
| `PermissionGaps.EveryGrantIsListed` | storage_server/file_handler_ll.c:1193-1233 | Over every run at all and for every user: what a check grants to anybody but the owner, some list of the file and user that the cache key names allows or has allowed. |
| `PermissionGaps.ColonUserOverRuns` | storage_server/file_handler_ll.c:1193-1233 | Over every run without deletions, a wrong grant to such a user means that the other file exists and its owner or list permits the other user. |
| `PermissionGaps.ColonUserBorrows` | storage_server/file_handler_ll.c:135-170 | A run from start-up that gets there, for any names: two creations, a grant on the longer name, a check of it; the user with the colon may then read the shorter one. |
| `PermissionLaws.BuildKeys` | storage_server/file_handler_ll.c:51-114 | A rebuild of one file adds no keys but those of that file and a user without colon. |
| `CacheTable.BuildOrigin` | storage_server/file_handler_ll.c:51-114 | Whatever the table held before, every entry of a rebuilt table is an old one or says what the list read says. |
| `CacheTable.BuildFinds` | storage_server/file_handler_ll.c:51-114 | Whatever the table held before, a listed user is found with the listed mode after a rebuild, unless its key has no place. |
| `PermissionLaws.RebuildKeepsTraced` | storage_server/file_handler_ll.c:51-114 | A rebuild keeps every entry traced to a list of its file. |
| `PermissionCache.RemoveEntry` | storage_server/file_handler_ll.c:1404-1421 | The branches on the two commas compute Revoke. |
| `PermissionCache.AccessControl.InsertKey` | storage_server/file_handler_ll.c:83-107 | The home test and the probing loop compute Store. |
| `PermissionCache.AccessControl.BuildForFile` | storage_server/file_handler_ll.c:51-114 | The strtok loop computes Build over the fields of the list. |
| `PermissionCache.AccessControl.InvalidateForFile` | storage_server/file_handler_ll.c:117-132 | The sweep invalidates exactly the slots whose key starts with the file name and a colon. |
| `PermissionCache.AccessControl.Lookup` | storage_server/file_handler_ll.c:135-170 | The lookup loop, which stops at the first hole, answers as Found. |
| `PermissionCache.AccessControl.HasAccess` | storage_server/file_handler_ll.c:1193-1233 | Owner test, lookup, rebuild and second lookup answer as Granted and leave the table of CheckedSlots. |
| `PermissionCache.AccessControl.AddUserAccess` | storage_server/file_handler_ll.c:1342-1393 | The method is the GrantTo step of the laws. |
| `PermissionCache.AccessControl.RemoveUserAccess` | storage_server/file_handler_ll.c:1395-1431 | The method is the RevokeFrom step of the laws. |
| `PermissionCache.AccessControl.CreateFile` | storage_server/file_handler_ll.c:644-692 | The metadata part of creation is the CreateFile step of the laws. |
| `PermissionCache.AccessControl.DeleteFile` | storage_server/file_handler_ll.c:772-779 | The metadata part of deletion is the DeleteFile step: the cache is not told. |
| `Hashing.HashKey` | storage_server/file_handler_ll.c:42-48 | The djb2 loop computes the slot of a key, in 32-bit words here and 64-bit words on the name server. |
| `Hashing.HashIsPolynomial` | storage_server/file_handler_ll.c:42-48 | Wrapping around at every byte is one reduction, at the end, of the polynomial at 33 whose coefficients are 5381 and the signed bytes. |
| `Hashing.SlotsOfKey` | name_server/ss_manager.c:20-28 | So the slots of a key on both servers are that number modulo 2^32 or 2^64, modulo the table size. |
| `Directory.FindFileIffListed` | name_server/ss_manager.c:85-102 | The chains know exactly the listed names, and the record found carries the id of the server that lists the name, even where a shift left the pointer on a neighbour's slot. |
| `Directory.AppendedKeepsInv` | name_server/ss_manager.c:388-428 | Adding an unlisted name keeps index and tables in agreement and lists exactly that name in addition. |
| `Directory.RemovedKeepsInv` | name_server/ss_manager.c:430-460 | Removing a listed name, with the shift that corrects no pointer, keeps the agreement and unlists exactly that name. |
| `Directory.ChainRemoveExact` | name_server/ss_manager.c:58-82 | Unlinking removes exactly the node of that name from its chain. |
| `Directory.RemovedLists` | name_server/ss_manager.c:446-450 | Slot by slot, what the tables list after the shift. |
| `NameServerLaws.DirectoryOverRuns` | name_server/ss_manager.c:32-102 | After every run of registrations with disjoint names, creations, failed creations, folders, deletions and lookups: a name is found if and only if a server lists it, the record carries that server's id, and a location answer does not depend on cache or clock. |
| `NameServerLaws.LocateIsFullLookup` | name_server/client_handler.c:80-174 | Answering from the cache gives the location the full lookup gives, at any clock value, and keeps the cache coherent. |
| `NameServerLaws.CreateFileKeepsInv` | name_server/client_handler.c:176-278 | Creation keeps the invariant; success lists the name, any failure (with its rollback) leaves every listing as it was. |
| `NameServerLaws.RollbackListing` | name_server/client_handler.c:220-275 | Adding and taking out again restores the listing and the cache's coherence. |
| `NameServerLaws.CreateFolderKeepsInv` | name_server/client_handler.c:1141-1232 | Creating a folder keeps the invariant. |
| `NameServerLaws.DeleteFileKeepsInv` | name_server/client_handler.c:280-378 | Deletion keeps the invariant; success unlists exactly that name, anything else changes nothing. |
| `PlacementLaws.CreateFilePlaces` | name_server/client_handler.c:176-278 | CREATE succeeds if and only if the storage server does, nobody lists the name, and the online server at which the round-robin scan stops has a free slot; that server and no other then lists the name in addition, the record has the user as owner, and the next scan starts behind that server. Each error code with its exact condition. |
| `PlacementLaws.CreateFolderPlaces` | name_server/client_handler.c:1141-1232 | The same for CREATEFOLDER, except that a full table is reported as success: the folder is listed if and only if there was room. |
| `PlacementLaws.ItemsFollowPicks` | name_server/ss_manager.c:357-376 | Files and folders created in a row go to the servers the round-robin walk visits, in that order. |
| `PlacementLaws.OneItemPerServer` | name_server/ss_manager.c:340-386 | With m servers online, any m creations in a row put exactly one on each of them and none on an offline server. |
| `PlacementLaws.DeleteReports` | name_server/client_handler.c:280-378 | What DELETE answers, case by case; a refusal, also one by the storage server, changes nothing. |
| `PlacementLaws.MoveReports` | name_server/client_handler.c:1235-1344 | What MOVE answers, case by case; only a success changes anything. |
| `PlacementLaws.LocationsOverRuns` | name_server/client_handler.c:80-174 | After every run a listed name is located at the server that lists it, under the address that server last registered with, whatever the cache holds and the clock says; any other name is not found. |
| `PlacementLaws.RegisterAddresses` | name_server/ss_manager.c:235-254 | A registration makes its address the one known for its server, reconnections included, and changes no other. |
| `PlacementLaws.RegisterEntersFiles` | name_server/ss_manager.c:227-310 | A new server's files are found with the owners it reported and its id, all others as before; a server that comes back, or for which there is no room, changes no file. |
| `PlacementLaws.EntryLivesAMinute` | name_server/ss_manager.c:160-192 | A cached location answers for less than sixty seconds after it was made; hits do not prolong it and an expired one does not come back. |
| `PlacementLaws.EntryOfAnother` | name_server/ss_manager.c:128-157 | Caching one name takes another name's entry away exactly if both share a slot. |
| `PlacementLaws.MissFillsCache` | name_server/client_handler.c:112-170 | A lookup that misses and finds the file caches its server's id. |
| `NameServerLaws.RegisterKeepsOk` | name_server/ss_manager.c:227-310 | A registration with disjoint new names, or a reconnection, keeps the agreement and every old listing. |
| `NameServerLaws.EnterKeepsOk` | name_server/ss_manager.c:274-301 | The registration loop lists exactly the given names on the new server. |
| `NameServerLaws.NextKeepsInv` | name_server/client_handler.c:80-378 | Every handler keeps index, tables, cache and the round-robin index in order; the index stays below the number of servers. |
| `NameServerLaws.RunKeepsInv` | name_server/client_handler.c:80-378 | The invariant holds after every run. |
| `NameServerLaws.OneLister` | name_server/ss_manager.c:388-460 | A name is listed by one server id only. |
| `Moving.MoveKeepsInvIff` | name_server/client_handler.c:1235-1344 | A successful MOVE keeps the agreement if and only if the pointer it renames through is the file's own slot and the new path is unused (or, for a path cut to the old name, the slot it overwrites is nobody else's). |
| `Moving.RemovalMovesRecords` | name_server/ss_manager.c:446-450 | After a removal, exactly which record each pointer of that server leads to: the next file's, a stale copy, or its own. |
| `Moving.RemovalSpoilsPointer` | name_server/ss_manager.c:446-450 | An accurate pointer stays accurate through a removal on its server if and only if it lies before the removed slot. |
| `PointerDrift.PointersOverRuns` | name_server/ss_manager.c:446-450 | After every run of registrations, creations, folders, deletions and lookups, the record a name leads to stands as many slots behind the name's own as files in front of it were deleted since it was added; the pointer is accurate if and only if there were none, and DELETE asks the owner of that record. |
| `PointerDrift.StepDrift` | name_server/client_handler.c:176-378 | Step by step: only a deletion of a file in front of it on the same server makes a pointer drift, by one slot; a failed creation with its rollback does not. |
| `PointerDrift.RemovedDrift` | name_server/ss_manager.c:430-460 | A removal adds one to the drift of exactly the files behind the removed one. |
| `PointerDrift.NeighbourDecides` | name_server/client_handler.c:280-378 | A run from start-up: three files on one server, the first deleted; then the owner of the third may delete the second and its own owner may not. |
| `Moving.WrongRename` | name_server/client_handler.c:1324-1334 | A rename through a wrong pointer or onto a taken name always breaks the agreement. |
| `Moving.RightRename` | name_server/client_handler.c:1324-1334 | A rename through the file's own slot to an unused name keeps it. |
| `Moving.MovePutsFileInFolder` | name_server/client_handler.c:1319-1340 | A successful MOVE through the file's own slot to an unused path: the file is found as "folder/name", cut to 255 bytes, with its owner and server, no longer under its name; every other listing stays; no cached location survives. |
| `HashIndex.FileHashTable.Insert` | name_server/ss_manager.c:32-55 | Linking a new head node computes IndexInsert on the chains. |
| `HashIndex.FileHashTable.Find` | name_server/ss_manager.c:85-102 | The chain walk computes IndexFind. |
| `HashIndex.FileHashTable.Remove` | name_server/ss_manager.c:58-82 | The walk with a trailing pointer computes IndexRemove. |
| `HashIndex.ChainBypassed` | name_server/ss_manager.c:66-73 | Bypassing one node of a chain leaves a chain of the others. |
| `NameServerState.ShiftDown` | name_server/ss_manager.c:446-449 | The shift loop moves the slots behind one down and leaves the last slot in use as it was. |
| `NameServerState.SearchTable` | name_server/ss_manager.c:404-410 | The loop finds the first slot in use with the name. |
| `NameServerState.NameServerState.FindStorageServer` | name_server/ss_manager.c:331-338 | The loop finds the first server with the id. |
| `NameServerState.NameServerState.GetAvailableStorageServer` | name_server/ss_manager.c:340-386 | The scan from the last index computes Available: the id of the first online server in cyclic order, and the index behind it. |
| `NameServerState.NameServerState.AddFileToServer` | name_server/ss_manager.c:388-428 | The method computes AddFile on tables and index. |
| `NameServerState.NameServerState.RemoveFileFromServer` | name_server/ss_manager.c:430-460 | The method computes RemoveFile on tables and index. |
| `NameServerState.NameServerState.FindFileRecord` | name_server/ss_manager.c:462-465 | The record behind the index node, whatever is in its slot. |
| `NameServerState.NameServerState.CacheInsert` | name_server/ss_manager.c:128-157 | The entry of the name's slot is overwritten. |
| `NameServerState.NameServerState.CacheLookup` | name_server/ss_manager.c:160-192 | A live entry answers, an expired one is dropped. |
| `NameServerState.NameServerState.CacheInvalidate` | name_server/ss_manager.c:195-212 | Only an entry of that very name is dropped. |
| `NameServerState.NameServerState.CacheClear` | name_server/ss_manager.c:215-221 | Every entry is dropped. |
| `NameServerState.NameServerState.HandleGetSsInfo` | name_server/client_handler.c:80-174 | The handler computes Locate: its state and its answer. |
| `NameServerState.NameServerState.HandleCreateFile` | name_server/client_handler.c:176-278 | The handler, with its early returns and rollback, computes CreateFile; where that puts a file is CreateFilePlaces. |
| `NameServerState.NameServerState.HandleCreateFolder` | name_server/client_handler.c:1141-1232 | The handler computes CreateFolder, which CreateFolderPlaces describes. |
| `NameServerState.NameServerState.HandleDeleteFile` | name_server/client_handler.c:280-378 | The handler computes DeleteFile; owner and server come from the record found. |
| `NameServerState.NameServerState.HandleMoveFile` | name_server/client_handler.c:1235-1344 | The handler computes MoveFile, which MovePutsFileInFolder and MoveReports describe. |
| `NameServerState.NameServerState.RegisterStorageServer` | name_server/ss_manager.c:227-310 | The handler computes Register, for a new and for a reconnecting server. |
| `NameServerState.NameServerState.EnterFileList` | name_server/ss_manager.c:269-303 | The strtok loop enters exactly the listings ParseFileList reads, in order. |
| `RoundRobin.EachOnlineServerOncePerRound` | name_server/ss_manager.c:340-386 | With fixed servers and m > 0 of them online, any m consecutive allocations choose each online server exactly once and no other. |
| `RoundRobin.FairShares` | name_server/ss_manager.c:340-386 | Over any k calls every online server is chosen floor(k / m) times or once more, so counts differ by at most one; offline servers are never chosen. |
| `RoundRobin.SomeOnline` | name_server/ss_manager.c:357-376 | If any server is online the scan finds one. |
| `RoundRobin.PicksWalk` | name_server/ss_manager.c:357-376 | A run of allocations is a walk over increasing online positions that leaves none out. |
| `RoundRobin.NextStart` | name_server/ss_manager.c:367 | The stored index stays below the number of servers. |
| `Registration.RegistrationRoundTripIff` | storage_server/file_handler_ll.c:1433-1449 | Parsing the printed file list gives back the same ordered names and owners if and only if the text fits the message, or the cut took off just a final ":system". |
| `Registration.TwelveFilesRegister` | storage_server/ss_nm_comm.c:35 | In the message of a registration twelve files always arrive unchanged; thirteen or more with names and owners of full length never do. |
| `Registration.FullListParses` | name_server/ss_manager.c:269-301 | The uncut text is read back exactly. |
| `Registration.PrintFileList` | storage_server/file_handler_ll.c:1433-1449 | The strncat loop writes the comma-separated list cut at the buffer's limit. |
| `Registration.CutTokens` | name_server/ss_manager.c:272 | What strtok finds in a list text cut anywhere. |
| `CStrings.TokensAreRuns` | name_server/ss_manager.c:272 | strtok finds exactly the longest runs of bytes that are no separators, in order, and nothing else. |
| `Transfer.SendChunks` | storage_server/ss_client_comm.c:144-176 | The chunk loop sends chunks of 1 to 3996 bytes whose payload is the file, wherever the reads fall. |
| `Transfer.SendRead` | storage_server/ss_client_comm.c:124-188 | Small files travel in the first reply, large ones in chunks followed by a stop. |
| `Transfer.SendExec` | storage_server/ss_nm_comm.c:170-219 | The EXEC sender announces the size, sends the file in chunks, then stops. |
| `Transfer.ReceiveRead` | client/client_ss_comm.c:61-104 | The client shows the reply's text for a small size and the payload of the chunks for a large one. |
| `Transfer.ReceiveExec` | name_server/client_handler.c:1017-1050 | The reassembly loop rebuilds the payload and stops at the announced size. |
| `Transfer.ReadTransfer` | storage_server/ss_client_comm.c:124-188 | Sender and receiver together show ReadResult. |
| `Transfer.ReadExactIff` | client/client_ss_comm.c:61-104 | READ shows exactly the file if and only if a small file has no NUL byte and a large file's size, cut to 32 bits, still reads as large; always for large files below 2 GiB. |
| `Transfer.ExecTransfer` | name_server/client_handler.c:1000-1050 | EXEC rebuilds exactly the file, for every size the 32-bit field holds. |
| `Transfer.Stream` | storage_server/ss_client_comm.c:684-737 | STREAM sends exactly the white-space split of the whole file, words cut at 4095 bytes, wherever the reads fall. |
| `Transfer.EmitIsSplit` | storage_server/ss_client_comm.c:690-719 | Emitting byte by byte from a growing word buffer is the split of the whole text. |
| `Transfer.StreamedWords` | storage_server/ss_client_comm.c:690-719 | The words sent are the longest runs of bytes other than blank, TAB, LF and CR, all of them, in order, each as far as 4095 bytes and its first NUL. |
| `Transfer.StreamedText` | storage_server/ss_client_comm.c:690-719 | No word sent holds one of the four bytes; for a file without NUL and words longer than 4095 bytes the words, put together, are the file without those bytes. |

## Left out

- SessionProtocol.NoLostUpdates: sessions that abort (client disconnect) are not in the runs, because an abort undoes and reloads the whole file; `AbortLosesCommits` says exactly what it takes away. UNDO, REVERT, forced unlocking and reloads during a session are not in the runs either.
- SentenceLocks.MutualExclusion: for users who do not ask for a sentence they have open; the exact condition for all runs is `ExclusionOverRunsIff`.
- WriteToFile.WriteToFile: a write that reaches the splitter is modelled for contents whose groups fit its fixed table of 100 groups of 100 words; nothing is claimed beyond it.
- LinkedInsert.SplitContentIntoGroups: the same bound.
- AccessRights.AccessListRefinesMapIff: for user names without comma and colon, which the list cannot hold.
- PermissionLaws.PermissionsOverRuns: for users without a colon and runs that do not reuse the name of a deleted file; without either restriction see `EveryGrantIsListed` and `AnswersOverAllRuns`.
- PermissionGaps.RecreatedFileGrantsIff: for owners whose name has no comma or colon.
- UndoLaws.UndoRestores: like `AbortLosesCommits`, for documents without NUL bytes, which no text the parser or a command brings can hold.
- NameServerLaws.DirectoryOverRuns: registrations bring names nobody lists yet; MOVE is not in the runs, `MoveKeepsInvIff` says when it could be.
- Transfer.ExecTransfer: for sizes the 32-bit size field can hold; the name server rejects or misreads larger ones.
- Allocation failures, reference counts and freeing: the model never runs out of memory and has no lifetimes.
- Sockets, timeouts, accept loops, byte order and the message functions: a message is delivered or the step fails.
- Data races inside one handler, and the lock order between mutexes.
- Client shell, command parsing, help texts; VIEW, LIST and INFO formatting; timestamps, statistics and logging: output only.
- Running the script in EXEC, and checkpoints and REVERT: foreign calls, and a REVERT that leaves memory as it was.
- The access-request workflow: a three-valued status tested in one branch each.
- The metadata file on disk, directories and path handling on the storage server.
- Client registration and the offline detection of storage servers: the code never marks a server offline, so the model takes the flag as given.

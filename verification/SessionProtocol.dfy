/** Any number of WRITE sessions on one file, step by step. */
module SessionProtocol {
  import opened Text
  import opened CStrings
  import opened Document
  import opened DocumentOps
  import opened Editing

  // Each step is one lock-protected region of the server: take the sentence lock, count the words, receive a command
  // (queue a batch, or ETIRW and the unlock), commit under the global commit lock.

  const MAX_DATA: nat := 4096
  const END_OF_WRITE := "ETIRW"

  datatype Phase =
    | Waiting                          // not at the lock yet
    | Refused                          // the lock was denied
    | Entered                          // the lock call succeeded, words not yet counted
    | Writing(orig: nat, queue: Queue) // receiving commands
    | Closed(orig: nat, queue: Queue)  // ETIRW seen and sentence unlocked, not yet committed
    | Finished

  /** holds records that the lock call found a node and took its lock. */
  datatype Session = Session(user: string, index: int, phase: Phase, holds: bool)

  datatype World = World(doc: Doc, count: int, disk: string, sessions: seq<Session>)

  datatype Action =
    | Lock(sid: nat)
    | CountWords(sid: nat)
    | Receive(sid: nat, base: int, data: string)
    | Commit(sid: nat)

  function CommandTokens(data: string): seq<string> {
    Tokens(Truncate(data, MAX_DATA - 1), " ")
  }

  function SetPhase(w: World, sid: nat, phase: Phase, holds: bool): (w': World)
    requires sid < |w.sessions|
    ensures |w'.sessions| == |w.sessions|
  {
    w.(sessions := w.sessions[sid := w.sessions[sid].(phase := phase, holds := holds)])
  }

  /** lock_sentence_ll and the early return when it fails. */
  function DoLock(w: World, sid: nat): (w': World)
    requires sid < |w.sessions|
    ensures |w'.sessions| == |w.sessions|
  {
    var s := w.sessions[sid];
    if LockOutcome(w.doc, w.count, s.index) == Granted then
      SetPhase(w.(doc := LockAt(w.doc, w.count, s.index, s.user)), sid, Entered,
               TakesLock(w.doc, w.count, s.index))
    else SetPhase(w, sid, Refused, s.holds)
  }

  /** One command: ETIRW ends the session and unlocks, anything else is a batch. */
  function DoReceive(w: World, sid: nat, base: int, data: string): (w': World)
    requires sid < |w.sessions| && w.sessions[sid].phase.Writing? && w.sessions[sid].index >= 0
    ensures |w'.sessions| == |w.sessions|
  {
    var s := w.sessions[sid];
    var Writing(orig, q) := s.phase;
    if data == END_OF_WRITE then
      SetPhase(w.(doc := UnlockAt(w.doc, s.index, s.user)), sid, Closed(orig, q), false)
    else SetPhase(w, sid, Writing(orig, QueueBatch(orig, q, base, CommandTokens(data))), s.holds)
  }

  /** The commit under the global lock, with its sync to disk. */
  function DoCommit(w: World, sid: nat): (w': World)
    requires sid < |w.sessions| && w.sessions[sid].phase.Closed? && w.sessions[sid].index >= 0
    ensures |w'.sessions| == |w.sessions|
  {
    var s := w.sessions[sid];
    match CommitAt(w.doc, w.count, s.index, s.phase.orig, s.phase.queue.ops)
    case None => SetPhase(w, sid, Refused, s.holds)
    case Some(d) =>
      SetPhase(w.(doc := d, count := w.count + |d| - |w.doc|, disk := PrintSync(d)), sid, Finished, s.holds)
  }

  function Next(w: World, a: Action): (w': World)
    ensures |w'.sessions| == |w.sessions|
  {
    if a.sid >= |w.sessions| then w
    else
      var s := w.sessions[a.sid];
      match a
      case Lock(sid) => if s.phase.Waiting? then DoLock(w, sid) else w
      case CountWords(sid) =>
        if s.phase.Entered? && s.index >= 0
        then SetPhase(w, sid, Writing(|WordsAt(w.doc, s.index)|, Queue([], -1)), s.holds) else w
      case Receive(sid, base, data) =>
        if s.phase.Writing? && s.index >= 0 then DoReceive(w, sid, base, data) else w
      case Commit(sid) => if s.phase.Closed? && s.index >= 0 then DoCommit(w, sid) else w
  }

  function Run(w: World, acts: seq<Action>): (w': World)
    ensures |w'.sessions| == |w.sessions|
    decreases |acts|
  {
    if acts == [] then w else Run(Next(w, acts[0]), acts[1..])
  }

  /** A file just loaded and a set of requests, by any users; nobody has reached the lock. */
  ghost predicate Init(w: World) {
    && w.count == |w.doc|
    && (forall i | 0 <= i < |w.doc| :: w.doc[i].lock == None)
    && (forall a | 0 <= a < |w.sessions| :: w.sessions[a].phase == Waiting && !w.sessions[a].holds)
  }

  /** What the words a session counted and queued have to do with the document; locks and users play no part. */
  ghost predicate SessionOk(d: Doc, s: Session) {
    match s.phase
    case Entered => 0 <= s.index <= |d|
    case Writing(orig, q) => 0 <= s.index <= |d| && orig <= |WordsAt(d, s.index)| && Fits(orig, q.ops)
    case Closed(orig, q) => 0 <= s.index <= |d| && orig <= |WordsAt(d, s.index)| && Fits(orig, q.ops)
    case _ => true
  }

  /** The commit invariant. */
  ghost predicate Inv(w: World) {
    w.count == |w.doc| && forall a | 0 <= a < |w.sessions| :: SessionOk(w.doc, w.sessions[a])
  }

  lemma InitEstablishesInv(w: World)
    requires Init(w)
    ensures Inv(w)
  {
  }

  // ---------- one step ----------

  /** The document grows at its end only, terminators stay, and no sentence loses words. */
  ghost predicate Extends(d: Doc, d': Doc) {
    && |d| <= |d'|
    && (forall i | 0 <= i < |d| :: d'[i].delim == d[i].delim && |d[i].words| <= |d'[i].words|)
  }

  ghost predicate CommitsTo(w: World, a: Action, i: nat) {
    && a.Commit? && a.sid < |w.sessions|
    && w.sessions[a.sid].phase.Closed? && w.sessions[a.sid].index == i
  }

  /** What CommitAt does for a session in good standing: it cannot fail, and only one sentence changes. */
  lemma CommitAtSucceeds(d: Doc, i: nat, orig: nat, ops: seq<Edit<string>>)
    requires i <= |d| && orig <= |WordsAt(d, i)|
    ensures CommitAt(d, |d|, i, orig, ops).Some?
    ensures var d' := CommitAt(d, |d|, i, orig, ops).value;
            && |d'| == (if i == |d| then |d| + 1 else |d|)
            && Extends(d, d')
            && (forall k | 0 <= k < |d'| :: d'[k].lock == if k < |d| then d[k].lock else None)
            && (forall k: nat | k != i :: WordsAt(d', k) == WordsAt(d, k))
            && WordsAt(d', i) == CommitWords(WordsAt(d, i), ops, |WordsAt(d, i)| - orig)
  {
  }

  /** A commit by a session in good standing: this is all it does. */
  lemma CommitStep(w: World, sid: nat, i: nat)
    requires Inv(w) && CommitsTo(w, Commit(sid), i)
    ensures var w', s := Next(w, Commit(sid)), w.sessions[sid];
            && w'.sessions == w.sessions[sid := s.(phase := Finished)]
            && s.phase.orig <= |WordsAt(w.doc, i)| && Fits(s.phase.orig, s.phase.queue.ops)
            && w'.count == |w'.doc| == (if i == |w.doc| then |w.doc| + 1 else |w.doc|)
            && w'.disk == PrintSync(w'.doc)
            && Extends(w.doc, w'.doc)
            && (forall k | 0 <= k < |w'.doc| :: w'.doc[k].lock == if k < |w.doc| then w.doc[k].lock else None)
            && (forall k: nat | k != i :: WordsAt(w'.doc, k) == WordsAt(w.doc, k))
            && WordsAt(w'.doc, i) == CommitWords(WordsAt(w.doc, i), s.phase.queue.ops,
                                                 |WordsAt(w.doc, i)| - s.phase.orig)
  {
    var s := w.sessions[sid];
    assert SessionOk(w.doc, s);
    CommitAtSucceeds(w.doc, i, s.phase.orig, s.phase.queue.ops);
  }

  /** Only commits change words, terminators, the number of sentences or the disk. */
  lemma QuietStep(w: World, a: Action)
    requires forall i: nat :: !CommitsTo(w, a, i)
    ensures |Next(w, a).doc| == |w.doc| && Next(w, a).disk == w.disk && Next(w, a).count == w.count
    ensures forall i | 0 <= i < |w.doc| ::
              Next(w, a).doc[i].words == w.doc[i].words && Next(w, a).doc[i].delim == w.doc[i].delim
  {
    if a.Commit? && a.sid < |w.sessions| && w.sessions[a.sid].index >= 0 {
      assert !CommitsTo(w, a, w.sessions[a.sid].index);
    }
  }

  /** No step touches another session. */
  lemma OthersStay(w: World, a: Action)
    ensures forall b | 0 <= b < |w.sessions| && b != a.sid :: Next(w, a).sessions[b] == w.sessions[b]
  {
  }

  /** A session in good standing stays so while the document grows. */
  lemma OkWhileGrowing(d: Doc, d': Doc, s: Session)
    requires SessionOk(d, s) && Extends(d, d')
    ensures SessionOk(d', s)
  {
  }

  /** The acting session is in good standing after its own step. */
  lemma OwnStep(w: World, a: Action)
    requires Inv(w) && a.sid < |w.sessions| && Extends(w.doc, Next(w, a).doc)
    ensures SessionOk(Next(w, a).doc, Next(w, a).sessions[a.sid])
  {
    var s := w.sessions[a.sid];
    assert SessionOk(w.doc, s);
    if a.Receive? && s.phase.Writing? && a.data != END_OF_WRITE {
      QueueFits(s.phase.orig, s.phase.queue, a.base, CommandTokens(a.data));
    } else if a.Commit? && s.phase.Closed? {
      CommitStep(w, a.sid, s.index);
    }
  }

  /** Every step keeps the commit invariant and grows the document only. */
  lemma NextKeepsInv(w: World, a: Action)
    requires Inv(w)
    ensures Inv(Next(w, a)) && Extends(w.doc, Next(w, a).doc)
  {
    if i: nat :| CommitsTo(w, a, i) {
      CommitStep(w, a.sid, i);
    } else {
      QuietStep(w, a);
    }
    var w' := Next(w, a);
    OthersStay(w, a);
    forall b | 0 <= b < |w'.sessions| ensures SessionOk(w'.doc, w'.sessions[b]) {
      hide Next;
      if b == a.sid { OwnStep(w, a); } else { OkWhileGrowing(w.doc, w'.doc, w.sessions[b]); }
    }
  }

  lemma {:induction false} RunKeepsInv(w: World, acts: seq<Action>)
    requires Inv(w)
    ensures Inv(Run(w, acts)) && Extends(w.doc, Run(w, acts).doc)
    decreases |acts|
  {
    if acts != [] {
      NextKeepsInv(w, acts[0]);
      RunKeepsInv(Next(w, acts[0]), acts[1..]);
    }
  }

  // ---------- no lost updates ----------

  /** The edits a step commits to sentence i. */
  ghost function StepEdits(w: World, a: Action, i: nat): seq<Edit<string>> {
    if CommitsTo(w, a, i) then w.sessions[a.sid].phase.queue.ops else []
  }

  /** All the words committed to sentence i during a run. */
  ghost function CommittedWords(w: World, acts: seq<Action>, i: nat): seq<string>
    decreases |acts|
  {
    if acts == [] then [] else EditWords(StepEdits(w, acts[0], i)) + CommittedWords(Next(w, acts[0]), acts[1..], i)
  }

  /** Seen from one sentence, every step is a commit of some edits, usually none. */
  lemma StepIsCommit(w: World, a: Action, i: nat) returns (offset: int)
    requires Inv(w)
    ensures WordsAt(Next(w, a).doc, i) == CommitWords(WordsAt(w.doc, i), StepEdits(w, a, i), offset)
  {
    if k: nat :| CommitsTo(w, a, k) {
      CommitStep(w, a.sid, k);
      offset := |WordsAt(w.doc, k)| - w.sessions[a.sid].phase.orig;
    } else {
      QuietStep(w, a);
      offset := 0;
    }
  }

  /**
   No lost updates: over every interleaving, each sentence ends with its initial words in their order plus
   exactly the words of all the sessions that committed to it.
   */
  lemma {:induction false} NoLostUpdates(w: World, acts: seq<Action>, i: nat)
    requires Inv(w)
    ensures Subsequence(WordsAt(w.doc, i), WordsAt(Run(w, acts).doc, i))
    ensures multiset(WordsAt(Run(w, acts).doc, i))
         == multiset(WordsAt(w.doc, i)) + multiset(CommittedWords(w, acts, i))
    decreases |acts|
  {
    if acts == [] {
      SubsequenceRefl(WordsAt(w.doc, i));
    } else {
      var w1 := Next(w, acts[0]);
      NextKeepsInv(w, acts[0]);
      var offset := StepIsCommit(w, acts[0], i);
      CommitKeeps(WordsAt(w.doc, i), StepEdits(w, acts[0], i), offset);
      NoLostUpdates(w1, acts[1..], i);
      SubsequenceTrans(WordsAt(w.doc, i), WordsAt(w1.doc, i), WordsAt(Run(w, acts).doc, i));
      MultisetAppend(EditWords(StepEdits(w, acts[0], i)), CommittedWords(w1, acts[1..], i));
    }
  }

  /** The effect of a commit, and the rebase law it obeys. */
  ghost predicate CommitObeysLaw(u: World, sid: nat)
    requires sid < |u.sessions| && u.sessions[sid].phase.Closed?
  {
    var u', s := Next(u, Commit(sid)), u.sessions[sid];
    && s.index >= 0
    && s.phase.orig <= |WordsAt(u.doc, s.index)|
    && Fits(s.phase.orig, s.phase.queue.ops)
    && u'.sessions == u.sessions[sid := s.(phase := Finished)]
    && u'.count == |u'.doc|
    && u'.disk == PrintSync(u'.doc)
    && (forall k: nat | k != s.index :: WordsAt(u'.doc, k) == WordsAt(u.doc, k))
    && |u.doc| <= |u'.doc|
    && (forall k | 0 <= k < |u.doc| ::
          u'.doc[k].delim == u.doc[k].delim && u'.doc[k].lock == u.doc[k].lock)
    && var cur := WordsAt(u.doc, s.index);
       var d := |cur| - s.phase.orig;
       && NeverClamps(|cur|, s.phase.queue.ops, d)
       && WordsAt(u'.doc, s.index) == cur[..d] + Replay(cur[d..], s.phase.queue.ops)
       && |WordsAt(u'.doc, s.index)| == |cur| + |s.phase.queue.ops|
  }

  /**
   A commit in any reachable state succeeds (the range error is dead code), touches one sentence, grows it by
   the length of the queue, and obeys the rebase law: the words the sentence gained since the session counted
   stand in front, untouched, and the rest is the session's own view with its edits applied.
   */
  lemma CommitLaw(w: World, acts: seq<Action>, sid: nat)
    requires Init(w) && sid < |w.sessions| && Run(w, acts).sessions[sid].phase.Closed?
    ensures CommitObeysLaw(Run(w, acts), sid)
  {
    InitEstablishesInv(w);
    RunKeepsInv(w, acts);
    CommitLawFor(Run(w, acts), sid);
  }

  lemma CommitLawFor(u: World, sid: nat)
    requires Inv(u) && sid < |u.sessions| && u.sessions[sid].phase.Closed?
    ensures CommitObeysLaw(u, sid)
  {
    var s := u.sessions[sid];
    assert SessionOk(u.doc, s);
    CommitStep(u, sid, s.index);
    RebaseLaw(WordsAt(u.doc, s.index), |WordsAt(u.doc, s.index)| - s.phase.orig, s.phase.queue.ops);
  }

  /**
   A session whose sentence did not grow between its word count and its commit commits exactly what it saw
   with its edits applied, whatever happened elsewhere.
   */
  lemma UndisturbedCommit(w: World, acts: seq<Action>, i: nat, ops: seq<Edit<string>>)
    requires Inv(w) && Fits(|WordsAt(w.doc, i)|, ops)
    requires |WordsAt(Run(w, acts).doc, i)| == |WordsAt(w.doc, i)|
    ensures CommitWords(WordsAt(Run(w, acts).doc, i), ops, 0) == Replay(WordsAt(w.doc, i), ops)
  {
    NoLostUpdates(w, acts, i);
    var cur := WordsAt(Run(w, acts).doc, i);
    SubsequenceLength(WordsAt(w.doc, i), cur);
    RebaseLaw(cur, 0, ops);
    assert cur[..0] + Replay(cur[0..], ops) == Replay(cur, ops);
  }

  // ---------- the file on disk ----------

  lemma {:induction false} PrintIgnoresLocks(d: Doc, d': Doc)
    requires |d| == |d'| && forall i | 0 <= i < |d| :: d'[i].words == d[i].words && d'[i].delim == d[i].delim
    ensures PrintSync(d') == PrintSync(d)
  {
    if d != [] {
      assert forall i | 0 <= i < |d| - 1 :: d[1..][i] == d[i + 1] && d'[1..][i] == d'[i + 1];
      PrintIgnoresLocks(d[1..], d'[1..]);
    }
  }

  ghost predicate Synced(w: World) {
    w.disk == PrintSync(w.doc)
  }

  /**
   Readers of the disk see whole commits only: once the file text is the print of the document, no step of
   any session (lock, batch, unlock, commit) makes it anything else.
   */
  lemma {:induction false} DiskShowsWholeCommits(w: World, acts: seq<Action>)
    requires Inv(w) && Synced(w)
    ensures Synced(Run(w, acts))
    decreases |acts|
  {
    if acts != [] {
      var a := acts[0];
      NextKeepsInv(w, a);
      if i: nat :| CommitsTo(w, a, i) {
        CommitStep(w, a.sid, i);
      } else {
        QuietStep(w, a);
        PrintIgnoresLocks(w.doc, Next(w, a).doc);
      }
      DiskShowsWholeCommits(Next(w, a), acts[1..]);
    }
  }
}

/** What UNDO restores: the backup text on disk and its parse in memory. */
module UndoLaws {
  import opened Text
  import opened Document
  import opened DocumentOps
  import opened Editing
  import opened ParserLaws
  import SP = SessionProtocol

  /** One file on a storage server: its text on disk, its undo backup, its document in memory. */
  datatype Store = Store(disk: string, undo: Option<string>, mem: Doc)

  function LoadBytes(bytes: string): Doc {
    Parse(CText(bytes))
  }

  /** save_undo_backup_ll */
  function SaveBackup(s: Store): Store {
    s.(undo := Some(PrintUndo(s.mem)))
  }

  /** A commit and the sync to disk that follows it. */
  function CommitAndSync(s: Store, index: nat, orig: nat, ops: seq<Edit<string>>): Store {
    match CommitAt(s.mem, |s.mem|, index, orig, ops)
    case None => s
    case Some(d) => s.(mem := d, disk := PrintSync(d))
  }

  /** undo_file_change_ll: None when there is no backup. */
  function UndoChange(s: Store): Option<Store> {
    match s.undo
    case None => None
    case Some(text) => Some(s.(disk := text, mem := LoadBytes(text)))
  }

  /** The start of a WRITE session that the lock let in: the sentence is locked first, then the backup saved. */
  function Begin(s: Store, index: int, user: string): Store
    requires LockOutcome(s.mem, |s.mem|, index) == Granted
  {
    SaveBackup(s.(mem := LockAt(s.mem, |s.mem|, index, user)))
  }

  /** What any session may do to the file before the next backup. */
  datatype Step =
    | LockStep(at: int, user: string)
    | UnlockStep(index: nat, user: string)
    | CommitStep(index: nat, orig: nat, ops: seq<Edit<string>>)

  function DoStep(s: Store, step: Step): (s': Store)
    ensures s'.undo == s.undo
  {
    match step
    case LockStep(at, user) => s.(mem := LockAt(s.mem, |s.mem|, at, user))
    case UnlockStep(index, user) => s.(mem := UnlockAt(s.mem, index, user))
    case CommitStep(index, orig, ops) => CommitAndSync(s, index, orig, ops)
  }

  function DoSteps(s: Store, steps: seq<Step>): (s': Store)
    ensures s'.undo == s.undo
    decreases |steps|
  {
    if steps == [] then s else DoSteps(DoStep(s, steps[0]), steps[1..])
  }

  /** A commit that succeeds puts the whole new document on disk, whatever was there; one that fails, nothing. */
  lemma CommitReachesDisk(s: Store, index: nat, orig: nat, ops: seq<Edit<string>>)
    ensures var s', r := DoStep(s, CommitStep(index, orig, ops)), CommitAt(s.mem, |s.mem|, index, orig, ops);
            && (r.Some? ==> s'.mem == r.value && NonSpace(s'.disk) == NonSpace(Shown(r.value)))
            && (r.Some? ==> s'.disk == PrintSync(s'.mem))
            && (r.None? ==> s' == s)
  {
    match CommitAt(s.mem, |s.mem|, index, orig, ops) {
      case None =>
      case Some(d) => PrintSyncShows(d);
    }
  }

  /** Once the disk is the print of the document, it stays so through any locks, unlocks and commits. */
  lemma {:induction false} StepsKeepSynced(s: Store, steps: seq<Step>)
    requires s.disk == PrintSync(s.mem)
    ensures DoSteps(s, steps).disk == PrintSync(DoSteps(s, steps).mem)
    decreases |steps|
  {
    if steps != [] {
      var s' := DoStep(s, steps[0]);
      if steps[0].CommitStep? {
        CommitReachesDisk(s, steps[0].index, steps[0].orig, steps[0].ops);
      } else {
        SP.PrintIgnoresLocks(s.mem, s'.mem);
      }
      StepsKeepSynced(s', steps[1..]);
    }
  }

  /** The commit here is the commit of the session protocol: same document, same disk. */
  lemma SameCommit(w: SP.World, sid: nat, undo: Option<string>)
    requires sid < |w.sessions| && w.sessions[sid].phase.Closed? && w.sessions[sid].index >= 0 && w.count == |w.doc|
    ensures var x, w' := w.sessions[sid], SP.Next(w, SP.Commit(sid));
            CommitAndSync(Store(w.disk, undo, w.doc), x.index, x.phase.orig, x.phase.queue.ops)
            == Store(w'.disk, undo, w'.doc)
  {
  }

  /** The document with all sentences unlocked. */
  function Freed(d: Doc): Doc {
    if d == [] then [] else [d[0].(lock := None)] + Freed(d[1..])
  }

  lemma {:induction false} FreedFields(d: Doc)
    ensures |Freed(d)| == |d| && forall i | 0 <= i < |d| :: Freed(d)[i] == d[i].(lock := None)
  {
    if d != [] { FreedFields(d[1..]); }
  }

  lemma {:induction false} FreedFlat(d: Doc)
    ensures Flatten(Freed(d)) == Flatten(d)
  {
    if d != [] {
      FreedFlat(d[1..]);
      assert Freed(d)[1..] == Freed(d[1..]);
    }
  }

  /** The undo printer does not look at locks. */
  lemma {:induction false} PrintUndoIgnoresLocks(d: Doc)
    ensures PrintUndo(Freed(d)) == PrintUndo(d)
  {
    if d != [] {
      FreedFields(d);
      assert Freed(d)[1..] == Freed(d[1..]);
      PrintUndoIgnoresLocks(d[1..]);
    }
  }

  /** Taking a lock changes nothing but a lock. */
  lemma FreedAfterLock(d: Doc, index: int, user: string)
    ensures Freed(LockAt(d, |d|, index, user)) == Freed(d)
  {
    var e := LockAt(d, |d|, index, user);
    FreedFields(d);
    FreedFields(e);
    hide Freed;
    forall i | 0 <= i < |d| ensures Freed(e)[i] == Freed(d)[i] {
      assert e[i].(lock := None) == d[i].(lock := None);
    }
    assert Freed(e) == Freed(d);
  }

  lemma CanonicalIsFree(d: Doc)
    requires Canonical(d)
    ensures Freed(d) == d
  {
    FreedFields(d);
    assert forall i | 0 <= i < |d| :: CanonicalSentence(d[i]) && Freed(d)[i] == d[i];
  }

  ghost predicate NulFree(d: Doc) {
    forall i | 0 <= i < |d| :: NulFreeWords(d[i].words)
  }

  ghost predicate NulFreeWords(ws: seq<string>) {
    forall i | 0 <= i < |ws| :: NUL !in ws[i]
  }

  lemma {:induction false} JoinIsText(ws: seq<string>)
    requires NulFreeWords(ws)
    ensures NUL !in Join(ws)
  {
    if |ws| > 1 {
      assert forall i | 0 <= i < |ws| - 1 :: ws[1..][i] == ws[i + 1];
      JoinIsText(ws[1..]);
    }
  }

  lemma {:induction false} PrintUndoIsText(d: Doc)
    requires NulFree(d)
    ensures NUL !in PrintUndo(d)
  {
    if d != [] {
      JoinIsText(d[0].words);
      assert forall i | 0 <= i < |d| - 1 :: d[1..][i] == d[i + 1];
      PrintUndoIsText(d[1..]);
    }
  }

  /**
   A session begins, any locks, unlocks and commits of any sessions follow, then UNDO: the disk holds exactly the
   text of the document as it was before the session took its lock, and memory its parse, with every sentence
   unlocked. Memory is the document from before the lock, locks aside, exactly when that document was canonical
   (which every freshly loaded one is); in any case no byte but white space is lost or moved.
   */
  lemma UndoRestores(s: Store, index: int, user: string, steps: seq<Step>)
    requires NulFree(s.mem) && LockOutcome(s.mem, |s.mem|, index) == Granted
    ensures UndoChange(DoSteps(Begin(s, index, user), steps)).Some?
    ensures var u := UndoChange(DoSteps(Begin(s, index, user), steps)).value;
            && u.disk == PrintUndo(s.mem)
            && u.mem == Parse(PrintUndo(s.mem)) == Freed(u.mem)
            && (u.mem == Freed(s.mem) <==> Canonical(Freed(s.mem)))
            && (u.mem == s.mem <==> Canonical(s.mem))
            && Concat(Flatten(u.mem)) == NonSpace(Concat(Flatten(s.mem)))
            && UndoChange(u) == Some(u)
  {
    var locked := LockAt(s.mem, |s.mem|, index, user);
    PrintUndoIgnoresLocks(s.mem);
    PrintUndoIgnoresLocks(locked);
    FreedAfterLock(s.mem, index, user);
    hide LockAt, LockOutcome, Canonical, Freed, PrintUndo, Flatten;
    PrintUndoIsText(s.mem);
    CTextIdentity(PrintUndo(s.mem));
    UndoTextReloads(s.mem);
    UndoTextReloads(Freed(s.mem));
    ParseIsCanonical(PrintUndo(s.mem));
    CanonicalIsFree(Parse(PrintUndo(s.mem)));
    ParseKeepsText(PrintUndo(s.mem));
    PrintUndoKeepsText(s.mem);
  }

  /** Writing to a freshly loaded file and undoing gives memory back exactly, and the disk up to white space. */
  lemma UndoAfterLoad(bytes: string, index: int, user: string, steps: seq<Step>)
    requires NUL !in bytes
    requires 0 <= index <= |LoadBytes(bytes)|
    ensures var s := Store(bytes, None, LoadBytes(bytes));
            && LockOutcome(s.mem, |s.mem|, index) == Granted
            && var r := UndoChange(DoSteps(Begin(s, index, user), steps));
               r.Some? && r.value.mem == s.mem && NonSpace(r.value.disk) == NonSpace(bytes)
  {
    CTextIdentity(bytes);
    var s := Store(bytes, None, LoadBytes(bytes));
    ParseIsCanonical(bytes);
    assert index < |s.mem| ==> CanonicalSentence(s.mem[index]);
    PrintUndoIgnoresLocks(s.mem);
    PrintUndoIgnoresLocks(LockAt(s.mem, |s.mem|, index, user));
    FreedAfterLock(s.mem, index, user);
    hide LockAt, Canonical, Freed, PrintUndo, Parse;
    assert NUL !in PrintUndo(s.mem) by {
      PrintParseKeepsText(bytes);
      NulIsKept(bytes);
      NulIsKept(PrintUndo(s.mem));
    }
    CTextIdentity(PrintUndo(s.mem));
    UndoTextReloads(s.mem);
    PrintParseKeepsText(bytes);
  }

  // ---------- a session that breaks off ----------

  /** What the server does when the client of a WRITE session disconnects: unlock, then undo. */
  function Abort(s: Store, index: nat, user: string): Option<Store> {
    UndoChange(s.(mem := UnlockAt(s.mem, index, user)))
  }

  /** The words that the commits among the steps really add. */
  function Committed(s: Store, steps: seq<Step>): seq<string>
    decreases |steps|
  {
    if steps == [] then [] else StepWords(s, steps[0]) + Committed(DoStep(s, steps[0]), steps[1..])
  }

  function StepWords(s: Store, step: Step): seq<string> {
    if step.CommitStep? && CommitAt(s.mem, |s.mem|, step.index, step.orig, step.ops).Some? then EditWords(step.ops)
    else []
  }

  lemma FlattenAround(d: Doc, i: nat)
    requires i < |d|
    ensures Flatten(d) == Flatten(d[..i]) + d[i].words + Flatten(d[i + 1..])
  {
    FlattenAppend(d[..i], d[i..]);
    assert d[..i] + d[i..] == d && d[i..][1..] == d[i + 1..];
  }

  lemma ReplacedWords(d: Doc, i: nat, s: Sentence)
    requires i < |d|
    ensures Flatten(d[i := s]) == Flatten(d[..i]) + s.words + Flatten(d[i + 1..])
  {
    FlattenAround(d[i := s], i);
    assert d[i := s][..i] == d[..i] && d[i := s][i + 1..] == d[i + 1..];
  }

  lemma MiddleGrows(a: seq<string>, was: seq<string>, now: seq<string>, b: seq<string>, more: seq<string>)
    requires multiset(now) == multiset(was) + multiset(more)
    ensures multiset(a + now + b) == multiset(a + was + b) + multiset(more)
  {
    MultisetAppend(a + now, b);
    MultisetAppend(a, now);
    MultisetAppend(a + was, b);
    MultisetAppend(a, was);
  }

  lemma EditAddsWords(d: Doc, i: nat, ops: seq<Edit<string>>, offset: int)
    requires i < |d|
    ensures var d' := d[i := d[i].(words := CommitWords(d[i].words, ops, offset))];
            multiset(Flatten(d')) == multiset(Flatten(d)) + multiset(EditWords(ops))
  {
    hide Flatten, CommitWords, EditWords;
    var words' := CommitWords(d[i].words, ops, offset);
    CommitKeeps(d[i].words, ops, offset);
    FlattenAround(d, i);
    ReplacedWords(d, i, d[i].(words := words'));
    MiddleGrows(Flatten(d[..i]), d[i].words, words', Flatten(d[i + 1..]), EditWords(ops));
  }

  lemma EmptySentenceAddsNothing(d: Doc)
    ensures Flatten(d + [Unlocked([], NUL)]) == Flatten(d)
  {
    FlattenAppend(d, [Unlocked([], NUL)]);
    FlattenOne(Unlocked([], NUL));
    assert Flatten(d) + [] == Flatten(d);
  }

  lemma CommitAddsWords(d: Doc, index: nat, orig: nat, ops: seq<Edit<string>>)
    ensures var r := CommitAt(d, |d|, index, orig, ops);
            r.Some? ==> multiset(Flatten(r.value)) == multiset(Flatten(d)) + multiset(EditWords(ops))
  {
    hide Flatten, CommitWords, EditWords;
    if index < |d| {
      EditAddsWords(d, index, ops, |d[index].words| - orig);
    } else if index == |d| {
      EmptySentenceAddsNothing(d);
      EditAddsWords(d + [Unlocked([], NUL)], index, ops, 0 - orig);
    }
  }

  lemma LocksKeepWords(d: Doc, at: int, index: nat, user: string)
    ensures Flatten(LockAt(d, |d|, at, user)) == Flatten(d) && Flatten(UnlockAt(d, index, user)) == Flatten(d)
  {
    if 0 <= at < |d| {
      FlattenAround(d, at);
      ReplacedWords(d, at, d[at].(lock := Some(user)));
    }
    if index < |d| {
      FlattenAround(d, index);
      ReplacedWords(d, index, d[index].(lock := None));
    }
  }

  lemma {:induction false} StepsAddWords(s: Store, steps: seq<Step>)
    ensures multiset(Flatten(DoSteps(s, steps).mem)) == multiset(Flatten(s.mem)) + multiset(Committed(s, steps))
    decreases |steps|
  {
    if steps != [] {
      match steps[0] {
        case LockStep(at, user) => LocksKeepWords(s.mem, at, 0, user);
        case UnlockStep(index, user) => LocksKeepWords(s.mem, 0, index, user);
        case CommitStep(index, orig, ops) => CommitAddsWords(s.mem, index, orig, ops);
      }
      hide DoStep, Flatten, StepWords, LockAt, UnlockAt, CommitAt;
      StepsAddWords(DoStep(s, steps[0]), steps[1..]);
      MultisetAppend(StepWords(s, steps[0]), Committed(DoStep(s, steps[0]), steps[1..]));
    }
  }

  /** A word the reader could not have made is not among the words of a loaded document. */
  lemma NotReadBack(ws: seq<string>, read: seq<string>, more: seq<string>)
    requires AllAtomic(read) && multiset(read) == multiset(ws) + multiset(more)
    ensures AllAtomic(ws)
  {
    hide Atomic;
    forall i | 0 <= i < |ws| ensures Atomic(ws[i]) {
      assert ws[i] in multiset(ws);
      assert ws[i] in multiset(read);
      assert ws[i] in read;
    }
  }

  /**
   Any session breaks off; s is the file when the last session on it began, be it that session or another one.
   Every byte but white space is then as it was at s. The words of s come back as they were exactly when the reader
   could have made each of them; then the abort takes with it exactly the words that any sessions committed since.
   The words stay what they are now if and only if nothing was committed since and the reader could have made them.
   */
  lemma AbortLosesCommits(s: Store, index: int, user: string, steps: seq<Step>, index2: nat, user2: string)
    requires NulFree(s.mem) && LockOutcome(s.mem, |s.mem|, index) == Granted
    ensures var now := DoSteps(Begin(s, index, user), steps);
            var lost := Committed(Begin(s, index, user), steps);
            var readable := AllAtomic(Flatten(s.mem));
            && Abort(now, index2, user2).Some?
            && var after := Abort(now, index2, user2).value;
               && (Flatten(after.mem) == Flatten(s.mem) <==> readable)
               && Concat(Flatten(after.mem)) == NonSpace(Concat(Flatten(s.mem)))
               && (readable ==> multiset(Flatten(now.mem)) == multiset(Flatten(after.mem)) + multiset(lost))
               && (multiset(Flatten(after.mem)) == multiset(Flatten(now.mem)) <==> lost == [] && readable)
  {
    var b := Begin(s, index, user);
    var now, lost := DoSteps(b, steps), Committed(b, steps);
    UndoRestores(s, index, user, steps);
    UndoKeepsWordsIff(s.mem);
    ParseKeepsText(PrintUndo(s.mem));
    WordsKeepText(PrintUndo(s.mem));
    LocksKeepWords(s.mem, index, 0, user);
    StepsAddWords(b, steps);
    hide LockAt, UnlockAt, LockOutcome, Canonical, Freed, Flatten, PrintUndo, Parse, AllAtomic;
    var words := Flatten(Parse(PrintUndo(s.mem)));
    if multiset(words) == multiset(Flatten(now.mem)) {
      NotReadBack(Flatten(s.mem), words, lost);
    }
    if lost != [] { assert lost[0] in multiset(lost); }
  }

  /**
   From an empty file: a session commits the word "a.b", a second one begins and breaks off. Nothing was committed
   in between, and yet the one word has become two, in two sentences.
   */
  lemma AbortSplitsWord(user: string)
    ensures var s := CommitAndSync(Store("", None, []), 0, 0, [Edit(0, "a.b")]);
            && Flatten(s.mem) == ["a.b"] && LockOutcome(s.mem, |s.mem|, 0) == Granted
            && Committed(Begin(s, 0, user), []) == []
            && Abort(Begin(s, 0, user), 0, user).Some?
            && Abort(Begin(s, 0, user), 0, user).value.mem == [Unlocked(["a."], '.'), Unlocked(["b"], NUL)]
  {
    var s := CommitAndSync(Store("", None, []), 0, 0, [Edit(0, "a.b")]);
    OneWordCommitted();
    FlattenOne(Unlocked(["a.b"], NUL));
    ReadsTwoWords();
    CTextIdentity("a.b");
    hide CommitAndSync, Flatten, Parse, CText;
    assert PrintUndo(LockAt(s.mem, 1, 0, user)) == "a.b";
  }

  lemma OneWordCommitted()
    ensures CommitAndSync(Store("", None, []), 0, 0, [Edit(0, "a.b")]).mem == [Unlocked(["a.b"], NUL)]
  {
    var ops := [Edit(0, "a.b")];
    assert ops[1..] == [] && InsertAt([], 0, "a.b") == ["a.b"];
    assert CommitWords(["a.b"], [], 0) == ["a.b"];
    assert CommitWords([], ops, 0) == ["a.b"];
  }

  lemma ReadsTwoWords()
    ensures Parse("a.b") == [Unlocked(["a."], '.'), Unlocked(["b"], NUL)]
  {
    var t, ws := "a.b", ["a.", "b"];
    PartsOfTwo();
    RunIsExact(t, "", WORD_LIMIT);
    assert t + "" == t && t[..3] == t && t[3..] == "";
    hide PartsFrom, RunLength;
    assert Words(t) == ws + Words("") == ws;
    assert ws[1..] == ["b"] && ws[1..][1..] == [];
    assert [] + ["a."] == ["a."] && [] + ["b"] == ["b"];
    assert Group(["b"], []) == [Unlocked(["b"], NUL)];
    assert Group([], ["b"]) == Group(["b"], []);
    assert EndsSentence(ws[0]) && !EndsSentence("b");
  }

  lemma PartsOfTwo()
    ensures PartsFrom("", "a.b") == ["a.", "b"]
  {
    assert "a.b"[1..] == ".b" && ".b"[1..] == "b" && "b"[1..] == "";
    assert "" + ['a'] == "a" && "a" + ['.'] == "a." && "" + ['b'] == "b";
    PartsNext("", "a.b");
    PartsNext("a", ".b");
    PartsNext("", "b");
    PartsNext("b", "");
  }

  lemma {:induction false} NulIsKept(s: string)
    ensures NUL in NonSpace(s) <==> NUL in s
  {
    if s != [] {
      NulIsKept(s[1..]);
      assert s == [s[0]] + s[1..];
    }
  }
}

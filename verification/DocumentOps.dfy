/** The three atomic regions of a WRITE session on a document: lock, unlock and commit. */
module DocumentOps {
  import opened Text
  import opened Document
  import opened Editing

  datatype LockResult = Granted | SentenceLocked | OutOfRange

  /** lock_sentence_ll: the index one past the end is granted without any node to lock. */
  function LockOutcome(d: Doc, count: int, index: int): LockResult {
    if index < 0 || index > count then OutOfRange
    else if index >= |d| then Granted
    else if d[index].lock == None then Granted
    else SentenceLocked
  }

  /** Whether the call really took a node's lock. */
  predicate TakesLock(d: Doc, count: int, index: int) {
    LockOutcome(d, count, index) == Granted && index < |d|
  }

  function LockAt(d: Doc, count: int, index: int, user: string): Doc {
    if TakesLock(d, count, index) then d[index := d[index].(lock := Some(user))] else d
  }

  /** unlock_sentence_ll: only a lock held under the same name is cleared. */
  function UnlockAt(d: Doc, index: nat, user: string): Doc {
    if index < |d| && d[index].lock == Some(user) then d[index := d[index].(lock := None)] else d
  }

  /** The words of a sentence, none if it does not exist yet. */
  function WordsAt(d: Doc, index: nat): seq<string> {
    if index < |d| then d[index].words else []
  }

  /** The commit: the target is found, or created when it is the next one; None is the range error. */
  function CommitAt(d: Doc, count: int, index: nat, orig: nat, ops: seq<Edit<string>>): Option<Doc> {
    var e := if index >= |d| && index == count then d + [Unlocked([], NUL)] else d;
    if index < |e| then
      Some(e[index := e[index].(words := CommitWords(e[index].words, ops, |e[index].words| - orig))])
    else None
  }
}

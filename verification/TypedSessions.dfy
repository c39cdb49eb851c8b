/** A WRITE session from its word count to its commit. */
module TypedSessions {
  import opened Text
  import opened CStrings
  import opened DocumentOps
  import opened Editing
  import opened SessionProtocol

  // What the client types is compared with what is committed: every command inserts its words side by side into the
  // sentence the session counted, and the commit puts that sentence behind whatever the stored one gained in front.

  /** The sentence as the client has it in mind, and the position of the terminator it typed, -1 if none. */
  datatype View = View(words: seq<string>, end: int)

  /** A word as far as its buffer goes. */
  function Stored(token: string): string {
    if |token| <= 255 then token else token[..255]
  }

  function StoredAll(tokens: seq<string>): (r: seq<string>)
    ensures |r| == |tokens| && forall j | 0 <= j < |tokens| :: r[j] == Stored(tokens[j])
  {
    seq(|tokens|, j requires 0 <= j < |tokens| => Stored(tokens[j]))
  }

  predicate Terminates(token: string) {
    token != "" && (token[|token| - 1] == '.' || token[|token| - 1] == '!' || token[|token| - 1] == '?')
  }

  /** Word j of a command goes to a place that exists by then, and not behind the terminator. */
  predicate AcceptedWord(v: View, base: int, j: nat) {
    0 <= base + j <= |v.words| + j && (v.end >= 0 ==> base + j <= v.end)
  }

  predicate Accepted(v: View, base: int, tokens: seq<string>) {
    forall j: nat | j < |tokens| :: AcceptedWord(v, base, j)
  }

  /** The terminator moves along with words in front of it; otherwise the first one typed counts. */
  ghost predicate EndMoves(v: View, base: int, tokens: seq<string>, end: int) {
    if v.end >= 0 then end == v.end + |tokens|
    else if exists k :: 0 <= k < |tokens| && Terminates(tokens[k]) then
      exists k :: 0 <= k < |tokens| && Terminates(tokens[k]) && end == base + k
                  && forall j | 0 <= j < k :: !Terminates(tokens[j])
    else end == v.end
  }

  /** What one command makes of the view: its words at base, or nothing at all. */
  ghost predicate Types(v: View, base: int, tokens: seq<string>, v': View) {
    if tokens == [] || !Accepted(v, base, tokens) then v' == v
    else
      assert AcceptedWord(v, base, 0);
      v'.words == v.words[..base] + StoredAll(tokens) + v.words[base..] && EndMoves(v, base, tokens, v'.end)
  }

  lemma TypesOnce(v: View, base: int, tokens: seq<string>, a: View, b: View)
    requires Types(v, base, tokens, a) && Types(v, base, tokens, b)
    ensures a == b
  {
    if tokens != [] && Accepted(v, base, tokens) {
      EndOnce(v, base, tokens, a.end, b.end);
    }
  }

  lemma EndOnce(v: View, base: int, tokens: seq<string>, a: int, b: int)
    requires EndMoves(v, base, tokens, a) && EndMoves(v, base, tokens, b)
    ensures a == b
  {
    if v.end < 0 {
      if k :| 0 <= k < |tokens| && Terminates(tokens[k]) {
        var i :| 0 <= i < |tokens| && Terminates(tokens[i]) && a == base + i
                 && forall j | 0 <= j < i :: !Terminates(tokens[j]);
        var j :| 0 <= j < |tokens| && Terminates(tokens[j]) && b == base + j
                 && forall l | 0 <= l < j :: !Terminates(tokens[l]);
      }
    }
  }

  // ---------- one command ----------

  /** The view a queue stands for. */
  ghost predicate Shows(v: View, seen: seq<string>, q: Queue) {
    Fits(|seen|, q.ops) && v == View(Replay(seen, q.ops), q.delimiterAt)
  }

  /** A batch is accepted exactly if each of its words is. */
  lemma ValidIffAccepted(seen: seq<string>, q: Queue, v: View, base: int, tokens: seq<string>)
    requires Shows(v, seen, q)
    ensures Editing.Valid(|seen|, q, base, tokens) <==> Accepted(v, base, tokens)
  {
    if tokens != [] && Accepted(v, base, tokens) {
      assert AcceptedWord(v, base, 0) && AcceptedWord(v, base, |tokens| - 1);
    }
  }

  lemma TerminatesIff(token: string)
    ensures Terminates(token) <==> EndsWithDelimiter(token)
  {
  }

  lemma BatchWords(base: int, tokens: seq<string>)
    ensures EditWords(BatchEdits(base, tokens)) == StoredAll(tokens)
    ensures forall j | 0 <= j < |tokens| :: BatchEdits(base, tokens)[j].at == base + j
  {
    var ops := BatchEdits(base, tokens);
    if tokens != [] { EditWordsAt(ops, 0); }
    forall j | 0 <= j < |tokens| ensures EditWords(ops)[j] == StoredAll(tokens)[j] { EditWordsAt(ops, j); }
  }

  /** Queueing an accepted batch inserts its words side by side at base. */
  lemma BatchReplays(seen: seq<string>, q: Queue, base: int, tokens: seq<string>)
    requires Fits(|seen|, q.ops) && Editing.Valid(|seen|, q, base, tokens) && tokens != []
    ensures 0 <= base <= |seen| + |q.ops| && Fits(|seen|, QueueBatch(|seen|, q, base, tokens).ops)
    ensures var before := Replay(seen, q.ops);
            Replay(seen, QueueBatch(|seen|, q, base, tokens).ops)
            == before[..base] + StoredAll(tokens) + before[base..]
  {
    QueueFits(|seen|, q, base, tokens);
    BatchWords(base, tokens);
    ReplayAppend(seen, q.ops, BatchEdits(base, tokens));
    ReplayRun(Replay(seen, q.ops), base, BatchEdits(base, tokens));
  }

  lemma EndFollows(orig: nat, q: Queue, v: View, base: int, tokens: seq<string>)
    requires Editing.Valid(orig, q, base, tokens) && v.end == q.delimiterAt
    ensures EndMoves(v, base, tokens, QueueBatch(orig, q, base, tokens).delimiterAt)
  {
    forall k | 0 <= k < |tokens| ensures Terminates(tokens[k]) <==> EndsWithDelimiter(tokens[k]) {
      TerminatesIff(tokens[k]);
    }
  }

  /** A command does to the queue what it does to the view. */
  lemma CommandTypes(seen: seq<string>, q: Queue, v: View, base: int, tokens: seq<string>) returns (v': View)
    requires Shows(v, seen, q)
    ensures Shows(v', seen, QueueBatch(|seen|, q, base, tokens)) && Types(v, base, tokens, v')
  {
    var q' := QueueBatch(|seen|, q, base, tokens);
    QueueFits(|seen|, q, base, tokens);
    v' := View(Replay(seen, q'.ops), q'.delimiterAt);
    ValidIffAccepted(seen, q, v, base, tokens);
    if Editing.Valid(|seen|, q, base, tokens) {
      if tokens == [] {
        assert q.ops + BatchEdits(base, tokens) == q.ops;
      } else {
        BatchReplays(seen, q, base, tokens);
        EndFollows(|seen|, q, v, base, tokens);
      }
    }
  }

  // ---------- a whole session ----------

  ghost predicate TypesAll(v: View, commands: seq<(int, seq<string>)>, v': View)
    decreases |commands|
  {
    if commands == [] then v' == v
    else exists m :: Types(v, commands[0].0, commands[0].1, m) && TypesAll(m, commands[1..], v')
  }

  /** The commands determine the view. */
  lemma {:induction false} TypesAllOnce(v: View, commands: seq<(int, seq<string>)>, a: View, b: View)
    requires TypesAll(v, commands, a) && TypesAll(v, commands, b)
    ensures a == b
    decreases |commands|
  {
    if commands != [] {
      var m :| Types(v, commands[0].0, commands[0].1, m) && TypesAll(m, commands[1..], a);
      var n :| Types(v, commands[0].0, commands[0].1, n) && TypesAll(n, commands[1..], b);
      TypesOnce(v, commands[0].0, commands[0].1, m, n);
      TypesAllOnce(m, commands[1..], a, b);
    }
  }

  /** The command a step brings to a session that is writing, as index and words; ETIRW is none. */
  function Command(w: World, a: Action, sid: nat): seq<(int, seq<string>)>
    requires sid < |w.sessions|
  {
    if a.Receive? && a.sid == sid && w.sessions[sid].phase.Writing? && a.data != "ETIRW"
    then [(a.base, Tokens(if |a.data| <= 4095 then a.data else a.data[..4095], " "))] else []
  }

  function Commands(w: World, acts: seq<Action>, sid: nat): seq<(int, seq<string>)>
    requires sid < |w.sessions|
    decreases |acts|
  {
    if acts == [] then [] else Command(w, acts[0], sid) + Commands(Next(w, acts[0]), acts[1..], sid)
  }

  /** The session counted the words seen, and its queue stands for the view. */
  ghost predicate Stands(w: World, sid: nat, i: nat, seen: seq<string>, v: View) {
    && sid < |w.sessions| && w.sessions[sid].index == i
    && (w.sessions[sid].phase.Writing? || w.sessions[sid].phase.Closed?)
    && w.sessions[sid].phase.orig == |seen| && Shows(v, seen, w.sessions[sid].phase.queue)
  }

  predicate Over(s: Session) {
    s.phase.Finished? || s.phase.Refused?
  }

  /** Counting starts the view. */
  lemma CountStarts(w: World, sid: nat, i: nat)
    requires sid < |w.sessions| && w.sessions[sid].phase.Entered? && w.sessions[sid].index == i
    ensures Stands(Next(w, CountWords(sid)), sid, i, WordsAt(w.doc, i), View(WordsAt(w.doc, i), -1))
  {
  }

  /** Every step of any session leaves the session's view as its commands make it, until it commits. */
  lemma StepStands(w: World, a: Action, sid: nat, i: nat, seen: seq<string>, v: View) returns (v': View)
    requires Stands(w, sid, i, seen, v)
    ensures TypesAll(v, Command(w, a, sid), v')
    ensures Stands(Next(w, a), sid, i, seen, v') || Over(Next(w, a).sessions[sid])
    ensures Stands(Next(w, a), sid, i, seen, v') <==> !CommitsTo(w, a, i) || a.sid != sid
  {
    var s := w.sessions[sid];
    OthersStay(w, a);
    v' := v;
    if Command(w, a, sid) != [] {
      var q := s.phase.queue;
      v' := CommandTypes(seen, q, v, a.base, CommandTokens(a.data));
      assert Command(w, a, sid)[1..] == [] && TypesAll(v', [], v');
      assert Next(w, a).sessions[sid].phase == Writing(|seen|, QueueBatch(|seen|, q, a.base, CommandTokens(a.data)));
    }
  }

  lemma {:induction false} OverStays(w: World, acts: seq<Action>, sid: nat)
    requires sid < |w.sessions| && Over(w.sessions[sid])
    ensures Over(Run(w, acts).sessions[sid])
    decreases |acts|
  {
    if acts != [] {
      OthersStay(w, acts[0]);
      OverStays(Next(w, acts[0]), acts[1..], sid);
    }
  }

  lemma {:induction false} TypesAllAppend(v: View, a: seq<(int, seq<string>)>, m: View, b: seq<(int, seq<string>)>,
                                          v': View)
    requires TypesAll(v, a, m) && TypesAll(m, b, v')
    ensures TypesAll(v, a + b, v')
    decreases |a|
  {
    if a == [] {
      assert a + b == b;
    } else {
      assert (a + b)[0] == a[0] && (a + b)[1..] == a[1..] + b;
      var n :| Types(v, a[0].0, a[0].1, n) && TypesAll(n, a[1..], m);
      TypesAllAppend(n, a[1..], m, b, v');
    }
  }

  /** As long as the session has not committed, its queue stands for what its client typed. */
  lemma {:induction false} RunStands(w: World, acts: seq<Action>, sid: nat, i: nat, seen: seq<string>, v: View)
    returns (v': View)
    requires Stands(w, sid, i, seen, v) && !Over(Run(w, acts).sessions[sid])
    ensures TypesAll(v, Commands(w, acts, sid), v') && Stands(Run(w, acts), sid, i, seen, v')
    decreases |acts|
  {
    v' := v;
    if acts != [] {
      var m := StepStands(w, acts[0], sid, i, seen, v);
      if Over(Next(w, acts[0]).sessions[sid]) { OverStays(Next(w, acts[0]), acts[1..], sid); }
      hide Stands, Next, Command, TypesAll, Over;
      v' := RunStands(Next(w, acts[0]), acts[1..], sid, i, seen, m);
      TypesAllAppend(v, Command(w, acts[0], sid), m, Commands(Next(w, acts[0]), acts[1..], sid), v');
    }
  }

  /** No other session commits to sentence i during the run. */
  ghost predicate NobodyElse(w: World, acts: seq<Action>, sid: nat, i: nat)
    decreases |acts|
  {
    acts != [] ==> !(CommitsTo(w, acts[0], i) && acts[0].sid != sid) && NobodyElse(Next(w, acts[0]), acts[1..], sid, i)
  }

  lemma {:induction false} WordsStay(w: World, acts: seq<Action>, sid: nat, i: nat, seen: seq<string>, v: View)
    requires Inv(w) && Stands(w, sid, i, seen, v) && !Over(Run(w, acts).sessions[sid]) && NobodyElse(w, acts, sid, i)
    ensures WordsAt(Run(w, acts).doc, i) == WordsAt(w.doc, i)
    decreases |acts|
  {
    if acts != [] {
      var a := acts[0];
      var m := StepStands(w, a, sid, i, seen, v);
      if Over(Next(w, a).sessions[sid]) { OverStays(Next(w, a), acts[1..], sid); }
      NextKeepsInv(w, a);
      var offset := StepIsCommit(w, a, i);
      assert StepEdits(w, a, i) == [];
      hide Stands, Next, Over, Inv;
      WordsStay(Next(w, a), acts[1..], sid, i, seen, m);
    }
  }

  /** Different words stay different under the same edits. */
  lemma {:induction false} ReplayTellsApart<T>(a: seq<T>, b: seq<T>, ops: seq<Edit<T>>)
    requires |a| == |b| && Fits(|a|, ops)
    ensures Replay(a, ops) == Replay(b, ops) <==> a == b
    decreases |ops|
  {
    if ops != [] {
      var k, x := ops[0].at, ops[0].word;
      assert Fits(|a| + 1, ops[1..]) by { assert forall j | 0 <= j < |ops| - 1 :: ops[1..][j] == ops[j + 1]; }
      ReplayTellsApart(InsertAt(a, k, x), InsertAt(b, k, x), ops[1..]);
      InsertTellsApart(a, b, k, x);
    }
  }

  lemma InsertTellsApart<T>(a: seq<T>, b: seq<T>, k: nat, x: T)
    requires |a| == |b| && k <= |a|
    ensures InsertAt(a, k, x) == InsertAt(b, k, x) <==> a == b
  {
    var c, d := InsertAt(a, k, x), InsertAt(b, k, x);
    assert c[..k] == a[..k] && c[k + 1..] == a[k..] && d[..k] == b[..k] && d[k + 1..] == b[k..];
    assert a == a[..k] + a[k..] && b == b[..k] + b[k..];
  }

  /**
   A session counts at u, runs through any interleaving with others, and commits. The words the sentence gained
   meanwhile stand in front; behind them stands exactly what the client typed into the sentence it counted, if and
   only if the others left the counted words at the end. If nobody else committed to the sentence, the outcome is
   what was typed.
   */
  lemma SessionCommitsTyped(u: World, acts: seq<Action>, sid: nat, i: nat) returns (typed: View)
    requires Inv(u) && sid < |u.sessions| && u.sessions[sid].phase.Entered? && u.sessions[sid].index == i
    requires Run(Next(u, CountWords(sid)), acts).sessions[sid].phase.Closed?
    ensures var w, seen := Run(Next(u, CountWords(sid)), acts), WordsAt(u.doc, i);
            var cur, after := WordsAt(w.doc, i), WordsAt(Next(w, Commit(sid)).doc, i);
            var d := |cur| - |seen|;
            && TypesAll(View(seen, -1), Commands(Next(u, CountWords(sid)), acts, sid), typed)
            && w.sessions[sid].phase.orig == |seen| <= |cur|
            && |after| == d + |typed.words| && after[..d] == cur[..d]
            && (after[d..] == typed.words <==> cur[d..] == seen)
            && (NobodyElse(Next(u, CountWords(sid)), acts, sid, i) ==> after == typed.words)
  {
    hide Next, Run, Inv, TypesAll, Commands, NobodyElse, Stands, CommitObeysLaw, WordsAt;
    var u1, seen := Next(u, CountWords(sid)), WordsAt(u.doc, i);
    CountStarts(u, sid, i);
    NextKeepsInv(u, CountWords(sid));
    CountIsQuiet(u, sid, i);
    typed := RunStands(u1, acts, sid, i, seen, View(seen, -1));
    RunKeepsInv(u1, acts);
    CommitLawFor(Run(u1, acts), sid);
    if NobodyElse(u1, acts, sid, i) { WordsStay(u1, acts, sid, i, seen, View(seen, -1)); }
    CommitOutcome(Run(u1, acts), sid, i, seen, typed);
    Undisturbed(WordsAt(Next(Run(u1, acts), Commit(sid)).doc, i), WordsAt(Run(u1, acts).doc, i), seen, typed);
  }

  lemma CountIsQuiet(u: World, sid: nat, i: nat)
    ensures WordsAt(Next(u, CountWords(sid)).doc, i) == WordsAt(u.doc, i)
  {
    QuietStep(u, CountWords(sid));
  }

  lemma Undisturbed(after: seq<string>, cur: seq<string>, seen: seq<string>, v: View)
    ensures cur == seen && |after| == |v.words| && (after[0..] == v.words <==> cur[0..] == seen) ==> after == v.words
  {
    assert after[0..] == after && cur[0..] == cur;
  }

  lemma CommitOutcome(w: World, sid: nat, i: nat, seen: seq<string>, v: View)
    requires Stands(w, sid, i, seen, v) && w.sessions[sid].phase.Closed? && CommitObeysLaw(w, sid)
    ensures var cur, after := WordsAt(w.doc, i), WordsAt(Next(w, Commit(sid)).doc, i);
            var d := |cur| - |seen|;
            && w.sessions[sid].phase.orig == |seen|
            && 0 <= d <= |after| == d + |v.words| && after[..d] == cur[..d]
            && (after[d..] == v.words <==> cur[d..] == seen)
  {
    hide Next;
    var ops := w.sessions[sid].phase.queue.ops;
    var cur := WordsAt(w.doc, i);
    ReplayTellsApart(cur[|cur| - |seen|..], seen, ops);
  }

  // ---------- commands as the client sends them ----------

  /** Words joined by blanks are read back one by one. */
  lemma {:induction false} JoinedTokens(ws: seq<string>)
    requires forall i | 0 <= i < |ws| :: ws[i] != "" && ' ' !in ws[i]
    ensures Tokens(Join(ws), " ") == ws
  {
    if ws == [] {
      NoTokens(" ");
    } else {
      TokensOfToken(ws[0], ' ', Join(ws[1..]), " ");
      JoinedTokens(ws[1..]);
      assert ws == [ws[0]] + ws[1..];
    }
  }
}

/** Mutual exclusion on sentences, over the steps of SessionProtocol. */
module SentenceLocks {
  import opened Document
  import opened Editing
  import opened SessionProtocol
  import opened Text

  // Unlocking compares user names, so a session that entered without a lock can clear one that another session of
  // the same user took. One step law says exactly when exclusion on a sentence survives; it is lifted to runs, and the
  // usual ways of avoiding the failure follow from it.

  ghost predicate Holder(w: World, sid: nat, i: nat) {
    sid < |w.sessions| && w.sessions[sid].holds && w.sessions[sid].index == i
  }

  /** Between a granted lock call and ETIRW. */
  predicate Open(s: Session) {
    s.phase.Entered? || s.phase.Writing?
  }

  /** Sessions that hold a lock are open, on sentences that exist. */
  ghost predicate Standing(w: World) {
    forall a | 0 <= a < |w.sessions| && w.sessions[a].holds ::
      Open(w.sessions[a]) && 0 <= w.sessions[a].index < |w.doc|
  }

  /** The sentence is locked exactly when a session holds it, under that session's name, and only one does. */
  ghost predicate Exclusive(w: World, i: nat) {
    i < |w.doc| ==>
      && (w.doc[i].lock.Some? <==> exists a: nat :: Holder(w, a, i))
      && (forall a: nat, b: nat :: Holder(w, a, i) && Holder(w, b, i) ==> a == b)
      && (forall a: nat :: Holder(w, a, i) ==> w.doc[i].lock == Some(w.sessions[a].user))
  }

  /** ETIRW by a writer of sentence i. */
  ghost predicate EndsWriting(w: World, a: Action, i: nat) {
    && a.Receive? && a.sid < |w.sessions| && a.data == END_OF_WRITE
    && w.sessions[a.sid].phase.Writing? && w.sessions[a.sid].index == i
  }

  /** The failing branch: ETIRW of a session without a lock, while its user's name is on the sentence. */
  ghost predicate ForeignUnlock(w: World, a: Action, i: nat) {
    && EndsWriting(w, a, i) && !w.sessions[a.sid].holds
    && i < |w.doc| && w.doc[i].lock == Some(w.sessions[a.sid].user)
  }

  // ---------- one step ----------

  /**
   A request is granted exactly if its sentence exists or is the next one and no session holds it; it takes the
   lock exactly if the sentence exists, and a request that is refused changes nothing but its own phase.
   */
  lemma GrantedIffFree(w: World, sid: nat)
    requires Inv(w) && sid < |w.sessions| && w.sessions[sid].phase.Waiting? && !w.sessions[sid].holds
    requires w.sessions[sid].index >= 0 ==> Exclusive(w, w.sessions[sid].index)
    ensures var s, w' := w.sessions[sid], Next(w, Lock(sid));
            var granted := 0 <= s.index <= |w.doc|
                           && forall a: nat :: s.index < |w.doc| ==> !Holder(w, a, s.index);
            && (w'.sessions[sid].phase == if granted then Entered else Refused)
            && (w'.sessions[sid].holds <==> granted && s.index < |w.doc|)
            && (!granted ==> w'.doc == w.doc) && w'.count == w.count && w'.disk == w.disk
  {
    var s := w.sessions[sid];
    if 0 <= s.index < |w.doc| && w.doc[s.index].lock.Some? {
      var a: nat :| Holder(w, a, s.index);
    }
  }

  /** The lock a step leaves on a sentence, and who holds it, by the kind of step. */
  lemma LockAfter(w: World, a: Action, i: nat)
    requires Standing(w) && i < |w.doc|
    ensures i < |Next(w, a).doc|
    ensures EndsWriting(w, a, i) ==>
              && !Holder(Next(w, a), a.sid, i)
              && (Next(w, a).doc[i].lock
                  == if w.doc[i].lock == Some(w.sessions[a.sid].user) then None else w.doc[i].lock)
    ensures !EndsWriting(w, a, i) && Holder(Next(w, a), a.sid, i) && !Holder(w, a.sid, i) ==>
              w.doc[i].lock == None && Next(w, a).doc[i].lock == Some(w.sessions[a.sid].user)
    ensures !EndsWriting(w, a, i) && (Holder(Next(w, a), a.sid, i) <==> Holder(w, a.sid, i)) ==>
              Next(w, a).doc[i].lock == w.doc[i].lock
    ensures !EndsWriting(w, a, i) && Holder(w, a.sid, i) ==> Holder(Next(w, a), a.sid, i)
  {
  }

  lemma SameNames(w: World, a: Action)
    ensures forall b | 0 <= b < |w.sessions| ::
              Next(w, a).sessions[b].user == w.sessions[b].user && Next(w, a).sessions[b].index == w.sessions[b].index
    ensures |w.doc| <= |Next(w, a).doc|
  {
  }

  lemma NextKeepsStanding(w: World, a: Action)
    requires Standing(w)
    ensures Standing(Next(w, a))
  {
    OthersStay(w, a);
    SameNames(w, a);
  }

  /** The sentence a commit creates is nobody's. */
  lemma NewSentence(w: World, a: Action, i: nat)
    requires Standing(w) && |w.doc| <= i < |Next(w, a).doc|
    ensures Next(w, a).doc[i].lock == None && forall b: nat :: !Holder(Next(w, a), b, i)
  {
    OthersStay(w, a);
  }

  /** Holding passes through a step for everybody but the session that acts. */
  lemma OtherHolders(w: World, a: Action, i: nat)
    ensures forall b: nat | b != a.sid :: Holder(Next(w, a), b, i) <==> Holder(w, b, i)
  {
    OthersStay(w, a);
  }

  /** Exclusion on a sentence survives a step if and only if the step is not a foreign unlock of it. */
  lemma StepKeepsExclusionIff(w: World, a: Action, i: nat)
    requires Standing(w) && Exclusive(w, i)
    ensures Exclusive(Next(w, a), i) <==> !ForeignUnlock(w, a, i)
  {
    hide Next;
    OtherHolders(w, a, i);
    SameNames(w, a);
    var w' := Next(w, a);
    if i < |w.doc| {
      LockAfter(w, a, i);
      if b: nat :| Holder(w, b, i) {
        assert b == a.sid || Holder(w', b, i);
      }
      forall b: nat | Holder(w', b, i) ensures w'.sessions[b].user == w.sessions[b].user {
      }
      if EndsWriting(w, a, i) {
        assert Holder(w, a.sid, i) ==> w.doc[i].lock == Some(w.sessions[a.sid].user);
      } else if !(Holder(w', a.sid, i) <==> Holder(w, a.sid, i)) {
        assert Holder(w', a.sid, i);
      }
    } else if i < |w'.doc| {
      NewSentence(w, a, i);
    }
  }

  /** The lock of a held sentence changes exactly when its holder ends its session or at a foreign unlock. */
  lemma LockReleasedIff(w: World, a: Action, sid: nat, i: nat)
    requires Standing(w) && Exclusive(w, i) && Holder(w, sid, i)
    ensures i < |Next(w, a).doc|
    ensures Next(w, a).doc[i].lock != w.doc[i].lock
        <==> (EndsWriting(w, a, i) && a.sid == sid) || ForeignUnlock(w, a, i)
    ensures Next(w, a).doc[i].lock != w.doc[i].lock ==> Next(w, a).doc[i].lock == None
    ensures Holder(Next(w, a), sid, i) <==> !(EndsWriting(w, a, i) && a.sid == sid)
  {
    LockAfter(w, a, i);
    OtherHolders(w, a, i);
    hide Next;
    if a.sid != sid {
      assert !Holder(w, a.sid, i);
      if Holder(Next(w, a), a.sid, i) && !EndsWriting(w, a, i) { assert false; }
    }
  }

  // ---------- runs ----------

  /** The state after the first n steps. */
  function After(w: World, acts: seq<Action>, n: nat): World
    requires n <= |acts|
  {
    Run(w, acts[..n])
  }

  lemma {:induction false} RunSnoc(w: World, acts: seq<Action>, a: Action)
    ensures Run(w, acts + [a]) == Next(Run(w, acts), a)
    decreases |acts|
  {
    if acts == [] {
      assert (acts + [a])[1..] == [];
    } else {
      assert (acts + [a])[0] == acts[0] && (acts + [a])[1..] == acts[1..] + [a];
      RunSnoc(Next(w, acts[0]), acts[1..], a);
    }
  }

  lemma AfterStep(w: World, acts: seq<Action>, n: nat)
    requires n < |acts|
    ensures After(w, acts, n + 1) == Next(After(w, acts, n), acts[n])
  {
    RunSnoc(w, acts[..n], acts[n]);
    assert acts[..n] + [acts[n]] == acts[..n + 1];
  }

  lemma AfterAll(w: World, acts: seq<Action>)
    ensures After(w, acts, 0) == w && After(w, acts, |acts|) == Run(w, acts)
  {
    assert acts[..|acts|] == acts;
  }

  lemma {:induction false} RunKeepsStanding(w: World, acts: seq<Action>, n: nat)
    requires Standing(w) && n <= |acts|
    ensures Standing(After(w, acts, n)) && |w.doc| <= |After(w, acts, n).doc|
  {
    if n == 0 {
      AfterAll(w, acts);
    } else {
      RunKeepsStanding(w, acts, n - 1);
      AfterStep(w, acts, n - 1);
      NextKeepsStanding(After(w, acts, n - 1), acts[n - 1]);
      SameNames(After(w, acts, n - 1), acts[n - 1]);
    }
  }

  lemma {:induction false} ExclusiveWhileNoForeignUnlock(w: World, acts: seq<Action>, i: nat, n: nat)
    requires Standing(w) && Exclusive(w, i) && n <= |acts|
    requires forall k | 0 <= k < n :: !ForeignUnlock(After(w, acts, k), acts[k], i)
    ensures Exclusive(After(w, acts, n), i)
  {
    if n == 0 {
      AfterAll(w, acts);
    } else {
      ExclusiveWhileNoForeignUnlock(w, acts, i, n - 1);
      RunKeepsStanding(w, acts, n - 1);
      AfterStep(w, acts, n - 1);
      StepKeepsExclusionIff(After(w, acts, n - 1), acts[n - 1], i);
    }
  }

  /** A sentence stays exclusive throughout a run if and only if no step of the run is a foreign unlock of it. */
  lemma ExclusionOverRunsIff(w: World, acts: seq<Action>, i: nat)
    requires Standing(w) && Exclusive(w, i)
    ensures (forall n: nat | n <= |acts| :: Exclusive(After(w, acts, n), i))
        <==> (forall n: nat | n < |acts| :: !ForeignUnlock(After(w, acts, n), acts[n], i))
  {
    if forall n: nat | n < |acts| :: !ForeignUnlock(After(w, acts, n), acts[n], i) {
      forall n: nat | n <= |acts| ensures Exclusive(After(w, acts, n), i) {
        ExclusiveWhileNoForeignUnlock(w, acts, i, n);
      }
    } else {
      var n: nat :| n < |acts| && ForeignUnlock(After(w, acts, n), acts[n], i);
      if Exclusive(After(w, acts, n), i) {
        RunKeepsStanding(w, acts, n);
        AfterStep(w, acts, n);
        StepKeepsExclusionIff(After(w, acts, n), acts[n], i);
      }
    }
  }

  // ---------- when no step can be a foreign unlock ----------

  /** No two open sessions of one user on one sentence. */
  ghost predicate OneOpen(w: World, i: nat) {
    forall a, b | 0 <= a < b < |w.sessions| && w.sessions[a].index == w.sessions[b].index == i
      && Open(w.sessions[a]) && Open(w.sessions[b]) :: w.sessions[a].user != w.sessions[b].user
  }

  /** The guard of a client: do not ask for a sentence while another session of the same user has it open. */
  ghost predicate MayEnter(w: World, a: Action) {
    a.Lock? && a.sid < |w.sessions| && w.sessions[a.sid].phase.Waiting? ==>
      forall b | 0 <= b < |w.sessions| && b != a.sid && Open(w.sessions[b]) ::
        w.sessions[b].user != w.sessions[a.sid].user || w.sessions[b].index != w.sessions[a.sid].index
  }

  /** A session opens at its own lock step only. */
  lemma OpensByLock(w: World, a: Action)
    ensures forall b | 0 <= b < |w.sessions| && Open(Next(w, a).sessions[b]) && !Open(w.sessions[b]) ::
              a.Lock? && b == a.sid && w.sessions[b].phase.Waiting?
  {
    OthersStay(w, a);
  }

  lemma OneOpenStep(w: World, a: Action, i: nat)
    requires OneOpen(w, i) && MayEnter(w, a)
    ensures OneOpen(Next(w, a), i)
  {
    OpensByLock(w, a);
    OthersStay(w, a);
    SameNames(w, a);
    hide Next;
  }

  lemma NoForeignUnlock(w: World, a: Action, i: nat)
    requires Standing(w) && Exclusive(w, i) && OneOpen(w, i)
    ensures !ForeignUnlock(w, a, i)
  {
    forall b: nat | Holder(w, b, i) && EndsWriting(w, a, i) && !w.sessions[a.sid].holds
      ensures w.sessions[b].user != w.sessions[a.sid].user
    {
      assert b != a.sid && Open(w.sessions[b]) && Open(w.sessions[a.sid]);
    }
  }

  /**
   If no user asks for a sentence it already has open, every sentence is exclusive in every reachable state,
   however often a user writes and whatever the users do elsewhere.
   */
  lemma {:induction false} MutualExclusion(w: World, acts: seq<Action>, i: nat, n: nat)
    requires Init(w) && n <= |acts| && forall k | 0 <= k < n :: MayEnter(After(w, acts, k), acts[k])
    ensures Exclusive(After(w, acts, n), i) && OneOpen(After(w, acts, n), i) && Standing(After(w, acts, n))
  {
    if n == 0 {
      AfterAll(w, acts);
    } else {
      MutualExclusion(w, acts, i, n - 1);
      var u := After(w, acts, n - 1);
      AfterStep(w, acts, n - 1);
      hide Next;
      NoForeignUnlock(u, acts[n - 1], i);
      StepKeepsExclusionIff(u, acts[n - 1], i);
      OneOpenStep(u, acts[n - 1], i);
      NextKeepsStanding(u, acts[n - 1]);
    }
  }

  ghost predicate DistinctUsers(w: World) {
    forall a, b | 0 <= a < b < |w.sessions| :: w.sessions[a].user != w.sessions[b].user
  }

  lemma {:induction false} NamesStay(w: World, acts: seq<Action>)
    ensures forall b | 0 <= b < |w.sessions| :: Run(w, acts).sessions[b].user == w.sessions[b].user
    decreases |acts|
  {
    if acts != [] {
      SameNames(w, acts[0]);
      NamesStay(Next(w, acts[0]), acts[1..]);
    }
  }

  /** Sessions of distinct users exclude each other on every sentence. */
  lemma DistinctUsersExclude(w: World, acts: seq<Action>, i: nat)
    requires Init(w) && DistinctUsers(w)
    ensures Exclusive(Run(w, acts), i)
  {
    forall k | 0 <= k < |acts| ensures MayEnter(After(w, acts, k), acts[k]) {
      NamesStay(w, acts[..k]);
    }
    MutualExclusion(w, acts, i, |acts|);
    AfterAll(w, acts);
  }

  /** Every open session of the sentence holds its lock. */
  ghost predicate OpenHold(w: World, i: nat) {
    forall a: nat | a < |w.sessions| && w.sessions[a].index == i && Open(w.sessions[a]) :: Holder(w, a, i)
  }

  lemma OpenHoldStep(w: World, a: Action, i: nat)
    requires OpenHold(w, i) && i < |w.doc|
    ensures OpenHold(Next(w, a), i)
  {
    OthersStay(w, a);
    SameNames(w, a);
    if a.sid < |w.sessions| && w.sessions[a.sid].index == i && Open(Next(w, a).sessions[a.sid]) {
      assert Open(w.sessions[a.sid]) ==> Holder(w, a.sid, i);
    }
  }

  /**
   On a sentence that exists when the file is loaded, exclusion needs no assumption on users: every open
   session there holds the lock, so there is at most one.
   */
  lemma {:induction false} LoadedSentencesExclude(w: World, acts: seq<Action>, i: nat, n: nat)
    requires Init(w) && i < |w.doc| && n <= |acts|
    ensures Exclusive(After(w, acts, n), i) && OpenHold(After(w, acts, n), i)
    ensures forall a, b | 0 <= a < |w.sessions| && 0 <= b < |w.sessions| ::
              var ss := After(w, acts, n).sessions;
              Open(ss[a]) && Open(ss[b]) && ss[a].index == i && ss[b].index == i ==> a == b
  {
    if n == 0 {
      AfterAll(w, acts);
    } else {
      LoadedSentencesExclude(w, acts, i, n - 1);
      var u := After(w, acts, n - 1);
      RunKeepsStanding(w, acts, n - 1);
      AfterStep(w, acts, n - 1);
      StepKeepsExclusionIff(u, acts[n - 1], i);
      OpenHoldStep(u, acts[n - 1], i);
      RunKeepsStanding(w, acts, n);
    }
    OneHolder(After(w, acts, n), i);
  }

  lemma OneHolder(w: World, i: nat)
    requires i < |w.doc| && Exclusive(w, i) && OpenHold(w, i)
    ensures forall a, b | 0 <= a < |w.sessions| && 0 <= b < |w.sessions| ::
              Open(w.sessions[a]) && Open(w.sessions[b]) && w.sessions[a].index == i && w.sessions[b].index == i
              ==> a == b
  {
    forall a: nat, b: nat | a < |w.sessions| && b < |w.sessions| && Open(w.sessions[a]) && Open(w.sessions[b])
      && w.sessions[a].index == i && w.sessions[b].index == i
      ensures a == b
    {
      assert Holder(w, a, i) && Holder(w, b, i);
    }
  }

  // ---------- a run that reaches a foreign unlock ----------

  /**
   Two sessions of one user break exclusion: the first entered on a sentence that did not exist yet and so
   holds nothing; its ETIRW releases the lock the second one took after a third session created the
   sentence, and a fourth user then holds the sentence together with the second session.
   */
  lemma SameUserBreaksExclusion(w: World)
    requires w == World([], 0, "", seq(4, a requires 0 <= a < 4 => Session(CollidingUser(a), 0, Waiting, false)))
    ensures exists acts :: Holder(Run(w, acts), 2, 0) && Holder(Run(w, acts), 3, 0)
  {
    var acts, u := CreateSentence(w);
    RunSnoc(w, acts, Lock(2));
    var u1 := Next(u, Lock(2));
    assert u1.doc == [Sentence([], NUL, Some("ann"))] && Holder(u1, 2, 0);
    RunSnoc(w, acts + [Lock(2)], Receive(0, 0, END_OF_WRITE));
    var u2 := Next(u1, Receive(0, 0, END_OF_WRITE));
    assert u2.doc == [Sentence([], NUL, None)] && Holder(u2, 2, 0);
    RunSnoc(w, acts + [Lock(2)] + [Receive(0, 0, END_OF_WRITE)], Lock(3));
  }

  function CollidingUser(a: int): string {
    if a == 1 then "bob" else if a == 3 then "cat" else "ann"
  }

  /** Two sessions enter on the sentence that does not exist yet. */
  lemma BothEnter(w: World) returns (acts: seq<Action>, u: World)
    requires w == World([], 0, "", seq(4, a requires 0 <= a < 4 => Session(CollidingUser(a), 0, Waiting, false)))
    ensures u == Run(w, acts) && u.doc == [] && u.count == 0 && |u.sessions| == 4
    ensures u.sessions[0] == Session("ann", 0, Writing(0, Queue([], -1)), false)
    ensures u.sessions[1] == Session("bob", 0, Writing(0, Queue([], -1)), false)
    ensures u.sessions[2] == w.sessions[2] && u.sessions[3] == w.sessions[3]
  {
    acts := [Lock(0)];
    u := Next(w, Lock(0));
    assert Run(w, acts) == u by { assert acts[1..] == []; }
    RunSnoc(w, acts, CountWords(0));
    acts, u := acts + [CountWords(0)], Next(u, CountWords(0));
    RunSnoc(w, acts, Lock(1));
    acts, u := acts + [Lock(1)], Next(u, Lock(1));
    RunSnoc(w, acts, CountWords(1));
    acts, u := acts + [CountWords(1)], Next(u, CountWords(1));
  }

  /** The second of them creates the sentence while the first is still writing to it. */
  lemma CreateSentence(w: World) returns (acts: seq<Action>, u: World)
    requires w == World([], 0, "", seq(4, a requires 0 <= a < 4 => Session(CollidingUser(a), 0, Waiting, false)))
    ensures u == Run(w, acts)
    ensures u.doc == [Sentence([], NUL, None)] && u.count == 1 && |u.sessions| == 4
    ensures u.sessions[0] == Session("ann", 0, Writing(0, Queue([], -1)), false)
    ensures u.sessions[2] == w.sessions[2] && u.sessions[3] == w.sessions[3]
  {
    acts, u := BothEnter(w);
    RunSnoc(w, acts, Receive(1, 0, END_OF_WRITE));
    acts, u := acts + [Receive(1, 0, END_OF_WRITE)], Next(u, Receive(1, 0, END_OF_WRITE));
    assert u.sessions[1].phase == Closed(0, Queue([], -1));
    RunSnoc(w, acts, Commit(1));
    acts, u := acts + [Commit(1)], Next(u, Commit(1));
  }
}

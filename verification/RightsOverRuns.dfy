/** Checks answer what was last granted or revoked. */
module RightsOverRuns {
  import opened Text
  import opened AccessList
  import opened AccessRights
  import opened CacheTable
  import opened PermissionLaws

  // Texts edited in place, a cache and its rebuilds together implement the plain notion of a right: what the most
  // recent grant or revocation for a user and a file says.

  /** What the latest grant or revocation for the user on the file says; start, if there is none. */
  function Latest(es: seq<Event>, f: string, u: string, start: Option<Mode>): Option<Mode>
    decreases |es|
  {
    if es == [] then start
    else
      var e := es[|es| - 1];
      if e.GrantTo? && e.file == f && e.user == u then Some(e.mode)
      else if e.RevokeFrom? && e.file == f && e.user == u then None
      else Latest(es[..|es| - 1], f, u, start)
  }

  lemma {:induction false} LatestFirst(e: Event, es: seq<Event>, f: string, u: string, start: Option<Mode>)
    ensures Latest([e] + es, f, u, start) == Latest(es, f, u, Latest([e], f, u, start))
    decreases |es|
  {
    if es == [] {
      assert [e] + es == [e];
    } else {
      assert ([e] + es)[..|es|] == [e] + es[..|es| - 1];
      LatestFirst(e, es[..|es| - 1], f, u, start);
    }
  }

  /** A grant or a revocation on this file. */
  predicate Edits(e: Event, f: string) {
    (e.GrantTo? || e.RevokeFrom?) && e.file == f
  }

  function OpOf(e: Event): AccessOp
    requires e.GrantTo? || e.RevokeFrom?
  {
    if e.GrantTo? then AddUser(e.user, e.mode) else RemoveUser(e.user)
  }

  /** When its turn comes, every edit of the file's list hits the right entry, and every grant fits. */
  predicate EditsFit(list: string, es: seq<Entry>, f: string, events: seq<Event>)
    requires |list| <= LIST_LIMIT
    decreases |events|
  {
    events != [] ==>
      if Edits(events[0], f) then
        var op := OpOf(events[0]);
        && NamesUser(op) && HitsRight(es, op.user) && (op.AddUser? ==> GrantFits(list, op.user, op.mode))
        && EditsFit(Edit(list, op), EditEntries(es, op), f, events[1..])
      else EditsFit(list, es, f, events[1..])
  }

  predicate NotDeleted(f: string, es: seq<Event>) {
    forall i | 0 <= i < |es| :: !(es[i].DeleteFile? && es[i].file == f)
  }

  function RightIn(m: map<string, Mode>, u: string): Option<Mode> {
    if u in m then Some(m[u]) else None
  }

  /** Owner and list of a file that is not deleted: only an edit of its own list changes anything. */
  lemma FileAfterStep(s: Server, e: Event, f: string)
    requires Sized(s) && f in s.files && !(e.DeleteFile? && e.file == f)
    ensures f in Next(s, e).files && Next(s, e).files[f].owner == s.files[f].owner
    ensures Next(s, e).files[f].accessList
         == if Edits(e, f) then Edit(s.files[f].accessList, OpOf(e)) else s.files[f].accessList
  {
    hide CheckedSlots, Invalidate, Grant, Revoke, NewMeta;
  }

  lemma RightAfterStep(m: map<string, Mode>, e: Event, f: string, u: string)
    ensures Latest([e], f, u, RightIn(m, u)) == RightIn(if Edits(e, f) then EditMap(m, OpOf(e)) else m, u)
  {
    assert [e][..0] == [];
  }

  /** After any run the file has its owner, and its list gives every user what was last granted or revoked. */
  lemma {:induction false} ListFollowsRun(s: Server, events: seq<Event>, f: string, lead: bool, es: seq<Entry>,
                                          m: map<string, Mode>, u: string)
    requires Sized(s) && f in s.files && NotDeleted(f, events)
    requires IsListOf(s.files[f].accessList, lead, es) && Means(s.files[f].accessList, m)
    requires EditsFit(s.files[f].accessList, es, f, events)
    ensures var s' := Run(s, events);
            && f in s'.files && s'.files[f].owner == s.files[f].owner
            && Right(s'.files[f].accessList, u) == Latest(events, f, u, RightIn(m, u))
    decreases |events|
  {
    hide IsListOf, Right, Next, HitsRight, GrantFits, EditEntries, EditMap, NamesUser, Edit;
    if events != [] {
      var e, list := events[0], s.files[f].accessList;
      assert events == [e] + events[1..];
      FileAfterStep(s, e, f);
      LatestFirst(e, events[1..], f, u, RightIn(m, u));
      RightAfterStep(m, e, f, u);
      hide Latest, Means;
      if Edits(e, f) {
        var lead' := EditExactIff(list, lead, es, m, OpOf(e));
        ListFollowsRun(Next(s, e), events[1..], f, lead', EditEntries(es, OpOf(e)), EditMap(m, OpOf(e)), u);
      } else {
        ListFollowsRun(Next(s, e), events[1..], f, lead, es, m, u);
      }
    } else {
      assert Right(s.files[f].accessList, u) == RightIn(m, u);
    }
  }

  /** What a grant of this mode permits. */
  predicate Permits(right: Option<Mode>, need: Need) {
    right == Some(RW) || (right == Some(R) && need == Read)
  }

  lemma CreatedFile(s: Server, f: string, owner: string, events: seq<Event>) returns (s1: Server)
    requires Inv(s) && f !in s.files && |s.files| < 1000 && LegalRun(s, [CreateFile(f, owner)] + events)
    requires PlainName(owner) && |owner| <= 63
    ensures Sized(s1) && f in s1.files && s1.files[f] == FileMeta(owner, owner + ":RW")
    ensures Run(s, [CreateFile(f, owner)] + events) == Run(s1, events) && Run(s1, events).slots != []
    ensures Inv(Run(s1, events))
  {
    assert Sized(s);
    hide Inv, LegalRun;
    var all := [CreateFile(f, owner)] + events;
    assert all[0] == CreateFile(f, owner) && all[1..] == events;
    s1 := Next(s, CreateFile(f, owner));
    RunKeepsInv(s, all);
  }

  lemma RightOfOwner(owner: string, u: string)
    ensures RightIn(map[owner := RW], u) == if u == owner then Some(RW) else None
  {
  }

  lemma AsPermitted(s: Server, f: string, owner: string, u: string, need: Need)
    requires f in s.files && s.files[f].owner == owner
    ensures Permitted(s.files, f, u, need) <==> u == owner || Permits(Right(s.files[f].accessList, u), need)
  {
    AllowsIsPermits(Right(s.files[f].accessList, u), need);
  }

  lemma AllowsIsPermits(right: Option<Mode>, need: Need)
    ensures Allows(right, need) <==> Permits(right, need)
  {
    match right {
      case Some(R) =>
      case Some(RW) =>
      case None =>
    }
  }

  /**
   A file is created and any events follow, of any users on any files, in which its list is edited properly. Then a
   check of it grants nothing but what the latest grant or revocation for that user says (the owner may do
   everything), and it grants that, if the table has room.
   */
  lemma CheckFollowsLatest(s: Server, owner: string, events: seq<Event>, f: string, u: string, need: Need)
    requires Inv(s) && f !in s.files && |s.files| < 1000 && LegalRun(s, [CreateFile(f, owner)] + events)
    requires PlainName(owner) && |owner| <= 63 && NotDeleted(f, events)
    requires EditsFit(owner + ":RW", [Entry(owner, RW)], f, events)
    requires |f| <= 255 && |u| <= 63 && ':' !in u
    ensures var s' := Run(s, [CreateFile(f, owner)] + events);
            var right := Latest(events, f, u, if u == owner then Some(RW) else None);
            && s'.slots != [] && f in s'.files
            && (Granted(s'.slots, s'.files, f, u, need) ==> u == owner || Permits(right, need))
            && ((u == owner || Permits(right, need))
                && HasRoom(CheckedSlots(s'.slots, s'.files, f, u, need), Key(f, u))
                ==> Granted(s'.slots, s'.files, f, u, need))
  {
    assert Sized(s) && Short(f, u);
    hide *;
    var s1 := CreatedFile(s, f, owner, events);
    var s' := Run(s, [CreateFile(f, owner)] + events);
    OwnerList(owner);
    ListFollowsRun(s1, events, f, false, [Entry(owner, RW)], map[owner := RW], u);
    RightOfOwner(owner, u);
    CheckIsExact(s', f, u, need);
    AsPermitted(s', f, owner, u, need);
  }
}

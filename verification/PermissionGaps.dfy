/** Where a check and the access lists part, exactly. */
module PermissionGaps {
  import opened Text
  import opened CStrings
  import opened AccessList
  import opened AccessRights
  import opened CacheTable
  import opened PermissionLaws

  // Users whose name holds a colon, whose keys are those of other files, and files that take the name of a deleted one:
  // for both, what the next check answers, and a run from start-up that reaches a wrong answer.

  // ---------- user names with a colon ----------

  function LastColonAt(v: string): (i: nat)
    requires ':' in v
    ensures i < |v| && v[i] == ':' && ':' !in v[i + 1..]
  {
    if ':' in v[1..] then LastColonAt(v[1..]) + 1 else 0
  }

  /** The file and user that the key of f and v names: f + ":" + v split at its last colon. */
  function BorrowedFile(f: string, v: string): string
    requires ':' in v
  {
    f + ":" + v[..LastColonAt(v)]
  }

  function BorrowedUser(v: string): (u: string)
    requires ':' in v
    ensures ':' !in u
  {
    v[LastColonAt(v) + 1..]
  }

  lemma ColonSharesKey(f: string, v: string)
    requires ':' in v
    ensures Key(f, v) == Key(BorrowedFile(f, v), BorrowedUser(v))
    ensures |BorrowedFile(f, v)| + |BorrowedUser(v)| == |f| + |v| && |BorrowedUser(v)| < |v|
    ensures f != BorrowedFile(f, v)
  {
    var x, u := v[..LastColonAt(v)], BorrowedUser(v);
    assert v == x + ":" + u;
    assert f + ":" + (x + ":" + u) == f + ":" + x + ":" + u;
  }

  /** No list names a user with a colon. */
  lemma ColonUserNeverPermitted(files: Files, f: string, v: string, need: Need)
    requires ':' in v
    ensures Permitted(files, f, v, need) ==> files[f].owner == v
  {
    if f in files { RightHasNoColon(Tokens(files[f].accessList, ","), v); }
  }

  /** An entry found stays found with the same mode while other keys are stored. */
  lemma {:induction false} FoundStays(slots: Table, f: string, fields: seq<string>, key: string)
    requires slots != [] && Found(slots, key).Some?
    requires forall u | ':' !in u :: Key(f, u) != key
    ensures Found(Build(slots, f, fields), key) == Found(slots, key)
    decreases |fields|
  {
    if fields != [] {
      match FieldEntry(fields[0]) {
        case None =>
        case Some(e) =>
          PlaceStable(slots, key, Key(f, e.user), e.mode);
          StoredElsewhere(slots, key, Key(f, e.user), e.mode);
      }
      FoundStays(StoreField(slots, f, fields[0]), f, fields[1..], key);
    }
  }

  lemma StoredElsewhere(slots: Table, key: string, key2: string, mode2: Mode)
    requires slots != [] && key != key2 && Found(slots, key).Some?
    ensures var j := Place(slots, key).value; Store(slots, key2, mode2)[j] == slots[j]
  {
  }

  /** A lookup under the shared key finds what a list of the other file says or said. */
  lemma BorrowedStems(s: Server, slots: Table, f: string, v: string)
    requires slots != [] && Traced(s.(slots := slots)) && Short(f, v) && ':' in v && Found(slots, Key(f, v)).Some?
    ensures Stems(s, BorrowedFile(f, v), BorrowedUser(v), Found(slots, Key(f, v)).value)
  {
    var f2, u2 := BorrowedFile(f, v), BorrowedUser(v);
    ColonSharesKey(f, v);
    var i := Place(slots, Key(f, v)).value;
    var f3, u3 :| KeyOf(s.(slots := slots), slots[i].key, f3, u3);
    KeySplits(f2, u2, f3, u3);
    FoundStems(s, slots, f2, u2);
  }

  /** While no name is used again, a name has one list, so what stems from a list is what it says. */
  lemma StemsFromTheList(s: Server, f: string, u: string, mode: Mode, need: Need)
    requires NoReuse(s) && Stems(s, f, u, mode)
    ensures EverListed(s, f, u, need) <==> Allows(Some(mode), need)
  {
    hide Right, Allows;
    if f in s.gone {
      assert s.gone[f] == [s.gone[f][0]];
      if k :| 0 <= k < |s.gone[f]| && Allows(Right(s.gone[f][k], u), need) { assert k == 0; }
      if k :| 0 <= k < |s.gone[f]| && Right(s.gone[f][k], u) == Some(mode) { assert k == 0; }
    }
  }

  /** A rebuild of f does not touch the key it shares. */
  lemma RebuildKeepsBorrowed(s: Server, f: string, v: string)
    requires Inv(s) && Short(f, v) && ':' in v && f in s.files
    ensures var built := Build(s.slots, f, Tokens(s.files[f].accessList, ","));
            && Inv(s.(slots := built))
            && (Found(s.slots, Key(f, v)).Some? ==> Found(built, Key(f, v)) == Found(s.slots, Key(f, v)))
  {
    RebuildKeepsInv(s, f);
    ColonSharesKey(f, v);
    forall u | ':' !in u ensures Key(f, u) != Key(f, v) {
      if Key(f, u) == Key(f, v) { KeySplits(BorrowedFile(f, v), BorrowedUser(v), f, u); }
    }
    if Found(s.slots, Key(f, v)).Some? {
      FoundStays(s.slots, f, Tokens(s.files[f].accessList, ","), Key(f, v));
    }
  }

  /**
   A user whose name holds a colon and who does not own the file is permitted nothing, yet is granted whatever is
   found under the shared key before the check or after the rebuild of f, which may fill a hole in front of it.
   This is what the list of the other file, deleted or not, gives to the other user.
   */
  lemma ColonUserGrantedIff(s: Server, f: string, v: string, need: Need)
    requires Inv(s) && Short(f, v) && ':' in v && f in s.files && s.files[f].owner != v
    ensures var f2, u2 := BorrowedFile(f, v), BorrowedUser(v);
            var granted := Granted(s.slots, s.files, f, v, need);
            var before, after := Found(s.slots, Key(f2, u2)),
                                 Found(Build(s.slots, f, Tokens(s.files[f].accessList, ",")), Key(f2, u2));
            && !Permitted(s.files, f, v, need)
            && (granted <==> Allows(before, need) || Allows(after, need))
            && (before.Some? ==> after == before)
            && (granted <==> EverListed(s, f2, u2, need) && (before.Some? || after.Some?))
  {
    ColonUserNeverPermitted(s.files, f, v, need);
    ColonSharesKey(f, v);
    RebuildKeepsBorrowed(s, f, v);
    var built := Build(s.slots, f, Tokens(s.files[f].accessList, ","));
    var f2, u2 := BorrowedFile(f, v), BorrowedUser(v);
    hide Build, Found, Right, Key, EverListed, Stems, Traced, Agree, BorrowedFile;
    if Found(s.slots, Key(f, v)).Some? {
      BorrowedStems(s, s.slots, f, v);
      StemsFromTheList(s, f2, u2, Found(s.slots, Key(f, v)).value, need);
    }
    if Found(built, Key(f, v)).Some? {
      BorrowedStems(s, built, f, v);
      StemsFromTheList(s, f2, u2, Found(built, Key(f, v)).value, need);
    }
  }

  /** The pair of names that the key of f and v stands for. */
  function Named(f: string, v: string): (string, string) {
    if ':' in v then (BorrowedFile(f, v), BorrowedUser(v)) else (f, v)
  }

  lemma FoundIsListed(s: Server, slots: Table, f: string, v: string, need: Need)
    requires slots != [] && Traced(s.(slots := slots)) && Short(f, v) && Allows(Found(slots, Key(f, v)), need)
    ensures EverListed(s, Named(f, v).0, Named(f, v).1, need)
  {
    hide Traced, Found, Key, BorrowedFile, BorrowedUser;
    if ':' in v { BorrowedStems(s, slots, f, v); } else { FoundStems(s, slots, f, v); }
  }

  /**
   Over every run at all, for every user and whatever names are used again: what a check grants to anybody but the
   owner, some list of the file and user that the key names allows or has allowed.
   */
  lemma EveryGrantIsListed(es: seq<Event>, f: string, v: string, need: Need)
    requires FittingRun(es) && Short(f, v)
    ensures var s := Run(EmptyServer(), es);
            Granted(s.slots, s.files, f, v, need) ==>
              s.files[f].owner == v || EverListed(s, Named(f, v).0, Named(f, v).1, need)
  {
    RunKeepsTraced(EmptyServer(), es);
    var s := Run(EmptyServer(), es);
    hide Build, Found, Key, EverListed, Named, Run;
    if f in s.files {
      var built := Build(s.slots, f, Tokens(s.files[f].accessList, ","));
      RebuildKeepsTraced(s, f);
      if Allows(Found(s.slots, Key(f, v)), need) { FoundIsListed(s, s.slots, f, v, need); }
      if Allows(Found(built, Key(f, v)), need) { FoundIsListed(s, built, f, v, need); }
    }
  }

  predicate NoDeletion(es: seq<Event>) {
    forall i | 0 <= i < |es| :: !es[i].DeleteFile?
  }

  lemma {:induction false} NothingGone(s: Server, es: seq<Event>)
    requires Sized(s) && NoDeletion(es)
    ensures Run(s, es).gone == s.gone
    decreases |es|
  {
    if es != [] { NothingGone(Next(s, es[0]), es[1..]); }
  }

  /** Over every run without deletions, such a user is only ever granted what another file's list allows. */
  lemma ColonUserOverRuns(es: seq<Event>, f: string, v: string, need: Need)
    requires LegalRun(EmptyServer(), es) && NoDeletion(es) && Short(f, v) && ':' in v
    ensures var s := Run(EmptyServer(), es);
            Granted(s.slots, s.files, f, v, need) && !Permitted(s.files, f, v, need) ==>
              Permitted(s.files, BorrowedFile(f, v), BorrowedUser(v), need)
  {
    RunKeepsInv(EmptyServer(), es);
    NothingGone(EmptyServer(), es);
    var s := Run(EmptyServer(), es);
    if f in s.files && s.files[f].owner != v { ColonUserGrantedIff(s, f, v, need); }
  }

  // ---------- names of deleted files ----------

  lemma FieldEntryOf(e: Entry)
    requires PlainName(e.user)
    ensures FieldEntry(EntryText(e)) == Some(e)
  {
    IndexOfExact(e.user, ':', ":" + ModeText(e.mode));
    assert e.user + (":" + ModeText(e.mode)) == EntryText(e);
    assert EntryText(e)[..|e.user|] == e.user && EntryText(e)[|e.user| + 1..] == ModeText(e.mode);
  }

  /** A rebuild of a new file stores its owner's entry. */
  lemma BuildOfNewFile(slots: Table, f: string, owner: string)
    requires slots != [] && PlainName(owner) && |owner| <= USER_LIMIT
    ensures NewMeta(owner) == FileMeta(owner, owner + ":RW")
    ensures Build(slots, f, Tokens(owner + ":RW", ",")) == Store(slots, Key(f, owner), RW)
    ensures forall u :: Right(owner + ":RW", u) == if u == owner then Some(RW) else None
  {
    var e := Entry(owner, RW);
    OwnerList(owner);
    assert Means(owner + ":RW", map[owner := RW]);
    assert Texts([e]) == [EntryText(e)];
    TokensOfEntries(false, [e]);
    FieldEntryOf(e);
    var rest := [EntryText(e)][1..];
    assert rest == [];
    assert Build(StoreField(slots, f, EntryText(e)), f, []) == Store(slots, Key(f, owner), RW);
  }

  /**
   Deleting a file leaves its entries in the table. When a file of the same name is created, a user other than
   its owner is permitted nothing, and the next check grants it exactly if its key is found with enough mode as
   the table stands or once the owner's entry is stored, which may fill a hole in front of a stale one.
   */
  lemma RecreatedFileGrantsIff(s: Server, f: string, owner: string, u: string, need: Need)
    requires Sized(s) && f !in s.files && |s.files| < MAX_FILES
    requires Short(f, owner) && Short(f, u) && PlainName(owner) && ':' !in u && u != owner
    ensures var s', key := Next(s, CreateFile(f, owner)), Key(f, u);
            var before, after := Found(s.slots, key), Found(Store(s.slots, Key(f, owner), RW), key);
            && !Permitted(s'.files, f, u, need)
            && (Granted(s'.slots, s'.files, f, u, need) <==> Allows(before, need) || Allows(after, need))
            && (before.Some? ==> after == before)
  {
    BuildOfNewFile(s.slots, f, owner);
    if Key(f, u) == Key(f, owner) { KeyInjective(f, u, f, owner); }
    PlaceStable(s.slots, Key(f, u), Key(f, owner), RW);
    if Found(s.slots, Key(f, u)).Some? { StoredElsewhere(s.slots, Key(f, u), Key(f, owner), RW); }
    hide Build, Found, Store, Key, Tokens, Right;
  }

  /** What is found about a user of a name that is not in use stems from the list of the deleted file. */
  lemma StaleStems(s: Server, f: string, owner: string, u: string)
    requires Inv(s) && f !in s.files && Short(f, owner) && Short(f, u) && ':' !in owner && ':' !in u && u != owner
    ensures var key := Key(f, u);
            var before, after := Found(s.slots, key), Found(Store(s.slots, Key(f, owner), RW), key);
            && (before.Some? ==> Stems(s, f, u, before.value))
            && (after.Some? ==> Stems(s, f, u, after.value))
  {
    var key, slots := Key(f, u), Store(s.slots, Key(f, owner), RW);
    if Found(s.slots, key).Some? { FoundStems(s, s.slots, f, u); }
    if key == Key(f, owner) { KeyInjective(f, u, f, owner); }
    if Found(slots, key).Some? {
      var i := Place(slots, key).value;
      assert slots[i] == s.slots[i];
      assert Says(s.slots, i, f, u);
    }
  }

  /**
   The same law on the lists: a user other than the new owner is granted exactly what the list of the deleted file
   gave to it in the end, when that entry is found before the owner's is stored or after.
   */
  lemma RecreatedFileFollowsOldList(s: Server, f: string, owner: string, u: string, need: Need)
    requires Inv(s) && f !in s.files && |s.files| < MAX_FILES
    requires Short(f, owner) && Short(f, u) && PlainName(owner) && ':' !in u && u != owner
    ensures var s', key := Next(s, CreateFile(f, owner)), Key(f, u);
            var before, after := Found(s.slots, key), Found(Store(s.slots, Key(f, owner), RW), key);
            && !Permitted(s'.files, f, u, need)
            && (Granted(s'.slots, s'.files, f, u, need)
                <==> && f in s.gone && Allows(Right(Last(s.gone[f]), u), need)
                     && (before.Some? || after.Some?))
  {
    RecreatedFileGrantsIff(s, f, owner, u, need);
    PlainHasNoColon(owner);
    StaleStems(s, f, owner, u);
    var key := Key(f, u);
    var before, after := Found(s.slots, key), Found(Store(s.slots, Key(f, owner), RW), key);
    hide Found, Store, Key, Stems, EverListed, Granted, Permitted, Next, Traced, Agree;
    if before.Some? { StemsFromTheList(s, f, u, before.value, need); }
    if after.Some? { StemsFromTheList(s, f, u, after.value, need); }
    OnlyOldList(s, f, u, need);
  }

  lemma OnlyOldList(s: Server, f: string, u: string, need: Need)
    requires NoReuse(s) && f !in s.files
    ensures EverListed(s, f, u, need) <==> f in s.gone && Allows(Right(Last(s.gone[f]), u), need)
  {
  }

  /** So it is after every run, the first time a name is used again. */
  lemma RecreatedOverRuns(es: seq<Event>, f: string, owner: string, u: string, need: Need)
    requires LegalRun(EmptyServer(), es) && Short(f, owner) && Short(f, u)
    requires f !in Run(EmptyServer(), es).files && |Run(EmptyServer(), es).files| < MAX_FILES
    requires PlainName(owner) && ':' !in u && u != owner
    ensures var s, key := Run(EmptyServer(), es), Key(f, u);
            var s', before := Next(s, CreateFile(f, owner)), Found(s.slots, key);
            var after := Found(Store(s.slots, Key(f, owner), RW), key);
            Granted(s'.slots, s'.files, f, u, need)
            <==> EverListed(s, f, u, need) && (before.Some? || after.Some?)
  {
    RunKeepsInv(EmptyServer(), es);
    var s := Run(EmptyServer(), es);
    hide Run, LegalRun, Found, Store, Key, Granted, Permitted, Right, Traced, Agree, Place, Next, EverListed;
    RecreatedFileFollowsOldList(s, f, owner, u, need);
    OnlyOldList(s, f, u, need);
  }

  // ---------- runs that reach the wrong answers ----------

  lemma {:induction false} RunAppend(s: Server, a: seq<Event>, b: seq<Event>)
    requires Sized(s)
    ensures Run(s, a + b) == Run(Run(s, a), b)
    decreases |a|
  {
    if a == [] {
      assert a + b == b;
    } else {
      assert (a + b)[0] == a[0] && (a + b)[1..] == a[1..] + b;
      RunAppend(Next(s, a[0]), a[1..], b);
    }
  }

  lemma RunOne(s: Server, e: Event)
    requires Sized(s)
    ensures Run(s, [e]) == Next(s, e)
  {
    assert [e][1..] == [];
  }

  lemma RunThree(s: Server, a: Event, b: Event, c: Event)
    requires Sized(s)
    ensures Run(s, [a] + [b] + [c]) == Next(Next(Next(s, a), b), c)
  {
    hide Next;
    RunAppend(s, [a] + [b], [c]);
    RunAppend(s, [a], [b]);
    RunOne(s, a);
    RunOne(Next(s, a), b);
    RunOne(Next(Next(s, a), b), c);
  }

  ghost predicate AllFree(slots: Table) {
    |slots| >= 3 && forall i | 0 <= i < |slots| :: !slots[i].valid
  }

  /** While at most one slot is taken, every key has a place. */
  lemma PlaceNearlyEmpty(slots: Table, key: string, j: nat)
    requires |slots| >= 3 && forall i | 0 <= i < |slots| && i != j :: !slots[i].valid
    ensures Place(slots, key).Some?
  {
    var n, home := |slots|, Home(|slots|, key);
    assert (home + 1) % n != (home + 2) % n by {
      WrapAround(home, 1, n, if home + 1 < n then home + 1 else home + 1 - n);
      WrapAround(home, 2, n, if home + 2 < n then home + 2 else home + 2 - n);
    }
    assert Probe(slots, home, key, 2) == Some((home + 2) % n) || (home + 2) % n == j;
    assert Probe(slots, home, key, 1) == Some((home + 1) % n) || (home + 1) % n == j;
  }

  lemma FoundWhenStored(slots: Table, key: string, mode: Mode)
    requires slots != [] && Place(slots, key).Some?
    ensures Found(Store(slots, key, mode), key) == Some(mode)
  {
    PlaceAfter(slots, key, mode);
  }

  lemma BuildPair(slots: Table, f: string, a: string, b: string)
    requires slots != []
    ensures Build(slots, f, [a, b]) == StoreField(StoreField(slots, f, a), f, b)
  {
    hide StoreField;
    assert [a, b][1..] == [b] && [b][1..] == [];
    assert Build(StoreField(StoreField(slots, f, a), f, b), f, []) == StoreField(StoreField(slots, f, a), f, b);
  }

  /** Both entries of a fresh list are found after a rebuild on a free table. */
  lemma BuildTwo(slots: Table, f: string, e: Entry, e2: Entry)
    requires AllFree(slots) && PlainName(e.user) && PlainName(e2.user)
    ensures Found(Build(slots, f, [EntryText(e), EntryText(e2)]), Key(f, e2.user)) == Some(e2.mode)
  {
    hide Found, Key, EntryText, FieldEntry, PlainName, Probe;
    FieldEntryOf(e);
    FieldEntryOf(e2);
    var one := Store(slots, Key(f, e.user), e.mode);
    BuildPair(slots, f, EntryText(e), EntryText(e2));
    assert |one| == |slots|;
    hide StoreField, Home;
    var j := if Place(slots, Key(f, e.user)).Some? then Place(slots, Key(f, e.user)).value else 0;
    PlaceNearlyEmpty(one, Key(f, e2.user), j);
    FoundWhenStored(one, Key(f, e2.user), e2.mode);
  }

  /** A grant to u on a file that lists only its owner. */
  lemma GrantOnNewFile(o: string, u: string, mode: Mode)
    requires PlainName(o) && PlainName(u) && |o| <= USER_LIMIT && |u| <= USER_LIMIT && !EndsWith(o, u)
    requires GrantFits(o + ":RW", u, mode)
    ensures IsListOf(Grant(o + ":RW", u, mode), false, [Entry(o, RW), Entry(u, mode)])
  {
    var es := [Entry(o, RW)];
    OwnerList(o);
    assert HitsRight(es, u) by { assert forall i | 0 <= i < |es| :: !EndsWith(es[i].user, u); }
    WithoutNothing(es, u);
    GrantKeepsList(o + ":RW", false, es, u, mode);
    assert es + [Entry(u, mode)] == [Entry(o, RW), Entry(u, mode)];
  }

  /** Create, grant, check: the grant is in the table. */
  function GrantAndCheck(f: string, o: string, u: string, mode: Mode): seq<Event> {
    [CreateFile(f, o)] + [GrantTo(f, u, mode)] + [Check(f, u, Read)]
  }

  lemma CreatedAndGranted(s: Server, f: string, o: string, u: string, mode: Mode) returns (s2: Server)
    requires Sized(s) && AllFree(s.slots) && f !in s.files && |s.files| < MAX_FILES && |o| <= USER_LIMIT
    ensures s2 == Next(Next(s, CreateFile(f, o)), GrantTo(f, u, mode))
    ensures Sized(s2) && AllFree(s2.slots) && s2.gone == s.gone
    ensures s2.files.Keys == s.files.Keys + {f} && forall g | g in s.files :: s2.files[g] == s.files[g]
    ensures s2.files[f].owner == o && s2.files[f].accessList == Grant(o + ":RW", u, mode)
  {
    hide *;
    CreatedAlone(s, f, o);
    var s1 := Next(s, CreateFile(f, o));
    GrantedAlone(s1, f, u, mode);
    s2 := Next(s1, GrantTo(f, u, mode));
    SetTwice(s.files, f, s1.files[f], s2.files[f]);
  }

  lemma SetTwice(files: Files, f: string, a: FileMeta, b: FileMeta)
    requires f !in files
    ensures files[f := a][f := b].Keys == files.Keys + {f}
    ensures forall g | g in files :: files[f := a][f := b][g] == files[g]
  {
  }

  lemma CreatedAlone(s: Server, f: string, o: string)
    requires Sized(s) && f !in s.files && |s.files| < MAX_FILES && |o| <= USER_LIMIT
    ensures Next(s, CreateFile(f, o)) == s.(files := s.files[f := FileMeta(o, o + ":RW")])
  {
  }

  lemma GrantedAlone(s: Server, f: string, u: string, mode: Mode)
    requires Sized(s) && AllFree(s.slots) && f in s.files
    ensures var s2 := Next(s, GrantTo(f, u, mode));
            && AllFree(s2.slots) && s2.gone == s.gone
            && s2.files == s.files[f := s.files[f].(accessList := Grant(s.files[f].accessList, u, mode))]
  {
    hide Grant;
  }

  /** A check by the second user listed, on a table that is free. */
  lemma CheckCaches(s: Server, f: string, o: string, u: string, mode: Mode)
    requires Sized(s) && AllFree(s.slots) && f in s.files && s.files[f].owner == o != u
    requires PlainName(o) && PlainName(u) && IsListOf(s.files[f].accessList, false, [Entry(o, RW), Entry(u, mode)])
    ensures var r := Next(s, Check(f, u, Read));
            r.files == s.files && r.gone == s.gone && Found(r.slots, Key(f, u)) == Some(mode)
  {
    hide Build, Found, Key, Tokens, PlainName, GoodEntries, Listed, EntryText;
    var es := [Entry(o, RW), Entry(u, mode)];
    TokensOfEntries(false, es);
    assert Texts(es) == [EntryText(es[0]), EntryText(es[1])];
    BuildTwo(s.slots, f, es[0], es[1]);
    FreeTableFindsNothing(s.slots, Key(f, u));
  }

  lemma GrantAndCheckRuns(s: Server, f: string, o: string, u: string, mode: Mode)
    requires Sized(s)
    ensures Run(s, GrantAndCheck(f, o, u, mode))
         == Next(Next(Next(s, CreateFile(f, o)), GrantTo(f, u, mode)), Check(f, u, Read))
  {
    hide Next, Run;
    RunThree(s, CreateFile(f, o), GrantTo(f, u, mode), Check(f, u, Read));
  }

  lemma CachedAfterGrant(s: Server, f: string, o: string, u: string, mode: Mode)
    requires Sized(s) && AllFree(s.slots) && f !in s.files && |s.files| < MAX_FILES
    requires PlainName(o) && PlainName(u) && |o| <= USER_LIMIT && |u| <= USER_LIMIT && !EndsWith(o, u)
    requires GrantFits(o + ":RW", u, mode)
    ensures var r := Run(s, GrantAndCheck(f, o, u, mode));
            && r.files.Keys == s.files.Keys + {f} && r.gone == s.gone
            && (forall g | g in s.files :: r.files[g] == s.files[g])
            && Found(r.slots, Key(f, u)) == Some(mode)
  {
    hide *;
    NotOwner(o, u);
    var s2 := CreatedAndGranted(s, f, o, u, mode);
    GrantOnNewFile(o, u, mode);
    GrantAndCheckRuns(s, f, o, u, mode);
    CheckCaches(s2, f, o, u, mode);
  }

  lemma PlainHasNoColon(u: string)
    ensures PlainName(u) ==> ':' !in u
  {
  }

  lemma JoinedKeys(f: string, x: string, u: string)
    ensures Key(f, x + ":" + u) == Key(f + ":" + x, u) && ':' in x + ":" + u
  {
    assert f + ":" + (x + ":" + u) == f + ":" + x + ":" + u;
    assert (x + ":" + u)[|x|] == ':';
  }

  lemma NotOwner(o: string, u: string)
    requires !EndsWith(o, u)
    ensures o != u
  {
  }

  lemma FreeTableFindsNothing(slots: Table, key: string)
    requires AllFree(slots)
    ensures Found(slots, key) == None
  {
  }

  lemma FirstFile(f: string, owner: string)
    requires |owner| <= USER_LIMIT
    ensures var s := Next(EmptyServer(), CreateFile(f, owner));
            && AllFree(s.slots) && s.gone == map[] && s.files.Keys == {f} && |s.files| == 1 && s.files[f].owner == owner
  {
  }

  lemma AfterDelete(s: Server, f: string)
    requires Sized(s) && f in s.files
    ensures Next(s, DeleteFile(f)) == s.(files := s.files - {f}, gone := Buried(s.gone, f, s.files[f].accessList))
  {
  }

  lemma EmptyServerIsFree()
    ensures AllFree(EmptyServer().slots) && EmptyServer().gone == map[]
    ensures EmptyServer().files == map[] && |EmptyServer().files| == 0
  {
  }

  lemma FoundIsBorrowed(s: Server, f: string, x: string, u: string)
    requires Sized(s) && f in s.files && s.files[f].owner != x + ":" + u && Found(s.slots, Key(f + ":" + x, u)).Some?
    ensures Granted(s.slots, s.files, f, x + ":" + u, Read) && !Permitted(s.files, f, x + ":" + u, Read)
  {
    hide Found, Key, CheckedSlots;
    JoinedKeys(f, x, u);
    ColonUserNeverPermitted(s.files, f, x + ":" + u, Read);
  }

  /**
   From start-up: two files whose names differ by ":" + x, a grant on the longer one and a check of it. Then the
   user x + ":" + u, whom nobody granted anything, may read the shorter one.
   */
  lemma ColonUserBorrows(f: string, x: string, a: string, o: string, u: string, mode: Mode)
    requires |f + ":" + x| <= FILENAME_LIMIT && |x + ":" + u| <= USER_LIMIT && |a| <= USER_LIMIT && a != x + ":" + u
    requires PlainName(o) && PlainName(u) && |o| <= USER_LIMIT && !EndsWith(o, u) && GrantFits(o + ":RW", u, mode)
    ensures var es := [CreateFile(f, a)] + GrantAndCheck(f + ":" + x, o, u, mode);
            var s := Run(EmptyServer(), es);
            && LegalRun(EmptyServer(), es)
            && Granted(s.slots, s.files, f, x + ":" + u, Read) && !Permitted(s.files, f, x + ":" + u, Read)
  {
    hide Next, CheckedSlots, LegalRun, Run, Grant, Build, Found, Key, EndsWith, GrantFits, PlainName, AllFree, Granted,
         Permitted, EmptyServer;
    var c, rest := CreateFile(f, a), GrantAndCheck(f + ":" + x, o, u, mode);
    RunAppend(EmptyServer(), [c], rest);
    RunOne(EmptyServer(), c);
    var s1 := Next(EmptyServer(), c);
    FirstFile(f, a);
    assert f != f + ":" + x by { assert |f| < |f + ":" + x|; }
    CachedAfterGrant(s1, f + ":" + x, o, u, mode);
    EmptyServerIsFree();
    BorrowingIsLegal(f, x, a, o, u, mode);
    FoundIsBorrowed(Run(s1, rest), f, x, u);
  }

  lemma BorrowingIsLegal(f: string, x: string, a: string, o: string, u: string, mode: Mode)
    requires |f + ":" + x| <= FILENAME_LIMIT
    ensures LegalRun(EmptyServer(), [CreateFile(f, a)] + GrantAndCheck(f + ":" + x, o, u, mode))
  {
    hide LegalRun;
    LegalWhileNothingGone(EmptyServer(), [CreateFile(f, a)] + GrantAndCheck(f + ":" + x, o, u, mode));
  }

  lemma {:induction false} LegalWhileNothingGone(s: Server, es: seq<Event>)
    requires Sized(s) && s.gone == map[] && NoDeletion(es)
    requires forall i | 0 <= i < |es| :: |es[i].file| <= FILENAME_LIMIT
    ensures LegalRun(s, es)
    decreases |es|
  {
    if es != [] { LegalWhileNothingGone(Next(s, es[0]), es[1..]); }
  }

  /**
   From start-up: create, grant, check, delete, create again by somebody else. The user of the first file may
   still read the second one.
   */
  lemma OldGrantSurvives(f: string, o: string, u: string, mode: Mode, o2: string)
    requires Short(f, o2) && PlainName(o2) && u != o2 && |u| <= USER_LIMIT
    requires PlainName(o) && PlainName(u) && |o| <= USER_LIMIT && !EndsWith(o, u) && GrantFits(o + ":RW", u, mode)
    ensures var es := GrantAndCheck(f, o, u, mode) + [DeleteFile(f)] + [CreateFile(f, o2)];
            var s := Run(EmptyServer(), es);
            Granted(s.slots, s.files, f, u, Read) && !Permitted(s.files, f, u, Read)
  {
    hide Next, CheckedSlots, LegalRun, Run, Grant, Build, Found, Key, EndsWith, GrantFits, PlainName, AllFree, Granted,
         Permitted;
    var es, d, c := GrantAndCheck(f, o, u, mode), DeleteFile(f), CreateFile(f, o2);
    RunAppend(EmptyServer(), es + [d], [c]);
    RunAppend(EmptyServer(), es, [d]);
    EmptyServerIsFree();
    CachedAfterGrant(EmptyServer(), f, o, u, mode);
    var s1 := Run(EmptyServer(), es);
    RunOne(s1, d);
    var s2 := Next(s1, d);
    AfterDelete(s1, f);
    RunOne(s2, c);
    assert s2.files.Keys == {};
    PlainHasNoColon(u);
    RecreatedFileGrantsIff(s2, f, o2, u, Read);
  }
}

/** Checks, grants, revocations and file creation as steps. */
module PermissionLaws {
  import opened Text
  import opened CStrings
  import opened AccessList
  import opened AccessRights
  import opened CacheTable

  // The steps act on the metadata and the permission cache. Over every run that does not reuse a deleted name, a check
  // answers what owner and access list say; over the others it may also answer what a deleted file's list said.

  /** The access required: bit 1 or bit 2 of an access type, where R is 1 and RW is 3. */
  datatype Need = Read | Write

  predicate Allows(right: Option<Mode>, need: Need) {
    right.Some? && (need == Read || right.value == RW)
  }

  const MAX_FILES: nat := 1000

  /** Per name, the access lists that deleted files of that name had in the end, the latest one last. */
  type Past = map<string, seq<string>>

  /** gone is history; the server does not keep it. */
  datatype Server = Server(slots: Table, files: Files, gone: Past)

  function Buried(gone: Past, f: string, list: string): Past {
    gone[f := (if f in gone then gone[f] else []) + [list]]
  }

  /** What owner and access list say. */
  predicate Permitted(files: Files, f: string, u: string, need: Need) {
    f in files && (files[f].owner == u || Allows(Right(files[f].accessList, u), need))
  }

  /** The table a check leaves behind: rebuilt if the first lookup did not grant. */
  function CheckedSlots(slots: Table, files: Files, f: string, u: string, need: Need): (r: Table)
    requires slots != []
    ensures |r| == |slots|
  {
    if f !in files || files[f].owner == u || Allows(Found(slots, Key(f, u)), need) then slots
    else Build(slots, f, Tokens(Truncate(files[f].accessList, LIST_LIMIT), ","))
  }

  /** has_read_access_ll and has_write_access_ll */
  function Granted(slots: Table, files: Files, f: string, u: string, need: Need): bool
    requires slots != []
  {
    f in files
    && (files[f].owner == u
        || Allows(Found(slots, Key(f, u)), need)
        || Allows(Found(CheckedSlots(slots, files, f, u, need), Key(f, u)), need))
  }

  function NewMeta(owner: string): FileMeta {
    FileMeta(Truncate(owner, USER_LIMIT), Truncate(owner + ":RW", LIST_LIMIT))
  }

  datatype Event =
    | Check(file: string, user: string, need: Need)
    | GrantTo(file: string, user: string, mode: Mode)
    | RevokeFrom(file: string, user: string)
    | CreateFile(file: string, user: string)
    | DeleteFile(file: string)

  /** The buffers: a table of slots, and access lists that fit theirs. */
  ghost predicate Sized(s: Server) {
    s.slots != [] && forall f | f in s.files :: |s.files[f].accessList| <= LIST_LIMIT
  }

  function Next(s: Server, e: Event): (r: Server)
    requires Sized(s)
    ensures Sized(r) && |r.slots| == |s.slots|
  {
    if e.CreateFile? then
      if e.file in s.files || |s.files| >= MAX_FILES then s else s.(files := s.files[e.file := NewMeta(e.user)])
    else if e.file !in s.files then s
    else match e
      case Check(f, u, need) => s.(slots := CheckedSlots(s.slots, s.files, f, u, need))
      case GrantTo(f, u, mode) =>
        var meta := s.files[f];
        s.(slots := Invalidate(s.slots, f), files := s.files[f := meta.(accessList := Grant(meta.accessList, u, mode))])
      case RevokeFrom(f, u) =>
        var meta := s.files[f];
        s.(slots := Invalidate(s.slots, f), files := s.files[f := meta.(accessList := Revoke(meta.accessList, u))])
      case DeleteFile(f) => s.(files := s.files - {f}, gone := Buried(s.gone, f, s.files[f].accessList))
  }

  /** A key made of a file name that is or was in use and a user name without colon. */
  ghost predicate KeyOf(s: Server, key: string, f: string, u: string) {
    key == Key(f, u) && |f| <= FILENAME_LIMIT && ':' !in u && (f in s.files || f in s.gone)
  }

  /** The table has no other keys; those of a list's overlong names may be cut. */
  ghost predicate KeysKnown(s: Server) {
    forall i | 0 <= i < |s.slots| && s.slots[i].valid :: exists f, u :: KeyOf(s, s.slots[i].key, f, u)
  }

  /** The mode is what the file's list says about the user, or what the list of a deleted file of that name said. */
  ghost predicate Stems(s: Server, f: string, u: string, mode: Mode) {
    || (f in s.files && Right(s.files[f].accessList, u) == Some(mode))
    || (f in s.gone && exists k :: 0 <= k < |s.gone[f]| && Right(s.gone[f][k], u) == Some(mode))
  }

  /** Every entry in the table, reachable or stale, stems from a list. */
  ghost predicate Traced(s: Server) {
    && Sized(s) && KeysKnown(s)
    && (forall f | f in s.files :: |f| <= FILENAME_LIMIT)
    && (forall i: nat, f, u | Says(s.slots, i, f, u) :: Stems(s, f, u, s.slots[i].mode))
  }

  /** No file has the name of a deleted one. */
  ghost predicate NoReuse(s: Server) {
    && (forall f | f in s.files :: f !in s.gone)
    && (forall f | f in s.gone :: |s.gone[f]| == 1)
  }

  /** Then the cache agrees with the lists. */
  ghost predicate Inv(s: Server) {
    Traced(s) && NoReuse(s) && Agree(s.slots, s.files)
  }

  lemma TracedAgrees(s: Server)
    requires Traced(s) && NoReuse(s)
    ensures Inv(s)
  {
    forall i: nat, f, u | Says(s.slots, i, f, u) && f in s.files
      ensures Right(s.files[f].accessList, u) == Some(s.slots[i].mode)
    {
      assert Stems(s, f, u, s.slots[i].mode);
    }
  }

  /** Names fit their message fields. */
  predicate Fitting(e: Event) {
    |e.file| <= FILENAME_LIMIT
  }

  /** Moreover, a new file does not take a deleted file's name. */
  predicate Legal(s: Server, e: Event) {
    Fitting(e) && (e.CreateFile? ==> e.file !in s.gone)
  }

  /** A rebuild of f only adds keys of f. */
  lemma {:induction false} BuildKeys(slots: Table, f: string, fields: seq<string>, i: nat)
    returns (kept: bool, u: string)
    requires slots != [] && i < |slots| && Build(slots, f, fields)[i].valid
    ensures kept ==> slots[i].valid && Build(slots, f, fields)[i].key == slots[i].key
    ensures !kept ==> Build(slots, f, fields)[i].key == Key(f, u) && ':' !in u
    decreases |fields|
  {
    kept, u := true, "";
    if fields != [] {
      kept, u := BuildKeys(StoreField(slots, f, fields[0]), f, fields[1..], i);
      match FieldEntry(fields[0]) {
        case None =>
        case Some(e) => if kept && Place(slots, Key(f, e.user)) == Some(i) { kept, u := false, e.user; }
      }
    }
  }

  /** A check may add entries; they stem from the list it reads. */
  lemma RebuildKeepsTraced(s: Server, f: string)
    requires Traced(s) && f in s.files
    ensures Traced(s.(slots := Build(s.slots, f, Tokens(s.files[f].accessList, ","))))
  {
    var fields := Tokens(s.files[f].accessList, ",");
    var s' := s.(slots := Build(s.slots, f, fields));
    forall i | 0 <= i < |s'.slots| && s'.slots[i].valid ensures exists f2, u2 :: KeyOf(s', s'.slots[i].key, f2, u2) {
      var kept, v := BuildKeys(s.slots, f, fields, i);
      if kept {
        var f2, u2 :| KeyOf(s, s.slots[i].key, f2, u2);
        assert KeyOf(s', s'.slots[i].key, f2, u2);
      } else {
        assert KeyOf(s', s'.slots[i].key, f, v);
      }
    }
    forall i: nat, f2, u | Says(s'.slots, i, f2, u) ensures Stems(s', f2, u, s'.slots[i].mode) {
      BuildOrigin(s.slots, f, fields, i, f2, u);
      if s'.slots[i] == s.slots[i] { assert Says(s.slots, i, f2, u); }
    }
  }

  lemma RebuildKeepsInv(s: Server, f: string)
    requires Inv(s) && f in s.files
    ensures Inv(s.(slots := Build(s.slots, f, Tokens(s.files[f].accessList, ","))))
  {
    RebuildKeepsTraced(s, f);
    TracedAgrees(s.(slots := Build(s.slots, f, Tokens(s.files[f].accessList, ","))));
  }

  /** Slots are only dropped, no name is forgotten, and what the others are about stays. */
  lemma DroppingKeepsTraced(s: Server, s': Server)
    requires Traced(s) && Sized(s') && |s'.slots| == |s.slots|
    requires s.files.Keys + s.gone.Keys <= s'.files.Keys + s'.gone.Keys
    requires forall f | f in s'.files :: |f| <= FILENAME_LIMIT
    requires forall i | 0 <= i < |s.slots| && s'.slots[i].valid :: s'.slots[i] == s.slots[i]
    requires forall i: nat, f, u | Says(s'.slots, i, f, u) && Stems(s, f, u, s.slots[i].mode) ::
               Stems(s', f, u, s'.slots[i].mode)
    ensures Traced(s')
  {
    forall i | 0 <= i < |s'.slots| && s'.slots[i].valid ensures exists f, u :: KeyOf(s', s'.slots[i].key, f, u) {
      var f, u :| KeyOf(s, s.slots[i].key, f, u);
      assert f in s.files.Keys + s.gone.Keys;
      assert KeyOf(s', s'.slots[i].key, f, u);
    }
    forall i: nat, f, u | Says(s'.slots, i, f, u) ensures Stems(s', f, u, s'.slots[i].mode) {
      assert Says(s.slots, i, f, u);
    }
  }

  lemma EditKeepsTraced(s: Server, f: string, meta: FileMeta)
    requires Traced(s) && f in s.files && |meta.accessList| <= LIST_LIMIT
    ensures Traced(s.(slots := Invalidate(s.slots, f), files := s.files[f := meta]))
  {
    var s' := s.(slots := Invalidate(s.slots, f), files := s.files[f := meta]);
    forall i: nat, u ensures !Says(s'.slots, i, f, u) {
      if i < |s.slots| && Short(f, u) { OwnKeyDropped(s.slots[i], f, u); }
    }
    DroppingKeepsTraced(s, s');
  }

  lemma CreateKeepsTraced(s: Server, f: string, owner: string)
    requires Traced(s) && f !in s.files && |f| <= FILENAME_LIMIT
    ensures Traced(s.(files := s.files[f := NewMeta(owner)]))
  {
    DroppingKeepsTraced(s, s.(files := s.files[f := NewMeta(owner)]));
  }

  /** The list of a deleted file is remembered, and so is what stems from it. */
  lemma DeleteKeepsTraced(s: Server, f: string)
    requires Traced(s) && f in s.files
    ensures Traced(s.(files := s.files - {f}, gone := Buried(s.gone, f, s.files[f].accessList)))
  {
    var s' := s.(files := s.files - {f}, gone := Buried(s.gone, f, s.files[f].accessList));
    forall f2, u, mode | Stems(s, f2, u, mode) ensures Stems(s', f2, u, mode) {
      if f2 in s.files && Right(s.files[f2].accessList, u) == Some(mode) {
        if f2 == f { assert s'.gone[f][|s'.gone[f]| - 1] == s.files[f].accessList; }
      } else {
        var k :| 0 <= k < |s.gone[f2]| && Right(s.gone[f2][k], u) == Some(mode);
        assert s'.gone[f2][k] == s.gone[f2][k];
      }
    }
    DroppingKeepsTraced(s, s');
  }

  /** Every step keeps every entry traced, names used again or not. */
  lemma NextKeepsTraced(s: Server, e: Event)
    requires Traced(s) && Fitting(e)
    ensures Traced(Next(s, e))
  {
    hide Traced, Invalidate, Grant, Revoke, Build, NewMeta, Buried;
    assert Sized(s) by { TracedIsSized(s); }
    if e.CreateFile? {
      if e.file !in s.files { CreateKeepsTraced(s, e.file, e.user); }
    } else if e.file in s.files {
      match e {
        case Check(f, u, need) => RebuildKeepsTraced(s, f);
        case GrantTo(f, u, mode) =>
          EditKeepsTraced(s, f, s.files[f].(accessList := Grant(s.files[f].accessList, u, mode)));
        case RevokeFrom(f, u) =>
          EditKeepsTraced(s, f, s.files[f].(accessList := Revoke(s.files[f].accessList, u)));
        case DeleteFile(f) => DeleteKeepsTraced(s, f);
      }
    }
  }

  lemma TracedIsSized(s: Server)
    requires Traced(s)
    ensures Sized(s)
  {
  }

  /** Every step that does not use a deleted file's name again keeps the cache in agreement with the lists. */
  lemma NextKeepsInv(s: Server, e: Event)
    requires Inv(s) && Legal(s, e)
    ensures Inv(Next(s, e))
  {
    NextKeepsTraced(s, e);
    assert NoReuse(Next(s, e)) by { hide CheckedSlots, Invalidate, Grant, Revoke, Traced, Agree; }
    TracedAgrees(Next(s, e));
  }

  function Run(s: Server, es: seq<Event>): (r: Server)
    requires Sized(s)
    ensures Sized(r) && |r.slots| == |s.slots|
    decreases |es|
  {
    if es == [] then s else Run(Next(s, es[0]), es[1..])
  }

  ghost predicate LegalRun(s: Server, es: seq<Event>)
    requires Sized(s)
    decreases |es|
  {
    es != [] ==> Legal(s, es[0]) && LegalRun(Next(s, es[0]), es[1..])
  }

  lemma {:induction false} RunKeepsInv(s: Server, es: seq<Event>)
    requires Inv(s) && LegalRun(s, es)
    ensures Inv(Run(s, es))
    decreases |es|
  {
    if es != [] {
      NextKeepsInv(s, es[0]);
      RunKeepsInv(Next(s, es[0]), es[1..]);
    }
  }

  ghost predicate FittingRun(es: seq<Event>) {
    forall i | 0 <= i < |es| :: Fitting(es[i])
  }

  lemma {:induction false} RunKeepsTraced(s: Server, es: seq<Event>)
    requires Traced(s) && FittingRun(es)
    ensures Traced(Run(s, es))
    decreases |es|
  {
    if es != [] {
      NextKeepsTraced(s, es[0]);
      RunKeepsTraced(Next(s, es[0]), es[1..]);
    }
  }

  // ---------- what a check answers ----------

  /** A slot other than the key's home slot is free. */
  predicate HasRoom(slots: Table, key: string)
    requires slots != []
  {
    exists j | 0 <= j < |slots| :: j != Home(|slots|, key) && !slots[j].valid
  }

  /**
   A check never grants what owner and list do not grant. It grants what they do if the user is the owner or the
   key is found in the table it leaves behind, and a key is missing there only if the table has no room for it.
   */
  lemma CheckIsExact(s: Server, f: string, u: string, need: Need)
    requires Inv(s) && Short(f, u) && ':' !in u
    ensures var slots', granted := CheckedSlots(s.slots, s.files, f, u, need), Granted(s.slots, s.files, f, u, need);
            && (granted <==> Permitted(s.files, f, u, need)
                             && (s.files[f].owner == u || Found(slots', Key(f, u)).Some?))
            && (granted ==> Permitted(s.files, f, u, need))
            && (Permitted(s.files, f, u, need) && HasRoom(slots', Key(f, u)) ==> granted)
  {
    if f in s.files {
      FoundIsRight(s.slots, s.files, f, u);
      BuildAgrees(s.slots, s.files, f);
      RebuiltLookup(s.slots, s.files, f, u);
    }
  }

  /** The answer over every run from an empty server. */
  lemma PermissionsOverRuns(es: seq<Event>, f: string, u: string, need: Need)
    requires LegalRun(EmptyServer(), es) && Short(f, u) && ':' !in u
    ensures var s := Run(EmptyServer(), es);
            && s.slots != []
            && (Granted(s.slots, s.files, f, u, need) ==> Permitted(s.files, f, u, need))
            && (Permitted(s.files, f, u, need) && HasRoom(CheckedSlots(s.slots, s.files, f, u, need), Key(f, u))
                ==> Granted(s.slots, s.files, f, u, need))
  {
    RunKeepsInv(EmptyServer(), es);
    CheckIsExact(Run(EmptyServer(), es), f, u, need);
  }

  /** The state after start-up: the table is all zero and nothing is stored. */
  function EmptyServer(): (s: Server)
    ensures Inv(s)
  {
    Server(seq(CACHE_SIZE, _ => Slot("", R, false)), map[], map[])
  }

  /** What the list of the file says, or the list of a deleted file of that name said. */
  ghost predicate EverListed(s: Server, f: string, u: string, need: Need) {
    || (f in s.files && Allows(Right(s.files[f].accessList, u), need))
    || (f in s.gone && exists k :: 0 <= k < |s.gone[f]| && Allows(Right(s.gone[f][k], u), need))
  }

  /** What a lookup finds stems from a list. */
  lemma FoundStems(s: Server, slots: Table, f: string, u: string)
    requires Traced(s.(slots := slots)) && Short(f, u) && ':' !in u && slots != [] && Found(slots, Key(f, u)).Some?
    ensures Stems(s, f, u, Found(slots, Key(f, u)).value)
  {
    var i := Place(slots, Key(f, u)).value;
    assert Says(slots, i, f, u);
    assert Stems(s.(slots := slots), f, u, slots[i].mode);
  }

  /**
   The answer over every run at all, names used again or not: a check grants what owner and list say, if the
   table has room for the key, and it grants nothing that neither they say nor the list of a deleted file of that
   name said.
   */
  lemma AnswersOverAllRuns(es: seq<Event>, f: string, u: string, need: Need)
    requires FittingRun(es) && Short(f, u) && ':' !in u
    ensures var s := Run(EmptyServer(), es);
            && s.slots != []
            && (Granted(s.slots, s.files, f, u, need)
                ==> f in s.files && (s.files[f].owner == u || EverListed(s, f, u, need)))
            && (Permitted(s.files, f, u, need) && HasRoom(CheckedSlots(s.slots, s.files, f, u, need), Key(f, u))
                ==> Granted(s.slots, s.files, f, u, need))
  {
    RunKeepsTraced(EmptyServer(), es);
    var s := Run(EmptyServer(), es);
    if f in s.files {
      var fields := Tokens(s.files[f].accessList, ",");
      var built := Build(s.slots, f, fields);
      RebuildKeepsTraced(s, f);
      if FieldsRight(fields, u).Some? {
        BuildFinds(s.slots, f, fields, u);
        if Place(built, Key(f, u)) == None { NoPlaceMeansFull(built, Key(f, u)); }
      }
      if Found(s.slots, Key(f, u)).Some? { FoundStems(s, s.slots, f, u); }
      if Found(built, Key(f, u)).Some? { FoundStems(s, built, f, u); }
    }
  }

  /** A revocation that hits the right entry takes effect at once: the next check denies, whatever was cached. */
  lemma RevokedUserIsDenied(s: Server, f: string, u: string, need: Need, lead: bool, es: seq<Entry>)
    requires Inv(s) && f in s.files && s.files[f].accessList == Listed(lead, Texts(es))
    requires GoodEntries(es) && PlainName(u) && Short(f, u) && HitsRight(es, u) && s.files[f].owner != u
    ensures var s' := Next(s, RevokeFrom(f, u));
            s'.slots != [] && !Granted(s'.slots, s'.files, f, u, need)
  {
    RevokeExactIff(lead, es, u);
    NextKeepsInv(s, RevokeFrom(f, u));
    CheckIsExact(Next(s, RevokeFrom(f, u)), f, u, need);
  }

  /** A grant that hits the right entry and fits takes effect at once, if the table has room. */
  lemma GrantedUserIsAllowed(s: Server, f: string, u: string, mode: Mode, need: Need, lead: bool, es: seq<Entry>)
    requires Inv(s) && f in s.files && s.files[f].accessList == Listed(lead, Texts(es))
    requires GoodEntries(es) && PlainName(u) && Short(f, u) && HitsRight(es, u) && s.files[f].owner != u
    requires GrantFits(s.files[f].accessList, u, mode)
    ensures var s' := Next(s, GrantTo(f, u, mode));
            && s'.slots != []
            && (HasRoom(CheckedSlots(s'.slots, s'.files, f, u, need), Key(f, u))
                ==> (Granted(s'.slots, s'.files, f, u, need) <==> need == Read || mode == RW))
  {
    GrantExactIff(lead, es, u, mode);
    NextKeepsInv(s, GrantTo(f, u, mode));
    CheckIsExact(Next(s, GrantTo(f, u, mode)), f, u, need);
  }
}

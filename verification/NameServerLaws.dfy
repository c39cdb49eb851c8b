/** The name server's handlers as atomic steps. */
module NameServerLaws {
  import opened Text
  import opened Hashing
  import opened Directory
  import opened RoundRobin
  import opened Registration

  // They act on the directory, the location cache and the round-robin index. Over every run the index agrees with the
  // tables, and answering from the cache is the same as looking it up.

  const CACHE_SIZE: nat := 100
  const CACHE_TTL: int := 60

  datatype CacheEntry = CacheEntry(filename: string, ssId: int, timestamp: int, valid: bool)

  type LocationCache = seq<CacheEntry>

  datatype NameServer = NameServer(dir: Directory, cache: LocationCache, nextSs: nat)

  // ---------- the location cache ----------

  function CacheSlot(name: string): (h: nat)
    ensures h < CACHE_SIZE
  {
    SlotOf(name, WORD64, CACHE_SIZE)
  }

  predicate CacheHolds(c: LocationCache, name: string)
    requires |c| == CACHE_SIZE
  {
    c[CacheSlot(name)].valid && c[CacheSlot(name)].filename == name
  }

  /** cache_insert: the slot of the name is overwritten, whatever it held. */
  function CacheInsert(c: LocationCache, name: string, ssId: int, now: int): (r: LocationCache)
    requires |c| == CACHE_SIZE
    ensures |r| == CACHE_SIZE
  {
    c[CacheSlot(name) := CacheEntry(name, ssId, now, true)]
  }

  /** cache_invalidate */
  function CacheInvalidate(c: LocationCache, name: string): (r: LocationCache)
    requires |c| == CACHE_SIZE
    ensures |r| == CACHE_SIZE
  {
    if CacheHolds(c, name) then c[CacheSlot(name) := c[CacheSlot(name)].(valid := false)] else c
  }

  /** What cache_lookup answers, and the cache it leaves: an expired entry is dropped. */
  function CacheLookup(c: LocationCache, name: string, now: int): (r: (LocationCache, Option<int>))
    requires |c| == CACHE_SIZE
    ensures |r.0| == CACHE_SIZE
  {
    if !CacheHolds(c, name) then (c, None)
    else if now - c[CacheSlot(name)].timestamp < CACHE_TTL then (c, Some(c[CacheSlot(name)].ssId))
    else (CacheInvalidate(c, name), None)
  }

  function CacheClear(): (c: LocationCache)
    ensures |c| == CACHE_SIZE
  {
    seq(CACHE_SIZE, _ => CacheEntry("", 0, 0, false))
  }

  /** The server with this id lists the name. */
  ghost predicate ListedBy(d: Directory, ssId: int, name: string) {
    exists sv: nat :: ListedOn(d, sv, name) && sv < |d.servers| && d.servers[sv].ssId == ssId
  }

  /** Every valid entry sits in its own slot and names the server that lists the file. */
  ghost predicate Coherent(c: LocationCache, d: Directory) {
    && |c| == CACHE_SIZE
    && forall h | 0 <= h < CACHE_SIZE && c[h].valid ::
         CacheSlot(c[h].filename) == h && ListedBy(d, c[h].ssId, c[h].filename)
  }

  ghost predicate ServerInv(ns: NameServer) {
    && DirectoryOk(ns.dir)
    && Coherent(ns.cache, ns.dir)
    && (ns.nextSs < |ns.dir.servers| || ns.nextSs == 0)
  }

  // ---------- locating a file ----------

  datatype Location = At(ssId: int, address: string) | NotFound | NoServer | Offline

  /** The answer without a cache. */
  function FullLookup(d: Directory, name: string): Location
    requires WellSized(d)
  {
    match FindFile(d, name)
    case None => NotFound
    case Some(file) =>
      match FindServer(d.servers, file.ssId)
      case None => NoServer
      case Some(sv) => if d.servers[sv].online then At(file.ssId, d.servers[sv].address) else Offline
  }

  /** handle_get_ss_info */
  function Locate(ns: NameServer, name: string, now: int): (NameServer, Location)
    requires WellSized(ns.dir) && |ns.cache| == CACHE_SIZE
  {
    var (cache, hit) := CacheLookup(ns.cache, name, now);
    var sv := if hit.Some? then FindServer(ns.dir.servers, hit.value) else None;
    if sv.Some? && ns.dir.servers[sv.value].online then
      (ns.(cache := cache), At(hit.value, ns.dir.servers[sv.value].address))
    else match FindFile(ns.dir, name)
      case None => (ns.(cache := cache), NotFound)
      case Some(file) => (ns.(cache := CacheInsert(cache, name, file.ssId, now)), FullLookup(ns.dir, name))
  }

  lemma OneLister(d: Directory, name: string, id1: int, id2: int)
    requires TablesOk(d) && ListedBy(d, id1, name) && ListedBy(d, id2, name)
    ensures id1 == id2
  {
    var s1: nat :| ListedOn(d, s1, name) && s1 < |d.servers| && d.servers[s1].ssId == id1;
    var s2: nat :| ListedOn(d, s2, name) && s2 < |d.servers| && d.servers[s2].ssId == id2;
    var k1: nat :| ListedAt(d, s1, k1, name);
    var k2: nat :| ListedAt(d, s2, k2, name);
  }

  /** A hit gives the location the full lookup gives, at any clock value, and the state stays coherent. */
  lemma LocateIsFullLookup(ns: NameServer, name: string, now: int)
    requires ServerInv(ns)
    ensures var (ns', answer) := Locate(ns, name, now);
            answer == FullLookup(ns.dir, name) && ServerInv(ns') && ns'.dir == ns.dir
  {
    var d := ns.dir;
    FindFileIffListed(d, name);
    var file := FindFile(d, name);
    if file.Some? {
      assert ListedBy(d, file.value.ssId, name);
    }
    if CacheHolds(ns.cache, name) {
      var id := ns.cache[CacheSlot(name)].ssId;
      assert ListedBy(d, id, name);
      var sv: nat :| ListedOn(d, sv, name) && sv < |d.servers| && d.servers[sv].ssId == id;
      assert Listed(d, name);
      OneLister(d, name, id, file.value.ssId);
    }
  }

  // ---------- the other handlers ----------

  function Online(servers: seq<ServerRec>): (f: seq<bool>)
    ensures |f| == |servers| && forall i | 0 <= i < |servers| :: f[i] == servers[i].online
  {
    seq(|servers|, i requires 0 <= i < |servers| => servers[i].online)
  }

  /** get_available_storage_server: the id of the next online server, -1 if there is none. */
  function Available(ns: NameServer): (r: (nat, int)) {
    match Scan(Online(ns.dir.servers), ns.nextSs, 0)
    case None => (ns.nextSs, -1)
    case Some(c) => (NextStart(Online(ns.dir.servers), ns.nextSs), ns.dir.servers[c].ssId)
  }

  /** handle_create_file; ok says whether the storage server was reached and created the file. */
  function CreateFile(ns: NameServer, name: string, user: string, ok: bool): (NameServer, Code)
    requires WellSized(ns.dir)
  {
    if FindFile(ns.dir, name).Some? then (ns, FileExists)
    else
      var ssId, ns' := Available(ns).1, ns.(nextSs := Available(ns).0);
      if ssId < 0 then (ns', ServerError)
      else
        var added := AddFile(ns.dir, ssId, name, user);
        if added.1 != Success then (ns', added.1)
        else if ok then (ns'.(dir := added.0), Success)
        else (ns'.(dir := RemoveFile(added.0, ssId, name).0), Failed)
  }

  /** handle_createfolder: the folder is entered only after the storage server made it. */
  function CreateFolder(ns: NameServer, name: string, user: string, ok: bool): (NameServer, Code)
    requires WellSized(ns.dir)
  {
    if FindFile(ns.dir, name).Some? then (ns, FileExists)
    else
      var ssId, ns' := Available(ns).1, ns.(nextSs := Available(ns).0);
      if ssId < 0 then (ns', ServerError)
      else if !ok then (ns', Failed)
      else (ns'.(dir := AddFile(ns.dir, ssId, name, user).0), Success)
  }

  /** handle_delete_file; owner and server come from the record the index leads to. */
  function DeleteFile(ns: NameServer, name: string, user: string, ok: bool): (NameServer, Code)
    requires WellSized(ns.dir) && |ns.cache| == CACHE_SIZE
  {
    match FindFile(ns.dir, name)
    case None => (ns, FileNotFound)
    case Some(file) =>
      if file.owner != user then (ns, NotOwner)
      else if !ok then (ns, Failed)
      else (ns.(dir := RemoveFile(ns.dir, file.ssId, name).0, cache := CacheInvalidate(ns.cache, name)), Success)
  }

  /** An unused table: all zero. */
  function EmptyTable(): (files: seq<FileInfo>)
    ensures |files| == MAX_FILES_PER_SERVER
  {
    seq(MAX_FILES_PER_SERVER, _ => FileInfo("", "", 0))
  }

  /** The registration loop: every listing goes into the next slot of the server's table. */
  function Enter(d: Directory, sv: nat, ls: seq<Listing>): (r: Directory)
    requires WellSized(d) && sv < |d.servers| && d.servers[sv].count + |ls| <= MAX_FILES_PER_SERVER
    ensures WellSized(r) && |r.servers| == |d.servers|
    decreases |ls|
  {
    if ls == [] then d
    else Enter(Appended(d, sv, ls[0].name, ls[0].owner), sv, ls[1..])
  }

  function WithServer(d: Directory, ssId: int, address: string): (r: Directory)
    requires WellSized(d) && |d.servers| < MAX_STORAGE_SERVERS
    ensures WellSized(r)
  {
    Directory(d.servers + [ServerRec(ssId, true, address, EmptyTable(), 0)], d.index)
  }

  function Reconnected(d: Directory, sv: nat, address: string): (r: Directory)
    requires WellSized(d) && sv < |d.servers|
    ensures WellSized(r)
  {
    d.(servers := d.servers[sv := d.servers[sv].(online := true, address := address)])
  }

  /** register_storage_server */
  function Register(d: Directory, ssId: int, address: string, text: string): (r: (Directory, Code))
    requires WellSized(d)
    ensures WellSized(r.0)
  {
    match FindServer(d.servers, ssId)
    case Some(sv) => (Reconnected(d, sv, address), Success)
    case None =>
      if |d.servers| >= MAX_STORAGE_SERVERS then (d, ServerError)
      else (Enter(WithServer(d, ssId, address), |d.servers|, ParseFileList(text)), Success)
  }

  // ---------- what the steps keep ----------

  /** The names of a registration are new and not repeated. */
  ghost predicate Disjoint(d: Directory, ls: seq<Listing>) {
    && (forall i, j | 0 <= i < j < |ls| :: ls[i].name != ls[j].name)
    && (forall i | 0 <= i < |ls| :: !Listed(d, ls[i].name))
  }

  /** Server sv2 lists x in d' exactly if it does in d, or sv2 is sv and x one of the names. */
  ghost predicate ListsAlso(d: Directory, d': Directory, sv: nat, names: set<string>) {
    forall sv2: nat, x :: ListedOn(d', sv2, x) <==> ListedOn(d, sv2, x) || (sv2 == sv && x in names)
  }

  lemma {:induction false} EnterKeepsOk(d: Directory, sv: nat, ls: seq<Listing>)
    requires DirectoryOk(d) && sv < |d.servers| && d.servers[sv].count + |ls| <= MAX_FILES_PER_SERVER
    requires Disjoint(d, ls)
    ensures DirectoryOk(Enter(d, sv, ls)) && ListsAlso(d, Enter(d, sv, ls), sv, set l | l in ls :: l.name)
    ensures forall i | 0 <= i < |d.servers| :: Enter(d, sv, ls).servers[i].ssId == d.servers[i].ssId
    decreases |ls|
  {
    if ls != [] {
      var name := ls[0].name;
      var d1 := Appended(d, sv, name, ls[0].owner);
      AppendedSizes(d, sv, name, ls[0].owner);
      AppendedKeepsInv(d, sv, name, ls[0].owner);
      assert d1.servers[sv].count == d.servers[sv].count + 1;
      hide Appended, DirectoryOk, WellSized, ListedOn;
      forall i | 0 <= i < |ls[1..]| ensures !Listed(d1, ls[1..][i].name) {
        assert !Listed(d, ls[i + 1].name) && ls[i + 1].name != name;
      }
      EnterKeepsOk(d1, sv, ls[1..]);
      assert ls == [ls[0]] + ls[1..];
    }
  }

  lemma WithServerOk(d: Directory, ssId: int, address: string)
    requires DirectoryOk(d) && |d.servers| < MAX_STORAGE_SERVERS && FindServer(d.servers, ssId).None?
    ensures DirectoryOk(WithServer(d, ssId, address)) && ListsAlso(d, WithServer(d, ssId, address), 0, {})
  {
    SameTables(d, WithServer(d, ssId, address));
  }

  lemma ReconnectedOk(d: Directory, sv: nat, address: string)
    requires DirectoryOk(d) && sv < |d.servers|
    ensures DirectoryOk(Reconnected(d, sv, address)) && ListsAlso(d, Reconnected(d, sv, address), 0, {})
  {
    SameTables(d, Reconnected(d, sv, address));
  }

  /** A directory with the same tables and index, and new servers that list nothing. */
  lemma SameTables(d: Directory, d': Directory)
    requires DirectoryOk(d) && WellSized(d') && d'.index == d.index && |d.servers| <= |d'.servers|
    requires forall i | 0 <= i < |d.servers| :: d'.servers[i].ssId == d.servers[i].ssId
               && d'.servers[i].files == d.servers[i].files && d'.servers[i].count == d.servers[i].count
    requires forall i | |d.servers| <= i < |d'.servers| :: d'.servers[i].count == 0
    requires forall i, j | 0 <= i < j < |d'.servers| :: d'.servers[i].ssId != d'.servers[j].ssId
    ensures DirectoryOk(d') && ListsAlso(d, d', 0, {})
  {
    forall sv: nat, k: nat, x ensures ListedAt(d', sv, k, x) <==> ListedAt(d, sv, k, x) {
    }
    forall sv: nat, k: nat ensures Stamped(d, sv, k) ==> Stamped(d', sv, k) {
    }
    hide ListedAt, Stamped, WellSized, IndexFindOk, OncePerName;
    forall sv: nat, x ensures ListedOn(d', sv, x) <==> ListedOn(d, sv, x) {
    }
  }

  /** What a file's server lists, it still lists under the same id. */
  ghost predicate Keeps(d: Directory, d': Directory) {
    forall id, name | ListedBy(d, id, name) :: ListedBy(d', id, name)
  }

  lemma KeepsFromLists(d: Directory, d': Directory, sv: nat, names: set<string>)
    requires ListsAlso(d, d', sv, names) && |d.servers| <= |d'.servers|
    requires forall i | 0 <= i < |d.servers| :: d'.servers[i].ssId == d.servers[i].ssId
    ensures Keeps(d, d')
  {
    hide ListedOn;
    forall id, name | ListedBy(d, id, name) ensures ListedBy(d', id, name) {
      var s: nat :| ListedOn(d, s, name) && s < |d.servers| && d.servers[s].ssId == id;
      assert ListedOn(d', s, name);
    }
  }

  /** The cache stays coherent while nothing is unlisted. */
  lemma KeepsCoherent(c: LocationCache, d: Directory, d': Directory)
    requires Coherent(c, d) && Keeps(d, d')
    ensures Coherent(c, d')
  {
  }

  lemma RegisterKeepsOk(d: Directory, ssId: int, address: string, text: string)
    requires DirectoryOk(d)
    requires FindServer(d.servers, ssId).None? ==> Disjoint(d, ParseFileList(text))
    ensures var d' := Register(d, ssId, address, text).0;
            DirectoryOk(d') && Keeps(d, d') && |d.servers| <= |d'.servers|
  {
    var sv := FindServer(d.servers, ssId);
    if sv.Some? {
      ReconnectedOk(d, sv.value, address);
      KeepsFromLists(d, Reconnected(d, sv.value, address), 0, {});
    } else if |d.servers| < MAX_STORAGE_SERVERS {
      var ls, d0 := ParseFileList(text), WithServer(d, ssId, address);
      WithServerOk(d, ssId, address);
      KeepsFromLists(d, d0, 0, {});
      SameListing(d, d0, ls);
      hide DirectoryOk, Disjoint, WithServer, ParseFileList;
      assert |ls| <= MAX_LISTED;
      EnterServer(d, ssId, address, ls);
    }
  }

  lemma SameListing(d: Directory, d0: Directory, ls: seq<Listing>)
    requires ListsAlso(d, d0, 0, {}) && Disjoint(d, ls)
    ensures Disjoint(d0, ls)
  {
  }

  lemma EnterServer(d: Directory, ssId: int, address: string, ls: seq<Listing>)
    requires WellSized(d) && |d.servers| < MAX_STORAGE_SERVERS && |ls| <= MAX_LISTED
    requires Keeps(d, WithServer(d, ssId, address))
    requires DirectoryOk(WithServer(d, ssId, address)) && Disjoint(WithServer(d, ssId, address), ls)
    ensures var d' := Enter(WithServer(d, ssId, address), |d.servers|, ls);
            DirectoryOk(d') && Keeps(d, d') && |d.servers| <= |d'.servers|
  {
    var d0 := WithServer(d, ssId, address);
    var d' := Enter(d0, |d.servers|, ls);
    EnterKeepsOk(d0, |d.servers|, ls);
    KeepsFromLists(d0, d', |d.servers|, set l | l in ls :: l.name);
  }

  /** Adding an unlisted name. */
  lemma AddKeepsOk(d: Directory, ssId: int, name: string, owner: string)
    requires DirectoryOk(d) && !Listed(d, name)
    ensures var (d', code) := AddFile(d, ssId, name, owner);
            DirectoryOk(d') && Keeps(d, d') && |d'.servers| == |d.servers| && code != FileExists
            && (code == Success ==> ListedBy(d', ssId, name)) && (code != Success ==> d' == d)
  {
    var sv := FindServer(d.servers, ssId);
    if sv.Some? && d.servers[sv.value].count < MAX_FILES_PER_SERVER {
      NoSlot(d, sv.value, name);
      AppendedKeepsInv(d, sv.value, name, owner);
      AppendedSizes(d, sv.value, name, owner);
      var d' := Appended(d, sv.value, name, owner);
      KeepsFromLists(d, d', sv.value, {name});
      assert ListedOn(d', sv.value, name);
    }
  }

  lemma NoSlot(d: Directory, sv: nat, name: string)
    requires WellSized(d) && sv < |d.servers| && !ListedOn(d, sv, name)
    ensures FindSlot(d.servers[sv].files, d.servers[sv].count, name).None?
  {
    var r := FindSlot(d.servers[sv].files, d.servers[sv].count, name);
    if r.Some? { assert ListedAt(d, sv, r.value, name); }
  }

  /** Removing a name from the server that lists it unlists it and nothing else. */
  lemma RemoveKeepsOk(d: Directory, ssId: int, name: string)
    requires DirectoryOk(d) && ListedBy(d, ssId, name)
    ensures var (d', code) := RemoveFile(d, ssId, name);
            DirectoryOk(d') && code == Success && |d'.servers| == |d.servers| && !Listed(d', name)
            && (forall id, x :: ListedBy(d', id, x) <==> ListedBy(d, id, x) && x != name)
  {
    var sv: nat :| ListedOn(d, sv, name) && sv < |d.servers| && d.servers[sv].ssId == ssId;
    assert FindServer(d.servers, ssId) == Some(sv);
    var i := FindSlot(d.servers[sv].files, d.servers[sv].count, name).value;
    RemovedKeepsInv(d, sv, i, name);
    RemovedSizes(d, sv, i, name);
    var d' := Removed(d, sv, i, name);
    hide DirectoryOk, Removed, ListedOn;
    forall id, x ensures ListedBy(d', id, x) <==> ListedBy(d, id, x) && x != name {
      if ListedBy(d', id, x) {
        var s: nat :| ListedOn(d', s, x) && s < |d'.servers| && d'.servers[s].ssId == id;
        assert ListedOn(d, s, x);
      }
      if ListedBy(d, id, x) && x != name {
        var s: nat :| ListedOn(d, s, x) && s < |d.servers| && d.servers[s].ssId == id;
        assert ListedOn(d', s, x);
      }
    }
  }

  lemma UnlistedIffNotFound(d: Directory, name: string)
    requires DirectoryOk(d)
    ensures FindFile(d, name).None? <==> !Listed(d, name)
    ensures FindFile(d, name).Some? ==> ListedBy(d, FindFile(d, name).value.ssId, name)
  {
    FindFileIffListed(d, name);
  }

  lemma ListedByIsListed(d: Directory, id: int, name: string)
    ensures ListedBy(d, id, name) ==> Listed(d, name)
  {
  }

  /** Creating a file, and the rollback of a failed creation. */
  lemma CreateFileKeepsInv(ns: NameServer, name: string, user: string, ok: bool)
    requires ServerInv(ns)
    ensures ServerInv(CreateFile(ns, name, user, ok).0)
    ensures var (ns', code) := CreateFile(ns, name, user, ok);
            && (code == Success ==> Listed(ns'.dir, name))
            && (code != Success ==> forall id, x :: ListedBy(ns'.dir, id, x) <==> ListedBy(ns.dir, id, x))
  {
    var d := ns.dir;
    UnlistedIffNotFound(d, name);
    NextInRange(ns);
    hide DirectoryOk, Listed, ListedBy, FindFile, AddFile, RemoveFile, Available;
    if FindFile(d, name).None? {
      var ssId := Available(ns).1;
      if ssId >= 0 {
        AddKeepsOk(d, ssId, name, user);
        var d' := AddFile(d, ssId, name, user).0;
        KeepsCoherent(ns.cache, d, d');
        if AddFile(d, ssId, name, user).1 == Success {
          ListedByIsListed(d', ssId, name);
          if !ok {
            RemoveKeepsOk(d', ssId, name);
            RollbackListing(ns, ssId, name, user);
          }
        }
      }
    }
  }

  /** Taking the new file out again restores the listing. */
  lemma RollbackListing(ns: NameServer, ssId: int, name: string, user: string)
    requires DirectoryOk(ns.dir) && !Listed(ns.dir, name) && Coherent(ns.cache, ns.dir)
    requires AddFile(ns.dir, ssId, name, user).1 == Success
    ensures var d' := RemoveFile(AddFile(ns.dir, ssId, name, user).0, ssId, name).0;
            && (forall id, x :: ListedBy(d', id, x) <==> ListedBy(ns.dir, id, x))
            && Coherent(ns.cache, d') && |d'.servers| == |ns.dir.servers|
  {
    var d := ns.dir;
    var d1 := AddFile(d, ssId, name, user).0;
    var sv := FindServer(d.servers, ssId).value;
    AddKeepsOk(d, ssId, name, user);
    RemoveKeepsOk(d1, ssId, name);
    AppendedKeepsInv(d, sv, name, user);
    AppendedSizes(d, sv, name, user);
    var d' := RemoveFile(d1, ssId, name).0;
    hide DirectoryOk, AddFile, RemoveFile, ListedOn, Appended;
    forall id, x ensures ListedBy(d', id, x) <==> ListedBy(d, id, x) {
      if ListedBy(d, id, x) { ListedByIsListed(d, id, x); }
      if ListedBy(d1, id, x) && x != name {
        var s: nat :| ListedOn(d1, s, x) && s < |d1.servers| && d1.servers[s].ssId == id;
        assert ListedOn(d, s, x);
      }
    }
  }

  lemma NextInRange(ns: NameServer)
    requires ServerInv(ns)
    ensures Available(ns).0 < |ns.dir.servers| || Available(ns).0 == 0
  {
  }

  lemma CreateFolderKeepsInv(ns: NameServer, name: string, user: string, ok: bool)
    requires ServerInv(ns)
    ensures ServerInv(CreateFolder(ns, name, user, ok).0)
  {
    UnlistedIffNotFound(ns.dir, name);
    NextInRange(ns);
    hide DirectoryOk, Listed, ListedBy, FindFile, AddFile, Available;
    if FindFile(ns.dir, name).None? && Available(ns).1 >= 0 && ok {
      AddKeepsOk(ns.dir, Available(ns).1, name, user);
      KeepsCoherent(ns.cache, ns.dir, AddFile(ns.dir, Available(ns).1, name, user).0);
    }
  }

  /** Deleting a file unlists exactly that name, and the cache forgets it. */
  lemma DeleteFileKeepsInv(ns: NameServer, name: string, user: string, ok: bool)
    requires ServerInv(ns)
    ensures ServerInv(DeleteFile(ns, name, user, ok).0)
    ensures var (ns', code) := DeleteFile(ns, name, user, ok);
            if code == Success then forall id, x :: ListedBy(ns'.dir, id, x) <==> ListedBy(ns.dir, id, x) && x != name
            else ns' == ns
  {
    UnlistedIffNotFound(ns.dir, name);
    hide DirectoryOk, Listed, ListedBy, FindFile, RemoveFile;
    var file := FindFile(ns.dir, name);
    if file.Some? && file.value.owner == user && ok {
      RemoveKeepsOk(ns.dir, file.value.ssId, name);
    }
  }

  // ---------- runs ----------

  datatype Event =
    | LocateFile(name: string, now: int)
    | Create(name: string, user: string, ok: bool)
    | MakeFolder(name: string, user: string, ok: bool)
    | Delete(name: string, user: string, ok: bool)
    | RegisterServer(ssId: int, address: string, text: string)

  function Next(ns: NameServer, e: Event): NameServer
    requires WellSized(ns.dir) && |ns.cache| == CACHE_SIZE
  {
    match e
    case LocateFile(name, now) => Locate(ns, name, now).0
    case Create(name, user, ok) => CreateFile(ns, name, user, ok).0
    case MakeFolder(name, user, ok) => CreateFolder(ns, name, user, ok).0
    case Delete(name, user, ok) => DeleteFile(ns, name, user, ok).0
    case RegisterServer(ssId, address, text) => ns.(dir := Register(ns.dir, ssId, address, text).0)
  }

  /** A new server brings names nobody lists yet, each once. */
  ghost predicate Legal(ns: NameServer, e: Event) {
    e.RegisterServer? && FindServer(ns.dir.servers, e.ssId).None? ==> Disjoint(ns.dir, ParseFileList(e.text))
  }

  lemma NextKeepsInv(ns: NameServer, e: Event)
    requires ServerInv(ns) && Legal(ns, e)
    ensures ServerInv(Next(ns, e))
  {
    match e {
      case LocateFile(name, now) => LocateIsFullLookup(ns, name, now);
      case Create(name, user, ok) => CreateFileKeepsInv(ns, name, user, ok);
      case MakeFolder(name, user, ok) => CreateFolderKeepsInv(ns, name, user, ok);
      case Delete(name, user, ok) => DeleteFileKeepsInv(ns, name, user, ok);
      case RegisterServer(ssId, address, text) =>
        RegisterKeepsOk(ns.dir, ssId, address, text);
        KeepsCoherent(ns.cache, ns.dir, Register(ns.dir, ssId, address, text).0);
    }
  }

  ghost predicate LegalRun(ns: NameServer, es: seq<Event>)
    requires ServerInv(ns)
    decreases |es|
  {
    es != [] ==> Legal(ns, es[0]) && (NextKeepsInv(ns, es[0]); LegalRun(Next(ns, es[0]), es[1..]))
  }

  ghost function Run(ns: NameServer, es: seq<Event>): NameServer
    requires ServerInv(ns) && LegalRun(ns, es)
    decreases |es|
  {
    if es == [] then ns
    else
      NextKeepsInv(ns, es[0]);
      Run(Next(ns, es[0]), es[1..])
  }

  lemma {:induction false} RunKeepsInv(ns: NameServer, es: seq<Event>)
    requires ServerInv(ns) && LegalRun(ns, es)
    ensures ServerInv(Run(ns, es))
    decreases |es|
  {
    if es != [] {
      NextKeepsInv(ns, es[0]);
      RunKeepsInv(Next(ns, es[0]), es[1..]);
    }
  }

  /** The state after start-up. */
  function Boot(): (ns: NameServer)
    ensures ServerInv(ns)
  {
    NameServer(Directory([], seq(FILE_HASH_TABLE_SIZE, _ => [])), CacheClear(), 0)
  }

  /**
   After every run: a name is found exactly if a server lists it, the record found carries that server's id, and
   a location answer does not depend on the cache or the clock.
   */
  lemma DirectoryOverRuns(es: seq<Event>, name: string, now: int)
    requires LegalRun(Boot(), es)
    ensures var ns := Run(Boot(), es);
            && WellSized(ns.dir) && |ns.cache| == CACHE_SIZE
            && (FindFile(ns.dir, name).Some? <==> Listed(ns.dir, name))
            && (FindFile(ns.dir, name).Some? ==> ListedBy(ns.dir, FindFile(ns.dir, name).value.ssId, name))
            && Locate(ns, name, now).1 == FullLookup(ns.dir, name)
  {
    RunKeepsInv(Boot(), es);
    UnlistedIffNotFound(Run(Boot(), es).dir, name);
    LocateIsFullLookup(Run(Boot(), es), name, now);
  }
}

/**
 The name server's code over its arrays, its hash index and its location cache: the shift of a table, the searches,
 the cache operations and the handlers with their early returns and rollback. Each method is one step of the laws.
 */
module NameServerState {
  import opened Text
  import opened CStrings
  import opened Hashing
  import opened Directory
  import opened Registration
  import RR = RoundRobin
  import HI = HashIndex
  import Laws = NameServerLaws
  import Moving

  /** The loop that looks for a name among the slots in use. */
  method SearchTable(files: seq<FileInfo>, count: nat, name: string) returns (r: Option<nat>)
    requires count <= |files|
    ensures r == FindSlot(files, count, name)
  {
    for i := 0 to count
      invariant forall j | 0 <= j < i :: files[j].filename != name
    {
      if files[i].filename == name { return Some(i); }
    }
    r := None;
  }

  /** The shift loop of remove_file_from_server. */
  method ShiftDown(files: seq<FileInfo>, i: nat, count: nat) returns (shifted: seq<FileInfo>)
    requires i < count <= |files|
    ensures shifted == Shifted(files, i, count)
  {
    shifted := files;
    for j := i to count - 1
      invariant |shifted| == |files|
      invariant forall k | 0 <= k < |files| :: shifted[k] == files[if i <= k < j then k + 1 else k]
    {
      shifted := shifted[j := shifted[j + 1]];
    }
    forall k | 0 <= k < |files| ensures shifted[k] == Shifted(files, i, count)[k] { ShiftedSlots(files, i, count, k); }
  }

  class NameServerState {
    const servers: array<ServerRec>
    var ssCount: nat
    const index: HI.FileHashTable
    const cache: array<Laws.CacheEntry>
    var nextSsIndex: nat

    ghost function Dir(): Directory
      requires ssCount <= servers.Length
      reads this, servers, index
    {
      Directory(servers[..ssCount], index.Value())
    }

    ghost predicate Valid()
      reads this, servers, index, index.buckets, index.nodes`next
    {
      && servers.Length == MAX_STORAGE_SERVERS && ssCount <= MAX_STORAGE_SERVERS
      && cache.Length == Laws.CACHE_SIZE
      && index.Valid() && WellSized(Dir())
    }

    ghost function State(): Laws.NameServer
      requires ssCount <= servers.Length
      reads this, servers, index, cache
    {
      Laws.NameServer(Dir(), cache[..], nextSsIndex)
    }

    constructor ()
      ensures Valid() && State() == Laws.Boot()
      ensures fresh(servers) && fresh(cache) && fresh(index) && fresh(index.buckets) && index.nodes == {}
    {
      servers := new ServerRec[MAX_STORAGE_SERVERS](_ => ServerRec(0, false, "", [], 0));
      cache := new Laws.CacheEntry[Laws.CACHE_SIZE](_ => Laws.CacheEntry("", 0, 0, false));
      index := new HI.FileHashTable();
      ssCount, nextSsIndex := 0, 0;
      new;
      assert cache[..] == Laws.CacheClear();
    }

    /** find_storage_server */
    method FindStorageServer(ssId: int) returns (r: Option<nat>)
      requires Valid()
      ensures r == FindServer(servers[..ssCount], ssId)
    {
      for i := 0 to ssCount
        invariant forall j | 0 <= j < i :: servers[j].ssId != ssId
      {
        if servers[i].ssId == ssId { return Some(i); }
      }
      r := None;
    }

    /** get_available_storage_server */
    method GetAvailableStorageServer() returns (ssId: int)
      requires Valid()
      modifies this`nextSsIndex
      ensures Valid() && Dir() == old(Dir())
      ensures (nextSsIndex, ssId) == Laws.Available(old(State()))
    {
      ghost var online := Laws.Online(servers[..ssCount]);
      var start := nextSsIndex;
      if ssCount == 0 { return -1; }
      var i := 0;
      while i < ssCount
        invariant i <= ssCount && nextSsIndex == start && RR.Scan(online, start, 0) == RR.Scan(online, start, i)
      {
        var c := (start + i) % ssCount;
        if servers[c].online {
          nextSsIndex := (c + 1) % ssCount;
          return servers[c].ssId;
        }
        i := i + 1;
      }
      ssId := -1;
    }

    /** add_file_to_server */
    method AddFileToServer(ssId: int, filename: string, owner: string) returns (code: Code)
      requires Valid()
      modifies servers, index, index.buckets
      ensures Valid() && fresh(index.nodes - old(index.nodes))
      ensures (Dir(), code) == AddFile(old(Dir()), ssId, filename, owner)
    {
      var found := FindStorageServer(ssId);
      if found == None { return ServerError; }
      var sv := found.value;
      var ss := servers[sv];
      if ss.count >= MAX_FILES_PER_SERVER { return ServerError; }
      var slot := SearchTable(ss.files, ss.count, filename);
      if slot != None { return FileExists; }
      AppendFile(sv, filename, owner);
      code := Success;
    }

    /** The new record goes into the first unused slot; the index gets a node for it. */
    method AppendFile(sv: nat, filename: string, owner: string)
      requires Valid() && sv < ssCount && servers[sv].count < MAX_FILES_PER_SERVER
      modifies servers, index, index.buckets
      ensures Valid() && fresh(index.nodes - old(index.nodes))
      ensures Dir() == Appended(old(Dir()), sv, filename, owner) && servers[sv].count == old(servers[sv].count) + 1
    {
      ghost var d := Dir();
      var ss := servers[sv];
      var file := FileInfo(filename, owner, ss.ssId);
      index.Insert(filename, FilePtr(sv, ss.count));
      servers[sv] := ss.(files := ss.files[ss.count := file], count := ss.count + 1);
      assert servers[..ssCount] == d.servers[sv := servers[sv]];
    }

    /** remove_file_from_server */
    method RemoveFileFromServer(ssId: int, filename: string) returns (code: Code)
      requires Valid()
      modifies servers, index, index.buckets, index.nodes`next
      ensures Valid() && index.nodes == old(index.nodes)
      ensures (Dir(), code) == RemoveFile(old(Dir()), ssId, filename)
    {
      ghost var d := Dir();
      var found := FindStorageServer(ssId);
      if found == None { return ServerError; }
      var sv := found.value;
      var ss := servers[sv];
      var slot := SearchTable(ss.files, ss.count, filename);
      if slot == None { return FileNotFound; }
      index.Remove(filename);
      var files := ShiftDown(ss.files, slot.value, ss.count);
      servers[sv] := ss.(files := files, count := ss.count - 1);
      assert servers[..ssCount] == d.servers[sv := servers[sv]];
      code := Success;
    }

    /** find_file, following the pointer of the index node. */
    method FindFileRecord(filename: string) returns (file: Option<FileInfo>)
      requires Valid()
      ensures file == FindFile(Dir(), filename)
    {
      var p := index.Find(filename);
      if p == None { return None; }
      if p.value.server < ssCount && p.value.slot < MAX_FILES_PER_SERVER {
        return Some(servers[p.value.server].files[p.value.slot]);
      }
      file := None;
    }

    // ---------- the location cache ----------

    /** cache_insert */
    method CacheInsert(filename: string, ssId: int, now: int)
      requires Valid()
      modifies cache
      ensures Valid() && Dir() == old(Dir()) && cache[..] == Laws.CacheInsert(old(cache[..]), filename, ssId, now)
    {
      var h := HashKey(filename, WORD64, Laws.CACHE_SIZE);
      if cache[h].valid && cache[h].filename == filename {
        cache[h] := cache[h].(ssId := ssId, timestamp := now);
        return;
      }
      cache[h] := Laws.CacheEntry(filename, ssId, now, true);
    }

    /** cache_lookup */
    method CacheLookup(filename: string, now: int) returns (ssId: Option<int>)
      requires Valid()
      modifies cache
      ensures Valid() && Dir() == old(Dir()) && (cache[..], ssId) == Laws.CacheLookup(old(cache[..]), filename, now)
    {
      var h := HashKey(filename, WORD64, Laws.CACHE_SIZE);
      if cache[h].valid && cache[h].filename == filename {
        if now - cache[h].timestamp < Laws.CACHE_TTL {
          return Some(cache[h].ssId);
        } else {
          cache[h] := cache[h].(valid := false);
          return None;
        }
      }
      ssId := None;
    }

    /** cache_invalidate */
    method CacheInvalidate(filename: string)
      requires Valid()
      modifies cache
      ensures Valid() && Dir() == old(Dir()) && cache[..] == Laws.CacheInvalidate(old(cache[..]), filename)
    {
      var h := HashKey(filename, WORD64, Laws.CACHE_SIZE);
      if cache[h].valid && cache[h].filename == filename {
        cache[h] := cache[h].(valid := false);
      }
    }

    /** cache_clear */
    method CacheClear()
      requires Valid()
      modifies cache
      ensures Valid() && Dir() == old(Dir()) && cache[..] == Laws.CacheClear()
    {
      for i := 0 to Laws.CACHE_SIZE
        invariant forall j | 0 <= j < i :: cache[j] == Laws.CacheClear()[j]
      {
        cache[i] := Laws.CacheEntry("", 0, 0, false);
      }
    }

    // ---------- the handlers ----------

    /** handle_get_ss_info */
    method HandleGetSsInfo(filename: string, now: int) returns (answer: Laws.Location)
      requires Valid()
      modifies cache
      ensures Valid()
      ensures (State(), answer) == Laws.Locate(old(State()), filename, now)
    {
      hide FindFile, WellSized, HI.FileHashTable.Valid;
      var cached := CacheLookup(filename, now);
      if cached != None {
        var ss := FindStorageServer(cached.value);
        if ss != None && servers[ss.value].online {
          return Laws.At(cached.value, servers[ss.value].address);
        }
      }
      var file := FindFileRecord(filename);
      if file == None { return Laws.NotFound; }
      CacheInsert(filename, file.value.ssId, now);
      var ss := FindStorageServer(file.value.ssId);
      if ss == None { return Laws.NoServer; }
      if !servers[ss.value].online { return Laws.Offline; }
      answer := Laws.At(file.value.ssId, servers[ss.value].address);
    }

    /** handle_create_file, with the rollback when the storage server fails. */
    method HandleCreateFile(filename: string, username: string, ok: bool) returns (code: Code)
      requires Valid()
      modifies this`nextSsIndex, servers, index, index.buckets, index.nodes`next
      ensures Valid()
      ensures (State(), code) == Laws.CreateFile(old(State()), filename, username, ok)
    {
      hide FindFile, AddFile, RemoveFile, Laws.Available, WellSized, HI.FileHashTable.Valid;
      var existing := FindFileRecord(filename);
      if existing != None { return FileExists; }
      var ssId := GetAvailableStorageServer();
      if ssId < 0 { return ServerError; }
      var result := AddFileToServer(ssId, filename, username);
      if result != Success { return result; }
      if !ok {
        var _ := RemoveFileFromServer(ssId, filename);
        return Failed;
      }
      code := Success;
    }

    /** handle_createfolder */
    method HandleCreateFolder(filename: string, username: string, ok: bool) returns (code: Code)
      requires Valid()
      modifies this`nextSsIndex, servers, index, index.buckets
      ensures Valid()
      ensures (State(), code) == Laws.CreateFolder(old(State()), filename, username, ok)
    {
      hide FindFile, AddFile, Laws.Available, WellSized, HI.FileHashTable.Valid;
      var existing := FindFileRecord(filename);
      if existing != None { return FileExists; }
      var ssId := GetAvailableStorageServer();
      if ssId < 0 { return ServerError; }
      if !ok { return Failed; }
      var _ := AddFileToServer(ssId, filename, username);
      code := Success;
    }

    /** handle_delete_file */
    method HandleDeleteFile(filename: string, username: string, ok: bool) returns (code: Code)
      requires Valid()
      modifies servers, index, index.buckets, index.nodes`next, cache
      ensures Valid()
      ensures (State(), code) == Laws.DeleteFile(old(State()), filename, username, ok)
    {
      hide FindFile, RemoveFile, WellSized, HI.FileHashTable.Valid;
      var file := FindFileRecord(filename);
      if file == None { return FileNotFound; }
      if file.value.owner != username { return NotOwner; }
      if !ok { return Failed; }
      var _ := RemoveFileFromServer(file.value.ssId, filename);
      CacheInvalidate(filename);
      code := Success;
    }

    /** handle_move_file: the record is renamed through the pointer the index gives. */
    method HandleMoveFile(filename: string, target: string, username: string, ok: bool) returns (code: Code)
      requires Valid()
      modifies servers, index, index.buckets, index.nodes`next, cache
      ensures Valid()
      ensures (State(), code) == Moving.MoveFile(old(State()), filename, target, username, ok)
    {
      var p := index.Find(filename);
      if p == None || p.value.server >= ssCount || p.value.slot >= MAX_FILES_PER_SERVER { return FileNotFound; }
      var file := servers[p.value.server].files[p.value.slot];
      if file.owner != username { return NotOwner; }
      var ss := FindStorageServer(file.ssId);
      if ss == None { return ServerError; }
      if !servers[ss.value].online { return ServerError; }
      if !ok { return Failed; }
      RenameThrough(filename, Moving.NewPath(target, filename), p.value);
      CacheClear();
      code := Success;
    }

    /** Removes the old name from the index, renames the record, inserts the new name. */
    method RenameThrough(filename: string, newPath: string, p: FilePtr)
      requires Valid() && p.server < ssCount && p.slot < MAX_FILES_PER_SERVER
      modifies servers, index, index.buckets, index.nodes`next
      ensures Valid() && Dir() == Moving.Renamed(old(Dir()), filename, newPath, p)
    {
      ghost var d := Dir();
      index.Remove(filename);
      var rec := servers[p.server];
      var file := rec.files[p.slot];
      servers[p.server] := rec.(files := rec.files[p.slot := file.(filename := newPath)]);
      index.Insert(newPath, p);
      assert servers[..ssCount] == d.servers[p.server := servers[p.server]];
    }

    // ---------- registration ----------

    /** register_storage_server */
    method RegisterStorageServer(ssId: int, address: string, data: string) returns (code: Code)
      requires Valid()
      modifies this`ssCount, servers, index, index.buckets
      ensures Valid() && nextSsIndex == old(nextSsIndex)
      ensures (Dir(), code) == Laws.Register(old(Dir()), ssId, address, data)
    {
      ghost var d := Dir();
      var existing := FindStorageServer(ssId);
      if existing != None {
        servers[existing.value] := servers[existing.value].(online := true, address := address);
        assert servers[..ssCount] == d.servers[existing.value := servers[existing.value]];
        return Success;
      }
      if ssCount >= MAX_STORAGE_SERVERS { return ServerError; }
      servers[ssCount] := ServerRec(ssId, true, address, Laws.EmptyTable(), 0);
      ssCount := ssCount + 1;
      assert servers[..ssCount] == d.servers + [servers[ssCount - 1]];
      assert Dir() == Laws.WithServer(d, ssId, address);
      EnterFileList(ssCount - 1, data);
      code := Success;
    }

    /** The strtok loop over the file list. */
    method EnterFileList(sv: nat, data: string)
      requires Valid() && sv < ssCount && servers[sv].count == 0
      modifies servers, index, index.buckets
      ensures Valid() && Dir() == Laws.Enter(old(Dir()), sv, ParseFileList(data))
    {
      ScanListings(data);
      ghost var todo := ParseFileList(data);
      hide Strtok, WellSized, HI.FileHashTable.Valid, ParseListing, ParseFileList, Laws.Enter, Appended, ListingsOf;
      var scan := Strtok(data, ",");
      while scan.Token? && servers[sv].count < MAX_FILES_PER_SERVER
        invariant Valid() && fresh(index.nodes - old(index.nodes))
        invariant servers[sv].count <= MAX_FILES_PER_SERVER
        invariant todo == ListingsOf(scan, MAX_FILES_PER_SERVER - servers[sv].count)
        invariant Laws.Enter(old(Dir()), sv, ParseFileList(data)) == Laws.Enter(Dir(), sv, todo)
        decreases |todo|
      {
        var listing := ParseListing(scan.text);
        NextListing(scan, MAX_FILES_PER_SERVER - servers[sv].count);
        EnterFirst(Dir(), sv, todo);
        AppendFile(sv, listing.name, listing.owner);
        todo := todo[1..];
        scan := Strtok(scan.rest, ",");
      }
      NothingLeft(scan, MAX_FILES_PER_SERVER - servers[sv].count);
      EnterNothing(Dir(), sv);
    }
  }

  lemma EnterFirst(d: Directory, sv: nat, ls: seq<Listing>)
    requires WellSized(d) && sv < |d.servers| && d.servers[sv].count + |ls| <= MAX_FILES_PER_SERVER && ls != []
    ensures Laws.Enter(d, sv, ls) == Laws.Enter(Appended(d, sv, ls[0].name, ls[0].owner), sv, ls[1..])
  {
  }

  lemma EnterNothing(d: Directory, sv: nat)
    requires WellSized(d) && sv < |d.servers|
    ensures Laws.Enter(d, sv, []) == d
  {
  }

  lemma NothingLeft(scan: Scan, room: nat)
    ensures scan.NoToken? || room == 0 ==> ListingsOf(scan, room) == []
  {
  }

  /** The listings of the current token and the unread ones, as far as there is room. */
  ghost function ListingsOf(scan: Scan, room: nat): (ls: seq<Listing>)
    ensures |ls| <= room
  {
    var tokens := match scan { case NoToken => [] case Token(t, rest) => [t] + Tokens(rest, ",") };
    var ls := ParseListings(tokens);
    if |ls| <= room then ls else ls[..room]
  }

  lemma ScanListings(data: string)
    ensures ListingsOf(Strtok(data, ","), MAX_LISTED) == ParseFileList(data)
  {
  }

  lemma NextListing(scan: Scan, room: nat)
    requires scan.Token? && room > 0
    ensures ListingsOf(scan, room) == [ParseListing(scan.text)] + ListingsOf(Strtok(scan.rest, ","), room - 1)
  {
    hide ParseListing, Strtok;
    var tokens := Tokens(scan.rest, ",");
    assert tokens == match Strtok(scan.rest, ",") { case NoToken => [] case Token(t, rest) => [t] + Tokens(rest, ",") };
    hide Tokens;
    ParseCons(scan.text, tokens);
  }

  lemma ParseCons(t: string, tokens: seq<string>)
    ensures ParseListings([t] + tokens) == [ParseListing(t)] + ParseListings(tokens)
  {
  }
}

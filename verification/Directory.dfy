/** The name server's directory as a value. */
module Directory {
  import opened Text
  import opened Hashing

  // Per-server file tables with stale slots behind their count, and a chained hash index whose nodes point at table
  // slots. Removing a file shifts its table without re-pointing the nodes, so a node may lead to a neighbour's
  // record; the laws say what remains true and what does not.

  const MAX_STORAGE_SERVERS: nat := 100
  const MAX_FILES_PER_SERVER: nat := 1000
  const FILE_HASH_TABLE_SIZE: nat := 10007

  datatype FileInfo = FileInfo(filename: string, owner: string, ssId: int)

  /** One storage server: files has all slots of the table, only the first count of them are in use. */
  datatype ServerRec = ServerRec(ssId: int, online: bool, address: string, files: seq<FileInfo>, count: nat)

  /** A pointer into a server's table. */
  datatype FilePtr = FilePtr(server: nat, slot: nat)

  datatype IndexNode = IndexNode(name: string, ptr: FilePtr)

  type Index = seq<seq<IndexNode>>

  datatype Directory = Directory(servers: seq<ServerRec>, index: Index)

  function Bucket(name: string): (b: nat)
    ensures b < FILE_HASH_TABLE_SIZE
  {
    SlotOf(name, WORD64, FILE_HASH_TABLE_SIZE)
  }

  // ---------- the index ----------

  /** hash_insert_file: a new node at the head of its chain. */
  function IndexInsert(ix: Index, name: string, ptr: FilePtr): Index
    requires |ix| == FILE_HASH_TABLE_SIZE
  {
    ix[Bucket(name) := [IndexNode(name, ptr)] + ix[Bucket(name)]]
  }

  function ChainRemove(chain: seq<IndexNode>, name: string): seq<IndexNode> {
    if chain == [] then [] else if chain[0].name == name then chain[1..] else [chain[0]] + ChainRemove(chain[1..], name)
  }

  /** hash_remove_file: the first node of that name is unlinked. */
  function IndexRemove(ix: Index, name: string): Index
    requires |ix| == FILE_HASH_TABLE_SIZE
  {
    ix[Bucket(name) := ChainRemove(ix[Bucket(name)], name)]
  }

  function ChainFind(chain: seq<IndexNode>, name: string): (r: Option<FilePtr>)
    ensures r.Some? ==> IndexNode(name, r.value) in chain
    ensures r.None? <==> forall n | n in chain :: n.name != name
  {
    if chain == [] then None else if chain[0].name == name then Some(chain[0].ptr) else ChainFind(chain[1..], name)
  }

  function IndexFind(ix: Index, name: string): Option<FilePtr>
    requires |ix| == FILE_HASH_TABLE_SIZE
  {
    ChainFind(ix[Bucket(name)], name)
  }

  // ---------- the tables ----------

  /** find_storage_server */
  function FindServer(servers: seq<ServerRec>, ssId: int): (r: Option<nat>)
    ensures r.Some? ==> r.value < |servers| && servers[r.value].ssId == ssId
    ensures r.Some? ==> forall i | 0 <= i < r.value :: servers[i].ssId != ssId
    ensures r.None? ==> forall i | 0 <= i < |servers| :: servers[i].ssId != ssId
  {
    FindServerFrom(servers, ssId, 0)
  }

  function FindServerFrom(servers: seq<ServerRec>, ssId: int, i: nat): (r: Option<nat>)
    requires i <= |servers| && forall j | 0 <= j < i :: servers[j].ssId != ssId
    ensures r.Some? ==> r.value < |servers| && servers[r.value].ssId == ssId
    ensures r.Some? ==> forall i | 0 <= i < r.value :: servers[i].ssId != ssId
    ensures r.None? ==> forall i | 0 <= i < |servers| :: servers[i].ssId != ssId
    decreases |servers| - i
  {
    if i == |servers| then None else if servers[i].ssId == ssId then Some(i) else FindServerFrom(servers, ssId, i + 1)
  }

  /** The first slot in use with that name. */
  function FindSlot(files: seq<FileInfo>, count: nat, name: string): (r: Option<nat>)
    requires count <= |files|
    ensures r.Some? ==> r.value < count && files[r.value].filename == name
    ensures r.Some? ==> forall i | 0 <= i < r.value :: files[i].filename != name
    ensures r.None? ==> forall i | 0 <= i < count :: files[i].filename != name
  {
    if count == 0 then None
    else
      var r := FindSlot(files, count - 1, name);
      if r.Some? then r else if files[count - 1].filename == name then Some(count - 1) else None
  }

  datatype Code = Success | ServerError | FileExists | FileNotFound | NotOwner | Failed

  predicate WellSized(d: Directory) {
    && |d.servers| <= MAX_STORAGE_SERVERS
    && |d.index| == FILE_HASH_TABLE_SIZE
    && forall i | 0 <= i < |d.servers| ::
         |d.servers[i].files| == MAX_FILES_PER_SERVER && d.servers[i].count <= MAX_FILES_PER_SERVER
  }

  /** add_file_to_server */
  function AddFile(d: Directory, ssId: int, name: string, owner: string): (r: (Directory, Code))
    requires WellSized(d)
    ensures WellSized(r.0) && (r.1 != Success ==> r.0 == d)
  {
    match FindServer(d.servers, ssId)
    case None => (d, ServerError)
    case Some(sv) =>
      var s := d.servers[sv];
      if s.count >= MAX_FILES_PER_SERVER then (d, ServerError)
      else if FindSlot(s.files, s.count, name).Some? then (d, FileExists)
      else (Appended(d, sv, name, owner), Success)
  }

  /** The file goes into the first unused slot, its node into the index. */
  function Appended(d: Directory, sv: nat, name: string, owner: string): (r: Directory)
    requires WellSized(d) && sv < |d.servers| && d.servers[sv].count < MAX_FILES_PER_SERVER
    ensures WellSized(r)
  {
    var s := d.servers[sv];
    Directory(d.servers[sv := s.(files := s.files[s.count := FileInfo(name, owner, s.ssId)], count := s.count + 1)],
              IndexInsert(d.index, name, FilePtr(sv, s.count)))
  }

  /** The shift: slots behind i move one down, the last slot in use keeps its old content. */
  function Shifted(files: seq<FileInfo>, i: nat, count: nat): (r: seq<FileInfo>)
    requires i < count <= |files|
    ensures |r| == |files|
  {
    files[..i] + files[i + 1..count] + files[count - 1..]
  }

  function Removed(d: Directory, sv: nat, i: nat, name: string): (r: Directory)
    requires WellSized(d) && sv < |d.servers| && i < d.servers[sv].count
    ensures WellSized(r)
  {
    var s := d.servers[sv];
    Directory(d.servers[sv := s.(files := Shifted(s.files, i, s.count), count := s.count - 1)],
              IndexRemove(d.index, name))
  }

  /** remove_file_from_server */
  function RemoveFile(d: Directory, ssId: int, name: string): (r: (Directory, Code))
    requires WellSized(d)
    ensures WellSized(r.0)
  {
    match FindServer(d.servers, ssId)
    case None => (d, ServerError)
    case Some(sv) =>
      match FindSlot(d.servers[sv].files, d.servers[sv].count, name)
      case None => (d, FileNotFound)
      case Some(i) => (Removed(d, sv, i, name), Success)
  }

  /** find_file: the record behind the index node of the name, whatever is in that slot now. */
  function FindFile(d: Directory, name: string): Option<FileInfo>
    requires WellSized(d)
  {
    match IndexFind(d.index, name)
    case None => None
    case Some(p) =>
      if p.server < |d.servers| && p.slot < MAX_FILES_PER_SERVER then Some(d.servers[p.server].files[p.slot]) else None
  }

  // ---------- what holds in every reachable directory ----------

  /** Slot k of server sv is in use for the name. */
  predicate ListedAt(d: Directory, sv: nat, k: nat, name: string) {
    sv < |d.servers| && k < d.servers[sv].count <= |d.servers[sv].files| && d.servers[sv].files[k].filename == name
  }

  ghost predicate ListedOn(d: Directory, sv: nat, name: string) {
    exists k: nat :: ListedAt(d, sv, k, name)
  }

  ghost predicate Listed(d: Directory, name: string) {
    exists sv: nat :: ListedOn(d, sv, name)
  }

  /** Slot k of server sv carries its server's id. */
  predicate Stamped(d: Directory, sv: nat, k: nat) {
    sv < |d.servers| && k < |d.servers[sv].files| && d.servers[sv].files[k].ssId == d.servers[sv].ssId
  }

  /** A node is in chain b. */
  predicate Chained(ix: Index, b: nat, n: IndexNode) {
    b < |ix| && n in ix[b]
  }

  predicate OncePerName(chain: seq<IndexNode>) {
    forall i, j | 0 <= i < j < |chain| :: chain[i].name != chain[j].name
  }

  /** No server id twice, no name listed twice, and every slot in use carries its server's id. */
  ghost predicate TablesOk(d: Directory) {
    && (forall i, j | 0 <= i < j < |d.servers| :: d.servers[i].ssId != d.servers[j].ssId)
    && (forall sv: nat, k: nat, sv2: nat, k2: nat, name ::
          ListedAt(d, sv, k, name) && ListedAt(d, sv2, k2, name) ==> sv == sv2 && k == k2)
    && (forall sv: nat, k: nat, name :: ListedAt(d, sv, k, name) ==> Stamped(d, sv, k))
  }

  /** Chains hold each name once, in its own bucket, with a pointer to a stamped slot of the server that lists it. */
  ghost predicate IndexOk(d: Directory) {
    && (forall b | 0 <= b < |d.index| :: OncePerName(d.index[b]))
    && (forall b: nat, n {:trigger Chained(d.index, b, n)} | Chained(d.index, b, n) ::
          Bucket(n.name) == b && ListedOn(d, n.ptr.server, n.name) && Stamped(d, n.ptr.server, n.ptr.slot))
    && (forall sv: nat, k: nat, name | ListedAt(d, sv, k, name) :: IndexFindOk(d.index, name))
  }

  predicate IndexFindOk(ix: Index, name: string) {
    |ix| == FILE_HASH_TABLE_SIZE && IndexFind(ix, name).Some?
  }

  ghost predicate DirectoryOk(d: Directory) {
    WellSized(d) && TablesOk(d) && IndexOk(d)
  }

  /**
   The index agrees with the directory: the chains know exactly the listed names, and the record found carries
   the id of the server that lists the name, even if it is a neighbour's record.
   */
  lemma FindFileIffListed(d: Directory, name: string)
    requires DirectoryOk(d)
    ensures FindFile(d, name).Some? <==> Listed(d, name)
    ensures FindFile(d, name).Some? ==>
              exists sv: nat :: ListedOn(d, sv, name) && FindFile(d, name).value.ssId == d.servers[sv].ssId
  {
    var p := IndexFind(d.index, name);
    if p.Some? {
      assert Chained(d.index, Bucket(name), IndexNode(name, p.value));
      assert ListedOn(d, p.value.server, name) && Stamped(d, p.value.server, p.value.slot);
    } else {
      forall sv: nat, k: nat ensures !ListedAt(d, sv, k, name) {
        assert ListedAt(d, sv, k, name) ==> IndexFindOk(d.index, name);
      }
    }
  }

  // ---------- adding ----------

  lemma AppendedLists(d: Directory, sv: nat, name: string, owner: string, sv2: nat, k: nat, x: string)
    requires WellSized(d) && sv < |d.servers| && d.servers[sv].count < MAX_FILES_PER_SERVER
    ensures ListedAt(Appended(d, sv, name, owner), sv2, k, x)
        <==> ListedAt(d, sv2, k, x) || (sv2 == sv && k == d.servers[sv].count && x == name)
    ensures Stamped(d, sv2, k) ==> Stamped(Appended(d, sv, name, owner), sv2, k)
    ensures Stamped(Appended(d, sv, name, owner), sv, d.servers[sv].count)
  {
  }

  lemma InsertedFinds(ix: Index, name: string, ptr: FilePtr, x: string)
    requires |ix| == FILE_HASH_TABLE_SIZE
    ensures IndexFind(IndexInsert(ix, name, ptr), x) == if x == name then Some(ptr) else IndexFind(ix, x)
  {
    var chain := [IndexNode(name, ptr)] + ix[Bucket(name)];
    assert chain[1..] == ix[Bucket(name)];
  }

  lemma InsertedChains(ix: Index, name: string, ptr: FilePtr)
    requires |ix| == FILE_HASH_TABLE_SIZE && IndexFind(ix, name).None?
    requires forall b | 0 <= b < |ix| :: OncePerName(ix[b])
    ensures forall b: nat, n {:trigger Chained(IndexInsert(ix, name, ptr), b, n)} ::
              Chained(IndexInsert(ix, name, ptr), b, n)
              ==> Chained(ix, b, n) || (b == Bucket(name) && n == IndexNode(name, ptr))
    ensures forall b | 0 <= b < |ix| :: OncePerName(IndexInsert(ix, name, ptr)[b])
  {
    var b := Bucket(name);
    var chain := [IndexNode(name, ptr)] + ix[b];
    forall i, j | 0 <= i < j < |chain| ensures chain[i].name != chain[j].name {
      if i == 0 { assert ix[b][j - 1] in ix[b]; }
    }
  }

  /** Adding a name that is not listed keeps the agreement and lists exactly that name in addition. */
  lemma AppendedKeepsInv(d: Directory, sv: nat, name: string, owner: string)
    requires DirectoryOk(d) && sv < |d.servers| && d.servers[sv].count < MAX_FILES_PER_SERVER && !Listed(d, name)
    ensures DirectoryOk(Appended(d, sv, name, owner))
    ensures forall sv2: nat, x :: ListedOn(Appended(d, sv, name, owner), sv2, x)
                                  <==> ListedOn(d, sv2, x) || (sv2 == sv && x == name)
  {
    hide Stamped, IndexInsert, IndexFind, Bucket, Chained, OncePerName;
    var d' := Appended(d, sv, name, owner);
    var ptr := FilePtr(sv, d.servers[sv].count);
    forall sv2: nat, k: nat, x
      ensures ListedAt(d', sv2, k, x) <==> ListedAt(d, sv2, k, x) || (sv2 == sv && k == ptr.slot && x == name)
    {
      AppendedLists(d, sv, name, owner, sv2, k, x);
    }
    forall sv2: nat, k: nat ensures Stamped(d, sv2, k) ==> Stamped(d', sv2, k) {
      AppendedLists(d, sv, name, owner, sv2, k, name);
    }
    AppendedLists(d, sv, name, owner, sv, ptr.slot, name);
    UnlistedIsNotFound(d, name);
    InsertedChains(d.index, name, ptr);
    AppendedSizes(d, sv, name, owner);
    hide Appended, ListedAt, WellSized;
    forall sv2: nat, k: nat ensures !ListedAt(d, sv2, k, name) {
      assert ListedAt(d, sv2, k, name) ==> ListedOn(d, sv2, name);
    }
    assert TablesOk(d');
    forall sv2: nat, k: nat, x | ListedAt(d', sv2, k, x) ensures IndexFindOk(d'.index, x) {
      InsertedFinds(d.index, name, ptr, x);
    }
    assert ListedAt(d', sv, ptr.slot, name);
    forall sv2: nat, x ensures ListedOn(d', sv2, x) <==> ListedOn(d, sv2, x) || (sv2 == sv && x == name) {
      if ListedOn(d, sv2, x) {
        var k: nat :| ListedAt(d, sv2, k, x);
        assert ListedAt(d', sv2, k, x);
      }
    }
    forall b: nat, n {:trigger Chained(d'.index, b, n)} | Chained(d'.index, b, n)
      ensures Bucket(n.name) == b && ListedOn(d', n.ptr.server, n.name) && Stamped(d', n.ptr.server, n.ptr.slot)
    {
      if Chained(d.index, b, n) {
        assert ListedOn(d, n.ptr.server, n.name);
      }
    }
  }

  lemma UnlistedIsNotFound(d: Directory, name: string)
    requires DirectoryOk(d) && !Listed(d, name)
    ensures IndexFind(d.index, name).None?
  {
    var p := IndexFind(d.index, name);
    if p.Some? {
      assert Chained(d.index, Bucket(name), IndexNode(name, p.value));
    }
  }

  lemma AppendedSizes(d: Directory, sv: nat, name: string, owner: string)
    requires WellSized(d) && sv < |d.servers| && d.servers[sv].count < MAX_FILES_PER_SERVER
    ensures Appended(d, sv, name, owner).index == IndexInsert(d.index, name, FilePtr(sv, d.servers[sv].count))
    ensures var d' := Appended(d, sv, name, owner);
            && |d'.servers| == |d.servers| && forall i | 0 <= i < |d.servers| :: d'.servers[i].ssId == d.servers[i].ssId
  {
  }

  // ---------- removing ----------

  lemma ShiftedSlots(files: seq<FileInfo>, i: nat, count: nat, k: nat)
    requires i < count <= |files| && k < |files|
    ensures Shifted(files, i, count)[k] == if i <= k < count - 1 then files[k + 1] else files[k]
  {
  }

  /** Where a slot's content comes from after the shift. */
  function Source(sv: nat, i: nat, count: nat, sv2: nat, k: nat): nat {
    if sv2 == sv && i <= k < count - 1 then k + 1 else k
  }

  lemma RemovedLists(d: Directory, sv: nat, i: nat, name: string, sv2: nat, k: nat, x: string)
    requires WellSized(d) && TablesOk(d) && ListedAt(d, sv, i, name)
    ensures ListedAt(Removed(d, sv, i, name), sv2, k, x)
        <==> x != name && ListedAt(d, sv2, Source(sv, i, d.servers[sv].count, sv2, k), x)
             && (sv2 == sv ==> k < d.servers[sv].count - 1)
    ensures Stamped(d, sv2, k) ==> Stamped(Removed(d, sv, i, name), sv2, k)
  {
    var s := d.servers[sv];
    if sv2 == sv && k < |s.files| {
      ShiftedSlots(s.files, i, s.count, k);
      var from := Source(sv, i, s.count, sv2, k);
      if from < s.count {
        assert ListedAt(d, sv, from, s.files[from].filename);
        assert ListedAt(d, sv, i, name);
      }
    } else if sv2 != sv && sv2 < |d.servers| && k < |d.servers[sv2].files| {
      assert ListedAt(d, sv, i, name) && ListedAt(d, sv2, k, x) ==> x != name;
    }
  }

  lemma {:induction false} ChainRemoveExact(chain: seq<IndexNode>, name: string)
    requires OncePerName(chain)
    ensures OncePerName(ChainRemove(chain, name))
    ensures forall n :: n in ChainRemove(chain, name) <==> n in chain && n.name != name
  {
    if chain != [] {
      var rest := chain[1..];
      assert OncePerName(rest);
      assert chain == [chain[0]] + rest;
      ChainRemoveExact(rest, name);
      forall n | n in rest ensures n.name != chain[0].name {
        var j :| 0 <= j < |rest| && rest[j] == n;
        assert chain[j + 1] == n;
      }
      var r := ChainRemove(chain, name);
      if chain[0].name != name {
        forall a, b | 0 <= a < b < |r| ensures r[a].name != r[b].name {
          if a == 0 { assert r[b] in ChainRemove(rest, name); }
        }
      }
    }
  }

  lemma RemovedChains(ix: Index, name: string)
    requires |ix| == FILE_HASH_TABLE_SIZE && forall b | 0 <= b < |ix| :: OncePerName(ix[b])
    ensures forall b | 0 <= b < |ix| :: OncePerName(IndexRemove(ix, name)[b])
    ensures forall b: nat, n {:trigger Chained(IndexRemove(ix, name), b, n)} ::
              Chained(IndexRemove(ix, name), b, n) <==> Chained(ix, b, n) && (b == Bucket(name) ==> n.name != name)
  {
    ChainRemoveExact(ix[Bucket(name)], name);
  }

  lemma RemovedFinds(ix: Index, name: string, x: string)
    requires |ix| == FILE_HASH_TABLE_SIZE && forall b | 0 <= b < |ix| :: OncePerName(ix[b])
    ensures x != name ==> IndexFind(IndexRemove(ix, name), x) == IndexFind(ix, x)
    ensures IndexFind(IndexRemove(ix, name), name) == None
  {
    ChainRemoveExact(ix[Bucket(name)], name);
    if x != name && Bucket(x) == Bucket(name) { FindAfterRemove(ix[Bucket(name)], name, x); }
  }

  lemma {:induction false} FindAfterRemove(chain: seq<IndexNode>, name: string, x: string)
    requires x != name
    ensures ChainFind(ChainRemove(chain, name), x) == ChainFind(chain, x)
  {
    if chain != [] && chain[0].name != name {
      FindAfterRemove(chain[1..], name, x);
    }
  }

  lemma RemovedSizes(d: Directory, sv: nat, i: nat, name: string)
    requires WellSized(d) && sv < |d.servers| && i < d.servers[sv].count
    ensures Removed(d, sv, i, name).index == IndexRemove(d.index, name)
    ensures var d' := Removed(d, sv, i, name);
            && |d'.servers| == |d.servers| && forall i | 0 <= i < |d.servers| :: d'.servers[i].ssId == d.servers[i].ssId
  {
  }

  lemma RemovedListsOn(d: Directory, sv: nat, i: nat, name: string, sv2: nat, x: string)
    requires WellSized(d) && TablesOk(d) && ListedAt(d, sv, i, name)
    ensures ListedOn(Removed(d, sv, i, name), sv2, x) <==> ListedOn(d, sv2, x) && x != name
  {
    var d', count := Removed(d, sv, i, name), d.servers[sv].count;
    if ListedOn(d', sv2, x) {
      var k: nat :| ListedAt(d', sv2, k, x);
      RemovedLists(d, sv, i, name, sv2, k, x);
    }
    if ListedOn(d, sv2, x) && x != name {
      var k: nat :| ListedAt(d, sv2, k, x);
      var k' := if sv2 == sv && k > i then k - 1 else k;
      RemovedLists(d, sv, i, name, sv2, k', x);
      assert ListedAt(d', sv2, k', x);
    }
  }

  lemma RemovedTables(d: Directory, sv: nat, i: nat, name: string)
    requires WellSized(d) && TablesOk(d) && ListedAt(d, sv, i, name)
    ensures TablesOk(Removed(d, sv, i, name))
  {
    var d', count := Removed(d, sv, i, name), d.servers[sv].count;
    RemovedSizes(d, sv, i, name);
    forall sv2: nat, k: nat, x | ListedAt(d', sv2, k, x)
      ensures ListedAt(d, sv2, Source(sv, i, count, sv2, k), x) && (sv2 == sv ==> k < count - 1) && Stamped(d', sv2, k)
    {
      RemovedLists(d, sv, i, name, sv2, k, x);
      var from := Source(sv, i, count, sv2, k);
      assert Stamped(d, sv2, from);
      if k < count && sv2 == sv { assert ListedAt(d, sv, k, d.servers[sv].files[k].filename); }
      assert Stamped(d, sv2, k);
    }
    hide Removed, ListedAt, Stamped, WellSized;
  }

  lemma RemovedNodes(d: Directory, sv: nat, i: nat, name: string)
    requires DirectoryOk(d) && ListedAt(d, sv, i, name)
    ensures IndexOk(Removed(d, sv, i, name))
  {
    hide Stamped, IndexRemove, IndexFind, Bucket, Chained, OncePerName;
    var d' := Removed(d, sv, i, name);
    RemovedChains(d.index, name);
    RemovedSizes(d, sv, i, name);
    forall b: nat, n {:trigger Chained(d'.index, b, n)} | Chained(d'.index, b, n)
      ensures Bucket(n.name) == b && ListedOn(d', n.ptr.server, n.name) && Stamped(d', n.ptr.server, n.ptr.slot)
    {
      assert Chained(d.index, b, n);
      RemovedListsOn(d, sv, i, name, n.ptr.server, n.name);
      RemovedLists(d, sv, i, name, n.ptr.server, n.ptr.slot, name);
    }
    forall sv2: nat, k: nat, x | ListedAt(d', sv2, k, x) ensures IndexFindOk(d'.index, x) {
      RemovedFinds(d.index, name, x);
      RemovedLists(d, sv, i, name, sv2, k, x);
      assert IndexFindOk(d.index, x);
    }
  }

  /** Removing a listed name keeps the agreement and unlists exactly that name, although no pointer is corrected. */
  lemma RemovedKeepsInv(d: Directory, sv: nat, i: nat, name: string)
    requires DirectoryOk(d) && ListedAt(d, sv, i, name)
    ensures DirectoryOk(Removed(d, sv, i, name))
    ensures forall sv2: nat, x :: ListedOn(Removed(d, sv, i, name), sv2, x) <==> ListedOn(d, sv2, x) && x != name
  {
    RemovedSizes(d, sv, i, name);
    RemovedTables(d, sv, i, name);
    RemovedNodes(d, sv, i, name);
    forall sv2: nat, x ensures ListedOn(Removed(d, sv, i, name), sv2, x) <==> ListedOn(d, sv2, x) && x != name {
      RemovedListsOn(d, sv, i, name, sv2, x);
    }
  }
}

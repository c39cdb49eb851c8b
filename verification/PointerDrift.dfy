/** How far the index pointers drift from their files. */
module PointerDrift {
  import opened Text
  import opened Directory
  import opened Moving
  import opened NameServerLaws
  import opened Registration
  import opened RoundRobin

  // A removal moves the records behind it one slot down and leaves the pointers where they are, so a pointer lags by
  // the number of files deleted in front of its own on the same server since it was made. This decides whose record a
  // DELETE or MOVE reads.

  /** The pointer of a listed name leads n slots behind the name's own; an unlisted name has no drift. */
  ghost predicate Drifted(d: Directory, x: string, n: nat)
    requires WellSized(d)
  {
    && (forall sv: nat, q: nat | ListedAt(d, sv, q, x) :: IndexFind(d.index, x) == Some(FilePtr(sv, q + n)))
    && (!Listed(d, x) ==> n == 0)
  }

  /** File y stands in front of file x in the same table. */
  ghost predicate InFrontOf(d: Directory, y: string, x: string) {
    exists sv: nat, i: nat, q: nat :: ListedAt(d, sv, i, y) && ListedAt(d, sv, q, x) && i < q
  }

  /** The drift of x after a removal of name. */
  ghost function DriftBehind(d: Directory, name: string, x: string, n: nat): nat {
    if x == name then 0 else if InFrontOf(d, name, x) then n + 1 else n
  }

  /** How the drift of x changes in one step: only by deletions, of x itself or of a file in front of it. */
  ghost function NextDrift(ns: NameServer, e: Event, x: string, n: nat): nat
    requires WellSized(ns.dir) && |ns.cache| == CACHE_SIZE
  {
    if e.Delete? && DeleteFile(ns, e.name, e.user, e.ok).1 == Success then
      DriftBehind(ns.dir, e.name, x, n)
    else n
  }

  // ---------- one step ----------

  lemma AppendedDrift(d: Directory, sv: nat, name: string, owner: string, x: string, n: nat)
    requires DirectoryOk(d) && sv < |d.servers| && d.servers[sv].count < MAX_FILES_PER_SERVER && !Listed(d, name)
    requires Drifted(d, x, n)
    ensures Drifted(Appended(d, sv, name, owner), x, n)
  {
    var d' := Appended(d, sv, name, owner);
    AppendedSizes(d, sv, name, owner);
    InsertedFinds(d.index, name, FilePtr(sv, d.servers[sv].count), x);
    hide Appended, IndexFind, DirectoryOk, WellSized, ListedAt;
    forall sv2: nat, q: nat
      ensures ListedAt(d', sv2, q, x)
          <==> ListedAt(d, sv2, q, x) || (sv2 == sv && q == d.servers[sv].count && x == name)
    {
      AppendedLists(d, sv, name, owner, sv2, q, x);
    }
    if x == name {
      forall sv2: nat, q: nat ensures !ListedAt(d, sv2, q, x) {
        assert ListedAt(d, sv2, q, x) ==> ListedOn(d, sv2, x);
      }
      assert ListedAt(d', sv, d.servers[sv].count, x);
      assert ListedOn(d', sv, x);
    } else {
      StaysListed(d, d', x);
    }
  }

  lemma StaysListed(d: Directory, d': Directory, x: string)
    requires forall sv: nat, q: nat :: ListedAt(d, sv, q, x) ==> ListedAt(d', sv, q, x)
    ensures Listed(d, x) ==> Listed(d', x)
  {
    if Listed(d, x) {
      var sv: nat :| ListedOn(d, sv, x);
      var q: nat :| ListedAt(d, sv, q, x);
      assert ListedAt(d', sv, q, x);
      assert ListedOn(d', sv, x);
    }
  }

  lemma RemovedPointer(d: Directory, sv: nat, i: nat, name: string, x: string, n: nat, sv2: nat, q: nat)
    requires DirectoryOk(d) && ListedAt(d, sv, i, name) && Drifted(d, x, n)
    requires ListedAt(Removed(d, sv, i, name), sv2, q, x)
    ensures IndexFind(Removed(d, sv, i, name).index, x) == Some(FilePtr(sv2, q + DriftBehind(d, name, x, n)))
  {
    RemovedFinds(d.index, name, x);
    RemovedSizes(d, sv, i, name);
    RemovedLists(d, sv, i, name, sv2, q, x);
    hide Removed, IndexFind, IndexRemove, InFrontOf, IndexOk;
    BehindRemoved(d, sv, i, name, sv2, q, x);
  }

  lemma RemovedDrift(d: Directory, sv: nat, i: nat, name: string, x: string, n: nat)
    requires DirectoryOk(d) && ListedAt(d, sv, i, name) && Drifted(d, x, n)
    ensures Drifted(Removed(d, sv, i, name), x, DriftBehind(d, name, x, n))
  {
    var d' := Removed(d, sv, i, name);
    RemovedKeepsInv(d, sv, i, name);
    hide DirectoryOk, Removed, ListedAt, IndexFind, ListedOn, InFrontOf;
    forall sv2: nat, q: nat | ListedAt(d', sv2, q, x)
      ensures IndexFind(d'.index, x) == Some(FilePtr(sv2, q + DriftBehind(d, name, x, n)))
    {
      RemovedPointer(d, sv, i, name, x, n, sv2, q);
    }
    if x != name && Listed(d, x) {
      var sv2: nat :| ListedOn(d, sv2, x);
      assert ListedOn(d', sv2, x);
    }
    if !Listed(d, x) { NotBehind(d, name, x); }
  }

  lemma NotBehind(d: Directory, name: string, x: string)
    requires !Listed(d, x)
    ensures !InFrontOf(d, name, x)
  {
    forall sv: nat, q: nat ensures !ListedAt(d, sv, q, x) {
      assert ListedAt(d, sv, q, x) ==> ListedOn(d, sv, x);
    }
  }

  /** A file stood behind the removed one exactly if its slot comes from the shifted part. */
  lemma BehindRemoved(d: Directory, sv: nat, i: nat, name: string, sv2: nat, q: nat, x: string)
    requires DirectoryOk(d) && ListedAt(d, sv, i, name) && x != name && (sv2 == sv ==> q < d.servers[sv].count - 1)
    requires ListedAt(d, sv2, Source(sv, i, d.servers[sv].count, sv2, q), x)
    ensures Source(sv, i, d.servers[sv].count, sv2, q) == if InFrontOf(d, name, x) then q + 1 else q
  {
    var from := Source(sv, i, d.servers[sv].count, sv2, q);
    if InFrontOf(d, name, x) {
      var s: nat, j: nat, r: nat :| ListedAt(d, s, j, name) && ListedAt(d, s, r, x) && j < r;
      assert s == sv && j == i && s == sv2 && r == from;
    } else {
      assert ListedAt(d, sv2, from, x) && !(sv2 == sv && i < from);
    }
  }

  lemma SameTablesDrift(d: Directory, d': Directory, x: string, n: nat)
    requires WellSized(d) && WellSized(d') && Drifted(d, x, n) && d'.index == d.index
    requires forall sv: nat, q: nat :: ListedAt(d', sv, q, x) <==> ListedAt(d, sv, q, x)
    ensures Drifted(d', x, n)
  {
    StaysListed(d, d', x);
  }

  lemma {:induction false} EnterDrift(d: Directory, sv: nat, ls: seq<Listing>, x: string, n: nat)
    requires DirectoryOk(d) && sv < |d.servers| && d.servers[sv].count + |ls| <= MAX_FILES_PER_SERVER
    requires Disjoint(d, ls) && Drifted(d, x, n)
    ensures Drifted(Enter(d, sv, ls), x, n)
    decreases |ls|
  {
    if ls != [] {
      var name := ls[0].name;
      var d1 := Appended(d, sv, name, ls[0].owner);
      AppendedDrift(d, sv, name, ls[0].owner, x, n);
      AppendedSizes(d, sv, name, ls[0].owner);
      AppendedKeepsInv(d, sv, name, ls[0].owner);
      assert d1.servers[sv].count == d.servers[sv].count + 1;
      hide Appended, DirectoryOk, WellSized, ListedOn, Drifted;
      forall i | 0 <= i < |ls[1..]| ensures !Listed(d1, ls[1..][i].name) {
        assert !Listed(d, ls[i + 1].name) && ls[i + 1].name != name;
      }
      EnterDrift(d1, sv, ls[1..], x, n);
    }
  }

  lemma AddDrift(d: Directory, ssId: int, name: string, owner: string, x: string, n: nat)
    requires DirectoryOk(d) && !Listed(d, name) && Drifted(d, x, n)
    ensures Drifted(AddFile(d, ssId, name, owner).0, x, n)
  {
    var sv := FindServer(d.servers, ssId);
    if sv.Some? && d.servers[sv.value].count < MAX_FILES_PER_SERVER {
      AppendedDrift(d, sv.value, name, owner, x, n);
    }
  }

  /** Where a listed name stands, in the terms of remove_file_from_server. */
  lemma SlotOfListed(d: Directory, ssId: int, name: string) returns (sv: nat, i: nat)
    requires DirectoryOk(d) && ListedBy(d, ssId, name)
    ensures ListedAt(d, sv, i, name) && RemoveFile(d, ssId, name) == (Removed(d, sv, i, name), Success)
  {
    sv :| ListedOn(d, sv, name) && sv < |d.servers| && d.servers[sv].ssId == ssId;
    assert FindServer(d.servers, ssId) == Some(sv);
    var k: nat :| ListedAt(d, sv, k, name);
    i := FindSlot(d.servers[sv].files, d.servers[sv].count, name).value;
  }

  /** Taking out the file just added moves nobody: it stands last. */
  lemma RollbackDrift(d: Directory, ssId: int, name: string, owner: string, x: string, n: nat)
    requires DirectoryOk(d) && !Listed(d, name) && Drifted(d, x, n)
    requires AddFile(d, ssId, name, owner).1 == Success
    ensures Drifted(RemoveFile(AddFile(d, ssId, name, owner).0, ssId, name).0, x, n)
  {
    var d1, s := AddFile(d, ssId, name, owner).0, FindServer(d.servers, ssId).value;
    AddDrift(d, ssId, name, owner, x, n);
    AddKeepsOk(d, ssId, name, owner);
    var sv, i := SlotOfListed(d1, ssId, name);
    RemovedDrift(d1, sv, i, name, x, n);
    AppendedLists(d, s, name, owner, s, d.servers[s].count, name);
    forall sv2: nat, j: nat, q: nat | ListedAt(d1, sv2, j, name) && ListedAt(d1, sv2, q, x) ensures q <= j {
      assert sv2 == s && j == d.servers[s].count;
    }
    if x == name { assert n == 0; }
  }

  lemma CreateDrift(ns: NameServer, name: string, user: string, ok: bool, x: string, n: nat)
    requires ServerInv(ns) && Drifted(ns.dir, x, n)
    ensures Drifted(CreateFile(ns, name, user, ok).0.dir, x, n)
    ensures Drifted(CreateFolder(ns, name, user, ok).0.dir, x, n)
  {
    UnlistedIffNotFound(ns.dir, name);
    hide DirectoryOk, Listed, Drifted, FindFile, AddFile, RemoveFile, Available;
    var ssId := Available(ns).1;
    if FindFile(ns.dir, name).None? && ssId >= 0 {
      AddDrift(ns.dir, ssId, name, user, x, n);
      if AddFile(ns.dir, ssId, name, user).1 == Success { RollbackDrift(ns.dir, ssId, name, user, x, n); }
    }
  }

  lemma DeleteDrift(ns: NameServer, e: Event, x: string, n: nat)
    requires ServerInv(ns) && Drifted(ns.dir, x, n) && e.Delete?
    ensures Drifted(DeleteFile(ns, e.name, e.user, e.ok).0.dir, x, NextDrift(ns, e, x, n))
  {
    UnlistedIffNotFound(ns.dir, e.name);
    hide DirectoryOk, Listed, Drifted, FindFile, RemoveFile, InFrontOf;
    if DeleteFile(ns, e.name, e.user, e.ok).1 == Success {
      var sv, i := SlotOfListed(ns.dir, FindFile(ns.dir, e.name).value.ssId, e.name);
      RemovedDrift(ns.dir, sv, i, e.name, x, n);
    }
  }

  lemma RegisterDrift(d: Directory, ssId: int, address: string, text: string, x: string, n: nat)
    requires DirectoryOk(d) && Drifted(d, x, n)
    requires FindServer(d.servers, ssId).None? ==> Disjoint(d, ParseFileList(text))
    ensures Drifted(Register(d, ssId, address, text).0, x, n)
  {
    var sv := FindServer(d.servers, ssId);
    if sv.Some? {
      SameTablesDrift(d, Reconnected(d, sv.value, address), x, n);
    } else if |d.servers| < MAX_STORAGE_SERVERS {
      var ls, d0 := ParseFileList(text), WithServer(d, ssId, address);
      WithServerOk(d, ssId, address);
      SameTablesDrift(d, d0, x, n);
      SameListing(d, d0, ls);
      hide DirectoryOk, Disjoint, ParseFileList, Drifted;
      assert |ls| <= MAX_LISTED;
      EnterDrift(d0, |d.servers|, ls, x, n);
    }
  }

  /** The drift of every name changes in every step as NextDrift says. */
  lemma StepDrift(ns: NameServer, e: Event, x: string, n: nat)
    requires ServerInv(ns) && Legal(ns, e) && Drifted(ns.dir, x, n)
    ensures WellSized(Next(ns, e).dir) && Drifted(Next(ns, e).dir, x, NextDrift(ns, e, x, n))
  {
    NextKeepsInv(ns, e);
    hide Drifted, DirectoryOk, CreateFile, CreateFolder, DeleteFile, Register, FindFile;
    match e {
      case LocateFile(name, now) => LocateIsFullLookup(ns, name, now);
      case Create(name, user, ok) => CreateDrift(ns, name, user, ok, x, n);
      case MakeFolder(name, user, ok) => CreateDrift(ns, name, user, ok, x, n);
      case Delete(name, user, ok) => DeleteDrift(ns, e, x, n);
      case RegisterServer(ssId, address, text) => RegisterDrift(ns.dir, ssId, address, text, x, n);
    }
  }

  // ---------- runs ----------

  /** The drift of x after a run: how many files in front of it were deleted since it was last added. */
  ghost function Drift(ns: NameServer, es: seq<Event>, x: string, n: nat): nat
    requires ServerInv(ns) && LegalRun(ns, es)
    decreases |es|
  {
    if es == [] then n
    else
      NextKeepsInv(ns, es[0]);
      Drift(Next(ns, es[0]), es[1..], x, NextDrift(ns, es[0], x, n))
  }

  lemma {:induction false} RunDrift(ns: NameServer, es: seq<Event>, x: string, n: nat)
    requires ServerInv(ns) && LegalRun(ns, es) && Drifted(ns.dir, x, n)
    ensures ServerInv(Run(ns, es)) && Drifted(Run(ns, es).dir, x, Drift(ns, es, x, n))
    decreases |es|
  {
    hide Drifted, Next, NextDrift;
    if es != [] {
      NextKeepsInv(ns, es[0]);
      StepDrift(ns, es[0], x, n);
      RunDrift(Next(ns, es[0]), es[1..], x, NextDrift(ns, es[0], x, n));
    }
  }

  /** The record the pointer of a drifted name reads, and who may delete the file. */
  lemma DriftedReads(ns: NameServer, x: string, n: nat, sv: nat, q: nat)
    requires ServerInv(ns) && Drifted(ns.dir, x, n) && ListedAt(ns.dir, sv, q, x)
    ensures WellSized(ns.dir) && |ns.cache| == CACHE_SIZE && sv < |ns.dir.servers|
    ensures q + n < MAX_FILES_PER_SERVER == |ns.dir.servers[sv].files|
    ensures FindFile(ns.dir, x) == Some(ns.dir.servers[sv].files[q + n])
    ensures Accurate(ns.dir, x) <==> n == 0
  {
    assert Chained(ns.dir.index, Bucket(x), IndexNode(x, FilePtr(sv, q + n)));
    assert Stamped(ns.dir, sv, q + n);
    assert ListedAt(ns.dir, sv, q + n, x) ==> q + n == q;
  }

  /**
   After every run, the record a name leads to is the one as many slots behind the name's own as files in front
   of it were deleted since it was added; the pointer is accurate exactly if there were none. DELETE asks the
   owner of that record.
   */
  lemma PointersOverRuns(es: seq<Event>, x: string, sv: nat, q: nat)
    requires LegalRun(Boot(), es) && ListedAt(Run(Boot(), es).dir, sv, q, x)
    ensures var ns, n := Run(Boot(), es), Drift(Boot(), es, x, 0);
            && WellSized(ns.dir) && |ns.cache| == CACHE_SIZE
            && (Accurate(ns.dir, x) <==> n == 0)
            && q + n < MAX_FILES_PER_SERVER
            && FindFile(ns.dir, x) == Some(ns.dir.servers[sv].files[q + n])
            && forall user, ok :: DeleteFile(ns, x, user, ok).1 == NotOwner
                                  <==> user != ns.dir.servers[sv].files[q + n].owner
  {
    NothingDrifted(x);
    hide *;
    RunDrift(Boot(), es, x, 0);
    var ns, n := Run(Boot(), es), Drift(Boot(), es, x, 0);
    DriftedReads(ns, x, n, sv, q);
    DeleteAsksRecord(ns, x);
  }

  lemma NothingDrifted(x: string)
    ensures Drifted(Boot().dir, x, 0)
  {
  }

  lemma DeleteAsksRecord(ns: NameServer, x: string)
    requires ServerInv(ns) && FindFile(ns.dir, x).Some?
    ensures forall user, ok :: DeleteFile(ns, x, user, ok).1 == NotOwner <==> user != FindFile(ns.dir, x).value.owner
  {
    hide FindFile, DirectoryOk, Coherent, RemoveFile;
  }

  lemma SizedServer(ns: NameServer)
    requires ServerInv(ns)
    ensures WellSized(ns.dir) && |ns.cache| == CACHE_SIZE
  {
  }

  // ---------- a run that reaches a wrong owner ----------

  /** One online server, whose table holds exactly recs and whose pointers are all accurate. */
  ghost predicate Solo(ns: NameServer, ssId: int, recs: seq<FileInfo>) {
    && ServerInv(ns) && |ns.dir.servers| == 1 && 0 <= ssId
    && ns.dir.servers[0].online && ns.dir.servers[0].ssId == ssId && ns.dir.servers[0].count == |recs|
    && (forall i | 0 <= i < |recs| :: ns.dir.servers[0].files[i] == recs[i])
    && (forall i | 0 <= i < |recs| :: IndexFind(ns.dir.index, recs[i].filename) == Some(FilePtr(0, i)))
  }

  lemma SoloUnlisted(ns: NameServer, ssId: int, recs: seq<FileInfo>, name: string)
    requires Solo(ns, ssId, recs) && forall i | 0 <= i < |recs| :: recs[i].filename != name
    ensures !Listed(ns.dir, name) && FindFile(ns.dir, name).None?
  {
    forall sv: nat, k: nat ensures !ListedAt(ns.dir, sv, k, name) {
      if sv == 0 && k < |recs| { assert ns.dir.servers[0].files[k] == recs[k]; }
    }
    UnlistedIffNotFound(ns.dir, name);
  }

  lemma SoloAvailable(ns: NameServer, ssId: int, recs: seq<FileInfo>)
    requires Solo(ns, ssId, recs)
    ensures Available(ns).1 == ssId && FindServer(ns.dir.servers, ssId) == Some(0)
  {
    assert Online(ns.dir.servers) == [true];
    assert Scan([true], ns.nextSs, 0) == Some(0);
  }

  lemma SoloCreate(ns: NameServer, ssId: int, recs: seq<FileInfo>, name: string, user: string)
    requires Solo(ns, ssId, recs) && |recs| < MAX_FILES_PER_SERVER
    requires forall i | 0 <= i < |recs| :: recs[i].filename != name
    ensures Solo(CreateFile(ns, name, user, true).0, ssId, recs + [FileInfo(name, user, ssId)])
  {
    SoloUnlisted(ns, ssId, recs, name);
    SoloAvailable(ns, ssId, recs);
    CreateFileKeepsInv(ns, name, user, true);
    NoSlot(ns.dir, 0, name);
    var d', ptr := Appended(ns.dir, 0, name, user), FilePtr(0, |recs|);
    AppendedSizes(ns.dir, 0, name, user);
    forall x ensures IndexFind(d'.index, x) == if x == name then Some(ptr) else IndexFind(ns.dir.index, x) {
      InsertedFinds(ns.dir.index, name, ptr, x);
    }
    hide IndexFind, IndexInsert, DirectoryOk, Coherent, FindFile, Available, FindSlot, FindServer;
    assert CreateFile(ns, name, user, true).0.dir == d';
  }

  lemma SoloRegister(ssId: int, address: string)
    requires 0 <= ssId
    ensures Legal(Boot(), RegisterServer(ssId, address, ""))
    ensures Solo(Next(Boot(), RegisterServer(ssId, address, "")), ssId, [])
  {
    assert ParseFileList("") == [] by { NothingListed(); }
    NextKeepsInv(Boot(), RegisterServer(ssId, address, ""));
  }

  lemma NothingListed()
    ensures ParseFileList("") == []
  {
  }

  /** Three files of three users on one server, the first of them deleted again. */
  function ThreeFiles(address: string, a: FileInfo, b: FileInfo, c: FileInfo): seq<Event> {
    [RegisterServer(a.ssId, address, ""), Create(a.filename, a.owner, true), Create(b.filename, b.owner, true),
     Create(c.filename, c.owner, true), Delete(a.filename, a.owner, true)]
  }

  lemma SoloListed(ns: NameServer, ssId: int, recs: seq<FileInfo>, i: nat)
    requires Solo(ns, ssId, recs) && i < |recs|
    ensures WellSized(ns.dir) && ListedAt(ns.dir, 0, i, recs[i].filename)
    ensures FindFile(ns.dir, recs[i].filename) == Some(recs[i])
  {
    assert |recs| <= MAX_FILES_PER_SERVER;
  }

  /** Deleting the first of three files makes the second one's pointer read the third one's record. */
  lemma FirstDeleted(ns: NameServer, ssId: int, a: FileInfo, b: FileInfo, c: FileInfo)
    requires Solo(ns, ssId, [a, b, c]) && a.ssId == ssId && a.filename != b.filename
    ensures WellSized(ns.dir) && |ns.cache| == CACHE_SIZE
    ensures var r := DeleteFile(ns, a.filename, a.owner, true).0;
            && ServerInv(r) && FindFile(r.dir, b.filename) == Some(c) && !Accurate(r.dir, b.filename)
  {
    var recs := [a, b, c];
    SoloListed(ns, ssId, recs, 0);
    SoloListed(ns, ssId, recs, 1);
    DeleteFileKeepsInv(ns, a.filename, a.owner, true);
    assert ns.dir.servers[0].files[2] == recs[2];
    assert IndexFind(ns.dir.index, recs[1].filename) == Some(FilePtr(0, 1));
    assert ListedOn(ns.dir, 0, a.filename);
    var sv, i := SlotOfListed(ns.dir, ssId, a.filename);
    assert ListedAt(ns.dir, sv, i, a.filename) && ListedAt(ns.dir, 0, 0, a.filename);
    RemovalMovesRecords(ns.dir, sv, i, a.filename, b.filename, 1);
    RemovalSpoilsPointer(ns.dir, sv, i, a.filename, b.filename, 1);
  }

  lemma RunCons(ns: NameServer, e: Event, es: seq<Event>)
    requires ServerInv(ns) && Legal(ns, e) && ServerInv(Next(ns, e)) && LegalRun(Next(ns, e), es)
    ensures LegalRun(ns, [e] + es) && Run(ns, [e] + es) == Run(Next(ns, e), es)
  {
    assert ([e] + es)[1..] == es;
  }

  lemma CreatedNext(ns: NameServer, ssId: int, recs: seq<FileInfo>, f: FileInfo)
    requires Solo(ns, ssId, recs) && |recs| < MAX_FILES_PER_SERVER && f.ssId == ssId
    requires forall i | 0 <= i < |recs| :: recs[i].filename != f.filename
    ensures ServerInv(ns) && Legal(ns, Create(f.filename, f.owner, true))
    ensures Solo(Next(ns, Create(f.filename, f.owner, true)), ssId, recs + [f])
  {
    SoloCreate(ns, ssId, recs, f.filename, f.owner);
  }

  lemma SoloInv(ns: NameServer, ssId: int, recs: seq<FileInfo>)
    requires Solo(ns, ssId, recs)
    ensures ServerInv(ns) && WellSized(ns.dir) && |ns.cache| == CACHE_SIZE
  {
  }

  /** From start-up: then the owner of the third file may delete the second one, and its own owner may not. */
  lemma NeighbourDecides(ssId: int, address: string, a: FileInfo, b: FileInfo, c: FileInfo)
    requires 0 <= ssId == a.ssId == b.ssId == c.ssId && b.owner != c.owner
    requires a.filename != b.filename && a.filename != c.filename && b.filename != c.filename
    ensures LegalRun(Boot(), ThreeFiles(address, a, b, c))
    ensures var ns := Run(Boot(), ThreeFiles(address, a, b, c));
            && WellSized(ns.dir) && |ns.cache| == CACHE_SIZE
            && !Accurate(ns.dir, b.filename)
            && DeleteFile(ns, b.filename, b.owner, true).1 == NotOwner
            && DeleteFile(ns, b.filename, c.owner, true).1 == Success
  {
    var es := ThreeFiles(address, a, b, c);
    hide Solo, Next, Accurate, ServerInv, LegalRun, Run, WellSized, FindFile, Boot, RemoveFile;
    SizedServer(Boot());
    SoloRegister(ssId, address);
    var n1 := Next(Boot(), es[0]);
    SoloInv(n1, ssId, []);
    CreatedNext(n1, ssId, [], a);
    var n2 := Next(n1, es[1]);
    SoloInv(n2, ssId, [] + [a]);
    assert [] + [a] == [a];
    CreatedNext(n2, ssId, [a], b);
    var n3 := Next(n2, es[2]);
    SoloInv(n3, ssId, [a] + [b]);
    assert [a] + [b] == [a, b];
    CreatedNext(n3, ssId, [a, b], c);
    var n4 := Next(n3, es[3]);
    SoloInv(n4, ssId, [a, b] + [c]);
    assert [a, b] + [c] == [a, b, c];
    FirstDeleted(n4, ssId, a, b, c);
    DeletedNext(n4, a);
    var n5 := Next(n4, es[4]);
    SizedServer(n5);
    EmptyRun(n5);
    RunCons(n4, es[4], []);
    RunCons(n3, es[3], [es[4]] + []);
    RunCons(n2, es[2], [es[3]] + ([es[4]] + []));
    RunCons(n1, es[1], [es[2]] + ([es[3]] + ([es[4]] + [])));
    RunCons(Boot(), es[0], [es[1]] + ([es[2]] + ([es[3]] + ([es[4]] + []))));
    assert es == [es[0]] + ([es[1]] + ([es[2]] + ([es[3]] + ([es[4]] + []))));
  }

  lemma DeletedNext(ns: NameServer, a: FileInfo)
    requires WellSized(ns.dir) && |ns.cache| == CACHE_SIZE
    ensures Legal(ns, Delete(a.filename, a.owner, true))
    ensures Next(ns, Delete(a.filename, a.owner, true)) == DeleteFile(ns, a.filename, a.owner, true).0
  {
  }

  lemma EmptyRun(ns: NameServer)
    requires ServerInv(ns)
    ensures LegalRun(ns, []) && Run(ns, []) == ns
  {
  }
}

/** Where the directory's pointers go wrong, and MOVE. */
module Moving {
  import opened Text
  import opened Directory
  import opened NameServerLaws
  import opened Registration

  // Removals shift records under the index, and MOVE renames through the pointer it finds.

  /**
   Removing file i of a table: a pointer into the part that is shifted now leads to the record of the next file,
   the last pointer of the table to the stale copy left behind, every other pointer to what it led to before.
   */
  lemma RemovalMovesRecords(d: Directory, sv: nat, i: nat, other: string, name: string, k: nat)
    requires DirectoryOk(d) && ListedAt(d, sv, i, other) && name != other
    requires IndexFind(d.index, name) == Some(FilePtr(sv, k))
    ensures k < MAX_FILES_PER_SERVER
    ensures FindFile(Removed(d, sv, i, other), name)
         == Some(d.servers[sv].files[if i <= k < d.servers[sv].count - 1 then k + 1 else k])
  {
    assert Chained(d.index, Bucket(name), IndexNode(name, FilePtr(sv, k)));
    RemovedFinds(d.index, other, name);
    ShiftedSlots(d.servers[sv].files, i, d.servers[sv].count, k);
  }

  /** The pointer of the name leads to the slot that lists it. */
  predicate Accurate(d: Directory, name: string)
    requires WellSized(d)
  {
    var p := IndexFind(d.index, name);
    p.Some? && ListedAt(d, p.value.server, p.value.slot, name)
  }

  /** A freshly added file's pointer is accurate; removing an earlier file of the same server makes it wrong. */
  lemma RemovalSpoilsPointer(d: Directory, sv: nat, i: nat, other: string, name: string, k: nat)
    requires DirectoryOk(d) && ListedAt(d, sv, i, other) && name != other
    requires IndexFind(d.index, name) == Some(FilePtr(sv, k)) && ListedAt(d, sv, k, name)
    ensures WellSized(Removed(d, sv, i, other))
    ensures Accurate(Removed(d, sv, i, other), name) <==> k < i
  {
    RemovedFinds(d.index, other, name);
    RemovedLists(d, sv, i, other, sv, k, name);
    if i <= k < d.servers[sv].count - 1 && ListedAt(d, sv, k + 1, name) {
      assert ListedAt(d, sv, k, name);
    }
  }

  // ---------- MOVE ----------

  function NewPath(target: string, name: string): string {
    Truncate(target + "/" + name, NAME_LIMIT)
  }

  /** The record at p gets the new name, and the index a node for it. */
  function Renamed(d: Directory, name: string, newName: string, p: FilePtr): (r: Directory)
    requires WellSized(d) && p.server < |d.servers| && p.slot < MAX_FILES_PER_SERVER
    ensures WellSized(r)
  {
    var s := d.servers[p.server];
    var file := s.files[p.slot];
    Directory(d.servers[p.server := s.(files := s.files[p.slot := file.(filename := newName)])],
              IndexInsert(IndexRemove(d.index, name), newName, p))
  }

  /** handle_move_file; ok says whether the storage server was reached and moved the file. */
  function MoveFile(ns: NameServer, name: string, target: string, user: string, ok: bool): (NameServer, Code)
    requires WellSized(ns.dir)
  {
    match FindFile(ns.dir, name)
    case None => (ns, FileNotFound)
    case Some(file) =>
      if file.owner != user then (ns, NotOwner)
      else
        var sv := FindServer(ns.dir.servers, file.ssId);
        if sv.None? || !ns.dir.servers[sv.value].online then (ns, ServerError)
        else if !ok then (ns, Failed)
        else
          var d := Renamed(ns.dir, name, NewPath(target, name), IndexFind(ns.dir.index, name).value);
          (NameServer(d, CacheClear(), ns.nextSs), Success)
  }

  /** When renaming through the pointer is right. */
  ghost predicate RenamesRight(d: Directory, name: string, newName: string)
    requires WellSized(d)
  {
    var p := IndexFind(d.index, name);
    && p.Some?
    && if newName == name then forall x | ListedAt(d, p.value.server, p.value.slot, x) :: x == name
       else Accurate(d, name) && !Listed(d, newName)
  }

  lemma RenamedLists(d: Directory, name: string, newName: string, p: FilePtr, sv: nat, k: nat, x: string)
    requires WellSized(d) && p.server < |d.servers| && p.slot < MAX_FILES_PER_SERVER
    ensures ListedAt(Renamed(d, name, newName, p), sv, k, x)
        <==> if sv == p.server && k == p.slot then k < d.servers[sv].count && x == newName else ListedAt(d, sv, k, x)
    ensures Stamped(Renamed(d, name, newName, p), sv, k) <==> Stamped(d, sv, k)
  {
  }

  lemma RenamedFinds(d: Directory, name: string, newName: string, p: FilePtr, x: string)
    requires DirectoryOk(d) && p.server < |d.servers| && p.slot < MAX_FILES_PER_SERVER
    ensures IndexFind(Renamed(d, name, newName, p).index, x)
         == if x == newName then Some(p) else if x == name then None else IndexFind(d.index, x)
  {
    RemovedFinds(d.index, name, x);
    InsertedFinds(IndexRemove(d.index, name), newName, p, x);
  }

  /** A name listed elsewhere is listed twice, or not found, after a wrong rename. */
  lemma WrongRename(d: Directory, name: string, newName: string, p: FilePtr)
    requires DirectoryOk(d) && IndexFind(d.index, name) == Some(p) && !RenamesRight(d, name, newName)
    ensures p.server < |d.servers| && p.slot < MAX_FILES_PER_SERVER
    ensures !DirectoryOk(Renamed(d, name, newName, p))
  {
    assert Chained(d.index, Bucket(name), IndexNode(name, p));
    assert Stamped(d, p.server, p.slot);
    var q: nat :| ListedAt(d, p.server, q, name);
    var d' := Renamed(d, name, newName, p);
    RenamedLists(d, name, newName, p, p.server, q, name);
    RenamedLists(d, name, newName, p, p.server, p.slot, newName);
    hide DirectoryOk, Renamed, RenamesRight, Accurate, ListedAt, Listed;
    if newName == name {
      SameNameWrong(d, name, p, q);
    } else if q != p.slot {
      RenamedFinds(d, name, newName, p, name);
      UnfoundBreaks(d', p.server, q, name);
    } else {
      TwiceListed(d, name, newName, p);
    }
  }

  lemma UnfoundBreaks(d: Directory, sv: nat, k: nat, name: string)
    requires ListedAt(d, sv, k, name) && |d.index| == FILE_HASH_TABLE_SIZE && IndexFind(d.index, name) == None
    ensures !DirectoryOk(d)
  {
    assert !IndexFindOk(d.index, name);
  }

  lemma SameNameWrong(d: Directory, name: string, p: FilePtr, q: nat)
    requires DirectoryOk(d) && IndexFind(d.index, name) == Some(p) && !RenamesRight(d, name, name)
    requires p.server < |d.servers| && p.slot < MAX_FILES_PER_SERVER && ListedAt(d, p.server, q, name)
    ensures !DirectoryOk(Renamed(d, name, name, p))
  {
    var x :| ListedAt(d, p.server, p.slot, x) && x != name;
    var d' := Renamed(d, name, name, p);
    RenamedLists(d, name, name, p, p.server, q, name);
    RenamedLists(d, name, name, p, p.server, p.slot, name);
    assert ListedAt(d', p.server, q, name) && ListedAt(d', p.server, p.slot, name) && q != p.slot;
  }

  lemma TwiceListed(d: Directory, name: string, newName: string, p: FilePtr)
    requires DirectoryOk(d) && IndexFind(d.index, name) == Some(p) && !RenamesRight(d, name, newName) && newName != name
    requires p.server < |d.servers| && p.slot < MAX_FILES_PER_SERVER && ListedAt(d, p.server, p.slot, name)
    ensures !DirectoryOk(Renamed(d, name, newName, p))
  {
    var d' := Renamed(d, name, newName, p);
    var sv: nat :| ListedOn(d, sv, newName);
    var k: nat :| ListedAt(d, sv, k, newName);
    RenamedLists(d, name, newName, p, sv, k, newName);
    RenamedLists(d, name, newName, p, p.server, p.slot, newName);
    assert ListedAt(d', sv, k, newName) && ListedAt(d', p.server, p.slot, newName);
  }

  /** An accurate pointer and an unused name: the rename lists the new name in place of the old one. */
  lemma RightRename(d: Directory, name: string, newName: string, p: FilePtr)
    requires DirectoryOk(d) && IndexFind(d.index, name) == Some(p) && RenamesRight(d, name, newName)
    ensures p.server < |d.servers| && p.slot < MAX_FILES_PER_SERVER
    ensures DirectoryOk(Renamed(d, name, newName, p))
  {
    assert Chained(d.index, Bucket(name), IndexNode(name, p));
    assert Stamped(d, p.server, p.slot);
    RenamedTables(d, name, newName, p);
    RenamedNodes(d, name, newName, p);
  }

  lemma RenamedTables(d: Directory, name: string, newName: string, p: FilePtr)
    requires DirectoryOk(d) && IndexFind(d.index, name) == Some(p) && RenamesRight(d, name, newName)
    requires p.server < |d.servers| && p.slot < MAX_FILES_PER_SERVER
    ensures TablesOk(Renamed(d, name, newName, p))
    ensures forall sv: nat, k: nat, x | ListedAt(Renamed(d, name, newName, p), sv, k, x) ::
              IndexFindOk(Renamed(d, name, newName, p).index, x)
  {
    var d' := Renamed(d, name, newName, p);
    forall sv: nat, k: nat, x | ListedAt(d', sv, k, x)
      ensures Stamped(d', sv, k) && IndexFindOk(d'.index, x)
      ensures if sv == p.server && k == p.slot then k < d.servers[sv].count && x == newName
              else ListedAt(d, sv, k, x) && (p.slot < d.servers[p.server].count ==> x != newName)
    {
      RenamedLists(d, name, newName, p, sv, k, x);
      RenamedFinds(d, name, newName, p, x);
      if sv == p.server && k == p.slot {
        assert ListedAt(d, sv, k, d.servers[sv].files[k].filename);
      } else {
        assert ListedAt(d, sv, k, x) && IndexFindOk(d.index, x);
        ElsewhereIsOther(d, name, newName, p, sv, k, x);
      }
    }
    hide Renamed, ListedAt, Stamped, RenamesRight;
  }

  lemma ElsewhereIsOther(d: Directory, name: string, newName: string, p: FilePtr, sv: nat, k: nat, x: string)
    requires DirectoryOk(d) && IndexFind(d.index, name) == Some(p) && RenamesRight(d, name, newName)
    requires p.server < |d.servers| && p.slot < MAX_FILES_PER_SERVER
    requires ListedAt(d, sv, k, x) && !(sv == p.server && k == p.slot)
    ensures newName != name ==> x != name
    ensures p.slot < d.servers[p.server].count ==> x != newName
  {
    if p.slot < d.servers[p.server].count {
      assert ListedAt(d, p.server, p.slot, d.servers[p.server].files[p.slot].filename);
    }
    if newName != name {
      assert ListedAt(d, p.server, p.slot, name);
      if x == newName { assert ListedOn(d, sv, x); }
    }
  }

  lemma RenamedNodes(d: Directory, name: string, newName: string, p: FilePtr)
    requires DirectoryOk(d) && IndexFind(d.index, name) == Some(p) && RenamesRight(d, name, newName)
    requires p.server < |d.servers| && p.slot < MAX_FILES_PER_SERVER && Stamped(d, p.server, p.slot)
    ensures IndexOk(Renamed(d, name, newName, p))
  {
    var d' := Renamed(d, name, newName, p);
    RenamedTables(d, name, newName, p);
    RemovedChains(d.index, name);
    RemovedFinds(d.index, name, newName);
    if newName != name { UnlistedIsNotFound(d, newName); }
    InsertedChains(IndexRemove(d.index, name), newName, p);
    assert d'.index == IndexInsert(IndexRemove(d.index, name), newName, p);
    hide IndexInsert, IndexRemove, Chained, OncePerName, IndexFindOk;
    forall b: nat, n {:trigger Chained(d'.index, b, n)} | Chained(d'.index, b, n)
      ensures Bucket(n.name) == b && ListedOn(d', n.ptr.server, n.name) && Stamped(d', n.ptr.server, n.ptr.slot)
    {
      RenamedLists(d, name, newName, p, n.ptr.server, n.ptr.slot, n.name);
      if b == Bucket(newName) && n == IndexNode(newName, p) {
        NewNameListed(d, name, newName, p);
      } else {
        assert Chained(d.index, b, n) && n.name != name;
        StillListed(d, name, newName, p, n.ptr.server, n.name);
      }
    }
  }

  lemma NewNameListed(d: Directory, name: string, newName: string, p: FilePtr)
    requires DirectoryOk(d) && IndexFind(d.index, name) == Some(p) && RenamesRight(d, name, newName)
    requires p.server < |d.servers| && p.slot < MAX_FILES_PER_SERVER
    ensures ListedOn(Renamed(d, name, newName, p), p.server, newName)
  {
    assert Chained(d.index, Bucket(name), IndexNode(name, p));
    var q: nat :| ListedAt(d, p.server, q, name);
    RenamedLists(d, name, newName, p, p.server, q, newName);
    RenamedLists(d, name, newName, p, p.server, p.slot, newName);
    if newName == name && q != p.slot {
      assert ListedAt(Renamed(d, name, newName, p), p.server, q, newName);
    } else {
      assert ListedAt(Renamed(d, name, newName, p), p.server, p.slot, newName);
    }
  }

  lemma StillListed(d: Directory, name: string, newName: string, p: FilePtr, sv: nat, x: string)
    requires DirectoryOk(d) && IndexFind(d.index, name) == Some(p) && RenamesRight(d, name, newName)
    requires p.server < |d.servers| && p.slot < MAX_FILES_PER_SERVER && ListedOn(d, sv, x) && x != name
    ensures ListedOn(Renamed(d, name, newName, p), sv, x)
  {
    var k: nat :| ListedAt(d, sv, k, x);
    RenamedLists(d, name, newName, p, sv, k, x);
    assert ListedAt(Renamed(d, name, newName, p), sv, k, x);
  }

  /**
   A successful MOVE keeps the agreement of index, tables and cache if and only if the pointer it renames through
   is the file's own and the new path is not taken (or, for a path cut to the old name, the slot it overwrites is
   nobody else's).
   */
  lemma MoveKeepsInvIff(ns: NameServer, name: string, target: string, user: string, ok: bool)
    requires ServerInv(ns) && MoveFile(ns, name, target, user, ok).1 == Success
    ensures ServerInv(MoveFile(ns, name, target, user, ok).0) <==> RenamesRight(ns.dir, name, NewPath(target, name))
  {
    var d, newName := ns.dir, NewPath(target, name);
    var p := IndexFind(d.index, name).value;
    if RenamesRight(d, name, newName) {
      RightRename(d, name, newName, p);
    } else {
      WrongRename(d, name, newName, p);
    }
  }

  /** The path of a file in its new folder, as far as its buffer goes. */
  predicate IsPath(path: string, target: string, name: string) {
    path == if |target + "/" + name| <= 255 then target + "/" + name else (target + "/" + name)[..255]
  }

  lemma RenamedIsFound(d: Directory, name: string, path: string, p: FilePtr)
    requires DirectoryOk(d) && IndexFind(d.index, name) == Some(p) && path != name
    ensures p.server < |d.servers| && p.slot < MAX_FILES_PER_SERVER
    ensures FindFile(d, name) == Some(d.servers[p.server].files[p.slot])
    ensures FindFile(Renamed(d, name, path, p), name) == None
    ensures FindFile(Renamed(d, name, path, p), path)
         == Some(d.servers[p.server].files[p.slot].(filename := path))
  {
    assert Chained(d.index, Bucket(name), IndexNode(name, p));
    assert Stamped(d, p.server, p.slot);
    RenamedFinds(d, name, path, p, name);
    RenamedFinds(d, name, path, p, path);
  }

  /** Listings of other names stay, and the path is listed where the name was. */
  lemma RenamedListings(d: Directory, name: string, path: string, p: FilePtr, id: int, x: string)
    requires DirectoryOk(d) && IndexFind(d.index, name) == Some(p) && path != name
    requires ListedAt(d, p.server, p.slot, name) && p.slot < MAX_FILES_PER_SERVER
    ensures ListedBy(Renamed(d, name, path, p), id, x)
        <==> if x == path then ListedBy(d, id, path) || ListedBy(d, id, name) else x != name && ListedBy(d, id, x)
  {
    var d' := Renamed(d, name, path, p);
    if ListedBy(d', id, x) {
      var sv: nat :| ListedOn(d', sv, x) && sv < |d'.servers| && d'.servers[sv].ssId == id;
      var k: nat :| ListedAt(d', sv, k, x);
      RenamedLists(d, name, path, p, sv, k, x);
      if sv == p.server && k == p.slot {
        assert ListedOn(d, p.server, name);
      } else {
        assert ListedOn(d, sv, x);
      }
    }
    if ListedBy(d, id, x) && x != name {
      var sv: nat :| ListedOn(d, sv, x) && sv < |d.servers| && d.servers[sv].ssId == id;
      var k: nat :| ListedAt(d, sv, k, x);
      RenamedLists(d, name, path, p, sv, k, x);
      assert ListedOn(d', sv, x);
    }
    if ListedBy(d, id, name) && x == path {
      var sv: nat :| ListedOn(d, sv, name) && sv < |d.servers| && d.servers[sv].ssId == id;
      var k: nat :| ListedAt(d, sv, k, name);
      RenamedLists(d, name, path, p, p.server, p.slot, path);
      assert ListedOn(d', p.server, path);
    }
  }

  /**
   A successful MOVE through an accurate pointer to a path nobody lists: the file is listed and found under
   target/name, by the same server and with the same owner, no longer under its name, and nothing else changes.
   */
  lemma MovePutsFileInFolder(ns: NameServer, name: string, target: string, user: string, ok: bool, path: string)
    requires ServerInv(ns) && MoveFile(ns, name, target, user, ok).1 == Success
    requires IsPath(path, target, name) && path != name && Accurate(ns.dir, name) && !Listed(ns.dir, path)
    ensures var ns' := MoveFile(ns, name, target, user, ok).0;
            && ServerInv(ns') && FindFile(ns.dir, name).Some? && FindFile(ns.dir, name).value.owner == user
            && FindFile(ns'.dir, path) == Some(FindFile(ns.dir, name).value.(filename := path))
            && FindFile(ns'.dir, name) == None && !Listed(ns'.dir, name)
            && (forall id :: ListedBy(ns'.dir, id, path) <==> ListedBy(ns.dir, id, name))
            && (forall id, x | x != path && x != name :: ListedBy(ns'.dir, id, x) <==> ListedBy(ns.dir, id, x))
            && ns'.nextSs == ns.nextSs && forall x, now :: CacheLookup(ns'.cache, x, now).1 == None
  {
    var d, p := ns.dir, IndexFind(ns.dir.index, name).value;
    MoveKeepsInvIff(ns, name, target, user, ok);
    RenamedIsFound(d, name, path, p);
    forall id, x
      ensures ListedBy(Renamed(d, name, path, p), id, x)
          <==> if x == path then ListedBy(d, id, path) || ListedBy(d, id, name) else x != name && ListedBy(d, id, x)
    {
      RenamedListings(d, name, path, p, id, x);
    }
    forall id { ListedByIsListed(d, id, path); }
    UnlistedIffNotFound(MoveFile(ns, name, target, user, ok).0.dir, name);
  }
}

/** What the name server does for its clients: placing and locating files. */
module PlacementLaws {
  import opened Text
  import opened Directory
  import opened Moving
  import opened NameServerLaws
  import opened Registration
  import opened RoundRobin

  // Where CREATE and CREATEFOLDER put a file, under whose name, and which address a lookup answers.

  /** The server a creation would choose now. */
  function Pick(ns: NameServer): (sv: nat)
    requires true in Online(ns.dir.servers) && ns.nextSs < |ns.dir.servers|
    ensures sv < |ns.dir.servers| && ns.dir.servers[sv].online
  {
    SomeOnline(Online(ns.dir.servers), ns.nextSs);
    Scan(Online(ns.dir.servers), ns.nextSs, 0).value
  }

  lemma AvailableIsPick(ns: NameServer)
    requires ServerInv(ns)
    ensures if true in Online(ns.dir.servers)
            then ns.nextSs < |ns.dir.servers|
                 && Available(ns) == (NextStart(Online(ns.dir.servers), ns.nextSs), ns.dir.servers[Pick(ns)].ssId)
            else Available(ns) == (ns.nextSs, -1)
  {
    if true in Online(ns.dir.servers) {
      assert Online(ns.dir.servers) != [];
      SomeOnline(Online(ns.dir.servers), ns.nextSs);
    }
  }

  /** An online server is there, the one to be chosen has a proper id and a free slot, and nobody lists the name. */
  ghost predicate CanPlace(ns: NameServer, name: string)
    requires ServerInv(ns)
  {
    && !Listed(ns.dir, name) && true in Online(ns.dir.servers) && ns.nextSs < |ns.dir.servers|
    && ns.dir.servers[Pick(ns)].ssId >= 0 && ns.dir.servers[Pick(ns)].count < 1000
  }

  /** The file is on the server chosen, belongs to the user, and the next allocation starts behind that server. */
  ghost predicate PlacedOn(ns: NameServer, ns': NameServer, sv: nat, name: string, user: string)
    requires ServerInv(ns) && sv < |ns.dir.servers|
  {
    var id := ns.dir.servers[sv].ssId;
    && DirectoryOk(ns'.dir) && ns.dir.servers[sv].online
    && ListedOn(ns'.dir, sv, name) && FindFile(ns'.dir, name) == Some(FileInfo(name, user, id))
    && |ns'.dir.servers| == |ns.dir.servers| && Online(ns'.dir.servers) == Online(ns.dir.servers)
    && (forall i | 0 <= i < |ns.dir.servers| :: ns'.dir.servers[i].ssId == ns.dir.servers[i].ssId)
    && (forall s: nat, x :: ListedOn(ns'.dir, s, x) <==> ListedOn(ns.dir, s, x) || (s == sv && x == name))
    && ns'.nextSs == NextStart(Online(ns.dir.servers), ns.nextSs)
  }

  lemma AppendedPlaces(ns: NameServer, name: string, user: string)
    requires ServerInv(ns) && CanPlace(ns, name)
    ensures var sv := Pick(ns);
            var added := AddFile(ns.dir, ns.dir.servers[sv].ssId, name, user);
            added.1 == Success
            && PlacedOn(ns, ns.(dir := added.0, nextSs := Available(ns).0), sv, name, user)
  {
    var d, sv := ns.dir, Pick(ns);
    AvailableIsPick(ns);
    assert FindServer(d.servers, d.servers[sv].ssId) == Some(sv);
    NoSlot(d, sv, name);
    var d' := Appended(d, sv, name, user);
    AppendedKeepsInv(d, sv, name, user);
    AppendedSizes(d, sv, name, user);
    InsertedFinds(d.index, name, FilePtr(sv, d.servers[sv].count), name);
    assert ListedOn(d', sv, name);
    assert Online(d'.servers) == Online(d.servers) by {
      forall i | 0 <= i < |d.servers| ensures d'.servers[i].online == d.servers[i].online { }
    }
    assert FindFile(d', name) == Some(FileInfo(name, user, d.servers[sv].ssId));
  }

  /**
   CREATE succeeds exactly if the storage server does and the file can be placed; then it is placed. The other
   answers, exactly: the name is listed, the file cannot be placed, the storage server failed.
   */
  lemma CreateFilePlaces(ns: NameServer, name: string, user: string, ok: bool)
    requires ServerInv(ns)
    ensures var (ns', code) := CreateFile(ns, name, user, ok);
            && (code == Success <==> ok && CanPlace(ns, name))
            && (code == Success ==> PlacedOn(ns, ns', Pick(ns), name, user))
            && (code == FileExists <==> Listed(ns.dir, name))
            && (code == ServerError <==> !Listed(ns.dir, name) && !CanPlace(ns, name))
            && (code == Failed <==> !ok && CanPlace(ns, name))
  {
    UnlistedIffNotFound(ns.dir, name);
    AvailableIsPick(ns);
    if CanPlace(ns, name) {
      AppendedPlaces(ns, name, user);
    } else if !Listed(ns.dir, name) && true in Online(ns.dir.servers) && ns.dir.servers[Pick(ns)].ssId >= 0 {
      assert FindServer(ns.dir.servers, ns.dir.servers[Pick(ns)].ssId) == Some(Pick(ns));
    }
  }

  /**
   CREATEFOLDER reports success exactly if nobody lists the name, an online server with a proper id is there and
   made the folder. The folder is then placed like a file, unless the server's table is full: that is not reported,
   and the folder is not listed.
   */
  lemma CreateFolderPlaces(ns: NameServer, name: string, user: string, ok: bool)
    requires ServerInv(ns)
    ensures var (ns', code) := CreateFolder(ns, name, user, ok);
            var online := true in Online(ns.dir.servers);
            && (code == Success <==> ok && !Listed(ns.dir, name) && online && ns.nextSs < |ns.dir.servers|
                                     && ns.dir.servers[Pick(ns)].ssId >= 0)
            && (code == Success && CanPlace(ns, name) ==> PlacedOn(ns, ns', Pick(ns), name, user))
            && (code == Success ==> (Listed(ns'.dir, name) <==> CanPlace(ns, name)))
            && (code != Success || !CanPlace(ns, name) ==> ns'.dir == ns.dir)
            && (code == FileExists <==> Listed(ns.dir, name))
            && (code == Success || code == Failed || code == FileExists || code == ServerError)
            && (code == Failed ==> !ok) && (code == ServerError && ns.nextSs < |ns.dir.servers| ==>
                                             !online || ns.dir.servers[Pick(ns)].ssId < 0)
  {
    UnlistedIffNotFound(ns.dir, name);
    AvailableIsPick(ns);
    if CanPlace(ns, name) {
      AppendedPlaces(ns, name, user);
    } else if !Listed(ns.dir, name) && true in Online(ns.dir.servers) && ns.dir.servers[Pick(ns)].ssId >= 0 {
      assert FindServer(ns.dir.servers, ns.dir.servers[Pick(ns)].ssId) == Some(Pick(ns));
    }
  }

  // ---------- creations in a row ----------

  /** A file or a folder to be made. */
  datatype Item = Item(name: string, user: string, folder: bool)

  function Make(ns: NameServer, it: Item): (NameServer, Code)
    requires WellSized(ns.dir)
  {
    if it.folder then CreateFolder(ns, it.name, it.user, true) else CreateFile(ns, it.name, it.user, true)
  }

  lemma MakePlaces(ns: NameServer, it: Item)
    requires ServerInv(ns) && CanPlace(ns, it.name)
    ensures ServerInv(Make(ns, it).0) && PlacedOn(ns, Make(ns, it).0, Pick(ns), it.name, it.user)
  {
    hide CanPlace, PlacedOn, ServerInv, Pick;
    CreateFilePlaces(ns, it.name, it.user, true);
    CreateFileKeepsInv(ns, it.name, it.user, true);
    CreateFolderPlaces(ns, it.name, it.user, true);
    CreateFolderKeepsInv(ns, it.name, it.user, true);
  }

  /** When its turn comes, each item can be placed. */
  ghost predicate AllPlaceable(ns: NameServer, items: seq<Item>)
    requires ServerInv(ns)
    decreases |items|
  {
    items != [] ==> CanPlace(ns, items[0].name)
                    && (MakePlaces(ns, items[0]); AllPlaceable(Make(ns, items[0]).0, items[1..]))
  }

  ghost function MakeAll(ns: NameServer, items: seq<Item>): (r: NameServer)
    requires ServerInv(ns) && AllPlaceable(ns, items)
    ensures ServerInv(r)
    decreases |items|
  {
    if items == [] then ns
    else
      MakePlaces(ns, items[0]);
      MakeAll(Make(ns, items[0]).0, items[1..])
  }

  lemma MakeNext(ns: NameServer, items: seq<Item>) returns (next: NameServer)
    requires ServerInv(ns) && AllPlaceable(ns, items) && items != []
    ensures CanPlace(ns, items[0].name) && true in Online(ns.dir.servers) && ns.nextSs < |ns.dir.servers|
    ensures ServerInv(next) && AllPlaceable(next, items[1..]) && MakeAll(ns, items) == MakeAll(next, items[1..])
    ensures PlacedOn(ns, next, Pick(ns), items[0].name, items[0].user)
  {
    hide Coherent, TablesOk, IndexOk, PlacedOn, Pick, Make;
    next := Make(ns, items[0]).0;
    MakePlaces(ns, items[0]);
  }

  lemma PlacedLists(ns: NameServer, next: NameServer, sv: nat, name: string, user: string)
    requires ServerInv(ns) && sv < |ns.dir.servers| && PlacedOn(ns, next, sv, name, user)
    ensures ListedOn(next.dir, sv, name) && forall s: nat, x :: ListedOn(ns.dir, s, x) ==> ListedOn(next.dir, s, x)
    ensures Online(next.dir.servers) == Online(ns.dir.servers) && |next.dir.servers| == |ns.dir.servers|
    ensures next.nextSs == NextStart(Online(ns.dir.servers), ns.nextSs)
  {
    hide ServerInv, ListedOn, DirectoryOk, FindFile, NextStart;
  }

  lemma {:induction false} MakingKeeps(ns: NameServer, items: seq<Item>, sv: nat, x: string)
    requires ServerInv(ns) && AllPlaceable(ns, items) && ListedOn(ns.dir, sv, x)
    ensures ListedOn(MakeAll(ns, items).dir, sv, x)
    decreases |items|
  {
    if items != [] {
      hide *;
      var next := MakeNext(ns, items);
      PlacedLists(ns, next, Pick(ns), items[0].name, items[0].user);
      MakingKeeps(next, items[1..], sv, x);
    }
  }

  lemma PicksNext(ns: NameServer, k: nat)
    requires true in Online(ns.dir.servers) && ns.nextSs < |ns.dir.servers| && k > 0
    ensures NextStart(Online(ns.dir.servers), ns.nextSs) < |ns.dir.servers|
    ensures Picks(Online(ns.dir.servers), ns.nextSs, k)
         == [Pick(ns)] + Picks(Online(ns.dir.servers), NextStart(Online(ns.dir.servers), ns.nextSs), k - 1)
  {
  }

  lemma {:induction false} PicksLength(online: seq<bool>, start: nat, k: nat)
    requires true in online && start < |online|
    ensures |Picks(online, start, k)| == k
    decreases k
  {
    if k > 0 { PicksLength(online, NextStart(online, start), k - 1); }
  }

  /** Items made in a row go to the servers the round-robin walk visits, in that order. */
  lemma {:induction false} ItemsFollowPicks(ns: NameServer, items: seq<Item>, k: nat)
    requires ServerInv(ns) && AllPlaceable(ns, items) && k < |items|
    ensures true in Online(ns.dir.servers) && ns.nextSs < |ns.dir.servers|
    ensures |Picks(Online(ns.dir.servers), ns.nextSs, |items|)| == |items|
    ensures ListedOn(MakeAll(ns, items).dir, Picks(Online(ns.dir.servers), ns.nextSs, |items|)[k], items[k].name)
    decreases |items|
  {
    hide *;
    var next := MakeNext(ns, items);
    PlacedLists(ns, next, Pick(ns), items[0].name, items[0].user);
    PicksNext(ns, |items|);
    PicksLength(Online(ns.dir.servers), ns.nextSs, |items|);
    if k == 0 {
      MakingKeeps(next, items[1..], Pick(ns), items[0].name);
    } else {
      ItemsFollowPicks(next, items[1..], k - 1);
      assert items[1..][k - 1] == items[k];
    }
  }

  lemma OneServerLists(ns: NameServer, s1: nat, s2: nat, x: string)
    requires ServerInv(ns) && ListedOn(ns.dir, s1, x) && ListedOn(ns.dir, s2, x)
    ensures s1 == s2
  {
    var k1: nat :| ListedAt(ns.dir, s1, k1, x);
    var k2: nat :| ListedAt(ns.dir, s2, k2, x);
  }

  /** With m online servers, any m items made in a row go one to each of them, and none to an offline server. */
  lemma OneItemPerServer(ns: NameServer, items: seq<Item>, sv: nat)
    requires ServerInv(ns) && AllPlaceable(ns, items) && items != [] && sv < |ns.dir.servers|
    requires |items| == OnlineCount(Online(ns.dir.servers))
    ensures var d := MakeAll(ns, items).dir;
            && (ns.dir.servers[sv].online ==> exists k | 0 <= k < |items| :: ListedOn(d, sv, items[k].name))
            && (!ns.dir.servers[sv].online ==> forall k | 0 <= k < |items| :: !ListedOn(d, sv, items[k].name))
            && (forall j, k | 0 <= j < k < |items| ::
                  ListedOn(d, sv, items[j].name) ==> !ListedOn(d, sv, items[k].name))
  {
    OnlineAt(ns.dir.servers, sv);
    hide *;
    var d, online := MakeAll(ns, items).dir, Online(ns.dir.servers);
    ItemsFollowPicks(ns, items, 0);
    var picks := Picks(online, ns.nextSs, |items|);
    EachOnlineServerOncePerRound(online, ns.nextSs, sv);
    forall k | 0 <= k < |items| ensures ListedOn(d, sv, items[k].name) <==> picks[k] == sv {
      ItemsFollowPicks(ns, items, k);
      if ListedOn(d, sv, items[k].name) { OneServerLists(MakeAll(ns, items), sv, picks[k], items[k].name); }
    }
    OnceOrNever(picks, sv);
  }

  lemma OnlineAt(servers: seq<ServerRec>, sv: nat)
    requires sv < |servers|
    ensures sv < |Online(servers)| == |servers| && Online(servers)[sv] == servers[sv].online
  {
  }

  lemma OnceOrNever(p: seq<nat>, j: nat)
    ensures Times(p, j) == 0 ==> forall k | 0 <= k < |p| :: p[k] != j
    ensures Times(p, j) == 1 ==> exists k :: 0 <= k < |p| && p[k] == j
    ensures Times(p, j) <= 1 ==> forall i, k | 0 <= i < k < |p| :: !(p[i] == j && p[k] == j)
  {
    if j in p { assert j in multiset(p); }
    forall k | 0 <= k < |p| && p[k] == j ensures Times(p, j) > 0 { assert p[k] in multiset(p); }
    forall i, k | 0 <= i < k < |p| && p[i] == j && p[k] == j ensures Times(p, j) > 1 {
      assert p == p[..k] + [p[k]] + p[k + 1..];
      assert p[..k][i] == j;
      assert j in multiset(p[..k]);
    }
  }

  // ---------- deleting ----------

  /** What DELETE reports, by the record the name leads to; only a success changes anything. */
  lemma DeleteReports(ns: NameServer, name: string, user: string, ok: bool)
    requires ServerInv(ns)
    ensures var (ns', code) := DeleteFile(ns, name, user, ok);
            && (code == FileNotFound <==> !Listed(ns.dir, name))
            && (Listed(ns.dir, name) ==>
                 var owner := FindFile(ns.dir, name).value.owner;
                 && (code == NotOwner <==> owner != user)
                 && (code == Failed <==> owner == user && !ok)
                 && (code == Success <==> owner == user && ok))
            && (code != Success ==> ns' == ns)
  {
    UnlistedIffNotFound(ns.dir, name);
  }

  // ---------- moving ----------

  /** A server that lists the name is online. */
  ghost predicate Reachable(d: Directory, name: string) {
    exists sv: nat :: ListedOn(d, sv, name) && sv < |d.servers| && d.servers[sv].online
  }

  /** What MOVE reports, in the order of its tests; only a success changes anything. */
  lemma MoveReports(ns: NameServer, name: string, target: string, user: string, ok: bool)
    requires ServerInv(ns)
    ensures var (ns', code) := MoveFile(ns, name, target, user, ok);
            && (code == FileNotFound <==> !Listed(ns.dir, name))
            && (Listed(ns.dir, name) ==>
                 var owned := FindFile(ns.dir, name).value.owner == user;
                 && (code == NotOwner <==> !owned)
                 && (code == ServerError <==> owned && !Reachable(ns.dir, name))
                 && (code == Failed <==> owned && Reachable(ns.dir, name) && !ok)
                 && (code == Success <==> owned && Reachable(ns.dir, name) && ok))
            && (code != Success ==> ns' == ns)
  {
    UnlistedIffNotFound(ns.dir, name);
    hide Renamed;
    if Listed(ns.dir, name) {
      var id := FindFile(ns.dir, name).value.ssId;
      var sv: nat :| ListedOn(ns.dir, sv, name) && sv < |ns.dir.servers| && ns.dir.servers[sv].ssId == id;
      assert FindServer(ns.dir.servers, id) == Some(sv);
      forall s2: nat | ListedOn(ns.dir, s2, name) ensures s2 == sv { OneServerLists(ns, s2, sv, name); }
    }
  }

  // ---------- the location cache over time ----------

  /** An entry answers for a minute after the lookup that made it, and hits do not prolong it. */
  lemma EntryLivesAMinute(c: LocationCache, name: string, id: int, now: int, t: int, later: int)
    requires |c| == 100
    ensures var made := CacheInsert(c, name, id, now);
            && CacheLookup(made, name, later).1 == (if later - now < 60 then Some(id) else None)
            && (t - now < 60 ==> CacheLookup(CacheLookup(made, name, t).0, name, later).1
                                 == CacheLookup(made, name, later).1)
            && (t - now >= 60 ==> CacheLookup(CacheLookup(made, name, t).0, name, later).1 == None)
  {
  }

  /** Making an entry takes another name's entry away exactly if the two share a slot. */
  lemma EntryOfAnother(c: LocationCache, name: string, id: int, now: int, x: string, later: int)
    requires |c| == 100 && x != name
    ensures CacheLookup(CacheInsert(c, name, id, now), x, later).1
         == if CacheSlot(x) == CacheSlot(name) then None else CacheLookup(c, x, later).1
  {
    hide CacheSlot;
  }

  /** A file found where it is listed, by a lookup that missed, is cached from then on. */
  lemma MissFillsCache(ns: NameServer, name: string, now: int, later: int)
    requires ServerInv(ns) && CacheLookup(ns.cache, name, now).1 == None && Listed(ns.dir, name)
    ensures FindFile(ns.dir, name).Some?
    ensures CacheLookup(Locate(ns, name, now).0.cache, name, later).1
         == if later - now < 60 then Some(FindFile(ns.dir, name).value.ssId) else None
  {
    UnlistedIffNotFound(ns.dir, name);
  }

  // ---------- registration ----------

  /** The pointer of x, if it has one, leads to no slot that is still free on this server. */
  predicate PointsBelow(d: Directory, sv: nat, x: string)
    requires WellSized(d) && sv < |d.servers|
  {
    var p := IndexFind(d.index, x);
    p.Some? && p.value.server == sv ==> p.value.slot < d.servers[sv].count
  }

  lemma AppendedFinds(d: Directory, sv: nat, name: string, owner: string, x: string)
    requires WellSized(d) && sv < |d.servers| && d.servers[sv].count < MAX_FILES_PER_SERVER
    ensures x == name ==> FindFile(Appended(d, sv, name, owner), x) == Some(FileInfo(name, owner, d.servers[sv].ssId))
    ensures x == name || PointsBelow(d, sv, x) ==> PointsBelow(Appended(d, sv, name, owner), sv, x)
    ensures x != name && PointsBelow(d, sv, x) ==> FindFile(Appended(d, sv, name, owner), x) == FindFile(d, x)
  {
    InsertedFinds(d.index, name, FilePtr(sv, d.servers[sv].count), x);
  }

  lemma {:induction false} EnteredKeepsOthers(d: Directory, sv: nat, ls: seq<Listing>, x: string)
    requires WellSized(d) && sv < |d.servers| && d.servers[sv].count + |ls| <= MAX_FILES_PER_SERVER
    requires PointsBelow(d, sv, x) && forall i | 0 <= i < |ls| :: ls[i].name != x
    ensures FindFile(Enter(d, sv, ls), x) == FindFile(d, x)
    decreases |ls|
  {
    if ls != [] {
      var d1 := Appended(d, sv, ls[0].name, ls[0].owner);
      AppendedFinds(d, sv, ls[0].name, ls[0].owner, x);
      AppendedSizes(d, sv, ls[0].name, ls[0].owner);
      assert d1.servers[sv].count == d.servers[sv].count + 1;
      hide Appended, FindFile, PointsBelow;
      EnteredKeepsOthers(d1, sv, ls[1..], x);
    }
  }

  lemma {:induction false} EnteredIsFound(d: Directory, sv: nat, ls: seq<Listing>, i: nat)
    requires WellSized(d) && sv < |d.servers| && d.servers[sv].count + |ls| <= MAX_FILES_PER_SERVER && i < |ls|
    requires forall j, k | 0 <= j < k < |ls| :: ls[j].name != ls[k].name
    ensures FindFile(Enter(d, sv, ls), ls[i].name) == Some(FileInfo(ls[i].name, ls[i].owner, d.servers[sv].ssId))
    decreases |ls|
  {
    var d1 := Appended(d, sv, ls[0].name, ls[0].owner);
    AppendedFinds(d, sv, ls[0].name, ls[0].owner, ls[0].name);
    AppendedSizes(d, sv, ls[0].name, ls[0].owner);
    assert d1.servers[sv].count == d.servers[sv].count + 1 && d1.servers[sv].ssId == d.servers[sv].ssId;
    hide Appended, FindFile, PointsBelow;
    if i == 0 {
      EnteredKeepsOthers(d1, sv, ls[1..], ls[0].name);
    } else {
      EnteredIsFound(d1, sv, ls[1..], i - 1);
    }
  }

  /**
   A new server's files are found with the owners it reported and its id, and all other files as before; a server
   that comes back, or for which there is no room among the hundred, changes no file.
   */
  lemma RegisterEntersFiles(d: Directory, ssId: int, address: string, text: string)
    requires DirectoryOk(d)
    requires FindServer(d.servers, ssId).None? ==> Disjoint(d, ParseFileList(text))
    ensures var (d', code) := Register(d, ssId, address, text);
            var ls := ParseFileList(text);
            var isNew := FindServer(d.servers, ssId).None? && |d.servers| < 100;
            && (code == ServerError <==> FindServer(d.servers, ssId).None? && !isNew)
            && (code == ServerError ==> d' == d) && (code != ServerError ==> code == Success)
            && (isNew ==> forall i | 0 <= i < |ls| ::
                  FindFile(d', ls[i].name) == Some(FileInfo(ls[i].name, ls[i].owner, ssId)))
            && (forall x | !(isNew && exists i :: 0 <= i < |ls| && ls[i].name == x) ::
                  FindFile(d', x) == FindFile(d, x))
  {
    if FindServer(d.servers, ssId).None? && |d.servers| < 100 {
      var sv, ls, d0 := |d.servers|, ParseFileList(text), WithServer(d, ssId, address);
      assert d0.servers[sv].ssId == ssId && d0.servers[sv].count == 0;
      forall i | 0 <= i < |ls| { EnteredIsFound(d0, sv, ls, i); }
      forall x | !exists i :: 0 <= i < |ls| && ls[i].name == x
        ensures FindFile(Enter(d0, sv, ls), x) == FindFile(d, x)
      {
        OldPointers(d, ssId, address, x);
        EnteredKeepsOthers(d0, sv, ls, x);
      }
    }
  }

  lemma OldPointers(d: Directory, ssId: int, address: string, x: string)
    requires DirectoryOk(d) && |d.servers| < MAX_STORAGE_SERVERS
    ensures PointsBelow(WithServer(d, ssId, address), |d.servers|, x)
    ensures FindFile(WithServer(d, ssId, address), x) == FindFile(d, x)
  {
    var p := IndexFind(d.index, x);
    if p.Some? {
      assert Chained(d.index, Bucket(x), IndexNode(x, p.value));
      assert Stamped(d, p.value.server, p.value.slot);
    }
  }

  // ---------- addresses ----------

  /** The address every server id last registered with. */
  function Addresses(known: map<int, string>, es: seq<Event>): map<int, string>
    decreases |es|
  {
    if es == [] then known
    else Addresses(if es[0].RegisterServer? then known[es[0].ssId := es[0].address] else known, es[1..])
  }

  ghost predicate Known(d: Directory, known: map<int, string>) {
    forall i | 0 <= i < |d.servers| ::
      d.servers[i].online && d.servers[i].ssId in known && known[d.servers[i].ssId] == d.servers[i].address
  }

  /** Ids, addresses and flags are the same. */
  ghost predicate SameServers(d: Directory, d': Directory) {
    |d'.servers| == |d.servers| && forall i | 0 <= i < |d.servers| ::
      && d'.servers[i].ssId == d.servers[i].ssId && d'.servers[i].address == d.servers[i].address
      && d'.servers[i].online == d.servers[i].online
  }

  lemma {:induction false} EnterSameServers(d: Directory, sv: nat, ls: seq<Listing>)
    requires WellSized(d) && sv < |d.servers| && d.servers[sv].count + |ls| <= MAX_FILES_PER_SERVER
    ensures SameServers(d, Enter(d, sv, ls))
    decreases |ls|
  {
    if ls != [] {
      var d1 := Appended(d, sv, ls[0].name, ls[0].owner);
      assert SameServers(d, d1);
      EnterSameServers(d1, sv, ls[1..]);
    }
  }

  lemma RegisterAddresses(d: Directory, ssId: int, address: string, text: string, known: map<int, string>)
    requires WellSized(d) && Known(d, known)
    requires forall i, j | 0 <= i < j < |d.servers| :: d.servers[i].ssId != d.servers[j].ssId
    ensures Known(Register(d, ssId, address, text).0, known[ssId := address])
  {
    var sv := FindServer(d.servers, ssId);
    if sv.None? && |d.servers| < MAX_STORAGE_SERVERS {
      var d0 := WithServer(d, ssId, address);
      EnterSameServers(d0, |d.servers|, ParseFileList(text));
      assert Known(d0, known[ssId := address]);
    }
  }

  lemma AddSameServers(d: Directory, ssId: int, name: string, owner: string)
    requires WellSized(d)
    ensures SameServers(d, AddFile(d, ssId, name, owner).0)
  {
    hide IndexInsert, FindSlot, FindServer;
  }

  lemma RemoveSameServers(d: Directory, ssId: int, name: string)
    requires WellSized(d)
    ensures SameServers(d, RemoveFile(d, ssId, name).0)
  {
    hide Shifted, IndexRemove, FindSlot, FindServer;
  }

  lemma OtherEventsSameServers(ns: NameServer, e: Event)
    requires WellSized(ns.dir) && |ns.cache| == 100 && !e.RegisterServer?
    ensures SameServers(ns.dir, NameServerLaws.Next(ns, e).dir)
  {
    hide AddFile, RemoveFile, FindFile, Available, CacheLookup, CacheInsert, CacheInvalidate, FullLookup, FindServer,
         WellSized;
    var id := Available(ns).1;
    match e {
      case LocateFile(_, _) =>
      case Create(name, user, ok) =>
        AddSameServers(ns.dir, id, name, user);
        RemoveSameServers(AddFile(ns.dir, id, name, user).0, id, name);
      case MakeFolder(name, user, ok) => AddSameServers(ns.dir, id, name, user);
      case Delete(name, user, ok) =>
        if FindFile(ns.dir, name).Some? { RemoveSameServers(ns.dir, FindFile(ns.dir, name).value.ssId, name); }
    }
  }

  lemma {:induction false} RunAddresses(ns: NameServer, es: seq<Event>, known: map<int, string>)
    requires ServerInv(ns) && LegalRun(ns, es) && Known(ns.dir, known)
    ensures Known(NameServerLaws.Run(ns, es).dir, Addresses(known, es))
    decreases |es|
  {
    if es != [] {
      var e, ns' := es[0], NameServerLaws.Next(ns, es[0]);
      NameServerLaws.NextKeepsInv(ns, e);
      if e.RegisterServer? {
        RegisterAddresses(ns.dir, e.ssId, e.address, e.text, known);
      } else {
        OtherEventsSameServers(ns, e);
      }
      hide ServerInv, NameServerLaws.Next, Known, Legal;
      RunAddresses(ns', es[1..], if e.RegisterServer? then known[e.ssId := e.address] else known);
    }
  }

  /**
   After every run, whatever the cache holds and whatever the clock says: a listed name is located at the server
   that lists it, under the address that server last registered with, and any other name is not found.
   */
  lemma LocationsOverRuns(es: seq<Event>, name: string, now: int)
    requires LegalRun(Boot(), es)
    ensures var ns, known := NameServerLaws.Run(Boot(), es), Addresses(map[], es);
            && WellSized(ns.dir) && |ns.cache| == 100
            && (Listed(ns.dir, name) ==>
                 exists id :: && ListedBy(ns.dir, id, name) && id in known
                              && Locate(ns, name, now).1 == At(id, known[id]))
            && (!Listed(ns.dir, name) ==> Locate(ns, name, now).1 == NotFound)
  {
    var ns, known := NameServerLaws.Run(Boot(), es), Addresses(map[], es);
    NameServerLaws.RunKeepsInv(Boot(), es);
    RunAddresses(Boot(), es, map[]);
    LocateIsFullLookup(ns, name, now);
    hide ServerInv, Locate, Addresses, LegalRun, NameServerLaws.Run, Known, FullLookup, Listed, ListedBy;
    LookupAnswers(ns, known, name);
    Sizes(ns);
  }

  lemma Sizes(ns: NameServer)
    requires ServerInv(ns)
    ensures WellSized(ns.dir) && |ns.cache| == 100
  {
  }

  lemma LookupAnswers(ns: NameServer, known: map<int, string>, name: string)
    requires ServerInv(ns) && Known(ns.dir, known)
    ensures Listed(ns.dir, name) ==>
              exists id :: ListedBy(ns.dir, id, name) && id in known && FullLookup(ns.dir, name) == At(id, known[id])
    ensures !Listed(ns.dir, name) ==> FullLookup(ns.dir, name) == NotFound
  {
    UnlistedIffNotFound(ns.dir, name);
    hide FindFile;
    if Listed(ns.dir, name) {
      var id := FindFile(ns.dir, name).value.ssId;
      var sv: nat :| ListedOn(ns.dir, sv, name) && sv < |ns.dir.servers| && ns.dir.servers[sv].ssId == id;
      assert FindServer(ns.dir.servers, id) == Some(sv);
    }
  }
}

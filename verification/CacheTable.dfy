/** The permission cache as a value. */
module CacheTable {
  import opened Text
  import opened CStrings
  import opened AccessList
  import opened Hashing

  // An open-addressing table with linear probing, no tombstones, a home slot that insertion never fills, and a rebuild
  // on every miss. Holes left by invalidation make keys unreachable and lead to duplicates; the invariant here is that
  // every entry, reachable or not, agrees with the access lists.

  const CACHE_SIZE: nat := 10007
  const KEY_LIMIT: nat := 321
  const FILENAME_LIMIT: nat := 255

  datatype Slot = Slot(key: string, mode: Mode, valid: bool)

  type Table = seq<Slot>

  /** The cache key of a file and a user, as far as the key buffer goes. */
  function Key(file: string, user: string): string {
    Truncate(file + ":" + user, KEY_LIMIT)
  }

  function Home(size: nat, key: string): (h: nat)
    requires size > 0
    ensures h < size
  {
    SlotOf(key, WORD32, size)
  }

  predicate Holds(s: Slot, key: string) {
    s.valid && s.key == key
  }

  /** Linear probing behind the home slot: the first slot that is free or has the key. */
  function Probe(slots: Table, home: nat, key: string, i: nat): (r: Option<nat>)
    requires slots != []
    ensures r.Some? ==> r.value < |slots| && (slots[r.value].valid ==> slots[r.value].key == key)
    decreases |slots| - i
  {
    if i >= |slots| then None
    else
      var j := (home + i) % |slots|;
      if !slots[j].valid || slots[j].key == key then Some(j) else Probe(slots, home, key, i + 1)
  }

  /** Where an insertion of the key goes and where a lookup of it ends; the home slot counts only if it has the key. */
  function Place(slots: Table, key: string): (r: Option<nat>)
    requires slots != []
    ensures r.Some? ==> r.value < |slots| && (slots[r.value].valid ==> slots[r.value].key == key)
  {
    var home := Home(|slots|, key);
    if Holds(slots[home], key) then Some(home) else Probe(slots, home, key, 1)
  }

  function Store(slots: Table, key: string, mode: Mode): (r: Table)
    requires slots != []
    ensures |r| == |slots|
  {
    match Place(slots, key)
    case None => slots
    case Some(j) => slots[j := Slot(key, mode, true)]
  }

  /** The mode a lookup of the key finds. */
  function Found(slots: Table, key: string): Option<Mode>
    requires slots != []
  {
    match Place(slots, key)
    case None => None
    case Some(j) => if slots[j].valid then Some(slots[j].mode) else None
  }

  /** One field of the access list goes into the table. */
  function StoreField(slots: Table, file: string, field: string): (r: Table)
    requires slots != []
    ensures |r| == |slots|
  {
    match FieldEntry(field)
    case None => slots
    case Some(e) => Store(slots, Key(file, e.user), e.mode)
  }

  /** build_access_cache_for_file, for the fields of the list. */
  function Build(slots: Table, file: string, fields: seq<string>): (r: Table)
    requires slots != []
    ensures |r| == |slots|
    decreases |fields|
  {
    if fields == [] then slots else Build(StoreField(slots, file, fields[0]), file, fields[1..])
  }

  predicate StartsWith(s: string, prefix: string) {
    |prefix| <= |s| && s[..|prefix|] == prefix
  }

  /** The prefix buffer of the invalidation. */
  function Prefix(file: string): string {
    Truncate(file + ":", FILENAME_LIMIT + 2)
  }

  function Dropped(s: Slot, file: string): Slot {
    if s.valid && StartsWith(s.key, Prefix(file)) then s.(valid := false) else s
  }

  /** invalidate_access_cache_for_file */
  function Invalidate(slots: Table, file: string): (r: Table)
    ensures |r| == |slots| && forall i | 0 <= i < |slots| :: r[i] == Dropped(slots[i], file)
  {
    seq(|slots|, i requires 0 <= i < |slots| => Dropped(slots[i], file))
  }

  // ---------- probing and storing ----------

  /** Storing another key does not move the place of a key that is in the table, nor make room for one that is not. */
  lemma {:induction false} ProbeStable(slots: Table, home: nat, key: string, i: nat, j2: nat, s2: Slot)
    requires j2 < |slots| && s2.valid && s2.key != key && (slots[j2].valid ==> slots[j2].key == s2.key)
    ensures var p, q := Probe(slots, home, key, i), Probe(slots[j2 := s2], home, key, i);
            && (p.Some? && slots[p.value].valid ==> q == p)
            && (p == None ==> q == None)
    decreases |slots| - i
  {
    if i < |slots| {
      var j := (home + i) % |slots|;
      if slots[j].valid && slots[j].key != key {
        ProbeStable(slots, home, key, i + 1, j2, s2);
      }
    }
  }

  lemma PlaceStable(slots: Table, key: string, key2: string, mode2: Mode)
    requires slots != [] && key2 != key
    ensures var p, q := Place(slots, key), Place(Store(slots, key2, mode2), key);
            && (p.Some? && slots[p.value].valid ==> q == p)
            && (p == None ==> q == None)
  {
    match Place(slots, key2) {
      case None =>
      case Some(j2) => ProbeStable(slots, Home(|slots|, key), key, 1, j2, Slot(key2, mode2, true));
    }
  }

  lemma {:induction false} ProbeAfter(slots: Table, home: nat, key: string, i: nat, mode: Mode)
    requires slots != []
    ensures var p := Probe(slots, home, key, i);
            p.Some? ==> Probe(slots[p.value := Slot(key, mode, true)], home, key, i) == p
    decreases |slots| - i
  {
    if i < |slots| {
      var j := (home + i) % |slots|;
      if slots[j].valid && slots[j].key != key {
        ProbeAfter(slots, home, key, i + 1, mode);
      }
    }
  }

  /** A stored key stays where it was stored. */
  lemma PlaceAfter(slots: Table, key: string, mode: Mode)
    requires slots != []
    ensures Place(Store(slots, key, mode), key) == Place(slots, key)
  {
    ProbeAfter(slots, Home(|slots|, key), key, 1, mode);
  }

  lemma {:induction false} ProbeNone(slots: Table, home: nat, key: string, i: nat, d: nat)
    requires slots != [] && Probe(slots, home, key, i) == None && i <= d < |slots|
    ensures slots[(home + d) % |slots|].valid && slots[(home + d) % |slots|].key != key
    decreases |slots| - i
  {
    if d > i {
      ProbeNone(slots, home, key, i + 1, d);
    }
  }

  /** Every slot but the home slot is taken by another key. */
  predicate Full(slots: Table, key: string)
    requires slots != []
  {
    forall j | 0 <= j < |slots| && j != Home(|slots|, key) :: slots[j].valid && slots[j].key != key
  }

  /** A key finds no place exactly when the table is full for it. */
  lemma NoPlaceMeansFull(slots: Table, key: string)
    requires slots != [] && Place(slots, key) == None
    ensures Full(slots, key) && forall j | 0 <= j < |slots| :: !Holds(slots[j], key)
  {
    var n, home := |slots|, Home(|slots|, key);
    forall j | 0 <= j < n && j != home ensures slots[j].valid && slots[j].key != key {
      var d := if j > home then j - home else j - home + n;
      WrapAround(home, d, n, j);
      ProbeNone(slots, home, key, 1, d);
    }
  }

  lemma WrapAround(home: nat, d: nat, n: nat, j: nat)
    requires home < n && j < n && (home + d == j || home + d == j + n)
    ensures (home + d) % n == j
  {
    if home + d == j + n {
      assert (j + n) % n == j;
    }
  }

  // ---------- keys ----------

  /** Names as the message fields hold them; a listed user name has no colon. */
  predicate Short(file: string, user: string) {
    |file| <= FILENAME_LIMIT && |user| <= USER_LIMIT
  }

  /** The last colon of a key separates file and user, if the key was not cut. */
  lemma KeySplits(file: string, user: string, file2: string, user2: string)
    requires |file| + 1 + |user| < KEY_LIMIT && ':' !in user && ':' !in user2 && Key(file, user) == Key(file2, user2)
    ensures file == file2 && user == user2
  {
    var k, k2 := file + ":" + user, file2 + ":" + user2;
    assert Key(file, user) == k;
    assert |k2| <= KEY_LIMIT;
    assert k == k2;
    LastColon(file, user, file2, user2);
  }

  /** Two pairs of names as the message fields hold them never share a key. */
  lemma KeyInjective(file: string, user: string, file2: string, user2: string)
    requires Short(file, user) && ':' !in user && ':' !in user2 && Key(file, user) == Key(file2, user2)
    ensures file == file2 && user == user2
  {
    KeySplits(file, user, file2, user2);
  }

  lemma LastColon(a: string, u: string, b: string, v: string)
    requires a + ":" + u == b + ":" + v && ':' !in u && ':' !in v
    ensures a == b && u == v
  {
    var k := a + ":" + u;
    assert k[|a|] == ':' && k[|b|] == ':';
    ColonPosition(a, u, |b|);
    ColonPosition(b, v, |a|);
    assert k[..|a|] == a && k[..|b|] == b && k[|a| + 1..] == u && k[|b| + 1..] == v;
  }

  lemma ColonPosition(a: string, u: string, i: nat)
    requires i < |a + ":" + u| && (a + ":" + u)[i] == ':'
    ensures i > |a| ==> ':' in u
  {
    if i > |a| { assert (a + ":" + u)[i] == u[i - |a| - 1]; }
  }

  // ---------- agreement with the access lists ----------

  datatype FileMeta = FileMeta(owner: string, accessList: string)

  type Files = map<string, FileMeta>

  /** Slot i claims something about this file and user. */
  predicate Says(slots: Table, i: nat, file: string, user: string) {
    i < |slots| && Holds(slots[i], Key(file, user)) && Short(file, user) && ':' !in user
  }

  /** Every claim in the table, reachable or stale, is what the file's access list says. */
  ghost predicate Agree(slots: Table, files: Files) {
    forall i: nat, f, u | Says(slots, i, f, u) && f in files :: Right(files[f].accessList, u) == Some(slots[i].mode)
  }

  /** The claim of slot i, while the fields done of f's list have been stored. */
  ghost predicate RightClaim(slots: Table, files: Files, f: string, done: seq<string>, i: nat, f2: string, u: string)
    requires slots != [] && i < |slots| && f2 in files
  {
    Some(slots[i].mode)
    == if f2 == f && FieldsRight(done, u).Some? && Place(slots, Key(f2, u)) == Some(i) then FieldsRight(done, u)
       else Right(files[f2].accessList, u)
  }

  /** During a rebuild, the entries of the file's users seen so far are those of the list read so far. */
  ghost predicate Building(slots: Table, files: Files, f: string, done: seq<string>)
    requires slots != []
  {
    && (forall i: nat, f2, u | Says(slots, i, f2, u) && f2 in files :: RightClaim(slots, files, f, done, i, f2, u))
    && Settled(slots, f, done)
  }

  /** Every user seen so far is in the table, unless there is no room. */
  ghost predicate Settled(slots: Table, f: string, done: seq<string>)
    requires slots != []
  {
    forall u | FieldsRight(done, u).Some? :: Placed(slots, Key(f, u))
  }

  predicate Placed(slots: Table, key: string)
    requires slots != []
  {
    var p := Place(slots, key);
    p.Some? ==> slots[p.value].valid
  }

  lemma {:induction false} RightHasNoColon(fields: seq<string>, u: string)
    ensures FieldsRight(fields, u).Some? ==> ':' !in u
  {
    if fields != [] { RightHasNoColon(fields[..|fields| - 1], u); }
  }

  lemma NextRight(done: seq<string>, field: string, u: string)
    ensures FieldsRight(done + [field], u) == Later(FieldsRight(done, u), FieldRight(field, u))
  {
    FieldsRightAppend(done, [field], u);
    FieldsRightOne(field, u);
  }

  /** One field of the list goes into the table. */
  lemma BuildStep(slots: Table, files: Files, f: string, done: seq<string>, field: string)
    requires slots != [] && Building(slots, files, f, done)
    ensures Building(StoreField(slots, f, field), files, f, done + [field])
  {
    var slots' := StoreField(slots, f, field);
    forall u | FieldsRight(done + [field], u).Some? ensures Placed(slots', Key(f, u)) {
      StepSettles(slots, f, done, field, u);
    }
    forall i: nat, f2, u | Says(slots', i, f2, u) && f2 in files
      ensures RightClaim(slots', files, f, done + [field], i, f2, u)
    {
      StepClaim(slots, files, f, done, field, i, f2, u);
    }
  }

  lemma StepSettles(slots: Table, f: string, done: seq<string>, field: string, u: string)
    requires slots != [] && Settled(slots, f, done) && FieldsRight(done + [field], u).Some?
    ensures Placed(StoreField(slots, f, field), Key(f, u))
  {
    NextRight(done, field, u);
    match FieldEntry(field) {
      case None =>
      case Some(e) =>
        if Key(f, u) == Key(f, e.user) {
          PlaceAfter(slots, Key(f, e.user), e.mode);
        } else {
          PlaceStable(slots, Key(f, u), Key(f, e.user), e.mode);
        }
    }
  }

  /** The claim about the user whose entry is stored. */
  lemma OwnClaim(slots: Table, files: Files, f: string, done: seq<string>, e: Entry, i: nat)
    requires slots != [] && Building(slots, files, f, done) && f in files
    requires Says(Store(slots, Key(f, e.user), e.mode), i, f, e.user)
    ensures var slots' := Store(slots, Key(f, e.user), e.mode);
            Some(slots'[i].mode) == if Place(slots', Key(f, e.user)) == Some(i) then Some(e.mode)
                                    else Right(files[f].accessList, e.user)
  {
    var key := Key(f, e.user);
    PlaceAfter(slots, key, e.mode);
    match Place(slots, key) {
      case None =>
        NoPlaceMeansFull(slots, key);
      case Some(j) =>
        if i != j {
          assert Says(slots, i, f, e.user);
          assert RightClaim(slots, files, f, done, i, f, e.user);
        }
    }
  }

  /** A claim about anybody else is not touched. */
  lemma OtherClaim(slots: Table, files: Files, f: string, done: seq<string>, e: Entry, i: nat, f2: string, u: string)
    requires slots != [] && Building(slots, files, f, done) && f2 in files && Key(f2, u) != Key(f, e.user)
    requires Says(Store(slots, Key(f, e.user), e.mode), i, f2, u)
    ensures RightClaim(Store(slots, Key(f, e.user), e.mode), files, f, done, i, f2, u)
  {
    assert Says(slots, i, f2, u);
    assert RightClaim(slots, files, f, done, i, f2, u);
    PlaceStable(slots, Key(f2, u), Key(f, e.user), e.mode);
    if f2 == f && FieldsRight(done, u).Some? {
      assert Placed(slots, Key(f, u));
    }
  }

  lemma StepClaim(slots: Table, files: Files, f: string, done: seq<string>, field: string, i: nat, f2: string,
                  u: string)
    requires slots != [] && Building(slots, files, f, done)
    requires Says(StoreField(slots, f, field), i, f2, u) && f2 in files
    ensures RightClaim(StoreField(slots, f, field), files, f, done + [field], i, f2, u)
  {
    NextRight(done, field, u);
    match FieldEntry(field) {
      case None =>
      case Some(e) =>
        var key := Key(f, e.user);
        if Key(f2, u) == key {
          KeyInjective(f2, u, f, e.user);
          OwnClaim(slots, files, f, done, e, i);
        } else {
          OtherClaim(slots, files, f, done, e, i, f2, u);
        }
    }
  }

  lemma {:induction false} BuildAll(slots: Table, files: Files, f: string, done: seq<string>, todo: seq<string>)
    requires slots != [] && Building(slots, files, f, done)
    ensures Building(Build(slots, f, todo), files, f, done + todo)
    decreases |todo|
  {
    if todo == [] {
      assert done + todo == done;
    } else {
      hide Building;
      BuildStep(slots, files, f, done, todo[0]);
      BuildAll(StoreField(slots, f, todo[0]), files, f, done + [todo[0]], todo[1..]);
      assert done + [todo[0]] + todo[1..] == done + todo;
    }
  }

  /** Rebuilding keeps agreement and leaves every listed user found, unless there is no room. */
  lemma BuildAgrees(slots: Table, files: Files, f: string)
    requires slots != [] && Agree(slots, files) && f in files
    ensures var fields := Tokens(files[f].accessList, ",");
            Agree(Build(slots, f, fields), files) && Settled(Build(slots, f, fields), f, fields)
  {
    var fields := Tokens(files[f].accessList, ",");
    assert Building(slots, files, f, []) by {
      forall i: nat, f2, u | Says(slots, i, f2, u) && f2 in files ensures RightClaim(slots, files, f, [], i, f2, u) {
        assert FieldsRight([], u) == None;
      }
    }
    BuildAll(slots, files, f, [], fields);
    assert [] + fields == fields;
    var built := Build(slots, f, fields);
    forall i: nat, f2, u | Says(built, i, f2, u) && f2 in files
      ensures Right(files[f2].accessList, u) == Some(built[i].mode)
    {
      assert RightClaim(built, files, f, fields, i, f2, u);
    }
  }

  /** An entry at its key's place stays there through a rebuild, with the mode of the last field about its user. */
  lemma {:induction false} PlacedStays(slots: Table, f: string, fields: seq<string>, u: string, i: nat)
    requires slots != [] && Short(f, u) && ':' !in u && Place(slots, Key(f, u)) == Some(i) && slots[i].valid
    ensures var built := Build(slots, f, fields);
            && Place(built, Key(f, u)) == Some(i) && built[i].valid
            && Some(built[i].mode) == Later(Some(slots[i].mode), FieldsRight(fields, u))
    decreases |fields|
  {
    if fields != [] {
      FirstRight(fields, u);
      match FieldEntry(fields[0]) {
        case None =>
        case Some(e) =>
          if Key(f, e.user) == Key(f, u) {
            KeyInjective(f, u, f, e.user);
            PlaceAfter(slots, Key(f, u), e.mode);
          } else {
            PlaceStable(slots, Key(f, u), Key(f, e.user), e.mode);
          }
      }
      hide Build, FieldsRight, Place, Probe;
      BuildNext(slots, f, fields);
      PlacedStays(StoreField(slots, f, fields[0]), f, fields[1..], u, i);
    }
  }

  lemma BuildNext(slots: Table, f: string, fields: seq<string>)
    requires slots != [] && fields != []
    ensures Build(slots, f, fields) == Build(StoreField(slots, f, fields[0]), f, fields[1..])
  {
  }

  lemma FirstRight(fields: seq<string>, u: string)
    requires fields != []
    ensures FieldsRight(fields, u) == Later(FieldRight(fields[0], u), FieldsRight(fields[1..], u))
  {
    FieldsRightAppend([fields[0]], fields[1..], u);
    FieldsRightOne(fields[0], u);
    assert [fields[0]] + fields[1..] == fields;
  }

  /** Whatever the table held before: an entry of the rebuilt table is an old one or says what the fields say. */
  lemma {:induction false} BuildOrigin(slots: Table, f: string, fields: seq<string>, i: nat, f2: string, u: string)
    requires slots != [] && Says(Build(slots, f, fields), i, f2, u)
    ensures var built := Build(slots, f, fields);
            built[i] == slots[i] || (f2 == f && FieldsRight(fields, u) == Some(built[i].mode))
    decreases |fields|
  {
    if fields != [] {
      var next := StoreField(slots, f, fields[0]);
      BuildNext(slots, f, fields);
      FirstRight(fields, u);
      BuildOrigin(next, f, fields[1..], i, f2, u);
      hide Build, FieldsRight, Place, Probe;
      if next[i] != slots[i] {
        var e := FieldEntry(fields[0]).value;
        PlaceAfter(slots, Key(f, e.user), e.mode);
        if Build(slots, f, fields)[i] == next[i] {
          KeyInjective(f2, u, f, e.user);
          PlacedStays(next, f, fields[1..], u, i);
        }
      }
    }
  }

  /** Whatever the table held before: after a rebuild a listed user is found with the listed mode, if it has a place. */
  lemma {:induction false} BuildFinds(slots: Table, f: string, fields: seq<string>, u: string)
    requires slots != [] && Short(f, u) && ':' !in u && FieldsRight(fields, u).Some?
    ensures var built := Build(slots, f, fields);
            Place(built, Key(f, u)) == None || Found(built, Key(f, u)) == FieldsRight(fields, u)
    decreases |fields|
  {
    if fields != [] {
      var next := StoreField(slots, f, fields[0]);
      BuildNext(slots, f, fields);
      FirstRight(fields, u);
      if FieldsRight(fields[1..], u).Some? {
        hide StoreField, FieldRight, Place;
        BuildFinds(next, f, fields[1..], u);
      } else {
        var e := FieldEntry(fields[0]).value;
        PlaceAfter(slots, Key(f, u), e.mode);
        var p := Place(next, Key(f, u));
        if p == None {
          NowhereStays(next, f, fields[1..], Key(f, u));
        } else {
          PlacedStays(next, f, fields[1..], u, p.value);
        }
      }
    }
  }

  /** A key that finds no place finds none after a rebuild either. */
  lemma {:induction false} NowhereStays(slots: Table, f: string, fields: seq<string>, key: string)
    requires slots != [] && Place(slots, key) == None
    ensures Place(Build(slots, f, fields), key) == None
    decreases |fields|
  {
    if fields != [] {
      match FieldEntry(fields[0]) {
        case None =>
        case Some(e) => if Key(f, e.user) != key { PlaceStable(slots, key, Key(f, e.user), e.mode); }
      }
      hide Place;
      NowhereStays(StoreField(slots, f, fields[0]), f, fields[1..], key);
    }
  }

  /** What a lookup finds is what the list says. */
  lemma FoundIsRight(slots: Table, files: Files, f: string, u: string)
    requires slots != [] && Agree(slots, files) && f in files && Short(f, u) && ':' !in u
    ensures Found(slots, Key(f, u)).Some? ==> Found(slots, Key(f, u)) == Right(files[f].accessList, u)
  {
    var p := Place(slots, Key(f, u));
    if p.Some? && slots[p.value].valid {
      assert Says(slots, p.value, f, u);
    }
  }

  /** After a rebuild, a lookup finds exactly what the list says, or the table is full for the key. */
  lemma RebuiltLookup(slots: Table, files: Files, f: string, u: string)
    requires slots != [] && Agree(slots, files) && f in files && Short(f, u) && ':' !in u
    ensures var built := Build(slots, f, Tokens(files[f].accessList, ","));
            || Found(built, Key(f, u)) == Right(files[f].accessList, u)
            || (Found(built, Key(f, u)) == None && Full(built, Key(f, u)))
  {
    var fields := Tokens(files[f].accessList, ",");
    var built := Build(slots, f, fields);
    BuildAgrees(slots, files, f);
    FoundIsRight(built, files, f, u);
    if FieldsRight(fields, u).Some? {
      assert Placed(built, Key(f, u));
      if Place(built, Key(f, u)) == None { NoPlaceMeansFull(built, Key(f, u)); }
    }
  }

  // ---------- invalidation ----------

  /** Invalidation drops every claim about the file, so its list may then be anything. */
  lemma InvalidateAgrees(slots: Table, files: Files, f: string, meta: FileMeta)
    requires Agree(slots, files) && |f| <= FILENAME_LIMIT
    ensures Agree(Invalidate(slots, f), files[f := meta])
    ensures forall i: nat, u :: !Says(Invalidate(slots, f), i, f, u)
  {
    var slots' := Invalidate(slots, f);
    forall i: nat, u ensures !Says(slots', i, f, u) {
      if i < |slots| && Short(f, u) { OwnKeyDropped(slots[i], f, u); }
    }
    forall i: nat, f2, u | Says(slots', i, f2, u) && f2 in files[f := meta]
      ensures Right(files[f := meta][f2].accessList, u) == Some(slots'[i].mode)
    {
      assert Says(slots, i, f2, u);
    }
  }

  /** A key starts with a file's name and a colon exactly if its own file is that one or is named so. */
  lemma PrefixOfKey(f: string, f2: string, u: string)
    requires ':' !in u
    ensures StartsWith(f2 + ":" + u, f + ":") <==> f2 == f || StartsWith(f2, f + ":")
  {
    var k, p := f2 + ":" + u, f + ":";
    assert k[..|f2|] == f2 && p[..|f|] == f && p[|f|] == ':';
    if StartsWith(k, p) {
      assert k[|f|] == p[|f|] && k[..|f|] == p[..|f|];
      ColonPosition(f2, u, |f|);
      if |f| < |f2| { assert f2[..|f| + 1] == k[..|f| + 1]; }
    }
    if f2 == f { assert k[..|f| + 1] == p; }
    if StartsWith(f2, p) { assert k[..|p|] == f2[..|p|]; }
  }

  /**
   Invalidation forgets a claim exactly if it is about this file, or about one whose name begins with this file's
   name and a colon; every other slot stays as it is.
   */
  lemma InvalidateExactly(slots: Table, f: string, i: nat, f2: string, u: string)
    requires |f| <= 255 && Says(slots, i, f2, u)
    ensures Invalidate(slots, f)[i].valid <==> f2 != f && !StartsWith(f2, f + ":")
    ensures Invalidate(slots, f)[i].valid ==> Invalidate(slots, f)[i] == slots[i]
  {
    assert Key(f2, u) == f2 + ":" + u && Prefix(f) == f + ":";
    PrefixOfKey(f, f2, u);
  }

  lemma OwnKeyDropped(s: Slot, f: string, u: string)
    requires Short(f, u)
    ensures !Holds(Dropped(s, f), Key(f, u))
  {
    assert Key(f, u) == f + ":" + u;
    assert (f + ":" + u)[..|f| + 1] == f + ":";
  }
}

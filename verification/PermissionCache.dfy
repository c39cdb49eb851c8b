/**
 The storage server's permission code as it runs: loops over the slot array and in-place edits of the lists. Each
 method is proved to be the function or the step of the same name in AccessList, CacheTable and PermissionLaws.
 */
module PermissionCache {
  import opened Text
  import opened CStrings
  import opened AccessList
  import opened CacheTable
  import opened Hashing
  import opened PermissionLaws

  /** The double search and the splice of add_user_access_ll and remove_user_access_ll. */
  method RemoveEntry(list: string, username: string) returns (edited: string)
    ensures edited == Revoke(list, username)
  {
    hide Strstr, IndexOf, Truncate;
    var pos := Strstr(list, Truncate(username + ":RW", SEARCH_LIMIT));
    if pos == None {
      pos := Strstr(list, Truncate(username + ":R", SEARCH_LIMIT));
    }
    if pos == None { return list; }
    var p := pos.value;
    var commaBefore := p > 0 && list[p - 1] == ',';
    var commaAfter := p + IndexOf(list[p..], ',');
    if commaBefore {
      if commaAfter < |list| {
        edited := list[..p - 1] + list[commaAfter..];
      } else {
        edited := list[..p - 1];
        assert list[commaAfter..] == "" && edited + "" == edited;
      }
    } else if commaAfter < |list| {
      edited := list[..p] + list[commaAfter + 1..];
    } else {
      edited := list[..p];
    }
  }

  /** The removal, then the strncat of the new entry. */
  method ReplaceEntry(list: string, username: string, mode: Mode) returns (edited: string)
    requires |list| <= LIST_LIMIT
    ensures edited == Grant(list, username, mode)
  {
    hide Revoke, GrantText;
    edited := RemoveEntry(list, username);
    edited := edited + Truncate(GrantText(username, mode), LIST_LIMIT - |edited|);
  }

  class AccessControl {
    const cache: array<Slot>
    var metadata: Files

    ghost predicate Valid()
      reads this
    {
      cache.Length == CACHE_SIZE && forall f | f in metadata :: |metadata[f].accessList| <= LIST_LIMIT
    }

    constructor ()
      ensures Valid() && fresh(cache) && metadata == map[] && cache[..] == EmptyServer().slots
    {
      cache := new Slot[CACHE_SIZE](_ => Slot("", R, false));
      metadata := map[];
    }

    /** Puts one key into the table: update at the home slot, else probe for the key or a free slot. */
    method InsertKey(key: string, mode: Mode)
      requires cache.Length == CACHE_SIZE
      modifies cache
      ensures cache[..] == Store(old(cache[..]), key, mode)
    {
      ghost var was := cache[..];
      var hash := HashKey(key, WORD32, CACHE_SIZE);
      if cache[hash].valid && cache[hash].key == key {
        cache[hash] := cache[hash].(mode := mode);
        return;
      }
      var i := 1;
      while i < CACHE_SIZE
        invariant cache[..] == was && Probe(was, hash, key, 1) == Probe(was, hash, key, i)
      {
        var probe := (hash + i) % CACHE_SIZE;
        if !cache[probe].valid {
          cache[probe] := Slot(key, mode, true);
          return;
        } else if cache[probe].key == key {
          cache[probe] := cache[probe].(mode := mode);
          return;
        }
        i := i + 1;
      }
    }

    /** One entry of the list: split at its first colon, its mode recognised, put into the table. */
    method StoreEntry(filename: string, entry: string)
      requires cache.Length == CACHE_SIZE
      modifies cache
      ensures cache[..] == StoreField(old(cache[..]), filename, entry)
    {
      hide IndexOf, Store, Key;
      var colon := IndexOf(entry, ':');
      if colon < |entry| {
        var username, access := entry[..colon], entry[colon + 1..];
        if access == "R" {
          InsertKey(Key(filename, username), R);
        } else if access == "RW" {
          InsertKey(Key(filename, username), RW);
        }
      }
    }

    /** build_access_cache_for_file */
    method BuildForFile(filename: string, accessList: string)
      requires cache.Length == CACHE_SIZE
      modifies cache
      ensures cache[..] == Build(old(cache[..]), filename, Tokens(Truncate(accessList, LIST_LIMIT), ","))
    {
      hide Strtok, Truncate, StoreField;
      var listCopy := Truncate(accessList, LIST_LIMIT);
      var scan := Strtok(listCopy, ",");
      ghost var todo := Tokens(listCopy, ",");
      while scan.Token?
        invariant todo == match scan { case NoToken => [] case Token(t, rest) => [t] + Tokens(rest, ",") }
        invariant Build(old(cache[..]), filename, Tokens(listCopy, ",")) == Build(cache[..], filename, todo)
        decreases |todo|
      {
        StoreEntry(filename, scan.text);
        assert todo[1..] == Tokens(scan.rest, ",");
        todo := todo[1..];
        scan := Strtok(scan.rest, ",");
      }
    }

    /** invalidate_access_cache_for_file */
    method InvalidateForFile(filename: string)
      requires cache.Length == CACHE_SIZE
      modifies cache
      ensures cache[..] == Invalidate(old(cache[..]), filename)
    {
      for i := 0 to CACHE_SIZE
        invariant forall j | 0 <= j < i :: cache[j] == Dropped(old(cache[j]), filename)
        invariant forall j | i <= j < CACHE_SIZE :: cache[j] == old(cache[j])
      {
        if cache[i].valid && StartsWith(cache[i].key, Prefix(filename)) {
          cache[i] := cache[i].(valid := false);
        }
      }
    }

    /** lookup_access_cache */
    method Lookup(filename: string, username: string, need: Need) returns (hasAccess: bool)
      requires cache.Length == CACHE_SIZE
      ensures hasAccess == Allows(Found(cache[..], Key(filename, username)), need)
    {
      var key := Key(filename, username);
      var hash := HashKey(key, WORD32, CACHE_SIZE);
      if cache[hash].valid && cache[hash].key == key {
        return Allows(Some(cache[hash].mode), need);
      }
      var i := 1;
      while i < CACHE_SIZE
        invariant Probe(cache[..], hash, key, 1) == Probe(cache[..], hash, key, i)
      {
        var probe := (hash + i) % CACHE_SIZE;
        if !cache[probe].valid { break; }
        if cache[probe].key == key { return Allows(Some(cache[probe].mode), need); }
        i := i + 1;
      }
      hasAccess := false;
    }

    /** has_read_access_ll for Read, has_write_access_ll for Write. */
    method HasAccess(filename: string, username: string, need: Need) returns (granted: bool)
      requires Valid()
      modifies cache
      ensures granted == Granted(old(cache[..]), metadata, filename, username, need)
      ensures cache[..] == CheckedSlots(old(cache[..]), metadata, filename, username, need)
    {
      if filename !in metadata { return false; }
      if metadata[filename].owner == username { return true; }
      granted := Lookup(filename, username, need);
      if granted { return; }
      BuildForFile(filename, metadata[filename].accessList);
      granted := Lookup(filename, username, need);
    }

    /** What the steps of PermissionLaws see of the object. */
    ghost function State(gone: Past): Server
      reads this, cache
    {
      Server(cache[..], metadata, gone)
    }

    method AddUserAccess(filename: string, username: string, mode: Mode, ghost gone: Past) returns (ok: bool)
      requires Valid()
      modifies this, cache
      ensures Valid() && ok == (filename in old(metadata))
      ensures State(gone) == Next(old(State(gone)), GrantTo(filename, username, mode))
    {
      if filename !in metadata { return false; }
      hide Grant, Invalidate;
      var meta := metadata[filename];
      var list := ReplaceEntry(meta.accessList, username, mode);
      metadata := metadata[filename := meta.(accessList := list)];
      InvalidateForFile(filename);
      ok := true;
    }

    method RemoveUserAccess(filename: string, username: string, ghost gone: Past) returns (ok: bool)
      requires Valid()
      modifies this, cache
      ensures Valid() && ok == (filename in old(metadata))
      ensures State(gone) == Next(old(State(gone)), RevokeFrom(filename, username))
    {
      if filename !in metadata { return false; }
      hide Revoke, Invalidate;
      var meta := metadata[filename];
      var list := RemoveEntry(meta.accessList, username);
      metadata := metadata[filename := meta.(accessList := list)];
      InvalidateForFile(filename);
      ok := true;
    }

    /** The metadata of create_file_ll. */
    method CreateFile(filename: string, owner: string, ghost gone: Past) returns (ok: bool)
      requires Valid()
      modifies this
      ensures Valid() && ok == (filename !in old(metadata) && |old(metadata)| < MAX_FILES)
      ensures State(gone) == Next(old(State(gone)), PermissionLaws.CreateFile(filename, owner))
    {
      if filename in metadata { return false; }
      if |metadata| >= MAX_FILES { return false; }
      metadata := metadata[filename := FileMeta(Truncate(owner, USER_LIMIT), Truncate(owner + ":RW", LIST_LIMIT))];
      ok := true;
    }

    /** The metadata of delete_file_ll; the cache is not told. */
    method DeleteFile(filename: string, ghost gone: Past) returns (ok: bool)
      requires Valid()
      modifies this
      ensures Valid() && ok == (filename in old(metadata))
      ensures State(if ok then Buried(gone, filename, old(metadata)[filename].accessList) else gone)
           == Next(old(State(gone)), PermissionLaws.DeleteFile(filename))
    {
      if filename !in metadata { return false; }
      metadata := metadata - {filename};
      ok := true;
    }
  }
}

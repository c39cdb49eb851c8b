/** The file list a storage server registers with. */
module Registration {
  import opened Text
  import opened CStrings
  import opened AccessList

  // It is printed by get_file_list_ll and parsed by the name server.

  datatype Listing = Listing(name: string, owner: string)

  const MESSAGE_LIMIT: nat := 4095
  const NAME_LIMIT: nat := 255
  const MAX_LISTED: nat := 1000
  const DEFAULT_OWNER := "system"

  function ListingText(l: Listing): string {
    l.name + ":" + l.owner
  }

  function ListingTexts(ls: seq<Listing>): (fs: seq<string>)
    ensures |fs| == |ls| && forall i | 0 <= i < |ls| :: fs[i] == ListingText(ls[i])
  {
    seq(|ls|, i requires 0 <= i < |ls| => ListingText(ls[i]))
  }

  /** The list without the message's length limit. */
  function FileListText(ls: seq<Listing>): string {
    Commas(ListingTexts(ls))
  }

  /** One token of the list: split at its first colon, owner "system" if there is none. */
  function ParseListing(token: string): Listing {
    var colon := IndexOf(token, ':');
    if colon == |token| then Listing(token, DEFAULT_OWNER)
    else Listing(token[..colon], Truncate(token[colon + 1..], USER_LIMIT))
  }

  function ParseListings(tokens: seq<string>): (ls: seq<Listing>)
    ensures |ls| == |tokens| && forall i | 0 <= i < |tokens| :: ls[i] == ParseListing(tokens[i])
  {
    seq(|tokens|, i requires 0 <= i < |tokens| => ParseListing(tokens[i]))
  }

  /** The files a registration enters, as far as the file table goes. */
  function ParseFileList(text: string): (files: seq<Listing>)
    ensures |files| <= MAX_LISTED
  {
    var ls := ParseListings(Tokens(text, ","));
    if |ls| <= MAX_LISTED then ls else ls[..MAX_LISTED]
  }

  /** Names and owners that can be listed. */
  predicate Listable(l: Listing) {
    && ':' !in l.name && ',' !in l.name
    && ',' !in l.owner && |l.owner| <= USER_LIMIT
  }

  predicate AllListable(ls: seq<Listing>) {
    forall i | 0 <= i < |ls| :: Listable(ls[i])
  }

  lemma ListingParses(l: Listing)
    requires Listable(l)
    ensures IsField(ListingText(l)) && ParseListing(ListingText(l)) == l
  {
    assert ListingText(l) == l.name + (":" + l.owner);
    IndexOfExact(l.name, ':', ":" + l.owner);
    assert ListingText(l)[..|l.name|] == l.name && ListingText(l)[|l.name| + 1..] == l.owner;
  }

  /** The untruncated list is read back exactly, in order. */
  lemma FullListParses(ls: seq<Listing>)
    requires AllListable(ls) && |ls| <= MAX_LISTED
    ensures ParseFileList(FileListText(ls)) == ls
  {
    var fs := ListingTexts(ls);
    forall i | 0 <= i < |ls| ensures IsField(fs[i]) && ParseListing(fs[i]) == ls[i] { ListingParses(ls[i]); }
    TokensOfCommas(fs);
  }

  /** What is left of a list of fields when its text is cut: the first j of them and a part of the next. */
  lemma {:induction false} CutTokens(fs: seq<string>, n: nat) returns (j: nat, p: string)
    requires (forall i | 0 <= i < |fs| :: IsField(fs[i])) && n < |Commas(fs)|
    ensures j < |fs| && |p| < |fs[j]| && p == fs[j][..|p|]
    ensures Tokens(Commas(fs)[..n], ",") == fs[..j] + if p == "" then [] else [p]
    ensures |Commas(fs)| - n < |Last(fs)| <==> j == |fs| - 1 && p != ""
    ensures |Commas(fs)| - n < |Last(fs)| ==> |p| == |Last(fs)| - (|Commas(fs)| - n)
  {
    hide Tokens;
    var f := fs[0];
    assert IsField(f);
    if n < |f| {
      CutFirstField(fs, n);
      j, p := 0, f[..n];
    } else if n == |f| {
      CutBehindFirst(fs);
      j, p := 1, "";
    } else {
      var k;
      k, p := CutTokens(fs[1..], n - |f| - 1);
      j := k + 1;
      CutLater(fs, n);
      assert [f] + fs[1..][..k] == fs[..j];
      Assoc([f], fs[1..][..k], if p == "" then [] else [p]);
    }
  }

  lemma CutFirstField(fs: seq<string>, n: nat)
    requires fs != [] && IsField(fs[0]) && n < |fs[0]|
    ensures Tokens(Commas(fs)[..n], ",") == fs[..0] + if n == 0 then [] else [fs[0][..n]]
    ensures |fs| > 1 ==> |Commas(fs)| > |Last(fs)| + n
  {
    var p := fs[0][..n];
    assert Commas(fs)[..n] == p;
    OneToken(p);
    assert fs[..0] + [p] == [p];
    assert fs[..0] + [] == [];
    if |fs| > 1 { LastFits(fs[1..]); }
  }

  lemma {:induction false} LastFits(fs: seq<string>)
    requires fs != []
    ensures |Last(fs)| <= |Commas(fs)|
  {
    if |fs| > 1 { LastFits(fs[1..]); }
  }

  lemma CutBehindFirst(fs: seq<string>)
    requires |fs| > 1 && IsField(fs[0]) && IsField(fs[1])
    ensures Tokens(Commas(fs)[..|fs[0]|], ",") == fs[..1] + []
    ensures |Commas(fs)| > |Last(fs)| + |fs[0]|
  {
    assert Commas(fs)[..|fs[0]|] == fs[0];
    OneToken(fs[0]);
    assert fs[..1] == [fs[0]];
    LastFits(fs[1..]);
  }

  lemma CutLater(fs: seq<string>, n: nat)
    requires |fs| > 1 && IsField(fs[0]) && |fs[0]| < n < |Commas(fs)|
    ensures |Commas(fs)| == |fs[0]| + 1 + |Commas(fs[1..])|
    ensures Tokens(Commas(fs)[..n], ",") == [fs[0]] + Tokens(Commas(fs[1..])[..n - |fs[0]| - 1], ",")
  {
    var f, rest := fs[0], Commas(fs[1..])[..n - |fs[0]| - 1];
    assert Commas(fs)[..n] == f + [','] + rest;
    TokensSplit(f, ',', rest, ",");
    OneToken(f);
  }

  lemma OneToken(p: string)
    requires ',' !in p
    ensures Tokens(p, ",") == if p == "" then [] else [p]
  {
    if p == "" {
      NoTokens(",");
    } else {
      TokensOfToken(p, ',', "", ",");
    }
  }

  /** The cut falls right before the colon of a last entry whose owner is the default one. */
  predicate CutAtDefaultOwner(ls: seq<Listing>, limit: nat) {
    && ls != [] && Last(ls).owner == "system" && Last(ls).name != ""
    && |FileListText(ls)| == limit + 7
  }

  /**
   Registration gives back the same list of names and owners exactly when the text fits the message, or lost
   nothing but a final ":system".
   */
  lemma RegistrationRoundTripIff(ls: seq<Listing>, limit: nat)
    requires AllListable(ls) && |ls| <= MAX_LISTED
    ensures ParseFileList(Truncate(FileListText(ls), limit)) == ls
        <==> |FileListText(ls)| <= limit || CutAtDefaultOwner(ls, limit)
  {
    if |FileListText(ls)| <= limit {
      FullListParses(ls);
    } else {
      CutListParses(ls, limit);
    }
  }

  /** Names and owners as their fields hold them. */
  predicate FieldSized(l: Listing) {
    |l.name| <= NAME_LIMIT && |l.owner| <= USER_LIMIT
  }

  lemma {:induction false} ListLength(ls: seq<Listing>)
    requires ls != [] && forall i | 0 <= i < |ls| :: FieldSized(ls[i])
    ensures |FileListText(ls)| < |ls| * (NAME_LIMIT + USER_LIMIT + 2)
    ensures (forall i | 0 <= i < |ls| :: |ls[i].name| == NAME_LIMIT && |ls[i].owner| == USER_LIMIT)
            ==> |FileListText(ls)| == |ls| * (NAME_LIMIT + USER_LIMIT + 2) - 1
  {
    var fs := ListingTexts(ls);
    assert FieldSized(ls[0]) && |fs[0]| == |ls[0].name| + 1 + |ls[0].owner|;
    if |ls| > 1 {
      ListLength(ls[1..]);
      assert ListingTexts(ls[1..]) == fs[1..];
    }
  }

  /**
   In the message of a registration twelve files always arrive; thirteen with names and owners of full length do
   not.
   */
  lemma TwelveFilesRegister(ls: seq<Listing>)
    requires AllListable(ls) && forall i | 0 <= i < |ls| :: FieldSized(ls[i])
    ensures |ls| <= 12 ==> ParseFileList(Truncate(FileListText(ls), MESSAGE_LIMIT)) == ls
    ensures 13 <= |ls| <= MAX_LISTED
            && (forall i | 0 <= i < |ls| :: |ls[i].name| == NAME_LIMIT && |ls[i].owner| == USER_LIMIT)
            ==> ParseFileList(Truncate(FileListText(ls), MESSAGE_LIMIT)) != ls
  {
    assert MESSAGE_LIMIT == 4095 && MAX_LISTED == 1000 && NAME_LIMIT == 255 && USER_LIMIT == 63;
    assert ls != [] ==> Last(ls) == ls[|ls| - 1];
    hide *;
    if |ls| <= MAX_LISTED { RegistrationRoundTripIff(ls, MESSAGE_LIMIT); }
    if ls != [] { ListLength(ls); }
    FullOwnerIsNotDefault(ls);
    EmptyText();
  }

  lemma FullOwnerIsNotDefault(ls: seq<Listing>)
    ensures ls != [] && |Last(ls).owner| == USER_LIMIT ==> !CutAtDefaultOwner(ls, MESSAGE_LIMIT)
  {
  }

  lemma EmptyText()
    ensures FileListText([]) == ""
  {
  }

  lemma CutListParses(ls: seq<Listing>, limit: nat)
    requires ls != [] && AllListable(ls) && |ls| <= MAX_LISTED && |FileListText(ls)| > limit
    ensures ParseFileList(FileListText(ls)[..limit]) == ls <==> CutAtDefaultOwner(ls, limit)
  {
    var fs := ListingTexts(ls);
    forall i | 0 <= i < |ls| ensures IsField(fs[i]) { ListingParses(ls[i]); }
    assert Commas(fs) == FileListText(ls) && Listable(Last(ls)) && Last(fs) == ListingText(Last(ls));
    assert ls[|ls| - 1] == Last(ls);
    hide *;
    var j, p := CutTokens(fs, limit);
    var cut := if p == "" then [] else [p];
    ParseFew(FileListText(ls)[..limit], fs[..j] + cut);
    if j == |fs| - 1 && p != "" {
      CutListing(ls[j], p);
      CutInLast(ls, limit, p);
      FrontParses(ls, j, cut);
      SameButLast(ls, ParseListings(fs[..j] + cut));
    } else {
      CutBeforeLast(ls, limit);
    }
  }

  lemma ParseFew(text: string, tokens: seq<string>)
    requires Tokens(text, ",") == tokens && |tokens| <= MAX_LISTED
    ensures ParseFileList(text) == ParseListings(tokens)
  {
  }

  lemma CutBeforeLast(ls: seq<Listing>, limit: nat)
    requires ls != [] && |FileListText(ls)| - limit >= |ListingText(Last(ls))|
    ensures !CutAtDefaultOwner(ls, limit)
  {
  }

  lemma CutInLast(ls: seq<Listing>, limit: nat, p: string)
    requires ls != [] && Listable(Last(ls)) && |FileListText(ls)| > limit
    requires p != "" && |p| == |ListingText(Last(ls))| - (|FileListText(ls)| - limit)
    requires p == ListingText(Last(ls))[..|p|]
    ensures CutAtDefaultOwner(ls, limit) <==> p == Last(ls).name && Last(ls).owner == DEFAULT_OWNER
  {
    hide FileListText, Listable;
    var l := Last(ls);
    if |p| == |l.name| {
      assert ListingText(l)[..|l.name|] == l.name;
    }
  }

  lemma SameButLast(ls: seq<Listing>, parsed: seq<Listing>)
    requires |parsed| == |ls| > 0 && forall i | 0 <= i < |ls| - 1 :: parsed[i] == ls[i]
    ensures parsed == ls <==> Last(parsed) == Last(ls)
  {
  }

  lemma FrontParses(ls: seq<Listing>, j: nat, more: seq<string>)
    requires AllListable(ls) && j <= |ls|
    ensures forall i | 0 <= i < j :: ParseListings(ListingTexts(ls)[..j] + more)[i] == ls[i]
    ensures |more| == 1 ==> Last(ParseListings(ListingTexts(ls)[..j] + more)) == ParseListing(more[0])
  {
    forall i | 0 <= i < j ensures ParseListings(ListingTexts(ls)[..j] + more)[i] == ls[i] { ListingParses(ls[i]); }
  }

  lemma CutListing(l: Listing, p: string)
    requires Listable(l) && |p| < |ListingText(l)| && p == ListingText(l)[..|p|]
    ensures ParseListing(p) == l <==> p == l.name && l.owner == DEFAULT_OWNER
  {
    if |p| <= |l.name| {
      assert p == l.name[..|p|];
      assert p + "" == p;
      IndexOfExact(p, ':', "");
    } else {
      var o := p[|l.name| + 1..];
      assert p == l.name + (":" + o);
      IndexOfExact(l.name, ':', ":" + o);
      assert |o| < |l.owner|;
    }
  }

  /** get_file_list_ll: strncat never writes beyond the buffer, so the text is cut at its limit. */
  method PrintFileList(metadata: seq<Listing>, maxSize: nat) returns (fileList: string)
    requires maxSize > 0
    ensures fileList == Truncate(FileListText(metadata), maxSize - 1)
  {
    fileList := "";
    ghost var full := "";
    for i := 0 to |metadata|
      invariant fileList == Truncate(full, maxSize - 1) && full == FileListText(metadata[..i])
    {
      if i > 0 {
        fileList := Append(fileList, ",", maxSize, full);
        full := full + ",";
      }
      fileList := Append(fileList, metadata[i].name, maxSize, full);
      full := full + metadata[i].name;
      fileList := Append(fileList, ":", maxSize, full);
      full := full + ":";
      fileList := Append(fileList, metadata[i].owner, maxSize, full);
      full := full + metadata[i].owner;
      OneMore(metadata, i);
    }
    assert metadata[..|metadata|] == metadata;
  }

  /** strncat(dst, src, maxSize - strlen(dst) - 1) */
  method Append(dst: string, src: string, maxSize: nat, ghost full: string) returns (r: string)
    requires maxSize > 0 && dst == Truncate(full, maxSize - 1)
    ensures r == Truncate(full + src, maxSize - 1)
  {
    r := dst + Truncate(src, maxSize - |dst| - 1);
  }

  lemma OneMore(ls: seq<Listing>, i: nat)
    requires i < |ls|
    ensures FileListText(ls[..i + 1])
         == FileListText(ls[..i]) + (if i > 0 then "," else "") + ls[i].name + ":" + ls[i].owner
  {
    var a, b := ListingTexts(ls[..i]), [ListingText(ls[i])];
    assert ListingTexts(ls[..i + 1]) == a + b;
    if i > 0 {
      CommasAppend(a, b);
    } else {
      assert a + b == b;
    }
  }
}

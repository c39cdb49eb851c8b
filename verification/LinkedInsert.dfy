/**
 split_content_into_groups: the splitter of write_to_file_ll, filling its fixed table of groups. Its loops are
 proved to compute SplitContent of NestedInsert for every content whose groups fit the table.
 */
module LinkedInsert {
  import opened Text
  import opened Document
  import opened NestedInsert
  import opened DocumentStorage

  // ---------- filling the group table ----------

  const MAX_GROUPS: nat := 100
  const MAX_GROUP_WORDS: nat := 100

  /** The content fits the fixed tables of the splitter; beyond that nothing is claimed. */
  ghost predicate FitsTables(content: string) {
    var gs := SplitContent(content);
    && |gs| <= MAX_GROUPS
    && (|gs| == MAX_GROUPS ==> Last(gs).delim == NUL)
    && (forall i | 0 <= i < |gs| :: |gs[i].words| <= MAX_GROUP_WORDS)
  }

  /** The table so far: closed groups, then the open one, with the items still to be read. */
  ghost predicate Filling(content: string, table: seq<WordGroup>, k: nat, items: seq<Item>) {
    && k < |table| && table[k].delim == NUL
    && (forall i | 0 <= i < k :: table[i].delim != NUL)
    && SplitContent(content) == table[..k] + GroupItems(table[k].words, items)
  }

  lemma {:induction false} OpenGroupGrows(open: seq<string>, items: seq<Item>)
    requires open != []
    ensures GroupItems(open, items) != [] && open <= GroupItems(open, items)[0].words
    decreases |items|
  {
    if items != [] {
      match items[0] {
        case Newline =>
        case Word(w) => if !EndsSentence(w) { OpenGroupGrows(open + [w], items[1..]); }
      }
    }
  }

  /** Room for one more group after closing group k, and for one more word in it. */
  lemma RoomToClose(content: string, closed: seq<WordGroup>, items: seq<Item>)
    requires FitsTables(content) && closed != [] && forall i | 0 <= i < |closed| :: closed[i].delim != NUL
    requires SplitContent(content) == closed + GroupItems([], items)
    ensures |closed| < MAX_GROUPS
  {
    assert SplitContent(content)[|closed| - 1] == Last(closed);
  }

  /** A word still fits the open group. */
  lemma RoomForWord(content: string, closed: seq<WordGroup>, open: seq<string>, w: string, items: seq<Item>)
    requires FitsTables(content) && SplitContent(content) == closed + GroupItems(open, [Word(w)] + items)
    ensures |open| < MAX_GROUP_WORDS
  {
    assert ([Word(w)] + items)[1..] == items;
    var gs := GroupItems(open, [Word(w)] + items);
    if !EndsSentence(w) { OpenGroupGrows(open + [w], items); }
    assert open + [w] <= gs[0].words;
    assert SplitContent(content)[|closed|] == gs[0];
  }

  /** groups[k].words[word_count++] = w */
  method AddToGroup(groups: array<WordGroup>, k: nat, w: string)
    requires k < groups.Length && |groups[k].words| < MAX_GROUP_WORDS
    modifies groups
    ensures groups[..] == old(groups[..])[k := old(groups[k]).(words := old(groups[k]).words + [w])]
  {
    groups[k] := groups[k].(words := groups[k].words + [w]);
  }

  /** Sets what ended group k and starts the next one. */
  method CloseGroup(content: string, groups: array<WordGroup>, k: nat, delim: char, ghost items: seq<Item>)
    requires groups.Length == MAX_GROUPS && k < MAX_GROUPS && FitsTables(content) && delim != NUL
    requires forall i | 0 <= i < k :: groups[i].delim != NUL
    requires SplitContent(content) == groups[..k] + [WordGroup(groups[k].words, delim)] + GroupItems([], items)
    modifies groups
    ensures k + 1 < MAX_GROUPS && Filling(content, groups[..], k + 1, items)
  {
    ghost var closed := groups[..k] + [WordGroup(groups[k].words, delim)];
    RoomToClose(content, closed, items);
    groups[k] := groups[k].(delim := delim);
    groups[k + 1] := WordGroup([], NUL);
    assert groups[..][..k + 1] == closed;
  }

  lemma WordItemsCons(w: string, ws: seq<string>, items: seq<Item>)
    ensures WordItems([w] + ws) + items == [Word(w)] + (WordItems(ws) + items)
  {
    assert ([w] + ws)[1..] == ws;
  }

  lemma ItemsOfRun(s: string, k: nat)
    requires s != [] && !IsSpace(s[0]) && k == RunLength(s, WORD_LIMIT)
    ensures Items(s) == WordItems(Parts(s[..k])) + Items(s[k..])
  {
  }

  /** What one more item does to the table. */
  lemma FillWord(content: string, table: seq<WordGroup>, k: nat, w: string, items: seq<Item>)
    requires Filling(content, table, k, [Word(w)] + items)
    ensures SplitContent(content) == table[..k] +
              if EndsSentence(w) then [WordGroup(table[k].words + [w], Last(w))] + GroupItems([], items)
              else GroupItems(table[k].words + [w], items)
  {
    assert ([Word(w)] + items)[1..] == items;
  }

  /** The inner loop: a word buffer is cut after each terminator, and each cut closes a group. */
  method AddBufferToGroups(content: string, groups: array<WordGroup>, k: nat, buffer: string, ghost rest: seq<Item>)
    returns (groupCount: nat)
    requires groups.Length == MAX_GROUPS && FitsTables(content)
    requires Filling(content, groups[..], k, WordItems(Parts(buffer)) + rest)
    modifies groups
    ensures Filling(content, groups[..], groupCount, rest)
  {
    hide Filling, PartsFrom, FitsTables, GroupItems;
    groupCount := k;
    var startPos := 0;
    assert buffer[0..] == buffer;
    for i := 0 to |buffer|
      invariant startPos <= i
      invariant forall j | startPos <= j < i :: !IsDelimiter(buffer[j])
      invariant Filling(content, groups[..], groupCount, WordItems(Parts(buffer[startPos..])) + rest)
    {
      if IsDelimiter(buffer[i]) {
        CutItems(buffer, startPos, i, rest);
        groupCount := AddAndClose(content, groups, groupCount, buffer[startPos..i + 1],
                                  WordItems(Parts(buffer[i + 1..])) + rest);
        startPos := i + 1;
      }
    }
    RestItems(buffer[startPos..], rest);
    if startPos < |buffer| {
      AddOpen(content, groups, groupCount, buffer[startPos..], rest);
    }
  }

  method AddAndClose(content: string, groups: array<WordGroup>, k: nat, part: string, ghost items: seq<Item>)
    returns (groupCount: nat)
    requires groups.Length == MAX_GROUPS && FitsTables(content) && EndsSentence(part)
    requires Filling(content, groups[..], k, [Word(part)] + items)
    modifies groups
    ensures Filling(content, groups[..], groupCount, items)
  {
    FillWord(content, groups[..], k, part, items);
    RoomForWord(content, groups[..k], groups[k].words, part, items);
    assert groups[..][..k] == groups[..k];
    AddToGroup(groups, k, part);
    assert groups[..k] == old(groups[..k]);
    Assoc(groups[..k], [WordGroup(groups[k].words, Last(part))], GroupItems([], items));
    CloseGroup(content, groups, k, part[|part| - 1], items);
    groupCount := k + 1;
  }

  method AddOpen(content: string, groups: array<WordGroup>, k: nat, part: string, ghost items: seq<Item>)
    requires groups.Length == MAX_GROUPS && FitsTables(content) && !EndsSentence(part)
    requires Filling(content, groups[..], k, [Word(part)] + items)
    modifies groups
    ensures Filling(content, groups[..], k, items)
  {
    FillWord(content, groups[..], k, part, items);
    RoomForWord(content, groups[..k], groups[k].words, part, items);
    assert groups[..][..k] == groups[..k];
    AddToGroup(groups, k, part);
    assert groups[..][..k] == old(groups[..k]);
  }

  lemma CutItems(buffer: string, start: nat, i: nat, rest: seq<Item>)
    requires start <= i < |buffer| && IsDelimiter(buffer[i]) && forall k | start <= k < i :: !IsDelimiter(buffer[k])
    ensures WordItems(Parts(buffer[start..])) + rest
         == [Word(buffer[start..i + 1])] + (WordItems(Parts(buffer[i + 1..])) + rest)
  {
    CutAtDelimiter(buffer, start, i, []);
    assert Parts(buffer[start..]) + [] == Parts(buffer[start..]);
    assert Parts(buffer[i + 1..]) + [] == Parts(buffer[i + 1..]);
    WordItemsCons(buffer[start..i + 1], Parts(buffer[i + 1..]), rest);
  }

  lemma RestItems(tail: string, rest: seq<Item>)
    requires forall i | 0 <= i < |tail| :: !IsDelimiter(tail[i])
    ensures WordItems(Parts(tail)) + rest == if tail == [] then rest else [Word(tail)] + rest
    ensures !EndsSentence(tail)
  {
    NoMoreDelimiters(tail, []);
    assert Parts(tail) + [] == Parts(tail);
    if tail == [] {
      assert WordItems([]) + rest == rest;
    } else {
      assert [tail] + [] == [tail];
      WordItemsCons(tail, [], rest);
      assert WordItems([]) + rest == rest;
    }
  }

  lemma ItemsOfNewline(s: string)
    requires s != [] && s[0] == '\n'
    ensures Items(s) == [Newline] + Items(s[1..])
  {
  }

  lemma ItemsOfBlank(s: string)
    requires s != [] && IsSpace(s[0]) && s[0] != '\n'
    ensures Items(s) == Items(s[1..])
  {
  }

  lemma FillNewline(content: string, table: seq<WordGroup>, k: nat, items: seq<Item>)
    requires Filling(content, table, k, [Newline] + items)
    ensures table[k].words == [] ==> Filling(content, table, k, items)
    ensures table[k].words != [] ==>
              SplitContent(content) == table[..k] + [WordGroup(table[k].words, '\n')] + GroupItems([], items)
    ensures forall i | 0 <= i < k :: table[i].delim != NUL
  {
    assert ([Newline] + items)[1..] == items;
    if table[k].words != [] {
      Assoc(table[..k], [WordGroup(table[k].words, '\n')], GroupItems([], items));
    }
  }

  /** A newline closes the open group unless it is empty. */
  method HandleNewline(content: string, groups: array<WordGroup>, k: nat, ghost items: seq<Item>)
    returns (groupCount: nat)
    requires groups.Length == MAX_GROUPS && FitsTables(content)
    requires Filling(content, groups[..], k, [Newline] + items)
    modifies groups
    ensures Filling(content, groups[..], groupCount, items)
  {
    FillNewline(content, groups[..], k, items);
    assert groups[..][..k] == groups[..k];
    groupCount := k;
    if |groups[k].words| > 0 {
      CloseGroup(content, groups, k, '\n', items);
      groupCount := k + 1;
    }
  }

  /** split_content_into_groups */
  method SplitContentIntoGroups(content: string, groups: array<WordGroup>) returns (groupCount: nat)
    requires groups.Length == MAX_GROUPS && FitsTables(content)
    modifies groups
    ensures groupCount <= MAX_GROUPS && groups[..groupCount] == SplitContent(content)
  {
    groups[0] := WordGroup([], NUL);
    groupCount := 0;
    var p := 0;
    assert content[0..] == content && groups[..][..0] == [];
    assert [] + SplitContent(content) == SplitContent(content);
    assert Filling(content, groups[..], 0, Items(content[0..]));
    hide Filling, Items, GroupItems, SplitContent, FitsTables;
    while p < |content|
      invariant p <= |content| && Filling(content, groups[..], groupCount, Items(content[p..]))
      decreases |content| - p
    {
      if content[p] == '\n' {
        ItemsOfNewline(content[p..]);
        assert content[p..][1..] == content[p + 1..];
        groupCount := HandleNewline(content, groups, groupCount, Items(content[p + 1..]));
        p := p + 1;
        continue;
      }
      while p < |content| && IsSpace(content[p]) && content[p] != '\n'
        invariant p <= |content| && Filling(content, groups[..], groupCount, Items(content[p..]))
        decreases |content| - p
      {
        ItemsOfBlank(content[p..]);
        assert content[p..][1..] == content[p + 1..];
        p := p + 1;
      }
      if p == |content| { break; }
      if content[p] == '\n' { continue; }
      var buffer, q := ReadWord(content, p);
      ItemsOfRun(content[p..], |buffer|);
      assert content[p..][..|buffer|] == buffer && content[p..][|buffer|..] == content[q..];
      groupCount := AddBufferToGroups(content, groups, groupCount, buffer, Items(content[q..]));
      p := q;
    }
    TableDone(content, groups[..], groupCount, content[p..]);
    if |groups[groupCount].words| > 0 {
      groupCount := groupCount + 1;
    }
    assert groups[..][..groupCount] == groups[..groupCount];
  }

  lemma TableDone(content: string, table: seq<WordGroup>, k: nat, rest: string)
    requires Filling(content, table, k, Items(rest)) && rest == []
    ensures k < |table| && SplitContent(content) == if table[k].words == [] then table[..k] else table[..k + 1]
  {
    assert table[k] == WordGroup(table[k].words, NUL);
    assert table[..k + 1] == table[..k] + [table[k]];
    if table[k].words == [] { assert table[..k] + [] == table[..k]; }
  }
}

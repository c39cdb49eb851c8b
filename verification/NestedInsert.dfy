/** write_to_file_ll on values: inserting a text of several sentences. */
module NestedInsert {
  import opened Text
  import opened CStrings
  import opened Document
  import opened ParserLaws

  // The text may go into the middle of a sentence. The effect is specified group by group, and proved to be a plain
  // insertion once the sentence structure is flattened away.

  // ---------- splitting the content ----------

  /** Words that become one sentence, and what ended them: a terminator, a newline, or nothing (NUL). */
  datatype WordGroup = WordGroup(words: seq<string>, delim: char)

  datatype Item = Word(text: string) | Newline

  function WordItems(ws: seq<string>): seq<Item> {
    if ws == [] then [] else [Word(ws[0])] + WordItems(ws[1..])
  }

  /** The words of the content and the newlines between them. */
  function Items(s: string): seq<Item>
    decreases |s|
  {
    if s == [] then []
    else if s[0] == '\n' then [Newline] + Items(s[1..])
    else if IsSpace(s[0]) then Items(s[1..])
    else
      var k := RunLength(s, WORD_LIMIT);
      WordItems(Parts(s[..k])) + Items(s[k..])
  }

  /** Groups of open + items: a terminated word or a newline closes a group, an empty group is not closed. */
  function GroupItems(open: seq<string>, items: seq<Item>): seq<WordGroup>
    decreases |items|
  {
    if items == [] then (if open == [] then [] else [WordGroup(open, NUL)])
    else match items[0]
      case Newline =>
        if open == [] then GroupItems([], items[1..])
        else [WordGroup(open, '\n')] + GroupItems([], items[1..])
      case Word(w) =>
        if EndsSentence(w) then [WordGroup(open + [w], Last(w))] + GroupItems([], items[1..])
        else GroupItems(open + [w], items[1..])
  }

  /** split_content_into_groups, for contents that fit its tables. */
  function SplitContent(content: string): seq<WordGroup> {
    GroupItems([], Items(content))
  }

  function GroupWords(gs: seq<WordGroup>): seq<string> {
    if gs == [] then [] else gs[0].words + GroupWords(gs[1..])
  }

  function ItemWords(items: seq<Item>): seq<string> {
    if items == [] then []
    else (if items[0].Word? then [items[0].text] else []) + ItemWords(items[1..])
  }

  lemma {:induction false} ItemWordsAppend(ws: seq<string>, items: seq<Item>)
    ensures ItemWords(WordItems(ws) + items) == ws + ItemWords(items)
  {
    if ws == [] {
      assert WordItems(ws) + items == items;
    } else {
      var r := WordItems(ws) + items;
      assert r[0] == Word(ws[0]) && r[1..] == WordItems(ws[1..]) + items;
      calc {
        ItemWords(r);
        [ws[0]] + ItemWords(WordItems(ws[1..]) + items);
        { ItemWordsAppend(ws[1..], items); }
        [ws[0]] + (ws[1..] + ItemWords(items));
        { assert [ws[0]] + ws[1..] == ws; Assoc([ws[0]], ws[1..], ItemWords(items)); }
        ws + ItemWords(items);
      }
    }
  }

  lemma {:induction false} ItemsAreWords(s: string)
    ensures ItemWords(Items(s)) == Words(s)
    decreases |s|
  {
    if s == [] {
    } else if s[0] == '\n' {
      ItemsAreWords(s[1..]);
    } else if IsSpace(s[0]) {
      ItemsAreWords(s[1..]);
    } else {
      var k := RunLength(s, WORD_LIMIT);
      ItemsAreWords(s[k..]);
      ItemWordsAppend(Parts(s[..k]), Items(s[k..]));
    }
  }

  lemma {:induction false} GroupsKeepWords(open: seq<string>, items: seq<Item>)
    ensures GroupWords(GroupItems(open, items)) == open + ItemWords(items)
    decreases |items|
  {
    if items == [] {
      if open != [] { assert [WordGroup(open, NUL)][1..] == []; }
    } else {
      var more := ItemWords(items[1..]);
      match items[0] {
        case Newline =>
          GroupsKeepWords([], items[1..]);
        case Word(w) =>
          if EndsSentence(w) {
            GroupsKeepWords([], items[1..]);
          } else {
            GroupsKeepWords(open + [w], items[1..]);
          }
          assert open + [w] + more == open + ([w] + more);
      }
    }
  }

  /** Splitting into groups finds exactly the words the parser would find, in the same order. */
  lemma SplitFindsParserWords(content: string)
    ensures GroupWords(SplitContent(content)) == Words(content)
  {
    ItemsAreWords(content);
    GroupsKeepWords([], Items(content));
    assert [] + Words(content) == Words(content);
  }

  /** Groups have words; every group but the last was closed by something. */
  lemma {:induction false} GroupShape(open: seq<string>, items: seq<Item>)
    ensures forall i | 0 <= i < |GroupItems(open, items)| :: GroupItems(open, items)[i].words != []
    ensures forall i | 0 <= i < |GroupItems(open, items)| - 1 :: GroupItems(open, items)[i].delim != NUL
    decreases |items|
  {
    if items != [] {
      match items[0] {
        case Newline => GroupShape([], items[1..]);
        case Word(w) =>
          GroupShape([], items[1..]);
          GroupShape(open + [w], items[1..]);
      }
    }
  }

  /** A group is one sentence: only its last word may be terminated, and what ended the group is that terminator. */
  predicate OneSentence(g: WordGroup) {
    && g.words != []
    && (forall j | 0 <= j < |g.words| - 1 :: !EndsSentence(g.words[j]))
    && if EndsSentence(Last(g.words)) then g.delim == Last(Last(g.words)) else g.delim == '\n' || g.delim == NUL
  }

  lemma {:induction false} GroupsAreSentences(open: seq<string>, items: seq<Item>)
    requires forall j | 0 <= j < |open| :: !EndsSentence(open[j])
    ensures forall i | 0 <= i < |GroupItems(open, items)| :: OneSentence(GroupItems(open, items)[i])
    decreases |items|
  {
    if items != [] {
      hide EndsSentence;
      match items[0] {
        case Newline => GroupsAreSentences([], items[1..]);
        case Word(w) =>
          if EndsSentence(w) {
            GroupsAreSentences([], items[1..]);
          } else {
            GroupsAreSentences(open + [w], items[1..]);
          }
      }
    }
  }

  /** What a newline makes of the groups in front of it: the last one is closed. */
  function Close(gs: seq<WordGroup>): seq<WordGroup> {
    if gs == [] || Last(gs).delim != NUL then gs else gs[..|gs| - 1] + [Last(gs).(delim := '\n')]
  }

  lemma CloseCons(g: WordGroup, gs: seq<WordGroup>)
    requires g.delim != NUL
    ensures Close([g] + gs) == [g] + Close(gs)
  {
    if gs != [] {
      assert Last([g] + gs) == Last(gs);
      assert ([g] + gs)[..|gs|] == [g] + gs[..|gs| - 1];
    }
  }

  lemma {:induction false} GroupsAtNewline(open: seq<string>, a: seq<Item>, b: seq<Item>)
    ensures GroupItems(open, a + [Newline] + b) == Close(GroupItems(open, a)) + GroupItems([], b)
    decreases |a|
  {
    var s := a + [Newline] + b;
    if a == [] {
      assert s == [Newline] + b && s[1..] == b;
      CloseOne(open);
    } else {
      assert s[0] == a[0] && s[1..] == a[1..] + [Newline] + b;
      hide Close;
      match a[0] {
        case Newline =>
          GroupsAtNewline([], a[1..], b);
          ClosedFirst(WordGroup(open, '\n'), GroupItems([], a[1..]), GroupItems([], b));
        case Word(w) =>
          if EndsSentence(w) {
            assert Last(w) != NUL;
            GroupsAtNewline([], a[1..], b);
            ClosedFirst(WordGroup(open + [w], Last(w)), GroupItems([], a[1..]), GroupItems([], b));
          } else {
            GroupsAtNewline(open + [w], a[1..], b);
          }
      }
    }
  }

  lemma CloseOne(open: seq<string>)
    ensures Close(GroupItems(open, [])) == if open == [] then [] else [WordGroup(open, '\n')]
  {
  }

  lemma ClosedFirst(g: WordGroup, gs: seq<WordGroup>, more: seq<WordGroup>)
    requires g.delim != NUL
    ensures Close([g] + gs) + more == [g] + (Close(gs) + more)
  {
    CloseCons(g, gs);
  }

  lemma {:induction false} RunEndsAtNewline(a: string, b: string, limit: nat)
    ensures RunLength(a + "\n" + b, limit) == RunLength(a, limit)
    decreases |a|
  {
    var s := a + "\n" + b;
    if a == "" {
      assert s[0] == '\n';
    } else if limit > 0 {
      assert s[0] == a[0] && s[1..] == a[1..] + "\n" + b;
      RunEndsAtNewline(a[1..], b, limit - 1);
    }
  }

  lemma {:induction false} ItemsAtNewline(a: string, b: string)
    ensures Items(a + "\n" + b) == Items(a) + [Newline] + Items(b)
    decreases |a|
  {
    hide Items, Parts, RunLength, IsSpace, WordItems;
    var s := a + "\n" + b;
    if a == "" {
      assert s == ['\n'] + b && s[1..] == b;
      NewlineItem(s);
      NoItems();
    } else {
      RunEndsAtNewline(a, b, WORD_LIMIT);
      var head, k := ItemsNext(a);
      assert s[0] == a[0];
      var head2, k2 := ItemsNext(s);
      assert s[..k] == a[..k] && s[k..] == a[k..] + "\n" + b;
      ItemsAtNewline(a[k..], b);
      assert head + (Items(a[k..]) + [Newline] + Items(b)) == head + Items(a[k..]) + [Newline] + Items(b);
    }
  }

  lemma NewlineItem(s: string)
    requires s != [] && s[0] == '\n'
    ensures Items(s) == [Newline] + Items(s[1..])
  {
  }

  lemma NoItems()
    ensures Items([]) == []
  {
  }

  lemma ItemsNext(s: string) returns (head: seq<Item>, k: nat)
    requires s != []
    ensures k == (if IsSpace(s[0]) then 1 else RunLength(s, WORD_LIMIT)) && 0 < k <= |s|
    ensures head == if s[0] == '\n' then [Newline] else if IsSpace(s[0]) then [] else WordItems(Parts(s[..k]))
    ensures Items(s) == head + Items(s[k..])
  {
    k := if IsSpace(s[0]) then 1 else RunLength(s, WORD_LIMIT);
    head := if s[0] == '\n' then [Newline] else if IsSpace(s[0]) then [] else WordItems(Parts(s[..k]));
  }

  /** A newline ends the sentence in front of it, and the rest of the content is split on its own. */
  lemma SplitAtNewline(a: string, b: string)
    ensures SplitContent(a + "\n" + b) == Close(SplitContent(a)) + SplitContent(b)
  {
    ItemsAtNewline(a, b);
    GroupsAtNewline([], Items(a), Items(b));
  }

  // ---------- the effect on the document ----------

  predicate HasDelimiter(s: string) {
    exists i | 0 <= i < |s| :: IsDelimiter(s[i])
  }

  /** Content that is taken as a list of commands: no terminator, no quote. */
  predicate IsCommandText(s: string) {
    !HasDelimiter(s) && '"' !in s && '\'' !in s
  }

  const BLANKS := " \t"

  datatype Outcome = Written(doc: Doc) | SentenceOutOfRange | WordOutOfRange

  /** Each command token becomes a sentence of its own; the first one takes over the empty target. */
  function CommandSentences(target: Sentence, tokens: seq<string>): Doc
    requires tokens != []
  {
    [target.(words := [Truncate(tokens[0], WORD_LIMIT)])] + NewCommands(tokens[1..])
  }

  function NewCommands(tokens: seq<string>): Doc {
    if tokens == [] then []
    else [Unlocked([Truncate(tokens[0], WORD_LIMIT)], NUL)] + NewCommands(tokens[1..])
  }

  /** What the target sentence turns into when the groups gs are inserted at word wi. */
  function SplitSentence(target: Sentence, wi: nat, gs: seq<WordGroup>): Doc
    requires gs != [] && wi <= |target.words|
  {
    var before, after := target.words[..wi], target.words[wi..];
    if |gs| == 1 then
      var s := target.(words := before + gs[0].words + after);
      if gs[0].delim == NUL then [s] else [s.(delim := gs[0].delim), Unlocked([], NUL)]
    else
      [target.(words := before + gs[0].words, delim := gs[0].delim)] + NewSentences(gs[1..], after, gs[0].delim)
  }

  /** The sentences for the further groups; the words behind the insertion go to the last of them. */
  function NewSentences(gs: seq<WordGroup>, after: seq<string>, firstDelim: char): Doc
    requires gs != []
  {
    if |gs| == 1 then
      [Unlocked(gs[0].words + after, if gs[0].delim == NUL && after != [] then firstDelim else gs[0].delim)]
    else [Unlocked(gs[0].words, gs[0].delim)] + NewSentences(gs[1..], after, firstDelim)
  }

  predicate TakesCommandBranch(target: Sentence, wi: nat, content: string) {
    IsCommandText(content) && wi == 0 && target.words == [] && |Tokens(content, BLANKS)| > 1
  }

  /** What replaces the target sentence. */
  function Replacement(target: Sentence, wi: nat, content: string): Doc
    requires wi <= |target.words|
  {
    if TakesCommandBranch(target, wi, content) then CommandSentences(target, Tokens(content, BLANKS))
    else if SplitContent(content) == [] then [target]
    else SplitSentence(target, wi, SplitContent(content))
  }

  function ReplaceAt(d: Doc, i: nat, r: Doc): Doc
    requires i < |d|
  {
    d[..i] + r + d[i + 1..]
  }

  /** write_to_file_ll on a document. */
  function WriteAt(d: Doc, si: int, wi: int, content: string): Outcome {
    if si < 0 || si > |d| then SentenceOutOfRange
    else if si == |d| && wi != 0 then WordOutOfRange
    else
      var e := if si == |d| then d + [Unlocked([], NUL)] else d;
      if wi < 0 || wi > |e[si].words| then WordOutOfRange
      else Written(ReplaceAt(e, si, Replacement(e[si], wi, content)))
  }

  // ---------- the flat law ----------

  function TruncateAll(ws: seq<string>): (r: seq<string>) {
    if ws == [] then [] else [Truncate(ws[0], WORD_LIMIT)] + TruncateAll(ws[1..])
  }

  /** The words a write inserts. */
  function InsertedWords(target: Sentence, wi: nat, content: string): seq<string> {
    if TakesCommandBranch(target, wi, content) then TruncateAll(Tokens(content, BLANKS)) else Words(content)
  }

  lemma {:induction false} NewCommandsFlat(tokens: seq<string>)
    ensures Flatten(NewCommands(tokens)) == TruncateAll(tokens)
  {
    if tokens != [] {
      NewCommandsFlat(tokens[1..]);
      assert NewCommands(tokens)[1..] == NewCommands(tokens[1..]);
    }
  }

  lemma {:induction false} NewSentencesFlat(gs: seq<WordGroup>, after: seq<string>, firstDelim: char)
    requires gs != []
    ensures Flatten(NewSentences(gs, after, firstDelim)) == GroupWords(gs) + after
  {
    if |gs| == 1 {
      FlattenOne(NewSentences(gs, after, firstDelim)[0]);
      assert GroupWords(gs[1..]) == [] && gs[0].words + [] == gs[0].words;
    } else {
      NewSentencesFlat(gs[1..], after, firstDelim);
      assert NewSentences(gs, after, firstDelim)[1..] == NewSentences(gs[1..], after, firstDelim);
      assert gs[0].words + (GroupWords(gs[1..]) + after) == GroupWords(gs) + after;
    }
  }

  lemma SplitSentenceFlat(target: Sentence, wi: nat, gs: seq<WordGroup>)
    requires gs != [] && wi <= |target.words|
    ensures Flatten(SplitSentence(target, wi, gs)) == target.words[..wi] + GroupWords(gs) + target.words[wi..]
  {
    var before, after := target.words[..wi], target.words[wi..];
    var r := SplitSentence(target, wi, gs);
    if |gs| == 1 {
      assert GroupWords(gs[1..]) == [] && gs[0].words + [] == gs[0].words;
      FlattenOne(r[0]);
      if gs[0].delim != NUL {
        FlattenPair(r[0], r[1]);
        assert r == [r[0], r[1]] && r[0].words + [] == r[0].words;
      }
    } else {
      NewSentencesFlat(gs[1..], after, gs[0].delim);
      assert r[1..] == NewSentences(gs[1..], after, gs[0].delim);
      assert before + gs[0].words + (GroupWords(gs[1..]) + after)
          == before + (gs[0].words + GroupWords(gs[1..])) + after;
    }
  }

  lemma ReplacementFlat(target: Sentence, wi: nat, content: string)
    requires wi <= |target.words|
    ensures Flatten(Replacement(target, wi, content))
         == target.words[..wi] + InsertedWords(target, wi, content) + target.words[wi..]
  {
    if TakesCommandBranch(target, wi, content) {
      var tokens := Tokens(content, BLANKS);
      NewCommandsFlat(tokens[1..]);
      assert CommandSentences(target, tokens)[1..] == NewCommands(tokens[1..]);
      assert [] + TruncateAll(tokens) + [] == TruncateAll(tokens);
    } else {
      SplitFindsParserWords(content);
      if SplitContent(content) == [] {
        FlattenOne(target);
        assert target.words[..wi] + [] + target.words[wi..] == target.words;
      } else {
        SplitSentenceFlat(target, wi, SplitContent(content));
      }
    }
  }

  /**
   Nested insertion refines flat insertion: the flattened words of the file are the old ones with the
   content's words inserted at (words before the sentence) + wi; all other sentences stay as they were.
   */
  lemma WriteIsFlatInsertion(d: Doc, si: int, wi: int, content: string)
    requires WriteAt(d, si, wi, content).Written?
    ensures 0 <= si <= |d| && 0 <= wi
    ensures var d', pos := WriteAt(d, si, wi, content).doc, |Flatten(d[..si])| + wi;
            var target := if si == |d| then Unlocked([], NUL) else d[si];
            && pos <= |Flatten(d)|
            && Flatten(d') == Flatten(d)[..pos] + InsertedWords(target, wi, content) + Flatten(d)[pos..]
            && |d'| >= |d|
            && d'[..si] == d[..si]
            && (si < |d| ==> d'[|d'| - (|d| - si - 1)..] == d[si + 1..])
  {
    hide Replacement, InsertedWords, Flatten;
    var e := if si == |d| then d + [Unlocked([], NUL)] else d;
    var r := Replacement(e[si], wi, content);
    var ins := InsertedWords(e[si], wi, content);
    AppendedIsEmpty(d);
    assert Flatten(e) == Flatten(d) && e[..si] == d[..si];
    FlattenAround(e, si, r);
    ReplacementFlat(e[si], wi, content);
    SpliceMiddle(Flatten(e[..si]), e[si].words, Flatten(e[si + 1..]), wi, ins);
    ReplacementNotEmpty(e[si], wi, content);
  }

  lemma FlattenAround(e: Doc, i: nat, r: Doc)
    requires i < |e|
    ensures Flatten(ReplaceAt(e, i, r)) == Flatten(e[..i]) + Flatten(r) + Flatten(e[i + 1..])
    ensures Flatten(e) == Flatten(e[..i]) + (e[i].words + Flatten(e[i + 1..]))
  {
    FlattenAppend(e[..i] + r, e[i + 1..]);
    FlattenAppend(e[..i], r);
    assert e == e[..i] + e[i..];
    FlattenAppend(e[..i], e[i..]);
  }

  lemma ReplacementNotEmpty(target: Sentence, wi: nat, content: string)
    requires wi <= |target.words|
    ensures Replacement(target, wi, content) != []
  {
  }

  lemma AppendedIsEmpty(d: Doc)
    ensures Flatten(d + [Unlocked([], NUL)]) == Flatten(d)
  {
    FlattenAppend(d, [Unlocked([], NUL)]);
    FlattenOne(Unlocked([], NUL));
    assert Flatten(d) + [] == Flatten(d);
  }

  lemma SpliceMiddle(a: seq<string>, m: seq<string>, z: seq<string>, k: nat, ins: seq<string>)
    requires k <= |m|
    ensures a + (m[..k] + ins + m[k..]) + z
         == (a + (m + z))[..|a| + k] + ins + (a + (m + z))[|a| + k..]
  {
    assert (a + (m + z))[..|a| + k] == a + m[..k];
    assert (a + (m + z))[|a| + k..] == m[k..] + z;
  }

  // ---------- sentence by sentence ----------

  /**
   One group stays within its sentence; a terminator closes that one and opens an empty one behind. Of more groups
   the first one ends the sentence, and each further one is a sentence of its own, with its own terminator.
   */
  lemma SentencesAreGroups(target: Sentence, wi: nat, gs: seq<WordGroup>)
    requires gs != [] && wi <= |target.words|
    ensures var r, first := SplitSentence(target, wi, gs), target.words[..wi] + gs[0].words;
            && |r| == (if |gs| == 1 && gs[0].delim != NUL then 2 else |gs|)
            && r[0].lock == target.lock
            && r[0].words == (if |gs| == 1 then first + target.words[wi..] else first)
            && r[0].delim == (if |gs| == 1 && gs[0].delim == NUL then target.delim else gs[0].delim)
            && (|gs| == 1 && gs[0].delim != NUL ==> r[1] == Sentence([], NUL, None))
            && forall k | 0 < k < |gs| - 1 :: r[k] == Sentence(gs[k].words, gs[k].delim, None)
  {
    if |gs| > 1 {
      LastNewSentence(gs[1..], target.words[wi..], gs[0].delim);
      forall k | 0 < k < |gs| - 1
        ensures SplitSentence(target, wi, gs)[k] == Sentence(gs[k].words, gs[k].delim, None)
      {
        MiddleSentence(gs[1..], target.words[wi..], gs[0].delim, k - 1);
      }
    }
  }

  lemma {:induction false} MiddleSentence(gs: seq<WordGroup>, after: seq<string>, firstDelim: char, k: nat)
    requires k < |gs| - 1
    ensures |NewSentences(gs, after, firstDelim)| == |gs|
    ensures NewSentences(gs, after, firstDelim)[k] == Sentence(gs[k].words, gs[k].delim, None)
  {
    LastNewSentence(gs, after, firstDelim);
    if k > 0 { MiddleSentence(gs[1..], after, firstDelim, k - 1); }
  }

  /** Each command is a sentence of one word without terminator; the first one takes over the target. */
  lemma {:induction false} CommandsAreSentences(target: Sentence, tokens: seq<string>, k: nat)
    requires k < |tokens|
    ensures |CommandSentences(target, tokens)| == |tokens|
    ensures var word := if |tokens[k]| <= 255 then tokens[k] else tokens[k][..255];
            CommandSentences(target, tokens)[k]
            == if k == 0 then Sentence([word], target.delim, target.lock) else Sentence([word], NUL, None)
  {
    NewCommandAt(tokens[1..], if k == 0 then 0 else k - 1);
  }

  lemma {:induction false} NewCommandAt(tokens: seq<string>, k: nat)
    ensures |NewCommands(tokens)| == |tokens|
    ensures k < |tokens| ==> NewCommands(tokens)[k] == Sentence([Truncate(tokens[k], WORD_LIMIT)], NUL, None)
  {
    if tokens != [] { NewCommandAt(tokens[1..], if k == 0 then 0 else k - 1); }
  }

  /** The command branch is for an empty sentence and two or more tokens, free of five bytes. */
  lemma CommandBranchIff(target: Sentence, wi: nat, content: string)
    ensures TakesCommandBranch(target, wi, content)
        <==> && target.words == [] && wi == 0 && |Tokens(content, " \t")| >= 2
             && '.' !in content && '!' !in content && '?' !in content && '"' !in content && '\'' !in content
  {
  }

  // ---------- the command branch and the parser's words ----------

  lemma {:induction false} NotSplit(s: string)
    requires forall i | 0 <= i < |s| :: !IsDelimiter(s[i]) && !IsSpace(s[i])
    requires 0 < |s| <= WORD_LIMIT
    ensures Atomic(s) && !EndsSentence(s)
  {
  }

  /** No terminator, and no white space but blanks and tabs. */
  predicate PlainText(s: string) {
    !HasDelimiter(s) && forall i | 0 <= i < |s| :: IsSpace(s[i]) ==> s[i] in BLANKS
  }

  lemma PlainPieces(t: string, rest: string)
    requires PlainText(t + rest)
    ensures PlainText(t) && PlainText(rest)
    ensures (forall i | 0 <= i < |t| :: t[i] !in BLANKS) ==>
              forall i | 0 <= i < |t| :: !IsDelimiter(t[i]) && !IsSpace(t[i])
  {
    var s := t + rest;
    forall i | 0 <= i < |t| ensures !IsDelimiter(t[i]) && (IsSpace(t[i]) ==> t[i] in BLANKS) { assert s[i] == t[i]; }
    forall i | 0 <= i < |rest| ensures !IsDelimiter(rest[i]) && (IsSpace(rest[i]) ==> rest[i] in BLANKS) {
      assert s[|t| + i] == rest[i];
    }
  }

  predicate FitWords(ws: seq<string>) {
    forall t | t in ws :: |t| <= WORD_LIMIT
  }

  lemma FitCons(t: string, ws: seq<string>)
    requires FitWords([t] + ws)
    ensures |t| <= WORD_LIMIT && FitWords(ws) && TruncateAll([t] + ws) == [t] + TruncateAll(ws)
  {
    assert t in [t] + ws && forall w | w in ws :: w in [t] + ws;
  }

  lemma SkipBlank(s: string)
    requires s != "" && s[0] in BLANKS
    ensures Words(s) == Words(s[1..]) && Tokens(s, BLANKS) == Tokens(s[1..], BLANKS) && s == [s[0]] + s[1..]
  {
    TokensAfterSeparator(s[0], s[1..], BLANKS);
    assert s == [s[0]] + s[1..];
  }

  lemma {:induction false} BlankTokensAreWords(s: string)
    requires PlainText(s) && FitWords(Tokens(s, BLANKS))
    ensures Words(s) == Tokens(s, BLANKS) == TruncateAll(Tokens(s, BLANKS))
    decreases |s|
  {
    if s == [] {
      NoTokens(BLANKS);
    } else if s[0] in BLANKS {
      SkipBlank(s);
      PlainPieces([s[0]], s[1..]);
      BlankTokensAreWords(s[1..]);
    } else {
      hide Words, Tokens, TruncateAll, PlainText, FitWords;
      var t, rest := FirstToken(s);
      PlainPieces(t, rest);
      FitCons(t, Tokens(rest, BLANKS));
      NotSplit(t);
      WordsOfWord(t, rest);
      BlankTokensAreWords(rest);
    }
  }

  lemma FirstToken(s: string) returns (t: string, rest: string)
    requires s != [] && s[0] !in BLANKS
    ensures s == t + rest && t != [] && |rest| < |s| && (forall i | 0 <= i < |t| :: t[i] !in BLANKS)
    ensures rest == [] || IsSpace(rest[0])
    ensures Tokens(s, BLANKS) == [t] + Tokens(rest, BLANKS)
  {
    hide Strtok, Tokens, SkipAny, TokenLength;
    var n := TokenLength(s, BLANKS);
    TokenBody(s, BLANKS);
    t, rest := s[..n], s[n..];
    TokensStep(s, BLANKS);
    NoTokens(BLANKS);
    if rest != [] {
      TokensAfterSeparator(rest[0], rest[1..], BLANKS);
      assert rest == [rest[0]] + rest[1..] && rest[1..] == s[n + 1..];
    }
  }

  /**
   For a content without terminators whose only white space is blanks and tabs and whose tokens fit a word
   buffer, it does not matter which branch is taken: the words inserted are the parser's words.
   */
  lemma CommandBranchInsertsParserWords(target: Sentence, wi: nat, content: string)
    requires forall i | 0 <= i < |content| :: IsSpace(content[i]) ==> content[i] in BLANKS
    requires forall t | t in Tokens(content, BLANKS) :: |t| <= WORD_LIMIT
    ensures InsertedWords(target, wi, content) == Words(content)
  {
    if TakesCommandBranch(target, wi, content) {
      BlankTokensAreWords(content);
    }
  }

  // ---------- the terminator of the rest ----------

  /**
   When a sentence is split by an unfinished last group, the words behind the insertion are meant to keep the
   sentence's terminator. The code reads it after overwriting it: they get the terminator of the first group,
   so the original one survives exactly when the two are the same.
   */
  lemma RestKeepsTerminatorIff(target: Sentence, wi: nat, gs: seq<WordGroup>)
    requires |gs| > 1 && wi < |target.words| && Last(gs).delim == NUL
    ensures Last(SplitSentence(target, wi, gs)).delim == gs[0].delim
    ensures Last(SplitSentence(target, wi, gs)).words == Last(gs).words + target.words[wi..]
    ensures Last(SplitSentence(target, wi, gs)).delim == target.delim <==> gs[0].delim == target.delim
  {
    LastNewSentence(gs[1..], target.words[wi..], gs[0].delim);
  }

  lemma {:induction false} LastNewSentence(gs: seq<WordGroup>, after: seq<string>, firstDelim: char)
    requires gs != []
    ensures var r := NewSentences(gs, after, firstDelim);
            && |r| == |gs| && Last(r).words == Last(gs).words + after
            && Last(r).delim == if Last(gs).delim == NUL && after != [] then firstDelim else Last(gs).delim
  {
    if |gs| > 1 {
      LastNewSentence(gs[1..], after, firstDelim);
    }
  }
}

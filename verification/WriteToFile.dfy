/**
 write_to_file_ll as a whole, with its three branches and error returns: on the linked document it has exactly
 the effect of NestedInsert.WriteAt.
 */
module WriteToFile {
  import opened Text
  import opened CStrings
  import opened Document
  import opened LinkedDocument
  import opened LinkedInsert
  import opened LinkedWrite
  import opened NestedInsert
  import opened Sequences

  // ---------- content in groups ----------

  /** What the splitter promises of its groups. */
  ghost predicate GoodGroups(gs: seq<WordGroup>) {
    && gs != [] && AllBounded(gs)
    && (forall i | 0 <= i < |gs| :: gs[i].words != [])
    && (forall i | 0 <= i < |gs| - 1 :: gs[i].delim != NUL)
  }

  lemma ContentGroupsAreGood(content: string)
    requires SplitContent(content) != []
    ensures GoodGroups(SplitContent(content))
  {
    GroupsAreBounded([], content);
    GroupShape([], Items(content));
  }

  lemma FirstGroup(gs: seq<WordGroup>)
    requires GoodGroups(gs)
    ensures gs != [] && Bounded(gs[0]) && gs[0].words != []
    ensures |gs| == 1 ==> gs == [gs[0]]
    ensures |gs| > 1 ==> gs[0].delim != NUL && gs[1..] != [] && AllBounded(gs[1..])
  {
  }

  lemma NodeIsThere(ns: seq<WordNode>, k: nat, node: WordNode?)
    requires NodeAt(ns, k, node) && k > 0
    ensures node != null
  {
  }

  lemma Counted(file: LoadedFile)
    requires file.WellFormed() && file.sentenceCount == |file.doc|
    ensures file.Valid()
  {
  }

  lemma ValidFile(file: LoadedFile)
    requires file.Valid()
    ensures file.WellFormed() && file.sentenceCount == |file.doc| == |file.sents|
  {
  }

  /** Inserts the groups at word wi of the target: one group in place, several by splitting the sentence. */
  method WriteGroups(file: LoadedFile, ghost k: nat, target: SentenceNode, wi: nat, gs: seq<WordGroup>)
    requires file.Valid() && k < |file.sents| && target == file.sents[k] && wi <= |file.doc[k].words|
    requires GoodGroups(gs)
    modifies file, target, target.nodes
    ensures file.Valid() && k < |old(file.doc)| && wi <= |old(file.doc)[k].words|
    ensures file.doc == ReplaceAt(old(file.doc), k, SplitSentence(old(file.doc)[k], wi, gs))
  {
    hide *;
    ValidFile(file);
    FirstGroup(gs);
    ghost var d := file.doc;
    var last; ghost var end;
    last, end := InsertFirst(file, k, target, wi, gs[0]);
    if |gs| == 1 {
      OneGroup(d, k, wi, gs[0]);
      if gs[0].delim != NUL {
        var empty, _ := BuildSentence([], NUL);
        LinkBehind(file, k, target, empty);
      }
    } else {
      NodeIsThere(target.spine, end, last);
      SplitTarget(file, k, target, last, end, gs[1..]);
      SeveralGroups(d, k, wi, gs);
    }
    ReplacedLength(d, k, wi, gs);
    Counted(file);
  }

  lemma ReplacedLength(d: Doc, k: nat, wi: nat, gs: seq<WordGroup>)
    requires k < |d| && wi <= |d[k].words| && gs != []
    ensures |ReplaceAt(d, k, SplitSentence(d[k], wi, gs))|
         == if |gs| == 1 && gs[0].delim != NUL then |d| + 1 else |d| + |gs| - 1
  {
    if |gs| > 1 { LastNewSentence(gs[1..], d[k].words[wi..], gs[0].delim); }
  }

  // ---------- content taken as commands ----------

  /** is_shell_script_content */
  method HasNoTerminator(content: string) returns (script: bool)
    ensures script == !HasDelimiter(content)
  {
    for p := 0 to |content|
      invariant forall i | 0 <= i < p :: !IsDelimiter(content[i])
    {
      if IsDelimiter(content[p]) { return false; }
    }
    script := true;
  }

  /** The counting strtok loop. */
  method CountTokens(content: string) returns (count: nat)
    ensures count == |Tokens(content, BLANKS)|
  {
    count := 0;
    var scan := Strtok(content, BLANKS);
    while scan.Token?
      invariant |Tokens(content, BLANKS)| == count + |ScanTokens(scan)|
      decreases |ScanTokens(scan)|
    {
      count := count + 1;
      scan := Strtok(scan.rest, BLANKS);
    }
  }

  /** The current token and the ones not read yet. */
  function ScanTokens(scan: Scan): seq<string> {
    match scan
    case NoToken => []
    case Token(t, rest) => [t] + Tokens(rest, BLANKS)
  }

  /** The word node of an empty sentence. */
  method FirstWord(sent: SentenceNode, text: string)
    requires sent.Valid() && sent.words == []
    modifies sent`wordsHead, sent`spine, sent`words, sent`nodes, sent.nodes`next
    ensures sent.Valid() && fresh(sent.nodes - old(sent.nodes)) && sent.words == [Truncate(text, WORD_LIMIT)]
  {
    EmptySpine(sent);
    hide SentenceNode.Valid;
    var _ := sent.LinkAfter(null, 0, text);
  }

  /** Makes text the only word of an empty sentence. */
  method SetOnlyWord(file: LoadedFile, ghost k: nat, current: SentenceNode, text: string)
    requires file.Valid() && SentenceIs(file.sents, k, current) && k < |file.doc| && file.doc[k].words == []
    modifies file`doc, file`nodes, current`wordsHead, current`spine, current`words, current`nodes, current.nodes`next
    ensures file.Valid() && k < |old(file.doc)|
    ensures file.doc == WordsSet(old(file.doc), k, [Truncate(text, WORD_LIMIT)])
  {
    hide SentenceNode.Valid, Distinct, SentenceChain;
    file.OtherSentences(k);
    TargetWords(file, k);
    FirstWord(current, text);
    file.doc, file.nodes := WordsSet(file.doc, k, current.words), file.nodes + current.nodes;
  }

  lemma EmptySpine(s: SentenceNode)
    requires s.Valid() && s.words == []
    ensures s.spine == []
  {
  }

  /** The document after n tokens are placed; while tokens remain, the next sentence is waiting empty. */
  function PlacedCommands(d: Doc, k: nat, tokens: seq<string>, n: nat): (r: Doc)
    requires k < |d| && tokens != [] && n <= |tokens|
    ensures |r| == if n == |tokens| then |d| + n - 1 else |d| + n
  {
    if n == 0 then d
    else
      var placed := [d[k].(words := [Truncate(tokens[0], WORD_LIMIT)])] + NewCommands(tokens[1..n]);
      NewCommandsLength(tokens[1..n]);
      ReplaceAt(d, k, if n == |tokens| then placed else placed + [Unlocked([], NUL)])
  }

  lemma {:induction false} NewCommandsLength(tokens: seq<string>)
    ensures |NewCommands(tokens)| == |tokens|
  {
    if tokens != [] { NewCommandsLength(tokens[1..]); }
  }

  lemma {:induction false} NewCommandsSnoc(tokens: seq<string>, t: string)
    ensures NewCommands(tokens + [t]) == NewCommands(tokens) + [Unlocked([Truncate(t, WORD_LIMIT)], NUL)]
  {
    if tokens == [] {
      assert tokens + [t] == [t] && NewCommands([t][1..]) == [];
    } else {
      assert (tokens + [t])[1..] == tokens[1..] + [t];
      NewCommandsSnoc(tokens[1..], t);
    }
  }

  lemma PlaceFirst(d: Doc, k: nat, tokens: seq<string>)
    requires k < |d| && tokens != []
    ensures var filled := WordsSet(d, k, [Truncate(tokens[0], WORD_LIMIT)]);
            PlacedCommands(d, k, tokens, 1)
            == if 1 == |tokens| then filled else InsertAt(filled, k + 1, Unlocked([], NUL))
  {
    assert tokens[1..1] == [] && NewCommands([]) == [];
    var first := d[k].(words := [Truncate(tokens[0], WORD_LIMIT)]);
    WaitingFilled(d, k, [], d[k], first);
    assert [first] + [] == [] + [first] && d == ReplaceAt(d, k, [] + [d[k]]);
  }

  lemma PlaceLater(d: Doc, k: nat, tokens: seq<string>, n: nat)
    requires k < |d| && 0 < n < |tokens|
    ensures var before := PlacedCommands(d, k, tokens, n);
            var filled := WordsSet(before, k + n, [Truncate(tokens[n], WORD_LIMIT)]);
            && before[k + n].words == []
            && PlacedCommands(d, k, tokens, n + 1)
               == if n + 1 == |tokens| then filled else InsertAt(filled, k + n + 1, Unlocked([], NUL))
  {
    hide NewCommands, ReplaceAt;
    var w := [Truncate(tokens[n], WORD_LIMIT)];
    assert tokens[1..n + 1] == tokens[1..n] + [tokens[n]];
    NewCommandsSnoc(tokens[1..n], tokens[n]);
    NewCommandsLength(tokens[1..n]);
    var head := [d[k].(words := [Truncate(tokens[0], WORD_LIMIT)])];
    WaitingFilled(d, k, head + NewCommands(tokens[1..n]), Unlocked([], NUL), Unlocked(w, NUL));
    Assoc(head, NewCommands(tokens[1..n]), [Unlocked(w, NUL)]);
  }

  /** Placing the next token fills the waiting sentence; linking an empty one behind it waits for the one after. */
  lemma PlaceNext(d: Doc, k: nat, tokens: seq<string>, n: nat)
    requires k < |d| && n < |tokens| && d[k].words == []
    ensures var before := PlacedCommands(d, k, tokens, n);
            var filled := WordsSet(before, k + n, [Truncate(tokens[n], WORD_LIMIT)]);
            && before[k + n].words == []
            && PlacedCommands(d, k, tokens, n + 1)
               == if n + 1 == |tokens| then filled else InsertAt(filled, k + n + 1, Unlocked([], NUL))
  {
    if n == 0 { PlaceFirst(d, k, tokens); } else { PlaceLater(d, k, tokens, n); }
  }

  lemma WaitingFilled(d: Doc, k: nat, placed: Doc, waiting: Sentence, filled: Sentence)
    requires k < |d|
    ensures var before, after := ReplaceAt(d, k, placed + [waiting]), ReplaceAt(d, k, placed + [filled]);
            && k + |placed| < |before| && before[k + |placed|] == waiting
            && before[k + |placed| := filled] == after
            && InsertAt(after, k + |placed| + 1, Unlocked([], NUL))
               == ReplaceAt(d, k, placed + [filled] + [Unlocked([], NUL)])
  {
  }

  lemma AllPlaced(d: Doc, k: nat, tokens: seq<string>)
    requires k < |d| && tokens != []
    ensures PlacedCommands(d, k, tokens, |tokens|) == ReplaceAt(d, k, CommandSentences(d[k], tokens))
  {
    assert tokens[1..|tokens|] == tokens[1..];
  }

  /** n tokens are placed, current is the sentence the next one goes into. */
  ghost predicate Placing(file: LoadedFile, d: Doc, k: nat, current: SentenceNode, tokens: seq<string>, n: nat,
                          scan: Scan)
    reads file, file.sents, file.nodes
  {
    && file.Valid() && k < |d| && n <= |tokens| && tokens != []
    && file.doc == PlacedCommands(d, k, tokens, n)
    && ScanTokens(scan) == tokens[n..]
    && (n < |tokens| ==> SentenceIs(file.sents, k + n, current))
  }

  lemma PlacingToken(file: LoadedFile, d: Doc, k: nat, current: SentenceNode, tokens: seq<string>, n: nat, scan: Scan)
    requires Placing(file, d, k, current, tokens, n, scan) && scan.Token? && k < |d| && d[k].words == []
    ensures file.Valid() && file.WellFormed() && n < |tokens| && scan.text == tokens[n]
    ensures Tokens(scan.rest, BLANKS) == tokens[n + 1..]
    ensures SentenceIs(file.sents, k + n, current) && k + n < |file.doc| && file.doc[k + n].words == []
    ensures file.doc == PlacedCommands(d, k, tokens, n)
  {
    PlaceNext(d, k, tokens, n);
    assert tokens[n..][1..] == tokens[n + 1..];
  }

  lemma ScanOf(s: string)
    ensures ScanTokens(Strtok(s, BLANKS)) == Tokens(s, BLANKS)
    ensures Tokens(s, BLANKS) == [] <==> Strtok(s, BLANKS).NoToken?
  {
  }

  lemma InsertedIs(ss: seq<SentenceNode>, k: nat, current: SentenceNode, s: SentenceNode)
    requires SentenceIs(ss, k, current)
    ensures k < |ss| && current == ss[k] && SentenceIs(InsertAt(ss, k + 1, s), k + 1, s)
    ensures forall d: Doc, e: Sentence {:trigger InsertAt(d, k + 1, e)} ::
              k < |d| ==> |InsertAt(d, k + 1, e)| == |d| + 1
  {
  }

  /** One round of the command loop. */
  method PlaceToken(file: LoadedFile, ghost d: Doc, ghost k: nat, current: SentenceNode, ghost tokens: seq<string>,
                    ghost n: nat, scan: Scan) returns (next: SentenceNode, scan': Scan)
    requires Placing(file, d, k, current, tokens, n, scan) && scan.Token? && k < |d| && d[k].words == []
    modifies file, current, current.nodes
    ensures Placing(file, d, k, next, tokens, n + 1, scan')
    ensures scan'.NoToken? || (fresh(next) && fresh(next.nodes))
    ensures n < |tokens|
  {
    hide *;
    PlacingToken(file, d, k, current, tokens, n, scan);
    PlaceNext(d, k, tokens, n);
    SetOnlyWord(file, k + n, current, scan.text);
    ValidFile(file);
    ScanOf(scan.rest);
    scan' := Strtok(scan.rest, BLANKS);
    next := current;
    if scan'.Token? {
      var waiting, _ := BuildSentence([], NUL);
      next := waiting;
      InsertedIs(file.sents, k + n, current, next);
      LinkBehind(file, k + n, current, next);
    }
    PlacingNow(file, d, k, next, tokens, n + 1, scan');
  }

  lemma PlacingNow(file: LoadedFile, d: Doc, k: nat, current: SentenceNode, tokens: seq<string>, n: nat, scan: Scan)
    requires file.WellFormed() && file.sentenceCount == |file.doc| && k < |d| && tokens != [] && n <= |tokens|
    requires file.doc == PlacedCommands(d, k, tokens, n) && ScanTokens(scan) == tokens[n..]
    requires n < |tokens| ==> SentenceIs(file.sents, k + n, current)
    ensures Placing(file, d, k, current, tokens, n, scan)
  {
  }

  /** The loop that turns every token of a command text into a sentence of its own. */
  method WriteCommands(file: LoadedFile, ghost k: nat, target: SentenceNode, content: string)
    requires file.Valid() && SentenceIs(file.sents, k, target) && k < |file.doc| && file.doc[k].words == []
    requires Tokens(content, BLANKS) != []
    modifies file, target, target.nodes
    ensures file.Valid() && k < |old(file.doc)|
    ensures file.doc == ReplaceAt(old(file.doc), k, CommandSentences(old(file.doc)[k], Tokens(content, BLANKS)))
  {
    ghost var d := file.doc;
    ghost var tokens := Tokens(content, BLANKS);
    ghost var n := 0;
    ScanOf(content);
    assert tokens[0..] == tokens;
    var current := target;
    var scan := Strtok(content, BLANKS);
    assert Placing(file, d, k, current, tokens, n, scan);
    hide *;
    while scan.Token?
      invariant Placing(file, d, k, current, tokens, n, scan)
      invariant scan.NoToken? || current == target || fresh(current)
      invariant scan.NoToken? || fresh(current.nodes - old(target.nodes))
      decreases |tokens| - n
    {
      current, scan := PlaceToken(file, d, k, current, tokens, n, scan);
      n := n + 1;
    }
    PlacingDone(file, d, k, current, tokens, n, scan);
  }

  lemma PlacingDone(file: LoadedFile, d: Doc, k: nat, current: SentenceNode, tokens: seq<string>, n: nat, scan: Scan)
    requires Placing(file, d, k, current, tokens, n, scan) && scan.NoToken?
    ensures file.Valid() && k < |d| && tokens != [] && file.doc == ReplaceAt(d, k, CommandSentences(d[k], tokens))
  {
    assert n == |tokens|;
    AllPlaced(d, k, tokens);
  }

  // ---------- write_to_file_ll ----------

  /** The return codes: success, ERR_SENTENCE_OUT_OF_RANGE, ERR_WORD_OUT_OF_RANGE. */
  datatype WriteResult = Success | ErrSentence | ErrWord

  /** What the caller sees of an outcome: the code, and the document, which an error leaves alone. */
  predicate Reports(result: WriteResult, before: Doc, after: Doc, outcome: Outcome) {
    match outcome
    case Written(d) => result == Success && after == d
    case SentenceOutOfRange => result == ErrSentence && after == before
    case WordOutOfRange => result == ErrWord && after == before
  }

  /** The traversal has passed the first c sentences. */
  ghost predicate Passed(ss: seq<SentenceNode>, c: nat, target: SentenceNode?, prev: SentenceNode?) {
    && c <= |ss|
    && target == (if c < |ss| then ss[c] else null)
    && prev == (if c == 0 then null else ss[c - 1])
  }

  lemma PassedNext(file: LoadedFile, c: nat, target: SentenceNode?, prev: SentenceNode?)
    requires file.Valid() && Passed(file.sents, c, target, prev) && target != null
    ensures c < |file.sents| && Passed(file.sents, c + 1, target.next, target)
  {
    hide SentenceNode.Valid, Distinct;
  }

  lemma PassedNone(file: LoadedFile)
    requires file.Valid()
    ensures Passed(file.sents, 0, file.sentencesHead, null)
  {
    hide SentenceNode.Valid, Distinct;
  }

  /** The traversal to sentence index: the node there, if any, and the node before it. */
  method FindSentence(file: LoadedFile, index: int) returns (target: SentenceNode?, prev: SentenceNode?)
    requires file.Valid()
    ensures index < 0 ==> target == file.sentencesHead
    ensures index >= 0 ==> target == if index < |file.sents| then file.sents[index] else null
    ensures index >= |file.sents| ==> prev == if file.sents == [] then null else Last(file.sents)
  {
    hide LoadedFile.Valid;
    target, prev := file.sentencesHead, null;
    var current := 0;
    PassedNone(file);
    while target != null && current < index
      invariant (current <= index || current == 0) && Passed(file.sents, current, target, prev)
      invariant current == 0 ==> target == file.sentencesHead
      decreases |file.sents| - current
    {
      PassedNext(file, current, target, prev);
      prev := target;
      target := target.next;
      current := current + 1;
    }
  }

  /** A new empty sentence behind the last one. */
  method AddSentence(file: LoadedFile, prev: SentenceNode?) returns (target: SentenceNode)
    requires file.Valid() && prev == if file.sents == [] then null else Last(file.sents)
    modifies file, file.sents`next
    ensures file.Valid() && fresh(target) && target.nodes == {} && file.doc == old(file.doc) + [Unlocked([], NUL)]
    ensures SentenceIs(file.sents, |old(file.doc)|, target) && |file.sents| == |file.doc|
  {
    hide SentenceNode.Valid, SentenceNode.Value;
    target := file.LinkSentence(prev);
    file.sentenceCount := file.sentenceCount + 1;
  }

  /** The command branch does not touch the group table; otherwise the content must fit it. */
  ghost predicate SplitterFits(target: Sentence, wi: nat, content: string) {
    TakesCommandBranch(target, wi, content) || FitsTables(content)
  }

  /** Everything behind the index checks: the command branch or the insertion of the groups. */
  method WriteSentence(file: LoadedFile, ghost k: nat, target: SentenceNode, wi: nat, content: string)
    requires file.Valid() && SentenceIs(file.sents, k, target) && k < |file.doc| && wi <= |file.doc[k].words|
    requires SplitterFits(file.doc[k], wi, content)
    modifies file, target, target.nodes
    ensures file.Valid() && k < |old(file.doc)| && wi <= |old(file.doc)[k].words|
    ensures file.doc == ReplaceAt(old(file.doc), k, Replacement(old(file.doc)[k], wi, content))
  {
    hide *;
    ValidFile(file);
    IsPosition(file.sents, k, target);
    TargetWords(file, k);
    EmptyHead(target);
    ReplaceSame(file.doc, k);
    Branches(file.doc[k], wi, content);
    var isScript := HasNoTerminator(content);
    var hasQuotes := '"' in content || '\'' in content;
    if isScript && !hasQuotes && wi == 0 && target.wordsHead == null {
      var tokenCount := CountTokens(content);
      if tokenCount > 1 {
        WriteCommands(file, k, target, content);
        return;
      }
    }
    var groups := new WordGroup[MAX_GROUPS](_ => WordGroup([], NUL));
    var groupCount := SplitContentIntoGroups(content, groups);
    if groupCount == 0 { return; }
    ContentGroupsAreGood(content);
    WriteGroups(file, k, target, wi, groups[..groupCount]);
  }

  lemma Branches(target: Sentence, wi: nat, content: string)
    requires wi <= |target.words|
    ensures var commands := !HasDelimiter(content) && '"' !in content && '\'' !in content && wi == 0
                            && target.words == [] && |Tokens(content, BLANKS)| > 1;
            && (!commands && SplitterFits(target, wi, content) ==> FitsTables(content))
            && Replacement(target, wi, content)
            == if commands then CommandSentences(target, Tokens(content, BLANKS))
               else if SplitContent(content) == [] then [target] else SplitSentence(target, wi, SplitContent(content))
  {
  }

  lemma IsPosition(ss: seq<SentenceNode>, k: nat, s: SentenceNode)
    ensures SentenceIs(ss, k, s) <==> k < |ss| && s == ss[k]
  {
  }

  lemma EmptyHead(s: SentenceNode)
    requires s.Valid()
    ensures s.wordsHead == null <==> s.words == []
  {
  }

  lemma ReplaceSame(d: Doc, k: nat)
    requires k < |d|
    ensures ReplaceAt(d, k, [d[k]]) == d
  {
  }

  /** A write that passes the index checks and reaches the splitter brings content that fits its table. */
  ghost predicate WriteFits(d: Doc, si: int, wi: int, content: string) {
    WriteAt(d, si, wi, content).Written? ==>
      0 <= wi && SplitterFits(if 0 <= si < |d| then d[si] else Unlocked([], NUL), wi, content)
  }

  /** The target sentence, once the indices are checked. */
  lemma TargetFits(d: Doc, e: Doc, si: nat, wi: nat, content: string)
    requires si <= |d| && (si == |d| ==> wi == 0) && e == if si == |d| then d + [Unlocked([], NUL)] else d
    requires wi <= |e[si].words| && WriteFits(d, si, wi, content)
    ensures SplitterFits(e[si], wi, content)
  {
    hide SplitterFits, Replacement;
  }

  method WriteToFile(file: LoadedFile, sentenceIndex: int, wordIndex: int, content: string)
    returns (result: WriteResult)
    requires file.Valid() && WriteFits(file.doc, sentenceIndex, wordIndex, content)
    modifies file, file.sents, file.nodes
    ensures file.Valid()
    ensures Reports(result, old(file.doc), file.doc, WriteAt(old(file.doc), sentenceIndex, wordIndex, content))
  {
    hide LoadedFile.Valid, LoadedFile.WellFormed, SentenceNode.Valid, Replacement, ReplaceAt, FitsTables, WriteFits,
         SplitterFits;
    ValidFile(file);
    var target, prev := FindSentence(file, sentenceIndex);
    if sentenceIndex < 0 || sentenceIndex > file.sentenceCount { return ErrSentence; }
    if target == null && wordIndex != 0 { return ErrWord; }
    if target == null {
      target := AddSentence(file, prev);
      ValidFile(file);
    }
    TargetWords(file, sentenceIndex);
    var wordCount := target.CountWords();
    if wordIndex < 0 || wordIndex > wordCount { return ErrWord; }
    TargetFits(old(file.doc), file.doc, sentenceIndex, wordIndex, content);
    WriteSentence(file, sentenceIndex, target, wordIndex, content);
    result := Success;
  }
}

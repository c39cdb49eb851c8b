/**
 Loading, printing, syncing, backing up and undoing: the loops that turn a text into a linked document and
 back, and the one-file store around them. Each loop is proved to compute Parse, PrintSync or PrintUndo.
 */
module DocumentStorage {
  import opened Text
  import opened Document
  import opened DocumentOps
  import opened Editing
  import opened LinkedDocument
  import opened UndoLaws

  // ---------- the parser ----------

  /** What a half-built document becomes once the words ws are read. */
  function Resume(d: Doc, ws: seq<string>): Doc
    requires d != []
  {
    d[..|d| - 1] + Group(Last(d).words, ws)
  }

  /** The last sentence is still open. */
  ghost predicate Growing(d: Doc) {
    d != [] && Last(d) == Unlocked(Last(d).words, NUL)
  }

  lemma ResumeWord(d: Doc, w: string, ws: seq<string>)
    requires Growing(d) && !EndsSentence(w)
    ensures Growing(WithLastWord(d, w)) && Resume(d, [w] + ws) == Resume(WithLastWord(d, w), ws)
  {
    assert ([w] + ws)[1..] == ws;
    assert WithLastWord(d, w)[..|d| - 1] == d[..|d| - 1];
  }

  /** d with its open sentence closed by the word w and a new one opened. */
  function CloseWith(d: Doc, w: string): Doc
    requires d != [] && w != []
  {
    WithLastDelimiter(WithLastWord(d, w), Last(w)) + [Unlocked([], NUL)]
  }

  lemma ResumeEnd(d: Doc, w: string, ws: seq<string>)
    requires Growing(d) && EndsSentence(w)
    ensures Growing(CloseWith(d, w)) && Resume(d, [w] + ws) == Resume(CloseWith(d, w), ws)
  {
    var s, d' := Unlocked(Last(d).words + [w], Last(w)), CloseWith(d, w);
    assert ([w] + ws)[0] == w && ([w] + ws)[1..] == ws;
    assert d'[..|d'| - 1] == d[..|d| - 1] + [s];
    assert d[..|d| - 1] + ([s] + Group([], ws)) == (d[..|d| - 1] + [s]) + Group([], ws);
  }

  /** The part of a buffer after its last terminator becomes an unfinished word. */
  lemma {:induction false} PartsWithoutDelimiter(open: string, rest: string)
    requires forall i | 0 <= i < |rest| :: !IsDelimiter(rest[i])
    ensures PartsFrom(open, rest) == if open + rest == [] then [] else [open + rest]
    decreases |rest|
  {
    if rest == [] {
      assert open + rest == open;
    } else {
      PartsWithoutDelimiter(open + [rest[0]], rest[1..]);
      assert open + [rest[0]] + rest[1..] == open + rest;
    }
  }

  lemma {:induction false} PartsUpToDelimiter(open: string, rest: string, k: nat)
    requires k < |rest| && IsDelimiter(rest[k]) && forall i | 0 <= i < k :: !IsDelimiter(rest[i])
    ensures PartsFrom(open, rest) == [open + rest[..k + 1]] + PartsFrom("", rest[k + 1..])
    decreases |rest|
  {
    if k == 0 {
      assert rest[..1] == [rest[0]];
    } else {
      PartsUpToDelimiter(open + [rest[0]], rest[1..], k - 1);
      assert open + [rest[0]] + rest[1..][..k] == open + rest[..k + 1];
      assert rest[1..][k..] == rest[k + 1..];
    }
  }

  /** The cursor of the parser: the sentence being filled and its last word node. */
  ghost predicate AtEnd(file: LoadedFile, current: SentenceNode, currentWord: WordNode?)
    reads file, file.sents, file.nodes
  {
    && file.WellFormed() && file.sents != [] && current == Last(file.sents)
    && currentWord == (if current.spine == [] then null else Last(current.spine))
    && file.doc != []
  }

  /** The file has grown by new objects only. */
  twostate predicate OnlyNew(sents: seq<SentenceNode>, nodes: set<WordNode>, new file: LoadedFile)
    reads file
  {
    fresh(file.nodes - nodes) && forall i | 0 <= i < |file.sents| :: file.sents[i] in sents || fresh(file.sents[i])
  }

  /** A part up to a terminator: the word goes in, the sentence is closed and the next one opened. */
  method AddTerminated(file: LoadedFile, current: SentenceNode, currentWord: WordNode?, part: string)
    returns (sentence: SentenceNode)
    requires AtEnd(file, current, currentWord) && 0 < |part| <= WORD_LIMIT
    modifies file, file.sents, file.nodes
    ensures AtEnd(file, sentence, null) && OnlyNew(old(file.sents), old(file.nodes), file)
    ensures file.doc == CloseWith(old(file.doc), part)
  {
    hide LoadedFile.WellFormed, SentenceNode.Valid, WithLastWord, WithLastDelimiter;
    SentenceIsInFile(file);
    var _ := file.AddWord(current, currentWord, part);
    sentence := file.FinishSentence(current, part[|part| - 1]);
  }

  /** The rest of a buffer, after its last terminator. */
  method AddRemaining(file: LoadedFile, current: SentenceNode, currentWord: WordNode?, part: string)
    returns (word: WordNode)
    requires AtEnd(file, current, currentWord) && |part| <= WORD_LIMIT
    modifies file, file.sents, file.nodes
    ensures AtEnd(file, current, word) && OnlyNew(old(file.sents), old(file.nodes), file)
    ensures file.doc == WithLastWord(old(file.doc), part)
  {
    hide LoadedFile.WellFormed, SentenceNode.Valid;
    SentenceIsInFile(file);
    word := file.AddWord(current, currentWord, part);
  }

  lemma SentenceIsInFile(file: LoadedFile)
    requires file.WellFormed() && file.sents != []
    ensures Last(file.sents) in file.sents && Last(file.sents).nodes <= file.nodes
  {
  }

  /** The inner loop: one word buffer is cut after each terminator. */
  method AddBuffer(file: LoadedFile, current: SentenceNode, currentWord: WordNode?, buffer: string,
                   ghost rest: seq<string>)
    returns (sentence: SentenceNode, word: WordNode?)
    requires AtEnd(file, current, currentWord) && Growing(file.doc) && |buffer| <= WORD_LIMIT
    modifies file, file.sents, file.nodes
    ensures AtEnd(file, sentence, word) && Growing(file.doc) && OnlyNew(old(file.sents), old(file.nodes), file)
    ensures Resume(old(file.doc), Parts(buffer) + rest) == Resume(file.doc, rest)
  {
    hide LoadedFile.WellFormed, SentenceNode.Valid, Resume, PartsFrom, CloseWith, WithLastWord;
    sentence, word := current, currentWord;
    var startPos := 0;
    assert buffer[0..] == buffer;
    for i := 0 to |buffer|
      invariant startPos <= i && AtEnd(file, sentence, word) && Growing(file.doc)
      invariant OnlyNew(old(file.sents), old(file.nodes), file)
      invariant forall k | startPos <= k < i :: !IsDelimiter(buffer[k])
      invariant Resume(old(file.doc), Parts(buffer) + rest) == Resume(file.doc, Parts(buffer[startPos..]) + rest)
    {
      if IsDelimiter(buffer[i]) {
        CutAtDelimiter(buffer, startPos, i, rest);
        ResumeEnd(file.doc, buffer[startPos..i + 1], Parts(buffer[i + 1..]) + rest);
        sentence := AddTerminated(file, sentence, word, buffer[startPos..i + 1]);
        word := null;
        startPos := i + 1;
      }
    }
    NoMoreDelimiters(buffer[startPos..], rest);
    if startPos < |buffer| {
      ResumeWord(file.doc, buffer[startPos..], rest);
      word := AddRemaining(file, sentence, word, buffer[startPos..]);
    }
  }

  lemma CutAtDelimiter(buffer: string, start: nat, i: nat, rest: seq<string>)
    requires start <= i < |buffer| && IsDelimiter(buffer[i]) && forall k | start <= k < i :: !IsDelimiter(buffer[k])
    ensures Parts(buffer[start..]) + rest == [buffer[start..i + 1]] + (Parts(buffer[i + 1..]) + rest)
  {
    var tail := buffer[start..];
    PartsUpToDelimiter("", tail, i - start);
    assert tail[..i - start + 1] == buffer[start..i + 1] && "" + buffer[start..i + 1] == buffer[start..i + 1];
    assert tail[i - start + 1..] == buffer[i + 1..];
  }

  lemma NoMoreDelimiters(tail: string, rest: seq<string>)
    requires forall i | 0 <= i < |tail| :: !IsDelimiter(tail[i])
    ensures Parts(tail) + rest == if tail == [] then rest else [tail] + rest
    ensures !EndsSentence(tail)
  {
    PartsWithoutDelimiter("", tail);
    assert "" + tail == tail;
    if tail == [] { assert [] + rest == rest; }
  }

  lemma ResumeNothing(d: Doc)
    requires Growing(d)
    ensures Resume(d, []) == TrimTail(d)
  {
    if Last(d).words != [] { assert Resume(d, []) == d; }
  }

  /** The first inner loop: leading white space. */
  method SkipWhitespace(content: string, start: nat) returns (p: nat)
    requires start <= |content|
    ensures start <= p <= |content| && (p < |content| ==> !IsSpace(content[p]))
    ensures Words(content[p..]) == Words(content[start..])
  {
    p := start;
    while p < |content| && IsSpace(content[p])
      invariant start <= p <= |content| && Words(content[p..]) == Words(content[start..])
    {
      assert content[p..][1..] == content[p + 1..];
      p := p + 1;
    }
  }

  lemma RunNext(s: string, limit: nat)
    ensures RunLength(s, limit)
         == if s == "" || limit == 0 || IsSpace(s[0]) then 0 else 1 + RunLength(s[1..], limit - 1)
  {
  }

  lemma WordsOfRun(s: string)
    requires s != "" && !IsSpace(s[0])
    ensures var k := RunLength(s, WORD_LIMIT);
            Words(s) == Parts(s[..k]) + Words(s[k..])
  {
  }

  /** The middle loop: the next run of non-space bytes, cut at the buffer's capacity. */
  method ReadWord(content: string, start: nat) returns (buffer: string, p: nat)
    requires start < |content| && !IsSpace(content[start])
    ensures 0 < |buffer| <= WORD_LIMIT && p == start + |buffer| <= |content|
    ensures |buffer| == RunLength(content[start..], WORD_LIMIT) && buffer == content[start..p]
    ensures Words(content[start..]) == Parts(buffer) + Words(content[p..])
  {
    assert WORD_LIMIT == 255;
    hide *;
    buffer, p := "", start;
    WordsOfRun(content[start..]);
    RunNext(content[start..], WORD_LIMIT);
    ghost var run := RunLength(content[start..], WORD_LIMIT);
    SlicesGrow(content, start, start);
    while p < |content| && !IsSpace(content[p]) && |buffer| < WORD_LIMIT
      invariant |buffer| <= WORD_LIMIT && p == start + |buffer| <= |content| && buffer == content[start..p]
      invariant run == |buffer| + RunLength(content[p..], WORD_LIMIT - |buffer|)
    {
      RunNext(content[p..], WORD_LIMIT - |buffer|);
      SlicesGrow(content, start, p);
      buffer := buffer + [content[p]];
      p := p + 1;
    }
    RunNext(content[p..], WORD_LIMIT - |buffer|);
    SlicesMeet(content, start, p);
  }

  lemma SlicesGrow(s: string, a: nat, b: nat)
    requires a <= b < |s|
    ensures s[a..a] == "" && s[a..b] + [s[b]] == s[a..b + 1] && s[b..][0] == s[b] && s[b..][1..] == s[b + 1..]
  {
  }

  lemma SlicesMeet(s: string, a: nat, b: nat)
    requires a <= b <= |s|
    ensures s[a..][..b - a] == s[a..b] && s[a..][b - a..] == s[b..]
  {
  }

  /** A file with one empty sentence. */
  method NewFile() returns (file: LoadedFile, current: SentenceNode)
    ensures AtEnd(file, current, null) && file.doc == [Unlocked([], NUL)]
    ensures fresh(file) && OnlyNew([], {}, file)
  {
    file := new LoadedFile();
    current := file.LinkSentence(null);
  }

  /** The outer loop, for a text that is not empty: the last sentence is still open at the end. */
  method BuildList(content: string) returns (file: LoadedFile)
    requires content != ""
    ensures file.WellFormed() && file.sents != [] && Growing(file.doc) && Parse(content) == TrimTail(file.doc)
    ensures fresh(file) && OnlyNew([], {}, file)
  {
    var current: SentenceNode;
    file, current := NewFile();
    hide LoadedFile.WellFormed, SentenceNode.Valid, Words, Resume, Parse, Group, TrimTail;
    FirstSentence(content);
    var currentWord: WordNode? := null;
    var p := 0;
    while p < |content|
      invariant p <= |content| && AtEnd(file, current, currentWord) && Growing(file.doc) && OnlyNew([], {}, file)
      invariant Parse(content) == Resume(file.doc, Words(content[p..]))
    {
      p := SkipWhitespace(content, p);
      if p == |content| { break; }
      var buffer, q := ReadWord(content, p);
      current, currentWord := AddBuffer(file, current, currentWord, buffer, Words(content[q..]));
      p := q;
    }
    NoMoreWords(content[p..]);
    ResumeNothing(file.doc);
  }

  /** parse_file_to_linked_list, with the count that the loader takes afterwards. */
  method LoadText(content: string) returns (file: LoadedFile)
    ensures file.Valid() && file.doc == Parse(content)
    ensures fresh(file) && OnlyNew([], {}, file)
  {
    hide LoadedFile.WellFormed;
    if content == "" {
      file := new LoadedFile();
    } else {
      file := BuildList(content);
      file.RemoveBlankTail();
    }
    file.CountSentences();
  }

  lemma FirstSentence(content: string)
    ensures Parse(content) == Resume([Unlocked([], NUL)], Words(content[0..]))
  {
    assert content[0..] == content && [Unlocked([], NUL)][..0] == [];
  }

  lemma NoMoreWords(s: string)
    requires s == []
    ensures Words(s) == []
  {
  }

  // ---------- the printers ----------

  /** The word loop both printers share. */
  method PrintWords(out: string, sent: SentenceNode) returns (text: string)
    requires sent.Valid()
    ensures text == out + Join(sent.words)
  {
    hide JoinRest, Join;
    text := out;
    JoinEnds(sent.words, out);
    var word := sent.wordsHead;
    var firstWord := true;
    ghost var k := 0;
    while word != null
      invariant k <= |sent.spine| && word == if k < |sent.spine| then sent.spine[k] else null
      invariant firstWord == (k == 0)
      invariant out + Join(sent.words) == text + JoinRest(sent.words, k)
      decreases |sent.spine| - k
    {
      JoinStep(sent.words, k, text);
      if !firstWord { text := text + " "; }
      firstWord := false;
      text := text + word.word;
      word := word.next;
      k := k + 1;
    }
    JoinEnds(sent.words, text);
  }

  /** What is still to be printed of a sentence after k words. */
  function JoinRest(ws: seq<string>, k: nat): string
    requires k <= |ws|
  {
    if k == 0 then Join(ws) else if k < |ws| then " " + Join(ws[k..]) else ""
  }

  lemma JoinNext(ws: seq<string>, k: nat)
    requires k < |ws|
    ensures JoinRest(ws, k) == (if k == 0 then "" else " ") + (ws[k] + JoinRest(ws, k + 1))
  {
    assert ws[0..] == ws && ws[k..][1..] == ws[k + 1..];
    var more := ws[k] + JoinRest(ws, k + 1);
    assert Join(ws[k..]) == more;
    assert "" + more == more;
  }

  lemma JoinStep(ws: seq<string>, k: nat, out: string)
    requires k < |ws|
    ensures out + JoinRest(ws, k) == (if k == 0 then out else out + " ") + ws[k] + JoinRest(ws, k + 1)
  {
    JoinNext(ws, k);
    EmitWord(out, k == 0, ws[k], JoinRest(ws, k + 1));
  }

  /** Printing a separator and a word. */
  lemma EmitWord(out: string, first: bool, word: string, rest: string)
    ensures out + ((if first then "" else " ") + (word + rest)) == (if first then out else out + " ") + word + rest
  {
    if first {
      assert "" + (word + rest) == word + rest;
    } else {
      assert out + (" " + (word + rest)) == out + " " + word + rest;
    }
  }

  lemma JoinEnds(ws: seq<string>, out: string)
    ensures out + JoinRest(ws, |ws|) == out && JoinRest(ws, 0) == Join(ws)
  {
  }

  lemma Regroup(a: string, b: string, c: string, d: string)
    ensures a + (b + (c + d)) == a + b + c + d
  {
  }

  /** write_linked_list_to_file */
  method PrintForSync(file: LoadedFile) returns (out: string)
    requires file.WellFormed()
    ensures out == PrintSync(file.doc)
  {
    hide SentenceNode.Valid, PrintSync, Join;
    out := "";
    var sent := file.sentencesHead;
    ghost var k := 0;
    assert file.doc[0..] == file.doc && "" + PrintSync(file.doc) == PrintSync(file.doc);
    while sent != null
      invariant k <= |file.sents| && sent == if k < |file.sents| then file.sents[k] else null
      invariant PrintSync(file.doc) == out + PrintSync(file.doc[k..])
      decreases |file.sents| - k
    {
      assert sent.Value() == file.doc[k];
      SyncStep(file.doc, k, out);
      ghost var was := out;
      out := PrintWords(out, sent);
      if sent.delimiter != NUL { out := out + [sent.delimiter]; }
      if sent.next != null { out := out + " "; }
      assert out == SyncedSentence(file.doc, k, was);
      sent := sent.next;
      k := k + 1;
    }
    SyncEnd(file.doc, out);
  }

  /** What the sync printer writes for sentence k behind the text already written. */
  function SyncedSentence(d: Doc, k: nat, out: string): string
    requires k < |d|
  {
    var text := out + Join(d[k].words);
    var closed := if d[k].delim != NUL then text + [d[k].delim] else text;
    if k + 1 < |d| then closed + " " else closed
  }

  lemma SyncStep(d: Doc, k: nat, out: string)
    requires k < |d|
    ensures out + PrintSync(d[k..]) == SyncedSentence(d, k, out) + PrintSync(d[k + 1..])
  {
    assert d[k..][1..] == d[k + 1..];
    var text, b, c, rest := Join(d[k].words), TerminatorText(d[k].delim), if k + 1 < |d| then " " else "",
                            PrintSync(d[k + 1..]);
    assert PrintSync(d[k..]) == text + b + (c + rest);
    assert out + (text + b + (c + rest)) == out + text + b + c + rest by { Regroup(out, text + b, c, rest); }
    assert SyncedSentence(d, k, out) == out + text + b + c;
  }

  lemma SyncEnd(d: Doc, out: string)
    ensures out + PrintSync(d[|d|..]) == out
  {
  }

  /** The printing loop of save_undo_backup_ll. */
  method PrintForUndo(file: LoadedFile) returns (out: string)
    requires file.WellFormed()
    ensures out == PrintUndo(file.doc)
  {
    hide SentenceNode.Valid, PrintUndo, Join, UndoRest;
    out := "";
    var sent := file.sentencesHead;
    UndoEnds(file.doc);
    var firstSentence := true;
    ghost var k := 0;
    while sent != null
      invariant k <= |file.sents| && sent == if k < |file.sents| then file.sents[k] else null
      invariant firstSentence == (k == 0)
      invariant PrintUndo(file.doc) == out + UndoRest(file.doc, k)
      decreases |file.sents| - k
    {
      assert sent.Value() == file.doc[k];
      UndoStep(file.doc, k, out);
      if !firstSentence { out := out + " "; }
      firstSentence := false;
      out := PrintWords(out, sent);
      sent := sent.next;
      k := k + 1;
    }
  }

  function UndoRest(d: Doc, k: nat): string
    requires k <= |d|
  {
    if k == 0 then PrintUndo(d) else if k < |d| then " " + PrintUndo(d[k..]) else ""
  }

  lemma UndoNext(d: Doc, k: nat)
    requires k < |d|
    ensures UndoRest(d, k) == (if k == 0 then "" else " ") + (Join(d[k].words) + UndoRest(d, k + 1))
  {
    assert d[0..] == d && d[k..][1..] == d[k + 1..];
    var more := Join(d[k].words) + UndoRest(d, k + 1);
    assert PrintUndo(d[k..]) == more;
    assert "" + more == more;
  }

  lemma UndoStep(d: Doc, k: nat, out: string)
    requires k < |d|
    ensures out + UndoRest(d, k) == (if k == 0 then out else out + " ") + Join(d[k].words) + UndoRest(d, k + 1)
  {
    UndoNext(d, k);
    EmitWord(out, k == 0, Join(d[k].words), UndoRest(d, k + 1));
  }

  lemma UndoEnds(d: Doc)
    ensures UndoRest(d, |d|) == "" && "" + UndoRest(d, 0) == PrintUndo(d)
  {
  }

  // ---------- one file of the store ----------

  lemma CTextNext(s: string)
    ensures CText(s) == if s == "" || s[0] == NUL then "" else [s[0]] + CText(s[1..])
  {
  }

  method ReadCString(bytes: string) returns (s: string)
    ensures s == CText(bytes)
  {
    hide CText;
    var n := 0;
    assert bytes[0..] == bytes;
    while n < |bytes| && bytes[n] != NUL
      invariant n <= |bytes| && CText(bytes) == bytes[..n] + CText(bytes[n..])
    {
      CTextNext(bytes[n..]);
      Assoc(bytes[..n], [bytes[n]], CText(bytes[n + 1..]));
      assert bytes[n..][1..] == bytes[n + 1..] && bytes[..n] + [bytes[n]] == bytes[..n + 1];
      n := n + 1;
    }
    CTextNext(bytes[n..]);
    s := bytes[..n];
  }

  class StoredFile {
    var disk: string
    var undo: Option<string>
    var loaded: LoadedFile?

    ghost predicate Valid()
      reads this, loaded, if loaded == null then [] else loaded.sents, if loaded == null then {} else loaded.nodes
    {
      loaded != null ==> loaded.Valid()
    }

    /** The file as the laws of UNDO see it; a file that is not cached will be loaded from disk. */
    ghost function View(): Store
      reads this, loaded
    {
      Store(disk, undo, if loaded == null then LoadBytes(disk) else loaded.doc)
    }

    constructor (bytes: string)
      ensures Valid() && View() == Store(bytes, None, LoadBytes(bytes)) && loaded == null
    {
      disk, undo, loaded := bytes, None, null;
    }

    /** get_file_from_cache: lazy loading. */
    method Get() returns (file: LoadedFile)
      requires Valid()
      modifies this`loaded
      ensures Valid() && loaded == file && View() == old(View())
      ensures file == old(loaded) || (fresh(file) && OnlyNew([], {}, file))
    {
      if loaded != null { return loaded; }
      var text := ReadCString(disk);
      file := LoadText(text);
      loaded := file;
    }

    method SaveUndoBackup()
      requires Valid()
      modifies this
      ensures Valid() && View() == SaveBackup(old(View()))
    {
      var file := Get();
      var text := PrintForUndo(file);
      undo := Some(text);
    }

    method Sync()
      requires Valid()
      modifies this
      ensures Valid() && View() == old(View()).(disk := PrintSync(old(View()).mem))
    {
      var file := Get();
      var text := PrintForSync(file);
      disk := text;
    }

    /** The in-memory half of a commit. */
    method EditLoaded(index: nat, originalWordCount: nat, editOps: seq<Edit<string>>) returns (ok: bool)
      requires Valid() && loaded != null && forall i | 0 <= i < |editOps| :: |editOps[i].word| <= WORD_LIMIT
      modifies loaded, loaded.sents, loaded.nodes
      ensures Valid() && CommitAt(old(loaded.doc), |old(loaded.doc)|, index, originalWordCount, editOps)
                      == if ok then Some(loaded.doc) else None
      ensures !ok ==> loaded.doc == old(loaded.doc)
    {
      hide SentenceNode.Valid, SentenceChain, CommitAt;
      ok := loaded.Commit(index, originalWordCount, editOps);
    }

    /** The commit of a session: edit the cached document, then sync; an index out of range changes nothing. */
    method CommitSession(index: nat, originalWordCount: nat, editOps: seq<Edit<string>>) returns (ok: bool)
      requires Valid() && forall i | 0 <= i < |editOps| :: |editOps[i].word| <= WORD_LIMIT
      modifies this, loaded, if loaded == null then [] else loaded.sents, if loaded == null then {} else loaded.nodes
      ensures Valid() && View() == CommitAndSync(old(View()), index, originalWordCount, editOps)
      ensures var before := old(View());
              match CommitAt(before.mem, |before.mem|, index, originalWordCount, editOps)
              case None => !ok && View() == before
              case Some(d) => ok && View().mem == d && disk == PrintSync(d) && undo == old(undo)
    {
      hide LoadedFile.WellFormed, SentenceNode.Valid, LoadBytes, CommitAt;
      var file := Get();
      ghost var before := View();
      ok := EditLoaded(index, originalWordCount, editOps);
      if ok {
        Sync();
      }
    }

    /** UNDO: the backup replaces the file on disk, then the file is loaded again. */
    method Undo() returns (ok: bool)
      requires Valid()
      modifies this
      ensures Valid() && ok == UndoChange(old(View())).Some?
      ensures View() == if ok then UndoChange(old(View())).value else old(View())
    {
      if undo == None { return false; }
      disk := undo.value;
      var text := ReadCString(disk);
      loaded := LoadText(text);
      ok := true;
    }
  }
}

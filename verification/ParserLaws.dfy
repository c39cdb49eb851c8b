/** What loading a file and writing it back does to a document. */
module ParserLaws {
  import opened Text
  import opened Document

  // The undo printer and the parser undo each other; the sync printer does not, and the exact difference is stated;
  // sentence counts are characterised on the text alone.

  // ---------- reading words back ----------

  lemma {:induction false} RunIsNonSpace(s: string, limit: nat)
    ensures forall i | 0 <= i < RunLength(s, limit) :: !IsSpace(s[i])
  {
    if s == [] || limit == 0 || IsSpace(s[0]) {
    } else {
      RunIsNonSpace(s[1..], limit - 1);
      forall i | 0 <= i < RunLength(s, limit) ensures !IsSpace(s[i]) {
        if i > 0 { assert s[i] == s[1..][i - 1]; }
      }
    }
  }

  lemma {:induction false} RunIsExact(w: string, rest: string, limit: nat)
    requires |w| <= limit && forall i | 0 <= i < |w| :: !IsSpace(w[i])
    requires |w| == limit || rest == [] || IsSpace(rest[0])
    ensures RunLength(w + rest, limit) == |w|
  {
    if w == [] {
      assert w + rest == rest;
    } else {
      assert (w + rest)[1..] == w[1..] + rest;
      RunIsExact(w[1..], rest, limit - 1);
    }
  }

  lemma AtomicPart(open: string, c: char)
    requires |open| < WORD_LIMIT && !IsSpace(c)
    requires forall i | 0 <= i < |open| :: !IsSpace(open[i]) && !IsDelimiter(open[i])
    ensures Atomic(open + [c])
  {
  }

  lemma AtomicCons(w: string, ws: seq<string>)
    requires Atomic(w) && AllAtomic(ws)
    ensures AllAtomic([w] + ws) && Concat([w] + ws) == w + Concat(ws)
  {
    assert ([w] + ws)[1..] == ws;
  }

  lemma {:induction false} PartsAreAtomic(open: string, rest: string)
    requires |open| + |rest| <= WORD_LIMIT
    requires forall i | 0 <= i < |open| :: !IsSpace(open[i]) && !IsDelimiter(open[i])
    requires forall i | 0 <= i < |rest| :: !IsSpace(rest[i])
    ensures AllAtomic(PartsFrom(open, rest)) && Concat(PartsFrom(open, rest)) == open + rest
    decreases |rest|
  {
    hide PartsFrom, Atomic, AllAtomic, Concat;
    PartsNext(open, rest);
    if rest == [] {
      OnePart(open);
      assert open + rest == open;
    } else if IsDelimiter(rest[0]) {
      PartsAreAtomic("", rest[1..]);
      AtomicPart(open, rest[0]);
      AtomicCons(open + [rest[0]], PartsFrom("", rest[1..]));
      assert open + [rest[0]] + rest[1..] == open + rest && "" + rest[1..] == rest[1..];
    } else {
      PartsAreAtomic(open + [rest[0]], rest[1..]);
      assert open + [rest[0]] + rest[1..] == open + rest;
    }
  }

  lemma PartsNext(open: string, rest: string)
    ensures PartsFrom(open, rest)
         == if rest == [] then (if open == [] then [] else [open])
            else if IsDelimiter(rest[0]) then [open + [rest[0]]] + PartsFrom("", rest[1..])
            else PartsFrom(open + [rest[0]], rest[1..])
  {
  }

  lemma OnePart(open: string)
    requires |open| <= WORD_LIMIT && forall i | 0 <= i < |open| :: !IsSpace(open[i]) && !IsDelimiter(open[i])
    ensures var ws := if open == [] then [] else [open];
            AllAtomic(ws) && Concat(ws) == open
  {
    assert open != [] ==> Concat([open]) == open + Concat([]);
  }

  /** No byte but white space is lost, and every word has the parser's shape. */
  lemma {:induction false} WordsKeepText(s: string)
    ensures AllAtomic(Words(s)) && Concat(Words(s)) == NonSpace(s)
    decreases |s|
  {
    if s == [] {
    } else if IsSpace(s[0]) {
      WordsKeepText(s[1..]);
    } else {
      var k := RunLength(s, WORD_LIMIT);
      RunIsNonSpace(s, WORD_LIMIT);
      PartsAreAtomic("", s[..k]);
      WordsKeepText(s[k..]);
      ConcatAppend(Parts(s[..k]), Words(s[k..]));
      NonSpaceIdentity(s[..k]);
      NonSpaceAppend(s[..k], s[k..]);
      assert s[..k] + s[k..] == s;
      assert "" + s[..k] == s[..k];
    }
  }

  lemma {:induction false} PartsOfAtomic(open: string, rest: string)
    requires open + rest != [] && Atomic(open + rest)
    requires rest == [] ==> !EndsSentence(open)
    ensures PartsFrom(open, rest) == [open + rest]
    decreases |rest|
  {
    if rest == [] {
      assert open + rest == open;
    } else if IsDelimiter(rest[0]) {
      assert (open + rest)[|open|] == rest[0];
      assert |rest| == 1;
      assert rest == [rest[0]];
    } else {
      assert open + [rest[0]] + rest[1..] == open + rest;
      PartsOfAtomic(open + [rest[0]], rest[1..]);
    }
  }

  lemma {:induction false} WordsOfWord(w: string, rest: string)
    requires Atomic(w) && (rest == [] || IsSpace(rest[0]))
    ensures Words(w + rest) == [w] + Words(rest)
  {
    RunIsExact(w, rest, WORD_LIMIT);
    assert (w + rest)[..|w|] == w && (w + rest)[|w|..] == rest;
    PartsOfAtomic("", w);
    assert "" + w == w;
  }

  lemma WordsAfterBlank(s: string)
    ensures Words(" " + s) == Words(s)
  {
    assert (" " + s)[1..] == s;
  }

  lemma {:induction false} WordsOfJoin(ws: seq<string>, rest: string)
    requires ws != [] && AllAtomic(ws) && (rest == [] || IsSpace(rest[0]))
    ensures Words(Join(ws) + rest) == ws + Words(rest)
  {
    if |ws| == 1 {
      WordsOfWord(ws[0], rest);
    } else {
      var tail := Join(ws[1..]) + rest;
      calc {
        Words(Join(ws) + rest);
        { assert Join(ws) + rest == ws[0] + (" " + tail); }
        Words(ws[0] + (" " + tail));
        { WordsOfWord(ws[0], " " + tail); WordsAfterBlank(tail); }
        [ws[0]] + Words(tail);
        { WordsOfJoin(ws[1..], rest); }
        [ws[0]] + (ws[1..] + Words(rest));
        { assert [ws[0]] + ws[1..] == ws; }
        ws + Words(rest);
      }
    }
  }

  /** A doubled terminator is split off as a word of its own, even after a word of 255 bytes. */
  lemma {:induction false} WordsOfDoubled(w: string, rest: string)
    requires Atomic(w) && EndsSentence(w) && (rest == [] || IsSpace(rest[0]))
    ensures Words(w + [Last(w)] + rest) == [w, [Last(w)]] + Words(rest)
  {
    var t := Last(w);
    if |w| < WORD_LIMIT {
      var v := w + [t];
      RunIsExact(v, rest, WORD_LIMIT);
      assert (v + rest)[..|v|] == v && (v + rest)[|v|..] == rest;
      PartsOfDoubled("", w);
      assert "" + w == w;
    } else {
      RunIsExact(w, [t] + rest, WORD_LIMIT);
      assert w + [t] + rest == w + ([t] + rest);
      assert (w + ([t] + rest))[..|w|] == w && (w + ([t] + rest))[|w|..] == [t] + rest;
      PartsOfAtomic("", w);
      assert "" + w == w;
      WordsOfWord([t], rest);
      assert [w] + ([[t]] + Words(rest)) == [w, [t]] + Words(rest);
    }
  }

  lemma {:induction false} PartsOfDoubled(open: string, rest: string)
    requires rest != [] && Atomic(open + rest) && EndsSentence(rest)
    ensures PartsFrom(open, rest + [Last(rest)]) == [open + rest, [Last(rest)]]
    decreases |rest|
  {
    var t := Last(rest);
    var more := rest + [t];
    assert more[1..] == rest[1..] + [t];
    if |rest| == 1 {
      assert rest == [t] && more == [t, t];
      assert PartsFrom("", [t]) == [[t]];
    } else {
      assert (open + rest)[|open|] == rest[0];
      assert open + [rest[0]] + rest[1..] == open + rest;
      PartsOfDoubled(open + [rest[0]], rest[1..]);
    }
  }

  // ---------- sentences ----------

  lemma {:induction false} GroupKeepsWords(open: seq<string>, ws: seq<string>)
    ensures Flatten(Group(open, ws)) == open + ws
    decreases |ws|
  {
    if ws == [] {
    } else if EndsSentence(ws[0]) {
      GroupKeepsWords([], ws[1..]);
      assert open + [ws[0]] + ws[1..] == open + ws;
    } else {
      GroupKeepsWords(open + [ws[0]], ws[1..]);
      assert open + [ws[0]] + ws[1..] == open + ws;
    }
  }

  ghost predicate Unfinished(open: seq<string>) {
    AllAtomic(open) && forall i | 0 <= i < |open| :: !EndsSentence(open[i])
  }

  lemma {:induction false} GroupIsCanonical(open: seq<string>, ws: seq<string>)
    requires Unfinished(open) && AllAtomic(ws)
    ensures Canonical(Group(open, ws))
    decreases |ws|
  {
    if ws == [] {
    } else if EndsSentence(ws[0]) {
      GroupIsCanonical([], ws[1..]);
      assert CanonicalSentence(Unlocked(open + [ws[0]], Last(ws[0])));
    } else {
      GroupIsCanonical(open + [ws[0]], ws[1..]);
    }
  }

  lemma {:induction false} GroupOfSentence(open: seq<string>, words: seq<string>, ws: seq<string>)
    requires words != [] && (forall i | 0 <= i < |words| - 1 :: !EndsSentence(words[i]))
    requires EndsSentence(Last(words)) || ws == []
    ensures Group(open, words + ws)
         == [Unlocked(open + words, if EndsSentence(Last(words)) then Last(Last(words)) else NUL)] + Group([], ws)
    decreases |words|
  {
    assert (words + ws)[0] == words[0] && (words + ws)[1..] == words[1..] + ws;
    if |words| == 1 {
      assert words == [words[0]];
      assert (words + ws)[1..] == ws;
      if !EndsSentence(words[0]) { assert words + ws == words; }
    } else {
      assert open + [words[0]] + words[1..] == open + words;
      GroupOfSentence(open + [words[0]], words[1..], ws);
    }
  }

  lemma {:induction false} GroupOfCanonical(d: Doc)
    requires Canonical(d)
    ensures Group([], Flatten(d)) == d
  {
    if d != [] {
      GroupOfCanonical(d[1..]);
      assert CanonicalSentence(d[0]);
      GroupOfSentence([], d[0].words, Flatten(d[1..]));
      assert [] + d[0].words == d[0].words;
      assert d == [d[0]] + d[1..];
    }
  }

  /** The parser only produces canonical documents. */
  lemma ParseIsCanonical(s: string)
    ensures Canonical(Parse(s))
  {
    WordsKeepText(s);
    GroupIsCanonical([], Words(s));
  }

  lemma {:induction false} CanonicalWords(d: Doc)
    requires Canonical(d)
    ensures AllAtomic(Flatten(d)) && (d != [] ==> Flatten(d) != [])
  {
    if d != [] {
      assert CanonicalSentence(d[0]);
      CanonicalWords(d[1..]);
    }
  }

  lemma {:induction false} PrintUndoIsJoin(d: Doc)
    requires forall i | 0 <= i < |d| :: d[i].words != []
    ensures PrintUndo(d) == Join(Flatten(d))
  {
    if d == [] {
    } else if |d| == 1 {
      assert Flatten(d) == d[0].words + Flatten(d[1..]) == d[0].words;
    } else {
      PrintUndoIsJoin(d[1..]);
      assert d[1..][0].words != [];
      assert Flatten(d[1..]) == d[1].words + Flatten(d[1..][1..]);
      JoinAppend(d[0].words, Flatten(d[1..]));
    }
  }

  // ---------- main results ----------

  /** Loading what the undo printer wrote gives the document back exactly when the document is canonical. */
  lemma UndoTextReloads(d: Doc)
    ensures Parse(PrintUndo(d)) == d <==> Canonical(d)
  {
    ParseIsCanonical(PrintUndo(d));
    if Canonical(d) {
      CanonicalReloads(d);
    }
  }

  /** The undo text behind the first sentence's words. */
  function BehindFirst(d: Doc): string {
    if |d| <= 1 then "" else " " + PrintUndo(d[1..])
  }

  lemma UndoNext(d: Doc)
    requires d != []
    ensures PrintUndo(d) == Join(d[0].words) + BehindFirst(d) && Flatten(d) == d[0].words + Flatten(d[1..])
    ensures BehindFirst(d) == [] || IsSpace(BehindFirst(d)[0])
    ensures Words(BehindFirst(d)) == if |d| <= 1 then [] else Words(PrintUndo(d[1..]))
    ensures |d| <= 1 ==> Flatten(d[1..]) == []
  {
    hide Join, RunLength, PartsFrom;
    if |d| > 1 { WordsAfterBlank(PrintUndo(d[1..])); }
  }

  /** Any document's undo text gives its words back if each of them is as the reader makes it. */
  lemma {:induction false} WordsOfUndo(d: Doc)
    requires AllAtomic(Flatten(d))
    ensures Words(PrintUndo(d)) == Flatten(d)
  {
    if d != [] {
      var ws := d[0].words;
      UndoNext(d);
      hide Words, Flatten, PrintUndo, AllAtomic, BehindFirst, IsSpace;
      AtomicSplit(ws, Flatten(d[1..]));
      WordsOfUndo(d[1..]);
      if ws != [] { WordsOfJoin(ws, BehindFirst(d)); } else { assert "" + BehindFirst(d) == BehindFirst(d); }
    }
  }

  lemma AtomicSplit(a: seq<string>, b: seq<string>)
    requires AllAtomic(a + b)
    ensures AllAtomic(a) && AllAtomic(b)
  {
    hide Atomic;
    forall i | 0 <= i < |a| ensures Atomic(a[i]) { assert (a + b)[i] == a[i]; }
    forall i | 0 <= i < |b| ensures Atomic(b[i]) { assert (a + b)[|a| + i] == b[i]; }
  }

  /** Loading the undo text keeps the words exactly when the reader could have made each of them. */
  lemma UndoKeepsWordsIff(d: Doc)
    ensures Flatten(Parse(PrintUndo(d))) == Flatten(d) <==> AllAtomic(Flatten(d))
  {
    ParseKeepsText(PrintUndo(d));
    WordsKeepText(PrintUndo(d));
    if AllAtomic(Flatten(d)) { WordsOfUndo(d); }
  }

  lemma CanonicalReloads(d: Doc)
    requires Canonical(d)
    ensures Parse(PrintUndo(d)) == d
  {
    if d != [] {
      forall i | 0 <= i < |d| ensures d[i].words != [] { assert CanonicalSentence(d[i]); }
      PrintUndoIsJoin(d);
      CanonicalWords(d);
      WordsOfJoin(Flatten(d), "");
      assert Join(Flatten(d)) + "" == Join(Flatten(d));
      assert Flatten(d) + Words("") == Flatten(d);
      GroupOfCanonical(d);
    }
  }

  /** Parser and undo printer undo each other on every text. */
  lemma ParsePrintParse(s: string)
    ensures Parse(PrintUndo(Parse(s))) == Parse(s)
  {
    ParseIsCanonical(s);
    UndoTextReloads(Parse(s));
  }

  lemma ParseKeepsText(s: string)
    ensures Flatten(Parse(s)) == Words(s)
    ensures Concat(Flatten(Parse(s))) == NonSpace(s)
  {
    GroupKeepsWords([], Words(s));
    assert [] + Words(s) == Words(s);
    WordsKeepText(s);
  }

  /** Whatever the document, the undo text holds the same non-space bytes in the same order. */
  lemma {:induction false} PrintUndoKeepsText(d: Doc)
    ensures NonSpace(PrintUndo(d)) == NonSpace(Concat(Flatten(d)))
  {
    if d == [] {
    } else if |d| == 1 {
      NonSpaceOfJoin(d[0].words);
      assert d == [d[0]];
      FlattenOne(d[0]);
    } else {
      var rest := PrintUndo(d[1..]);
      calc {
        NonSpace(PrintUndo(d));
        { assert PrintUndo(d) == Join(d[0].words) + (" " + rest); }
        NonSpace(Join(d[0].words) + (" " + rest));
        { NonSpaceAppend(Join(d[0].words), " " + rest); }
        NonSpace(Join(d[0].words)) + NonSpace(" " + rest);
        { NonSpaceOfJoin(d[0].words); assert (" " + rest)[1..] == rest; }
        NonSpace(Concat(d[0].words)) + NonSpace(rest);
        { PrintUndoKeepsText(d[1..]); }
        NonSpace(Concat(d[0].words)) + NonSpace(Concat(Flatten(d[1..])));
        { NonSpaceAppend(Concat(d[0].words), Concat(Flatten(d[1..]))); }
        NonSpace(Concat(d[0].words) + Concat(Flatten(d[1..])));
        { ConcatAppend(d[0].words, Flatten(d[1..])); }
        NonSpace(Concat(Flatten(d)));
      }
    }
  }

  lemma {:induction false} NonSpaceTwice(s: string)
    ensures NonSpace(NonSpace(s)) == NonSpace(s)
  {
    if s != [] {
      NonSpaceTwice(s[1..]);
      NonSpaceAppend(if IsSpace(s[0]) then "" else [s[0]], NonSpace(s[1..]));
    }
  }

  /** Printing what was parsed loses and reorders nothing but white space. */
  lemma PrintParseKeepsText(s: string)
    ensures NonSpace(PrintUndo(Parse(s))) == NonSpace(s)
  {
    ParseKeepsText(s);
    PrintUndoKeepsText(Parse(s));
    NonSpaceTwice(s);
  }

  // ---------- the sync printer ----------

  /** What one sentence becomes. */
  function Doubled(s: Sentence): Doc {
    if s.delim != NUL then [s, Unlocked([[s.delim]], s.delim)] else [s]
  }

  lemma DoubledSentenceIsCanonical(s: Sentence)
    requires CanonicalSentence(s)
    ensures forall i | 0 <= i < |Doubled(s)| :: CanonicalSentence(Doubled(s)[i]) && Doubled(s)[i].delim == s.delim
  {
  }

  lemma CanonicalAppend(a: Doc, b: Doc)
    requires forall i | 0 <= i < |a| :: CanonicalSentence(a[i]) && (b != [] ==> a[i].delim != NUL)
    requires Canonical(b) && (b == [] ==> |a| <= 1 || a[|a| - 2].delim != NUL) && |a| <= 2
    ensures Canonical(a + b)
  {
    hide CanonicalSentence;
  }

  lemma {:induction false} DoubledIsCanonical(d: Doc)
    requires Canonical(d)
    ensures Canonical(DoubleTerminators(d))
    ensures d != [] ==> DoubleTerminators(d) != []
  {
    if d != [] {
      DoubledSentenceIsCanonical(d[0]);
      hide CanonicalSentence;
      DoubledIsCanonical(d[1..]);
      assert DoubleTerminators(d) == Doubled(d[0]) + DoubleTerminators(d[1..]);
      CanonicalAppend(Doubled(d[0]), DoubleTerminators(d[1..]));
    }
  }

  /** What a reader of the file sees: the words of every sentence, then its terminator once more. */
  function Shown(d: Doc): string {
    if d == [] then ""
    else Concat(d[0].words) + (if d[0].delim == '\0' then "" else [d[0].delim]) + Shown(d[1..])
  }

  /** The sync text of any document shows exactly this, white space aside. */
  lemma {:induction false} PrintSyncShows(d: Doc)
    ensures NonSpace(PrintSync(d)) == NonSpace(Shown(d))
  {
    if d != [] {
      var ws, t := d[0].words, TerminatorText(d[0].delim);
      var rest := if |d| == 1 then "" else " " + PrintSync(d[1..]);
      calc {
        NonSpace(PrintSync(d));
        { assert PrintSync(d) == Join(ws) + t + rest; }
        NonSpace(Join(ws) + t + rest);
        { NonSpaceAppend(Join(ws) + t, rest); NonSpaceAppend(Join(ws), t); }
        NonSpace(Join(ws)) + NonSpace(t) + NonSpace(rest);
        { NonSpaceOfJoin(ws); PrintSyncShows(d[1..]); assert |d| > 1 ==> rest[1..] == PrintSync(d[1..]); }
        NonSpace(Concat(ws)) + NonSpace(t) + NonSpace(Shown(d[1..]));
        { NonSpaceAppend(Concat(ws), t); NonSpaceAppend(Concat(ws) + t, Shown(d[1..])); }
        NonSpace(Shown(d));
      }
    }
  }

  /** Each sentence as the sync printer shows it. */
  function SyncedSentences(d: Doc): (r: seq<string>)
    ensures |r| == |d|
    ensures forall k | 0 <= k < |d| ::
              r[k] == Join(d[k].words) + if d[k].delim == '\0' then "" else [d[k].delim]
  {
    seq(|d|, k requires 0 <= k < |d| => Join(d[k].words) + TerminatorText(d[k].delim))
  }

  function UndoSentences(d: Doc): (r: seq<string>)
    ensures |r| == |d| && forall k | 0 <= k < |d| :: r[k] == Join(d[k].words)
  {
    seq(|d|, k requires 0 <= k < |d| => Join(d[k].words))
  }

  /** Both printers put single blanks between words and between sentences, and nothing else. */
  lemma {:induction false} PrintersJoin(d: Doc)
    ensures PrintSync(d) == Join(SyncedSentences(d))
    ensures PrintUndo(d) == Join(UndoSentences(d))
  {
    if d != [] {
      PrintersJoin(d[1..]);
      assert SyncedSentences(d)[1..] == SyncedSentences(d[1..]);
      assert UndoSentences(d)[1..] == UndoSentences(d[1..]);
      assert |d| == 1 ==> d[1..] == [];
    }
  }

  lemma SyncedText(init: seq<string>, w: string, t: string, rest: string)
    requires init != []
    ensures Join(init + [w]) + t + rest == Join(init) + (" " + (w + t + rest))
  {
    JoinAppend(init, [w]);
  }

  lemma {:induction false} WordsOfSyncedSentence(s: Sentence, rest: string)
    requires CanonicalSentence(s) && s.delim != NUL && (rest == [] || IsSpace(rest[0]))
    ensures Words(Join(s.words) + [s.delim] + rest) == s.words + [[s.delim]] + Words(rest)
  {
    var n := |s.words| - 1;
    var init, w := s.words[..n], s.words[n];
    var tail := w + [s.delim] + rest;
    assert Words(tail) == [w, [s.delim]] + Words(rest) by { WordsOfDoubled(w, rest); }
    if n > 0 {
      calc {
        Words(Join(s.words) + [s.delim] + rest);
        { assert s.words == init + [w]; SyncedText(init, w, [s.delim], rest); }
        Words(Join(init) + (" " + tail));
        { WordsOfJoin(init, " " + tail); WordsAfterBlank(tail); }
        init + Words(tail);
        { assert init + ([w, [s.delim]] + Words(rest)) == init + [w] + [[s.delim]] + Words(rest); }
        init + [w] + [[s.delim]] + Words(rest);
        { assert s.words == init + [w]; }
        s.words + [[s.delim]] + Words(rest);
      }
    } else {
      assert s.words == [w];
      assert [w, [s.delim]] + Words(rest) == s.words + [[s.delim]] + Words(rest);
    }
  }

  lemma FlattenPair(a: Sentence, b: Sentence)
    ensures Flatten([a, b]) == a.words + b.words
  {
    assert [a, b] == [a] + [b];
    FlattenAppend([a], [b]);
    FlattenOne(a);
    FlattenOne(b);
  }

  lemma FlattenOne(a: Sentence)
    ensures Flatten([a]) == a.words
  {
    assert Flatten([a][1..]) == [];
    assert a.words + [] == a.words;
  }

  lemma {:induction false} WordsOfSync(d: Doc)
    requires Canonical(d)
    ensures Words(PrintSync(d)) == Flatten(DoubleTerminators(d))
  {
    if d != [] {
      assert CanonicalSentence(d[0]);
      WordsOfSync(d[1..]);
      var more := PrintSync(d[1..]);
      var rest := if |d| == 1 then "" else " " + more;
      assert Words(rest) == Flatten(DoubleTerminators(d[1..])) by {
        if |d| > 1 { WordsAfterBlank(more); }
      }
      if d[0].delim != NUL {
        var extra := Unlocked([[d[0].delim]], d[0].delim);
        calc {
          Words(PrintSync(d));
          Words(Join(d[0].words) + [d[0].delim] + rest);
          { WordsOfSyncedSentence(d[0], rest); }
          d[0].words + [[d[0].delim]] + Words(rest);
          { FlattenPair(d[0], extra); }
          Flatten([d[0], extra]) + Flatten(DoubleTerminators(d[1..]));
          { FlattenAppend([d[0], extra], DoubleTerminators(d[1..])); }
          Flatten(DoubleTerminators(d));
        }
      } else {
        WordsOfJoin(d[0].words, rest);
        assert Join(d[0].words) + "" + rest == Join(d[0].words) + rest;
        assert Flatten([d[0]] + DoubleTerminators(d[1..])) == d[0].words + Flatten(DoubleTerminators(d[1..])) by {
          assert ([d[0]] + DoubleTerminators(d[1..]))[1..] == DoubleTerminators(d[1..]);
        }
      }
    }
  }

  /**
   A file that is synced and loaded again gains one sentence per terminated sentence, holding only the
   terminator; an unterminated tail is unchanged.
   */
  lemma SyncDoublesTerminators(s: string)
    ensures Parse(PrintSync(Parse(s))) == DoubleTerminators(Parse(s))
  {
    ParseIsCanonical(s);
    SyncOfCanonical(Parse(s));
  }

  lemma {:induction false} DoubledCounts(d: Doc)
    ensures |DoubleTerminators(d)| == |d| + Terminated(d)
    ensures Terminated(DoubleTerminators(d)) == 2 * Terminated(d)
  {
    if d != [] {
      DoubledCounts(d[1..]);
      assert d[0].delim != NUL ==> DoubleTerminators(d)[1..][1..] == DoubleTerminators(d[1..]);
    }
  }

  lemma SyncOfCanonical(d: Doc)
    requires Canonical(d)
    ensures Parse(PrintSync(d)) == DoubleTerminators(d) && Canonical(DoubleTerminators(d))
    ensures |DoubleTerminators(d)| == |d| + Terminated(d)
    ensures Terminated(DoubleTerminators(d)) == 2 * Terminated(d)
  {
    WordsOfSync(d);
    DoubledIsCanonical(d);
    GroupOfCanonical(DoubleTerminators(d));
    DoubledCounts(d);
  }

  /** The document after n rounds of syncing to disk and loading again. */
  function SyncRounds(s: string, n: nat): Doc {
    if n == 0 then Parse(s) else Parse(PrintSync(SyncRounds(s, n - 1)))
  }

  /** k * 2^n */
  function TimesPower2(k: nat, n: nat): nat {
    if n == 0 then k else 2 * TimesPower2(k, n - 1)
  }

  /** Terminators double on every round: k of them become k * 2^n, and nothing else is added. */
  lemma {:induction false} SyncRoundsGrow(s: string, n: nat)
    ensures Canonical(SyncRounds(s, n))
    ensures Terminated(SyncRounds(s, n)) == TimesPower2(Terminated(Parse(s)), n)
    ensures |SyncRounds(s, n)| - Terminated(SyncRounds(s, n)) == |Parse(s)| - Terminated(Parse(s))
  {
    if n == 0 {
      ParseIsCanonical(s);
    } else {
      SyncRoundsGrow(s, n - 1);
      SyncOfCanonical(SyncRounds(s, n - 1));
    }
  }

  /**
   Loading what the sync printer wrote gives the document back exactly when it is canonical and no sentence of it
   is terminated.
   */
  lemma SyncReloadsIff(d: Doc)
    ensures Parse(PrintSync(d)) == d <==> Canonical(d) && Terminated(d) == 0
  {
    ParseIsCanonical(PrintSync(d));
    if Canonical(d) {
      SyncOfCanonical(d);
      if Terminated(d) == 0 { NothingToDouble(d); }
    }
  }

  /** For a file: syncing is harmless exactly if it has no terminated sentence. */
  lemma SyncIsIdentityIff(s: string)
    ensures Parse(PrintSync(Parse(s))) == Parse(s) <==> DelimiterCount(s) == 0
  {
    ParseIsCanonical(s);
    SyncReloadsIff(Parse(s));
    SentenceCount(s);
  }

  lemma {:induction false} NothingToDouble(d: Doc)
    requires Terminated(d) == 0
    ensures DoubleTerminators(d) == d
  {
    if d != [] {
      NothingToDouble(d[1..]);
    }
  }

  // ---------- counting sentences on the text ----------

  /** The text after the last terminator is not blank. */
  predicate HasTail(s: string) {
    NonSpace(s) != [] && !IsDelimiter(Last(NonSpace(s)))
  }

  function EndCount(ws: seq<string>): nat {
    if ws == [] then 0 else (if EndsSentence(ws[0]) then 1 else 0) + EndCount(ws[1..])
  }

  lemma {:induction false} EndsAreDelimiters(ws: seq<string>)
    requires AllAtomic(ws)
    ensures EndCount(ws) == DelimiterCount(Concat(ws))
    ensures ws != [] ==> Concat(ws) != [] && Last(Concat(ws)) == Last(Last(ws))
  {
    if ws != [] {
      var w := ws[0];
      assert Atomic(w);
      EndsAreDelimiters(ws[1..]);
      DelimiterCountAppend(w, Concat(ws[1..]));
      DelimiterCountAppend(w[..|w| - 1], [Last(w)]);
      NoDelimiters(w[..|w| - 1]);
      assert w == w[..|w| - 1] + [Last(w)];
      assert DelimiterCount([Last(w)]) == if EndsSentence(w) then 1 else 0;
      if |ws| == 1 { assert Concat(ws[1..]) == []; }
    }
  }

  /** The words end in an unfinished sentence; open is the unfinished one before them. */
  predicate EndsOpen(open: seq<string>, ws: seq<string>) {
    if ws == [] then open != [] else !EndsSentence(Last(ws))
  }

  lemma {:induction false} GroupCounts(open: seq<string>, ws: seq<string>)
    requires AllAtomic(ws)
    ensures Terminated(Group(open, ws)) == EndCount(ws)
    ensures |Group(open, ws)| == EndCount(ws) + if EndsOpen(open, ws) then 1 else 0
    decreases |ws|
  {
    if ws == [] {
    } else if EndsSentence(ws[0]) {
      GroupCounts([], ws[1..]);
      assert Atomic(ws[0]);
      assert Group(open, ws)[1..] == Group([], ws[1..]);
      assert |ws| == 1 ==> EndsOpen([], ws[1..]) == EndsOpen(open, ws);
      assert |ws| > 1 ==> Last(ws[1..]) == Last(ws);
    } else {
      GroupCounts(open + [ws[0]], ws[1..]);
      assert |ws| > 1 ==> Last(ws[1..]) == Last(ws);
    }
  }

  /** The number of sentences is the number of terminators, plus one for a tail that is not blank. */
  lemma SentenceCount(s: string)
    ensures Terminated(Parse(s)) == DelimiterCount(s)
    ensures |Parse(s)| == DelimiterCount(s) + if HasTail(s) then 1 else 0
  {
    var ws := Words(s);
    WordsKeepText(s);
    EndsAreDelimiters(ws);
    DelimitersAreNotSpace(s);
    GroupCounts([], ws);
    if ws == [] {
      assert NonSpace(s) == [];
    } else {
      assert Atomic(Last(ws));
    }
  }

  // ---------- the admission check of a WRITE ----------

  /** The index test of handle_write_request: slots are counted on periods alone, over the whole file. */
  predicate Admits(bytes: string, index: int) {
    0 <= index < 1 + CharCount(bytes, '.')
  }

  /** The range test of lock_sentence_ll. */
  predicate InLockRange(d: Doc, index: int) {
    0 <= index <= |d|
  }

  lemma {:induction false} PeriodsAreDelimiters(s: string)
    ensures CharCount(s, '.') <= DelimiterCount(s)
    ensures DelimiterCount(s) == CharCount(s, '.') + CharCount(s, '!') + CharCount(s, '?')
  {
    if s != [] {
      PeriodsAreDelimiters(s[1..]);
    }
  }

  /**
   Admission lets through exactly the indices 0..periods, and loading gives at least that many sentences, so
   a freshly loaded text file never fails the lock's range test. The two tests agree on every index exactly
   when the file has no '!' or '?' and no tail.
   */
  lemma AdmissionRefinesLockRange(s: string)
    requires NUL !in s
    ensures forall i | Admits(s, i) :: InLockRange(Parse(CText(s)), i)
    ensures (forall i :: Admits(s, i) <==> InLockRange(Parse(CText(s)), i))
       <==> CharCount(s, '!') == 0 && CharCount(s, '?') == 0 && !HasTail(s)
  {
    CTextIdentity(s);
    SentenceCount(s);
    PeriodsAreDelimiters(s);
    var n := |Parse(s)|;
    assert InLockRange(Parse(CText(s)), n);
    assert Admits(s, n) <==> n == CharCount(s, '.');
  }

  /** The bytes from the first NUL on. */
  function BehindNul(bytes: string): string {
    CTextIsPrefix(bytes);
    bytes[|CText(bytes)|..]
  }

  /**
   For a file with a NUL byte the guarantee holds exactly when the periods hidden behind it do not outnumber
   the '!' and '?' before it and the tail.
   */
  lemma AdmissionWithNul(bytes: string)
    ensures (forall i | Admits(bytes, i) :: InLockRange(Parse(CText(bytes)), i))
       <==> CharCount(BehindNul(bytes), '.')
            <= CharCount(CText(bytes), '!') + CharCount(CText(bytes), '?') + if HasTail(CText(bytes)) then 1 else 0
  {
    var text := CText(bytes);
    CTextIsPrefix(bytes);
    assert bytes == text + BehindNul(bytes);
    CharCountAppend(text, BehindNul(bytes), '.');
    SentenceCount(text);
    PeriodsAreDelimiters(text);
    assert Admits(bytes, CharCount(bytes, '.'));
  }

  /** The periods the sync printer writes: those in the words, and one more per sentence that ends in one. */
  function Periods(d: Doc): nat {
    if d == [] then 0
    else CharCount(Concat(d[0].words), '.') + (if d[0].delim == '.' then 1 else 0) + Periods(d[1..])
  }

  lemma {:induction false} PrintSyncPeriods(d: Doc)
    ensures CharCount(PrintSync(d), '.') == Periods(d)
  {
    if d != [] {
      var words, t := Join(d[0].words), TerminatorText(d[0].delim);
      var rest := if |d| == 1 then "" else " " + PrintSync(d[1..]);
      PrintSyncPeriods(d[1..]);
      CharCountOfJoin(d[0].words, '.');
      CharCountAppend(words + t, rest, '.');
      CharCountAppend(words, t, '.');
      CharCountAppend(" ", PrintSync(d[1..]), '.');
    }
  }

  /**
   While a document is in memory the admission test reads the text it was synced to. It stays within the lock's
   range exactly while that text has no more periods than the document has sentences.
   */
  lemma AdmissionAfterSyncIff(d: Doc)
    ensures (forall i | Admits(PrintSync(d), i) :: InLockRange(d, i)) <==> Periods(d) <= |d|
  {
    PrintSyncPeriods(d);
    assert Admits(PrintSync(d), CharCount(PrintSync(d), '.'));
  }

  /** How many sentences end in a period. */
  function PeriodEnds(d: Doc): nat {
    if d == [] then 0 else (if d[0].delim == '.' then 1 else 0) + PeriodEnds(d[1..])
  }

  lemma {:induction false} NoPeriods(s: string)
    requires forall i | 0 <= i < |s| :: !IsDelimiter(s[i])
    ensures CharCount(s, '.') == 0
  {
    if s != [] { NoPeriods(s[1..]); }
  }

  lemma PeriodsOfWord(w: string)
    requires Atomic(w)
    ensures CharCount(w, '.') == if Last(w) == '.' then 1 else 0
  {
    NoPeriods(w[..|w| - 1]);
    CharCountAppend(w[..|w| - 1], [Last(w)], '.');
    assert w == w[..|w| - 1] + [Last(w)];
  }

  lemma {:induction false} PeriodsOfWords(ws: seq<string>)
    requires ws != [] && AllAtomic(ws) && forall i | 0 <= i < |ws| - 1 :: !EndsSentence(ws[i])
    ensures CharCount(Concat(ws), '.') == if Last(Last(ws)) == '.' then 1 else 0
  {
    PeriodsOfWord(ws[0]);
    CharCountAppend(ws[0], Concat(ws[1..]), '.');
    if |ws| > 1 { PeriodsOfWords(ws[1..]); }
  }

  lemma {:induction false} PeriodsOfCanonical(d: Doc)
    requires Canonical(d)
    ensures Periods(d) == 2 * PeriodEnds(d)
  {
    if d != [] {
      assert CanonicalSentence(d[0]);
      PeriodsOfWords(d[0].words);
      PeriodsOfCanonical(d[1..]);
    }
  }

  /**
   For a document as the parser leaves it, this holds exactly if at most half of its sentences end in a period:
   after a sync of "a. b. c." the admission test lets indices through that the lock refuses.
   */
  lemma AdmissionAfterSyncOfCanonicalIff(d: Doc)
    requires Canonical(d)
    ensures (forall i | Admits(PrintSync(d), i) :: InLockRange(d, i)) <==> 2 * PeriodEnds(d) <= |d|
  {
    AdmissionAfterSyncIff(d);
    PeriodsOfCanonical(d);
  }

  /** A document of one-word sentences that end in a period. */
  lemma {:induction false} PeriodSentences(ws: seq<string>) returns (d: Doc)
    requires forall i | 0 <= i < |ws| :: Atomic(ws[i]) && Last(ws[i]) == '.'
    ensures Canonical(d) && |d| == |ws| && PeriodEnds(d) == |ws| && PrintUndo(d) == Join(ws)
  {
    if ws == [] {
      d := [];
    } else {
      var rest := PeriodSentences(ws[1..]);
      var first := Unlocked([ws[0]], '.');
      d := [first] + rest;
      assert CanonicalSentence(first) && d[1..] == rest;
    }
  }

  /** After a sync of "a. b. c." the admission test lets index 6 through, and the lock refuses it. */
  lemma SyncAdmitsTooMuch()
    ensures var d := Parse("a. b. c.");
            Admits(PrintSync(d), 6) && !InLockRange(d, 6)
  {
    var ws := ["a.", "b.", "c."];
    assert ws[1..] == ["b.", "c."] && ws[1..][1..] == ["c."];
    assert Join(ws) == "a. b. c.";
    var d := PeriodSentences(ws);
    hide Parse, PrintUndo, PrintSync, Canonical, Join, PeriodEnds, Periods;
    CanonicalReloads(d);
    PeriodsOfCanonical(d);
    PrintSyncPeriods(d);
  }

  /** In "a", NUL, ".." the periods lie behind the NUL: index 2 is let through although there is one sentence. */
  lemma NulAdmitsTooMuch()
    ensures var bytes := ['a', NUL] + "..";
            Admits(bytes, 2) && !InLockRange(Parse(CText(bytes)), 2)
  {
    var bytes := ['a', NUL] + "..";
    assert bytes == "a" + ([NUL] + "..");
    CTextBeforeNul("a", [NUL] + "..");
    CharCountAppend(['a', NUL], "..", '.');
    assert ".."[1..] == "." && CharCount("..", '.') == 2;
    SentenceCount("a");
    assert DelimiterCount("a") == 0;
  }
}

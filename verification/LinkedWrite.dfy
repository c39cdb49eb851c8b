/**
 The list surgery of write_to_file_ll on the linked document: insert words behind a node, cut a chain, hang it
 behind another one, link new sentences. Each method is proved to compute the corresponding splice on values.
 */
module LinkedWrite {
  import opened Text
  import opened Document
  import opened LinkedDocument
  import opened LinkedInsert
  import opened NestedInsert
  import opened ParserLaws
  import opened Sequences

  // ---------- one sentence ----------

  /** s with ws inserted at position at. */
  function Spliced(s: seq<string>, at: nat, ws: seq<string>): seq<string>
    requires at <= |s|
  {
    s[..at] + ws + s[at..]
  }

  /** node is the k-th of the chain, null if k is 0. */
  ghost predicate NodeAt(ns: seq<WordNode>, k: nat, node: WordNode?) {
    k <= |ns| && node == if k == 0 then null else ns[k - 1]
  }

  /** Inserts words one after the other from position at on; prev is the node before that position. */
  method InsertRun(sent: SentenceNode, prev: WordNode?, ghost at: nat, words: seq<string>)
    returns (last: WordNode?, ghost end: nat)
    requires sent.Valid() && NodeAt(sent.spine, at, prev)
    requires forall i | 0 <= i < |words| :: |words[i]| <= WORD_LIMIT
    modifies sent`wordsHead, sent`spine, sent`words, sent`nodes, sent.nodes`next
    ensures sent.Valid() && fresh(sent.nodes - old(sent.nodes))
    ensures at <= |old(sent.words)| && sent.words == Spliced(old(sent.words), at, words)
    ensures end == at + |words| && NodeAt(sent.spine, end, last)
  {
    hide *;
    last := prev;
    SpineLength(sent);
    PositionFits(sent.spine, at, prev);
    SplicedEnds(sent.words, at, words);
    end := at;
    for i := 0 to |words|
      invariant sent.Valid() && fresh(sent.nodes - old(sent.nodes))
      invariant end == at + i && |sent.words| == |sent.spine|
      invariant sent.words == Spliced(old(sent.words), at, words[..i])
      invariant NodeAt(sent.spine, end, last)
    {
      InsertNext(old(sent.words), at, words, i);
      PositionFits(sent.spine, end, last);
      NextPosition(sent.spine, end);
      FitsBuffer(words[i]);
      last := sent.LinkAfter(last, end, words[i]);
      end := end + 1;
      SpineLength(sent);
      BehindNode(sent.spine, end, last);
    }
  }

  lemma SpineLength(sent: SentenceNode)
    requires sent.Valid()
    ensures |sent.words| == |sent.spine|
  {
  }

  lemma PositionFits(ns: seq<WordNode>, k: nat, node: WordNode?)
    requires NodeAt(ns, k, node)
    ensures k <= |ns| && node == if k == 0 then null else ns[k - 1]
  {
  }

  lemma NextPosition(ns: seq<WordNode>, k: nat)
    requires k <= |ns|
    ensures forall node {:trigger InsertAt(ns, k, node)} :: |InsertAt(ns, k, node)| == |ns| + 1
  {
  }

  lemma BehindNode(ns: seq<WordNode>, k: nat, node: WordNode)
    requires 0 < k <= |ns| && ns[k - 1] == node
    ensures NodeAt(ns, k, node)
  {
  }

  lemma FitsBuffer(w: string)
    requires |w| <= WORD_LIMIT
    ensures Truncate(w, WORD_LIMIT) == w
  {
  }

  lemma InsertNext(s: seq<string>, at: nat, ws: seq<string>, i: nat)
    requires i < |ws| && at <= |s|
    ensures |Spliced(s, at, ws[..i])| == |s| + i && |Spliced(s, at, ws[..i + 1])| == |s| + i + 1
    ensures InsertAt(Spliced(s, at, ws[..i]), at + i, ws[i]) == Spliced(s, at, ws[..i + 1])
  {
  }

  lemma SplicedEnds(s: seq<string>, at: nat, ws: seq<string>)
    requires at <= |s|
    ensures Spliced(s, at, ws[..0]) == s && Spliced(s, at, ws[..|ws|]) == Spliced(s, at, ws)
  {
    assert ws[..|ws|] == ws;
  }

  /** A chain of word nodes that is on no sentence; loose is the set of them. */
  ghost predicate Loose(head: WordNode?, tail: seq<WordNode>, loose: set<WordNode>)
    reads loose`next, loose`owner
  {
    && (forall i | 0 <= i < |tail| :: tail[i] in loose)
    && (forall w | w in loose :: w.owner == null)
    && WordChain(head, tail, loose)
  }

  ghost predicate Spells(tail: seq<WordNode>, ws: seq<string>) {
    |tail| == |ws| && forall i | 0 <= i < |tail| :: tail[i].word == ws[i]
  }

  /** Cuts the list behind node last; the nodes cut off belong to nobody until they are attached again. */
  method CutTail(sent: SentenceNode, last: WordNode, ghost k: nat)
    returns (remaining: WordNode?, ghost tail: seq<WordNode>, ghost loose: set<WordNode>)
    requires sent.Valid() && 0 < k && NodeAt(sent.spine, k, last)
    modifies sent`spine, sent`words, sent`nodes, sent.nodes`next, sent.nodes`owner
    ensures k <= |old(sent.words)| && sent.Valid() && sent.words == old(sent.words)[..k]
    ensures Loose(remaining, tail, loose) && Spells(tail, old(sent.words)[k..])
    ensures loose <= old(sent.nodes) && sent.nodes == old(sent.nodes) - loose
  {
    remaining := last.next;
    ghost var was, ws := sent.spine, sent.words;
    tail := was[k..];
    DistinctSplit(was, k);
    DistinctAt(was, k - 1);
    SpineCut(was, ws, k);
    loose := NodesCut(was, k, sent.nodes);
    hide Distinct, Spells;
    last.next := null;
    forall w | w in loose { w.owner := null; }
    sent.spine, sent.words, sent.nodes := was[..k], ws[..k], sent.nodes - loose;
    ChainCut(was, k, sent.nodes, loose);
    hide WordChain;
  }

  lemma SpineCut(ns: seq<WordNode>, ws: seq<string>, k: nat)
    requires k <= |ns| == |ws| && forall i | 0 <= i < |ns| :: ns[i].word == ws[i]
    requires forall i, j | 0 <= i < k <= j < |ns| :: ns[i] != ns[j]
    ensures Spells(ns[k..], ws[k..])
    ensures forall i | 0 <= i < k :: ns[..k][i] == ns[i] && ws[..k][i] == ns[..k][i].word
  {
  }

  /** The nodes behind the k-th, as a set. */
  lemma NodesCut(ns: seq<WordNode>, k: nat, nodes: set<WordNode>) returns (loose: set<WordNode>)
    requires k <= |ns| && forall i | 0 <= i < |ns| :: ns[i] in nodes
    requires forall i, j | 0 <= i < k <= j < |ns| :: ns[i] != ns[j]
    ensures loose <= nodes
    ensures forall i | 0 <= i < k :: ns[..k][i] in nodes - loose
    ensures forall i | 0 <= i < |ns| - k :: ns[k..][i] in loose
  {
    loose := set w | w in ns[k..];
  }

  /** A chain cut behind its k-th node is two chains. */
  lemma ChainCut(ns: seq<WordNode>, k: nat, front: set<WordNode>, back: set<WordNode>)
    requires 0 < k <= |ns| && Distinct(ns[..k]) && Distinct(ns[k..])
    requires ns[k - 1].next == null && (k < |ns| ==> Last(ns).next == null)
    requires forall i {:trigger ns[i].next} | 0 <= i < |ns| - 1 && i != k - 1 :: ns[i].next == ns[i + 1]
    requires forall i | 0 <= i < k :: ns[..k][i] in front
    requires forall i | 0 <= i < |ns| - k :: ns[k..][i] in back
    ensures WordChain(ns[0], ns[..k], front)
    ensures WordChain(if k < |ns| then ns[k] else null, ns[k..], back)
  {
    var a, b := ns[..k], ns[k..];
    forall i {:trigger a[i].next} | 0 <= i < |a| - 1 ensures a[i].next == a[i + 1] {
      assert a[i] == ns[i] && a[i + 1] == ns[i + 1];
    }
    forall i {:trigger b[i].next} | 0 <= i < |b| - 1 ensures b[i].next == b[i + 1] {
      assert b[i] == ns[k + i] && b[i + 1] == ns[k + i + 1];
    }
  }

  /** Hangs a loose chain behind node last, the end of the sentence. */
  method AttachTail(sent: SentenceNode, last: WordNode?, remaining: WordNode?, ghost tail: seq<WordNode>,
                    ghost loose: set<WordNode>, ghost ws: seq<string>)
    requires sent.Valid() && NodeAt(sent.spine, |sent.spine|, last)
    requires Loose(remaining, tail, loose) && Spells(tail, ws) && loose !! sent.nodes
    modifies sent`wordsHead, sent`spine, sent`words, sent`nodes, sent.nodes`next, loose`owner
    ensures sent.Valid() && sent.words == old(sent.words) + ws
    ensures sent.nodes == old(sent.nodes) + loose
  {
    ghost var was := sent.spine;
    NodesJoin(was, tail, sent.nodes, loose, sent.words, ws);
    DistinctJoin(was, tail);
    if was != [] { DistinctAt(was, |was| - 1); }
    hide Distinct, Spells;
    if last == null {
      sent.wordsHead := remaining;
    } else {
      last.next := remaining;
    }
    forall w | w in loose { w.owner := sent; }
    sent.spine, sent.words, sent.nodes := was + tail, sent.words + ws, sent.nodes + loose;
    ChainJoin(sent.wordsHead, was, remaining, tail, sent.nodes);
    hide WordChain;
  }

  /** Two runs of nodes on disjoint sets, as one run. */
  lemma NodesJoin(a: seq<WordNode>, b: seq<WordNode>, nodes: set<WordNode>, loose: set<WordNode>, u: seq<string>,
                  v: seq<string>)
    requires (forall i | 0 <= i < |a| :: a[i] in nodes) && (forall i | 0 <= i < |b| :: b[i] in loose) && nodes !! loose
    requires |a| == |u| && (forall i | 0 <= i < |a| :: a[i].word == u[i]) && Spells(b, v)
    ensures forall i, j | 0 <= i < |a| && 0 <= j < |b| :: a[i] != b[j]
    ensures forall i | 0 <= i < |a + b| :: (a + b)[i] in nodes + loose
    ensures |a + b| == |u + v| && forall i | 0 <= i < |a + b| :: (a + b)[i].word == (u + v)[i]
  {
  }

  /** Two chains linked one behind the other are one chain. */
  lemma ChainJoin(head: WordNode?, a: seq<WordNode>, middle: WordNode?, b: seq<WordNode>, nodes: set<WordNode>)
    requires Distinct(a + b) && forall i | 0 <= i < |a + b| :: (a + b)[i] in nodes
    requires forall i {:trigger a[i].next} | 0 <= i < |a| - 1 :: a[i].next == a[i + 1]
    requires forall i {:trigger b[i].next} | 0 <= i < |b| - 1 :: b[i].next == b[i + 1]
    requires if a == [] then head == middle else head == a[0] && Last(a).next == middle
    requires if b == [] then middle == null else middle == b[0] && Last(b).next == null
    ensures WordChain(head, a + b, nodes)
  {
    var r := a + b;
    forall i {:trigger r[i].next} | 0 <= i < |r| - 1 ensures r[i].next == r[i + 1] {
      if i < |a| {
        assert r[i] == a[i];
      } else {
        assert r[i] == b[i - |a|] && r[i + 1] == b[i + 1 - |a|];
      }
    }
  }

  // ---------- the file around it ----------

  function WordsSet(d: Doc, k: nat, ws: seq<string>): (r: Doc)
    requires k < |d|
    ensures |r| == |d|
  {
    d[k := d[k].(words := ws)]
  }

  function DelimSet(d: Doc, k: nat, delim: char): (r: Doc)
    requires k < |d|
    ensures |r| == |d|
  {
    d[k := d[k].(delim := delim)]
  }

  /** The target after the first group went in. */
  function WithFirst(d: Doc, k: nat, wi: nat, g: WordGroup): (r: Doc)
    requires k < |d| && wi <= |d[k].words|
    ensures |r| == |d|
  {
    var e := WordsSet(d, k, Spliced(d[k].words, wi, g.words));
    if g.delim != NUL then DelimSet(e, k, g.delim) else e
  }

  method InsertWords(file: LoadedFile, ghost k: nat, target: SentenceNode, prev: WordNode?, ghost at: nat,
                     words: seq<string>) returns (last: WordNode?, ghost end: nat)
    requires file.WellFormed() && k < |file.sents| && target == file.sents[k]
    requires NodeAt(target.spine, at, prev) && forall i | 0 <= i < |words| :: |words[i]| <= WORD_LIMIT
    modifies file`doc, file`nodes, target`wordsHead, target`spine, target`words, target`nodes, target.nodes`next
    ensures file.WellFormed() && fresh(file.nodes - old(file.nodes))
    ensures old(file.nodes) <= file.nodes && target.nodes <= file.nodes
    ensures fresh(target.nodes - old(target.nodes))
    ensures k < |old(file.doc)| && at <= |old(file.doc)[k].words|
    ensures file.doc == WordsSet(old(file.doc), k, Spliced(old(file.doc)[k].words, at, words))
    ensures end == at + |words| && NodeAt(target.spine, end, last)
  {
    hide SentenceNode.Valid, Distinct, SentenceChain, Spliced, NodeAt;
    file.OtherSentences(k);
    last, end := InsertRun(target, prev, at, words);
    file.doc, file.nodes := WordsSet(file.doc, k, target.words), file.nodes + target.nodes;
  }

  method CutSentence(file: LoadedFile, ghost k: nat, target: SentenceNode, last: WordNode, ghost at: nat)
    returns (remaining: WordNode?, ghost tail: seq<WordNode>, ghost loose: set<WordNode>)
    requires file.WellFormed() && k < |file.sents| && target == file.sents[k]
    requires 0 < at && NodeAt(target.spine, at, last)
    modifies file`doc, file`nodes, target`spine, target`words, target`nodes, target.nodes`next, target.nodes`owner
    ensures file.WellFormed() && file.nodes == old(file.nodes) - loose
    ensures at <= |old(target.words)| && file.doc == WordsSet(old(file.doc), k, old(target.words)[..at])
    ensures Loose(remaining, tail, loose) && Spells(tail, old(target.words)[at..])
    ensures loose <= old(target.nodes) && target.nodes == old(target.nodes) - loose
  {
    hide SentenceNode.Valid, Loose, Spells, Distinct, SentenceChain, NodeAt;
    file.OtherSentences(k);
    remaining, tail, loose := CutTail(target, last, at);
    file.doc, file.nodes := WordsSet(file.doc, k, target.words), file.nodes - loose;
  }

  /** Links sentence s behind position k of the list. */
  method LinkBehind(file: LoadedFile, ghost k: nat, current: SentenceNode, s: SentenceNode)
    requires file.WellFormed() && k < |file.sents| && current == file.sents[k]
    requires s.Valid() && s !in file.sents
    modifies file`sents, file`doc, file`nodes, file`sentenceCount, current`next, s`next
    ensures file.WellFormed() && file.sents == InsertAt(old(file.sents), k + 1, s)
    ensures file.doc == InsertAt(old(file.doc), k + 1, s.Value())
    ensures file.nodes == old(file.nodes) + s.nodes && file.sentenceCount == old(file.sentenceCount) + 1
  {
    hide SentenceNode.Valid, SentenceNode.Value, Distinct, InsertAt;
    ghost var was := file.sents;
    DistinctInsert(was, k + 1, s);
    DistinctAt(was, k);
    s.next := current.next;
    current.next := s;
    file.sents, file.doc := InsertAt(was, k + 1, s), InsertAt(file.doc, k + 1, s.Value());
    file.nodes := file.nodes + s.nodes;
    file.sentenceCount := file.sentenceCount + 1;
    SentencesLinked(was, k + 1, s);
    InsertAtIndices(was, k + 1, s);
    InsertAtIndices(old(file.doc), k + 1, s.Value());
  }

  lemma SentencesLinked(ss: seq<SentenceNode>, k: nat, s: SentenceNode)
    requires 0 < k <= |ss| && (k < |ss| ==> Last(ss).next == null)
    requires forall i {:trigger ss[i].next} | 0 <= i < |ss| - 1 && i != k - 1 :: ss[i].next == ss[i + 1]
    requires ss[k - 1].next == s && s.next == if k < |ss| then ss[k] else null
    ensures var r := InsertAt(ss, k, s);
            && |r| == |ss| + 1 && r[0] == ss[0] && Last(r).next == null
            && forall i {:trigger r[i].next} | 0 <= i < |r| - 1 :: r[i].next == r[i + 1]
  {
    var r := InsertAt(ss, k, s);
    forall i {:trigger r[i].next} | 0 <= i < |r| - 1 ensures r[i].next == r[i + 1] {
      if i < k - 1 {
        assert r[i] == ss[i] && r[i + 1] == ss[i + 1];
      } else if i > k {
        assert r[i] == ss[i - 1] && r[i + 1] == ss[i];
      }
    }
  }

  method SetDelimiter(file: LoadedFile, ghost k: nat, target: SentenceNode, delim: char)
    requires file.WellFormed() && k < |file.sents| && target == file.sents[k]
    modifies file`doc, target`delimiter
    ensures file.WellFormed() && k < |old(file.doc)| && file.doc == DelimSet(old(file.doc), k, delim)
  {
    hide SentenceNode.Valid, Distinct;
    file.OtherSentences(k);
    target.delimiter := delim;
    file.doc := DelimSet(file.doc, k, delim);
  }

  /** get_word_at_index: the node before position at. */
  method NodeBefore(sent: SentenceNode, at: nat) returns (prev: WordNode?)
    requires sent.Valid() && at <= |sent.words|
    ensures NodeAt(sent.spine, at, prev)
  {
    prev := null;
    var word := sent.wordsHead;
    var current := 0;
    while word != null && current < at
      invariant current <= at && word == if current < |sent.spine| then sent.spine[current] else null
      invariant prev == if current == 0 then null else sent.spine[current - 1]
      decreases at - current
    {
      prev := word;
      word := word.next;
      current := current + 1;
    }
  }

  /** A sentence for one further group, not linked yet. */
  method BuildSentence(words: seq<string>, delim: char) returns (s: SentenceNode, last: WordNode?)
    requires forall i | 0 <= i < |words| :: |words[i]| <= WORD_LIMIT
    ensures fresh(s) && fresh(s.nodes) && s.Valid() && s.Value() == Unlocked(words, delim) && s.next == null
    ensures NodeAt(s.spine, |s.spine|, last)
  {
    s := new SentenceNode(delim);
    BuildingStarts(s, delim, words);
    hide *;
    ghost var end;
    last, end := InsertRun(s, null, 0, words);
    SpineLength(s);
    BuildingEnds(s, words, delim);
  }

  lemma BuildingStarts(s: SentenceNode, delim: char, words: seq<string>)
    requires s.Valid() && s.spine == [] && s.Value() == Unlocked([], delim)
    ensures NodeAt(s.spine, 0, null) && s.words == [] && Spliced([], 0, words) == words
    ensures s.delimiter == delim && !s.isLocked
  {
    assert Spliced([], 0, words) == words;
  }

  lemma BuildingEnds(s: SentenceNode, words: seq<string>, delim: char)
    requires s.words == words && s.delimiter == delim && !s.isLocked
    ensures s.Value() == Unlocked(words, delim)
  {
  }

  /** The sentence for the last group takes the cut-off words, and a terminator if it has none. */
  method FinishLast(s: SentenceNode, last: WordNode?, remaining: WordNode?, ghost tail: seq<WordNode>,
                    ghost loose: set<WordNode>, ghost after: seq<string>, firstDelim: char)
    requires s.Valid() && NodeAt(s.spine, |s.spine|, last)
    requires Loose(remaining, tail, loose) && Spells(tail, after) && loose !! s.nodes
    modifies s`wordsHead, s`spine, s`words, s`nodes, s`delimiter, s.nodes`next, loose`owner
    ensures s.Valid() && s.nodes <= old(s.nodes) + loose
    ensures s.Value() == old(s.Value()).(words := old(s.words) + after,
              delim := if old(s.delimiter) == NUL && after != [] then firstDelim else old(s.delimiter))
  {
    if remaining != null {
      AttachTail(s, last, remaining, tail, loose, after);
      if s.delimiter == NUL { s.delimiter := firstDelim; }
    } else {
      assert after == [] && s.words + [] == s.words;
    }
  }

  // ---------- inserting the groups ----------

  /** The first group goes into the target sentence; last is the node of its last word. */
  method InsertFirst(file: LoadedFile, ghost k: nat, target: SentenceNode, wi: nat, g: WordGroup)
    returns (last: WordNode?, ghost end: nat)
    requires file.WellFormed() && k < |file.sents| && target == file.sents[k] && wi <= |file.doc[k].words|
    requires Bounded(g)
    modifies file`doc, file`nodes, target`wordsHead, target`spine, target`words, target`nodes, target`delimiter,
             target.nodes`next
    ensures file.WellFormed() && fresh(file.nodes - old(file.nodes)) && fresh(target.nodes - old(target.nodes))
    ensures file.doc == WithFirst(old(file.doc), k, wi, g)
    ensures end == wi + |g.words| && NodeAt(target.spine, end, last)
  {
    hide *;
    TargetWords(file, k);
    FirstParts(file.doc, k, wi, g);
    var prev := NodeBefore(target, wi);
    last, end := InsertWords(file, k, target, prev, wi, g.words);
    if g.delim != NUL {
      SetDelimiter(file, k, target, g.delim);
    }
  }

  lemma FirstParts(d: Doc, k: nat, wi: nat, g: WordGroup)
    requires k < |d| && wi <= |d[k].words|
    ensures var e := WordsSet(d, k, Spliced(d[k].words, wi, g.words));
            WithFirst(d, k, wi, g) == if g.delim != NUL then DelimSet(e, k, g.delim) else e
    ensures Bounded(g) ==> forall i | 0 <= i < |g.words| :: |g.words[i]| <= WORD_LIMIT
  {
  }

  lemma TargetWords(file: LoadedFile, k: nat)
    requires file.WellFormed() && k < |file.sents|
    ensures |file.doc| == |file.sents| && file.sents[k].Valid() && file.sents[k].words == file.doc[k].words
    ensures file.sents[k].nodes <= file.nodes && file.sents[k].delimiter == file.doc[k].delim
  {
  }

  // ---------- the further groups ----------

  /** The words cut off the target, waiting for the last new sentence. */
  ghost predicate Waiting(file: LoadedFile, remaining: WordNode?, tail: seq<WordNode>, loose: set<WordNode>,
                          after: seq<string>)
    reads file, loose`next, loose`owner
  {
    Loose(remaining, tail, loose) && Spells(tail, after) && loose !! file.nodes
  }

  /** The sentence a further group becomes. */
  function GroupSentence(g: WordGroup, isLast: bool, after: seq<string>, firstDelim: char): Sentence {
    if isLast then Unlocked(g.words + after, if g.delim == NUL && after != [] then firstDelim else g.delim)
    else Unlocked(g.words, g.delim)
  }

  ghost predicate SentenceIs(ss: seq<SentenceNode>, k: nat, s: SentenceNode) {
    k < |ss| && s == ss[k]
  }

  /** One round of the loop over the further groups. */
  method AddGroup(file: LoadedFile, ghost pos: nat, current: SentenceNode, g: WordGroup, isLast: bool,
                  remaining: WordNode?, ghost tail: seq<WordNode>, ghost loose: set<WordNode>,
                  ghost after: seq<string>, firstDelim: char)
    returns (s: SentenceNode)
    requires file.WellFormed() && SentenceIs(file.sents, pos, current)
    requires Bounded(g)
    requires Waiting(file, remaining, tail, loose, after)
    modifies file`sents, file`doc, file`nodes, file`sentenceCount, current`next, loose`owner
    ensures file.sentenceCount == old(file.sentenceCount) + 1
    ensures file.WellFormed() && fresh(s)
    ensures SentenceIs(file.sents, pos + 1, s)
    ensures file.doc == InsertAt(old(file.doc), pos + 1, GroupSentence(g, isLast, after, firstDelim))
    ensures !isLast ==> Waiting(file, remaining, tail, loose, after)
  {
    hide LoadedFile.WellFormed, SentenceNode.Valid, Loose, Spells;
    var last;
    s, last := BuildSentence(g.words, g.delim);
    if isLast {
      FinishLast(s, last, remaining, tail, loose, after, firstDelim);
    }
    LinkBehind(file, pos, current, s);
  }

  predicate Bounded(g: WordGroup) {
    forall i | 0 <= i < |g.words| :: |g.words[i]| <= WORD_LIMIT
  }

  ghost predicate AllBounded(gs: seq<WordGroup>) {
    forall i | 0 <= i < |gs| :: Bounded(gs[i])
  }

  function SpliceDoc(d: Doc, i: nat, r: Doc): (e: Doc)
    requires i <= |d|
    ensures |e| == |d| + |r|
  {
    d[..i] + r + d[i..]
  }

  /** The first n of the new sentences. */
  function NewPrefix(gs: seq<WordGroup>, after: seq<string>, firstDelim: char, n: nat): (r: Doc)
    requires n <= |gs|
    ensures |r| == n
  {
    if n == 0 then []
    else NewPrefix(gs, after, firstDelim, n - 1) + [GroupSentence(gs[n - 1], n == |gs|, after, firstDelim)]
  }

  lemma {:induction false} NewPrefixShift(gs: seq<WordGroup>, after: seq<string>, firstDelim: char, n: nat)
    requires 0 < n <= |gs| && |gs| > 1
    ensures NewPrefix(gs, after, firstDelim, n)
         == [Unlocked(gs[0].words, gs[0].delim)] + NewPrefix(gs[1..], after, firstDelim, n - 1)
  {
    if n > 1 {
      NewPrefixShift(gs, after, firstDelim, n - 1);
      assert gs[1..][n - 2] == gs[n - 1];
    }
  }

  lemma {:induction false} AllNewSentences(gs: seq<WordGroup>, after: seq<string>, firstDelim: char)
    requires gs != []
    ensures NewPrefix(gs, after, firstDelim, |gs|) == NewSentences(gs, after, firstDelim)
  {
    if |gs| > 1 {
      NewPrefixShift(gs, after, firstDelim, |gs|);
      AllNewSentences(gs[1..], after, firstDelim);
    } else {
      assert NewPrefix(gs, after, firstDelim, 0) == [];
    }
  }

  lemma PrefixNext(d: Doc, i: nat, gs: seq<WordGroup>, after: seq<string>, firstDelim: char, n: nat)
    requires i <= |d| && n < |gs|
    ensures |SpliceDoc(d, i, NewPrefix(gs, after, firstDelim, n))| == |d| + n
    ensures InsertAt(SpliceDoc(d, i, NewPrefix(gs, after, firstDelim, n)), i + n,
                     GroupSentence(gs[n], n == |gs| - 1, after, firstDelim))
         == SpliceDoc(d, i, NewPrefix(gs, after, firstDelim, n + 1))
  {
  }

  lemma PrefixNone(d: Doc, i: nat, gs: seq<WordGroup>, after: seq<string>, firstDelim: char)
    requires i <= |d|
    ensures SpliceDoc(d, i, NewPrefix(gs, after, firstDelim, 0)) == d
  {
  }

  /** After g rounds: the first g new sentences are linked behind position k, and current is the last of them. */
  ghost predicate Linked(file: LoadedFile, d: Doc, k: nat, current: SentenceNode, gs: seq<WordGroup>,
                         after: seq<string>, firstDelim: char, g: nat)
    reads file, file.sents, file.nodes
  {
    && file.WellFormed() && g <= |gs| && k < |d|
    && SentenceIs(file.sents, k + g, current)
    && file.doc == SpliceDoc(d, k + 1, NewPrefix(gs, after, firstDelim, g))
  }

  /** Round g of the loop over the further groups. */
  method AddGroupRound(file: LoadedFile, ghost d: Doc, ghost k: nat, current: SentenceNode, gs: seq<WordGroup>, g: nat,
                       remaining: WordNode?, ghost tail: seq<WordNode>, ghost loose: set<WordNode>,
                       ghost after: seq<string>, firstDelim: char)
    returns (s: SentenceNode)
    requires g < |gs| && Bounded(gs[g]) && Linked(file, d, k, current, gs, after, firstDelim, g)
    requires Waiting(file, remaining, tail, loose, after)
    modifies file`sents, file`doc, file`nodes, file`sentenceCount, current`next, loose`owner
    ensures file.sentenceCount == old(file.sentenceCount) + 1
    ensures Linked(file, d, k, s, gs, after, firstDelim, g + 1) && fresh(s)
    ensures g + 1 < |gs| ==> Waiting(file, remaining, tail, loose, after)
  {
    hide LoadedFile.WellFormed, SentenceNode.Valid, Waiting, SpliceDoc, InsertAt, NewPrefix, GroupSentence;
    PrefixNext(d, k + 1, gs, after, firstDelim, g);
    s := AddGroup(file, k + g, current, gs[g], g == |gs| - 1, remaining, tail, loose, after, firstDelim);
  }

  /** The loop over the further groups: one new sentence each, linked in order behind the target. */
  method AddGroups(file: LoadedFile, ghost k: nat, target: SentenceNode, gs: seq<WordGroup>,
                   remaining: WordNode?, ghost tail: seq<WordNode>, ghost loose: set<WordNode>,
                   ghost after: seq<string>)
    requires file.WellFormed() && k < |file.sents| && target == file.sents[k]
    requires gs != [] && AllBounded(gs) && Waiting(file, remaining, tail, loose, after)
    modifies file`sents, file`doc, file`nodes, file`sentenceCount, target`next, loose`owner
    ensures file.sentenceCount == old(file.sentenceCount) + |gs|
    ensures file.WellFormed()
    ensures k < |old(file.doc)|
    ensures file.doc == SpliceDoc(old(file.doc), k + 1, NewSentences(gs, after, target.delimiter))
  {
    hide *;
    NoneLinked(file, k, target, gs, after);
    ghost var d := file.doc;
    var firstDelim := target.delimiter;
    var current := target;
    for g := 0 to |gs|
      invariant Linked(file, d, k, current, gs, after, firstDelim, g) && (current == target || fresh(current))
      invariant file.sentenceCount == old(file.sentenceCount) + g
      invariant g < |gs| ==> Waiting(file, remaining, tail, loose, after)
    {
      BoundedAt(gs, g);
      current := AddGroupRound(file, d, k, current, gs, g, remaining, tail, loose, after, firstDelim);
    }
    LinkedAll(file, d, k, current, gs, after, firstDelim);
  }

  lemma BoundedAt(gs: seq<WordGroup>, g: nat)
    requires AllBounded(gs) && g < |gs|
    ensures Bounded(gs[g])
  {
  }

  lemma NoneLinked(file: LoadedFile, k: nat, target: SentenceNode, gs: seq<WordGroup>, after: seq<string>)
    requires file.WellFormed() && k < |file.sents| && target == file.sents[k]
    ensures Linked(file, file.doc, k, target, gs, after, target.delimiter, 0)
  {
    PrefixNone(file.doc, k + 1, gs, after, target.delimiter);
  }

  lemma LinkedAll(file: LoadedFile, d: Doc, k: nat, current: SentenceNode, gs: seq<WordGroup>,
                  after: seq<string>, firstDelim: char)
    requires gs != [] && Linked(file, d, k, current, gs, after, firstDelim, |gs|)
    ensures file.WellFormed() && k < |d| && file.doc == SpliceDoc(d, k + 1, NewSentences(gs, after, firstDelim))
  {
    AllNewSentences(gs, after, firstDelim);
  }

  // ---------- write_to_file_ll ----------

  lemma {:induction false} GroupsAreBounded(open: seq<string>, s: string)
    requires forall i | 0 <= i < |open| :: |open[i]| <= WORD_LIMIT
    ensures AllBounded(GroupItems(open, Items(s)))
    decreases |s|, 0
  {
    if s == [] {
    } else if s[0] == '\n' {
      GroupsAreBounded([], s[1..]);
    } else if IsSpace(s[0]) {
      GroupsAreBounded(open, s[1..]);
    } else {
      var n := RunLength(s, WORD_LIMIT);
      RunIsNonSpace(s, WORD_LIMIT);
      PartsAreAtomic("", s[..n]);
      BoundedParts(open, Parts(s[..n]), s[n..]);
    }
  }

  lemma {:induction false} BoundedParts(open: seq<string>, ws: seq<string>, rest: string)
    requires forall i | 0 <= i < |open| :: |open[i]| <= WORD_LIMIT
    requires AllAtomic(ws)
    ensures AllBounded(GroupItems(open, WordItems(ws) + Items(rest)))
    decreases |rest|, 1 + |ws|
  {
    if ws == [] {
      assert WordItems(ws) + Items(rest) == Items(rest);
      GroupsAreBounded(open, rest);
    } else {
      assert Atomic(ws[0]);
      WordItemsCons(ws[0], ws[1..], Items(rest));
      assert [ws[0]] + ws[1..] == ws;
      var items := WordItems(ws) + Items(rest);
      assert items[0] == Word(ws[0]) && items[1..] == WordItems(ws[1..]) + Items(rest);
      BoundedParts(if EndsSentence(ws[0]) then [] else open + [ws[0]], ws[1..], rest);
    }
  }

  lemma OneGroup(d: Doc, k: nat, wi: nat, g: WordGroup)
    requires k < |d| && wi <= |d[k].words|
    ensures var r := ReplaceAt(d, k, SplitSentence(d[k], wi, [g]));
            r == if g.delim == NUL then WithFirst(d, k, wi, g)
                 else InsertAt(WithFirst(d, k, wi, g), k + 1, Unlocked([], NUL))
  {
  }

  lemma SeveralGroups(d: Doc, k: nat, wi: nat, gs: seq<WordGroup>)
    requires k < |d| && wi <= |d[k].words| && |gs| > 1 && gs[0].delim != NUL
    ensures var e := WithFirst(d, k, wi, gs[0]);
            && wi + |gs[0].words| <= |e[k].words|
            && e[k].words[wi + |gs[0].words|..] == d[k].words[wi..] && e[k].delim == gs[0].delim
            && ReplaceAt(d, k, SplitSentence(d[k], wi, gs))
               == SpliceDoc(WordsSet(e, k, e[k].words[..wi + |gs[0].words|]), k + 1,
                            NewSentences(gs[1..], d[k].words[wi..], gs[0].delim))
  {
    var e := WithFirst(d, k, wi, gs[0]);
    var after := d[k].words[wi..];
    assert e[k].words[..wi + |gs[0].words|] == d[k].words[..wi] + gs[0].words;
    var first := d[k].(words := d[k].words[..wi] + gs[0].words, delim := gs[0].delim);
    var news := NewSentences(gs[1..], after, gs[0].delim);
    assert SplitSentence(d[k], wi, gs) == [first] + news;
    assert WordsSet(e, k, e[k].words[..wi + |gs[0].words|]) == d[k := first];
    assert d[..k] + ([first] + news) + d[k + 1..] == d[k := first][..k + 1] + news + d[k := first][k + 1..];
  }

  /** Cuts the target behind the inserted words and puts the further groups after it. */
  method SplitTarget(file: LoadedFile, ghost k: nat, target: SentenceNode, last: WordNode, ghost end: nat,
                     gs: seq<WordGroup>)
    requires file.WellFormed() && k < |file.sents| && target == file.sents[k]
    requires 0 < end && NodeAt(target.spine, end, last) && gs != [] && AllBounded(gs)
    modifies file`sents, file`doc, file`nodes, file`sentenceCount, target, target.nodes
    ensures file.WellFormed() && file.sentenceCount == old(file.sentenceCount) + |gs|
    ensures k < |old(file.doc)| && end <= |old(file.doc)[k].words|
    ensures var d := old(file.doc);
            file.doc == SpliceDoc(WordsSet(d, k, d[k].words[..end]), k + 1,
                                  NewSentences(gs, d[k].words[end..], d[k].delim))
  {
    hide *;
    TargetWords(file, k);
    var remaining; ghost var tail, loose;
    remaining, tail, loose := CutSentence(file, k, target, last, end);
    CutWaits(file, remaining, tail, loose, old(file.doc)[k].words[end..]);
    AddGroups(file, k, target, gs, remaining, tail, loose, old(file.doc)[k].words[end..]);
  }

  lemma CutWaits(file: LoadedFile, remaining: WordNode?, tail: seq<WordNode>, loose: set<WordNode>, after: seq<string>)
    requires Loose(remaining, tail, loose) && Spells(tail, after) && loose !! file.nodes
    ensures Waiting(file, remaining, tail, loose, after)
  {
  }
}

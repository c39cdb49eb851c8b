/**
 The document as the server really stores it: a linked list of sentence nodes, each with a linked list of
 word nodes. Every method is proved to compute the function of the same step in Document and DocumentOps.
 Ghost fields carry the value of the list (words of a sentence, sentences of a file); Valid ties them to the
 nodes.
 */
module LinkedDocument {
  import opened Text
  import opened Document
  import opened DocumentOps
  import opened Editing
  import opened Sequences

  class WordNode {
    const word: string
    var next: WordNode?
    ghost var owner: SentenceNode?  // the sentence whose list the node is on

    constructor (text: string)
      ensures word == Truncate(text, WORD_LIMIT) && next == null
    {
      word := Truncate(text, WORD_LIMIT);
      next := null;
    }
  }

  /** head leads through exactly the nodes ns. */
  ghost predicate WordChain(head: WordNode?, ns: seq<WordNode>, nodes: set<WordNode>)
    requires forall i | 0 <= i < |ns| :: ns[i] in nodes
    reads nodes`next
  {
    && (if ns == [] then head == null else head == ns[0] && Last(ns).next == null)
    && (forall i {:trigger ns[i].next} | 0 <= i < |ns| - 1 :: ns[i].next == ns[i + 1])
    && Distinct(ns)
  }

  lemma InsertAtIndices<T>(s: seq<T>, k: nat, x: T)
    requires k <= |s|
    ensures |InsertAt(s, k, x)| == |s| + 1 && InsertAt(s, k, x)[k] == x
    ensures forall i | 0 <= i <= |s| && i != k :: InsertAt(s, k, x)[i] == s[if i < k then i else i - 1]
  {
  }

  /** Linking node behind position k - 1 and to position k makes a chain of all of them. */
  lemma ChainWithNode(ns: seq<WordNode>, k: nat, node: WordNode)
    requires k <= |ns| && (k < |ns| ==> Last(ns).next == null)
    requires forall i {:trigger ns[i].next} | 0 <= i < |ns| - 1 && i != k - 1 :: ns[i].next == ns[i + 1]
    requires k > 0 ==> ns[k - 1].next == node
    requires node.next == if k < |ns| then ns[k] else null
    ensures var r := InsertAt(ns, k, node);
            && |r| == |ns| + 1 && (k > 0 ==> r[0] == ns[0]) && (k == 0 ==> r[0] == node) && Last(r).next == null
            && forall i {:trigger r[i].next} | 0 <= i < |r| - 1 :: r[i].next == r[i + 1]
  {
    var r := InsertAt(ns, k, node);
    forall i {:trigger r[i].next} | 0 <= i < |r| - 1 ensures r[i].next == r[i + 1] {
      if i < k - 1 {
        assert r[i] == ns[i] && r[i + 1] == ns[i + 1];
      } else if i > k {
        assert r[i] == ns[i - 1] && r[i + 1] == ns[i];
      }
    }
  }

  class SentenceNode {
    var wordsHead: WordNode?
    var delimiter: char
    var isLocked: bool
    var lockedBy: string
    var next: SentenceNode?
    ghost var spine: seq<WordNode>
    ghost var words: seq<string>
    ghost var nodes: set<WordNode>  // the nodes on the spine

    ghost predicate Valid()
      reads this`wordsHead, this`spine, this`words, this`nodes, nodes`next, nodes`owner
    {
      && (forall i | 0 <= i < |spine| :: spine[i] in nodes)
      && (forall w | w in nodes :: w.owner == this)
      && WordChain(wordsHead, spine, nodes)
      && |words| == |spine|
      && forall i | 0 <= i < |spine| :: spine[i].word == words[i]
    }

    ghost function Value(): Sentence
      reads this`words, this`delimiter, this`isLocked, this`lockedBy
    {
      Sentence(words, delimiter, if isLocked then Some(lockedBy) else None)
    }

    constructor (delimiter: char)
      ensures Valid() && nodes == {} && spine == [] && next == null
      ensures Value() == Unlocked([], delimiter)
    {
      this.wordsHead, this.delimiter, this.next := null, delimiter, null;
      this.isLocked, this.lockedBy := false, "";
      this.spine, this.words, this.nodes := [], [], {};
    }

    method CountWords() returns (count: nat)
      requires Valid()
      ensures count == |words|
    {
      count := 0;
      var word := wordsHead;
      while word != null
        invariant count <= |spine|
        invariant word == if count < |spine| then spine[count] else null
        decreases |spine| - count
      {
        count := count + 1;
        word := word.next;
      }
    }

    /** Links a new node behind prev, or at the head if prev is null; k is the position of the new node. */
    method LinkAfter(prev: WordNode?, ghost k: nat, text: string) returns (node: WordNode)
      requires Valid() && k <= |spine|
      requires prev == if k == 0 then null else spine[k - 1]
      modifies this`wordsHead, this`spine, this`words, this`nodes, nodes`next
      ensures Valid() && fresh(node) && nodes == old(nodes) + {node}
      ensures spine == InsertAt(old(spine), k, node) && |spine| == |old(spine)| + 1 && spine[k] == node
      ensures words == InsertAt(old(words), k, Truncate(text, WORD_LIMIT))
    {
      hide Distinct, InsertAt;
      node := new WordNode(text);
      node.owner := this;
      ghost var was := spine;
      DistinctInsert(was, k, node);
      if k > 0 { DistinctAt(was, k - 1); }
      if prev == null {
        node.next := wordsHead;
        wordsHead := node;
      } else {
        node.next := prev.next;
        prev.next := node;
      }
      spine, words, nodes := InsertAt(spine, k, node), InsertAt(words, k, node.word), nodes + {node};
      ChainWithNode(was, k, node);
      InsertAtIndices(was, k, node);
      InsertAtIndices(old(words), k, node.word);
    }

    /** Links a new node at the end; currentWord is the last one. */
    method AppendWord(currentWord: WordNode?, text: string) returns (node: WordNode)
      requires Valid() && currentWord == if spine == [] then null else Last(spine)
      modifies this`wordsHead, this`spine, this`words, this`nodes, nodes`next
      ensures Valid() && fresh(nodes - old(nodes))
      ensures words == old(words) + [Truncate(text, WORD_LIMIT)] && spine == old(spine) + [node]
    {
      node := LinkAfter(currentWord, |spine|, text);
    }

    /** The insertion of the commit loop: walk at - 1 nodes from the head, then link. */
    method InsertWord(at: nat, text: string)
      requires Valid() && at <= |words|
      modifies this`wordsHead, this`spine, this`words, this`nodes, nodes`next
      ensures Valid() && fresh(nodes - old(nodes))
      ensures words == InsertAt(old(words), at, Truncate(text, WORD_LIMIT))
    {
      if at == 0 {
        var _ := LinkAfter(null, 0, text);
      } else {
        var prev := wordsHead;
        var j := 1;
        while j < at && prev.next != null
          invariant 1 <= j <= at && prev == spine[j - 1]
        {
          prev := prev.next;
          j := j + 1;
        }
        var _ := LinkAfter(prev, at, text);
      }
    }

    /** The insertion loop of the commit: every index is shifted by the growth of the sentence and clamped. */
    method ApplyEdits(originalWordCount: nat, editOps: seq<Edit<string>>)
      requires Valid() && forall i | 0 <= i < |editOps| :: |editOps[i].word| <= WORD_LIMIT
      modifies this`wordsHead, this`spine, this`words, this`nodes, nodes`next
      ensures Valid() && fresh(nodes - old(nodes))
      ensures words == CommitWords(old(words), editOps, |old(words)| - originalWordCount)
    {
      hide SentenceNode.Valid;
      var currentWordCount := CountWords();
      var wordOffset := currentWordCount - originalWordCount;
      for i := 0 to |editOps|
        invariant Valid() && fresh(nodes - old(nodes))
        invariant CommitWords(old(words), editOps, wordOffset) == CommitWords(words, editOps[i..], wordOffset)
      {
        var currentCount := CountWords();
        var adjusted := editOps[i].at + wordOffset;
        if adjusted < 0 { adjusted := 0; }
        if adjusted > currentCount { adjusted := currentCount; }
        CommitOne(words, editOps, i, wordOffset);
        InsertWord(adjusted, editOps[i].word);
      }
      assert editOps[|editOps|..] == [];
    }
  }

  lemma CommitOne(cur: seq<string>, ops: seq<Edit<string>>, i: nat, offset: int)
    requires i < |ops|
    ensures CommitWords(cur, ops[i..], offset)
         == CommitWords(InsertAt(cur, Clamp(ops[i].at + offset, |cur|), ops[i].word), ops[i + 1..], offset)
  {
    assert ops[i..][0] == ops[i] && ops[i..][1..] == ops[i + 1..];
  }

  /** head leads through exactly the sentence nodes ss. */
  ghost predicate SentenceChain(head: SentenceNode?, ss: seq<SentenceNode>)
    reads ss`next
  {
    && (if ss == [] then head == null else head == ss[0] && Last(ss).next == null)
    && (forall i {:trigger ss[i].next} | 0 <= i < |ss| - 1 :: ss[i].next == ss[i + 1])
    && Distinct(ss)
  }

  class LoadedFile {
    var sentencesHead: SentenceNode?
    var sentenceCount: int
    ghost var sents: seq<SentenceNode>
    ghost var doc: Doc
    ghost var nodes: set<WordNode>  // all word nodes of all sentences

    /** The list represents doc; a list under construction has no count yet. */
    ghost predicate WellFormed()
      reads this, sents, nodes`next, nodes`owner
    {
      && SentenceChain(sentencesHead, sents)
      && |sents| == |doc|
      && (forall i | 0 <= i < |sents| :: sents[i].nodes <= nodes)
      && (forall i | 0 <= i < |sents| :: sents[i].Valid() && sents[i].Value() == doc[i])
    }

    ghost predicate Valid()
      reads this, sents, nodes`next, nodes`owner
    {
      WellFormed() && sentenceCount == |sents|
    }

    /** A word node is on one list only, so the other sentences do not see a change to it. */
    lemma OtherSentences(k: nat)
      requires WellFormed() && k < |sents|
      ensures forall i | 0 <= i < |sents| && i != k :: sents[i] != sents[k] && sents[i].nodes !! sents[k].nodes
    {
      DistinctAt(sents, k);
      forall i, w | 0 <= i < |sents| && i != k && w in sents[i].nodes ensures w !in sents[k].nodes {
        assert w.owner == sents[i];
      }
    }

    /** The node a traversal of at most index links stops at. */
    method SentenceAt(index: nat) returns (sent: SentenceNode?)
      requires Valid()
      ensures sent == if index < |sents| then sents[index] else null
    {
      sent := sentencesHead;
      var current := 0;
      while sent != null && current < index
        invariant current <= |sents| && current <= index
        invariant sent == if current < |sents| then sents[current] else null
        decreases |sents| - current
      {
        sent := sent.next;
        current := current + 1;
      }
    }

    /** lock_sentence_ll */
    method LockSentence(index: int, username: string) returns (result: LockResult)
      requires Valid()
      modifies this`doc, sents`isLocked, sents`lockedBy
      ensures Valid()
      ensures result == LockOutcome(old(doc), sentenceCount, index)
      ensures doc == LockAt(old(doc), sentenceCount, index, username)
    {
      hide SentenceNode.Valid, SentenceChain, Distinct;
      if index < 0 || index > sentenceCount { return OutOfRange; }
      var sent := SentenceAt(index);
      if sent == null { return Granted; }
      OtherSentences(index);
      if !sent.isLocked {
        sent.isLocked, sent.lockedBy := true, username;
        doc := doc[index := doc[index].(lock := Some(username))];
        return Granted;
      }
      return SentenceLocked;
    }

    /** unlock_sentence_ll for a non-negative index; any other index is refused before the list is touched. */
    method UnlockSentence(index: nat, username: string)
      requires Valid()
      modifies this`doc, sents`isLocked, sents`lockedBy
      ensures Valid()
      ensures doc == UnlockAt(old(doc), index, username)
    {
      hide SentenceNode.Valid, SentenceChain, Distinct;
      var sent := SentenceAt(index);
      if sent == null { return; }
      OtherSentences(index);
      if sent.isLocked && sent.lockedBy == username {
        sent.isLocked, sent.lockedBy := false, "";
        doc := doc[index := doc[index].(lock := None)];
      }
    }

    method LastSentence() returns (last: SentenceNode)
      requires WellFormed() && sents != []
      ensures last == Last(sents)
    {
      last := sentencesHead;
      ghost var k := 0;
      while last.next != null
        invariant k < |sents| && last == sents[k]
        decreases |sents| - k
      {
        last := last.next;
        k := k + 1;
      }
    }

    /** Links a new empty sentence behind the last one. */
    method LinkSentence(last: SentenceNode?) returns (sent: SentenceNode)
      requires WellFormed() && last == if sents == [] then null else Last(sents)
      modifies this`sentencesHead, this`sents, this`doc, sents`next
      ensures WellFormed() && fresh(sent) && sents == old(sents) + [sent]
      ensures doc == old(doc) + [Unlocked([], NUL)] && sent.nodes == {} && sent.spine == []
    {
      hide SentenceNode.Valid, SentenceNode.Value;
      sent := new SentenceNode(NUL);
      ghost var was := sents;
      DistinctInsert(was, |was|, sent);
      if last == null {
        sentencesHead := sent;
      } else {
        DistinctAt(sents, |sents| - 1);
        last.next := sent;
      }
      sents, doc := was + [sent], doc + [Unlocked([], NUL)];
      assert InsertAt(was, |was|, sent) == sents;
    }

    /** The commit's new sentence, for an index one past the end. */
    method AppendSentence() returns (sent: SentenceNode)
      requires Valid()
      modifies this, sents`next
      ensures Valid() && fresh(sent) && sents == old(sents) + [sent]
      ensures doc == old(doc) + [Unlocked([], NUL)]
      ensures sent.nodes == {} && nodes == old(nodes)
    {
      hide SentenceNode.Valid, SentenceNode.Value;
      if sentencesHead == null {
        sent := LinkSentence(null);
      } else {
        var last := LastSentence();
        sent := LinkSentence(last);
      }
      sentenceCount := sentenceCount + 1;
    }

    /** The insertion loop, seen from the whole file. */
    method EditSentence(target: SentenceNode, ghost index: nat, originalWordCount: nat, editOps: seq<Edit<string>>)
      requires Valid() && index < |sents| && sents[index] == target
      requires forall i | 0 <= i < |editOps| :: |editOps[i].word| <= WORD_LIMIT
      modifies this`doc, this`nodes, target`wordsHead, target`spine, target`words, target`nodes, target.nodes`next
      ensures Valid() && fresh(nodes - old(nodes))
      ensures doc == old(doc)[index := old(doc)[index].(words :=
                       CommitWords(old(doc)[index].words, editOps, |old(doc)[index].words| - originalWordCount))]
    {
      hide SentenceNode.Valid, SentenceChain, Distinct, CommitWords;
      OtherSentences(index);
      target.ApplyEdits(originalWordCount, editOps);
      doc, nodes := doc[index := doc[index].(words := target.words)], nodes + target.nodes;
    }

    /** The commit of a write session: find or create the sentence, then insert the rebased edits. */
    method Commit(index: nat, originalWordCount: nat, editOps: seq<Edit<string>>) returns (ok: bool)
      requires Valid()
      requires forall i | 0 <= i < |editOps| :: |editOps[i].word| <= WORD_LIMIT
      modifies this, sents, nodes
      ensures Valid() && fresh(nodes - old(nodes))
      ensures forall s | s in sents :: s in old(sents) || fresh(s)
      ensures CommitAt(old(doc), old(sentenceCount), index, originalWordCount, editOps)
           == if ok then Some(doc) else None
      ensures !ok ==> doc == old(doc)
    {
      hide SentenceNode.Valid, SentenceChain, CommitWords;
      var target := SentenceAt(index);
      if target == null && index == sentenceCount {
        target := AppendSentence();
      }
      if target == null { return false; }
      EditSentence(target, index, originalWordCount, editOps);
      ok := true;
    }

    // ---------- loading ----------

    constructor ()
      ensures Valid() && doc == [] && sents == [] && nodes == {}
    {
      sentencesHead, sentenceCount := null, 0;
      sents, doc, nodes := [], [], {};
    }

    /** One more word at the end of the last sentence; currentWord is its last node. */
    method AddWord(current: SentenceNode, currentWord: WordNode?, text: string) returns (node: WordNode)
      requires WellFormed() && sents != [] && current == Last(sents)
      requires currentWord == if current.spine == [] then null else Last(current.spine)
      modifies this`doc, this`nodes, current`wordsHead, current`spine, current`words, current`nodes, current.nodes`next
      ensures WellFormed() && fresh(nodes - old(nodes))
      ensures doc == WithLastWord(old(doc), Truncate(text, WORD_LIMIT))
      ensures current.spine != [] && node == Last(current.spine)
    {
      hide SentenceNode.Valid, SentenceChain, Distinct;
      OtherSentences(|sents| - 1);
      node := current.AppendWord(currentWord, text);
      doc, nodes := WithLastWord(doc, Truncate(text, WORD_LIMIT)), nodes + current.nodes;
    }

    /** Closes the last sentence with a terminator and opens the next one. */
    method FinishSentence(current: SentenceNode, delim: char) returns (sent: SentenceNode)
      requires WellFormed() && sents != [] && current == Last(sents)
      modifies this`sentencesHead, this`sents, this`doc, sents`next, current`delimiter
      ensures WellFormed() && fresh(sent) && sents == old(sents) + [sent] && sent.nodes == {} && sent.spine == []
      ensures doc == WithLastDelimiter(old(doc), delim) + [Unlocked([], NUL)]
    {
      hide SentenceNode.Valid;
      DistinctAt(sents, |sents| - 1);
      current.delimiter := delim;
      doc := WithLastDelimiter(doc, delim);
      sent := LinkSentence(current);
    }

    /** The last sentence and the one before it. */
    method LastTwo() returns (prev: SentenceNode?, curr: SentenceNode)
      requires WellFormed() && sents != []
      ensures curr == Last(sents) && prev == if |sents| == 1 then null else sents[|sents| - 2]
      ensures (curr.wordsHead == null) == (Last(doc).words == []) && curr.delimiter == Last(doc).delim
    {
      prev, curr := null, sentencesHead;
      ghost var k := 0;
      while curr.next != null
        invariant k < |sents| && curr == sents[k] && prev == if k == 0 then null else sents[k - 1]
        decreases |sents| - k
      {
        prev := curr;
        curr := curr.next;
        k := k + 1;
      }
      assert sents[k].Valid() && sents[k].Value() == doc[k];
    }

    /** Unlinks the last sentence if it is empty and has no terminator. */
    method RemoveBlankTail()
      requires WellFormed() && sents != []
      modifies this`sentencesHead, this`sents, this`doc, sents`next
      ensures WellFormed() && doc == TrimTail(old(doc)) && sents <= old(sents)
    {
      hide SentenceNode.Valid;
      ghost var k := |sents| - 1;
      var prev, curr := LastTwo();
      if curr.wordsHead == null && curr.delimiter == NUL {
        DistinctPrefix(sents, k);
        if prev != null {
          DistinctAt(sents, k - 1);
          prev.next := null;
        } else {
          sentencesHead := null;
        }
        sents, doc := sents[..k], doc[..k];
      }
    }

    /** The counting loop that ends a load. */
    method CountSentences()
      requires WellFormed()
      modifies this`sentenceCount
      ensures Valid()
    {
      hide SentenceNode.Valid;
      var count := 0;
      var s := sentencesHead;
      while s != null
        invariant count <= |sents| && s == if count < |sents| then sents[count] else null
        decreases |sents| - count
      {
        count := count + 1;
        s := s.next;
      }
      sentenceCount := count;
    }
  }

  /** d without a last sentence that has neither words nor terminator. */
  function TrimTail(d: Doc): Doc {
    if d != [] && Last(d).words == [] && Last(d).delim == NUL then d[..|d| - 1] else d
  }

  function WithLastWord(d: Doc, w: string): Doc
    requires d != []
  {
    d[|d| - 1 := Last(d).(words := Last(d).words + [w])]
  }

  function WithLastDelimiter(d: Doc, delim: char): Doc
    requires d != []
  {
    d[|d| - 1 := Last(d).(delim := delim)]
  }
}

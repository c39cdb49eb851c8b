/** The edit queue of a WRITE session. */
module Editing {
  import opened Text

  // How batches are validated and queued, how the terminator position is tracked, and how a commit replays the queue on
  // a sentence that other sessions may have grown meanwhile.

  /** One queued insertion. T is a word; the provenance argument below uses tags instead. */
  datatype Edit<T> = Edit(at: int, word: T)

  /** Every queued index was valid when it was queued: edit i falls within n + i words. */
  predicate Fits<T>(n: nat, ops: seq<Edit<T>>) {
    forall i | 0 <= i < |ops| :: 0 <= ops[i].at <= n + i
  }

  /** The sentence a session works on in its imagination: its edits applied in order. */
  function Replay<T>(base: seq<T>, ops: seq<Edit<T>>): (r: seq<T>)
    requires Fits(|base|, ops)
    ensures |r| == |base| + |ops|
    decreases |ops|
  {
    if ops == [] then base
    else
      assert forall i | 0 <= i < |ops| - 1 :: ops[1..][i] == ops[i + 1];
      Replay(InsertAt(base, ops[0].at, ops[0].word), ops[1..])
  }

  function Clamp(i: int, n: nat): (c: nat)
    ensures c <= n
  {
    if i < 0 then 0 else if i > n then n else i
  }

  /** The commit loop: each index is shifted by the growth of the sentence and clamped into range. */
  function CommitWords<T>(cur: seq<T>, ops: seq<Edit<T>>, offset: int): (r: seq<T>)
    ensures |r| == |cur| + |ops|
    decreases |ops|
  {
    if ops == [] then cur
    else CommitWords(InsertAt(cur, Clamp(ops[0].at + offset, |cur|), ops[0].word), ops[1..], offset)
  }

  /** Neither clamp changes an index. */
  ghost predicate NeverClamps<T>(n: nat, ops: seq<Edit<T>>, offset: int) {
    forall i | 0 <= i < |ops| :: Clamp(ops[i].at + offset, n + i) == ops[i].at + offset
  }

  lemma {:induction false} CommitAfterPrefix<T>(p: seq<T>, b: seq<T>, ops: seq<Edit<T>>)
    requires Fits(|b|, ops)
    ensures CommitWords(p + b, ops, |p|) == p + Replay(b, ops)
    decreases |ops|
  {
    if ops != [] {
      var i, w := ops[0].at, ops[0].word;
      assert Fits(|InsertAt(b, i, w)|, ops[1..]) by {
        assert forall k | 0 <= k < |ops| - 1 :: ops[1..][k] == ops[k + 1];
      }
      assert InsertAt(p + b, i + |p|, w) == p + InsertAt(b, i, w);
      CommitAfterPrefix(p, InsertAt(b, i, w), ops[1..]);
    }
  }

  /**
   Rebase law. If the sentence has grown by d words since the session counted it, the commit leaves the first
   d words alone and replays the session's edits on the rest, and no index is ever clamped.
   */
  lemma RebaseLaw<T>(cur: seq<T>, d: nat, ops: seq<Edit<T>>)
    requires d <= |cur| && Fits(|cur| - d, ops)
    ensures CommitWords(cur, ops, d) == cur[..d] + Replay(cur[d..], ops)
    ensures NeverClamps(|cur|, ops, d)
  {
    assert cur == cur[..d] + cur[d..];
    CommitAfterPrefix(cur[..d], cur[d..], ops);
    forall i | 0 <= i < |ops| ensures Clamp(ops[i].at + d, |cur| + i) == ops[i].at + d { }
  }

  // ---------- what a commit preserves ----------

  /** a is what is left of b after dropping some elements. */
  ghost predicate Subsequence<T>(a: seq<T>, b: seq<T>)
    decreases |b|
  {
    a == [] || (b != [] && ((a[0] == b[0] && Subsequence(a[1..], b[1..])) || Subsequence(a, b[1..])))
  }

  lemma {:induction false} SubsequenceRefl<T>(a: seq<T>)
    ensures Subsequence(a, a)
  {
    if a != [] {
      SubsequenceRefl(a[1..]);
    }
  }

  lemma {:induction false} SubsequenceTrans<T>(a: seq<T>, b: seq<T>, c: seq<T>)
    requires Subsequence(a, b) && Subsequence(b, c)
    ensures Subsequence(a, c)
    decreases |b| + |c|
  {
    if a == [] || b == [] || c == [] {
    } else if Subsequence(b, c[1..]) {
      SubsequenceTrans(a, b, c[1..]);
    } else if Subsequence(a, b[1..]) {
      SubsequenceTrans(a, b[1..], c[1..]);
    } else {
      SubsequenceTrans(a[1..], b[1..], c[1..]);
    }
  }

  lemma {:induction false} SubsequenceLength<T>(a: seq<T>, b: seq<T>)
    requires Subsequence(a, b)
    ensures |a| <= |b| && (|a| == |b| ==> a == b)
    decreases |b|
  {
    if a == [] || b == [] {
    } else if a[0] == b[0] && Subsequence(a[1..], b[1..]) {
      SubsequenceLength(a[1..], b[1..]);
      assert a == [a[0]] + a[1..] && b == [b[0]] + b[1..];
    } else {
      SubsequenceLength(a, b[1..]);
    }
  }

  lemma {:induction false} SubsequenceInsert<T>(s: seq<T>, i: nat, x: T)
    requires i <= |s|
    ensures Subsequence(s, InsertAt(s, i, x))
    decreases i
  {
    var r := InsertAt(s, i, x);
    if i == 0 {
      assert r[1..] == s;
      SubsequenceRefl(s);
    } else {
      SubsequenceInsert(s[1..], i - 1, x);
      assert r[1..] == InsertAt(s[1..], i - 1, x);
    }
  }

  function EditWords<T>(ops: seq<Edit<T>>): seq<T> {
    if ops == [] then [] else [ops[0].word] + EditWords(ops[1..])
  }

  /** A commit loses no word, keeps the old words in order and adds exactly the queued ones. */
  lemma {:induction false} CommitKeeps<T>(cur: seq<T>, ops: seq<Edit<T>>, offset: int)
    ensures Subsequence(cur, CommitWords(cur, ops, offset))
    ensures multiset(CommitWords(cur, ops, offset)) == multiset(cur) + multiset(EditWords(ops))
    decreases |ops|
  {
    if ops == [] {
      SubsequenceRefl(cur);
    } else {
      var i, w := Clamp(ops[0].at + offset, |cur|), ops[0].word;
      var next := InsertAt(cur, i, w);
      CommitKeeps(next, ops[1..], offset);
      assert Subsequence(cur, CommitWords(cur, ops, offset)) by {
        SubsequenceInsert(cur, i, w);
        SubsequenceTrans(cur, next, CommitWords(next, ops[1..], offset));
      }
      InsertAddsOne(cur, i, w);
      MultisetAppend([w], EditWords(ops[1..]));
    }
  }

  lemma InsertAddsOne<T>(s: seq<T>, i: nat, x: T)
    requires i <= |s|
    ensures multiset(InsertAt(s, i, x)) == multiset(s) + multiset([x])
  {
    assert s == s[..i] + s[i..];
    MultisetAppend(s[..i], s[i..]);
  }

  lemma MultisetAppend<T>(a: seq<T>, b: seq<T>)
    ensures multiset(a + b) == multiset(a) + multiset(b)
  {
  }

  // ---------- queueing a batch ----------

  /** A session's queue and the tracked terminator position (-1 while none was queued). */
  datatype Queue = Queue(ops: seq<Edit<string>>, delimiterAt: int)

  predicate EndsWithDelimiter(token: string) {
    token != [] && IsDelimiter(Last(token))
  }

  /** Position of the first token that ends in a terminator, or -1. */
  function FirstDelimited(tokens: seq<string>): (k: int)
    ensures -1 <= k < |tokens|
    ensures k >= 0 ==> EndsWithDelimiter(tokens[k]) && forall j | 0 <= j < k :: !EndsWithDelimiter(tokens[j])
    ensures k < 0 ==> forall j | 0 <= j < |tokens| :: !EndsWithDelimiter(tokens[j])
  {
    if tokens == [] then -1
    else if EndsWithDelimiter(tokens[0]) then 0
    else
      var k := FirstDelimited(tokens[1..]);
      assert forall j | 1 <= j < |tokens| :: tokens[j] == tokens[1..][j - 1];
      if k < 0 then -1 else k + 1
  }

  /** A batch starts inside the simulated sentence and does not run past its terminator. */
  predicate Valid(orig: nat, q: Queue, base: int, tokens: seq<string>) {
    tokens == [] ||
    (0 <= base <= orig + |q.ops| && (q.delimiterAt >= 0 ==> base + |tokens| - 1 <= q.delimiterAt))
  }

  /** Consecutive insertions of the tokens, each cut to a word buffer. */
  function BatchEdits(base: int, tokens: seq<string>): (ops: seq<Edit<string>>)
    ensures |ops| == |tokens|
  {
    seq(|tokens|, j requires 0 <= j < |tokens| => Edit(base + j, Truncate(tokens[j], WORD_LIMIT)))
  }

  function DelimiterAfter(delimiterAt: int, base: int, tokens: seq<string>): int {
    if delimiterAt >= 0 then delimiterAt + |tokens|
    else if FirstDelimited(tokens) >= 0 then base + FirstDelimited(tokens)
    else delimiterAt
  }

  /** A batch is queued whole or not at all. */
  function QueueBatch(orig: nat, q: Queue, base: int, tokens: seq<string>): Queue {
    if Valid(orig, q, base, tokens)
    then Queue(q.ops + BatchEdits(base, tokens), DelimiterAfter(q.delimiterAt, base, tokens))
    else q
  }

  lemma QueueFits(orig: nat, q: Queue, base: int, tokens: seq<string>)
    requires Fits(orig, q.ops)
    ensures Fits(orig, QueueBatch(orig, q, base, tokens).ops)
  {
    var q' := QueueBatch(orig, q, base, tokens);
    if Valid(orig, q, base, tokens) {
      forall i | 0 <= i < |q'.ops| ensures 0 <= q'.ops[i].at <= orig + i {
        if i >= |q.ops| {
          var j := i - |q.ops|;
          assert q'.ops[i] == BatchEdits(base, tokens)[j];
        }
      }
    }
  }

  // ---------- provenance: which queued word stands where ----------

  datatype Tag = Old(pos: nat) | Queued(edit: nat)

  function OldTags(n: nat): seq<Tag> {
    seq(n, i requires 0 <= i < n => Old(i))
  }

  function TagEdits<T>(ops: seq<Edit<T>>): (r: seq<Edit<Tag>>)
    ensures |r| == |ops| && forall k | 0 <= k < |ops| :: r[k] == Edit(ops[k].at, Queued(k))
  {
    seq(|ops|, k requires 0 <= k < |ops| => Edit(ops[k].at, Queued(k)))
  }

  /** Where every word of the simulated sentence comes from. */
  function Provenance<T>(orig: nat, ops: seq<Edit<T>>): (r: seq<Tag>)
    requires Fits(orig, ops)
    ensures |r| == orig + |ops|
  {
    Replay(OldTags(orig), TagEdits(ops))
  }

  lemma {:induction false} ReplayAppend<T>(base: seq<T>, a: seq<Edit<T>>, b: seq<Edit<T>>)
    requires Fits(|base|, a + b)
    ensures Fits(|base|, a) && Fits(|base| + |a|, b)
    ensures Replay(base, a + b) == Replay(Replay(base, a), b)
    decreases |a|
  {
    forall i | 0 <= i < |a| ensures 0 <= a[i].at <= |base| + i { assert a[i] == (a + b)[i]; }
    forall i | 0 <= i < |b| ensures 0 <= b[i].at <= |base| + |a| + i { assert b[i] == (a + b)[|a| + i]; }
    if a == [] {
      assert a + b == b;
    } else {
      assert (a + b)[0] == a[0] && (a + b)[1..] == a[1..] + b;
      var next := InsertAt(base, a[0].at, a[0].word);
      assert Fits(|next|, a[1..] + b) by {
        forall i | 0 <= i < |a[1..] + b| ensures 0 <= (a[1..] + b)[i].at <= |next| + i {
          assert (a[1..] + b)[i] == (a + b)[i + 1];
        }
      }
      ReplayAppend(next, a[1..], b);
    }
  }

  /** Insertions at consecutive positions put their words side by side. */
  lemma {:induction false} ReplayRun<T>(base: seq<T>, at: nat, ops: seq<Edit<T>>)
    requires at <= |base| && forall j | 0 <= j < |ops| :: ops[j].at == at + j
    ensures Fits(|base|, ops)
    ensures Replay(base, ops) == base[..at] + EditWords(ops) + base[at..]
    decreases |ops|
  {
    if ops != [] {
      var w, more := ops[0].word, EditWords(ops[1..]);
      var next := InsertAt(base, at, w);
      assert forall j | 0 <= j < |ops| - 1 :: ops[1..][j] == ops[j + 1];
      calc {
        Replay(base, ops);
        Replay(next, ops[1..]);
        { ReplayRun(next, at + 1, ops[1..]); }
        next[..at + 1] + more + next[at + 1..];
        { assert next[..at + 1] == base[..at] + [w] && next[at + 1..] == base[at..]; }
        base[..at] + [w] + more + base[at..];
        { assert base[..at] + [w] + more == base[..at] + ([w] + more); }
        base[..at] + EditWords(ops) + base[at..];
      }
    } else {
      assert base[..at] + [] + base[at..] == base;
    }
  }

  lemma {:induction false} EditWordsAt<T>(ops: seq<Edit<T>>, k: nat)
    requires k < |ops|
    ensures |EditWords(ops)| == |ops| && EditWords(ops)[k] == ops[k].word
    decreases |ops|
  {
    if |ops| > 1 {
      EditWordsAt(ops[1..], if k == 0 then 0 else k - 1);
    } else {
      assert EditWords(ops[1..]) == [];
    }
  }

  /** The tags name the words: reading a tag off gives the word that stands there. */
  lemma {:induction false} ProvenanceNamesWords<T>(words: seq<T>, ops: seq<Edit<T>>, i: nat)
    requires Fits(|words|, ops) && i < |words| + |ops|
    ensures match Provenance(|words|, ops)[i]
            case Old(p) => p < |words| && Replay(words, ops)[i] == words[p]
            case Queued(k) => k < |ops| && Replay(words, ops)[i] == ops[k].word
    decreases |ops|
  {
    if ops == [] {
      assert TagEdits(ops) == [];
    } else {
      var n := |ops| - 1;
      var init, last := ops[..n], ops[n];
      assert ops == init + [last];
      ReplayAppend(words, init, [last]);
      assert TagEdits(ops) == TagEdits(init) + [Edit(last.at, Queued(n))];
      ReplayAppend(OldTags(|words|), TagEdits(init), [Edit(last.at, Queued(n))]);
      ReplayOne(Replay(words, init), last);
      ReplayOne(Provenance(|words|, init), Edit(last.at, Queued(n)));
      if i < last.at {
        ProvenanceNamesWords(words, init, i);
      } else if i > last.at {
        ProvenanceNamesWords(words, init, i - 1);
      }
    }
  }

  lemma ReplayOne<T>(base: seq<T>, e: Edit<T>)
    requires 0 <= e.at <= |base|
    ensures Replay(base, [e]) == InsertAt(base, e.at, e.word)
  {
    assert Replay(InsertAt(base, e.at, e.word), []) == InsertAt(base, e.at, e.word);
  }

  /** What queueing a valid batch does to the simulated sentence: its words enter side by side at base. */
  lemma BatchProvenance(orig: nat, q: Queue, base: int, tokens: seq<string>) returns (run: seq<Tag>)
    requires Fits(orig, q.ops) && Valid(orig, q, base, tokens) && tokens != []
    ensures Fits(orig, QueueBatch(orig, q, base, tokens).ops)
    ensures 0 <= base <= orig + |q.ops|
    ensures |run| == |tokens| && forall j | 0 <= j < |tokens| :: run[j] == Queued(|q.ops| + j)
    ensures var before := Provenance(orig, q.ops);
            Provenance(orig, QueueBatch(orig, q, base, tokens).ops) == before[..base] + run + before[base..]
  {
    QueueFits(orig, q, base, tokens);
    var ops := q.ops + BatchEdits(base, tokens);
    var more := seq(|tokens|, j requires 0 <= j < |tokens| => Edit(base + j, Queued(|q.ops| + j)));
    assert TagEdits(ops) == TagEdits(q.ops) + more;
    ReplayAppend(OldTags(orig), TagEdits(q.ops), more);
    ReplayRun(Provenance(orig, q.ops), base, more);
    run := EditWords(more);
    EditWordsAt(more, 0);
    forall j | 0 <= j < |tokens| ensures run[j] == Queued(|q.ops| + j) { EditWordsAt(more, j); }
  }

  /** The tracked position points at queued word number k of the simulated sentence. */
  ghost predicate Tracks(orig: nat, q: Queue, k: nat) {
    && Fits(orig, q.ops)
    && 0 <= q.delimiterAt < orig + |q.ops|
    && k < |q.ops|
    && Provenance(orig, q.ops)[q.delimiterAt] == Queued(k)
  }

  /** The first accepted batch with a terminated word sets the tracked position to that very word. */
  lemma DelimiterIsSet(orig: nat, q: Queue, base: int, tokens: seq<string>)
    requires Fits(orig, q.ops) && q.delimiterAt == -1 && Valid(orig, q, base, tokens)
    ensures var q' := QueueBatch(orig, q, base, tokens);
            var k := FirstDelimited(tokens);
            if k < 0 then q'.delimiterAt == -1
            else Tracks(orig, q', |q.ops| + k) && q'.ops[|q.ops| + k].word == Truncate(tokens[k], WORD_LIMIT)
  {
    if FirstDelimited(tokens) >= 0 {
      var run := BatchProvenance(orig, q, base, tokens);
    }
  }

  /** Every later batch, accepted or rejected, keeps tracking the same word and leaves all after it alone. */
  lemma DelimiterStaysTracked(orig: nat, q: Queue, k: nat, base: int, tokens: seq<string>)
    requires Tracks(orig, q, k)
    ensures var q' := QueueBatch(orig, q, base, tokens);
            && Tracks(orig, q', k)
            && Provenance(orig, q'.ops)[q'.delimiterAt..] == Provenance(orig, q.ops)[q.delimiterAt..]
            && q.ops <= q'.ops
  {
    if Valid(orig, q, base, tokens) && tokens != [] {
      var run := BatchProvenance(orig, q, base, tokens);
    } else if Valid(orig, q, base, tokens) {
      assert q.ops + BatchEdits(base, tokens) == q.ops;
    }
  }

  /** The queue after any sequence of batches. */
  function QueueAll(orig: nat, q: Queue, batches: seq<(int, seq<string>)>): Queue
    decreases |batches|
  {
    if batches == [] then q
    else QueueAll(orig, QueueBatch(orig, q, batches[0].0, batches[0].1), batches[1..])
  }

  /**
   Delimiter tracking over a whole session: once set, the position names the same queued word through every
   later batch, and the words from it to the end of the simulated sentence never change again.
   */
  lemma {:induction false} DelimiterTracking(orig: nat, q: Queue, k: nat, batches: seq<(int, seq<string>)>,
                                             words: seq<string>)
    requires Tracks(orig, q, k) && |words| == orig
    ensures var q' := QueueAll(orig, q, batches);
            && Tracks(orig, q', k)
            && Replay(words, q'.ops)[q'.delimiterAt] == q.ops[k].word
            && Replay(words, q'.ops)[q'.delimiterAt..] == Replay(words, q.ops)[q.delimiterAt..]
    decreases |batches|
  {
    if batches == [] {
      ProvenanceNamesWords(words, q.ops, q.delimiterAt);
    } else {
      var q1 := QueueBatch(orig, q, batches[0].0, batches[0].1);
      DelimiterStaysTracked(orig, q, k, batches[0].0, batches[0].1);
      SameTagsSameWords(words, q.ops, q1.ops, q.delimiterAt, q1.delimiterAt);
      DelimiterTracking(orig, q1, k, batches[1..], words);
    }
  }

  /** Either no terminated word was queued yet or the tracked position names one that was. */
  ghost predicate WellTracked(orig: nat, q: Queue) {
    Fits(orig, q.ops) && (q.delimiterAt == -1 || exists k: nat :: Tracks(orig, q, k))
  }

  /** A session that starts with an empty queue tracks a queued word or nothing, whatever it receives. */
  lemma {:induction false} AlwaysTracked(orig: nat, q: Queue, batches: seq<(int, seq<string>)>)
    requires WellTracked(orig, q)
    ensures WellTracked(orig, QueueAll(orig, q, batches))
    decreases |batches|
  {
    if batches != [] {
      var (base, tokens) := batches[0];
      QueueFits(orig, q, base, tokens);
      if k: nat :| Tracks(orig, q, k) {
        DelimiterStaysTracked(orig, q, k, base, tokens);
      } else if Valid(orig, q, base, tokens) {
        DelimiterIsSet(orig, q, base, tokens);
      }
      AlwaysTracked(orig, QueueBatch(orig, q, base, tokens), batches[1..]);
    }
  }

  lemma SameTagSameWord(words: seq<string>, ops: seq<Edit<string>>, ops': seq<Edit<string>>, i: nat, j: nat)
    requires Fits(|words|, ops) && Fits(|words|, ops') && ops <= ops'
    requires i < |words| + |ops| && j < |words| + |ops'|
    requires Provenance(|words|, ops)[i] == Provenance(|words|, ops')[j]
    ensures Replay(words, ops)[i] == Replay(words, ops')[j]
  {
    ProvenanceNamesWords(words, ops, i);
    ProvenanceNamesWords(words, ops', j);
  }

  /** Equal provenance of two suffixes means equal words, as long as the queue only grew. */
  lemma {:induction false} SameTagsSameWords(words: seq<string>, ops: seq<Edit<string>>, ops': seq<Edit<string>>,
                                             d: nat, d': nat)
    requires Fits(|words|, ops) && Fits(|words|, ops') && ops <= ops'
    requires d <= |words| + |ops| && d' <= |words| + |ops'|
    requires Provenance(|words|, ops')[d'..] == Provenance(|words|, ops)[d..]
    ensures Replay(words, ops')[d'..] == Replay(words, ops)[d..]
    decreases |words| + |ops| - d
  {
    var tags, tags' := Provenance(|words|, ops), Provenance(|words|, ops');
    assert |tags[d..]| == |tags'[d'..]|;
    if d < |tags| {
      assert tags[d] == tags[d..][0] == tags'[d'..][0] == tags'[d'];
      assert tags[d + 1..] == tags[d..][1..] == tags'[d'..][1..] == tags'[d' + 1..];
      SameTagSameWord(words, ops, ops', d, d');
      SameTagsSameWords(words, ops, ops', d + 1, d' + 1);
      DropOne(Replay(words, ops), d);
      DropOne(Replay(words, ops'), d');
    }
  }

  lemma DropOne<T>(s: seq<T>, d: nat)
    requires d < |s|
    ensures s[d..] == [s[d]] + s[d + 1..]
  {
  }
}

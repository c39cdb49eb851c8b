/**
 The command loop of a WRITE session, as a session object that receives batches of words. A batch is validated in
 a first pass and queued in a second one; both loops are proved to compute QueueBatch of Editing.
 */
module WriteSession {
  import opened Text
  import opened CStrings
  import opened Editing
  import opened SessionProtocol

  /** The tokens a strtok loop still has to deliver. */
  function Pending(scan: Scan): seq<string> {
    match scan
    case NoToken => []
    case Token(text, rest) => [text] + Tokens(rest, " ")
  }

  lemma PendingStep(tokens: seq<string>, k: nat, scan: Scan)
    requires k <= |tokens| && Pending(scan) == tokens[k..] && scan.Token?
    ensures k < |tokens| && tokens[k] == scan.text
    ensures Pending(Strtok(scan.rest, " ")) == tokens[k + 1..]
  {
    assert tokens[k] == Pending(scan)[0] && tokens[k..][1..] == tokens[k + 1..];
  }

  lemma PendingStart(content: string)
    ensures Pending(Strtok(content, " ")) == Tokens(content, " ")[0..]
  {
  }

  lemma PendingEnd(tokens: seq<string>, k: nat, scan: Scan)
    requires k <= |tokens| && Pending(scan) == tokens[k..] && scan.NoToken?
    ensures k == |tokens|
  {
  }

  /** The words went to the end of the queue, one after the other, each with its place and as far as its buffer goes. */
  ghost predicate AddedToQueue(before: seq<Edit<string>>, after: seq<Edit<string>>, base: int, words: seq<string>) {
    && |after| == |before| + |words| && after[..|before|] == before
    && forall j | 0 <= j < |words| ::
         after[|before| + j] == Edit(base + j, if |words[j]| <= 255 then words[j] else words[j][..255])
  }

  lemma BatchIsQueued(before: seq<Edit<string>>, base: int, words: seq<string>)
    ensures AddedToQueue(before, before + BatchEdits(base, words), base, words)
  {
  }

  class Writer {
    const originalWordCount: nat
    var editOps: seq<Edit<string>>
    var delimiterIndex: int

    function QueueNow(): Queue
      reads this
    {
      Queue(editOps, delimiterIndex)
    }

    constructor (originalWordCount: nat)
      ensures this.originalWordCount == originalWordCount && QueueNow() == Queue([], -1)
    {
      this.originalWordCount, this.editOps, this.delimiterIndex := originalWordCount, [], -1;
    }

    /** First pass over a batch: every word is checked on its own; nothing is queued yet. */
    method Validate(base: int, content: string) returns (accepted: bool, firstDelimiter: int)
      ensures accepted == Editing.Valid(originalWordCount, QueueNow(), base, Tokens(content, " "))
      ensures accepted ==> firstDelimiter == (if FirstDelimited(Tokens(content, " ")) < 0 then -1
                                              else base + FirstDelimited(Tokens(content, " ")))
    {
      hide Pending, Tokens, Strtok, FirstDelimited;
      ghost var tokens := Tokens(content, " ");
      var scan := Strtok(content, " ");
      PendingStart(content);
      var wordOffset := 0;
      firstDelimiter := -1;
      while scan.Token?
        invariant wordOffset <= |tokens| && (scan.Token? ==> scan.text != []) && Pending(scan) == tokens[wordOffset..]
        invariant wordOffset > 0 ==> 0 <= base <= originalWordCount + |editOps|
        invariant wordOffset > 0 && delimiterIndex >= 0 ==> base + wordOffset - 1 <= delimiterIndex
        invariant firstDelimiter == if FirstDelimited(tokens[..wordOffset]) < 0 then -1
                                    else base + FirstDelimited(tokens[..wordOffset])
        decreases |tokens| - wordOffset
      {
        PendingStep(tokens, wordOffset, scan);
        var token := scan.text;
        var wordIdx := base + wordOffset;
        FirstDelimitedSnoc(tokens, wordOffset);
        var lastChar := token[|token| - 1];
        if lastChar == '.' || lastChar == '!' || lastChar == '?' {
          if firstDelimiter < 0 { firstDelimiter := wordIdx; }
        }
        if delimiterIndex >= 0 && wordIdx > delimiterIndex { return false, -1; }
        var effectiveWordCount := originalWordCount + |editOps| + wordOffset;
        if wordIdx < 0 || wordIdx > effectiveWordCount { return false, -1; }
        scan := Strtok(scan.rest, " ");
        wordOffset := wordOffset + 1;
      }
      PendingEnd(tokens, wordOffset, scan);
      assert tokens[..wordOffset] == tokens;
      accepted := true;
    }

    /** Second pass: the words are queued one by one and the tracked position moves along. */
    method Enqueue(base: int, content: string)
      requires Editing.Valid(originalWordCount, QueueNow(), base, Tokens(content, " "))
      modifies this
      ensures editOps == old(editOps) + BatchEdits(base, Tokens(content, " "))
      ensures AddedToQueue(old(editOps), editOps, base, Tokens(content, " "))
      ensures delimiterIndex == old(delimiterIndex) + if old(delimiterIndex) >= 0 then |Tokens(content, " ")| else 0
    {
      hide Pending, Tokens, Strtok, FirstDelimited;
      ghost var tokens := Tokens(content, " ");
      var scan := Strtok(content, " ");
      PendingStart(content);
      var wordOffset := 0;
      while scan.Token?
        invariant wordOffset <= |tokens| && (scan.Token? ==> scan.text != []) && Pending(scan) == tokens[wordOffset..]
        invariant editOps == old(editOps) + BatchEdits(base, tokens)[..wordOffset]
        invariant delimiterIndex == old(delimiterIndex) + if old(delimiterIndex) >= 0 then wordOffset else 0
        decreases |tokens| - wordOffset
      {
        var wordIdx := base + wordOffset;
        PendingStep(tokens, wordOffset, scan);
        editOps := editOps + [Edit(wordIdx, Truncate(scan.text, WORD_LIMIT))];
        if delimiterIndex >= 0 && wordIdx <= delimiterIndex {
          delimiterIndex := delimiterIndex + 1;
        }
        scan := Strtok(scan.rest, " ");
        wordOffset := wordOffset + 1;
      }
      PendingEnd(tokens, wordOffset, scan);
      assert BatchEdits(base, tokens)[..wordOffset] == BatchEdits(base, tokens);
      BatchIsQueued(old(editOps), base, tokens);
    }

    /** One command other than ETIRW. */
    method Receive(base: int, data: string) returns (accepted: bool)
      modifies this
      ensures accepted == Editing.Valid(originalWordCount, old(QueueNow()), base, CommandTokens(data))
      ensures if accepted then AddedToQueue(old(editOps), editOps, base, CommandTokens(data))
              else editOps == old(editOps)
      ensures old(delimiterIndex) >= -1 ==>
                QueueNow() == QueueBatch(originalWordCount, old(QueueNow()), base, CommandTokens(data))
    {
      var content := Truncate(data, MAX_DATA - 1);
      var firstDelimiter;
      accepted, firstDelimiter := Validate(base, content);
      if accepted {
        Enqueue(base, content);
        if firstDelimiter >= 0 && delimiterIndex < 0 {
          delimiterIndex := firstDelimiter;
        }
      }
    }
  }

  lemma FirstDelimitedSnoc(tokens: seq<string>, n: nat)
    requires n < |tokens|
    ensures var k := FirstDelimited(tokens[..n]);
            FirstDelimited(tokens[..n + 1]) == if k >= 0 then k else if EndsWithDelimiter(tokens[n]) then n else -1
  {
    var a, b := FirstDelimited(tokens[..n]), FirstDelimited(tokens[..n + 1]);
    assert forall j | 0 <= j < n :: tokens[..n + 1][j] == tokens[..n][j];
    assert tokens[..n + 1][n] == tokens[n];
  }
}

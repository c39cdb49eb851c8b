/** Moving file contents in messages. */
module Transfer {
  import opened Text
  import opened CStrings

  // Chunked READ between storage server and client, chunked EXEC between storage server and name server, and the word
  // stream. Where the reads and chunks fall must not show.

  const MAX_DATA_SIZE: nat := 4096

  /** Content up to this size travels in the first reply; larger content in chunks of at most this size. */
  const CHUNK_SIZE: nat := 3996

  const WORD_BUFFER: nat := 4095

  /** A message of a transfer: the first reply, a chunk or the stop sign. Its buffer is padded with NUL. */
  datatype Packet = Reply(size: int, buffer: string) | Chunk(size: int, buffer: string) | Stop

  function Padded(bytes: string): (buffer: string)
    requires |bytes| <= MAX_DATA_SIZE
    ensures |buffer| == MAX_DATA_SIZE && buffer[..|bytes|] == bytes
  {
    bytes + seq(MAX_DATA_SIZE - |bytes|, _ => NUL)
  }

  /** A long stored into the message's 32-bit int field. */
  function Wrap32(n: int): (w: int)
    ensures -0x8000_0000 <= w < 0x8000_0000
  {
    (n + 0x8000_0000) % 0x1_0000_0000 - 0x8000_0000
  }

  /**
   fread: some of the bytes that are left, none only at the end. Callers are proved for every result the
   contract allows, wherever the read stops.
   */
  method Fread(file: string, pos: nat, limit: nat) returns (n: nat)
    requires pos <= |file| && limit > 0
    ensures n <= limit && pos + n <= |file| && (n == 0 <==> pos == |file|)
  {
    n := if |file| - pos < limit then |file| - pos else limit;
  }

  /** What the chunks carry, in order, up to the stop sign. */
  function Payload(ps: seq<Packet>): string {
    if ps == [] || ps[0].Stop? then ""
    else
      (if ps[0].Chunk? && 0 <= ps[0].size <= |ps[0].buffer| then ps[0].buffer[..ps[0].size] else "")
      + Payload(ps[1..])
  }

  lemma PayloadNext(ps: seq<Packet>, k: nat)
    requires k < |ps|
    ensures Payload(ps[k..])
         == if ps[k].Stop? then ""
            else (if ps[k].Chunk? && 0 <= ps[k].size <= |ps[k].buffer| then ps[k].buffer[..ps[k].size] else "")
                 + Payload(ps[k + 1..])
    ensures "" + Payload(ps[k + 1..]) == Payload(ps[k + 1..])
  {
    assert ps[k..][0] == ps[k] && ps[k..][1..] == ps[k + 1..];
  }

  lemma PayloadEnd(ps: seq<Packet>)
    ensures Payload(ps[|ps|..]) == ""
  {
  }

  predicate GoodChunks(ps: seq<Packet>) {
    forall i | 0 <= i < |ps| :: ps[i].Chunk? && 0 < ps[i].size <= 3996 && |ps[i].buffer| == 4096
  }

  lemma {:induction false} PayloadAppend(a: seq<Packet>, b: seq<Packet>)
    requires GoodChunks(a)
    ensures Payload(a + b) == Payload(a) + Payload(b)
  {
    if a == [] {
      assert a + b == b;
    } else {
      assert (a + b)[0] == a[0] && (a + b)[1..] == a[1..] + b;
      PayloadAppend(a[1..], b);
      Assoc(a[0].buffer[..a[0].size], Payload(a[1..]), Payload(b));
    }
  }

  // ---------- sending ----------

  /** The chunk loop of READ and EXEC. */
  method SendChunks(file: string) returns (chunks: seq<Packet>)
    ensures GoodChunks(chunks) && Payload(chunks) == file
  {
    chunks := [];
    var bytesSent := 0;
    while bytesSent < |file|
      invariant bytesSent <= |file| && GoodChunks(chunks) && Payload(chunks) == file[..bytesSent]
    {
      var n := Fread(file, bytesSent, CHUNK_SIZE);
      var chunk := Chunk(n, Padded(file[bytesSent..bytesSent + n]));
      PayloadAppend(chunks, [chunk]);
      OneChunk(file[bytesSent..bytesSent + n]);
      assert file[..bytesSent] + file[bytesSent..bytesSent + n] == file[..bytesSent + n];
      chunks := chunks + [chunk];
      bytesSent := bytesSent + n;
    }
  }

  lemma OneChunk(bytes: string)
    requires |bytes| <= CHUNK_SIZE
    ensures Payload([Chunk(|bytes|, Padded(bytes))]) == bytes
  {
    assert [Chunk(|bytes|, Padded(bytes))][1..] == [];
    assert bytes + "" == bytes;
  }

  /** handle_read_request, after the access check. sizeText stands for the decimal digits of the size. */
  method SendRead(file: string, sizeText: string) returns (ps: seq<Packet>)
    requires |sizeText| <= 20
    ensures |file| <= CHUNK_SIZE ==> ps == [Reply(Wrap32(|file|), Padded(file))]
    ensures |file| > CHUNK_SIZE ==>
              && |ps| >= 2 && ps[0] == Reply(Wrap32(|file|), Padded("FILE_SIZE:" + sizeText)) && Last(ps) == Stop
              && GoodChunks(ps[1..|ps| - 1]) && Payload(ps[1..]) == file
  {
    if |file| <= CHUNK_SIZE {
      ps := [Reply(Wrap32(|file|), Padded(file))];
    } else {
      var chunks := SendChunks(file);
      PayloadAppend(chunks, [Stop]);
      ps := [Reply(Wrap32(|file|), Padded("FILE_SIZE:" + sizeText))] + chunks + [Stop];
      assert ps[1..] == chunks + [Stop] && ps[1..|ps| - 1] == chunks;
      assert file + "" == file;
    }
  }

  /** The EXEC sender. */
  method SendExec(file: string) returns (ps: seq<Packet>)
    ensures |ps| >= 2 && ps[0] == Reply(Wrap32(|file|), Padded("")) && Last(ps) == Stop
    ensures GoodChunks(ps[1..|ps| - 1]) && Payload(ps[1..|ps| - 1]) == file
  {
    var chunks := SendChunks(file);
    ps := [Reply(Wrap32(|file|), Padded(""))] + chunks + [Stop];
    assert ps[1..|ps| - 1] == chunks;
  }

  // ---------- receiving ----------

  /** send_read_request: what the client writes out, without the line end it adds. */
  method ReceiveRead(ps: seq<Packet>) returns (out: string)
    requires ps != [] && ps[0].Reply?
    requires forall i | 0 <= i < |ps| && ps[i].Chunk? :: 0 <= ps[i].size <= |ps[i].buffer|
    ensures out == if ps[0].size <= CHUNK_SIZE then CText(ps[0].buffer) else Payload(ps[1..])
  {
    if ps[0].size <= CHUNK_SIZE {
      return CText(ps[0].buffer);
    }
    hide Payload;
    out := "";
    var k := 1;
    while k < |ps|
      invariant 1 <= k <= |ps| && out + Payload(ps[k..]) == Payload(ps[1..])
    {
      PayloadNext(ps, k);
      if ps[k].Stop? { break; }
      if ps[k].Chunk? {
        Assoc(out, ps[k].buffer[..ps[k].size], Payload(ps[k + 1..]));
        out := out + ps[k].buffer[..ps[k].size];
      }
      k := k + 1;
    }
    if k == |ps| { PayloadEnd(ps); }
    assert out + "" == out;
  }

  /** The reassembly loop of handle_exec: stops at the announced size or at the stop sign. */
  method ReceiveExec(ps: seq<Packet>) returns (content: string)
    requires |ps| >= 2 && ps[0].Reply? && Last(ps).Stop? && GoodChunks(ps[1..|ps| - 1])
    requires ps[0].size == |Payload(ps[1..|ps| - 1])|
    ensures content == Payload(ps[1..|ps| - 1])
  {
    hide Payload;
    ghost var chunks := ps[1..|ps| - 1];
    var fileSize := ps[0].size;
    content := "";
    var k := 1;
    while |content| < fileSize
      invariant 1 <= k <= |ps| - 1 && content + Payload(chunks[k - 1..]) == Payload(chunks)
      decreases |ps| - k
    {
      NoneLeft(chunks, k - 1, content);
      PayloadNext(chunks, k - 1);
      assert chunks[k - 1] == ps[k];
      if ps[k].Stop? { break; }
      if ps[k].Chunk? {
        Assoc(content, ps[k].buffer[..ps[k].size], Payload(chunks[k..]));
        content := content + ps[k].buffer[..ps[k].size];
      }
      k := k + 1;
    }
    assert content <= Payload(chunks);
  }

  lemma NoneLeft(chunks: seq<Packet>, k: nat, content: string)
    requires k <= |chunks| && content + Payload(chunks[k..]) == Payload(chunks) && |content| < |Payload(chunks)|
    ensures k < |chunks|
  {
  }

  // ---------- the transfers as a whole ----------

  /** What the client shows of a file. */
  function ReadResult(file: string, sizeText: string): string
    requires |sizeText| <= 20
  {
    if Wrap32(|file|) > CHUNK_SIZE then file
    else if |file| <= CHUNK_SIZE then CText(Padded(file)) else CText(Padded("FILE_SIZE:" + sizeText))
  }

  method ReadTransfer(file: string, sizeText: string) returns (out: string)
    requires |sizeText| <= 20
    ensures out == ReadResult(file, sizeText)
  {
    var ps := SendRead(file, sizeText);
    if |file| > CHUNK_SIZE {
      forall i | 0 <= i < |ps| && ps[i].Chunk? ensures 0 <= ps[i].size <= |ps[i].buffer| {
        assert ps[i] == ps[1..|ps| - 1][i - 1];
      }
    }
    out := ReceiveRead(ps);
  }

  /**
   READ gives back exactly the file if and only if a small file holds no NUL byte and a large file's size, cut to
   32 bits, still reads as large; in particular for every large file below 2 GiB.
   */
  lemma ReadExactIff(file: string, sizeText: string)
    requires |sizeText| <= 20
    ensures ReadResult(file, sizeText) == file
        <==> if |file| <= 3996 then NUL !in file else Wrap32(|file|) > 3996
    ensures 3996 < |file| < 0x8000_0000 ==> ReadResult(file, sizeText) == file
  {
    if |file| <= CHUNK_SIZE {
      PaddedText(file);
    } else {
      CTextHasNoNul(Padded("FILE_SIZE:" + sizeText));
    }
  }

  lemma PaddedText(bytes: string)
    requires |bytes| < MAX_DATA_SIZE
    ensures CText(Padded(bytes)) == bytes <==> NUL !in bytes
  {
    if NUL !in bytes {
      CTextBeforeNul(bytes, seq(MAX_DATA_SIZE - |bytes|, _ => NUL));
    } else {
      CTextHasNoNul(Padded(bytes));
    }
  }

  /** EXEC rebuilds the file for every size the 32-bit field can hold. */
  method ExecTransfer(file: string) returns (content: string)
    requires |file| < 0x8000_0000
    ensures content == file
  {
    var ps := SendExec(file);
    content := ReceiveExec(ps);
  }

  // ---------- the word stream ----------

  const SEPARATORS := " \t\n\r"

  /** The words the loop sends for the unread text rest, with word in its buffer. */
  function Emit(word: string, rest: string): seq<string>
    decreases |rest|
  {
    if rest == "" then (if word == "" then [] else [word])
    else if rest[0] in SEPARATORS then (if word == "" then [] else [word]) + Emit("", rest[1..])
    else Emit(Truncate(word + [rest[0]], WORD_BUFFER), rest[1..])
  }

  function CutAll(ws: seq<string>): (r: seq<string>)
    ensures |r| == |ws| && forall i | 0 <= i < |ws| :: r[i] == Truncate(ws[i], WORD_BUFFER)
  {
    seq(|ws|, i requires 0 <= i < |ws| => Truncate(ws[i], WORD_BUFFER))
  }

  lemma EmitNext(word: string, unread: string)
    requires unread != "" && |word| <= WORD_BUFFER
    ensures unread[0] in SEPARATORS ==>
              Emit(word, unread) == (if word == "" then [] else [word]) + Emit("", unread[1..])
    ensures unread[0] !in SEPARATORS ==>
              Emit(word, unread) == Emit(if |word| < WORD_BUFFER then word + [unread[0]] else word, unread[1..])
  {
    assert Truncate(word + [unread[0]], WORD_BUFFER) == if |word| < WORD_BUFFER then word + [unread[0]] else word;
  }

  /** Emitting from the middle of a word completes that word first. */
  lemma {:induction false} EmitToken(word: string, rest: string)
    requires |word| <= WORD_BUFFER
    ensures var n := TokenLength(rest, SEPARATORS);
            Emit(word, rest) == (if word + rest[..n] == "" then [] else [Truncate(word + rest[..n], WORD_BUFFER)])
                                + (if n < |rest| then Emit("", rest[n + 1..]) else [])
    decreases |rest|
  {
    var n := TokenLength(rest, SEPARATORS);
    TokenLengthNext(rest);
    TruncateAgain(word, "");
    if rest == "" || rest[0] in SEPARATORS {
      assert word + rest[..0] == word;
      if rest != "" { EmitNext(word, rest); }
    } else {
      EmitNext(word, rest);
      hide *;
      TruncateOne(word, rest[0]);
      RunSlices(word, rest, n);
      TruncateAgain(word + [rest[0]], rest[1..][..n - 1]);
      EmitToken(if |word| < WORD_BUFFER then word + [rest[0]] else word, rest[1..]);
    }
  }

  lemma TokenLengthNext(rest: string)
    ensures TokenLength(rest, SEPARATORS)
         == if rest == "" || rest[0] in SEPARATORS then 0 else 1 + TokenLength(rest[1..], SEPARATORS)
  {
  }

  lemma RunSlices(word: string, rest: string, n: nat)
    requires 0 < n <= |rest|
    ensures word + [rest[0]] + rest[1..][..n - 1] == word + rest[..n]
    ensures n < |rest| ==> rest[1..][n..] == rest[n + 1..]
  {
  }

  lemma TruncateOne(word: string, c: char)
    requires |word| <= WORD_BUFFER
    ensures Truncate(word + [c], WORD_BUFFER) == if |word| < WORD_BUFFER then word + [c] else word
  {
  }

  lemma TruncateAgain(a: string, b: string)
    ensures Truncate(Truncate(a, WORD_BUFFER) + b, WORD_BUFFER) == Truncate(a + b, WORD_BUFFER)
    ensures Truncate(a, WORD_BUFFER) + b == "" <==> a + b == ""
    ensures |Truncate(a, WORD_BUFFER)| <= WORD_BUFFER && (|a| <= WORD_BUFFER ==> Truncate(a, WORD_BUFFER) == a)
  {
  }

  /** The stream is the white-space split of the whole file, words cut at 4095 bytes. */
  lemma {:induction false} EmitIsSplit(s: string)
    ensures Emit("", s) == CutAll(Tokens(s, SEPARATORS))
    decreases |s|
  {
    hide Emit, Tokens;
    EmitToken("", s);
    if s == "" {
      NoTokens(SEPARATORS);
    } else if s[0] in SEPARATORS {
      EmitIsSplit(s[1..]);
      TokensAfterSeparator(s[0], s[1..], SEPARATORS);
      assert [s[0]] + s[1..] == s;
    } else {
      var n := TokenLength(s, SEPARATORS);
      TokensStep(s, SEPARATORS);
      assert "" + s[..n] == s[..n];
      var rest := if n < |s| then Tokens(s[n + 1..], SEPARATORS) else [];
      if n < |s| { EmitIsSplit(s[n + 1..]); }
      CutCons(s[..n], rest);
    }
  }

  lemma CutCons(w: string, ws: seq<string>)
    ensures CutAll([w] + ws) == [Truncate(w, WORD_BUFFER)] + CutAll(ws)
  {
  }

  /** The loop over one read buffer: words sent so far, the word in the buffer, and what is still to come. */
  method StreamBuffer(buffer: string, word: string, sent: seq<string>, ghost words: seq<string>, ghost rest: string)
    returns (word': string, sent': seq<string>, ghost words': seq<string>)
    requires |word| <= WORD_BUFFER && Sent(sent, words)
    ensures |word'| <= WORD_BUFFER && Sent(sent', words')
    ensures words' + Emit(word', rest) == words + Emit(word, buffer + rest)
  {
    hide Emit, CText;
    word', sent', words' := word, sent, words;
    assert buffer[0..] == buffer;
    for i := 0 to |buffer|
      invariant |word'| <= WORD_BUFFER && Sent(sent', words')
      invariant words' + Emit(word', buffer[i..] + rest) == words + Emit(word, buffer + rest)
    {
      var c := buffer[i];
      assert (buffer[i..] + rest)[0] == c && (buffer[i..] + rest)[1..] == buffer[i + 1..] + rest;
      EmitNext(word', buffer[i..] + rest);
      if c == ' ' || c == '\t' || c == '\n' || c == '\r' {
        if |word'| > 0 {
          Assoc(words', [word'], Emit("", buffer[i + 1..] + rest));
          sent', words' := sent' + [CText(word' + [NUL])], words' + [word'];
          word' := "";
        }
      } else {
        if |word'| < WORD_BUFFER {
          word' := word' + [c];
        }
      }
    }
    assert buffer[|buffer|..] + rest == rest;
  }

  /** handle_stream_request: the words sent, wherever the reads fall. */
  method Stream(file: string) returns (sent: seq<string>)
    ensures |sent| == |Tokens(file, SEPARATORS)|
    ensures forall i | 0 <= i < |sent| :: sent[i] == CText(Truncate(Tokens(file, SEPARATORS)[i], WORD_BUFFER) + [NUL])
  {
    hide CText, Tokens, Truncate;
    var word, pos: nat := "", 0;
    sent := [];
    ghost var words := [];
    var n := Fread(file, pos, CHUNK_SIZE);
    EmitIsSplit(file);
    assert file[0..] == file;
    while n > 0
      invariant pos + n <= |file| && (n == 0 <==> pos == |file|)
      invariant |word| <= WORD_BUFFER && Sent(sent, words)
      invariant words + Emit(word, file[pos..]) == Emit("", file)
      decreases |file| - pos
    {
      assert file[pos..] == file[pos..pos + n] + file[pos + n..];
      word, sent, words := StreamBuffer(file[pos..pos + n], word, sent, words, file[pos + n..]);
      pos := pos + n;
      n := Fread(file, pos, CHUNK_SIZE);
    }
    assert file[pos..] == "";
    if |word| > 0 {
      sent, words := sent + [CText(word + [NUL])], words + [word];
    }
    assert words == CutAll(Tokens(file, SEPARATORS));
  }

  /** The messages sent for words: their buffers read as C strings. */
  ghost predicate Sent(sent: seq<string>, words: seq<string>) {
    |sent| == |words| && forall i | 0 <= i < |words| :: sent[i] == CText(words[i] + [NUL])
  }

  predicate Blank(c: char) {
    c == ' ' || c == '\t' || c == '\n' || c == '\r'
  }

  /** What sent words have to do with a file: each is a longest run without blanks, as far as the buffer goes. */
  ghost predicate Streams(file: string, at: seq<nat>, sent: seq<string>) {
    && |at| == |sent|
    && (forall i | 0 <= i < |at| :: at[i] < |file| && StreamedFrom(file, at[i], sent[i]))
    && (forall i, j | 0 <= i < j < |at| :: at[i] < at[j])
    && (forall k | 0 <= k < |file| :: !Blank(file[k]) && (k == 0 || Blank(file[k - 1])) <==> k in at)
  }

  /** The run from a to b, cut at 4095 bytes and at its first NUL. */
  predicate RunWord(file: string, a: nat, b: nat, word: string) {
    && a < b <= |file| && (forall i | a <= i < b :: !Blank(file[i])) && (b < |file| ==> Blank(file[b]))
    && word == CText(file[a..if b - a <= 4095 then b else a + 4095])
  }

  ghost predicate StreamedFrom(file: string, a: nat, word: string) {
    exists b: nat :: RunWord(file, a, b, word)
  }

  /** The words of the stream are the blank-separated runs of the file, all of them, in order. */
  lemma StreamedWords(file: string, sent: seq<string>) returns (at: seq<nat>)
    requires |sent| == |Tokens(file, SEPARATORS)|
    requires forall i | 0 <= i < |sent| ::
               sent[i] == CText(Truncate(Tokens(file, SEPARATORS)[i], WORD_BUFFER) + [NUL])
    ensures Streams(file, at, sent)
  {
    var ws := Tokens(file, SEPARATORS);
    at := TokensAreRuns(file, SEPARATORS);
    hide Tokens, CText;
    forall c: char ensures c in SEPARATORS <==> Blank(c) { Separators(c); }
    forall i | 0 <= i < |at| ensures at[i] < |file| && StreamedFrom(file, at[i], sent[i]) {
      var a, b := at[i], at[i] + |ws[i]|;
      assert TokenAt(file, SEPARATORS, a, ws[i]);
      var word := file[a..if b - a <= 4095 then b else a + 4095];
      assert Truncate(ws[i], WORD_BUFFER) == word;
      CTextOfBuffer(word);
      assert RunWord(file, a, b, sent[i]);
    }
    forall k | 0 <= k < |file| ensures !Blank(file[k]) && (k == 0 || Blank(file[k - 1])) <==> k in at {
      BeginsRun(file, at, ws, k);
    }
  }

  function WithoutBlanks(s: string): string {
    if s == "" then ""
    else (if s[0] == ' ' || s[0] == '\t' || s[0] == '\n' || s[0] == '\r' then "" else [s[0]]) + WithoutBlanks(s[1..])
  }

  lemma {:induction false} WithoutBlanksAppend(a: string, b: string)
    ensures WithoutBlanks(a + b) == WithoutBlanks(a) + WithoutBlanks(b)
  {
    if a == "" {
      assert a + b == b;
    } else {
      var h := if Blank(a[0]) then "" else [a[0]];
      calc {
        WithoutBlanks(a + b);
        { assert (a + b)[0] == a[0] && (a + b)[1..] == a[1..] + b; }
        h + WithoutBlanks(a[1..] + b);
        { WithoutBlanksAppend(a[1..], b); }
        h + (WithoutBlanks(a[1..]) + WithoutBlanks(b));
        WithoutBlanks(a) + WithoutBlanks(b);
      }
    }
  }

  lemma {:induction false} NothingBlank(s: string)
    requires forall i | 0 <= i < |s| :: !Blank(s[i])
    ensures WithoutBlanks(s) == s
  {
    if s != "" { NothingBlank(s[1..]); }
  }

  lemma {:induction false} TokensSpell(s: string)
    ensures Concat(Tokens(s, SEPARATORS)) == WithoutBlanks(s)
    decreases |s|
  {
    hide Tokens, TokenLength;
    if s == "" {
      NoTokens(SEPARATORS);
    } else if s[0] in SEPARATORS {
      Separators(s[0]);
      TokensSpell(s[1..]);
      TokensAfterSeparator(s[0], s[1..], SEPARATORS);
      assert [s[0]] + s[1..] == s;
    } else {
      var n := TokenLength(s, SEPARATORS);
      var rest := if n < |s| then s[n + 1..] else "";
      TokensStep(s, SEPARATORS);
      TokenBody(s, SEPARATORS);
      NoTokens(SEPARATORS);
      forall i | 0 <= i < n ensures !Blank(s[i]) { Separators(s[i]); }
      assert s == s[..n] + s[n..];
      WithoutBlanksAppend(s[..n], s[n..]);
      NothingBlank(s[..n]);
      if n < |s| {
        Separators(s[n]);
        assert s[n..][0] == s[n] && s[n..][1..] == rest;
      }
      TokensSpell(rest);
    }
  }

  /** Of a file without NUL bytes and overlong words, the words sent are, put together, all but the blanks. */
  lemma StreamedText(file: string, sent: seq<string>)
    requires |sent| == |Tokens(file, SEPARATORS)|
    requires forall i | 0 <= i < |sent| ::
               sent[i] == CText(Truncate(Tokens(file, SEPARATORS)[i], WORD_BUFFER) + [NUL])
    requires '\0' !in file && forall i | 0 <= i < |sent| :: |Tokens(file, SEPARATORS)[i]| <= 4095
    ensures Concat(sent) == WithoutBlanks(file)
    ensures forall i, c | 0 <= i < |sent| && c in sent[i] :: c != ' ' && c != '\t' && c != '\n' && c != '\r'
  {
    var ws := Tokens(file, SEPARATORS);
    var at := TokensAreRuns(file, SEPARATORS);
    TokensSpell(file);
    hide Tokens, CText, WithoutBlanks, Concat;
    forall i | 0 <= i < |sent|
      ensures sent[i] == ws[i] && forall c | c in sent[i] :: !Blank(c)
    {
      assert TokenAt(file, SEPARATORS, at[i], ws[i]);
      forall c | c in ws[i] ensures !Blank(c) && c in file { Separators(c); }
      CTextBeforeNul(ws[i], [NUL]);
    }
    assert sent == ws;
  }

  lemma BeginsRun(file: string, at: seq<nat>, ws: seq<string>, k: nat)
    requires RunsAt(file, SEPARATORS, at, ws) && k < |file|
    ensures !Blank(file[k]) && (k == 0 || Blank(file[k - 1])) <==> k in at
  {
    forall c: char ensures c in SEPARATORS <==> Blank(c) { Separators(c); }
    forall i | 0 <= i < |at| ensures IsRun(file, SEPARATORS, at[i], at[i] + |ws[i]|) {
      assert TokenAt(file, SEPARATORS, at[i], ws[i]);
    }
    if !Blank(file[k]) {
      assert Covers(at, ws, k);
      var i :| 0 <= i < |at| && at[i] <= k < at[i] + |ws[i]|;
      assert at[i] < k ==> !Blank(file[k - 1]);
      if j :| 0 <= j < |at| && at[j] == k { assert IsRun(file, SEPARATORS, at[j], at[j] + |ws[j]|); }
    }
  }

  lemma Separators(c: char)
    ensures c in SEPARATORS <==> Blank(c)
  {
    assert SEPARATORS[0] == ' ' && SEPARATORS[1] == '\t' && SEPARATORS[2] == '\n' && SEPARATORS[3] == '\r';
  }

  lemma {:induction false} CTextOfBuffer(word: string)
    ensures CText(word + [NUL]) == CText(word)
  {
    if word != [] && word[0] != NUL {
      assert (word + [NUL])[0] == word[0] && (word + [NUL])[1..] == word[1..] + [NUL];
      CTextOfBuffer(word[1..]);
    }
  }
}

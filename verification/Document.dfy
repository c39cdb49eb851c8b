/**
 A document as the storage server keeps it in memory: sentences of words, each with the terminator and the
 lock fields of its node. The parser and the two printers are specified here over values; LinkedDocument
 proves that the list-building loops compute exactly these functions.
 */
module Document {
  import opened Text

  datatype Sentence = Sentence(words: seq<string>, delim: char, lock: Option<string>)

  type Doc = seq<Sentence>

  /** A sentence fresh from the parser: nobody holds it. */
  function Unlocked(words: seq<string>, delim: char): Sentence {
    Sentence(words, delim, None)
  }

  /** All the words of a document in reading order. */
  function Flatten(d: Doc): seq<string> {
    if d == [] then [] else d[0].words + Flatten(d[1..])
  }

  lemma {:induction false} FlattenAppend(a: Doc, b: Doc)
    ensures Flatten(a + b) == Flatten(a) + Flatten(b)
  {
    if a == [] {
      assert a + b == b;
    } else {
      calc {
        Flatten(a + b);
        { assert (a + b)[0] == a[0] && (a + b)[1..] == a[1..] + b; }
        a[0].words + Flatten(a[1..] + b);
        { FlattenAppend(a[1..], b); }
        a[0].words + (Flatten(a[1..]) + Flatten(b));
        Flatten(a) + Flatten(b);
      }
    }
  }

  // ---------- reading words ----------

  /** How many bytes the reader copies into its word buffer: non-space ones, at most limit of them. */
  function RunLength(s: string, limit: nat): (k: nat)
    ensures k <= |s| && k <= limit
    ensures s != [] && limit > 0 && !IsSpace(s[0]) ==> k > 0
  {
    if s == [] || limit == 0 || IsSpace(s[0]) then 0 else 1 + RunLength(s[1..], limit - 1)
  }

  /** A buffer is cut after each terminator in it, so "e.g." gives "e." and "g.". */
  function Parts(chunk: string): seq<string> {
    PartsFrom("", chunk)
  }

  /** Parts of open + rest, where open holds no terminator. */
  function PartsFrom(open: string, rest: string): seq<string>
    decreases |rest|
  {
    if rest == [] then (if open == [] then [] else [open])
    else if IsDelimiter(rest[0]) then [open + [rest[0]]] + PartsFrom("", rest[1..])
    else PartsFrom(open + [rest[0]], rest[1..])
  }

  /** The words of a text: maximal non-space runs, cut at 255 bytes and after every terminator. */
  function Words(s: string): seq<string>
    decreases |s|
  {
    if s == [] then []
    else if IsSpace(s[0]) then Words(s[1..])
    else
      var k := RunLength(s, WORD_LIMIT);
      Parts(s[..k]) + Words(s[k..])
  }

  // ---------- grouping words into sentences ----------

  predicate EndsSentence(w: string) {
    w != [] && IsDelimiter(Last(w))
  }

  /** Sentences of open + ws, where open is an unfinished sentence. */
  function Group(open: seq<string>, ws: seq<string>): Doc
    decreases |ws|
  {
    if ws == [] then (if open == [] then [] else [Unlocked(open, NUL)])
    else if EndsSentence(ws[0]) then [Unlocked(open + [ws[0]], Last(ws[0]))] + Group([], ws[1..])
    else Group(open + [ws[0]], ws[1..])
  }

  /** parse_file_to_linked_list on a NUL-terminated text. */
  function Parse(s: string): Doc {
    Group([], Words(s))
  }

  // ---------- the two printers ----------

  function TerminatorText(delim: char): string {
    if delim == NUL then "" else [delim]
  }

  /** The undo printer: words only (each word carries its own terminator). */
  function PrintUndo(d: Doc): string {
    if d == [] then "" else if |d| == 1 then Join(d[0].words) else Join(d[0].words) + " " + PrintUndo(d[1..])
  }

  /** The sync printer: words, then the terminator once more. */
  function PrintSync(d: Doc): string {
    if d == [] then ""
    else Join(d[0].words) + TerminatorText(d[0].delim) + (if |d| == 1 then "" else " " + PrintSync(d[1..]))
  }

  // ---------- what the parser can produce ----------

  /** A word the parser can produce: short, no white space, a terminator only as its last byte. */
  predicate Atomic(w: string) {
    && 0 < |w| <= WORD_LIMIT
    && (forall i | 0 <= i < |w| :: !IsSpace(w[i]))
    && (forall i | 0 <= i < |w| - 1 :: !IsDelimiter(w[i]))
  }

  predicate AllAtomic(ws: seq<string>) {
    forall i | 0 <= i < |ws| :: Atomic(ws[i])
  }

  /** A sentence as the parser leaves it: its terminator is exactly the last byte of its last word. */
  predicate CanonicalSentence(s: Sentence) {
    && s.lock == None
    && s.words != []
    && AllAtomic(s.words)
    && (forall i | 0 <= i < |s.words| - 1 :: !EndsSentence(s.words[i]))
    && s.delim == if EndsSentence(Last(s.words)) then Last(Last(s.words)) else NUL
  }

  /** Every sentence is canonical and only the last may lack a terminator. */
  predicate Canonical(d: Doc) {
    && (forall i | 0 <= i < |d| :: CanonicalSentence(d[i]))
    && (forall i | 0 <= i < |d| - 1 :: d[i].delim != NUL)
  }

  /** The number of finished sentences. */
  function Terminated(d: Doc): nat {
    if d == [] then 0 else (if d[0].delim != NUL then 1 else 0) + Terminated(d[1..])
  }

  /** Each finished sentence followed by a sentence that holds only its terminator. */
  function DoubleTerminators(d: Doc): Doc {
    if d == [] then []
    else if d[0].delim != NUL then [d[0], Unlocked([[d[0].delim]], d[0].delim)] + DoubleTerminators(d[1..])
    else [d[0]] + DoubleTerminators(d[1..])
  }
}

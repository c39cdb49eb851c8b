/** Character classes, C-string conventions and small sequence helpers shared by every component. */
module Text {

  datatype Option<+T> = None | Some(value: T)

  /** The byte that ends a C string; it also stands for "no terminator" in a sentence node. */
  const NUL: char := '\0'

  /** Capacity of a word buffer without its closing NUL. */
  const WORD_LIMIT: nat := 255

  /** isspace in the C locale: blank, TAB, LF, VT, FF, CR. */
  predicate IsSpace(c: char) {
    c == ' ' || c == '\t' || c == '\n' || c == '\U{0B}' || c == '\U{0C}' || c == '\r'
  }

  /** These are six bytes. */
  lemma WhiteSpace(c: char)
    ensures IsSpace(c) <==> c as int == 32 || 9 <= c as int <= 13
  {
  }

  predicate IsDelimiter(c: char) {
    c == '.' || c == '!' || c == '?'
  }

  function Last<T>(s: seq<T>): T
    requires s != []
  {
    s[|s| - 1]
  }

  /** strncpy into a buffer of n + 1 bytes. */
  function Truncate(s: string, n: nat): (t: string)
  {
    if |s| <= n then s else s[..n]
  }

  function InsertAt<T>(s: seq<T>, i: nat, x: T): seq<T>
    requires i <= |s|
  {
    s[..i] + [x] + s[i..]
  }

  lemma Assoc<T>(a: seq<T>, b: seq<T>, c: seq<T>)
    ensures a + (b + c) == (a + b) + c
  {
  }

  function Concat(ws: seq<string>): string {
    if ws == [] then "" else ws[0] + Concat(ws[1..])
  }

  lemma {:induction false} ConcatAppend(a: seq<string>, b: seq<string>)
    ensures Concat(a + b) == Concat(a) + Concat(b)
  {
    if a == [] {
      assert a + b == b;
    } else {
      calc {
        Concat(a + b);
        { assert (a + b)[0] == a[0] && (a + b)[1..] == a[1..] + b; }
        a[0] + Concat(a[1..] + b);
        { ConcatAppend(a[1..], b); }
        a[0] + (Concat(a[1..]) + Concat(b));
        Concat(a) + Concat(b);
      }
    }
  }

  /** The words separated by single blanks. */
  function Join(ws: seq<string>): string {
    if ws == [] then "" else if |ws| == 1 then ws[0] else ws[0] + " " + Join(ws[1..])
  }

  lemma {:induction false} JoinAppend(a: seq<string>, b: seq<string>)
    requires a != [] && b != []
    ensures Join(a + b) == Join(a) + " " + Join(b)
  {
    assert (a + b)[1..] == a[1..] + b;
    if |a| > 1 {
      JoinAppend(a[1..], b);
    } else {
      assert (a + b)[1..] == b;
    }
  }

  /** The text without its white space, in order. */
  function NonSpace(s: string): string {
    if s == [] then "" else (if IsSpace(s[0]) then "" else [s[0]]) + NonSpace(s[1..])
  }

  lemma {:induction false} NonSpaceAppend(a: string, b: string)
    ensures NonSpace(a + b) == NonSpace(a) + NonSpace(b)
  {
    if a == [] {
      assert a + b == b;
    } else {
      var h := if IsSpace(a[0]) then "" else [a[0]];
      calc {
        NonSpace(a + b);
        { assert (a + b)[0] == a[0] && (a + b)[1..] == a[1..] + b; }
        h + NonSpace(a[1..] + b);
        { NonSpaceAppend(a[1..], b); }
        h + (NonSpace(a[1..]) + NonSpace(b));
        NonSpace(a) + NonSpace(b);
      }
    }
  }

  lemma {:induction false} NonSpaceIdentity(s: string)
    requires forall i | 0 <= i < |s| :: !IsSpace(s[i])
    ensures NonSpace(s) == s
  {
    if s != [] {
      NonSpaceIdentity(s[1..]);
    }
  }

  lemma {:induction false} NonSpaceOfJoin(ws: seq<string>)
    ensures NonSpace(Join(ws)) == NonSpace(Concat(ws))
  {
    if ws == [] {
    } else if |ws| == 1 {
      assert ws[0] + Concat(ws[1..]) == ws[0];
    } else {
      NonSpaceOfJoin(ws[1..]);
      NonSpaceAppend(ws[0] + " ", Join(ws[1..]));
      NonSpaceAppend(ws[0], " ");
      NonSpaceAppend(ws[0], Concat(ws[1..]));
      assert ws[0] + " " + Join(ws[1..]) == (ws[0] + " ") + Join(ws[1..]);
    }
  }

  /** How many sentence terminators a text holds. */
  function DelimiterCount(s: string): nat {
    if s == [] then 0 else (if IsDelimiter(s[0]) then 1 else 0) + DelimiterCount(s[1..])
  }

  function CharCount(s: string, c: char): nat {
    if s == [] then 0 else (if s[0] == c then 1 else 0) + CharCount(s[1..], c)
  }

  lemma {:induction false} CharCountAppend(a: string, b: string, c: char)
    ensures CharCount(a + b, c) == CharCount(a, c) + CharCount(b, c)
  {
    if a == [] {
      assert a + b == b;
    } else {
      CharCountAppend(a[1..], b, c);
      assert (a + b)[1..] == a[1..] + b;
    }
  }

  lemma {:induction false} CharCountOfJoin(ws: seq<string>, c: char)
    requires c != ' '
    ensures CharCount(Join(ws), c) == CharCount(Concat(ws), c)
  {
    if ws == [] {
    } else if |ws| == 1 {
      assert ws[0] + Concat(ws[1..]) == ws[0];
    } else {
      CharCountOfJoin(ws[1..], c);
      CharCountAppend(ws[0] + " ", Join(ws[1..]), c);
      CharCountAppend(ws[0], " ", c);
      CharCountAppend(ws[0], Concat(ws[1..]), c);
    }
  }

  lemma {:induction false} DelimiterCountAppend(a: string, b: string)
    ensures DelimiterCount(a + b) == DelimiterCount(a) + DelimiterCount(b)
  {
    if a == [] {
      assert a + b == b;
    } else {
      DelimiterCountAppend(a[1..], b);
      assert (a + b)[1..] == a[1..] + b;
    }
  }

  lemma {:induction false} DelimitersAreNotSpace(s: string)
    ensures DelimiterCount(NonSpace(s)) == DelimiterCount(s)
  {
    if s != [] {
      DelimitersAreNotSpace(s[1..]);
      DelimiterCountAppend(if IsSpace(s[0]) then "" else [s[0]], NonSpace(s[1..]));
    }
  }

  lemma {:induction false} NoDelimiters(s: string)
    requires forall i | 0 <= i < |s| :: !IsDelimiter(s[i])
    ensures DelimiterCount(s) == 0
  {
    if s != [] {
      NoDelimiters(s[1..]);
    }
  }

  /** A byte string as C's string functions see it: up to the first NUL. */
  function CText(bytes: string): string {
    if bytes == [] || bytes[0] == NUL then "" else [bytes[0]] + CText(bytes[1..])
  }

  lemma {:induction false} CTextIsPrefix(bytes: string)
    ensures CText(bytes) <= bytes
  {
    if bytes != [] && bytes[0] != NUL {
      CTextIsPrefix(bytes[1..]);
    }
  }

  lemma {:induction false} CTextIdentity(s: string)
    requires NUL !in s
    ensures CText(s) == s
  {
    if s != [] {
      CTextIdentity(s[1..]);
    }
  }

  lemma {:induction false} CTextBeforeNul(s: string, rest: string)
    requires NUL !in s && rest != [] && rest[0] == NUL
    ensures CText(s + rest) == s
  {
    if s == [] {
      assert s + rest == rest;
    } else {
      assert (s + rest)[0] == s[0] && (s + rest)[1..] == s[1..] + rest;
      CTextBeforeNul(s[1..], rest);
    }
  }

  lemma {:induction false} CTextHasNoNul(bytes: string)
    ensures NUL !in CText(bytes) && |CText(bytes)| <= |bytes|
  {
    if bytes != [] && bytes[0] != NUL {
      CTextHasNoNul(bytes[1..]);
    }
  }
}

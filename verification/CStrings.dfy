/** The C library's string scanners, as functions: strtok, strchr and strstr. */
module CStrings {
  import opened Text

  function SkipAny(s: string, seps: string): (t: string)
    ensures |t| <= |s|
    ensures t != [] ==> t[0] !in seps
  {
    if s == [] || s[0] !in seps then s else SkipAny(s[1..], seps)
  }

  function TokenLength(s: string, seps: string): (n: nat)
    ensures n <= |s|
    ensures s != [] && s[0] !in seps ==> n > 0
  {
    if s == [] || s[0] in seps then 0 else 1 + TokenLength(s[1..], seps)
  }

  datatype Scan = NoToken | Token(text: string, rest: string)

  /** One strtok call on the unread text: the next token and what is left after its separator. */
  function Strtok(s: string, seps: string): (r: Scan)
    ensures r.Token? ==> r.text != [] && |r.rest| < |s|
  {
    var t := SkipAny(s, seps);
    if t == [] then NoToken
    else
      var n := TokenLength(t, seps);
      Token(t[..n], if n < |t| then t[n + 1..] else "")
  }

  /** Everything a strtok loop yields. */
  function Tokens(s: string, seps: string): seq<string>
    decreases |s|
  {
    match Strtok(s, seps)
    case NoToken => []
    case Token(t, rest) => [t] + Tokens(rest, seps)
  }

  lemma TokensStep(s: string, seps: string)
    requires s != [] && s[0] !in seps
    ensures var n := TokenLength(s, seps);
            Tokens(s, seps) == [s[..n]] + if n < |s| then Tokens(s[n + 1..], seps) else []
  {
    hide Tokens;
    var n := TokenLength(s, seps);
    StrtokStep(s, seps);
    hide Strtok, TokenLength;
    TokensUnfold(s, seps);
    NoTokens(seps);
    if n == |s| { assert [s[..n]] + [] == [s[..n]]; }
  }

  lemma StrtokStep(s: string, seps: string)
    requires s != [] && s[0] !in seps
    ensures var n := TokenLength(s, seps);
            Strtok(s, seps) == Token(s[..n], if n < |s| then s[n + 1..] else "")
  {
    assert SkipAny(s, seps) == s;
  }

  lemma TokensUnfold(s: string, seps: string)
    ensures Tokens(s, seps)
         == match Strtok(s, seps) { case NoToken => [] case Token(t, rest) => [t] + Tokens(rest, seps) }
  {
  }

  lemma {:induction false} TokenLengthExact(w: string, rest: string, seps: string)
    requires forall i | 0 <= i < |w| :: w[i] !in seps
    requires rest == [] || rest[0] in seps
    ensures TokenLength(w + rest, seps) == |w|
  {
    if w == [] {
      assert w + rest == rest;
    } else {
      assert (w + rest)[1..] == w[1..] + rest;
      TokenLengthExact(w[1..], rest, seps);
    }
  }

  /** A token followed by a separator is read back whole. */
  lemma TokensOfToken(w: string, sep: char, rest: string, seps: string)
    requires w != [] && (forall i | 0 <= i < |w| :: w[i] !in seps) && sep in seps
    ensures Tokens(w + [sep] + rest, seps) == [w] + Tokens(rest, seps)
    ensures Tokens(w, seps) == [w]
  {
    var s := w + [sep] + rest;
    TokenLengthExact(w, [sep] + rest, seps);
    assert s == w + ([sep] + rest);
    assert SkipAny(s, seps) == s;
    assert s[..|w|] == w && s[|w| + 1..] == rest;
    TokenLengthExact(w, "", seps);
    assert w + "" == w && SkipAny(w, seps) == w && w[..|w|] == w;
    assert Tokens("", seps) == [];
  }

  lemma TokensAfterSeparator(sep: char, rest: string, seps: string)
    requires sep in seps
    ensures Tokens([sep] + rest, seps) == Tokens(rest, seps)
  {
    var s := [sep] + rest;
    assert s[0] == sep && s[1..] == rest;
    assert SkipAny(s, seps) == SkipAny(rest, seps);
    assert Strtok(s, seps) == Strtok(rest, seps);
  }

  lemma {:induction false} TokenBody(s: string, seps: string)
    ensures forall i | 0 <= i < TokenLength(s, seps) :: s[i] !in seps
    ensures TokenLength(s, seps) < |s| ==> s[TokenLength(s, seps)] in seps
  {
    if s == [] || s[0] in seps {
    } else {
      TokenBody(s[1..], seps);
      forall i | 0 <= i < TokenLength(s, seps) ensures s[i] !in seps {
        if i > 0 { assert s[i] == s[1..][i - 1]; }
      }
    }
  }

  /** A separator splits a text into two that are scanned independently. */
  lemma {:induction false} TokensSplit(a: string, sep: char, b: string, seps: string)
    requires sep in seps
    ensures Tokens(a + [sep] + b, seps) == Tokens(a, seps) + Tokens(b, seps)
    decreases |a|
  {
    hide Tokens, Strtok, SkipAny, TokenLength;
    var s := a + [sep] + b;
    if a == [] {
      assert s == [sep] + b;
      TokensAfterSeparator(sep, b, seps);
      NoTokens(seps);
    } else if a[0] in seps {
      TokensSplit(a[1..], sep, b, seps);
      TokensAfterSeparator(a[0], a[1..], seps);
      TokensAfterSeparator(a[0], a[1..] + [sep] + b, seps);
      assert a == [a[0]] + a[1..] && s == [a[0]] + (a[1..] + [sep] + b);
    } else {
      var n := TokenLength(a, seps);
      TokenBody(a, seps);
      TokenLengthExact(a[..n], a[n..] + [sep] + b, seps);
      assert s == a[..n] + (a[n..] + [sep] + b) && s[..n] == a[..n];
      TokensStep(a, seps);
      TokensStep(s, seps);
      if n < |a| {
        TokensSplit(a[n + 1..], sep, b, seps);
        assert s[n + 1..] == a[n + 1..] + [sep] + b;
        Assoc([a[..n]], Tokens(a[n + 1..], seps), Tokens(b, seps));
      } else {
        assert s[n + 1..] == b;
      }
    }
  }

  lemma NoTokens(seps: string)
    ensures Tokens([], seps) == []
  {
  }

  /** s[a..b] is a longest run without separators. */
  predicate IsRun(s: string, seps: string, a: nat, b: nat) {
    && a < b <= |s| && (forall i | a <= i < b :: s[i] !in seps)
    && (a > 0 ==> s[a - 1] in seps) && (b < |s| ==> s[b] in seps)
  }

  predicate TokenAt(s: string, seps: string, a: nat, t: string) {
    IsRun(s, seps, a, a + |t|) && t == s[a..a + |t|]
  }

  predicate Covers(at: seq<nat>, tokens: seq<string>, k: nat)
    requires |at| == |tokens|
  {
    exists i | 0 <= i < |at| :: at[i] <= k < at[i] + |tokens[i]|
  }

  /** The tokens of a text begin at these positions; they are all its longest runs, in order. */
  ghost predicate RunsAt(s: string, seps: string, at: seq<nat>, tokens: seq<string>) {
    && |at| == |tokens|
    && (forall i | 0 <= i < |at| :: TokenAt(s, seps, at[i], tokens[i]))
    && (forall i, j | 0 <= i < j < |at| :: at[i] + |tokens[i]| < at[j])
    && (forall k | 0 <= k < |s| && s[k] !in seps :: Covers(at, tokens, k))
  }

  function ShiftAll(at: seq<nat>, d: nat): (r: seq<nat>)
    ensures |r| == |at| && forall i | 0 <= i < |at| :: r[i] == at[i] + d
  {
    seq(|at|, i requires 0 <= i < |at| => at[i] + d)
  }

  lemma TokenShifts(s: string, seps: string, d: nat, a: nat, t: string)
    requires 0 < d <= |s| && s[d - 1] in seps && TokenAt(s[d..], seps, a, t)
    ensures TokenAt(s, seps, a + d, t)
  {
    var rest := s[d..];
    forall i | a + d <= i < a + d + |t| ensures s[i] !in seps { assert s[i] == rest[i - d]; }
    if a > 0 { assert s[a + d - 1] == rest[a - 1]; }
    if a + |t| < |rest| { assert s[a + |t| + d] == rest[a + |t|]; }
  }

  lemma CoversShifted(at: seq<nat>, tokens: seq<string>, d: nat, k: nat)
    requires |at| == |tokens| && d <= k && Covers(at, tokens, k - d)
    ensures Covers(ShiftAll(at, d), tokens, k)
  {
    var i :| 0 <= i < |at| && at[i] <= k - d < at[i] + |tokens[i]|;
    assert ShiftAll(at, d)[i] <= k;
  }

  lemma ShiftInOrder(at: seq<nat>, tokens: seq<string>, d: nat)
    requires |at| == |tokens| && forall i, j | 0 <= i < j < |at| :: at[i] + |tokens[i]| < at[j]
    ensures var r := ShiftAll(at, d); forall i, j | 0 <= i < j < |r| :: r[i] + |tokens[i]| < r[j]
  {
  }

  /** The runs of a text begin one further on if a separator is put in front. */
  lemma RunsBehind(s: string, seps: string, at: seq<nat>, tokens: seq<string>)
    requires s != [] && s[0] in seps && RunsAt(s[1..], seps, at, tokens)
    ensures RunsAt(s, seps, ShiftAll(at, 1), tokens)
  {
    hide TokenAt, Covers;
    ShiftInOrder(at, tokens, 1);
    forall i | 0 <= i < |at| ensures TokenAt(s, seps, ShiftAll(at, 1)[i], tokens[i]) {
      TokenShifts(s, seps, 1, at[i], tokens[i]);
    }
    forall k | 0 <= k < |s| && s[k] !in seps ensures Covers(ShiftAll(at, 1), tokens, k) {
      assert s[1..][k - 1] == s[k];
      CoversShifted(at, tokens, 1, k);
    }
  }

  lemma CoversCons(a: nat, t: string, at: seq<nat>, tokens: seq<string>, k: nat)
    requires |at| == |tokens|
    ensures Covers([a] + at, [t] + tokens, k) <==> a <= k < a + |t| || Covers(at, tokens, k)
  {
    var r, ts := [a] + at, [t] + tokens;
    if i :| 0 <= i < |at| && at[i] <= k < at[i] + |tokens[i]| {
      assert r[i + 1] <= k < r[i + 1] + |ts[i + 1]|;
    }
    if a <= k < a + |t| { assert r[0] <= k < r[0] + |ts[0]|; }
    if i :| 0 <= i < |r| && r[i] <= k < r[i] + |ts[i]| {
      if i > 0 { assert at[i - 1] <= k < at[i - 1] + |tokens[i - 1]|; }
    }
  }

  lemma OrderCons(t: string, at: seq<nat>, tokens: seq<string>)
    requires |at| == |tokens| && (forall i | 0 <= i < |at| :: |t| < at[i])
    requires forall i, j | 0 <= i < j < |at| :: at[i] + |tokens[i]| < at[j]
    ensures var r, ts := [0] + at, [t] + tokens; forall i, j | 0 <= i < j < |r| :: r[i] + |ts[i]| < r[j]
  {
    var r, ts := [0] + at, [t] + tokens;
    forall i, j | 0 <= i < j < |r| ensures r[i] + |ts[i]| < r[j] {
      if i > 0 { assert at[i - 1] + |tokens[i - 1]| < at[j - 1]; }
    }
  }

  lemma RunsWithFirst(s: string, seps: string, n: nat, at: seq<nat>, tokens: seq<string>)
    requires IsRun(s, seps, 0, n)
    requires if n < |s| then RunsAt(s[n + 1..], seps, at, tokens) else at == [] && tokens == []
    ensures RunsAt(s, seps, [0] + ShiftAll(at, n + 1), [s[..n]] + tokens)
  {
    hide Covers;
    var more := ShiftAll(at, n + 1);
    var r, ts := [0] + more, [s[..n]] + tokens;
    assert TokenAt(s, seps, 0, s[..n]);
    hide IsRun, TokenAt;
    ShiftInOrder(at, tokens, n + 1);
    OrderCons(s[..n], more, tokens);
    forall i | 0 <= i < |r| ensures TokenAt(s, seps, r[i], ts[i]) {
      if i > 0 { TokenShifts(s, seps, n + 1, at[i - 1], tokens[i - 1]); }
    }
    forall k | 0 <= k < |s| && s[k] !in seps ensures Covers(r, ts, k) {
      CoversCons(0, s[..n], more, tokens, k);
      if k > n {
        assert s[n + 1..][k - n - 1] == s[k];
        CoversShifted(at, tokens, n + 1, k);
      }
    }
  }

  /** strtok in a loop yields the longest runs without separators, all of them, in order. */
  lemma {:induction false} TokensAreRuns(s: string, seps: string) returns (at: seq<nat>)
    ensures RunsAt(s, seps, at, Tokens(s, seps))
    decreases |s|
  {
    hide RunsAt;
    if s == [] {
      NoTokens(seps);
      at := [];
      NoRuns(seps);
    } else if s[0] in seps {
      at := TokensAreRuns(s[1..], seps);
      TokensAfterSeparator(s[0], s[1..], seps);
      assert [s[0]] + s[1..] == s;
      RunsBehind(s, seps, at, Tokens(s[1..], seps));
      at := ShiftAll(at, 1);
    } else {
      var n := TokenLength(s, seps);
      TokensStep(s, seps);
      TokenBody(s, seps);
      if n < |s| { at := TokensAreRuns(s[n + 1..], seps); } else { at := []; }
      RunsWithFirst(s, seps, n, at, if n < |s| then Tokens(s[n + 1..], seps) else []);
      at := [0] + ShiftAll(at, n + 1);
    }
  }

  lemma NoRuns(seps: string)
    ensures RunsAt("", seps, [], [])
  {
  }

  /** strchr: the first position of c at or after from, or |s|. */
  function IndexOf(s: string, c: char): (n: nat)
    ensures n <= |s|
    ensures n < |s| ==> s[n] == c
    ensures c !in s[..n]
  {
    if s == [] then 0 else if s[0] == c then 0
    else
      var n := IndexOf(s[1..], c);
      assert s[..n + 1] == [s[0]] + s[1..][..n];
      n + 1
  }

  lemma {:induction false} IndexOfExact(a: string, c: char, b: string)
    requires c !in a && (b == "" || b[0] == c)
    ensures IndexOf(a + b, c) == |a|
  {
    if a == "" {
      assert a + b == b;
    } else {
      assert (a + b)[0] == a[0] && (a + b)[1..] == a[1..] + b;
      IndexOfExact(a[1..], c, b);
    }
  }

  predicate OccursAt(s: string, pat: string, i: nat) {
    i + |pat| <= |s| && s[i..i + |pat|] == pat
  }

  /** strstr: the first occurrence of pat. */
  function Strstr(s: string, pat: string): (r: Option<nat>)
    ensures r.Some? ==> OccursAt(s, pat, r.value) && forall i: nat | i < r.value :: !OccursAt(s, pat, i)
    ensures r.None? ==> forall i: nat :: !OccursAt(s, pat, i)
  {
    StrstrFrom(s, pat, 0)
  }

  function StrstrFrom(s: string, pat: string, from: nat): (r: Option<nat>)
    requires from <= |s| + 1
    requires forall i: nat | i < from :: !OccursAt(s, pat, i)
    ensures r.Some? ==> OccursAt(s, pat, r.value) && forall i: nat | i < r.value :: !OccursAt(s, pat, i)
    ensures r.None? ==> forall i: nat :: !OccursAt(s, pat, i)
    decreases |s| + 1 - from
  {
    if from > |s| then None
    else if OccursAt(s, pat, from) then Some(from)
    else StrstrFrom(s, pat, from + 1)
  }

  lemma StrstrIs(s: string, pat: string, r: Option<nat>)
    requires r.Some? ==> OccursAt(s, pat, r.value) && forall i: nat | i < r.value :: !OccursAt(s, pat, i)
    requires r.None? ==> forall i: nat :: !OccursAt(s, pat, i)
    ensures Strstr(s, pat) == r
  {
  }
}

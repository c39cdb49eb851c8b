/** Granting and revoking on the access list. */
module AccessRights {
  import opened Text
  import opened CStrings
  import opened AccessList

  // The edits are compared with the map of rights that the list stands for. The search for "user:RW" also matches
  // inside the entry of a longer name ending in the same letters; the laws say exactly when the edit is nevertheless
  // the intended update.

  function EntryText(e: Entry): string {
    e.user + ":" + ModeText(e.mode)
  }

  function Texts(es: seq<Entry>): (fs: seq<string>)
    ensures |fs| == |es| && forall i | 0 <= i < |es| :: fs[i] == EntryText(es[i])
  {
    seq(|es|, i requires 0 <= i < |es| => EntryText(es[i]))
  }

  /** A user name as it may stand in a list. */
  predicate PlainName(u: string) {
    ',' !in u && ':' !in u
  }

  /** The entries of a list: plain names, each at most once. */
  predicate GoodEntries(es: seq<Entry>) {
    && (forall i | 0 <= i < |es| :: PlainName(es[i].user))
    && (forall i, j | 0 <= i < j < |es| :: es[i].user != es[j].user)
  }

  // ---------- where the search ends up ----------

  predicate EndsWith(name: string, u: string) {
    |u| <= |name| && name[|name| - |u|..] == u
  }

  /** The search text u + ":" + q occurs at the end of the entry's name. */
  predicate Matches(e: Entry, u: string, q: Mode) {
    EndsWith(e.user, u) && (q == R || e.mode == RW)
  }

  function FirstMatch(es: seq<Entry>, u: string, q: Mode): (t: Option<nat>)
    ensures t.Some? ==> t.value < |es| && Matches(es[t.value], u, q)
    ensures t.None? ==> forall i | 0 <= i < |es| :: !Matches(es[i], u, q)
  {
    if es == [] then None
    else if Matches(es[0], u, q) then Some(0)
    else match FirstMatch(es[1..], u, q)
      case None => None
      case Some(t) => Some(t + 1)
  }

  /** The entry the edit hits. */
  function Target(es: seq<Entry>, u: string): (t: Option<nat>)
    ensures t.Some? ==> t.value < |es| && EndsWith(es[t.value].user, u)
    ensures t.None? ==> forall i | 0 <= i < |es| :: !EndsWith(es[i].user, u)
  {
    var rw := FirstMatch(es, u, RW);
    if rw.Some? then rw else FirstMatch(es, u, R)
  }

  /** Where the text of es starts to match. */
  function MatchPosition(es: seq<Entry>, u: string, t: nat): nat
    requires t < |es| && EndsWith(es[t].user, u)
  {
    |Before(false, Texts(es), t)| + |es[t].user| - |u|
  }

  lemma ColonOfEntry(e: Entry, i: nat)
    requires PlainName(e.user) && i < |EntryText(e)|
    ensures EntryText(e)[i] == ':' <==> i == |e.user|
    ensures EntryText(e)[i] != ','
  {
    if i < |e.user| { assert EntryText(e)[i] == e.user[i]; }
    if i > |e.user| { assert EntryText(e)[i] == ModeText(e.mode)[i - |e.user| - 1]; }
  }

  /** The search text: a plain name, a colon and a mode. */
  function Pattern(u: string, q: Mode): string {
    u + ":" + ModeText(q)
  }

  /** What an occurrence says about single characters. */
  lemma OccurrenceChars(s: string, u: string, q: Mode, i: nat)
    requires OccursAt(s, Pattern(u, q), i)
    ensures i + |u| + 1 + |ModeText(q)| <= |s| && s[i + |u|] == ':'
    ensures forall j | 0 <= j < |u| :: s[i + j] == u[j]
    ensures q == RW ==> s[i + |u| + 2] == 'W'
  {
    var pat := Pattern(u, q);
    assert pat == s[i..i + |pat|];
    assert pat[|u|] == ':' == s[i + |u|] && (q == RW ==> pat[|u| + 2] == 'W' == s[i + |u| + 2]);
    forall j | 0 <= j < |u| ensures s[i + j] == u[j] {
      assert pat[j] == u[j];
    }
  }

  /** A comma at position k inside an occurrence of u is a comma of u. */
  lemma CommaOverlap(s: string, u: string, i: nat, k: nat)
    requires i + |u| <= |s| && forall j | 0 <= j < |u| :: s[i + j] == u[j]
    ensures i <= k < i + |u| && s[k] == ',' ==> ',' in u
  {
    if i <= k < i + |u| { assert s[i + (k - i)] == u[k - i]; }
  }

  lemma OccurrenceInside(e: Entry, tail: string, u: string, q: Mode, i: nat)
    requires PlainName(e.user) && PlainName(u) && i <= |EntryText(e)| && (tail == "" || tail[0] == ',')
    requires OccursAt(EntryText(e) + tail, Pattern(u, q), i)
    ensures Matches(e, u, q) && i == |e.user| - |u|
  {
    var a, s := EntryText(e), EntryText(e) + tail;
    OccurrenceChars(s, u, q, i);
    assert forall j | 0 <= j < |a| :: s[j] == a[j];
    assert |a| < |s| ==> s[|a|] == ',';
    CommaOverlap(s, u, i, |a|);
    ColonOfEntry(e, i + |u|);
    assert e.user[i..] == u by {
      forall j | 0 <= j < |u| ensures e.user[i..][j] == u[j] {
        assert s[i + j] == a[i + j] == e.user[i + j];
      }
    }
    if q == RW { assert e.mode == R ==> |a| == i + |u| + 2; }
  }

  lemma MatchOccurs(e: Entry, tail: string, u: string, q: Mode)
    requires Matches(e, u, q)
    ensures OccursAt(EntryText(e) + tail, Pattern(u, q), |e.user| - |u|)
  {
    var x, more := e.user[..|e.user| - |u|], ModeText(e.mode)[|ModeText(q)|..];
    var pat := Pattern(u, q);
    assert e.user == x + u;
    assert ModeText(e.mode) == ModeText(q) + more;
    FivePieces(x, u, ModeText(q), more, tail);
    ShiftOccurrence(x, pat + (more + tail), pat, 0);
    assert (pat + (more + tail))[0..0 + |pat|] == pat;
  }

  lemma FivePieces(x: string, u: string, m: string, more: string, tail: string)
    ensures x + u + ":" + (m + more) + tail == x + ((u + ":" + m) + (more + tail))
  {
  }

  /** An occurrence in an entry followed by more entries is a match of the entry or lies in what follows. */
  lemma OccursInEntry(e: Entry, tail: string, u: string, q: Mode, i: nat)
    requires PlainName(e.user) && PlainName(u)
    ensures OccursAt(EntryText(e) + "," + tail, Pattern(u, q), i)
        <==> (Matches(e, u, q) && i == |e.user| - |u|)
             || (i > |EntryText(e)| && OccursAt(tail, Pattern(u, q), i - |EntryText(e)| - 1))
  {
    var s, pat, a := EntryText(e) + "," + tail, Pattern(u, q), EntryText(e);
    if i > |a| {
      ShiftOccurrence(a + ",", tail, pat, i - |a| - 1);
    } else if OccursAt(s, pat, i) {
      Assoc(a, ",", tail);
      OccurrenceInside(e, "," + tail, u, q, i);
    } else if Matches(e, u, q) && i == |e.user| - |u| {
      MatchOccurs(e, "," + tail, u, q);
      Assoc(a, ",", tail);
    }
  }

  lemma ShiftOccurrence(a: string, tail: string, pat: string, i: nat)
    ensures OccursAt(a + tail, pat, |a| + i) <==> OccursAt(tail, pat, i)
  {
    if i + |pat| <= |tail| {
      assert (a + tail)[|a| + i..|a| + i + |pat|] == tail[i..i + |pat|];
    }
  }

  /** Without a tail, and in front of everything. */
  lemma OccursInLastEntry(e: Entry, u: string, q: Mode, i: nat)
    requires PlainName(e.user) && PlainName(u)
    ensures OccursAt(EntryText(e), Pattern(u, q), i) <==> Matches(e, u, q) && i == |e.user| - |u|
  {
    assert EntryText(e) + "" == EntryText(e);
    if i <= |EntryText(e)| && OccursAt(EntryText(e), Pattern(u, q), i) {
      OccurrenceInside(e, "", u, q, i);
    } else if Matches(e, u, q) && i == |e.user| - |u| {
      MatchOccurs(e, "", u, q);
    }
  }

  lemma BeforeStep(fs: seq<string>, t: nat)
    requires 0 < t < |fs|
    ensures |Before(false, fs, t)| == |fs[0]| + 1 + |Before(false, fs[1..], t - 1)|
  {
    assert fs[..t][0] == fs[0] && fs[..t][1..] == fs[1..][..t - 1];
  }

  /** The position of the first match. */
  function MatchAt(es: seq<Entry>, u: string, q: Mode): Option<nat> {
    match FirstMatch(es, u, q)
    case None => None
    case Some(t) => Some(MatchPosition(es, u, t))
  }

  lemma MatchAtStep(es: seq<Entry>, u: string, q: Mode)
    requires es != []
    ensures MatchAt(es, u, q)
         == if Matches(es[0], u, q) then Some(|es[0].user| - |u|)
            else match MatchAt(es[1..], u, q) { case None => None case Some(p) => Some(|EntryText(es[0])| + 1 + p) }
  {
    hide Matches, EntryText, Before;
    assert Texts(es)[1..] == Texts(es[1..]);
    var t := FirstMatch(es, u, q);
    if t.Some? && t.value > 0 {
      BeforeStep(Texts(es), t.value);
    } else if t.Some? {
      BeforeFirst(Texts(es));
    }
  }

  lemma BeforeFirst(fs: seq<string>)
    requires fs != []
    ensures Before(false, fs, 0) == ""
  {
  }

  /** The first occurrence of the search text in a list is at the first entry it matches. */
  lemma {:induction false} FindInCommas(es: seq<Entry>, u: string, q: Mode)
    requires PlainName(u) && forall i | 0 <= i < |es| :: PlainName(es[i].user)
    ensures Strstr(Commas(Texts(es)), Pattern(u, q)) == MatchAt(es, u, q)
  {
    hide OccursAt, Strstr, Matches, EntryText, PlainName, FirstMatch, MatchPosition;
    if es == [] {
      NothingFound(u, q);
    } else {
      MatchAtStep(es, u, q);
      assert Texts(es)[1..] == Texts(es[1..]);
      hide MatchAt, Pattern, Texts;
      if |es| == 1 {
        NothingFound(u, q);
        FindInEntry(es[0], u, q);
      } else {
        FindInCommas(es[1..], u, q);
        FindBehindEntry(es[0], Commas(Texts(es[1..])), u, q);
      }
    }
  }

  lemma NothingFound(u: string, q: Mode)
    ensures Strstr("", Pattern(u, q)) == None && MatchAt([], u, q) == None
  {
    forall i: nat ensures !OccursAt("", Pattern(u, q), i) { NoOccurrence(Pattern(u, q), i); }
    StrstrIs("", Pattern(u, q), None);
  }

  lemma FindInEntry(e: Entry, u: string, q: Mode)
    requires PlainName(e.user) && PlainName(u)
    ensures Strstr(EntryText(e), Pattern(u, q)) == if Matches(e, u, q) then Some(|e.user| - |u|) else None
  {
    hide OccursAt, Strstr, Matches, EntryText, Pattern;
    forall i: nat
      ensures OccursAt(EntryText(e), Pattern(u, q), i) <==> Matches(e, u, q) && i == |e.user| - |u|
    {
      OccursInLastEntry(e, u, q, i);
    }
    MatchFits(e, u, q);
    StrstrIs(EntryText(e), Pattern(u, q), if Matches(e, u, q) then Some(|e.user| - |u|) else None);
  }

  lemma NoOccurrence(pat: string, i: nat)
    requires pat != ""
    ensures !OccursAt("", pat, i)
  {
  }

  lemma MatchFits(e: Entry, u: string, q: Mode)
    ensures Matches(e, u, q) ==> EndsWith(e.user, u)
  {
  }

  lemma FindBehindEntry(e: Entry, tail: string, u: string, q: Mode)
    requires PlainName(e.user) && PlainName(u)
    ensures Strstr(EntryText(e) + "," + tail, Pattern(u, q))
         == if Matches(e, u, q) then Some(|e.user| - |u|)
            else match Strstr(tail, Pattern(u, q)) { case None => None case Some(p) => Some(|EntryText(e)| + 1 + p) }
  {
    hide OccursAt, Matches, EntryText, Pattern;
    var s, pat := EntryText(e) + "," + tail, Pattern(u, q);
    forall i: nat
      ensures OccursAt(s, pat, i)
          <==> (Matches(e, u, q) && i == |e.user| - |u|)
               || (i > |EntryText(e)| && OccursAt(tail, pat, i - |EntryText(e)| - 1))
    {
      OccursInEntry(e, tail, u, q, i);
    }
    MatchFits(e, u, q);
    EntryLonger(e);
    if Matches(e, u, q) {
      StrstrIs(s, pat, Some(|e.user| - |u|));
    } else {
      match Strstr(tail, pat) {
        case None => StrstrIs(s, pat, None);
        case Some(p) => StrstrIs(s, pat, Some(|EntryText(e)| + 1 + p));
      }
    }
  }

  lemma EntryLonger(e: Entry)
    ensures |EntryText(e)| > |e.user|
  {
  }

  lemma FindBehindComma(s: string, u: string, q: Mode)
    requires PlainName(u)
    ensures Strstr("," + s, Pattern(u, q))
         == match Strstr(s, Pattern(u, q)) { case None => None case Some(p) => Some(1 + p) }
  {
    var pat := Pattern(u, q);
    forall i: nat ensures OccursAt("," + s, pat, i) <==> i > 0 && OccursAt(s, pat, i - 1) {
      if i > 0 {
        ShiftOccurrence(",", s, pat, i - 1);
      } else {
        PatternStart("," + s, u, q);
      }
    }
    hide OccursAt, Pattern;
    match Strstr(s, pat) {
      case None => StrstrIs("," + s, pat, None);
      case Some(p) => StrstrIs("," + s, pat, Some(1 + p));
    }
  }

  lemma FirstOfOccurrence(s: string, pat: string)
    requires pat != ""
    ensures OccursAt(s, pat, 0) ==> s != "" && s[0] == pat[0]
  {
    if OccursAt(s, pat, 0) { assert s[0..0 + |pat|][0] == s[0]; }
  }

  lemma PatternStart(s: string, u: string, q: Mode)
    requires PlainName(u) && s != "" && s[0] == ','
    ensures !OccursAt(s, Pattern(u, q), 0)
  {
    FirstOfOccurrence(s, Pattern(u, q));
    assert Pattern(u, q)[0] == if u == "" then ':' else u[0];
  }

  lemma BeforeLead(fs: seq<string>, t: nat)
    requires t < |fs|
    ensures |Before(true, fs, t)| == 1 + |Before(false, fs, t)|
  {
  }

  /** The edit finds its target entry, at the end of the entry's name. */
  lemma FindUserListed(lead: bool, es: seq<Entry>, u: string)
    requires PlainName(u) && |u| <= USER_LIMIT && forall i | 0 <= i < |es| :: PlainName(es[i].user)
    ensures FindUser(Listed(lead, Texts(es)), u)
         == match Target(es, u)
            case None => None
            case Some(t) => Some(|Before(lead, Texts(es), t)| + |es[t].user| - |u|)
  {
    hide Strstr, Before, Commas, FirstMatch;
    var s := Commas(Texts(es));
    FindInCommas(es, u, RW);
    FindInCommas(es, u, R);
    assert Truncate(u + ":RW", SEARCH_LIMIT) == Pattern(u, RW) && Truncate(u + ":R", SEARCH_LIMIT) == Pattern(u, R);
    hide Pattern;
    if es == [] {
      CommasOfNone();
    } else if lead {
      FindBehindComma(s, u, RW);
      FindBehindComma(s, u, R);
      var t := Target(es, u);
      if t.Some? { BeforeLead(Texts(es), t.value); }
    } else {
      assert "" + s == s;
    }
  }

  lemma CommasOfNone()
    ensures Commas([]) == ""
  {
  }

  // ---------- revoking ----------

  /** The fields after a revocation: the target is gone, or what stood behind the match in it. */
  function RevokedFields(es: seq<Entry>, u: string): seq<string> {
    match Target(es, u)
    case None => Texts(es)
    case Some(t) => CutFields(Texts(es), t, es[t].user[..|es[t].user| - |u|])
  }

  lemma RevokeListed(lead: bool, es: seq<Entry>, u: string)
    requires PlainName(u) && |u| <= USER_LIMIT && forall i | 0 <= i < |es| :: PlainName(es[i].user)
    ensures Revoke(Listed(lead, Texts(es)), u) == Listed(lead, RevokedFields(es, u))
  {
    hide FindUser, CutField, Listed, Before, CutFields;
    FindUserListed(lead, es, u);
    var t := Target(es, u);
    if t.Some? {
      var e := es[t.value];
      var x := e.user[..|e.user| - |u|];
      EntryParts(e, u);
      CutIsOnFields(lead, Texts(es), t.value, x, u + ":" + ModeText(e.mode));
    }
  }

  lemma EntryParts(e: Entry, u: string)
    requires PlainName(e.user) && EndsWith(e.user, u)
    ensures var x := e.user[..|e.user| - |u|];
            && e.user == x + u && EntryText(e) == x + (u + ":" + ModeText(e.mode))
            && IsField(EntryText(e)) && PlainName(x)
  {
    forall i | 0 <= i < |EntryText(e)| ensures EntryText(e)[i] != ',' {
      ColonOfEntry(e, i);
    }
  }

  lemma EntryIsField(e: Entry)
    requires PlainName(e.user)
    ensures IsField(EntryText(e))
  {
    EntryParts(e, "");
  }

  lemma RightOfEntry(e: Entry, v: string)
    requires PlainName(e.user)
    ensures FieldRight(EntryText(e), v) == if v == e.user then Some(e.mode) else None
  {
    IndexOfExact(e.user, ':', ":" + ModeText(e.mode));
    assert e.user + (":" + ModeText(e.mode)) == EntryText(e);
    assert EntryText(e)[..|e.user|] == e.user && EntryText(e)[|e.user| + 1..] == ModeText(e.mode);
  }

  /** The mode the entries give to a user. */
  function EntriesRight(es: seq<Entry>, v: string): Option<Mode> {
    FieldsRight(Texts(es), v)
  }

  lemma EntriesRightOne(e: Entry, v: string)
    requires PlainName(e.user)
    ensures EntriesRight([e], v) == if v == e.user then Some(e.mode) else None
  {
    RightOfEntry(e, v);
    FieldsRightOne(EntryText(e), v);
    assert Texts([e]) == [EntryText(e)];
  }

  lemma TextsAppend(a: seq<Entry>, b: seq<Entry>)
    ensures Texts(a + b) == Texts(a) + Texts(b)
  {
  }

  lemma EntriesRightAppend(a: seq<Entry>, b: seq<Entry>, v: string)
    ensures EntriesRight(a + b, v) == Later(EntriesRight(a, v), EntriesRight(b, v))
  {
    TextsAppend(a, b);
    FieldsRightAppend(Texts(a), Texts(b), v);
  }

  /** No entry is about u. */
  predicate AllOthers(es: seq<Entry>, u: string) {
    forall i | 0 <= i < |es| :: PlainName(es[i].user) && es[i].user != u
  }

  lemma {:induction false} UnlistedHasNoRight(es: seq<Entry>, u: string)
    requires AllOthers(es, u)
    ensures EntriesRight(es, u) == None
  {
    if es != [] {
      var n := |es| - 1;
      UnlistedHasNoRight(es[..n], u);
      EntriesRightAppend(es[..n], [es[n]], u);
      EntriesRightOne(es[n], u);
      assert es == es[..n] + [es[n]];
    }
  }

  lemma TokensOfEntries(lead: bool, es: seq<Entry>)
    requires forall i | 0 <= i < |es| :: PlainName(es[i].user)
    ensures Tokens(Listed(lead, Texts(es)), ",") == Texts(es)
  {
    forall i | 0 <= i < |es| ensures IsField(Texts(es)[i]) { EntryIsField(es[i]); }
    TokensOfListed(lead, Texts(es));
  }

  /** The edit hits the user's own entry, or has the same effect because the user's entry comes next. */
  predicate HitsRight(es: seq<Entry>, u: string) {
    match Target(es, u)
    case None => true
    case Some(t) => es[t].user == u || (t + 1 < |es| && es[t + 1] == Entry(u, es[t].mode))
  }

  lemma GoodAround(es: seq<Entry>, t: nat)
    requires GoodEntries(es) && t < |es|
    ensures AllOthers(es[..t], es[t].user) && AllOthers(es[t + 1..], es[t].user) && PlainName(es[t].user)
    ensures es == es[..t] + [es[t]] + es[t + 1..]
  {
  }

  /** Entry t decides about its own user and about nobody else. */
  lemma RightAround(es: seq<Entry>, t: nat, v: string)
    requires GoodEntries(es) && t < |es|
    ensures EntriesRight(es, v) == if v == es[t].user then Some(es[t].mode) else EntriesRight(es[..t] + es[t + 1..], v)
    ensures EntriesRight(es[..t] + es[t + 1..], es[t].user) == None
  {
    hide EntriesRight, Texts, PlainName;
    var a, b, e := es[..t], es[t + 1..], es[t];
    GoodAround(es, t);
    hide GoodEntries, AllOthers;
    UnlistedHasNoRight(a, e.user);
    UnlistedHasNoRight(b, e.user);
    EntriesRightAppend(a, b, e.user);
    EntriesRightAppend(a, b, v);
    EntriesRightAppend(a + [e], b, v);
    EntriesRightAppend(a, [e], v);
    EntriesRightOne(e, v);
  }

  /** Hitting the user's own entry takes away exactly that user. */
  lemma RightHitRevokes(es: seq<Entry>, u: string, v: string)
    requires GoodEntries(es) && PlainName(u) && HitsRight(es, u)
    ensures FieldsRight(RevokedFields(es, u), v) == if v == u then None else EntriesRight(es, v)
  {
    match Target(es, u) {
      case None =>
        OthersDoNotEnd(es, u);
        UnlistedHasNoRight(es, u);
      case Some(t) =>
        if es[t].user == u {
          OwnEntryFields(es, u);
          RightAround(es, t, v);
        } else {
          MergedFields(es, u, t);
          FrontAndBack(es, t + 1);
          RightAround(es, t + 1, v);
        }
    }
  }

  lemma FrontAndBack(es: seq<Entry>, t: nat)
    requires 0 < t < |es|
    ensures es[..t - 1] + [es[t - 1]] + es[t + 1..] == es[..t] + es[t + 1..]
  {
  }

  lemma OwnEntryFields(es: seq<Entry>, u: string)
    ensures match Target(es, u)
            case None => true
            case Some(t) => es[t].user == u ==> RevokedFields(es, u) == Texts(es[..t] + es[t + 1..])
  {
    match Target(es, u) {
      case None =>
      case Some(t) =>
        if es[t].user == u {
          assert es[t].user[..0] == "";
          assert RevokedFields(es, u) == Texts(es)[..t] + Texts(es)[t + 1..];
        }
    }
  }

  lemma OthersDoNotEnd(es: seq<Entry>, u: string)
    ensures Target(es, u).None? ==> forall i | 0 <= i < |es| :: es[i].user != u
  {
    hide Target;
    if Target(es, u).None? {
      forall i | 0 <= i < |es| ensures es[i].user != u {
        assert !EndsWith(es[i].user, u);
      }
    }
  }

  /** Hitting a longer name glues its front to the entry that follows. */
  lemma MergedFields(es: seq<Entry>, u: string, t: nat)
    requires GoodEntries(es) && PlainName(u) && Target(es, u) == Some(t) && es[t].user != u && t + 1 < |es|
    ensures var x := es[t].user[..|es[t].user| - |u|];
            && x != "" && es[t].user == x + u && PlainName(x + es[t + 1].user)
            && RevokedFields(es, u) == Texts(es[..t] + [Entry(x + es[t + 1].user, es[t + 1].mode)] + es[t + 2..])
  {
    var x := es[t].user[..|es[t].user| - |u|];
    EntryParts(es[t], u);
    PlainFront(x, es[t + 1].user);
    hide GoodEntries, PlainName, Target, EntryText;
    var e := Entry(x + es[t + 1].user, es[t + 1].mode);
    GluedText(x, es[t + 1]);
    TextsWithout(es, t, e);
  }

  lemma TextsWithout(es: seq<Entry>, t: nat, e: Entry)
    requires t + 1 < |es|
    ensures Texts(es[..t] + [e] + es[t + 2..]) == Texts(es)[..t] + [EntryText(e)] + Texts(es)[t + 2..]
  {
    hide EntryText;
    TextsAppend(es[..t] + [e], es[t + 2..]);
    TextsAppend(es[..t], [e]);
    TextsSlices(es, t);
    assert Texts([e]) == [EntryText(e)];
  }

  lemma TextsSlices(es: seq<Entry>, t: nat)
    requires t + 1 < |es|
    ensures Texts(es[..t]) == Texts(es)[..t] && Texts(es[t + 2..]) == Texts(es)[t + 2..]
  {
    hide EntryText;
  }

  lemma GluedText(x: string, e: Entry)
    ensures x + EntryText(e) == EntryText(Entry(x + e.user, e.mode))
  {
  }

  lemma PlainFront(x: string, v: string)
    requires PlainName(x) && PlainName(v)
    ensures PlainName(x + v)
  {
  }

  /** Hitting a longer name otherwise takes that user's rights away or changes them. */
  lemma WrongHitLoses(es: seq<Entry>, u: string) returns (n: string)
    requires GoodEntries(es) && PlainName(u) && !HitsRight(es, u)
    ensures n != u && EntriesRight(es, n).Some? && FieldsRight(RevokedFields(es, u), n) != EntriesRight(es, n)
  {
    var t := Target(es, u).value;
    n := es[t].user;
    RightAround(es, t, n);
    if t + 1 < |es| {
      MergedRight(es, u, t);
    } else {
      TruncatedRight(es, u, t);
    }
  }

  lemma MergedRight(es: seq<Entry>, u: string, t: nat)
    requires GoodEntries(es) && PlainName(u) && Target(es, u) == Some(t) && es[t].user != u && t + 1 < |es|
    ensures FieldsRight(RevokedFields(es, u), es[t].user)
         == if es[t + 1].user == u then Some(es[t + 1].mode) else None
  {
    var a, b, n, x := es[..t], es[t + 2..], es[t].user, es[t].user[..|es[t].user| - |u|];
    var e := Entry(x + es[t + 1].user, es[t + 1].mode);
    MergedFields(es, u, t);
    SameFront(x, es[t + 1].user, u);
    UnlistedHasNoRight(a, n);
    UnlistedHasNoRight(b, n);
    hide GoodEntries, PlainName, Texts, Target, RevokedFields;
    EntriesRightAppend(a + [e], b, n);
    EntriesRightAppend(a, [e], n);
    EntriesRightOne(e, n);
  }

  lemma TruncatedRight(es: seq<Entry>, u: string, t: nat)
    requires GoodEntries(es) && PlainName(u) && Target(es, u) == Some(t) && es[t].user != u && t + 1 == |es|
    ensures FieldsRight(RevokedFields(es, u), es[t].user) == None
  {
    var a, n, x := es[..t], es[t].user, es[t].user[..|es[t].user| - |u|];
    EntryParts(es[t], u);
    assert RevokedFields(es, u) == Texts(a) + [x];
    NoColonNoRight(x, n);
    UnlistedHasNoRight(a, n);
    FieldsRightAppend(Texts(a), [x], n);
    FieldsRightOne(x, n);
  }

  lemma SameFront(x: string, v: string, u: string)
    ensures x + v == x + u <==> v == u
  {
    assert (x + v)[|x|..] == v && (x + u)[|x|..] == u;
  }

  lemma NoColonNoRight(x: string, v: string)
    requires ':' !in x
    ensures FieldRight(x, v) == None
  {
    assert x + "" == x;
    IndexOfExact(x, ':', "");
  }

  /** list' gives every other user what list gave, and u nothing. */
  ghost predicate RevokesOnly(list: string, list': string, u: string) {
    forall v :: Right(list', v) == if v == u then None else Right(list, v)
  }

  /**
   Revoking deletes exactly that user, and nothing else, if and only if the search hits the right entry: no
   entry, the user's own, or a longer name directly followed by the user's entry with the same mode.
   */
  lemma RevokeExactIff(lead: bool, es: seq<Entry>, u: string)
    requires GoodEntries(es) && PlainName(u) && |u| <= USER_LIMIT
    ensures var list := Listed(lead, Texts(es));
            RevokesOnly(list, Revoke(list, u), u) <==> HitsRight(es, u)
  {
    RevokedRight(lead, es, u);
    hide Right, Revoke, Listed, Texts, GoodEntries, HitsRight, RevokedFields;
    if HitsRight(es, u) {
      forall v { RightHitRevokes(es, u, v); }
    } else {
      var n := WrongHitLoses(es, u);
    }
  }

  lemma RevokedRight(lead: bool, es: seq<Entry>, u: string)
    requires GoodEntries(es) && PlainName(u) && |u| <= USER_LIMIT
    ensures var list := Listed(lead, Texts(es));
            forall v :: Right(list, v) == EntriesRight(es, v)
                        && Right(Revoke(list, u), v) == FieldsRight(RevokedFields(es, u), v)
  {
    hide RevokedFields, Revoke, Listed, Texts;
    var fs := RevokedFields(es, u);
    forall i | 0 <= i < |fs| ensures IsField(fs[i]) { RevokedFieldIsField(es, u, i); }
    TokensOfListed(lead, fs);
    TokensOfEntries(lead, es);
    RevokeListed(lead, es, u);
  }

  lemma RevokedFieldIsField(es: seq<Entry>, u: string, i: nat)
    requires GoodEntries(es) && PlainName(u) && i < |RevokedFields(es, u)|
    ensures IsField(RevokedFields(es, u)[i])
  {
    forall j | 0 <= j < |es| ensures IsField(Texts(es)[j]) { EntryIsField(es[j]); }
    match Target(es, u) {
      case None =>
      case Some(t) =>
        EntryParts(es[t], u);
        var x := es[t].user[..|es[t].user| - |u|];
        if x != "" && t + 1 < |es| { GluedIsField(x, es[t + 1]); }
        FrontIsField(x);
        hide IsField, Target, PlainName, GoodEntries, EntryText;
        CutFieldsAreFields(Texts(es), t, x, i);
    }
  }

  lemma GluedIsField(x: string, e: Entry)
    requires PlainName(x) && PlainName(e.user)
    ensures IsField(x + EntryText(e))
  {
    EntryIsField(Entry(x + e.user, e.mode));
    assert x + EntryText(e) == EntryText(Entry(x + e.user, e.mode));
  }

  lemma FrontIsField(x: string)
    requires PlainName(x)
    ensures x != "" ==> IsField(x)
  {
  }

  lemma CutFieldsAreFields(fs: seq<string>, t: nat, x: string, i: nat)
    requires t < |fs| && forall j | 0 <= j < |fs| :: IsField(fs[j])
    requires x != "" ==> IsField(x) && (t + 1 < |fs| ==> IsField(x + fs[t + 1]))
    requires i < |CutFields(fs, t, x)|
    ensures IsField(CutFields(fs, t, x)[i])
  {
    hide IsField;
  }

  // ---------- granting ----------

  /** The new entry fits access_str and what is left of the list buffer. */
  predicate GrantFits(list: string, u: string, m: Mode) {
    var n := |u| + |ModeText(m)| + 2;
    n <= 63 && |Revoke(list, u)| + n <= 4095
  }

  /** The text really appended: the new entry behind a comma, or a proper prefix of it. */
  lemma AppendedText(list: string, u: string, m: Mode) returns (k: nat)
    requires |list| <= LIST_LIMIT
    ensures var t := "," + EntryText(Entry(u, m));
            && k <= |t| && Grant(list, u, m) == Revoke(list, u) + t[..k]
            && (k == |t| <==> GrantFits(list, u, m))
  {
    var t, rest := "," + EntryText(Entry(u, m)), Revoke(list, u);
    assert "," + u + ":" + ModeText(m) == t;
    var first := Truncate(t, ENTRY_LIMIT);
    assert first == t[..|first|];
    var second := Truncate(first, LIST_LIMIT - |rest|);
    k := |second|;
    assert second == t[..k];
  }

  /** A field without comma, read as a list. */
  lemma RightOfField(f: string, v: string)
    requires ',' !in f
    ensures Right(f, v) == FieldRight(f, v)
  {
    if f == "" {
      NoTokens(",");
    } else {
      TokensOfToken(f, ',', "", ",");
      FieldsRightOne(f, v);
    }
  }

  /** A cut-off entry grants nothing, or reading instead of writing. */
  lemma CutOffEntry(u: string, m: Mode, k: nat, v: string)
    requires PlainName(u) && k < |EntryText(Entry(u, m))|
    ensures var r := Right(EntryText(Entry(u, m))[..k], v);
            r == None || (v == u && r == Some(R) && m == RW)
  {
    var e := Entry(u, m);
    var f := EntryText(e)[..k];
    forall i | 0 <= i < k ensures f[i] != ',' && (f[i] == ':' <==> i == |u|) { ColonOfEntry(e, i); }
    RightOfField(f, v);
    if k > |u| {
      var rest := f[|u| + 1..];
      assert f == u + (":" + rest) && f[..|u|] == u;
      IndexOfExact(u, ':', ":" + rest);
      assert |rest| < |ModeText(m)| && rest == ModeText(m)[..|rest|];
    } else {
      NoColonNoRight(f, v);
    }
  }

  lemma CutBehindComma(rest: string, f: string, k: nat)
    requires k <= |f| + 1
    ensures k == 0 ==> rest + ("," + f)[..k] == rest
    ensures k > 0 ==> rest + ("," + f)[..k] == rest + "," + f[..k - 1]
    ensures k == |f| + 1 ==> f[..k - 1] == f
  {
  }

  /** What the appended text adds: the new right if it fits, otherwise not that right. */
  lemma GrantedRight(list: string, u: string, m: Mode, v: string)
    requires |list| <= LIST_LIMIT && PlainName(u)
    ensures var before, after := Right(Revoke(list, u), v), Right(Grant(list, u, m), v);
            if v != u then after == before
            else if GrantFits(list, u, m) then after == Some(m)
            else after == before || after != Some(m)
  {
    hide *;
    var e, rest := Entry(u, m), Revoke(list, u);
    var k := AppendedText(list, u, m);
    CutBehindComma(rest, EntryText(e), k);
    if k > 0 {
      RightAppend(rest, EntryText(e)[..k - 1], v);
      LaterIs(Right(rest, v), Right(EntryText(e)[..k - 1], v));
      if k <= |EntryText(e)| {
        CutOffEntry(u, m, k - 1, v);
      } else {
        RightOfOneEntry(e, v);
      }
    }
  }

  lemma LaterIs(a: Option<Mode>, b: Option<Mode>)
    ensures Later(a, b) == if b.Some? then b else a
  {
  }

  lemma RightOfOneEntry(e: Entry, v: string)
    requires PlainName(e.user)
    ensures Right(EntryText(e), v) == if v == e.user then Some(e.mode) else None
  {
    EntryIsField(e);
    RightOfField(EntryText(e), v);
    RightOfEntry(e, v);
  }

  /** list' gives u the mode m, and every other user what list gave. */
  ghost predicate GrantsOnly(list: string, list': string, u: string, m: Mode) {
    forall v :: Right(list', v) == if v == u then Some(m) else Right(list, v)
  }

  /**
   Granting sets exactly that user's mode, and changes nothing else, if and only if the revocation before it hits
   the right entry and the new entry fits the buffers.
   */
  lemma GrantExactIff(lead: bool, es: seq<Entry>, u: string, m: Mode)
    requires GoodEntries(es) && PlainName(u) && |u| <= USER_LIMIT && |Listed(lead, Texts(es))| <= LIST_LIMIT
    ensures var list := Listed(lead, Texts(es));
            GrantsOnly(list, Grant(list, u, m), u, m) <==> HitsRight(es, u) && GrantFits(list, u, m)
  {
    var list := Listed(lead, Texts(es));
    RevokeExactIff(lead, es, u);
    RevokedRight(lead, es, u);
    hide Right, Grant, Revoke, Listed, Texts, GoodEntries, HitsRight, GrantFits, RevokedFields;
    forall v { GrantedRight(list, u, m, v); }
    if !HitsRight(es, u) {
      var n := WrongHitLoses(es, u);
      GrantedRight(list, u, m, n);
    } else if !GrantFits(list, u, m) {
      GrantedRight(list, u, m, u);
    }
  }

  // ---------- runs ----------

  /** The text of a list whose users are listed once each. */
  ghost predicate IsListOf(list: string, lead: bool, es: seq<Entry>) {
    list == Listed(lead, Texts(es)) && GoodEntries(es)
  }

  /** The entries of everybody else, in their order. */
  function EntriesWithout(es: seq<Entry>, u: string): seq<Entry> {
    if es == [] then []
    else if es[0].user == u then EntriesWithout(es[1..], u)
    else [es[0]] + EntriesWithout(es[1..], u)
  }

  lemma {:induction false} WithoutNothing(es: seq<Entry>, u: string)
    requires forall i | 0 <= i < |es| :: es[i].user != u
    ensures EntriesWithout(es, u) == es
  {
    if es != [] { WithoutNothing(es[1..], u); }
  }

  lemma {:induction false} WithoutOne(es: seq<Entry>, t: nat)
    requires t < |es| && forall i | 0 <= i < |es| && i != t :: es[i].user != es[t].user
    ensures EntriesWithout(es, es[t].user) == es[..t] + es[t + 1..]
  {
    if t == 0 {
      WithoutNothing(es[1..], es[0].user);
    } else {
      WithoutOne(es[1..], t - 1);
      assert es[1..][..t - 1] == es[1..t] && es[1..][t..] == es[t + 1..];
      assert es[..t] == [es[0]] + es[1..t];
    }
  }

  lemma {:induction false} WithoutIsGood(es: seq<Entry>, u: string)
    requires GoodEntries(es)
    ensures GoodEntries(EntriesWithout(es, u))
    ensures forall i | 0 <= i < |EntriesWithout(es, u)| ::
              EntriesWithout(es, u)[i].user != u && EntriesWithout(es, u)[i] in es
  {
    hide PlainName;
    if es != [] {
      WithoutIsGood(es[1..], u);
    }
  }

  /** A right hit cuts out the user's own entry, also when the text cut belongs to the entry before it. */
  lemma RightHitFields(es: seq<Entry>, u: string)
    requires GoodEntries(es) && PlainName(u) && HitsRight(es, u)
    ensures RevokedFields(es, u) == Texts(EntriesWithout(es, u))
  {
    hide RevokedFields, PlainName, Texts, Target, EntriesWithout;
    match Target(es, u) {
      case None =>
        OthersDoNotEnd(es, u);
        WithoutNothing(es, u);
        NothingRevoked(es, u);
      case Some(t) =>
        if es[t].user == u {
          OwnEntryFields(es, u);
          WithoutOne(es, t);
        } else {
          MergedFields(es, u, t);
          FrontAndBack(es, t + 1);
          WithoutOne(es, t + 1);
        }
    }
  }

  lemma NothingRevoked(es: seq<Entry>, u: string)
    ensures Target(es, u) == None ==> RevokedFields(es, u) == Texts(es)
  {
  }

  /** Revoking with a right hit keeps the list well formed: the user's entry is cut out, all others stay. */
  lemma RevokeKeepsList(list: string, lead: bool, es: seq<Entry>, u: string)
    requires IsListOf(list, lead, es) && PlainName(u) && |u| <= USER_LIMIT && HitsRight(es, u)
    ensures IsListOf(Revoke(list, u), lead, EntriesWithout(es, u))
  {
    RevokeListed(lead, es, u);
    RightHitFields(es, u);
    WithoutIsGood(es, u);
  }

  /** So does granting: the user's old entry is cut out, the new one comes last. */
  lemma GrantKeepsList(list: string, lead: bool, es: seq<Entry>, u: string, m: Mode)
    requires IsListOf(list, lead, es) && PlainName(u) && |u| <= USER_LIMIT && HitsRight(es, u)
    requires |list| <= LIST_LIMIT && GrantFits(list, u, m)
    ensures IsListOf(Grant(list, u, m), lead || EntriesWithout(es, u) == [], EntriesWithout(es, u) + [Entry(u, m)])
  {
    RevokeKeepsList(list, lead, es, u);
    var k := AppendedText(list, u, m);
    var rest, e := EntriesWithout(es, u), Entry(u, m);
    WholePrefix("," + EntryText(e));
    AppendedEntry(lead, rest, e);
    WithoutIsGood(es, u);
    AppendedIsGood(rest, e);
    hide GrantFits, Revoke, Grant, HitsRight, EntriesWithout, GoodEntries, PlainName, Listed, EntryText, Texts;
  }

  lemma AppendedIsGood(es: seq<Entry>, e: Entry)
    requires GoodEntries(es) && PlainName(e.user)
    requires forall i | 0 <= i < |es| :: es[i].user != e.user
    ensures GoodEntries(es + [e])
  {
  }

  lemma WholePrefix(t: string)
    ensures t[..|t|] == t
  {
  }

  lemma AppendedEntry(lead: bool, es: seq<Entry>, e: Entry)
    ensures Listed(lead, Texts(es)) + ("," + EntryText(e)) == Listed(lead || es == [], Texts(es + [e]))
  {
    assert Texts(es + [e]) == Texts(es) + [EntryText(e)];
    if es != [] {
      ListedOfJoin(lead, Texts(es), [EntryText(e)]);
    }
  }

  datatype AccessOp = AddUser(user: string, mode: Mode) | RemoveUser(user: string)

  function Edit(list: string, op: AccessOp): (r: string)
    requires |list| <= LIST_LIMIT
    ensures |r| <= LIST_LIMIT
  {
    if op.AddUser? then Grant(list, op.user, op.mode) else Revoke(list, op.user)
  }

  function EditMap(m: map<string, Mode>, op: AccessOp): map<string, Mode> {
    if op.AddUser? then m[op.user := op.mode] else m - {op.user}
  }

  function EditAll(list: string, ops: seq<AccessOp>): string
    requires |list| <= LIST_LIMIT
    decreases |ops|
  {
    if ops == [] then list else EditAll(Edit(list, ops[0]), ops[1..])
  }

  function EditMapAll(m: map<string, Mode>, ops: seq<AccessOp>): map<string, Mode>
    decreases |ops|
  {
    if ops == [] then m else EditMapAll(EditMap(m, ops[0]), ops[1..])
  }

  /** The entries after an edit that does what it should. */
  function EditEntries(es: seq<Entry>, op: AccessOp): seq<Entry> {
    EntriesWithout(es, op.user) + if op.AddUser? then [Entry(op.user, op.mode)] else []
  }

  /** When its turn comes, every edit hits the right entry among those then listed, and every grant fits. */
  predicate StepsFit(list: string, es: seq<Entry>, ops: seq<AccessOp>)
    requires |list| <= LIST_LIMIT
    decreases |ops|
  {
    ops != [] ==>
      && HitsRight(es, ops[0].user)
      && (ops[0].AddUser? ==> GrantFits(list, ops[0].user, ops[0].mode))
      && StepsFit(Edit(list, ops[0]), EditEntries(es, ops[0]), ops[1..])
  }

  /** The list gives each user what the map says. */
  ghost predicate Means(list: string, m: map<string, Mode>) {
    forall v :: Right(list, v) == if v in m then Some(m[v]) else None
  }

  /** The list means the map after every edit of the run. */
  ghost predicate MeansThroughout(list: string, m: map<string, Mode>, ops: seq<AccessOp>)
    requires |list| <= LIST_LIMIT
    decreases |ops|
  {
    Means(list, m) && (ops != [] ==> MeansThroughout(Edit(list, ops[0]), EditMap(m, ops[0]), ops[1..]))
  }

  predicate NamesUser(op: AccessOp) {
    PlainName(op.user) && |op.user| <= USER_LIMIT
  }

  lemma EditMeans(list: string, m: map<string, Mode>, op: AccessOp)
    requires |list| <= LIST_LIMIT && Means(list, m)
    ensures op.AddUser? ==>
              (Means(Edit(list, op), EditMap(m, op)) <==> GrantsOnly(list, Edit(list, op), op.user, op.mode))
    ensures op.RemoveUser? ==> (Means(Edit(list, op), EditMap(m, op)) <==> RevokesOnly(list, Edit(list, op), op.user))
  {
    hide Right, Edit;
    forall v ensures (v in EditMap(m, op)) == if v == op.user then op.AddUser? else v in m {
    }
  }

  /** One edit does to the text what it does to the map exactly when it hits right and fits. */
  lemma EditExactIff(list: string, lead: bool, es: seq<Entry>, m: map<string, Mode>, op: AccessOp)
    returns (lead': bool)
    requires IsListOf(list, lead, es) && |list| <= LIST_LIMIT && Means(list, m) && NamesUser(op)
    ensures Means(Edit(list, op), EditMap(m, op))
        <==> HitsRight(es, op.user) && (op.AddUser? ==> GrantFits(list, op.user, op.mode))
    ensures HitsRight(es, op.user) && (op.AddUser? ==> GrantFits(list, op.user, op.mode)) ==>
              IsListOf(Edit(list, op), lead', EditEntries(es, op))
  {
    var u := op.user;
    EditMeans(list, m, op);
    hide Right, Grant, Revoke, HitsRight, GrantFits, Listed, Texts, GoodEntries, EntriesWithout, Means, EditMap;
    lead' := lead;
    match op {
      case AddUser(_, mode) =>
        GrantExactIff(lead, es, u, mode);
        if HitsRight(es, u) && GrantFits(list, u, mode) {
          GrantKeepsList(list, lead, es, u, mode);
          lead' := lead || EntriesWithout(es, u) == [];
        }
      case RemoveUser(_) =>
        RevokeExactIff(lead, es, u);
        if HitsRight(es, u) {
          RevokeKeepsList(list, lead, es, u);
          assert EntriesWithout(es, u) + [] == EntriesWithout(es, u);
        }
    }
  }

  /**
   Over any run of grants and revocations the text means the map all the way if and only if every edit, when its
   turn comes, hits the right entry among those listed at that moment and every grant fits the buffers.
   */
  lemma {:induction false} AccessListRefinesMapIff(list: string, lead: bool, es: seq<Entry>, m: map<string, Mode>,
                                                   ops: seq<AccessOp>)
    requires IsListOf(list, lead, es) && |list| <= LIST_LIMIT && Means(list, m)
    requires forall i | 0 <= i < |ops| :: NamesUser(ops[i])
    ensures MeansThroughout(list, m, ops) <==> StepsFit(list, es, ops)
    decreases |ops|
  {
    hide IsListOf, Means, HitsRight, GrantFits, EditEntries, EditMap, NamesUser, Edit;
    if ops != [] {
      var lead' := EditExactIff(list, lead, es, m, ops[0]);
      if HitsRight(es, ops[0].user) && (ops[0].AddUser? ==> GrantFits(list, ops[0].user, ops[0].mode)) {
        AccessListRefinesMapIff(Edit(list, ops[0]), lead', EditEntries(es, ops[0]), EditMap(m, ops[0]), ops[1..]);
      }
    }
  }

  function EditEntriesAll(es: seq<Entry>, ops: seq<AccessOp>): seq<Entry>
    decreases |ops|
  {
    if ops == [] then es else EditEntriesAll(EditEntries(es, ops[0]), ops[1..])
  }

  /** At the end of such a run the text is the list of the entries that are left, in order of their grants. */
  lemma {:induction false} AccessListRefinesMap(list: string, lead: bool, es: seq<Entry>, m: map<string, Mode>,
                                                ops: seq<AccessOp>)
    returns (lead': bool)
    requires IsListOf(list, lead, es) && |list| <= LIST_LIMIT && Means(list, m)
    requires (forall i | 0 <= i < |ops| :: NamesUser(ops[i])) && StepsFit(list, es, ops)
    ensures IsListOf(EditAll(list, ops), lead', EditEntriesAll(es, ops))
    ensures Means(EditAll(list, ops), EditMapAll(m, ops))
    decreases |ops|
  {
    hide IsListOf, Means, HitsRight, GrantFits, EditEntries, EditMap, NamesUser, Edit;
    lead' := lead;
    if ops != [] {
      lead' := EditExactIff(list, lead, es, m, ops[0]);
      lead' := AccessListRefinesMap(Edit(list, ops[0]), lead', EditEntries(es, ops[0]), EditMap(m, ops[0]), ops[1..]);
    }
  }

  /** Names of which none ends with another one. */
  predicate SuffixFree(names: set<string>) {
    forall a, b | a in names && b in names :: EndsWith(a, b) ==> a == b
  }

  predicate NamedBy(es: seq<Entry>, names: set<string>) {
    forall i | 0 <= i < |es| :: es[i].user in names
  }

  /** Every grant of the run fits the buffers when its turn comes. */
  predicate AllFit(list: string, ops: seq<AccessOp>)
    requires |list| <= LIST_LIMIT
    decreases |ops|
  {
    ops != [] ==>
      && (ops[0].AddUser? ==> GrantFits(list, ops[0].user, ops[0].mode))
      && AllFit(Edit(list, ops[0]), ops[1..])
  }

  lemma SuffixFreeStep(es: seq<Entry>, op: AccessOp, names: set<string>)
    requires SuffixFree(names) && GoodEntries(es) && NamedBy(es, names) && op.user in names
    ensures HitsRight(es, op.user) && NamedBy(EditEntries(es, op), names)
    ensures PlainName(op.user) ==> GoodEntries(EditEntries(es, op))
  {
    hide EndsWith, PlainName;
    WithoutIsGood(es, op.user);
    var rest := EntriesWithout(es, op.user);
    if PlainName(op.user) && op.AddUser? { AppendedIsGood(rest, Entry(op.user, op.mode)); }
    assert rest + [] == rest;
    if t: nat :| Target(es, op.user) == Some(t) {
      assert es[t].user in names;
    }
  }

  /** Among names of which none ends with another, every edit hits right; only the buffers can fail. */
  lemma {:induction false} SuffixFreeNamesFit(list: string, es: seq<Entry>, names: set<string>, ops: seq<AccessOp>)
    requires SuffixFree(names) && GoodEntries(es) && NamedBy(es, names) && |list| <= LIST_LIMIT
    requires forall i | 0 <= i < |ops| :: ops[i].user in names && NamesUser(ops[i])
    ensures StepsFit(list, es, ops) <==> AllFit(list, ops)
    decreases |ops|
  {
    hide SuffixFree, GoodEntries, NamedBy, HitsRight, EditEntries, Edit, GrantFits;
    if ops != [] {
      SuffixFreeStep(es, ops[0], names);
      SuffixFreeNamesFit(Edit(list, ops[0]), EditEntries(es, ops[0]), names, ops[1..]);
    }
  }

  /** A new file's list: its owner may read and write. */
  lemma OwnerList(owner: string)
    requires PlainName(owner)
    ensures IsListOf(owner + ":RW", false, [Entry(owner, RW)])
    ensures Means(owner + ":RW", map[owner := RW])
  {
    var e := Entry(owner, RW);
    assert Texts([e]) == [EntryText(e)] && EntryText(e) == owner + ":RW";
    assert Listed(false, [EntryText(e)]) == EntryText(e);
    forall v { RightOfOneEntry(e, v); }
  }

  /** Revoking "ann" hits the entry of "joann" in front of it and takes that user's rights away. */
  lemma WrongUserRevoked()
    ensures var list := Listed(false, Texts([Entry("joann", R), Entry("bob", R), Entry("ann", R)]));
            !RevokesOnly(list, Revoke(list, "ann"), "ann")
  {
    var es := [Entry("joann", R), Entry("bob", R), Entry("ann", R)];
    assert "joann"[2..] == "ann";
    assert EndsWith("joann", "ann") && Matches(es[0], "ann", R);
    assert FirstMatch(es, "ann", R) == Some(0);
    assert forall i | 0 <= i < |es| :: !Matches(es[i], "ann", RW);
    assert Target(es, "ann") == Some(0);
    RevokeExactIff(false, es, "ann");
  }
}

/**
 The access list of a file: a comma-separated text "user:R,user:RW,..." that granting and revoking edit in
 place. Read through the parser of the permission cache it is a finite map from users to modes; cutting and
 appending text are related to the fields.
 */
module AccessList {
  import opened Text
  import opened CStrings

  datatype Mode = R | RW

  datatype Entry = Entry(user: string, mode: Mode)

  function ModeText(m: Mode): string {
    if m == R then "R" else "RW"
  }

  /** The buffers: access_list, a user name, access_str and search_rw, each without its closing NUL. */
  const LIST_LIMIT: nat := 4095
  const USER_LIMIT: nat := 63
  const ENTRY_LIMIT: nat := 63
  const SEARCH_LIMIT: nat := 127

  // ---------- what a list means ----------

  /** One field read as an entry: "user:R" or "user:RW", cut at its first colon; anything else grants nothing. */
  function FieldEntry(field: string): (e: Option<Entry>)
    ensures e.Some? ==> ':' !in e.value.user
  {
    var n := IndexOf(field, ':');
    if n == |field| then None
    else if field[n + 1..] == "R" then Some(Entry(field[..n], R))
    else if field[n + 1..] == "RW" then Some(Entry(field[..n], RW))
    else None
  }

  /** What one field grants to a user. */
  function FieldRight(field: string, user: string): Option<Mode> {
    match FieldEntry(field)
    case None => None
    case Some(e) => if e.user == user then Some(e.mode) else None
  }

  /** Of two pieces of a list the later one decides, if it says anything. */
  function Later(a: Option<Mode>, b: Option<Mode>): Option<Mode> {
    if b.Some? then b else a
  }

  /** Of several entries for a user the last one counts. */
  function FieldsRight(fs: seq<string>, user: string): Option<Mode> {
    if fs == [] then None else Later(FieldsRight(fs[..|fs| - 1], user), FieldRight(Last(fs), user))
  }

  /** The mode a list gives to a user. */
  function Right(list: string, user: string): Option<Mode> {
    FieldsRight(Tokens(list, ","), user)
  }

  lemma {:induction false} FieldsRightAppend(a: seq<string>, b: seq<string>, user: string)
    ensures FieldsRight(a + b, user) == Later(FieldsRight(a, user), FieldsRight(b, user))
  {
    if b == [] {
      assert a + b == a;
    } else {
      FieldsRightAppend(a, b[..|b| - 1], user);
      assert (a + b)[..|a + b| - 1] == a + b[..|b| - 1];
      assert Last(a + b) == Last(b);
    }
  }

  lemma FieldsRightOne(field: string, user: string)
    ensures FieldsRight([field], user) == FieldRight(field, user)
  {
    assert [field][..0] == [];
    assert FieldsRight([], user) == None;
  }

  /** Appending a text after a comma adds its rights, whatever the list looks like. */
  lemma RightAppend(list: string, more: string, user: string)
    ensures Right(list + "," + more, user) == Later(Right(list, user), Right(more, user))
  {
    TokensSplit(list, ',', more, ",");
    FieldsRightAppend(Tokens(list, ","), Tokens(more, ","), user);
  }

  // ---------- editing the text ----------

  /** Cuts the text from pos to the next comma, together with one neighbouring comma. */
  function CutField(list: string, pos: nat): string
    requires pos <= |list|
  {
    var after := pos + IndexOf(list[pos..], ',');
    if pos > 0 && list[pos - 1] == ',' then list[..pos - 1] + list[after..]
    else if after < |list| then list[..pos] + list[after + 1..]
    else list[..pos]
  }

  /** Where the search for a user's entry ends up: first as "user:RW", else as "user:R". */
  function FindUser(list: string, user: string): Option<nat> {
    var rw := Strstr(list, Truncate(user + ":RW", SEARCH_LIMIT));
    if rw.Some? then rw else Strstr(list, Truncate(user + ":R", SEARCH_LIMIT))
  }

  /** remove_user_access_ll on the text. */
  function Revoke(list: string, user: string): (r: string)
    ensures |r| <= |list|
  {
    match FindUser(list, user)
    case None => list
    case Some(pos) => CutField(list, pos)
  }

  /** The text add_user_access_ll appends. */
  function GrantText(user: string, mode: Mode): string {
    Truncate("," + user + ":" + ModeText(mode), ENTRY_LIMIT)
  }

  /** add_user_access_ll on the text. */
  function Grant(list: string, user: string, mode: Mode): (r: string)
    requires |list| <= LIST_LIMIT
    ensures |r| <= LIST_LIMIT
  {
    var rest := Revoke(list, user);
    rest + Truncate(GrantText(user, mode), LIST_LIMIT - |rest|)
  }

  // ---------- lists as fields ----------

  function Commas(fs: seq<string>): string {
    if fs == [] then "" else if |fs| == 1 then fs[0] else fs[0] + "," + Commas(fs[1..])
  }

  /** A list text; it starts with a comma if it was empty when its first field was added. */
  function Listed(lead: bool, fs: seq<string>): string {
    if fs == [] then "" else (if lead then "," else "") + Commas(fs)
  }

  predicate IsField(f: string) {
    f != "" && ',' !in f
  }

  lemma {:induction false} CommasAppend(a: seq<string>, b: seq<string>)
    requires a != [] && b != []
    ensures Commas(a + b) == Commas(a) + "," + Commas(b)
  {
    assert (a + b)[0] == a[0] && (a + b)[1..] == a[1..] + b;
    if |a| == 1 {
      assert a[1..] + b == b;
    } else {
      CommasAppend(a[1..], b);
    }
  }

  lemma {:induction false} TokensOfCommas(fs: seq<string>)
    requires forall i | 0 <= i < |fs| :: IsField(fs[i])
    ensures Tokens(Commas(fs), ",") == fs
  {
    if fs == [] {
      NoTokens(",");
    } else {
      assert IsField(fs[0]);
      TokensOfToken(fs[0], ',', Commas(fs[1..]), ",");
      TokensOfCommas(fs[1..]);
      if |fs| == 1 { assert fs == [fs[0]]; }
    }
  }

  lemma TokensOfListed(lead: bool, fs: seq<string>)
    requires forall i | 0 <= i < |fs| :: IsField(fs[i])
    ensures Tokens(Listed(lead, fs), ",") == fs
  {
    hide Tokens, Commas;
    TokensOfCommas(fs);
    if fs == [] {
      NoTokens(",");
    } else if lead {
      TokensAfterSeparator(',', Commas(fs), ",");
    } else {
      assert "" + Commas(fs) == Commas(fs);
    }
  }

  /** The text before field t, with the comma that ends it, and the text behind it. */
  function Before(lead: bool, fs: seq<string>, t: nat): string
    requires t < |fs|
  {
    if t == 0 then (if lead then "," else "") else Listed(lead, fs[..t]) + ","
  }

  function Behind(fs: seq<string>, t: nat): string
    requires t < |fs|
  {
    if t + 1 == |fs| then "" else "," + Commas(fs[t + 1..])
  }

  lemma ListedAround(lead: bool, fs: seq<string>, t: nat)
    requires t < |fs|
    ensures Listed(lead, fs) == Before(lead, fs, t) + fs[t] + Behind(fs, t)
  {
    hide Commas, Behind;
    FieldAndBehind(fs, t);
    var l := if lead then "," else "";
    if t > 0 {
      CommasAppend(fs[..t], fs[t..]);
      assert fs[..t] + fs[t..] == fs;
      RegroupAround(l, Commas(fs[..t]), fs[t], Behind(fs, t));
    } else {
      assert fs[0..] == fs;
      Assoc(l, fs[t], Behind(fs, t));
    }
  }

  lemma RegroupAround(l: string, c: string, f: string, b: string)
    ensures l + (c + "," + (f + b)) == (l + c + ",") + f + b
  {
  }

  lemma FieldAndBehind(fs: seq<string>, t: nat)
    requires t < |fs|
    ensures Commas(fs[t..]) == fs[t] + Behind(fs, t)
  {
    if t + 1 == |fs| {
      assert fs[t..] == [fs[t]] && fs[t] + "" == fs[t];
    } else {
      assert fs[t..][1..] == fs[t + 1..];
      Assoc(fs[t], ",", Commas(fs[t + 1..]));
    }
  }

  lemma ListedJoin(lead: bool, a: seq<string>, b: seq<string>)
    requires a != [] && b != []
    ensures Listed(lead, a + b) == Listed(lead, a) + "," + Commas(b)
  {
    CommasAppend(a, b);
  }

  /** Cutting at field t = x + v, where the search found v. */
  function CutFields(fs: seq<string>, t: nat, x: string): seq<string>
    requires t < |fs|
  {
    if x == "" then fs[..t] + fs[t + 1..]
    else if t + 1 < |fs| then fs[..t] + [x + fs[t + 1]] + fs[t + 2..]
    else fs[..t] + [x]
  }

  lemma CutIsOnFields(lead: bool, fs: seq<string>, t: nat, x: string, v: string)
    requires t < |fs| && fs[t] == x + v && IsField(fs[t])
    ensures var pos := |Before(lead, fs, t)| + |x|;
            && pos <= |Listed(lead, fs)|
            && CutField(Listed(lead, fs), pos) == Listed(lead, CutFields(fs, t, x))
  {
    hide Before, Behind, CutField, CutText, CutFields, Listed, IndexOf, Commas;
    var p, q, list := Before(lead, fs, t), Behind(fs, t), Listed(lead, fs);
    CommaFree(x, v);
    hide IsField;
    ListedAround(lead, fs, t);
    Assoc(p, x, v);
    TailOf(p, x, v, q);
    BeforeEnds(lead, fs, t);
    IndexOfExact(v, ',', q);
    CutPieces(p, x, v, q);
    CutPiecesListed(lead, fs, t, x);
  }

  lemma TailOf(p: string, x: string, v: string, q: string)
    ensures (p + x + v + q)[|p| + |x|..] == v + q
  {
  }

  lemma BeforeEnds(lead: bool, fs: seq<string>, t: nat)
    requires t < |fs|
    ensures Before(lead, fs, t) == "" || Last(Before(lead, fs, t)) == ','
    ensures Behind(fs, t) == "" || Behind(fs, t)[0] == ','
    ensures t > 0 ==> Before(lead, fs, t)[..|Before(lead, fs, t)| - 1] == Listed(lead, fs[..t])
    ensures t + 1 < |fs| ==> Behind(fs, t)[1..] == Commas(fs[t + 1..])
  {
  }

  lemma CommaFree(x: string, v: string)
    requires ',' !in x + v
    ensures ',' !in x && ',' !in v
  {
    forall i | 0 <= i < |x| ensures x[i] != ',' { assert x[i] == (x + v)[i]; }
    forall i | 0 <= i < |v| ensures v[i] != ',' { assert v[i] == (x + v)[|x| + i]; }
  }

  /** What remains of the text around a cut. */
  function CutText(p: string, x: string, q: string): string {
    if x != "" then p + x + (if q != "" then q[1..] else "")
    else if p != "" then p[..|p| - 1] + q
    else if q != "" then q[1..] else ""
  }

  /** The pieces of a + v + q. */
  lemma PiecesOf(a: string, v: string, q: string)
    ensures var list, after := a + v + q, |a| + |v|;
            && |list| == after + |q| && list[..|a|] == a && list[after..] == q
            && (q != "" ==> list[after + 1..] == q[1..])
            && (a != "" ==> list[|a| - 1] == Last(a) && list[..|a| - 1] == a[..|a| - 1])
  {
  }

  /** Cutting v out between a and q. */
  lemma CutBetween(a: string, v: string, q: string)
    requires IndexOf((a + v + q)[|a|..], ',') == |v|
    ensures CutField(a + v + q, |a|)
         == if a != "" && Last(a) == ',' then a[..|a| - 1] + q else a + if q != "" then q[1..] else ""
  {
    hide IndexOf;
    PiecesOf(a, v, q);
    if q == "" { assert a + "" == a; }
  }

  lemma LastOf(p: string, x: string)
    ensures x != "" ==> p + x != "" && Last(p + x) == Last(x)
    ensures x == "" ==> p + x == p
  {
  }

  lemma CutPieces(p: string, x: string, v: string, q: string)
    requires ',' !in x && (p == "" || Last(p) == ',')
    requires IndexOf((p + x + v + q)[|p| + |x|..], ',') == |v|
    ensures CutField(p + x + v + q, |p| + |x|) == CutText(p, x, q)
  {
    hide IndexOf, CutField;
    CutBetween(p + x, v, q);
    LastOf(p, x);
    LastOf("", if q != "" then q[1..] else "");
  }

  /** CutText when the text behind is a comma and rest, or nothing. */
  lemma CutTextValue(p: string, x: string, rest: string, atEnd: bool)
    requires atEnd ==> rest == ""
    ensures var q := if atEnd then "" else "," + rest;
            && (x != "" ==> CutText(p, x, q) == p + (x + rest))
            && (x == "" && p != "" ==> CutText(p, x, q) == p[..|p| - 1] + q)
            && (x == "" && p == "" ==> CutText(p, x, q) == rest)
  {
    assert ("," + rest)[1..] == rest;
    Assoc(p, x, rest);
  }

  /** The fields that follow field t after a cut. */
  function Rest(fs: seq<string>, t: nat, x: string): seq<string>
    requires t < |fs|
  {
    var b := fs[t + 1..];
    if x == "" then b else if b != [] then [x + b[0]] + b[1..] else [x]
  }

  lemma CutFieldsAre(fs: seq<string>, t: nat, x: string)
    requires t < |fs|
    ensures CutFields(fs, t, x) == fs[..t] + Rest(fs, t, x)
    ensures Commas(Rest(fs, t, x)) == x + Commas(fs[t + 1..])
    ensures Rest(fs, t, x) == [] <==> x == "" && t + 1 == |fs|
    ensures t + 1 == |fs| ==> Commas(fs[t + 1..]) == ""
  {
    CommasGlue(x, fs[t + 1..]);
  }

  lemma CutPiecesListed(lead: bool, fs: seq<string>, t: nat, x: string)
    requires t < |fs|
    ensures CutText(Before(lead, fs, t), x, Behind(fs, t)) == Listed(lead, CutFields(fs, t, x))
  {
    if t == 0 { CutFirst(lead, fs, x); } else { CutInLaterField(lead, fs, t, x); }
  }

  lemma CutFirst(lead: bool, fs: seq<string>, x: string)
    requires fs != []
    ensures CutText(Before(lead, fs, 0), x, Behind(fs, 0)) == Listed(lead, CutFields(fs, 0, x))
  {
    hide CutText, CutFields, Rest;
    CutTextValue(Before(lead, fs, 0), x, Commas(fs[1..]), 1 == |fs|);
    CutFieldsAre(fs, 0, x);
    assert fs[..0] + Rest(fs, 0, x) == Rest(fs, 0, x);
    hide Commas;
  }

  lemma CutInLaterField(lead: bool, fs: seq<string>, t: nat, x: string)
    requires 0 < t < |fs|
    ensures CutText(Before(lead, fs, t), x, Behind(fs, t)) == Listed(lead, CutFields(fs, t, x))
  {
    hide CutText, CutFields, Rest, Commas, Listed;
    var rest := Commas(fs[t + 1..]);
    CutFieldsAre(fs, t, x);
    CutTextValue(Before(lead, fs, t), x, rest, t + 1 == |fs|);
    BeforeEnds(lead, fs, t);
    ListedOfJoin(lead, fs[..t], Rest(fs, t, x));
    Assoc(Listed(lead, fs[..t]), ",", x + rest);
    NothingInFront(x, rest);
  }

  lemma NothingInFront(x: string, rest: string)
    ensures x == "" ==> x + rest == rest
  {
  }

  lemma ListedOfJoin(lead: bool, a: seq<string>, c: seq<string>)
    requires a != []
    ensures Listed(lead, a + c) == Listed(lead, a) + if c == [] then "" else "," + Commas(c)
  {
    if c == [] {
      assert a + c == a;
    } else {
      CommasAppend(a, c);
      ListedJoin(lead, a, c);
      Assoc(Listed(lead, a), ",", Commas(c));
    }
  }

  lemma CommasGlue(x: string, b: seq<string>)
    ensures Commas(if b != [] then [x + b[0]] + b[1..] else [x]) == x + Commas(b)
  {
    if b != [] { assert ([x + b[0]] + b[1..])[1..] == b[1..]; }
  }
}

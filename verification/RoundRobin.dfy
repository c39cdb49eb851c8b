/** Round-robin placement. */
module RoundRobin {
  import opened Text

  // The scan for the next online server is unrolled to an unbounded walk over positions u, u + 1, ... whose residues
  // are the servers; fairness is then counting.

  /** The scan of get_available_storage_server: the first online server from position start + i on. */
  function Scan(online: seq<bool>, start: nat, i: nat): (r: Option<nat>)
    requires i <= |online|
    ensures r.Some? ==> r.value < |online| && online[r.value]
    decreases |online| - i
  {
    if i == |online| then None
    else
      var c := (start + i) % |online|;
      if online[c] then Some(c) else Scan(online, start, i + 1)
  }

  /** The index the next scan starts from. */
  function NextStart(online: seq<bool>, start: nat): (next: nat)
    ensures start < |online| ==> next < |online|
  {
    match Scan(online, start, 0)
    case None => start
    case Some(c) => (c + 1) % |online|
  }

  /** The servers chosen by k calls in a row. */
  function Picks(online: seq<bool>, start: nat, k: nat): (p: seq<nat>)
    requires true in online && start < |online|
    decreases k
  {
    if k == 0 then []
    else
      SomeOnline(online, start);
      [Scan(online, start, 0).value] + Picks(online, NextStart(online, start), k - 1)
  }

  // ---------- the unrolled walk ----------

  predicate On(online: seq<bool>, x: nat) {
    online != [] && online[x % |online|]
  }

  /** How many positions in [a, b) are online. */
  function Count(online: seq<bool>, a: nat, b: nat): nat
    requires a <= b
    decreases b
  {
    if a == b then 0 else Count(online, a, b - 1) + if On(online, b - 1) then 1 else 0
  }

  lemma {:induction false} CountSplit(online: seq<bool>, a: nat, b: nat, c: nat)
    requires a <= b <= c
    ensures Count(online, a, c) == Count(online, a, b) + Count(online, b, c)
    decreases c
  {
    if b < c { CountSplit(online, a, b, c - 1); }
  }

  lemma OnIsPeriodic(online: seq<bool>, x: nat)
    requires online != []
    ensures On(online, x + |online|) == On(online, x)
  {
    AddMultiple(x, |online|, 1);
  }

  /** Every window of one round holds the same number of online positions. */
  lemma {:induction false} CountRound(online: seq<bool>, a: nat)
    requires online != []
    ensures Count(online, a, a + |online|) == Count(online, 0, |online|)
  {
    if a > 0 {
      var n := |online|;
      CountRound(online, a - 1);
      CountSplit(online, a - 1, a, a + n);
      CountSplit(online, a - 1, a - 1 + n, a + n);
      OnIsPeriodic(online, a - 1);
      assert Count(online, a - 1, a) == Count(online, a - 1, a - 1) + if On(online, a - 1) then 1 else 0;
      assert Count(online, a - 1 + n, a + n)
          == Count(online, a - 1 + n, a - 1 + n) + if On(online, a - 1 + n) then 1 else 0;
    }
  }

  /** From position u the scan stops at the first online position x, at most one round away. */
  lemma {:induction false} ScanFrom(online: seq<bool>, u: nat, i: nat) returns (x: nat)
    requires online != [] && i <= |online| && Scan(online, u % |online|, i).Some?
    ensures u + i <= x && On(online, x) && Scan(online, u % |online|, i) == Some(x % |online|)
    ensures Count(online, u + i, x) == 0
    decreases |online| - i
  {
    var n := |online|;
    SameResidue(u, i, n);
    if On(online, u + i) {
      x := u + i;
    } else {
      x := ScanFrom(online, u, i + 1);
      CountSplit(online, u + i, u + i + 1, x);
      assert Count(online, u + i, u + i) == 0;
    }
  }

  lemma SameResidue(u: nat, i: nat, n: nat)
    requires n > 0
    ensures (u % n + i) % n == (u + i) % n
  {
    var q, r := Divide(u, n);
    AddMultiple(r + i, n, q);
  }

  lemma Divide(u: nat, n: nat) returns (q: nat, r: nat)
    requires n > 0
    ensures u == r + n * q && r == u % n
  {
    q, r := u / n, u % n;
  }

  lemma AddMultiple(a: nat, n: nat, q: nat)
    requires n > 0
    ensures (a + n * q) % n == a % n
  {
    assert n * (a / n) + n * q == n * (a / n + q);
    ResidueIs(a + n * q, n, a / n + q, a % n);
  }

  lemma ResidueIs(a: nat, n: nat, q: nat, r: nat)
    requires r < n && a == n * q + r
    ensures a % n == r && a / n == q
  {
    var p := a / n;
    if p < q { Multiple(n, q - p); } else if p > q { Multiple(n, p - q); }
    assert n * (q - p) == a % n - r;
  }

  lemma Multiple(n: nat, k: nat)
    requires k > 0
    ensures n * k >= n
  {
  }

  lemma {:induction false} ScanNone(online: seq<bool>, start: nat, i: nat, d: nat)
    requires i <= d < |online| && Scan(online, start, i) == None
    ensures !online[(start + d) % |online|]
    decreases |online| - i
  {
    if d > i { ScanNone(online, start, i + 1, d); }
  }

  lemma ScanNoneMeansOffline(online: seq<bool>, start: nat, j: nat)
    requires start < |online| && Scan(online, start, 0) == None && j < |online|
    ensures !online[j]
  {
    var n := |online|;
    var d := if j >= start then j - start else j - start + n;
    ScanNone(online, start, 0, d);
    ResidueIs(start + d, n, if j >= start then 0 else 1, j);
  }

  lemma SomeOnline(online: seq<bool>, start: nat)
    requires true in online && start < |online|
    ensures Scan(online, start, 0).Some?
  {
    if Scan(online, start, 0) == None {
      forall j | 0 <= j < |online| ensures !online[j] { ScanNoneMeansOffline(online, start, j); }
    }
  }

  /** The walk of k picks from position u: increasing online positions, none left out up to the end. */
  ghost predicate Walk(online: seq<bool>, u: nat, xs: seq<nat>, end: nat) {
    && u <= end
    && (forall i | 0 <= i < |xs| :: u <= xs[i] < end && On(online, xs[i]))
    && (forall i, j | 0 <= i < j < |xs| :: xs[i] < xs[j])
    && Count(online, u, end) == |xs|
    && (xs != [] ==> end == Last(xs) + 1)
    && (forall x: nat | u <= x < end && On(online, x) :: x in xs)
  }

  lemma {:induction false} PicksWalk(online: seq<bool>, u: nat, k: nat) returns (xs: seq<nat>, end: nat)
    requires true in online
    ensures |xs| == k && Walk(online, u, xs, end)
    ensures Picks(online, u % |online|, k) == seq(k, i requires 0 <= i < k => xs[i] % |online|)
    ensures k == 0 ==> end == u
    decreases k
  {
    if k == 0 {
      xs, end := [], u;
    } else {
      var n := |online|;
      SomeOnline(online, u % n);
      var x := ScanFrom(online, u, 0);
      NextResidue(x, n);
      var rest;
      rest, end := PicksWalk(online, x + 1, k - 1);
      xs := [x] + rest;
      WalkStep(online, u, x, rest, end);
      assert Picks(online, u % n, k) == [x % n] + Picks(online, (x + 1) % n, k - 1);
    }
  }

  lemma NextResidue(x: nat, n: nat)
    requires n > 0
    ensures (x % n + 1) % n == (x + 1) % n
  {
    SameResidue(x, 1, n);
  }

  lemma WalkStep(online: seq<bool>, u: nat, x: nat, rest: seq<nat>, end: nat)
    requires u <= x && On(online, x) && Count(online, u, x) == 0 && Walk(online, x + 1, rest, end)
    requires rest == [] ==> end == x + 1
    ensures Walk(online, u, [x] + rest, end)
  {
    CountSplit(online, u, x, x + 1);
    CountSplit(online, u, x + 1, end);
    forall y: nat | u <= y < end && On(online, y) ensures y in [x] + rest {
      if y < x { NoneCounted(online, u, x, y); }
    }
  }

  lemma NoneCounted(online: seq<bool>, a: nat, b: nat, y: nat)
    requires a <= y < b && Count(online, a, b) == 0
    ensures !On(online, y)
  {
    CountSplit(online, a, y, b);
    CountSplit(online, y, y + 1, b);
  }

  // ---------- fairness ----------

  function OnlineCount(online: seq<bool>): nat {
    Count(online, 0, |online|)
  }

  /** A walk of m picks, m the number of online servers, stays within one round and leaves nobody out. */
  lemma FullWalk(online: seq<bool>, u: nat, xs: seq<nat>, end: nat)
    requires online != [] && Walk(online, u, xs, end) && |xs| == OnlineCount(online) > 0
    ensures end <= u + |online|
    ensures forall x: nat | u <= x < u + |online| && On(online, x) :: x in xs
  {
    var n := |online|;
    CountRound(online, u);
    if end > u + n {
      CountSplit(online, u, u + n, end);
      NotNone(online, u + n, end, Last(xs));
    } else {
      CountSplit(online, u, end, u + n);
      forall x: nat | u <= x < u + n && On(online, x) ensures x in xs {
        if x >= end { NoneCounted(online, end, u + n, x); }
      }
    }
  }

  lemma NotNone(online: seq<bool>, a: nat, b: nat, y: nat)
    requires a <= y < b && On(online, y)
    ensures Count(online, a, b) > 0
  {
    CountSplit(online, a, y, b);
    CountSplit(online, y, y + 1, b);
  }

  /** How often server j was chosen. */
  function Times(p: seq<nat>, j: nat): nat {
    multiset(p)[j]
  }

  /** The one position of residue j in a round. */
  lemma RoundPosition(u: nat, n: nat, j: nat) returns (x: nat)
    requires j < n
    ensures u <= x < u + n && x % n == j
  {
    var r := u % n;
    var q := u / n;
    x := if j >= r then u + (j - r) else u + (j - r + n);
    ResidueIs(x, n, if j >= r then q else q + 1, j);
  }

  lemma OnePosition(u: nat, n: nat, x: nat, y: nat)
    requires n > 0 && u <= x < y < u + n
    ensures x % n != y % n
  {
    if x % n == y % n {
      var p, q := x / n, y / n;
      assert y - x == n * (q - p);
      if q > p { Multiple(n, q - p); }
    }
  }

  lemma {:induction false} TimesAtMostOnce(p: seq<nat>, j: nat)
    requires forall a, b | 0 <= a < b < |p| :: p[a] != p[b]
    ensures Times(p, j) == if j in p then 1 else 0
  {
    if p != [] {
      var n := |p| - 1;
      TimesAtMostOnce(p[..n], j);
      assert p == p[..n] + [p[n]];
    }
  }

  /** m calls in a row, m the number of online servers, choose every online server exactly once and no other. */
  lemma EachOnlineServerOncePerRound(online: seq<bool>, start: nat, j: nat)
    requires true in online && start < |online| && j < |online|
    ensures Times(Picks(online, start, OnlineCount(online)), j) == if online[j] then 1 else 0
  {
    var n, m := |online|, OnlineCount(online);
    ResidueIs(start, n, 0, start);
    var xs, end := PicksWalk(online, start, m);
    var p := Picks(online, start, m);
    SomebodyCounts(online);
    FullWalk(online, start, xs, end);
    forall a, b | 0 <= a < b < |p| ensures p[a] != p[b] { OnePosition(start, n, xs[a], xs[b]); }
    TimesAtMostOnce(p, j);
    var x := RoundPosition(start, n, j);
    if online[j] {
      assert x in xs;
      var i :| 0 <= i < |xs| && xs[i] == x;
      assert p[i] == j;
    } else {
      forall i | 0 <= i < |p| ensures p[i] != j { assert On(online, xs[i]); }
    }
  }

  lemma SomebodyCounts(online: seq<bool>)
    requires true in online
    ensures OnlineCount(online) > 0
  {
    var j :| 0 <= j < |online| && online[j];
    ResidueIs(j, |online|, 0, j);
    NotNone(online, 0, |online|, j);
  }

  /** Picking is a run: k calls continue where the calls before them stopped. */
  function StartAfter(online: seq<bool>, start: nat, k: nat): (next: nat)
    requires start < |online|
    ensures next < |online|
    decreases k
  {
    if k == 0 then start else StartAfter(online, NextStart(online, start), k - 1)
  }

  lemma {:induction false} PicksAppend(online: seq<bool>, start: nat, a: nat, b: nat)
    requires true in online && start < |online|
    ensures Picks(online, start, a + b) == Picks(online, start, a) + Picks(online, StartAfter(online, start, a), b)
    decreases a
  {
    if a > 0 {
      PicksAppend(online, NextStart(online, start), a - 1, b);
    }
  }

  /** Over any k calls, every online server is chosen floor(k / m) times or once more. */
  lemma {:induction false} FairShares(online: seq<bool>, start: nat, k: nat, j: nat)
    requires true in online && start < |online| && j < |online|
    ensures OnlineCount(online) > 0
    ensures var share := k / OnlineCount(online);
            if online[j] then share <= Times(Picks(online, start, k), j) <= share + 1
            else Times(Picks(online, start, k), j) == 0
    decreases k
  {
    hide OnlineCount, Picks, Times, StartAfter;
    var m := OnlineCount(online);
    SomebodyCounts(online);
    EachOnlineServerOncePerRound(online, start, j);
    if k >= m {
      PicksAppend(online, start, m, k - m);
      TimesAppend(Picks(online, start, m), Picks(online, StartAfter(online, start, m), k - m), j);
      FairShares(online, StartAfter(online, start, m), k - m, j);
      Quotient(k, m);
    } else {
      PicksAppend(online, start, k, m - k);
      TimesAppend(Picks(online, start, k), Picks(online, StartAfter(online, start, k), m - k), j);
      Quotient(k, m);
    }
  }

  lemma TimesAppend(a: seq<nat>, b: seq<nat>, j: nat)
    ensures Times(a + b, j) == Times(a, j) + Times(b, j)
  {
  }

  lemma Quotient(k: nat, m: nat)
    requires m > 0
    ensures if k < m then k / m == 0 else k / m == (k - m) / m + 1
  {
    if k >= m {
      var q := (k - m) / m;
      assert m * (q + 1) == m * q + m;
      ResidueIs(k, m, q + 1, (k - m) % m);
    } else {
      ResidueIs(k, m, 0, k);
    }
  }
}

/**
 Sequences without repetition, as the spines of linked lists are: insertion, prefixes, cuts and joins keep them
 so.
 */
module Sequences {
  import opened Text

  /** s[i], under a name that quantifiers can wait for. */
  ghost function At<T>(s: seq<T>, i: nat): T
    requires i < |s|
  {
    s[i]
  }

  /** No element occurs twice. */
  ghost predicate Distinct<T>(s: seq<T>) {
    forall i: nat, j: nat {:trigger At(s, i), At(s, j)} | i < j < |s| :: At(s, i) != At(s, j)
  }

  lemma DistinctAt<T>(s: seq<T>, k: nat)
    requires Distinct(s) && k < |s|
    ensures forall i | 0 <= i < |s| && i != k :: s[i] != s[k]
  {
    forall i | 0 <= i < |s| && i != k ensures s[i] != s[k] {
      assert At(s, i) != At(s, k);
    }
  }

  lemma DistinctInsert<T>(s: seq<T>, k: nat, x: T)
    requires Distinct(s) && x !in s && k <= |s|
    ensures Distinct(InsertAt(s, k, x))
  {
    var r := InsertAt(s, k, x);
    forall i: nat, j: nat | i < j < |r| ensures At(r, i) != At(r, j) {
      var i', j' := if i < k then i else i - 1, if j < k then j else j - 1;
      if i != k && j != k {
        assert At(s, i') != At(s, j');
      }
    }
  }

  lemma DistinctPrefix<T>(s: seq<T>, k: nat)
    requires Distinct(s) && k <= |s|
    ensures Distinct(s[..k])
  {
    forall i: nat, j: nat | i < j < k ensures At(s[..k], i) != At(s[..k], j) {
      assert At(s, i) != At(s, j);
    }
  }

  lemma DistinctSplit<T>(s: seq<T>, k: nat)
    requires Distinct(s) && k <= |s|
    ensures Distinct(s[..k]) && Distinct(s[k..])
    ensures forall i, j | 0 <= i < k <= j < |s| :: s[i] != s[j]
  {
    DistinctPrefix(s, k);
    forall i: nat, j: nat | i < j < |s| - k ensures At(s[k..], i) != At(s[k..], j) {
      assert At(s, k + i) != At(s, k + j);
    }
    forall i, j | 0 <= i < k <= j < |s| ensures s[i] != s[j] {
      assert At(s, i) != At(s, j);
    }
  }

  lemma DistinctJoin<T>(a: seq<T>, b: seq<T>)
    requires Distinct(a) && Distinct(b) && forall i, j | 0 <= i < |a| && 0 <= j < |b| :: a[i] != b[j]
    ensures Distinct(a + b)
  {
    forall i: nat, j: nat | i < j < |a + b| ensures At(a + b, i) != At(a + b, j) {
      if j < |a| {
        assert At(a, i) != At(a, j);
      } else if i >= |a| {
        assert At(b, i - |a|) != At(b, j - |a|);
      }
    }
  }
}

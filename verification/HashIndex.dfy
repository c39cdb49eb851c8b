/**
 The name server's hash index as it is stored: an array of chains of linked nodes. Insertion puts a new node at
 the head of its chain, removal unlinks the first node of the name; each method is proved to compute the function
 of the same name in Directory.
 */
module HashIndex {
  import opened Text
  import opened Hashing
  import opened Directory
  import opened Sequences

  class FileHashNode {
    const filename: string
    const filePtr: FilePtr
    var next: FileHashNode?

    constructor (filename: string, filePtr: FilePtr)
      ensures this.filename == filename && this.filePtr == filePtr && next == null
    {
      this.filename, this.filePtr, this.next := filename, filePtr, null;
    }
  }

  /** head leads through exactly the nodes ns. */
  ghost predicate NodeChain(head: FileHashNode?, ns: seq<FileHashNode>)
    reads ns`next
  {
    && (if ns == [] then head == null else head == ns[0] && Last(ns).next == null)
    && (forall i {:trigger ns[i].next} | 0 <= i < |ns| - 1 :: ns[i].next == ns[i + 1])
    && Distinct(ns)
  }

  ghost function Values(ns: seq<FileHashNode>): (vs: seq<IndexNode>)
    ensures |vs| == |ns| && forall i | 0 <= i < |ns| :: vs[i] == IndexNode(ns[i].filename, ns[i].filePtr)
  {
    seq(|ns|, i requires 0 <= i < |ns| => IndexNode(ns[i].filename, ns[i].filePtr))
  }

  ghost predicate InBucket(ns: seq<FileHashNode>, b: nat) {
    forall i | 0 <= i < |ns| :: Bucket(ns[i].filename) == b
  }

  ghost function Without(ns: seq<FileHashNode>, k: nat): seq<FileHashNode>
    requires k < |ns|
  {
    ns[..k] + ns[k + 1..]
  }

  lemma {:induction false} FirstMatchRemoved(ns: seq<FileHashNode>, k: nat, name: string)
    requires k < |ns| && ns[k].filename == name && forall i | 0 <= i < k :: ns[i].filename != name
    ensures ChainRemove(Values(ns), name) == Values(Without(ns, k))
    ensures ChainFind(Values(ns), name) == Some(ns[k].filePtr)
  {
    hide Values;
    if k == 0 {
      assert Values(ns)[1..] == Values(Without(ns, 0));
    } else {
      FirstMatchRemoved(ns[1..], k - 1, name);
      assert Values(ns)[1..] == Values(ns[1..]);
      assert [Values(ns)[0]] + Values(Without(ns[1..], k - 1)) == Values(Without(ns, k));
    }
  }

  lemma {:induction false} NoMatch(ns: seq<FileHashNode>, name: string)
    requires forall i | 0 <= i < |ns| :: ns[i].filename != name
    ensures ChainRemove(Values(ns), name) == Values(ns) && ChainFind(Values(ns), name) == None
  {
    if ns != [] {
      NoMatch(ns[1..], name);
      assert Values(ns)[1..] == Values(ns[1..]);
      assert [Values(ns)[0]] + Values(ns)[1..] == Values(ns);
    }
  }

  lemma DistinctWithout(ns: seq<FileHashNode>, k: nat)
    requires Distinct(ns) && k < |ns|
    ensures Distinct(Without(ns, k))
  {
    var r := Without(ns, k);
    forall i: nat, j: nat | i < j < |r| ensures At(r, i) != At(r, j) {
      assert At(ns, if i < k then i else i + 1) != At(ns, if j < k then j else j + 1);
    }
  }

  lemma ChainCons(node: FileHashNode, ns: seq<FileHashNode>)
    requires NodeChain(node.next, ns) && node !in ns
    ensures NodeChain(node, [node] + ns)
  {
    var r := [node] + ns;
    forall i: nat, j: nat | i < j < |r| ensures At(r, i) != At(r, j) {
      if i > 0 { assert At(ns, i - 1) != At(ns, j - 1); }
    }
    forall i {:trigger r[i].next} | 0 <= i < |r| - 1 ensures r[i].next == r[i + 1] {
      if i > 0 { assert r[i] == ns[i - 1] && r[i + 1] == ns[i]; }
    }
  }

  /** A chain whose k-th node has been bypassed. */
  lemma ChainBypassed(ns: seq<FileHashNode>, k: nat)
    requires k < |ns| && (k < |ns| - 1 ==> Last(ns).next == null)
    requires forall i {:trigger ns[i].next} | 0 <= i < |ns| - 1 && i != k - 1 :: ns[i].next == ns[i + 1]
    requires k > 0 ==> ns[k - 1].next == if k + 1 < |ns| then ns[k + 1] else null
    ensures var r := Without(ns, k);
            && |r| == |ns| - 1 && (r != [] ==> r[0] == (if k == 0 then ns[1] else ns[0]) && Last(r).next == null)
            && forall i {:trigger r[i].next} | 0 <= i < |r| - 1 :: r[i].next == r[i + 1]
  {
    var r := Without(ns, k);
    forall i {:trigger r[i].next} | 0 <= i < |r| - 1 ensures r[i].next == r[i + 1] {
      if i < k - 1 {
        assert r[i] == ns[i] && r[i + 1] == ns[i + 1];
      } else if i >= k {
        assert r[i] == ns[i + 1] && r[i + 1] == ns[i + 2];
      }
    }
  }

  class FileHashTable {
    const buckets: array<FileHashNode?>
    ghost var chains: seq<seq<FileHashNode>>
    ghost var nodes: set<FileHashNode>

    ghost predicate BucketOk(b: nat)
      requires b < buckets.Length && b < |chains|
      reads this, buckets, nodes`next
    {
      && (forall i | 0 <= i < |chains[b]| :: chains[b][i] in nodes)
      && InBucket(chains[b], b)
      && NodeChain(buckets[b], chains[b])
    }

    ghost predicate Valid()
      reads this, buckets, nodes`next
    {
      && buckets.Length == |chains| == FILE_HASH_TABLE_SIZE
      && forall b | 0 <= b < FILE_HASH_TABLE_SIZE :: BucketOk(b)
    }

    ghost function Value(): (ix: Index)
      reads this
      ensures |ix| == |chains| && forall b | 0 <= b < |chains| :: ix[b] == Values(chains[b])
    {
      seq(|chains|, b requires 0 <= b < |chains| reads this => Values(chains[b]))
    }

    constructor ()
      ensures Valid() && fresh(buckets) && nodes == {} && Value() == EmptyIndex()
    {
      buckets := new FileHashNode?[FILE_HASH_TABLE_SIZE](_ => null);
      chains := seq(FILE_HASH_TABLE_SIZE, _ => []);
      nodes := {};
    }

    /** hash_insert_file */
    method Insert(name: string, ptr: FilePtr)
      requires Valid()
      modifies this, buckets
      ensures Valid() && fresh(nodes - old(nodes)) && old(nodes) <= nodes
      ensures Value() == IndexInsert(old(Value()), name, ptr)
    {
      hide Values, NodeChain;
      var b := HashKey(name, WORD64, FILE_HASH_TABLE_SIZE);
      ghost var ns := chains[b];
      assert BucketOk(b);
      var node := new FileHashNode(name, ptr);
      node.next := buckets[b];
      buckets[b] := node;
      ChainCons(node, ns);
      assert Values([node] + ns) == [IndexNode(name, ptr)] + Values(ns);
      chains, nodes := chains[b := [node] + ns], nodes + {node};
      forall b2 | 0 <= b2 < FILE_HASH_TABLE_SIZE ensures BucketOk(b2) {
        assert old(BucketOk(b2));
      }
    }

    /** hash_find_file, up to the pointer in the node. */
    method Find(name: string) returns (r: Option<FilePtr>)
      requires Valid()
      ensures r == IndexFind(Value(), name)
    {
      var b := HashKey(name, WORD64, FILE_HASH_TABLE_SIZE);
      var current := buckets[b];
      ghost var ns := chains[b];
      assert BucketOk(b);
      ghost var k := 0;
      while current != null
        invariant k <= |ns| && current == if k < |ns| then ns[k] else null
        invariant forall i | 0 <= i < k :: ns[i].filename != name
        decreases |ns| - k
      {
        if current.filename == name {
          FirstMatchRemoved(ns, k, name);
          return Some(current.filePtr);
        }
        current := current.next;
        k := k + 1;
      }
      NoMatch(ns, name);
      r := None;
    }

    /** hash_remove_file */
    method Remove(name: string)
      requires Valid()
      modifies this, buckets, nodes`next
      ensures Valid() && nodes == old(nodes)
      ensures Value() == IndexRemove(old(Value()), name)
    {
      var b := HashKey(name, WORD64, FILE_HASH_TABLE_SIZE);
      var current := buckets[b];
      var prev: FileHashNode? := null;
      ghost var ns := chains[b];
      assert BucketOk(b);
      ghost var k := 0;
      while current != null
        invariant k <= |ns| && current == if k < |ns| then ns[k] else null
        invariant prev == if k == 0 then null else ns[k - 1]
        invariant forall i | 0 <= i < k :: ns[i].filename != name
        decreases |ns| - k
      {
        if current.filename == name {
          Unlink(b, k, prev, current);
          FirstMatchRemoved(ns, k, name);
          return;
        }
        prev := current;
        current := current.next;
        k := k + 1;
      }
      NoMatch(ns, name);
    }

    /** Takes node k out of chain b. */
    method Unlink(b: nat, ghost k: nat, prev: FileHashNode?, current: FileHashNode)
      requires Valid() && b < FILE_HASH_TABLE_SIZE && k < |chains[b]| && current == chains[b][k]
      requires prev == if k == 0 then null else chains[b][k - 1]
      modifies this`chains, buckets, nodes`next
      ensures Valid() && nodes == old(nodes) && chains == old(chains)[b := Without(old(chains)[b], k)]
    {
      ghost var ns := chains[b];
      assert BucketOk(b);
      DistinctWithout(ns, k);
      if prev == null {
        buckets[b] := current.next;
      } else {
        DistinctAt(ns, k - 1);
        prev.next := current.next;
      }
      chains := chains[b := Without(ns, k)];
      ChainBypassed(ns, k);
      forall b2 | 0 <= b2 < FILE_HASH_TABLE_SIZE ensures BucketOk(b2) {
        if b2 != b {
          assert old(BucketOk(b2));
          assert prev != null ==> Bucket(prev.filename) == b;
        }
      }
    }
  }

  function EmptyIndex(): (ix: Index)
    ensures |ix| == FILE_HASH_TABLE_SIZE
  {
    seq(FILE_HASH_TABLE_SIZE, _ => [])
  }
}

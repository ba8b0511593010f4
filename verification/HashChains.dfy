/** The chains of map.c: hashing, nodes, and what moving nodes between chains does to the keys. */
module HashChains {
  import opened Bits
  import opened Bytes

  type Key = seq<cbyte>
  type u32 = x: int | 0 <= x < 0x1_0000_0000

  /** A plain `char` is signed: the byte is sign-extended before it is xor-ed in. */
  function SignExtend(c: cbyte): u32 {
    if c < 0x80 then c else c + 0x1_0000_0000 - 0x100
  }

  function HashStep(hash: u32, c: cbyte): u32 {
    Pow2Values();
    XorBound(hash * 33 % 0x1_0000_0000, SignExtend(c), 32);
    Xor(hash * 33 % 0x1_0000_0000, SignExtend(c))
  }

  function HashOf(key: Key): u32 {
    if key == [] then 5381 else HashStep(HashOf(key[..|key| - 1]), key[|key| - 1])
  }

  method Hash(key: Key) returns (hash: u32)
    ensures hash == HashOf(key)
  {
    hash := 5381;
    var i := 0;
    while i < |key|
      invariant 0 <= i <= |key|
      invariant hash == HashOf(key[..i])
    {
      assert key[..i + 1][..i] == key[..i];
      hash := HashStep(hash, key[i]);
      i := i + 1;
    }
    assert key[..i] == key;
  }

  ghost predicate PowerOfTwo(n: nat) {
    exists k: nat :: n == Pow2(k)
  }

  /** hash & (nbuckets - 1). */
  function BucketIndex(hash: u32, nbuckets: nat): int
    requires nbuckets > 0
  {
    And(hash, nbuckets - 1)
  }

  /** With a power-of-two bucket count the mask is the remainder, so it selects a bucket. */
  lemma BucketIsRemainder(hash: u32, nbuckets: nat)
    requires nbuckets > 0 && PowerOfTwo(nbuckets)
    ensures BucketIndex(hash, nbuckets) == hash % nbuckets && 0 <= BucketIndex(hash, nbuckets) < nbuckets
  {
    var k: nat :| nbuckets == Pow2(k);
    AndLowMask(hash, k);
  }

  class Node<V> {
    const hash: u32
    const key: Key
    var value: V
    var next: Node?<V>

    constructor (key: Key, value: V)
      ensures this.key == key && this.hash == HashOf(key) && this.value == value && this.next == null
    {
      var h := Hash(key);
      this.hash := h;
      this.key := key;
      this.value := value;
      this.next := null;
    }
  }

  // ---------------------------------------------------------------- chains

  /** The k-th node of a chain, or null past its end. */
  ghost function Item<V>(c: seq<Node<V>>, k: nat): Node?<V> {
    if k < |c| then c[k] else null
  }

  /** The nodes of `c`, in order, are what following `next` from `head` visits. */
  ghost predicate Segment<V>(head: Node?<V>, c: seq<Node<V>>)
    reads c`next
  {
    && head == Item(c, 0)
    && forall k :: 0 <= k < |c| ==> c[k].next == Item(c, k + 1)
  }

  /** The search loop of edgex_map_getref within one bucket. */
  method FindInChain<V>(head: Node?<V>, ghost c: seq<Node<V>>, hash: u32, key: Key)
    returns (node: Node?<V>, prev: Node?<V>, ghost k: nat)
    requires Segment(head, c) && hash == HashOf(key)
    requires forall l :: 0 <= l < |c| ==> c[l].hash == HashOf(c[l].key)
    ensures node == null ==> forall l :: 0 <= l < |c| ==> c[l].key != key
    ensures node != null ==>
              k < |c| && c[k] == node && node.key == key && prev == if k > 0 then c[k - 1] else null
  {
    hide HashOf;
    node, prev, k := head, null, 0;
    while node != null
      invariant 0 <= k <= |c|
      invariant node == Item(c, k)
      invariant prev == if k > 0 then c[k - 1] else null
      invariant forall l :: 0 <= l < k ==> c[l].key != key
      decreases |c| - k
    {
      if node.hash == hash && node.key == key {
        return;
      }
      prev := node;
      node := node.next;
      k := k + 1;
    }
  }

  method PushFront<V>(node: Node<V>, head: Node?<V>, ghost c: seq<Node<V>>)
    requires Segment(head, c) && node !in c
    modifies node`next
    ensures Segment(node, [node] + c)
  {
    node.next := head;
    ghost var d := [node] + c;
    forall k | 0 <= k < |d| ensures d[k].next == Item(d, k + 1) {
      if k > 0 {
        assert d[k] == c[k - 1] && c[k - 1].next == Item(c, k);
      }
    }
  }

  /** Every node sits in the bucket its key hashes to, and no chain holds a key twice. */
  ghost predicate Placed<V>(chains: seq<seq<Node<V>>>) {
    && (forall i, k :: 0 <= i < |chains| && 0 <= k < |chains[i]| ==>
          chains[i][k].hash == HashOf(chains[i][k].key) && BucketIndex(chains[i][k].hash, |chains|) == i)
    && (forall i, k, l :: 0 <= i < |chains| && 0 <= k < l < |chains[i]| ==> chains[i][k].key != chains[i][l].key)
  }

  lemma KeysApart<V>(chains: seq<seq<Node<V>>>, i: nat, k: nat, j: nat, l: nat)
    requires Placed(chains)
    requires i < |chains| && k < |chains[i]| && j < |chains| && l < |chains[j]| && (i, k) != (j, l)
    ensures chains[i][k].key != chains[j][l].key
  {
  }

  ghost predicate InChains<V>(chains: seq<seq<Node<V>>>, x: Node<V>) {
    exists i, k :: 0 <= i < |chains| && 0 <= k < |chains[i]| && chains[i][k] == x
  }

  ghost predicate KeyIn<V>(g: seq<Node<V>>, key: Key) {
    exists a :: 0 <= a < |g| && g[a].key == key
  }

  ghost predicate DistinctKeys<V>(g: seq<Node<V>>) {
    forall a, b :: 0 <= a < b < |g| ==> g[a].key != g[b].key
  }

  // ---------------------------------------------------------------- rehashing, on sequences

  ghost function Reversed<V>(c: seq<Node<V>>): (r: seq<Node<V>>)
    ensures |r| == |c| && forall k :: 0 <= k < |c| ==> r[k] == c[|c| - 1 - k]
  {
    if c == [] then [] else [c[|c| - 1]] + Reversed(c[..|c| - 1])
  }

  /** The single chain that resizing builds from buckets i and up. */
  ghost function Gathered<V>(chains: seq<seq<Node<V>>>, i: nat): seq<Node<V>>
    requires i <= |chains|
    decreases |chains| - i
  {
    if i == |chains| then [] else Reversed(chains[i]) + Gathered(chains, i + 1)
  }

  lemma {:induction false} GatheredMembers<V>(chains: seq<seq<Node<V>>>, i: nat, x: Node<V>)
    requires i <= |chains|
    ensures x in Gathered(chains, i) <==> exists j, k :: i <= j < |chains| && 0 <= k < |chains[j]| && chains[j][k] == x
    decreases |chains| - i
  {
    if i < |chains| {
      var r := Reversed(chains[i]);
      GatheredMembers(chains, i + 1, x);
      assert forall k :: 0 <= k < |chains[i]| ==> chains[i][k] == r[|r| - 1 - k];
    }
  }

  lemma {:induction false} GatheredKeys<V>(chains: seq<seq<Node<V>>>, i: nat)
    requires i <= |chains| && Placed(chains)
    ensures DistinctKeys(Gathered(chains, i))
    decreases |chains| - i
  {
    if i < |chains| {
      var r, g := Reversed(chains[i]), Gathered(chains, i + 1);
      GatheredKeys(chains, i + 1);
      forall a, b | 0 <= a < |r| && 0 <= b < |g| ensures r[a].key != g[b].key {
        assert g[b] in g;
        GatheredMembers(chains, i + 1, g[b]);
        var j, k :| i + 1 <= j < |chains| && 0 <= k < |chains[j]| && chains[j][k] == g[b];
        KeysApart(chains, i, |chains[i]| - 1 - a, j, k);
      }
    }
  }

  ghost function Pushed<V>(chains: seq<seq<Node<V>>>, node: Node<V>): seq<seq<Node<V>>>
    requires chains != [] && 0 <= BucketIndex(node.hash, |chains|) < |chains|
  {
    var n := BucketIndex(node.hash, |chains|);
    chains[n := [node] + chains[n]]
  }

  lemma PushedMembers<V>(chains: seq<seq<Node<V>>>, node: Node<V>, x: Node<V>)
    requires chains != [] && 0 <= BucketIndex(node.hash, |chains|) < |chains|
    ensures InChains(Pushed(chains, node), x) <==> x == node || InChains(chains, x)
  {
    hide BucketIndex;
    var n := BucketIndex(node.hash, |chains|);
    var after := Pushed(chains, node);
    assert after[n][0] == node;
    if InChains(chains, x) {
      var i, k :| 0 <= i < |chains| && 0 <= k < |chains[i]| && chains[i][k] == x;
      assert after[i][if i == n then k + 1 else k] == x;
    }
    if InChains(after, x) && x != node {
      var i, k :| 0 <= i < |after| && 0 <= k < |after[i]| && after[i][k] == x;
      assert chains[i][if i == n then k - 1 else k] == x;
    }
  }

  lemma PushedPlaced<V>(chains: seq<seq<Node<V>>>, node: Node<V>)
    requires chains != [] && PowerOfTwo(|chains|) && Placed(chains) && node.hash == HashOf(node.key)
    requires 0 <= BucketIndex(node.hash, |chains|) < |chains|
    requires !HasKey(chains, node.key)
    ensures Placed(Pushed(chains, node))
  {
    hide BucketIndex, HashOf;
    var n := BucketIndex(node.hash, |chains|);
    var after := Pushed(chains, node);
    assert forall k :: 1 <= k < |after[n]| ==> after[n][k] == chains[n][k - 1];
  }

  /** What re-adding the nodes of `g` one by one to n empty buckets gives. */
  ghost function Scattered<V>(g: seq<Node<V>>, n: nat): (r: seq<seq<Node<V>>>)
    requires n > 0 && PowerOfTwo(n)
    ensures |r| == n
  {
    if g == [] then seq(n, _ => [])
    else
      var node := g[|g| - 1];
      BucketIsRemainder(node.hash, n);
      Pushed(Scattered(g[..|g| - 1], n), node)
  }

  lemma {:induction false} ScatteredMembers<V>(g: seq<Node<V>>, n: nat, x: Node<V>)
    requires n > 0 && PowerOfTwo(n)
    ensures InChains(Scattered(g, n), x) <==> x in g
  {
    if g != [] {
      var node, rest := g[|g| - 1], g[..|g| - 1];
      BucketIsRemainder(node.hash, n);
      ScatteredMembers(rest, n, x);
      PushedMembers(Scattered(rest, n), node, x);
      assert g == rest + [node];
    }
  }

  lemma {:induction false} ScatteredPlaced<V>(g: seq<Node<V>>, n: nat)
    requires n > 0 && PowerOfTwo(n) && DistinctKeys(g)
    requires forall a :: 0 <= a < |g| ==> g[a].hash == HashOf(g[a].key)
    ensures Placed(Scattered(g, n))
  {
    if g != [] {
      var node, rest := g[|g| - 1], g[..|g| - 1];
      BucketIsRemainder(node.hash, n);
      ScatteredPlaced(rest, n);
      var c: seq<seq<Node<V>>> := Scattered(rest, n);
      if HasKey(c, node.key) {
        var i, k :| 0 <= i < |c| && 0 <= k < |c[i]| && c[i][k].key == node.key;
        ScatteredMembers(rest, n, c[i][k]);
        assert false;
      }
      PushedPlaced(c, node);
    }
  }

  lemma ReversedStep<V>(c: seq<Node<V>>, k: nat, g: seq<Node<V>>)
    requires k < |c|
    ensures Reversed(c[..k + 1]) + g == [c[k]] + (Reversed(c[..k]) + g)
  {
    assert c[..k + 1][..k] == c[..k];
  }

  /** The inner loop of the unchaining: move a chain, node by node, to the front of a list. */
  method ReverseOnto<V>(head: Node?<V>, ghost c: seq<Node<V>>, list: Node?<V>, ghost g: seq<Node<V>>)
    returns (list': Node?<V>)
    requires Segment(head, c) && Segment(list, g) && DistinctKeys(c)
    requires forall k :: 0 <= k < |c| ==> c[k] !in g
    modifies c`next
    ensures Segment(list', Reversed(c) + g)
  {
    hide Segment;
    SegmentLinks(head, c);
    var node := head;
    list' := list;
    ghost var k, done := 0, g;
    assert Reversed(c[..0]) + g == g;
    hide Reversed;
    while node != null
      invariant 0 <= k <= |c| && node == Item(c, k)
      invariant forall l :: k <= l < |c| ==> c[l].next == Item(c, l + 1)
      invariant done == Reversed(c[..k]) + g && Segment(list', done)
      invariant forall l :: k <= l < |c| ==> c[l] !in done
      decreases |c| - k
    {
      var next := node.next;
      PushFront(node, list', done);
      list' := node;
      ReversedStep(c, k, g);
      assert forall l :: k < l < |c| ==> c[l].key != node.key;
      done := [node] + done;
      node := next;
      k := k + 1;
    }
    assert c[..k] == c;
  }

  lemma SegmentLinks<V>(head: Node?<V>, c: seq<Node<V>>)
    requires Segment(head, c)
    ensures head == Item(c, 0) && forall l :: 0 <= l < |c| ==> c[l].next == Item(c, l + 1)
  {
  }

  lemma OtherBuckets<V>(chains: seq<seq<Node<V>>>, key: Key)
    requires Placed(chains) && chains != [] && PowerOfTwo(|chains|)
    requires var i := BucketIndex(HashOf(key), |chains|);
             0 <= i < |chains| && forall l :: 0 <= l < |chains[i]| ==> chains[i][l].key != key
    ensures !HasKey(chains, key)
  {
  }

  lemma NodesApart<V>(g: seq<Node<V>>, a: nat)
    requires DistinctKeys(g) && a < |g|
    ensures forall b :: a < b < |g| ==> g[b] != g[a]
  {
  }

  lemma ScatteredStep<V>(g: seq<Node<V>>, a: nat, n: nat)
    requires a < |g| && n > 0 && PowerOfTwo(n) && DistinctKeys(g)
    ensures 0 <= BucketIndex(g[a].hash, n) < n
    ensures Scattered(g[..a + 1], n) == Pushed(Scattered(g[..a], n), g[a])
    ensures !InChains(Scattered(g[..a], n), g[a])
  {
    BucketIsRemainder(g[a].hash, n);
    assert g[..a + 1][..a] == g[..a];
    ScatteredMembers(g[..a], n, g[a]);
  }

  lemma ScatteredNothing<V>(n: nat)
    requires n > 0 && PowerOfTwo(n)
    ensures Scattered<V>([], n) == seq(n, _ => [])
  {
  }

  /** Rehashing keeps exactly the same nodes, each in the bucket its hash selects. */
  lemma Rehashed<V>(chains: seq<seq<Node<V>>>, n: nat)
    requires Placed(chains) && n > 0 && PowerOfTwo(n)
    ensures DistinctKeys(Gathered(chains, 0))
    ensures Placed(Scattered(Gathered(chains, 0), n))
    ensures forall x: Node<V> :: InChains(Scattered(Gathered(chains, 0), n), x) <==> InChains(chains, x)
  {
    var g := Gathered(chains, 0);
    GatheredKeys(chains, 0);
    forall a | 0 <= a < |g| ensures g[a].hash == HashOf(g[a].key) {
      assert g[a] in g;
      GatheredMembers(chains, 0, g[a]);
    }
    ScatteredPlaced(g, n);
    forall x: Node<V> ensures InChains(Scattered(g, n), x) <==> InChains(chains, x) {
      ScatteredMembers(g, n, x);
      GatheredMembers(chains, 0, x);
    }
  }

  lemma GatheredAt<V>(chains: seq<seq<Node<V>>>, a: nat)
    requires a < |Gathered(chains, 0)|
    ensures InChains(chains, Gathered(chains, 0)[a])
  {
    var g := Gathered(chains, 0);
    assert g[a] in g;
    GatheredMembers(chains, 0, g[a]);
  }

  lemma SameKeys<V>(a: seq<seq<Node<V>>>, b: seq<seq<Node<V>>>)
    requires forall x: Node<V> :: InChains(b, x) <==> InChains(a, x)
    ensures forall key :: HasKey(a, key) ==> HasKey(b, key)
  {
    forall key | HasKey(a, key) ensures HasKey(b, key) {
      var i, k :| 0 <= i < |a| && 0 <= k < |a[i]| && a[i][k].key == key;
      assert InChains(a, a[i][k]) && InChains(b, a[i][k]);
    }
  }

  ghost function Without<V>(c: seq<Node<V>>, k: nat): seq<Node<V>>
    requires k < |c|
  {
    c[..k] + c[k + 1..]
  }

  lemma WithoutMembers<V>(c: seq<Node<V>>, k: nat)
    requires k < |c|
    ensures |Without(c, k)| == |c| - 1
    ensures forall l :: 0 <= l < |c| - 1 ==> Without(c, k)[l] == c[if l < k then l else l + 1]
  {
  }

  lemma WithoutPlaced<V>(chains: seq<seq<Node<V>>>, i: nat, k: nat)
    requires Placed(chains) && i < |chains| && k < |chains[i]|
    ensures Placed(chains[i := Without(chains[i], k)])
  {
    hide BucketIndex, HashOf;
    WithoutMembers(chains[i], k);
    hide Without;
  }

  method UnlinkInChain<V>(head: Node?<V>, ghost c: seq<Node<V>>, node: Node<V>, prev: Node?<V>, ghost k: nat)
    returns (head': Node?<V>)
    requires Segment(head, c) && DistinctKeys(c) && k < |c| && c[k] == node
    requires prev == if k > 0 then c[k - 1] else null
    modifies c`next
    ensures Segment(head', Without(c, k))
  {
    WithoutMembers(c, k);
    hide Without;
    SegmentLinks(head, c);
    ghost var d := Without(c, k);
    head' := head;
    if prev == null {
      head' := node.next;
    } else {
      prev.next := node.next;
    }
    forall l | 0 <= l < |d| ensures d[l].next == Item(d, l + 1) {
      if l < k { assert d[l] == c[l]; } else { assert d[l] == c[l + 1]; }
    }
  }

  lemma PlacedDistinct<V>(chains: seq<seq<Node<V>>>, i: nat)
    requires Placed(chains) && i < |chains|
    ensures DistinctKeys(chains[i])
  {
  }

  lemma DoubledIsPower(n: nat)
    requires n == 0 || PowerOfTwo(n)
    ensures PowerOfTwo(if n > 0 then n * 2 else 1)
  {
    if n > 0 {
      var k: nat :| n == Pow2(k);
      assert Pow2(k + 1) == n * 2;
    } else {
      assert Pow2(0) == 1;
    }
  }

  lemma ChainsApart<V>(chains: seq<seq<Node<V>>>, i: nat, j: nat)
    requires Placed(chains) && i < |chains| && j < |chains| && i != j
    ensures forall k :: 0 <= k < |chains[j]| ==> chains[j][k] !in chains[i]
  {
    hide BucketIndex, HashOf;
  }

  lemma NotGathered<V>(chains: seq<seq<Node<V>>>, i: nat, k: nat)
    requires Placed(chains) && i < |chains| && k < |chains[i]|
    ensures chains[i][k] !in Gathered(chains, i + 1)
  {
    hide BucketIndex, HashOf;
    GatheredMembers(chains, i + 1, chains[i][k]);
  }

  /** All nodes of the buckets below b, in iteration order. */
  ghost function Flat<V>(chains: seq<seq<Node<V>>>, b: nat): seq<Node<V>>
    requires b <= |chains|
  {
    if b == 0 then [] else Flat(chains, b - 1) + chains[b - 1]
  }

  lemma {:induction false} FlatSkips<V>(chains: seq<seq<Node<V>>>, b: nat, c: nat)
    requires b <= c <= |chains| && forall j :: b <= j < c ==> chains[j] == []
    ensures Flat(chains, b) == Flat(chains, c)
    ensures c < |chains| ==> Flat(chains, b) == Flat(chains, c) + chains[c][..0]
    decreases c
  {
    if b < c { FlatSkips(chains, b, c - 1); }
  }

  lemma FlatStep<V>(chains: seq<seq<Node<V>>>, b: nat, k: nat)
    requires b < |chains| && k < |chains[b]|
    ensures Flat(chains, b) + chains[b][..k] + [chains[b][k]] == Flat(chains, b) + chains[b][..k + 1]
    ensures k + 1 == |chains[b]| ==> Flat(chains, b) + chains[b][..k + 1] == Flat(chains, b + 1)
  {
    assert k + 1 == |chains[b]| ==> chains[b][..k + 1] == chains[b];
  }

  lemma {:induction false} FlatMembers<V>(chains: seq<seq<Node<V>>>, b: nat, x: Node<V>)
    requires b <= |chains|
    ensures x in Flat(chains, b) <==> exists j, k :: 0 <= j < b && 0 <= k < |chains[j]| && chains[j][k] == x
  {
    if b > 0 { FlatMembers(chains, b - 1, x); }
  }

  lemma SamePlace<V>(chains: seq<seq<Node<V>>>, i: nat, k: nat, j: nat, l: nat)
    requires Placed(chains)
    requires i < |chains| && k < |chains[i]| && j < |chains| && l < |chains[j]| && chains[i][k].key == chains[j][l].key
    ensures i == j && k == l
  {
    hide BucketIndex, HashOf;
  }

  lemma KeysOf<V>(keys: seq<Key>, g: seq<Node<V>>)
    requires DistinctKeys(g) && |keys| == |g| && forall i :: 0 <= i < |g| ==> keys[i] == g[i].key
    ensures forall i, j :: 0 <= i < j < |keys| ==> keys[i] != keys[j]
    ensures forall key :: key in keys <==> KeyIn(g, key)
  {
  }

  lemma FlatKeys<V>(chains: seq<seq<Node<V>>>)
    requires Placed(chains)
    ensures DistinctKeys(Flat(chains, |chains|))
  {
    FlatKeysBelow(chains, |chains|);
  }

  lemma {:induction false} FlatKeysBelow<V>(chains: seq<seq<Node<V>>>, b: nat)
    requires Placed(chains) && b <= |chains|
    ensures DistinctKeys(Flat(chains, b))
  {
    hide BucketIndex, HashOf;
    if b > 0 {
      var f, c := Flat(chains, b - 1), chains[b - 1];
      FlatKeysBelow(chains, b - 1);
      forall i, l | 0 <= i < |f| && 0 <= l < |c| ensures f[i].key != c[l].key {
        assert f[i] in f;
        FlatMembers(chains, b - 1, f[i]);
        var j, k :| 0 <= j < b - 1 && 0 <= k < |chains[j]| && chains[j][k] == f[i];
        KeysApart(chains, j, k, b - 1, l);
      }
    }
  }

  ghost predicate HasKey<V>(chains: seq<seq<Node<V>>>, key: Key) {
    exists i, k :: 0 <= i < |chains| && 0 <= k < |chains[i]| && chains[i][k].key == key
  }
}

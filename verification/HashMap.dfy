/** The chained hash table of map.c: a power-of-two array of buckets, each a linked chain. */
module HashMap {
  import opened Collections
  import opened Bits
  import opened HashChains

  /** A call on the table; `grown` says whether a reallocation, should the call need one, succeeds. */
  datatype Op<V> = Get(key: Key) | Set(key: Key, value: V, grown: bool) | Remove(key: Key)

  function Find<V>(m: map<Key, V>, key: Key): Option<V> {
    if key in m then Some(m[key]) else None
  }

  /** What a sequence of calls makes of a finite map. */
  function Replay<V>(m: map<Key, V>, ops: seq<Op<V>>, oks: seq<bool>): map<Key, V>
    requires |oks| == |ops|
  {
    if ops == [] then m
    else
      var last := |ops| - 1;
      var before := Replay(m, ops[..last], oks[..last]);
      match ops[last]
      case Get(_) => before
      case Set(key, value, _) => if oks[last] then before[key := value] else before
      case Remove(key) => before - {key}
  }

  lemma ReplayStep<V>(m: map<Key, V>, ops: seq<Op<V>>, oks: seq<bool>, ok: bool, n: nat)
    requires n < |ops| && |oks| == n
    ensures var before := Replay(m, ops[..n], oks);
            Replay(m, ops[..n + 1], oks + [ok])
            == match ops[n]
               case Get(_) => before
               case Set(key, value, _) => if ok then before[key := value] else before
               case Remove(key) => before - {key}
    ensures (oks + [ok])[..n] == oks && forall i :: 0 <= i <= n ==> (oks + [ok])[..i] == oks[..i]
  {
    assert ops[..n + 1][..n] == ops[..n] && (oks + [ok])[..n] == oks;
  }

  /** The iterator's fields, passed in and out; -1 stands for the unsigned value that `++` wraps to 0. */
  datatype Iterator<V> = Iterator(bucketidx: int, node: Node?<V>)

  class Table<V> {
    var buckets: array<Node?<V>>
    var nnodes: nat
    /** The nodes each bucket links, the nodes that exist, and the finite map they represent. */
    ghost var chains: seq<seq<Node<V>>>
    ghost var nodes: set<Node<V>>
    ghost var contents: map<Key, V>

    ghost predicate Linked()
      reads this`buckets, this`chains, this`nodes, buckets, nodes`next
    {
      && |chains| == buckets.Length
      && (forall i, k :: 0 <= i < |chains| && 0 <= k < |chains[i]| ==> chains[i][k] in nodes)
      && (forall i :: 0 <= i < |chains| ==> Segment(buckets[i], chains[i]))
    }

    /** The chains hold exactly the bindings of a map. */
    ghost predicate Holds(cs: seq<seq<Node<V>>>, m: map<Key, V>)
      reads this`nodes, nodes`value
    {
      && (forall i, k :: 0 <= i < |cs| && 0 <= k < |cs[i]| ==>
            cs[i][k] in nodes && cs[i][k].key in m && m[cs[i][k].key] == cs[i][k].value)
      && (forall key :: key in m ==> HasKey(cs, key))
    }

    ghost predicate Represents(cs: seq<seq<Node<V>>>)
      reads this`nodes, this`contents, nodes`value
    {
      Holds(cs, contents)
    }

    ghost predicate Valid()
      reads this, buckets, nodes
    {
      && Linked() && Placed(chains) && Represents(chains)
      && (buckets.Length == 0 || PowerOfTwo(buckets.Length))
      && nnodes == |contents| <= buckets.Length
    }

    constructor ()
      ensures Valid() && contents == map[] && fresh(buckets) && fresh(nodes)
    {
      buckets := new Node?<V>[0];
      nnodes := 0;
      chains, nodes, contents := [], {}, map[];
    }

    /** edgex_map_getref: the node holding a key, and the node before it in its chain. */
    method GetRef(key: Key) returns (node: Node?<V>, prev: Node?<V>, ghost k: nat)
      requires Valid()
      ensures node == null <==> key !in contents
      ensures node != null ==> node.key == key
      ensures node != null ==> Found(key, k, node, prev)
    {
      hide BucketIndex, HashOf, PowerOfTwo;
      var hash := Hash(key);
      k := 0;
      node, prev := null, null;
      if buckets.Length > 0 {
        BucketIsRemainder(hash, buckets.Length);
        var i := BucketIndex(hash, buckets.Length);
        assert Segment(buckets[i], chains[i]);
        node, prev, k := FindInChain(buckets[i], chains[i], hash, key);
        if node == null {
          OtherBuckets(chains, key);
        }
      }
    }

    /** edgex_map_get_. */
    method Get(key: Key) returns (r: Option<V>)
      requires Valid()
      ensures r == if key in contents then Some(contents[key]) else None
    {
      var node, prev, k := GetRef(key);
      r := if node == null then None else Some(node.value);
    }

    /** Overwriting the value of a node found. */
    method Overwrite(node: Node<V>, value: V, ghost k: nat, ghost prev: Node?<V>)
      requires Valid() && Found(node.key, k, node, prev)
      modifies this`contents, node`value
      ensures Valid() && contents == old(contents)[node.key := value]
    {
      hide BucketIndex, HashOf, PowerOfTwo, Segment, Placed, HasKey;
      ghost var i := BucketIndex(HashOf(node.key), buckets.Length);
      assert node == chains[i][k];
      node.value := value;
      contents := contents[node.key := value];
      assert contents.Keys == old(contents).Keys;
      forall j, l | 0 <= j < |chains| && 0 <= l < |chains[j]|
        ensures chains[j][l].key in contents && contents[chains[j][l].key] == chains[j][l].value
      {
        if (j, l) != (i, k) {
          KeysApart(chains, j, l, i, k);
        }
      }
    }

    /** edgex_map_addnode: push a node that no chain holds on its bucket. */
    method AddNode(node: Node<V>)
      requires Linked() && node in nodes && buckets.Length > 0 && PowerOfTwo(buckets.Length)
      requires !InChains(chains, node)
      modifies this`chains, buckets, node`next
      ensures Linked()
      ensures 0 <= BucketIndex(node.hash, |old(chains)|) < |old(chains)| && chains == Pushed(old(chains), node)
    {
      BucketIsRemainder(node.hash, buckets.Length);
      hide BucketIndex, PowerOfTwo;
      var n := BucketIndex(node.hash, buckets.Length);
      assert Segment(buckets[n], chains[n]) && node !in chains[n];
      PushFront(node, buckets[n], chains[n]);
      ghost var before := chains;
      buckets[n] := node;
      chains := chains[n := [node] + chains[n]];
      forall i | 0 <= i < |chains| && i != n ensures Segment(buckets[i], chains[i]) {
        assert old(Segment(buckets[i], before[i])) && node !in before[i];
      }
    }

    /** The unchaining loop of edgex_map_resize: all nodes end up in one list. */
    method Gather() returns (list: Node?<V>, ghost g: seq<Node<V>>)
      requires Linked() && Placed(chains)
      modifies nodes`next
      ensures g == Gathered(chains, 0) && Segment(list, g)
    {
      hide BucketIndex, HashOf;
      list, g := null, [];
      var i := buckets.Length;
      while i > 0
        invariant 0 <= i <= buckets.Length == |chains|
        invariant g == Gathered(chains, i) && Segment(list, g)
        invariant forall j :: 0 <= j < i ==> Segment(buckets[j], chains[j])
      {
        i := i - 1;
        forall k | 0 <= k < |chains[i]| ensures chains[i][k] !in g {
          NotGathered(chains, i, k);
        }
        label before:
        list := ReverseOnto(buckets[i], chains[i], list, g);
        forall j | 0 <= j < i ensures Segment(buckets[j], chains[j]) {
          assert old@before(Segment(buckets[j], chains[j]));
          ChainsApart(chains, i, j);
        }
        g := Reversed(chains[i]) + g;
      }
    }

    /** The re-adding loop of edgex_map_resize, from empty buckets. */
    method Scatter(list: Node?<V>, ghost g: seq<Node<V>>)
      requires Linked() && buckets.Length > 0 && PowerOfTwo(buckets.Length)
      requires chains == Scattered([], buckets.Length)
      requires Segment(list, g) && DistinctKeys(g) && forall a :: 0 <= a < |g| ==> g[a] in nodes
      modifies this`chains, buckets, nodes`next
      ensures Linked() && chains == Scattered(g, buckets.Length)
    {
      hide Scattered, BucketIndex, PowerOfTwo, Segment, Linked, DistinctKeys;
      SegmentLinks(list, g);
      var node := list;
      ghost var a := 0;
      assert g[..0] == [];
      while node != null
        invariant 0 <= a <= |g| && node == Item(g, a)
        invariant forall b :: a <= b < |g| ==> g[b].next == Item(g, b + 1)
        invariant Linked() && chains == Scattered(g[..a], buckets.Length)
        decreases |g| - a
      {
        var next := node.next;
        ScatteredStep(g, a, buckets.Length);
        NodesApart(g, a);
        AddNode(node);
        node := next;
        a := a + 1;
      }
      assert g[..a] == g;
    }

    /** edgex_map_resize: rehash into n buckets or, when `realloc` fails, into the old ones. */
    method Resize(n: nat, grown: bool) returns (err: int)
      requires Valid() && n > 0 && PowerOfTwo(n) && nnodes <= n
      modifies this`buckets, this`chains, buckets, nodes`next
      ensures Valid()
      ensures err == if grown then 0 else -1
      ensures if grown then buckets.Length == n && fresh(buckets) else buckets == old(buckets)
    {
      hide BucketIndex, HashOf, PowerOfTwo, Segment, Gathered, Scattered, Placed, HasKey, Pow2;
      ghost var before := chains;
      var list, g := Gather();
      if grown {
        buckets := new Node?<V>[n](_ => null);
      } else {
        forall i | 0 <= i < buckets.Length {
          buckets[i] := null;
        }
      }
      chains := seq(buckets.Length, _ => []);
      EmptyLinked();
      if buckets.Length > 0 {
        Rebuild(list, before);
      } else {
        assert before == chains;
      }
      err := if grown then 0 else -1;
    }

    method Rebuild(list: Node?<V>, ghost before: seq<seq<Node<V>>>)
      requires Linked() && buckets.Length > 0 && PowerOfTwo(buckets.Length) && chains == seq(buckets.Length, _ => [])
      requires Placed(before) && Represents(before) && Segment(list, Gathered(before, 0))
      modifies this`chains, buckets, nodes`next
      ensures Linked() && Placed(chains) && Represents(chains)
    {
      hide BucketIndex, HashOf, PowerOfTwo, Segment, Gathered, Scattered, Placed;
      Rehashed(before, buckets.Length);
      ghost var g := Gathered(before, 0);
      forall a | 0 <= a < |g| ensures g[a] in nodes { GatheredAt(before, a); }
      ScatteredNothing<V>(buckets.Length);
      Scatter(list, g);
      SameKeys(before, chains);
      forall i, k | 0 <= i < |chains| && 0 <= k < |chains[i]| ensures InChains(before, chains[i][k]) {
        assert InChains(chains, chains[i][k]);
      }
    }

    lemma EmptyLinked()
      requires |chains| == buckets.Length && forall i :: 0 <= i < |chains| ==> chains[i] == [] && buckets[i] == null
      ensures Linked()
    {
    }

    /** Insert a node for a key the table lacks, once there is a bucket for it. */
    method Insert(key: Key, value: V)
      requires Valid() && key !in contents && nnodes < buckets.Length
      modifies this`chains, this`nodes, this`contents, this`nnodes, buckets
      ensures Valid() && contents == old(contents)[key := value] && fresh(nodes - old(nodes))
    {
      hide BucketIndex, HashOf, PowerOfTwo, Segment, HasKey, Placed;
      var node := new Node(key, value);
      Attach(node);
    }

    method Attach(node: Node<V>)
      requires Valid() && node !in nodes && node.hash == HashOf(node.key)
      requires node.key !in contents && nnodes < buckets.Length
      modifies this`chains, this`nodes, this`contents, this`nnodes, buckets, node`next
      ensures Valid() && contents == old(contents)[node.key := node.value] && nodes == old(nodes) + {node}
    {
      hide BucketIndex, HashOf, PowerOfTwo, Segment, HasKey, Placed, InChains, Pushed;
      NotHeld(node.key);
      NotLinked(node);
      ghost var before, was := chains, contents;
      nodes := nodes + {node};
      contents := contents[node.key := node.value];
      nnodes := nnodes + 1;
      AddNode(node);
      PushedPlaced(before, node);
      PushedRepresents(before, node, was);
    }

    lemma NotLinked(node: Node<V>)
      requires Linked() && node !in nodes
      ensures !InChains(chains, node)
    {
      hide Segment;
    }

    lemma NotHeld(key: Key)
      requires Valid() && key !in contents
      ensures !HasKey(chains, key)
    {
      hide BucketIndex, HashOf, PowerOfTwo, Segment;
    }

    lemma PushedRepresents(before: seq<seq<Node<V>>>, node: Node<V>, was: map<Key, V>)
      requires before != [] && 0 <= BucketIndex(node.hash, |before|) < |before| && node in nodes
      requires contents == was[node.key := node.value] && !HasKey(before, node.key)
      requires forall i, k :: 0 <= i < |before| && 0 <= k < |before[i]| ==>
                 before[i][k] in nodes && before[i][k].key in was && was[before[i][k].key] == before[i][k].value
      requires forall key :: key in was ==> HasKey(before, key)
      ensures Represents(Pushed(before, node))
    {
      hide BucketIndex, HashOf;
      var n := BucketIndex(node.hash, |before|);
      var after := Pushed(before, node);
      assert after[n][0] == node;
      assert forall k :: 1 <= k < |after[n]| ==> after[n][k] == before[n][k - 1];
      forall key | key in contents && key != node.key ensures HasKey(after, key) {
        var i, k :| 0 <= i < |before| && 0 <= k < |before[i]| && before[i][k].key == key;
        assert after[i][if i == n then k + 1 else k].key == key;
      }
    }

    /** edgex_map_set_: a failed reallocation is the only way a set can fail, and then the
        contents are unchanged. */
    method Set(key: Key, value: V, grown: bool) returns (err: int)
      requires Valid()
      modifies this, buckets, nodes
      ensures Valid() && fresh(nodes - old(nodes)) && (buckets == old(buckets) || fresh(buckets))
      ensures err == if key !in old(contents) && old(nnodes) >= old(buckets.Length) && !grown then -1 else 0
      ensures contents == if err == 0 then old(contents)[key := value] else old(contents)
      ensures buckets.Length ==
              if key in old(contents) || old(nnodes) < old(buckets.Length) || err != 0 then old(buckets.Length)
              else if old(buckets.Length) == 0 then 1 else 2 * old(buckets.Length)
    {
      hide BucketIndex, HashOf, PowerOfTwo, Segment, Placed, HasKey;
      var node, prev, k := GetRef(key);
      if node != null {
        Overwrite(node, value, k, prev);
        return 0;
      }
      if nnodes >= buckets.Length {
        var n := if buckets.Length > 0 then buckets.Length * 2 else 1;
        DoubledIsPower(buckets.Length);
        err := Resize(n, grown);
        if err != 0 {
          return -1;
        }
      }
      Insert(key, value);
      return 0;
    }

    /** `*next = (*next)->next`: the bucket slot or the previous node now skips the node found. */
    method Unlink(i: nat, node: Node<V>, prev: Node?<V>, ghost k: nat)
      requires Linked() && Placed(chains) && i < |chains| && k < |chains[i]| && chains[i][k] == node
      requires prev == if k > 0 then chains[i][k - 1] else null
      modifies this`chains, buckets, nodes`next
      ensures Linked() && chains == old(chains)[i := Without(old(chains)[i], k)]
    {
      hide BucketIndex, HashOf, Without, Segment, Placed, DistinctKeys;
      PlacedDistinct(chains, i);
      var head := UnlinkInChain(buckets[i], chains[i], node, prev, k);
      forall j | 0 <= j < |chains| && j != i ensures Segment(buckets[j], chains[j]) {
        assert old(Segment(buckets[j], chains[j]));
        ChainsApart(chains, i, j);
      }
      buckets[i] := head;
      WithoutMembers(chains[i], k);
      chains := chains[i := Without(chains[i], k)];
    }

    /** edgex_map_remove_. */
    method Remove(key: Key)
      requires Valid()
      modifies this`chains, this`contents, this`nnodes, buckets, nodes`next
      ensures Valid() && contents == old(contents) - {key}
      ensures key in old(contents) ==> exists i, k ::
                0 <= i < |old(chains)| && 0 <= k < |old(chains)[i]| && old(chains)[i][k].key == key
                && chains == old(chains)[i := Without(old(chains)[i], k)]
    {
      hide BucketIndex, HashOf, PowerOfTwo, Segment, Without, HasKey, Holds, Placed;
      var node, prev, k := GetRef(key);
      if node == null {
        assert contents - {key} == contents;
        return;
      }
      FoundHash(key, k, node, prev);
      var i := BucketIndex(node.hash, buckets.Length);
      ghost var before := chains;
      Unlink(i, node, prev, k);
      contents := contents - {key};
      nnodes := nnodes - 1;
      WithoutPlaced(before, i, k);
      WithoutRepresents(before, i, k, old(contents));
    }

    lemma FoundHash(key: Key, k: nat, node: Node<V>, prev: Node?<V>)
      requires Valid() && Found(key, k, node, prev)
      ensures node.hash == HashOf(node.key)
    {
      hide BucketIndex, HashOf, PowerOfTwo, Segment, Holds;
    }

    lemma WithoutRepresents(before: seq<seq<Node<V>>>, i: nat, k: nat, was: map<Key, V>)
      requires Placed(before) && i < |before| && k < |before[i]| && contents == was - {before[i][k].key}
      requires Holds(before, was)
      ensures Represents(before[i := Without(before[i], k)])
    {
      hide BucketIndex, HashOf;
      WithoutMembers(before[i], k);
      var after: seq<seq<Node<V>>> := before[i := Without(before[i], k)];
      forall j, l | 0 <= j < |after| && 0 <= l < |after[j]|
        ensures after[j][l].key in contents && after[j][l] in nodes
      {
        KeysApart(before, j, if j == i && l >= k then l + 1 else l, i, k);
      }
      forall key | key in contents ensures HasKey(after, key) {
        var j, l :| 0 <= j < |before| && 0 <= l < |before[j]| && before[j][l].key == key;
        assert after[j][if j == i && l > k then l - 1 else l].key == key;
      }
    }

    /** The bucket table refines a finite map over any sequence of operations: every get answers from
        the map that the sets and removes before it make, and only a set of a new key whose
        reallocation fails is without effect. */
    method Run(ops: seq<Op<V>>) returns (answers: seq<Option<V>>, oks: seq<bool>)
      requires Valid()
      modifies this, buckets, nodes
      ensures Valid() && |answers| == |oks| == |ops|
      ensures contents == Replay(old(contents), ops, oks)
      ensures forall i :: 0 <= i < |ops| && ops[i].Get? ==>
                answers[i] == Find(Replay(old(contents), ops[..i], oks[..i]), ops[i].key)
      ensures forall i :: 0 <= i < |ops| && !oks[i] ==>
                ops[i].Set? && !ops[i].grown && ops[i].key !in Replay(old(contents), ops[..i], oks[..i])
    {
      hide Valid;
      answers, oks := [], [];
      var n := 0;
      while n < |ops|
        invariant 0 <= n <= |ops| && |answers| == |oks| == n
        invariant Valid() && fresh(nodes - old(nodes)) && (buckets == old(buckets) || fresh(buckets))
        invariant contents == Replay(old(contents), ops[..n], oks)
        invariant forall i :: 0 <= i < n && ops[i].Get? ==>
                    answers[i] == Find(Replay(old(contents), ops[..i], oks[..i]), ops[i].key)
        invariant forall i :: 0 <= i < n && !oks[i] ==>
                    ops[i].Set? && !ops[i].grown && ops[i].key !in Replay(old(contents), ops[..i], oks[..i])
      {
        var answer, ok := None, true;
        match ops[n] {
          case Get(key) => answer := Get(key);
          case Set(key, value, grown) =>
            var err := Set(key, value, grown);
            ok := err == 0;
          case Remove(key) => Remove(key);
        }
        ReplayStep(old(contents), ops, oks, ok, n);
        answers, oks := answers + [answer], oks + [ok];
        n := n + 1;
      }
      assert ops[..n] == ops;
    }

    /** The iterator stands on the k-th node of bucket b. */
    ghost predicate On(iter: Iterator<V>, b: nat, k: nat)
      reads this`chains
    {
      b < |chains| && k < |chains[b]| && iter == Iterator(b, chains[b][k])
    }

    /** The iterator has left bucket b and stands on the first node of the next non-empty one. */
    ghost predicate OnBucketAfter(iter: Iterator<V>, b: int, key: Option<Key>)
      reads this`chains
    {
      && b < iter.bucketidx && 0 <= iter.bucketidx
      && (forall j :: b < j < iter.bucketidx && 0 <= j < |chains| ==> chains[j] == [])
      && if iter.bucketidx < |chains| then
           On(iter, iter.bucketidx, 0) && key == Some(chains[iter.bucketidx][0].key)
         else iter.node == null && key == None
    }

    /** The bucket loop of edgex_map_next_. */
    method NextBucket(bucketidx: int) returns (iter: Iterator<V>, key: Option<Key>)
      requires Valid() && bucketidx >= -1
      ensures OnBucketAfter(iter, bucketidx, key)
    {
      hide BucketIndex, HashOf, PowerOfTwo, Placed, HasKey;
      var b, node := bucketidx + 1, null;
      while b < buckets.Length
        invariant bucketidx < b
        invariant forall j :: bucketidx < j < b && 0 <= j < |chains| ==> chains[j] == []
      {
        assert Segment(buckets[b], chains[b]);
        node := buckets[b];
        if node != null {
          return Iterator(b, node), Some(node.key);
        }
        b := b + 1;
      }
      return Iterator(b, null), None;
    }

    /** edgex_map_next_: the node after the one visited, or the next bucket's first. */
    method Next(iter: Iterator<V>, ghost k: nat) returns (iter': Iterator<V>, key: Option<Key>)
      requires Valid() && iter.bucketidx >= -1
      requires iter.node != null ==> 0 <= iter.bucketidx && On(iter, iter.bucketidx, k)
      ensures var b := iter.bucketidx;
              if iter.node != null && k + 1 < |chains[b]| then
                On(iter', b, k + 1) && key == Some(chains[b][k + 1].key)
              else OnBucketAfter(iter', b, key)
    {
      hide BucketIndex, HashOf, PowerOfTwo, Placed, HasKey;
      if iter.node != null {
        assert Segment(buckets[iter.bucketidx], chains[iter.bucketidx]);
        iter' := iter.(node := iter.node.next);
        if iter'.node != null {
          return iter', Some(iter'.node.key);
        }
      }
      iter', key := NextBucket(iter.bucketidx);
    }

    lemma FlatCovers()
      requires Valid()
      ensures forall key :: key in contents <==> KeyIn(Flat(chains, |chains|), key)
    {
      hide BucketIndex, HashOf, PowerOfTwo, Placed, Segment;
      var f := Flat(chains, |chains|);
      forall key | key in contents ensures KeyIn(f, key) {
        var j, k :| 0 <= j < |chains| && 0 <= k < |chains[j]| && chains[j][k].key == key;
        FlatMembers(chains, |chains|, chains[j][k]);
      }
      forall i | 0 <= i < |f| ensures f[i].key in contents {
        assert f[i] in f;
        FlatMembers(chains, |chains|, f[i]);
      }
    }

    /** The nodes visited so far are all those before the iterator, in order. */
    ghost predicate Visited(iter: Iterator<V>, key: Option<Key>, k: nat, visited: seq<Node<V>>)
      reads this`chains
    {
      if key.None? then visited == Flat(chains, |chains|)
      else
        && 0 <= iter.bucketidx && On(iter, iter.bucketidx, k)
        && key.value == chains[iter.bucketidx][k].key
        && visited == Flat(chains, iter.bucketidx) + chains[iter.bucketidx][..k]
    }

    ghost function Remaining(iter: Iterator<V>, key: Option<Key>, k: nat): (int, int)
      reads this`chains
    {
      if key.None? || !(0 <= iter.bucketidx < |chains|) then (0, 0)
      else (|chains| - iter.bucketidx, |chains[iter.bucketidx]| - k)
    }

    method Start() returns (iter: Iterator<V>, key: Option<Key>)
      requires Valid()
      ensures Visited(iter, key, 0, [])
    {
      hide Segment, Placed, HasKey, PowerOfTwo;
      iter, key := Next(Iterator(-1, null), 0);
      FlatSkips(chains, 0, if key.Some? then iter.bucketidx else |chains|);
    }

    method Advance(iter: Iterator<V>, key: Option<Key>, ghost k: nat, ghost visited: seq<Node<V>>)
      returns (iter': Iterator<V>, key': Option<Key>, ghost k': nat, ghost visited': seq<Node<V>>)
      requires Valid() && key.Some? && Visited(iter, key, k, visited)
      ensures Visited(iter', key', k', visited')
      ensures visited' == visited + [chains[iter.bucketidx][k]]
      ensures key'.Some? ==>
                iter.bucketidx < iter'.bucketidx || (iter.bucketidx == iter'.bucketidx && k < k')
    {
      hide Segment, Placed, HasKey, PowerOfTwo, Flat;
      ghost var b := iter.bucketidx;
      visited' := visited + [chains[b][k]];
      iter', key' := Next(iter, k);
      FlatStep(chains, b, k);
      if k + 1 < |chains[b]| {
        k' := k + 1;
      } else {
        k' := 0;
        FlatSkips(chains, b + 1, if key'.Some? then iter'.bucketidx else |chains|);
      }
    }

    /** A full iteration, as the callers of edgex_map_next_ loop over it: every key, once. */
    method Keys() returns (keys: seq<Key>)
      requires Valid()
      ensures forall i, j :: 0 <= i < j < |keys| ==> keys[i] != keys[j]
      ensures forall key :: key in keys <==> key in contents
    {
      hide BucketIndex, HashOf, PowerOfTwo, Segment, Placed, HasKey, Flat, DistinctKeys, KeyIn;
      keys := [];
      ghost var k, visited := 0, [];
      var iter, key := Start();
      while key.Some?
        invariant Visited(iter, key, k, visited)
        invariant |keys| == |visited| && forall i :: 0 <= i < |keys| ==> keys[i] == visited[i].key
        decreases Remaining(iter, key, k).0, Remaining(iter, key, k).1
      {
        keys := keys + [key.value];
        iter, key, k, visited := Advance(iter, key, k, visited);
      }
      FlatKeys(chains);
      FlatCovers();
      KeysOf(keys, visited);
    }

    /** The iterator stands at the very first node left, or there is none. */
    ghost predicate AtFront(iter: Iterator<V>, key: Option<Key>)
      reads this`chains
    {
      if key.None? then forall j :: 0 <= j < |chains| ==> chains[j] == []
      else
        && 0 <= iter.bucketidx && On(iter, iter.bucketidx, 0)
        && key.value == chains[iter.bucketidx][0].key
        && forall j :: 0 <= j < iter.bucketidx ==> chains[j] == []
    }

    /** Advance, then remove the node just left behind: the iterator is at the front again. */
    method AdvanceAndRemove(iter: Iterator<V>, key: Key) returns (iter': Iterator<V>, key': Option<Key>)
      requires Valid() && AtFront(iter, Some(key))
      modifies this`chains, this`contents, this`nnodes, buckets, nodes`next
      ensures Valid() && contents == old(contents) - {key} && AtFront(iter', key')
    {
      hide BucketIndex, HashOf, PowerOfTwo, Segment, Placed, HasKey, Without, Valid;
      ghost var b := iter.bucketidx;
      ghost var before: seq<seq<Node<V>>> := chains;
      iter', key' := Next(iter, 0);
      FrontHeld(b);
      ChainsPlaced();
      Remove(key);
      ghost var i, k :| 0 <= i < |before| && 0 <= k < |before[i]| && before[i][k].key == key
                        && chains == before[i := Without(before[i], k)];
      SamePlace(before, b, 0, i, k);
      WithoutMembers(before[b], 0);
    }

    lemma ChainsPlaced()
      requires Valid()
      ensures Placed(chains)
    {
    }

    lemma FrontHeld(b: nat)
      requires Valid() && b < |chains| && |chains[b]| > 0
      ensures chains[b][0].key in contents
    {
      hide BucketIndex, HashOf, PowerOfTwo, Segment, Placed, HasKey;
    }

    lemma NothingLeft()
      requires Valid() && forall j :: 0 <= j < |chains| ==> chains[j] == []
      ensures contents == map[]
    {
      hide BucketIndex, HashOf, PowerOfTwo, Segment, Placed;
    }

    /** The loop of edgex_devmap_clear: visit, release, step on, remove behind. Every value is
        released exactly once and the table ends empty. */
    method Clear() returns (released: seq<V>, ghost names: seq<Key>)
      requires Valid()
      modifies this`chains, this`contents, this`nnodes, buckets, nodes`next
      ensures Valid() && contents == map[]
      ensures |released| == |names| && forall i, j :: 0 <= i < j < |names| ==> names[i] != names[j]
      ensures forall name :: name in names <==> name in old(contents)
      ensures forall i :: 0 <= i < |names| ==> released[i] == old(contents)[names[i]]
    {
      hide Valid, BucketIndex, HashOf, PowerOfTwo, Segment, Placed, HasKey;
      released, names := [], [];
      var iter, key := NextBucket(-1);
      while key.Some?
        invariant Valid() && AtFront(iter, key)
        invariant |released| == |names| && forall i, j :: 0 <= i < j < |names| ==> names[i] != names[j]
        invariant forall name :: name in old(contents) <==> name in names || name in contents
        invariant forall i :: 0 <= i < |names| ==> names[i] !in contents
        invariant forall i :: 0 <= i < |names| ==> names[i] in old(contents) && released[i] == old(contents)[names[i]]
        invariant forall name :: name in contents ==> name in old(contents) && contents[name] == old(contents)[name]
        decreases |contents|
      {
        FrontHeld(iter.bucketidx);
        var e := Get(key.value);
        released := released + [e.value];
        names := names + [key.value];
        iter, key := AdvanceAndRemove(iter, key.value);
      }
      NothingLeft();
    }

    ghost predicate Found(key: Key, k: nat, node: Node<V>, prev: Node?<V>)
      reads this, buckets
    {
      && buckets.Length == |chains| > 0
      && var i := BucketIndex(HashOf(key), buckets.Length);
      && 0 <= i < |chains| && k < |chains[i]|
      && chains[i][k] == node
      && prev == if k > 0 then chains[i][k - 1] else null
    }
  }
}

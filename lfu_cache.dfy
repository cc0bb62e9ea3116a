/** The LFU cache of custom/LRUCacheDemo.java (class LFUCache). The key -> node
    HashMap becomes a map to CacheNode values (key, value, frequency); each
    sentinel-bounded DoublyLinkedList of the frequency -> list HashMap becomes
    the sequence of keys it links, head (most recently touched) first. */
module LfuCache {
  import opened SeqUtil

  datatype CacheNode = CacheNode(key: int, value: int, frequency: int)

  /** `removeNode`: unlink the node from the list of its frequency. */
  function Unlink(buckets: map<int, seq<int>>, node: CacheNode): (r: map<int, seq<int>>)
    requires node.frequency in buckets
    ensures r.Keys == buckets.Keys
    ensures forall f :: f in buckets && f != node.frequency ==> r[f] == buckets[f]
    ensures forall k :: k in r[node.frequency] <==> k in buckets[node.frequency] && k != node.key
    ensures Distinct(buckets[node.frequency]) ==> Distinct(r[node.frequency])
  {
    buckets[node.frequency := Without(buckets[node.frequency], node.key)]
  }

  /** `addNodeToFrequencyList`: link the node right after the head sentinel of
      the list of its frequency, creating that list if it is absent. */
  function LinkAtHead(buckets: map<int, seq<int>>, node: CacheNode): (r: map<int, seq<int>>)
    ensures r.Keys == buckets.Keys + {node.frequency}
    ensures |r[node.frequency]| >= 1 && r[node.frequency][0] == node.key
    ensures r[node.frequency][1..] == if node.frequency in buckets then buckets[node.frequency] else []
    ensures forall f :: f in buckets && f != node.frequency ==> r[f] == buckets[f]
  {
    buckets[node.frequency := [node.key] + if node.frequency in buckets then buckets[node.frequency] else []]
  }

  /** Delete the list of frequency f if it links no node any more. */
  function DropIfEmpty(buckets: map<int, seq<int>>, f: int): map<int, seq<int>>
  {
    if f in buckets && buckets[f] == [] then buckets - {f} else buckets
  }

  /** Every mapped node is keyed by its own key, has been used at least once
      and sits in the list of its frequency. */
  ghost predicate NodesPlaced(nodes: map<int, CacheNode>, buckets: map<int, seq<int>>)
  {
    forall k :: k in nodes ==>
      && nodes[k].key == k && nodes[k].frequency >= 1
      && nodes[k].frequency in buckets && k in buckets[nodes[k].frequency]
  }

  /** Every list is non-empty and links each key at most once. */
  ghost predicate ListsWellFormed(buckets: map<int, seq<int>>)
  {
    forall f :: f in buckets ==> buckets[f] != [] && Distinct(buckets[f])
  }

  /** Every list links only mapped keys whose frequency is that of the list. */
  ghost predicate ListsMembers(nodes: map<int, CacheNode>, buckets: map<int, seq<int>>)
  {
    forall f, i :: f in buckets && 0 <= i < |buckets[f]| ==>
      buckets[f][i] in nodes && nodes[buckets[f][i]].frequency == f
  }

  ghost predicate BucketsMatch(nodes: map<int, CacheNode>, buckets: map<int, seq<int>>)
  {
    NodesPlaced(nodes, buckets) && ListsWellFormed(buckets) && ListsMembers(nodes, buckets)
  }

  /** `minFrequency` is the smallest frequency with a list whenever the cache is not empty. */
  ghost predicate MinTracked(nodes: map<int, CacheNode>, buckets: map<int, seq<int>>, minFrequency: int)
  {
    nodes != map[] ==> minFrequency in buckets && forall f :: f in buckets ==> minFrequency <= f
  }

  ghost predicate Consistent(nodes: map<int, CacheNode>, buckets: map<int, seq<int>>, minFrequency: int, capacity: int)
  {
    && BucketsMatch(nodes, buckets)
    && MinTracked(nodes, buckets, minFrequency)
    && (capacity >= 0 ==> |nodes| <= capacity)
  }

  /** The lists after `updateFrequency` moved `key` from frequency f to f + 1. */
  function Promoted(buckets: map<int, seq<int>>, node: CacheNode): map<int, seq<int>>
    requires node.frequency in buckets
  {
    LinkAtHead(DropIfEmpty(Unlink(buckets, node), node.frequency), node.(frequency := node.frequency + 1))
  }

  /** `minFrequency` after `updateFrequency` moved a node off frequency f. */
  function PromotedMin(buckets: map<int, seq<int>>, node: CacheNode, minFrequency: int): int
    requires node.frequency in buckets
  {
    var f := node.frequency;
    if Unlink(buckets, node)[f] == [] && minFrequency == f then minFrequency + 1 else minFrequency
  }

  /** The least-frequently used node, least recently touched among ties: the
      tail of the list of frequency `minFrequency`. */
  function Victim(buckets: map<int, seq<int>>, minFrequency: int): int
    requires minFrequency in buckets && buckets[minFrequency] != []
  {
    var list := buckets[minFrequency];
    list[|list| - 1]
  }

  /** A mapped key is linked in no list other than the one of its frequency. */
  lemma OnlyInOwnList(nodes: map<int, CacheNode>, buckets: map<int, seq<int>>, key: int, g: int)
    requires ListsMembers(nodes, buckets) && key in nodes && g in buckets && g != nodes[key].frequency
    ensures key !in buckets[g]
  {
    forall i | 0 <= i < |buckets[g]|
      ensures buckets[g][i] != key
    {
      assert nodes[buckets[g][i]].frequency == g;
    }
  }

  lemma PromotePlaced(nodes: map<int, CacheNode>, buckets: map<int, seq<int>>, key: int, value: int)
    requires BucketsMatch(nodes, buckets) && key in nodes
    ensures var node := nodes[key];
            NodesPlaced(nodes[key := CacheNode(key, value, node.frequency + 1)], Promoted(buckets, node))
  {
    var node := nodes[key];
    var f := node.frequency;
    var nodes' := nodes[key := CacheNode(key, value, f + 1)];
    var b1 := Unlink(buckets, node);
    var b3 := Promoted(buckets, node);
    forall k | k in nodes'
      ensures nodes'[k].key == k && nodes'[k].frequency >= 1
      ensures nodes'[k].frequency in b3 && k in b3[nodes'[k].frequency]
    {
      if k != key {
        var g := nodes[k].frequency;
        if g == f {
          var i :| 0 <= i < |buckets[f]| && buckets[f][i] == k;
          assert k in b1[f];
        }
      }
    }
  }

  lemma PromoteWellFormed(nodes: map<int, CacheNode>, buckets: map<int, seq<int>>, key: int)
    requires BucketsMatch(nodes, buckets) && key in nodes
    ensures ListsWellFormed(Promoted(buckets, nodes[key]))
  {
    var node := nodes[key];
    var f := node.frequency;
    var b2 := DropIfEmpty(Unlink(buckets, node), f);
    if f + 1 in buckets {
      OnlyInOwnList(nodes, buckets, key, f + 1);
      assert b2[f + 1] == buckets[f + 1];
    }
  }

  lemma PromoteMembers(nodes: map<int, CacheNode>, buckets: map<int, seq<int>>, key: int, value: int)
    requires BucketsMatch(nodes, buckets) && key in nodes
    ensures var node := nodes[key];
            ListsMembers(nodes[key := CacheNode(key, value, node.frequency + 1)], Promoted(buckets, node))
  {
    var node := nodes[key];
    var f := node.frequency;
    var nodes' := nodes[key := CacheNode(key, value, f + 1)];
    var b1 := Unlink(buckets, node);
    var b2 := DropIfEmpty(b1, f);
    var b3 := Promoted(buckets, node);
    assert key !in b1[f];
    forall g, i | g in b3 && 0 <= i < |b3[g]|
      ensures b3[g][i] in nodes' && nodes'[b3[g][i]].frequency == g
    {
      if g == f + 1 {
        if i > 0 {
          OnlyInOwnList(nodes, buckets, key, f + 1);
          assert b3[g][i] == buckets[g][i - 1];
        }
      } else if g == f {
        assert b3[g][i] in buckets[f];
      }
    }
  }

  lemma PromoteMinTracked(nodes: map<int, CacheNode>, buckets: map<int, seq<int>>, minFrequency: int, key: int)
    requires BucketsMatch(nodes, buckets) && MinTracked(nodes, buckets, minFrequency) && key in nodes
    ensures var node := nodes[key];
            var b3 := Promoted(buckets, node);
            PromotedMin(buckets, node, minFrequency) in b3
            && forall g :: g in b3 ==> PromotedMin(buckets, node, minFrequency) <= g
  {
  }

  /** The victim has the lowest frequency in the whole cache. */
  lemma VictimIsLeastFrequent(nodes: map<int, CacheNode>, buckets: map<int, seq<int>>, minFrequency: int)
    requires BucketsMatch(nodes, buckets) && MinTracked(nodes, buckets, minFrequency) && nodes != map[]
    ensures minFrequency in buckets && buckets[minFrequency] != []
    ensures Victim(buckets, minFrequency) in nodes
    ensures forall k :: k in nodes ==> nodes[Victim(buckets, minFrequency)].frequency <= nodes[k].frequency
  {
    var list := buckets[minFrequency];
    assert list[|list| - 1] in nodes;
    forall k | k in nodes
      ensures minFrequency <= nodes[k].frequency
    {
      assert nodes[k].frequency in buckets;
    }
  }

  /** Promotion keeps the state consistent, whatever new value the node gets. */
  lemma PromoteKeepsConsistent(nodes: map<int, CacheNode>, buckets: map<int, seq<int>>, minFrequency: int,
                               capacity: int, key: int, value: int,
                               nodes': map<int, CacheNode>, buckets': map<int, seq<int>>, minFrequency': int)
    requires Consistent(nodes, buckets, minFrequency, capacity) && key in nodes
    requires nodes' == nodes[key := CacheNode(key, value, nodes[key].frequency + 1)]
    requires buckets' == Promoted(buckets, nodes[key])
    requires minFrequency' == PromotedMin(buckets, nodes[key], minFrequency)
    ensures Consistent(nodes', buckets', minFrequency', capacity)
  {
    PromotePlaced(nodes, buckets, key, value);
    PromoteWellFormed(nodes, buckets, key);
    PromoteMembers(nodes, buckets, key, value);
    PromoteMinTracked(nodes, buckets, minFrequency, key);
    assert nodes'.Keys == nodes.Keys;
  }

  /** Evicting the victim from a non-empty cache removes it from the map and
      from its list and deletes that list if it empties; the lists stay
      consistent with one entry fewer. */
  lemma EvictKeepsLists(nodes: map<int, CacheNode>, buckets: map<int, seq<int>>, minFrequency: int)
    requires BucketsMatch(nodes, buckets) && MinTracked(nodes, buckets, minFrequency) && nodes != map[]
    ensures minFrequency in buckets && buckets[minFrequency] != []
    ensures var victim := Victim(buckets, minFrequency);
            && victim in nodes && nodes[victim].frequency == minFrequency
            && BucketsMatch(nodes - {victim}, DropIfEmpty(Unlink(buckets, nodes[victim]), minFrequency))
            && |nodes - {victim}| == |nodes| - 1
  {
    var list := buckets[minFrequency];
    var last := |list| - 1;
    var victim := list[last];
    var nodes' := nodes - {victim};
    var b2 := DropIfEmpty(Unlink(buckets, nodes[victim]), minFrequency);
    WithoutAt(list, last);
    EvictPlaced(nodes, buckets, minFrequency);
    forall g, i | g in b2 && 0 <= i < |b2[g]|
      ensures b2[g][i] in nodes' && nodes'[b2[g][i]].frequency == g
    {
      if g == minFrequency {
        assert b2[g][i] == list[i];
      }
    }
    assert nodes'.Keys == nodes.Keys - {victim};
  }

  lemma EvictPlaced(nodes: map<int, CacheNode>, buckets: map<int, seq<int>>, minFrequency: int)
    requires BucketsMatch(nodes, buckets) && minFrequency in buckets
    ensures var list := buckets[minFrequency];
            var victim := list[|list| - 1];
            NodesPlaced(nodes - {victim}, DropIfEmpty(Unlink(buckets, nodes[victim]), minFrequency))
  {
    var list := buckets[minFrequency];
    var last := |list| - 1;
    var victim := list[last];
    var nodes' := nodes - {victim};
    var b2 := DropIfEmpty(Unlink(buckets, nodes[victim]), minFrequency);
    WithoutAt(list, last);
    forall k | k in nodes'
      ensures nodes'[k].frequency in b2 && k in b2[nodes'[k].frequency]
    {
      if nodes[k].frequency == minFrequency {
        var i :| 0 <= i < |list| && list[i] == k;
        assert list[..last][i] == k;
      }
    }
  }

  /** Inserting a fresh key with frequency 1 at the head of list 1 keeps the
      lists consistent, with `minFrequency` 1. */
  lemma InsertKeepsConsistent(nodes: map<int, CacheNode>, buckets: map<int, seq<int>>, capacity: int,
                              key: int, value: int, nodes': map<int, CacheNode>, buckets': map<int, seq<int>>)
    requires BucketsMatch(nodes, buckets) && key !in nodes
    requires capacity >= 0 ==> |nodes| < capacity
    requires nodes' == nodes[key := CacheNode(key, value, 1)]
    requires buckets' == LinkAtHead(buckets, CacheNode(key, value, 1))
    ensures Consistent(nodes', buckets', 1, capacity)
  {
    InsertPlaced(nodes, buckets, key, value, nodes', buckets');
    InsertLists(nodes, buckets, key, value, nodes', buckets');
    forall g | g in buckets'
      ensures 1 <= g
    {
      if g != 1 {
        assert g in buckets && buckets[g] != [];
        var k := buckets[g][0];
        assert k in nodes && nodes[k].frequency == g;
      }
    }
    assert nodes'.Keys == nodes.Keys + {key};
  }

  lemma InsertPlaced(nodes: map<int, CacheNode>, buckets: map<int, seq<int>>,
                     key: int, value: int, nodes': map<int, CacheNode>, buckets': map<int, seq<int>>)
    requires BucketsMatch(nodes, buckets) && key !in nodes
    requires nodes' == nodes[key := CacheNode(key, value, 1)]
    requires buckets' == LinkAtHead(buckets, CacheNode(key, value, 1))
    ensures NodesPlaced(nodes', buckets')
  {
    forall k | k in nodes'
      ensures nodes'[k].frequency in buckets' && k in buckets'[nodes'[k].frequency]
    {
      if k != key && nodes[k].frequency == 1 {
        assert k in buckets[1];
      }
    }
  }

  lemma InsertLists(nodes: map<int, CacheNode>, buckets: map<int, seq<int>>,
                    key: int, value: int, nodes': map<int, CacheNode>, buckets': map<int, seq<int>>)
    requires BucketsMatch(nodes, buckets) && key !in nodes
    requires nodes' == nodes[key := CacheNode(key, value, 1)]
    requires buckets' == LinkAtHead(buckets, CacheNode(key, value, 1))
    ensures ListsWellFormed(buckets') && ListsMembers(nodes', buckets')
  {
    if 1 in buckets {
      forall i | 0 <= i < |buckets[1]|
        ensures buckets[1][i] != key
      {
        assert buckets[1][i] in nodes;
      }
    }
    forall g, i | g in buckets' && 0 <= i < |buckets'[g]|
      ensures buckets'[g][i] in nodes' && nodes'[buckets'[g][i]].frequency == g
    {
      if g == 1 && i > 0 {
        assert buckets'[g][i] == buckets[1][i - 1];
      }
    }
  }

  class LFUCache {
    var keyToNodeMap: map<int, CacheNode>
    var frequencyToListMap: map<int, seq<int>>
    const capacity: int
    var minFrequency: int

    ghost predicate Valid()
      reads this
    {
      Consistent(keyToNodeMap, frequencyToListMap, minFrequency, capacity)
    }

    constructor (capacity: int)
      ensures Valid() && this.capacity == capacity
      ensures keyToNodeMap == map[] && frequencyToListMap == map[] && minFrequency == 0
    {
      this.capacity := capacity;
      keyToNodeMap := map[];
      frequencyToListMap := map[];
      minFrequency := 0;
    }

    method Get(key: int) returns (r: int)
      requires Valid()
      modifies this
      ensures Valid()
      ensures key !in old(keyToNodeMap) ==>
                && r == -1
                && keyToNodeMap == old(keyToNodeMap)
                && frequencyToListMap == old(frequencyToListMap)
                && minFrequency == old(minFrequency)
      ensures key in old(keyToNodeMap) ==>
                var node := old(keyToNodeMap)[key];
                && r == node.value
                && keyToNodeMap == old(keyToNodeMap)[key := node.(frequency := node.frequency + 1)]
                && frequencyToListMap == Promoted(old(frequencyToListMap), node)
                && frequencyToListMap[node.frequency + 1][0] == key
                && minFrequency == PromotedMin(old(frequencyToListMap), node, old(minFrequency))
    {
      if key !in keyToNodeMap {
        return -1;
      }
      ghost var nodes, buckets, minF := keyToNodeMap, frequencyToListMap, minFrequency;
      var node := keyToNodeMap[key];
      UpdateFrequency(key);
      r := node.value;
      PromoteKeepsConsistent(nodes, buckets, minF, capacity, key, node.value,
                             keyToNodeMap, frequencyToListMap, minFrequency);
    }

    method Put(key: int, value: int)
      requires Valid()
      modifies this
      ensures Valid()
      ensures capacity == 0 ==> keyToNodeMap == old(keyToNodeMap) && frequencyToListMap == old(frequencyToListMap)
                                && minFrequency == old(minFrequency)
      ensures capacity != 0 && key in old(keyToNodeMap) ==>
                var node := old(keyToNodeMap)[key];
                && keyToNodeMap == old(keyToNodeMap)[key := CacheNode(key, value, node.frequency + 1)]
                && |keyToNodeMap| == |old(keyToNodeMap)|
                && frequencyToListMap == Promoted(old(frequencyToListMap), node)
                && minFrequency == PromotedMin(old(frequencyToListMap), node, old(minFrequency))
      ensures capacity != 0 && key !in old(keyToNodeMap) && |old(keyToNodeMap)| != capacity ==>
                && keyToNodeMap == old(keyToNodeMap)[key := CacheNode(key, value, 1)]
                && frequencyToListMap == LinkAtHead(old(frequencyToListMap), CacheNode(key, value, 1))
                && minFrequency == 1
      ensures capacity != 0 && key !in old(keyToNodeMap) && |old(keyToNodeMap)| == capacity ==>
                && old(minFrequency) in old(frequencyToListMap) && old(frequencyToListMap)[old(minFrequency)] != []
                && var victim := Victim(old(frequencyToListMap), old(minFrequency));
                   && victim in old(keyToNodeMap)
                   && keyToNodeMap == (old(keyToNodeMap) - {victim})[key := CacheNode(key, value, 1)]
                   && frequencyToListMap ==
                        LinkAtHead(DropIfEmpty(Unlink(old(frequencyToListMap), old(keyToNodeMap)[victim]), old(minFrequency)),
                                   CacheNode(key, value, 1))
                   && minFrequency == 1
    {
      if capacity == 0 {
        return;
      }
      if key in keyToNodeMap {
        ghost var nodes, buckets, minF := keyToNodeMap, frequencyToListMap, minFrequency;
        var node := keyToNodeMap[key];
        keyToNodeMap := keyToNodeMap[key := node.(value := value)];
        UpdateFrequency(key);
        PromoteKeepsConsistent(nodes, buckets, minF, capacity, key, value,
                               keyToNodeMap, frequencyToListMap, minFrequency);
      } else {
        if |keyToNodeMap| == capacity {
          EvictKeepsLists(keyToNodeMap, frequencyToListMap, minFrequency);
          ghost var evicted := DropIfEmpty(Unlink(frequencyToListMap, keyToNodeMap[Victim(frequencyToListMap, minFrequency)]), minFrequency);
          var nodeToRemove := keyToNodeMap[Victim(frequencyToListMap, minFrequency)];
          keyToNodeMap := keyToNodeMap - {nodeToRemove.key};
          RemoveNode(nodeToRemove);
          if frequencyToListMap[minFrequency] == [] {
            frequencyToListMap := frequencyToListMap - {minFrequency};
          }
          assert frequencyToListMap == evicted;
        }
        ghost var nodes, buckets := keyToNodeMap, frequencyToListMap;
        var newNode := CacheNode(key, value, 1);
        minFrequency := 1;
        keyToNodeMap := keyToNodeMap[key := newNode];
        AddNodeToFrequencyList(newNode);
        InsertKeepsConsistent(nodes, buckets, capacity, key, value, keyToNodeMap, frequencyToListMap);
      }
    }

    /** `updateFrequency`: move the node of `key` from the list of its
        frequency f to the head of the list of f + 1; the emptied list is
        deleted and, if it was the minimum, `minFrequency` becomes f + 1. */
    method UpdateFrequency(key: int)
      requires key in keyToNodeMap && keyToNodeMap[key].key == key
      requires keyToNodeMap[key].frequency in frequencyToListMap
      modifies this
      ensures var node := old(keyToNodeMap)[key];
              && keyToNodeMap == old(keyToNodeMap)[key := node.(frequency := node.frequency + 1)]
              && frequencyToListMap == Promoted(old(frequencyToListMap), node)
              && minFrequency == PromotedMin(old(frequencyToListMap), node, old(minFrequency))
    {
      var node := keyToNodeMap[key];
      var currentFreq := node.frequency;
      RemoveNode(node);
      node := node.(frequency := node.frequency + 1);
      keyToNodeMap := keyToNodeMap[key := node];
      if frequencyToListMap[currentFreq] == [] {
        frequencyToListMap := frequencyToListMap - {currentFreq};
        if minFrequency == currentFreq {
          minFrequency := minFrequency + 1;
        }
      }
      AddNodeToFrequencyList(node);
    }

    /** `removeNode`: rewire the neighbours of the node around it. */
    method RemoveNode(node: CacheNode)
      requires node.frequency in frequencyToListMap
      modifies this
      ensures frequencyToListMap == Unlink(old(frequencyToListMap), node)
      ensures keyToNodeMap == old(keyToNodeMap) && minFrequency == old(minFrequency)
    {
      frequencyToListMap := Unlink(frequencyToListMap, node);
    }

    /** `addNodeToFrequencyList`: link the node after the head sentinel of the
        list of its frequency, creating the list first if needed. */
    method AddNodeToFrequencyList(node: CacheNode)
      modifies this
      ensures frequencyToListMap == LinkAtHead(old(frequencyToListMap), node)
      ensures keyToNodeMap == old(keyToNodeMap) && minFrequency == old(minFrequency)
    {
      frequencyToListMap := LinkAtHead(frequencyToListMap, node);
    }
  }
}

/**
 * `LinkedList` and `LRUCache`: a doubly linked recency list whose nodes the
 * methods relink in place, and the cache that keeps a dictionary from keys to
 * those nodes. A list is described by the ghost sequence `nodes` (its nodes
 * from head to tail); a cache by the `LruSpec.Lru` value it stands for, and
 * each cache method is proved to compute the `LruSpec` operation with
 * promotion as the class does it (`Decrements`).
 */
module Lru {
  import opened Common
  import opened LruSpec

  /** A list node. The list never stores into `value` after construction. */
  class Node<T> {
    const value: T
    var next: Node?<T>
    var prev: Node?<T>

    constructor (value: T)
      ensures this.value == value && next == null && prev == null
    {
      this.value := value;
      next := null;
      prev := null;
    }
  }

  /** The first position of `x` in `s`. */
  ghost function PositionOf<T>(s: seq<T>, x: T): (i: nat)
    requires x in s
    ensures i < |s| && s[i] == x
  {
    if s[0] == x then 0 else 1 + PositionOf(s[1..], x)
  }

  lemma RemoveAtDistinct<T>(s: seq<T>, k: nat)
    requires k < |s| && Distinct(s)
    ensures Distinct(RemoveAt(s, k))
    ensures forall i :: 0 <= i < |RemoveAt(s, k)| ==> RemoveAt(s, k)[i] == s[if i < k then i else i + 1]
    ensures forall x :: x in RemoveAt(s, k) <==> x in s && x != s[k]
  {
    var m := RemoveAt(s, k);
    assert forall i :: 0 <= i < |m| ==> m[i] == s[if i < k then i else i + 1];
    forall x | x in s && x != s[k]
      ensures x in m
    {
      var j := PositionOf(s, x);
      assert m[if j < k then j else j - 1] == x;
    }
  }

  lemma PrependDistinct<T>(x: T, s: seq<T>)
    requires Distinct(s) && x !in s
    ensures Distinct([x] + s)
  {
    var m := [x] + s;
    forall a, b | 0 <= a < b < |m|
      ensures m[a] != m[b]
    {
      assert m[b] == s[b - 1];
    }
  }

  lemma MoveToFrontMembers<T>(s: seq<T>, k: nat)
    requires k < |s|
    ensures forall x :: x in LruSpec.MoveToFront(s, k) <==> x in s
  {
    MoveToFrontAt(s, k);
    var m := LruSpec.MoveToFront(s, k);
    forall x | x in s
      ensures x in m
    {
      var j := PositionOf(s, x);
      assert m[if j == k then 0 else if j < k then j + 1 else j] == x;
    }
  }

  /** Consecutive nodes of `s` point at each other through `next` and `prev`. */
  ghost predicate Linked<T>(s: seq<Node<T>>)
    reads s
  {
    && (forall i {:trigger s[i].next} :: 0 <= i < |s| - 1 ==> s[i].next == s[i + 1])
    && (forall i {:trigger s[i].prev} :: 0 < i < |s| ==> s[i].prev == s[i - 1])
  }

  /**
   * Unlinking `before[k]` by pointing its neighbours at each other, while
   * every other node keeps its links, leaves the remaining nodes linked.
   */
  lemma UnlinkKeepsLinks<T>(before: seq<Node<T>>, k: nat)
    requires k < |before| && Distinct(before)
    requires forall j {:trigger before[j].next} :: 0 <= j < |before| - 1 && j + 1 != k && j != k ==> before[j].next == before[j + 1]
    requires forall j {:trigger before[j].prev} :: 0 < j < |before| && j != k && j != k + 1 ==> before[j].prev == before[j - 1]
    requires 0 < k < |before| - 1 ==> before[k - 1].next == before[k + 1] && before[k + 1].prev == before[k - 1]
    ensures Linked(RemoveAt(before, k))
  {
    var after := RemoveAt(before, k);
    assert |after| == |before| - 1;
    forall i | 0 <= i < |after| - 1
      ensures after[i].next == after[i + 1]
    {
      if i + 1 == k {
        assert after[i] == before[k - 1] && after[i + 1] == before[k + 1];
      } else if i + 1 < k {
        assert after[i] == before[i] && after[i + 1] == before[i + 1];
      } else {
        assert after[i] == before[i + 1] && after[i + 1] == before[i + 2];
      }
    }
    forall i | 0 < i < |after|
      ensures after[i].prev == after[i - 1]
    {
      if i == k {
        assert after[i - 1] == before[k - 1] && after[i] == before[k + 1];
      } else if i < k {
        assert after[i - 1] == before[i - 1] && after[i] == before[i];
      } else {
        assert after[i - 1] == before[i] && after[i] == before[i + 1];
      }
    }
  }

  class LinkedList<T> {
    var count: int
    var head: Node?<T>
    var tail: Node?<T>
    ghost var nodes: seq<Node<T>>

    /** `nodes` are distinct and linked both ways from `head` to `tail`. */
    ghost predicate Valid()
      reads this, nodes
    {
      && Distinct(nodes)
      && (nodes == [] ==> head == null && tail == null)
      && (nodes != [] ==>
            && head == nodes[0] && tail == nodes[|nodes| - 1]
            && nodes[0].prev == null && nodes[|nodes| - 1].next == null)
      && (forall i {:trigger nodes[i].next} :: 0 <= i < |nodes| - 1 ==> nodes[i].next == nodes[i + 1])
      && (forall i {:trigger nodes[i].prev} :: 0 < i < |nodes| ==> nodes[i].prev == nodes[i - 1])
    }

    constructor ()
      ensures Valid() && nodes == [] && count == 0
    {
      count := 0;
      head := null;
      tail := null;
      nodes := [];
    }

    /** `pushFront`: a fresh node holding `value` becomes the head; `count` goes up by one. */
    method PushFront(value: T) returns (node: Node<T>)
      requires Valid()
      modifies this, nodes
      ensures Valid() && fresh(node) && node.value == value
      ensures nodes == [node] + old(nodes)
      ensures count == old(count) + 1
    {
      node := new Node(value);
      if head == null {
        head := node;
        tail := node;
      } else {
        head.prev := node;
        node.next := head;
        head := node;
      }
      nodes := [node] + nodes;
      count := count + 1;
    }

    /**
     * `remove`: unlinks `node`, repairs `head` and `tail`, clears the node's
     * links and lowers `count` by one.
     */
    method Remove(node: Node<T>, ghost k: nat)
      requires Valid() && k < |nodes| && nodes[k] == node
      modifies this, nodes
      ensures Valid()
      ensures nodes == RemoveAt(old(nodes), k)
      ensures count == old(count) - 1
      ensures node.prev == null && node.next == null
    {
      ghost var before := nodes;
      Unlink(node, k);
      nodes := nodes[..k] + nodes[k + 1..];
      count := count - 1;
      RemoveAtDistinct(before, k);
      UnlinkKeepsLinks(before, k);
    }

    /**
     * The pointer work of `remove`: the neighbours of `node` point at each
     * other, `head` and `tail` skip it and its own links are cleared; every
     * other node keeps its links.
     */
    method Unlink(node: Node<T>, ghost k: nat)
      requires Valid() && k < |nodes| && nodes[k] == node
      modifies this, nodes
      ensures nodes == old(nodes) && count == old(count) && Distinct(nodes)
      ensures node.prev == null && node.next == null
      ensures head == (if k == 0 then (if |nodes| > 1 then nodes[1] else null) else nodes[0])
      ensures tail == (if k == |nodes| - 1 then (if k > 0 then nodes[k - 1] else null) else nodes[|nodes| - 1])
      ensures k > 0 ==> nodes[0].prev == null
      ensures k < |nodes| - 1 ==> nodes[|nodes| - 1].next == null
      ensures k == 0 && |nodes| > 1 ==> nodes[1].prev == null
      ensures k == |nodes| - 1 && k > 0 ==> nodes[k - 1].next == null
      ensures forall j {:trigger nodes[j].next} :: 0 <= j < |nodes| - 1 && j + 1 != k && j != k ==> nodes[j].next == nodes[j + 1]
      ensures forall j {:trigger nodes[j].prev} :: 0 < j < |nodes| && j != k && j != k + 1 ==> nodes[j].prev == nodes[j - 1]
      ensures 0 < k < |nodes| - 1 ==> nodes[k - 1].next == nodes[k + 1] && nodes[k + 1].prev == nodes[k - 1]
    {
      assert node.prev == (if k > 0 then nodes[k - 1] else null);
      assert node.next == (if k + 1 < |nodes| then nodes[k + 1] else null);
      if node.prev != null {
        node.prev.next := node.next;
      }
      if node.next != null {
        node.next.prev := node.prev;
      }
      if node == head {
        head := node.next;
      }
      if node == tail {
        tail := node.prev;
      }
      node.prev := null;
      node.next := null;
      forall j | 0 <= j < |nodes| - 1 && j + 1 != k && j != k
        ensures nodes[j].next == nodes[j + 1]
      {
        assert old(nodes[j].next) == nodes[j + 1];
        assert nodes[j] != node && (k == 0 || nodes[j] != nodes[k - 1]);
      }
      forall j | 0 < j < |nodes| && j != k && j != k + 1
        ensures nodes[j].prev == nodes[j - 1]
      {
        assert old(nodes[j].prev) == nodes[j - 1];
        assert nodes[j] != node && (k + 1 == |nodes| || nodes[j] != nodes[k + 1]);
      }
    }

    /**
     * `moveToFront`: nothing for the head; any other node is removed, which
     * lowers `count`, and relinked as the head, which does not raise it again.
     */
    method MoveToFront(node: Node<T>, ghost k: nat)
      requires Valid() && k < |nodes| && nodes[k] == node
      modifies this, nodes
      ensures Valid()
      ensures nodes == LruSpec.MoveToFront(old(nodes), k) && head == node
      ensures count == if k == 0 then old(count) else old(count) - 1
    {
      if node == head {
        return;
      }
      ghost var before := nodes;
      Remove(node, k);
      ghost var rest := nodes;
      node.next := head;
      node.prev := null;
      if head != null {
        head.prev := node;
      }
      head := node;
      tail := if tail == null then node else tail;
      nodes := [node] + nodes;
      assert nodes == LruSpec.MoveToFront(before, k);
      PrependDistinct(node, rest);
      forall i | 0 <= i < |nodes| - 1
        ensures nodes[i].next == nodes[i + 1]
      {
        if i > 0 {
          assert nodes[i] == rest[i - 1] && nodes[i + 1] == rest[i];
        }
      }
      forall i | 0 < i < |nodes|
        ensures nodes[i].prev == nodes[i - 1]
      {
        if i > 1 {
          assert nodes[i - 1] == rest[i - 2] && nodes[i] == rest[i - 1];
        }
      }
    }

    /** `removeLast`: removes the tail and returns its value; the source stops the program on an empty list. */
    method RemoveLast() returns (value: T)
      requires Valid() && nodes != []
      modifies this, nodes
      ensures Valid()
      ensures nodes == old(nodes[..|nodes| - 1]) && value == old(nodes[|nodes| - 1]).value
      ensures count == old(count) - 1
    {
      var node := tail;
      assert PositionOf(nodes, node) == |nodes| - 1 by {
        assert Distinct(nodes);
      }
      Remove(node, |nodes| - 1);
      value := node.value;
    }
  }

  /**
   * `CacheItem`: the key never changes once the item is made; `setValue`
   * stores a new value into the item of an existing node.
   */
  class CacheItem<K, V> {
    const key: K
    var value: V

    constructor (key: K, value: V)
      ensures this.key == key && this.value == value
    {
      this.key := key;
      this.value := value;
    }
  }

  /**
   * The entries the nodes' items hold, position by position. Only this part of
   * the cache's invariant reads the heap.
   */
  ghost predicate Holds<K, V>(items: seq<Item<K, V>>, ns: seq<Node<CacheItem<K, V>>>)
    reads set n | n in ns :: n.value
  {
    |items| == |ns| && forall i {:trigger items[i]} :: 0 <= i < |ns| ==> ns[i].value.value == items[i].value
  }

  /**
   * The rest of the cache's invariant, on values: the entries carry the keys
   * of the nodes' items, the dictionary maps each such key to its node, and
   * every dictionary entry is a node of the list under its own key.
   */
  ghost predicate Tracks<K, V>(items: seq<Item<K, V>>, ns: seq<Node<CacheItem<K, V>>>, d: map<K, Node<CacheItem<K, V>>>)
  {
    && |items| == |ns|
    && (forall i {:trigger items[i]} :: 0 <= i < |ns| ==>
          ns[i].value.key == items[i].key && items[i].key in d && d[items[i].key] == ns[i])
    && (forall key :: key in d ==> d[key] in ns && d[key].value.key == key)
  }

  /** Distinct nodes under a dictionary that tracks them carry distinct keys. */
  lemma TracksKeysUnique<K, V>(items: seq<Item<K, V>>, ns: seq<Node<CacheItem<K, V>>>, d: map<K, Node<CacheItem<K, V>>>)
    requires Tracks(items, ns, d) && Distinct(ns)
    ensures KeysUnique(items)
  {
    forall i, j | 0 <= i < j < |items|
      ensures items[i].key != items[j].key
    {
      assert d[items[i].key] == ns[i] && d[items[j].key] == ns[j];
    }
  }

  /** The dictionary finds a key exactly where `IndexOf` finds it among the entries. */
  lemma TracksIndex<K, V>(items: seq<Item<K, V>>, ns: seq<Node<CacheItem<K, V>>>, d: map<K, Node<CacheItem<K, V>>>, key: K)
    returns (k: nat)
    requires Tracks(items, ns, d) && Distinct(ns)
    ensures key !in d <==> IndexOf(items, key) == None
    ensures key in d ==> IndexOf(items, key) == Some(k) && k < |ns| && ns[k] == d[key]
  {
    k := 0;
    if key in d {
      k := PositionOf(ns, d[key]);
      assert items[k].key == key;
      var i := IndexOf(items, key).value;
      assert ns[i] == d[key];
    }
  }

  lemma HoldsMoveToFront<K, V>(items: seq<Item<K, V>>, ns: seq<Node<CacheItem<K, V>>>, k: nat)
    requires Holds(items, ns) && k < |ns|
    ensures Holds(LruSpec.MoveToFront(items, k), LruSpec.MoveToFront(ns, k))
  {
    MoveToFrontAt(items, k);
    MoveToFrontAt(ns, k);
  }

  lemma TracksMoveToFront<K, V>(items: seq<Item<K, V>>, ns: seq<Node<CacheItem<K, V>>>, d: map<K, Node<CacheItem<K, V>>>, k: nat)
    requires Tracks(items, ns, d) && k < |ns|
    ensures Tracks(LruSpec.MoveToFront(items, k), LruSpec.MoveToFront(ns, k), d)
  {
    MoveToFrontAt(items, k);
    MoveToFrontAt(ns, k);
    MoveToFrontMembers(ns, k);
  }

  lemma HoldsRemoveAt<K, V>(items: seq<Item<K, V>>, ns: seq<Node<CacheItem<K, V>>>, k: nat)
    requires Holds(items, ns) && k < |ns|
    ensures Holds(RemoveAt(items, k), RemoveAt(ns, k))
  {
    var m, r := RemoveAt(ns, k), RemoveAt(items, k);
    forall i | 0 <= i < |m|
      ensures m[i].value.value == r[i].value
    {
      var j := if i < k then i else i + 1;
      assert m[i] == ns[j] && r[i] == items[j];
    }
  }

  lemma TracksRemoveAt<K, V>(items: seq<Item<K, V>>, ns: seq<Node<CacheItem<K, V>>>, d: map<K, Node<CacheItem<K, V>>>, k: nat)
    requires Tracks(items, ns, d) && Distinct(ns) && k < |ns|
    ensures Tracks(RemoveAt(items, k), RemoveAt(ns, k), d - {items[k].key})
  {
    var m, r := RemoveAt(ns, k), RemoveAt(items, k);
    RemoveAtDistinct(ns, k);
    assert d[items[k].key] == ns[k];
    forall i | 0 <= i < |m|
      ensures m[i].value.key == r[i].key && r[i].key in d - {items[k].key} && d[r[i].key] == m[i]
    {
      var j := if i < k then i else i + 1;
      assert m[i] == ns[j] && r[i] == items[j];
      assert d[items[j].key] == ns[j];
    }
  }

  lemma HoldsPush<K, V>(items: seq<Item<K, V>>, ns: seq<Node<CacheItem<K, V>>>, n: Node<CacheItem<K, V>>, v: V)
    requires Holds(items, ns) && n.value.value == v
    ensures Holds([Item(n.value.key, v)] + items, [n] + ns)
  {
    var m, r := [n] + ns, [Item(n.value.key, v)] + items;
    forall i | 0 <= i < |m|
      ensures m[i].value.value == r[i].value
    {
      if i > 0 {
        assert m[i] == ns[i - 1] && r[i] == items[i - 1];
      }
    }
  }

  lemma TracksPush<K, V>(items: seq<Item<K, V>>, ns: seq<Node<CacheItem<K, V>>>, d: map<K, Node<CacheItem<K, V>>>,
                         n: Node<CacheItem<K, V>>, v: V)
    requires Tracks(items, ns, d) && n.value.key !in d
    ensures Tracks([Item(n.value.key, v)] + items, [n] + ns, d[n.value.key := n])
  {
    var m, r, key := [n] + ns, [Item(n.value.key, v)] + items, n.value.key;
    forall i | 0 <= i < |m|
      ensures m[i].value.key == r[i].key && r[i].key in d[key := n] && d[key := n][r[i].key] == m[i]
    {
      if i > 0 {
        assert m[i] == ns[i - 1] && r[i] == items[i - 1];
        assert d[items[i - 1].key] == ns[i - 1];
      }
    }
  }

  lemma TracksSetFront<K, V>(items: seq<Item<K, V>>, ns: seq<Node<CacheItem<K, V>>>, d: map<K, Node<CacheItem<K, V>>>, v: V)
    requires Tracks(items, ns, d) && items != []
    ensures Tracks([Item(items[0].key, v)] + items[1..], ns, d)
  {
    var r := [Item(items[0].key, v)] + items[1..];
    forall i | 0 <= i < |r|
      ensures ns[i].value.key == r[i].key && r[i].key in d && d[r[i].key] == ns[i]
    {
      assert r[i].key == items[i].key;
    }
  }

  /** Keys are unique, so no other node shares the head's item. */
  lemma FrontUnshared<K, V>(items: seq<Item<K, V>>, ns: seq<Node<CacheItem<K, V>>>, d: map<K, Node<CacheItem<K, V>>>)
    requires Tracks(items, ns, d) && Distinct(ns) && ns != []
    ensures forall i :: 0 < i < |ns| ==> ns[i].value != ns[0].value
  {
    TracksKeysUnique(items, ns, d);
    forall i | 0 < i < |ns| ensures ns[i].value != ns[0].value {
      assert items[i].key != items[0].key;
    }
  }

  class LRUCache<K(==), V> {
    const capacity: int
    const list: LinkedList<CacheItem<K, V>>
    var dictionary: map<K, Node<CacheItem<K, V>>>
    /** The entries from most to least recently used. */
    ghost var items: seq<Item<K, V>>

    ghost function Items(): set<CacheItem<K, V>>
      reads this, list
    {
      set n | n in list.nodes :: n.value
    }

    ghost predicate Valid()
      reads this, list, list.nodes, Items()
    {
      && list.Valid()
      && list.count <= |list.nodes|
      && Holds(items, list.nodes)
      && Tracks(items, list.nodes, dictionary)
    }

    /** The abstract cache: its entries head first, the list's `count`, and the capacity. */
    ghost function Model(): Lru<K, V>
      reads this, list
    {
      Lru(items, list.count, capacity)
    }

    constructor (maxItems: int)
      ensures Valid() && Model() == Lru([], 0, maxItems)
    {
      capacity := maxItems;
      list := new LinkedList();
      dictionary := map[];
      items := [];
    }

    /** A valid cache has unique keys and a `count` no larger than its number of entries. */
    lemma ValidIsSound()
      requires Valid()
      ensures Sound(Model())
    {
      TracksKeysUnique(items, list.nodes, dictionary);
    }

    /** The dictionary holds exactly the keys of the entries, each mapped to the node holding its value. */
    lemma DictionaryAgrees(key: K)
      requires Valid()
      ensures key in dictionary <==> ValueOf(Model().items, key).Some?
      ensures key in dictionary ==> ValueOf(Model().items, key) == Some(dictionary[key].value.value)
    {
      var k := TracksIndex(items, list.nodes, dictionary, key);
      TracksKeysUnique(items, list.nodes, dictionary);
      UniqueValueOf(items, key);
    }

    /** `list.moveToFront(node)` for the entry at position `k`, keeping `items` in step. */
    method PromoteEntry(node: Node<CacheItem<K, V>>, ghost k: nat)
      requires Valid() && k < |list.nodes| && list.nodes[k] == node
      modifies this, list, list.nodes
      ensures Valid()
      ensures items == LruSpec.MoveToFront(old(items), k) && dictionary == old(dictionary)
      ensures list.head == node
      ensures list.count == if k == 0 then old(list.count) else old(list.count) - 1
    {
      ghost var before, items0 := list.nodes, items;
      list.MoveToFront(node, k);
      items := LruSpec.MoveToFront(items0, k);
      assert Holds(items0, before);
      HoldsMoveToFront(items0, before, k);
      TracksMoveToFront(items0, before, dictionary, k);
    }

    /** `getValue(forKey:)`: a hit promotes the entry and returns its value; a miss changes nothing. */
    method GetValue(key: K) returns (r: Option<V>)
      requires Valid()
      modifies this, list, list.nodes
      ensures Valid()
      ensures Model() == Get(Decrements, old(Model()), key).0
      ensures r == Get(Decrements, old(Model()), key).1
    {
      ghost var k := TracksIndex(items, list.nodes, dictionary, key);
      if key !in dictionary {
        return None;
      }
      var node := dictionary[key];
      PromoteEntry(node, k);
      r := Some(node.value.value);
    }

    /** `existingNode.value.value = value` on the head's item. */
    method SetFrontValue(value: V)
      requires Valid() && items != []
      modifies this, list.head.value
      ensures Valid()
      ensures items == [Item(old(items)[0].key, value)] + old(items)[1..] && dictionary == old(dictionary)
    {
      ghost var ns, items0 := list.nodes, items;
      FrontUnshared(items0, ns, dictionary);
      var item := list.head.value;
      ghost var listOk := list.Valid();
      item.value := value;
      assert listOk == list.Valid();
      items := [Item(items0[0].key, value)] + items0[1..];
      TracksSetFront(items0, ns, dictionary, value);
      forall i | 0 <= i < |ns| ensures ns[i].value.value == items[i].value {
        if i > 0 {
          assert ns[i].value != item;
        }
      }
    }

    /** `list.pushFront` of a fresh item for an absent key, recorded in `dictionary`. */
    method PushEntry(key: K, value: V)
      requires Valid() && key !in dictionary
      modifies this, list, list.nodes
      ensures Valid()
      ensures items == [Item(key, value)] + old(items)
      ensures list.count == old(list.count) + 1
      ensures fresh(list.nodes[0]) && list.nodes[1..] == old(list.nodes)
    {
      ghost var before, items0, d0 := list.nodes, items, dictionary;
      var item := new CacheItem(key, value);
      var node := list.PushFront(item);
      dictionary := dictionary[key := node];
      items := [Item(key, value)] + items0;
      assert Holds(items0, before);
      HoldsPush(items0, before, node, value);
      TracksPush(items0, before, d0, node, value);
    }

    /** `list.remove(node)` for the entry at position `k`, with its key dropped from `dictionary`. */
    method UnlinkEntry(node: Node<CacheItem<K, V>>, ghost k: nat)
      requires Valid() && k < |list.nodes| && list.nodes[k] == node
      modifies this, list, list.nodes
      ensures Valid()
      ensures items == RemoveAt(old(items), k)
      ensures list.count == old(list.count) - 1
    {
      ghost var before, items0, d0 := list.nodes, items, dictionary;
      list.Remove(node, k);
      dictionary := dictionary - {node.value.key};
      items := RemoveAt(items0, k);
      assert Holds(items0, before);
      HoldsRemoveAt(items0, before, k);
      TracksRemoveAt(items0, before, d0, k);
    }

    /** The `if let existingNode` branch of `setValue(_:forKey:)`. */
    method UpdateEntry(value: V, key: K, ghost k: nat)
      requires Valid() && key in dictionary && IndexOf(items, key) == Some(k) && k < |list.nodes| && list.nodes[k] == dictionary[key]
      modifies this, list, list.nodes, Items()
      ensures Valid()
      ensures Model() == Set(Decrements, old(Model()), key, value)
    {
      var existingNode := dictionary[key];
      assert existingNode.value in Items();
      PromoteEntry(existingNode, k);
      SetFrontValue(value);
    }

    /** The `else` branch of `setValue(_:forKey:)`: push, then evict while over capacity. */
    method InsertEntry(value: V, key: K)
      requires Valid() && key !in dictionary && IndexOf(items, key) == None
      modifies this, list, list.nodes
      ensures Valid()
      ensures Model() == Set(Decrements, old(Model()), key, value)
    {
      PushEntry(key, value);
      assert forall n :: n in list.nodes ==> n in old(list.nodes) || fresh(n);
      if list.count > capacity {
        RemoveLast();
      }
    }

    /**
     * `setValue(_:forKey:)`: an existing entry is promoted and its value
     * replaced; otherwise a new entry is pushed at the front and, when the
     * list's `count` then exceeds the capacity, the tail is evicted.
     */
    method SetValue(value: V, key: K)
      requires Valid()
      modifies this, list, list.nodes, Items()
      ensures Valid()
      ensures Model() == Set(Decrements, old(Model()), key, value)
    {
      ghost var k := TracksIndex(items, list.nodes, dictionary, key);
      if key in dictionary {
        UpdateEntry(value, key, k);
      } else {
        InsertEntry(value, key);
      }
    }

    /** `removeValue(forKey:)`: the entry, if any, is unlinked and its key forgotten. */
    method RemoveValue(key: K)
      requires Valid()
      modifies this, list, list.nodes
      ensures Valid()
      ensures Model() == Remove(old(Model()), key)
    {
      ghost var k := TracksIndex(items, list.nodes, dictionary, key);
      if key !in dictionary {
        return;
      }
      var node := dictionary[key];
      UnlinkEntry(node, k);
    }

    /** `removeOldest()`: the tail entry, unlinked, or nothing when the list is empty. */
    method RemoveOldest() returns (r: Option<Item<K, V>>)
      requires Valid()
      modifies this, list, list.nodes
      ensures Valid()
      ensures Model() == LruSpec.RemoveOldest(old(Model())).0
      ensures r == LruSpec.RemoveOldest(old(Model())).1
    {
      if list.tail == null {
        return None;
      }
      var oldestNode := list.tail;
      var oldestItem := oldestNode.value;
      UnlinkEntry(oldestNode, |list.nodes| - 1);
      r := Some(Item(oldestItem.key, oldestItem.value));
    }

    /** `removeLast()`: the tail entry is evicted; an empty list is left alone. */
    method RemoveLast()
      requires Valid()
      modifies this, list, list.nodes
      ensures Valid()
      ensures Model() == if old(items) == [] then old(Model()) else DropLast(old(Model()))
    {
      if list.tail == null {
        return;
      }
      var node := list.tail;
      UnlinkEntry(node, |list.nodes| - 1);
    }
  }
}

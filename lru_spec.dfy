/**
 * The abstract state of `LRUCache`: its entries from most to least recently
 * used (the linked list from head to tail), the list's `count` field and the
 * capacity, with each operation as a function on that state.
 *
 * `LinkedList.moveToFront` unlinks the node with `remove`, whose `count -= 1`
 * is never undone, so every promotion of an entry that is not already the
 * head leaves `count` one lower. `Promotion` selects between that behaviour
 * (`Decrements`, what the class does) and the evidently intended one
 * (`KeepsCount`).
 */
module LruSpec {
  import opened Common

  datatype Item<K, V> = Item(key: K, value: V)

  datatype Lru<K, V> = Lru(items: seq<Item<K, V>>, count: int, capacity: int)

  datatype Promotion = Decrements | KeepsCount

  predicate KeysUnique<K(==), V>(items: seq<Item<K, V>>)
  {
    forall i, j :: 0 <= i < j < |items| ==> items[i].key != items[j].key
  }

  /** The position of the entry for `k`, if there is one. */
  function IndexOf<K(==), V>(items: seq<Item<K, V>>, k: K): (r: Option<nat>)
    ensures r.Some? ==> r.value < |items| && items[r.value].key == k
    ensures r.None? <==> forall i :: 0 <= i < |items| ==> items[i].key != k
    ensures r.Some? ==> forall i :: 0 <= i < r.value ==> items[i].key != k
  {
    if items == [] then None
    else if items[0].key == k then Some(0)
    else match IndexOf(items[1..], k)
      case None => None
      case Some(i) => Some(i + 1)
  }

  /** The value stored for `k`: the dictionary's view of the cache. */
  function ValueOf<K(==), V>(items: seq<Item<K, V>>, k: K): Option<V>
  {
    match IndexOf(items, k)
    case None => None
    case Some(i) => Some(items[i].value)
  }

  /** `s` with its element at `i` moved to the front, the others in order. */
  function MoveToFront<T>(s: seq<T>, i: nat): seq<T>
    requires i < |s|
  {
    if i == 0 then s else [s[i]] + s[..i] + s[i + 1..]
  }

  function RemoveAt<T>(s: seq<T>, i: nat): seq<T>
    requires i < |s|
  {
    s[..i] + s[i + 1..]
  }

  /** `moveToFront`: nothing for the head; otherwise the entry moves to the front. */
  function Promote<K(==), V>(p: Promotion, l: Lru<K, V>, i: nat): (r: Lru<K, V>)
    requires i < |l.items|
    ensures |r.items| == |l.items| && r.items[0] == l.items[i] && r.capacity == l.capacity
    ensures p == KeepsCount || i == 0 <==> r.count == l.count
  {
    if i == 0 then l
    else Lru(MoveToFront(l.items, i), if p == Decrements then l.count - 1 else l.count, l.capacity)
  }

  /** `list.remove(tail)`; the list is not empty. */
  function DropLast<K(==), V>(l: Lru<K, V>): (r: Lru<K, V>)
    requires l.items != []
    ensures r.items + [l.items[|l.items| - 1]] == l.items
    ensures r.count == l.count - 1 && r.capacity == l.capacity
  {
    Lru(l.items[..|l.items| - 1], l.count - 1, l.capacity)
  }

  /** `getValue(forKey:)`: the new state and the value found. */
  function Get<K(==), V>(p: Promotion, l: Lru<K, V>, k: K): (r: (Lru<K, V>, Option<V>))
    ensures r.1.Some? <==> IndexOf(l.items, k).Some?
    ensures |r.0.items| == |l.items| && r.0.capacity == l.capacity
  {
    match IndexOf(l.items, k)
    case None => (l, None)
    case Some(i) => (Promote(p, l, i), Some(l.items[i].value))
  }

  /**
   * `setValue(_:forKey:)`: an existing entry is promoted and its value
   * replaced; a new one is pushed at the front and, when `count` then exceeds
   * the capacity, the tail is evicted.
   */
  function Set<K(==), V>(p: Promotion, l: Lru<K, V>, k: K, v: V): (r: Lru<K, V>)
    ensures r.items == [] || r.items[0] == Item(k, v)
    ensures r.items == [] ==> l.items == [] && l.count + 1 > l.capacity
    ensures r.capacity == l.capacity
  {
    match IndexOf(l.items, k)
    case Some(i) =>
      var q := Promote(p, l, i);
      q.(items := [Item(k, v)] + q.items[1..])
    case None =>
      var pushed := Lru([Item(k, v)] + l.items, l.count + 1, l.capacity);
      if pushed.count > l.capacity then DropLast(pushed) else pushed
  }

  /** `removeValue(forKey:)` */
  function Remove<K(==), V>(l: Lru<K, V>, k: K): (r: Lru<K, V>)
    ensures |r.items| == |l.items| - (if IndexOf(l.items, k).Some? then 1 else 0)
    ensures IndexOf(l.items, k).None? ==> r == l
  {
    match IndexOf(l.items, k)
    case None => l
    case Some(i) => Lru(RemoveAt(l.items, i), l.count - 1, l.capacity)
  }

  /** `removeOldest()`: the tail entry, removed, or nothing when the cache is empty. */
  function RemoveOldest<K(==), V>(l: Lru<K, V>): (r: (Lru<K, V>, Option<Item<K, V>>))
    ensures r.1.None? <==> l.items == []
    ensures r.1.Some? ==> r.0.items + [r.1.value] == l.items && r.0.count == l.count - 1
    ensures r.1.None? ==> r.0 == l
  {
    if l.items == [] then (l, None) else (DropLast(l), Some(l.items[|l.items| - 1]))
  }

  /** What the class keeps true: unique keys, and `count` never above the number of entries. */
  predicate Sound<K(==), V>(l: Lru<K, V>)
  {
    KeysUnique(l.items) && l.count <= |l.items|
  }

  /** What the class would keep true were promotion to keep `count`: exact count, bounded size. */
  predicate Bounded<K(==), V>(l: Lru<K, V>)
  {
    KeysUnique(l.items) && l.count == |l.items| && |l.items| <= Max(l.capacity, 0)
  }

  // ---------------------------------------------------------------------
  // Properties of the operations

  /** Where the element at position `a` of `MoveToFront(s, i)` came from. */
  function FrontSource(i: nat, a: nat): nat
  {
    if a == 0 then i else if a <= i then a - 1 else a
  }

  lemma MoveToFrontAt<T>(s: seq<T>, i: nat)
    requires i < |s|
    ensures |MoveToFront(s, i)| == |s|
    ensures forall a :: 0 <= a < |s| ==> FrontSource(i, a) < |s| && MoveToFront(s, i)[a] == s[FrontSource(i, a)]
  {
  }

  lemma MoveToFrontKeepsKeysUnique<K, V>(s: seq<Item<K, V>>, i: nat)
    requires i < |s| && KeysUnique(s)
    ensures KeysUnique(MoveToFront(s, i))
  {
    MoveToFrontAt(s, i);
    var m := MoveToFront(s, i);
    forall a, b | 0 <= a < b < |m|
      ensures m[a].key != m[b].key
    {
      assert m[a] == s[FrontSource(i, a)] && m[b] == s[FrontSource(i, b)];
    }
  }

  lemma RemoveAtKeepsKeysUnique<K, V>(s: seq<Item<K, V>>, i: nat)
    requires i < |s| && KeysUnique(s)
    ensures KeysUnique(RemoveAt(s, i))
  {
    var m := RemoveAt(s, i);
    forall a, b | 0 <= a < b < |m|
      ensures m[a].key != m[b].key
    {
      var ia := if a < i then a else a + 1;
      var ib := if b < i then b else b + 1;
      assert m[a] == s[ia] && m[b] == s[ib];
    }
  }

  /** Looking a key up in a list of unique keys after an entry was moved to the front. */
  lemma {:induction false} ValueOfMoveToFront<K, V>(s: seq<Item<K, V>>, i: nat, k: K)
    requires i < |s| && KeysUnique(s)
    ensures ValueOf(MoveToFront(s, i), k) == ValueOf(s, k)
  {
    MoveToFrontKeepsKeysUnique(s, i);
    UniqueValueOf(s, k);
    UniqueValueOf(MoveToFront(s, i), k);
    MoveToFrontAt(s, i);
    var m := MoveToFront(s, i);
    match IndexOf(s, k)
    case None =>
      assert forall a :: 0 <= a < |m| ==> m[a].key == s[FrontSource(i, a)].key;
    case Some(j) =>
      var ja := if j == i then 0 else if j < i then j + 1 else j;
      assert FrontSource(i, ja) == j;
  }

  /** In a list of unique keys, the value of `k` is that of any entry with key `k`. */
  lemma UniqueValueOf<K, V>(s: seq<Item<K, V>>, k: K)
    requires KeysUnique(s)
    ensures forall a :: 0 <= a < |s| && s[a].key == k ==> ValueOf(s, k) == Some(s[a].value)
    ensures (forall a :: 0 <= a < |s| ==> s[a].key != k) ==> ValueOf(s, k) == None
  {
  }

  lemma {:induction false} ValueOfRemoveAt<K, V>(s: seq<Item<K, V>>, i: nat, k: K)
    requires i < |s| && KeysUnique(s)
    ensures ValueOf(RemoveAt(s, i), k) == if k == s[i].key then None else ValueOf(s, k)
  {
    RemoveAtKeepsKeysUnique(s, i);
    var m := RemoveAt(s, i);
    assert forall a :: 0 <= a < |m| ==> m[a] == s[if a < i then a else a + 1];
    UniqueValueOf(s, k);
    UniqueValueOf(m, k);
    match IndexOf(s, k)
    case None =>
    case Some(j) =>
      if j != i {
        var ja := if j < i then j else j - 1;
        assert m[ja] == s[j];
      }
  }

  /** A miss changes nothing; a hit returns the stored value and puts the entry at the head, keeping every mapping. */
  lemma GetReturnsStoredValue<K, V>(p: Promotion, l: Lru<K, V>, k: K)
    requires Sound(l)
    ensures Get(p, l, k).1 == ValueOf(l.items, k)
    ensures Get(p, l, k).1.None? ==> Get(p, l, k).0 == l
    ensures Get(p, l, k).1.Some? ==> Get(p, l, k).0.items[0] == Item(k, Get(p, l, k).1.value)
    ensures forall k' :: ValueOf(Get(p, l, k).0.items, k') == ValueOf(l.items, k')
    ensures KeysUnique(Get(p, l, k).0.items)
    ensures p == KeepsCount ==> Get(p, l, k).0.count == l.count
  {
    match IndexOf(l.items, k)
    case None =>
    case Some(i) =>
      MoveToFrontKeepsKeysUnique(l.items, i);
      forall k' {
        ValueOfMoveToFront(l.items, i, k');
      }
  }

  /** After `setValue` the key maps to the new value, provided the capacity admits one entry. */
  lemma SetThenGet<K, V>(p: Promotion, l: Lru<K, V>, k: K, v: V)
    requires Sound(l) && l.capacity >= 1
    ensures ValueOf(Set(p, l, k, v).items, k) == Some(v)
    ensures Set(p, l, k, v).items[0] == Item(k, v)
    ensures Sound(Set(p, l, k, v))
  {
    match IndexOf(l.items, k)
    case Some(i) =>
      MoveToFrontKeepsKeysUnique(l.items, i);
      var q := Promote(p, l, i);
      var r := [Item(k, v)] + q.items[1..];
      assert forall a :: 0 < a < |r| ==> r[a].key == q.items[a].key;
      UniqueValueOf(r, k);
    case None =>
      var pushed := [Item(k, v)] + l.items;
      assert KeysUnique(pushed) by {
        forall a, b | 0 <= a < b < |pushed| ensures pushed[a].key != pushed[b].key {
          assert pushed[b] == l.items[b - 1];
        }
      }
      if l.count + 1 > l.capacity {
        var d := pushed[..|pushed| - 1];
        assert d[0] == Item(k, v);
        assert forall a :: 0 <= a < |d| ==> d[a] == pushed[a];
        UniqueValueOf(d, k);
      } else {
        UniqueValueOf(pushed, k);
      }
  }

  /**
   * `setValue` leaves every other key's value alone, except the key of the
   * tail entry when a new key's insertion evicts it.
   */
  lemma SetKeepsOtherKeys<K, V>(p: Promotion, l: Lru<K, V>, k: K, v: V, k': K)
    requires Sound(l) && k' != k
    ensures var evicted := IndexOf(l.items, k).None? && l.count + 1 > l.capacity
                           && l.items != [] && l.items[|l.items| - 1].key == k';
            ValueOf(Set(p, l, k, v).items, k') == if evicted then None else ValueOf(l.items, k')
  {
    match IndexOf(l.items, k)
    case Some(i) =>
      MoveToFrontKeepsKeysUnique(l.items, i);
      ValueOfMoveToFront(l.items, i, k');
      ReplaceFrontKeepsOtherKeys(MoveToFront(l.items, i), k, v, k');
    case None =>
      var pushed := [Item(k, v)] + l.items;
      PushKeepsOtherKeys(l.items, k, v, k');
      if l.count + 1 > l.capacity {
        ValueOfRemoveAt(pushed, |pushed| - 1, k');
        assert RemoveAt(pushed, |pushed| - 1) == pushed[..|pushed| - 1];
      }
  }

  /** Replacing the front entry's value under its own key leaves every other key's value alone. */
  lemma ReplaceFrontKeepsOtherKeys<K, V>(m: seq<Item<K, V>>, k: K, v: V, k': K)
    requires KeysUnique(m) && m != [] && m[0].key == k && k' != k
    ensures KeysUnique([Item(k, v)] + m[1..])
    ensures ValueOf([Item(k, v)] + m[1..], k') == ValueOf(m, k')
  {
    var r := [Item(k, v)] + m[1..];
    assert forall a :: 0 < a < |r| ==> r[a] == m[a];
    assert KeysUnique(r) by {
      forall a, b | 0 <= a < b < |r| ensures r[a].key != r[b].key {
        assert r[b] == m[b];
        if a > 0 { assert r[a] == m[a]; }
      }
    }
    UniqueValueOf(r, k');
    UniqueValueOf(m, k');
  }

  /** Pushing a new key at the front leaves every other key's value alone. */
  lemma PushKeepsOtherKeys<K, V>(items: seq<Item<K, V>>, k: K, v: V, k': K)
    requires KeysUnique(items) && IndexOf(items, k).None? && k' != k
    ensures KeysUnique([Item(k, v)] + items)
    ensures ValueOf([Item(k, v)] + items, k') == ValueOf(items, k')
  {
    var pushed := [Item(k, v)] + items;
    assert forall a :: 0 < a < |pushed| ==> pushed[a] == items[a - 1];
    assert KeysUnique(pushed) by {
      forall a, b | 0 <= a < b < |pushed| ensures pushed[a].key != pushed[b].key {
        assert pushed[b] == items[b - 1];
      }
    }
    UniqueValueOf(pushed, k');
    UniqueValueOf(items, k');
  }

  /** `removeValue` unmaps exactly `k`. */
  lemma RemoveUnmapsOnlyKey<K, V>(l: Lru<K, V>, k: K, k': K)
    requires Sound(l)
    ensures ValueOf(Remove(l, k).items, k') == if k' == k then None else ValueOf(l.items, k')
    ensures Sound(Remove(l, k))
  {
    match IndexOf(l.items, k)
    case None =>
      UniqueValueOf(l.items, k');
    case Some(i) =>
      ValueOfRemoveAt(l.items, i, k');
      RemoveAtKeepsKeysUnique(l.items, i);
  }

  /** `removeOldest` returns and unmaps the least recently used entry. */
  lemma RemoveOldestTakesTail<K, V>(l: Lru<K, V>, k': K)
    requires Sound(l)
    ensures var (l', r) := RemoveOldest(l);
            && (r.None? <==> l.items == [])
            && (r.Some? ==>
                  && ValueOf(l.items, r.value.key) == Some(r.value.value)
                  && ValueOf(l'.items, k') == if k' == r.value.key then None else ValueOf(l.items, k'))
            && Sound(l')
  {
    if l.items != [] {
      var n := |l.items| - 1;
      ValueOfRemoveAt(l.items, n, k');
      RemoveAtKeepsKeysUnique(l.items, n);
      assert RemoveAt(l.items, n) == l.items[..n];
      UniqueValueOf(l.items, l.items[n].key);
    }
  }

  // ---------------------------------------------------------------------
  // The count drift

  /**
   * As written, capacity 2 and `set a; set b; get a; set c` leave three
   * entries: the promotion of `a` lowered `count`, so the insertion of `c`
   * does not evict `b`.
   */
  lemma CountDriftOverflows()
    ensures var l0: Lru<char, int> := Lru([], 0, 2);
            var l1 := Set(Decrements, l0, 'a', 1);
            var l2 := Set(Decrements, l1, 'b', 2);
            var l3 := Get(Decrements, l2, 'a').0;
            var l4 := Set(Decrements, l3, 'c', 3);
            && l4.items == [Item('c', 3), Item('a', 1), Item('b', 2)]
            && |l4.items| > l4.capacity
            && l4.count == 2
  {
    var l0: Lru<char, int> := Lru([], 0, 2);
    var l1 := Set(Decrements, l0, 'a', 1);
    assert l1 == Lru([Item('a', 1)], 1, 2);
    var l2 := Set(Decrements, l1, 'b', 2);
    assert IndexOf(l1.items, 'b') == None;
    assert l2 == Lru([Item('b', 2), Item('a', 1)], 2, 2);
    assert IndexOf(l2.items, 'a') == Some(1);
    var l3 := Get(Decrements, l2, 'a').0;
    assert l3 == Lru([Item('a', 1), Item('b', 2)], 1, 2);
    assert IndexOf(l3.items, 'c') == None;
  }

  /** With promotion keeping `count`, the same calls evict `b`, the least recently used. */
  lemma KeepingCountEvicts()
    ensures var l0: Lru<char, int> := Lru([], 0, 2);
            var l1 := Set(KeepsCount, l0, 'a', 1);
            var l2 := Set(KeepsCount, l1, 'b', 2);
            var l3 := Get(KeepsCount, l2, 'a').0;
            var l4 := Set(KeepsCount, l3, 'c', 3);
            l4 == Lru([Item('c', 3), Item('a', 1)], 2, 2)
  {
    var l0: Lru<char, int> := Lru([], 0, 2);
    var l1 := Set(KeepsCount, l0, 'a', 1);
    assert l1 == Lru([Item('a', 1)], 1, 2);
    var l2 := Set(KeepsCount, l1, 'b', 2);
    assert IndexOf(l1.items, 'b') == None;
    assert l2 == Lru([Item('b', 2), Item('a', 1)], 2, 2);
    assert IndexOf(l2.items, 'a') == Some(1);
    var l3 := Get(KeepsCount, l2, 'a').0;
    assert l3 == Lru([Item('a', 1), Item('b', 2)], 2, 2);
    assert IndexOf(l3.items, 'c') == None;
  }

  /** The shape of the state after `setValue`: keys stay unique, and the size and `count` move as the branch taken says. */
  lemma SetShape<K, V>(p: Promotion, l: Lru<K, V>, k: K, v: V)
    requires KeysUnique(l.items)
    ensures var r := Set(p, l, k, v);
            && KeysUnique(r.items)
            && r.capacity == l.capacity
            && (IndexOf(l.items, k).Some? ==>
                  && |r.items| == |l.items|
                  && r.count == Promote(p, l, IndexOf(l.items, k).value).count)
            && (IndexOf(l.items, k).None? && l.count + 1 > l.capacity ==>
                  |r.items| == |l.items| && r.count == l.count)
            && (IndexOf(l.items, k).None? && l.count + 1 <= l.capacity ==>
                  |r.items| == |l.items| + 1 && r.count == l.count + 1)
  {
    match IndexOf(l.items, k)
    case Some(i) =>
      MoveToFrontKeepsKeysUnique(l.items, i);
      var m := Promote(p, l, i).items;
      var r := [Item(k, v)] + m[1..];
      assert KeysUnique(r) by {
        forall a, b | 0 <= a < b < |r| ensures r[a].key != r[b].key {
          assert r[b] == m[b];
          if a > 0 { assert r[a] == m[a]; }
        }
      }
    case None =>
      var pushed := [Item(k, v)] + l.items;
      assert KeysUnique(pushed) by {
        forall a, b | 0 <= a < b < |pushed| ensures pushed[a].key != pushed[b].key {
          assert pushed[b] == l.items[b - 1];
        }
      }
      assert KeysUnique(pushed[..|pushed| - 1]);
  }

  /** As written, `count` only ever errs low: every operation keeps `Sound`. */
  lemma DecrementsStaysSound<K, V>(l: Lru<K, V>, k: K, v: V)
    requires Sound(l)
    ensures Sound(Get(Decrements, l, k).0)
    ensures Sound(Set(Decrements, l, k, v))
    ensures Sound(Remove(l, k)) && Sound(RemoveOldest(l).0)
  {
    GetReturnsStoredValue(Decrements, l, k);
    SetShape(Decrements, l, k, v);
    RemoveUnmapsOnlyKey(l, k, k);
    RemoveOldestTakesTail(l, k);
  }

  /** With promotion keeping `count`, every operation keeps the cache within its capacity. */
  lemma KeepsCountStaysBounded<K, V>(l: Lru<K, V>, k: K, v: V)
    requires Bounded(l)
    ensures Bounded(Get(KeepsCount, l, k).0)
    ensures Bounded(Set(KeepsCount, l, k, v))
    ensures Bounded(Remove(l, k)) && Bounded(RemoveOldest(l).0)
  {
    GetReturnsStoredValue(KeepsCount, l, k);
    SetShape(KeepsCount, l, k, v);
    RemoveUnmapsOnlyKey(l, k, k);
    RemoveOldestTakesTail(l, k);
  }
}

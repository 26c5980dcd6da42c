/** Maps filled in a loop, where a later write to a name replaces an earlier one.

    `write` says what one item contributes: nothing, or a name and a value. The
    items may come in an order chosen by the runtime, as when a map is ranged over. */
module LastWins {
  import opened Sequences

  function Collect<K, L, V>(items: seq<K>, write: K -> Option<(L, V)>): map<L, V> {
    if items == [] then map[]
    else
      match write(Last(items))
      case None => Collect(Front(items), write)
      case Some((name, value)) => Collect(Front(items), write)[name := value]
  }

  predicate Writes<K, L(==), V>(write: K -> Option<(L, V)>, item: K, name: L) {
    write(item).Some? && write(item).value.0 == name
  }

  /** Position `i` holds the last item that writes `name`. */
  ghost predicate LastWriter<K, L, V>(items: seq<K>, write: K -> Option<(L, V)>, name: L, i: int) {
    && 0 <= i < |items|
    && Writes(write, items[i], name)
    && forall j :: i < j < |items| ==> !Writes(write, items[j], name)
  }

  /** A name has the value of its last writer, and there is one for every name present. */
  lemma {:induction false} CollectSpec<K, L, V>(items: seq<K>, write: K -> Option<(L, V)>, name: L)
    ensures name in Collect(items, write) <==> exists i :: 0 <= i < |items| && Writes(write, items[i], name)
    ensures name in Collect(items, write) ==>
              exists i :: LastWriter(items, write, name, i) && Collect(items, write)[name] == write(items[i]).value.1
    decreases |items|
  {
    if items != [] {
      CollectSpec(Front(items), write, name);
      var n := |items| - 1;
      if Writes(write, items[n], name) {
        assert LastWriter(items, write, name, n);
      } else if name in Collect(Front(items), write) {
        var i :| LastWriter(Front(items), write, name, i)
                 && Collect(Front(items), write)[name] == write(Front(items)[i]).value.1;
        assert LastWriter(items, write, name, i);
      }
    }
  }

  // Order.

  /** `order` lists the members of `keys`, each once. */
  ghost predicate Enumerates<K>(order: seq<K>, keys: set<K>) {
    && (forall i :: 0 <= i < |order| ==> order[i] in keys)
    && (forall k :: k in keys ==> k in order)
    && (forall i, j :: 0 <= i < j < |order| ==> order[i] != order[j])
  }

  ghost function SomeOrder<K>(keys: set<K>): (order: seq<K>)
    ensures Enumerates(order, keys)
  {
    if keys == {} then []
    else
      var k :| k in keys;
      SomeOrder(keys - {k}) + [k]
  }

  predicate Collide<K, L(==), V>(write: K -> Option<(L, V)>, a: K, b: K) {
    write(a).Some? && write(b).Some? && write(a).value.0 == write(b).value.0
  }

  /** Items that write the same name write the same value. */
  ghost predicate Agree<K(!new), L, V>(keys: set<K>, write: K -> Option<(L, V)>) {
    forall a, b :: a in keys && b in keys && Collide(write, a, b) ==> write(a).value.1 == write(b).value.1
  }

  ghost predicate OrderIrrelevant<K(!new), L, V>(keys: set<K>, write: K -> Option<(L, V)>) {
    forall order, order' :: Enumerates(order, keys) && Enumerates(order', keys) ==>
      Collect(order, write) == Collect(order', write)
  }

  ghost predicate Written<K, L, V>(keys: set<K>, write: K -> Option<(L, V)>, name: L) {
    exists k :: k in keys && Writes(write, k, name)
  }

  /** The names are the same for every order. */
  lemma NamesSame<K, L, V>(keys: set<K>, write: K -> Option<(L, V)>, order: seq<K>, name: L)
    requires Enumerates(order, keys)
    ensures name in Collect(order, write) <==> Written(keys, write, name)
  {
    CollectSpec(order, write, name);
    if Written(keys, write, name) {
      var k :| k in keys && Writes(write, k, name);
      assert k in order;
    }
  }

  /** When all agree, the map holds each item's own value. */
  lemma AgreedValue<K(!new), L, V>(keys: set<K>, write: K -> Option<(L, V)>, order: seq<K>, k: K)
    requires Enumerates(order, keys) && Agree(keys, write) && k in keys && write(k).Some?
    ensures write(k).value.0 in Collect(order, write)
    ensures Collect(order, write)[write(k).value.0] == write(k).value.1
  {
    hide Collect;
    var name := write(k).value.0;
    assert Writes(write, k, name);
    NamesSame(keys, write, order, name);
    CollectSpec(order, write, name);
    var i :| LastWriter(order, write, name, i) && Collect(order, write)[name] == write(order[i]).value.1;
    assert Collide(write, k, order[i]);
  }

  lemma SameMap<K(!new), L(!new), V>(keys: set<K>, write: K -> Option<(L, V)>, order: seq<K>, order': seq<K>)
    requires Enumerates(order, keys) && Enumerates(order', keys) && Agree(keys, write)
    ensures Collect(order, write) == Collect(order', write)
  {
    hide Collect;
    forall name: L
      ensures name in Collect(order, write) <==> name in Collect(order', write)
      ensures name in Collect(order, write) ==> Collect(order, write)[name] == Collect(order', write)[name]
    {
      NamesSame(keys, write, order, name);
      NamesSame(keys, write, order', name);
      if name in Collect(order, write) {
        var k :| k in keys && Writes(write, k, name);
        AgreedValue(keys, write, order, k);
        AgreedValue(keys, write, order', k);
      }
    }
  }

  lemma LastTwo<K, L, V>(keys: set<K>, write: K -> Option<(L, V)>, a: K, b: K) returns (order: seq<K>)
    requires a in keys && b in keys && a != b && write(b).Some?
    ensures Enumerates(order, keys)
    ensures write(b).value.0 in Collect(order, write)
    ensures Collect(order, write)[write(b).value.0] == write(b).value.1
  {
    order := SomeOrder(keys - {a, b}) + [a] + [b];
    assert Front(order) == SomeOrder(keys - {a, b}) + [a];
  }

  /** The result is independent of the order if and only if items that share a
      name agree on its value. */
  lemma OrderTheorem<K(!new), L(!new), V>(keys: set<K>, write: K -> Option<(L, V)>)
    ensures OrderIrrelevant(keys, write) <==> Agree(keys, write)
  {
    if Agree(keys, write) {
      forall order, order' | Enumerates(order, keys) && Enumerates(order', keys)
        ensures Collect(order, write) == Collect(order', write)
      {
        SameMap(keys, write, order, order');
      }
    }
    if OrderIrrelevant(keys, write) {
      forall a, b | a in keys && b in keys && a != b && Collide(write, a, b)
        ensures write(a).value.1 == write(b).value.1
      {
        var order := LastTwo(keys, write, a, b);
        var order' := LastTwo(keys, write, b, a);
      }
    }
  }
}

/**
 * The grouping step of `exportAssetGroupToJson`: the page's items are split
 * by their `_type` (lodash `groupBy`), one group per distinct type, keys
 * in the order in which they are first met.
 */
module Grouping {
  import opened FirstSeen

  /** An exported entity or relationship: its `_type` and the rest of its record. */
  datatype Asset = Asset(typeName: string, record: string)

  /** One entry of the `groupBy` result. */
  datatype Group = Group(typeName: string, items: seq<Asset>)

  function TypeOf(a: Asset): string
  {
    a.typeName
  }

  /** The items of type `t`, in page order. */
  function ItemsOfType(items: seq<Asset>, t: string): (g: seq<Asset>)
    ensures |g| <= |items|
    ensures forall i :: 0 <= i < |g| ==> g[i].typeName == t
  {
    if items == [] then []
    else (if items[0].typeName == t then [items[0]] else []) + ItemsOfType(items[1..], t)
  }

  /** An item occurs in the items of type `t` as often as in the page when it has type `t`, and never otherwise. */
  lemma {:induction false} ItemsOfTypeCount(items: seq<Asset>, t: string, a: Asset)
    ensures multiset(ItemsOfType(items, t))[a] == if a.typeName == t then multiset(items)[a] else 0
  {
    if items != [] {
      assert items == [items[0]] + items[1..];
      ItemsOfTypeCount(items[1..], t, a);
    }
  }

  /** Filtering distributes over concatenation, so each group keeps the page order. */
  lemma {:induction false} ItemsOfTypeAppend(xs: seq<Asset>, ys: seq<Asset>, t: string)
    ensures ItemsOfType(xs + ys, t) == ItemsOfType(xs, t) + ItemsOfType(ys, t)
  {
    if xs != [] {
      assert (xs + ys)[0] == xs[0];
      assert (xs + ys)[1..] == xs[1..] + ys;
      ItemsOfTypeAppend(xs[1..], ys, t);
      var head := if xs[0].typeName == t then [xs[0]] else [];
      assert ItemsOfType(xs + ys, t) == head + ItemsOfType(xs[1..] + ys, t);
      assert ItemsOfType(xs, t) == head + ItemsOfType(xs[1..], t);
    } else {
      assert xs + ys == ys;
    }
  }

  predicate Distinct(keys: seq<string>)
  {
    forall i, j :: 0 <= i < j < |keys| ==> keys[i] != keys[j]
  }

  /** One group for each key, in key order. */
  function GroupsFor(keys: seq<string>, items: seq<Asset>): (groups: seq<Group>)
    ensures |groups| == |keys|
    ensures forall i :: 0 <= i < |keys| ==> groups[i] == Group(keys[i], ItemsOfType(items, keys[i]))
  {
    if keys == [] then []
    else [Group(keys[0], ItemsOfType(items, keys[0]))] + GroupsFor(keys[1..], items)
  }

  /** The distinct types of a page, in the order in which they are first met. */
  function TypesInOrder(items: seq<Asset>): (keys: seq<string>)
    ensures |keys| == |Dedup(items, TypeOf)|
    ensures forall i :: 0 <= i < |keys| ==> keys[i] == Dedup(items, TypeOf)[i].typeName
  {
    var firsts := Dedup(items, TypeOf);
    seq(|firsts|, i requires 0 <= i < |firsts| => firsts[i].typeName)
  }

  /** `_.groupBy(objects, '_type')` with its keys listed as `Object.keys` does. */
  function GroupByType(items: seq<Asset>): seq<Group>
  {
    GroupsFor(TypesInOrder(items), items)
  }

  /** The items of all groups, one group after the other. */
  function Concat(groups: seq<Group>): seq<Asset>
  {
    if groups == [] then [] else groups[0].items + Concat(groups[1..])
  }

  /** No two groups share a type. */
  lemma GroupTypesDistinct(items: seq<Asset>)
    ensures Distinct(TypesInOrder(items))
    ensures forall i, j :: 0 <= i < j < |GroupByType(items)| ==>
      GroupByType(items)[i].typeName != GroupByType(items)[j].typeName
  {
    DedupUnique(items, TypeOf, {});
  }

  /** A type has a group exactly when some item of the page has it. */
  lemma GroupTypesCoverPage(items: seq<Asset>, t: string)
    ensures t in TypesInOrder(items) <==> exists i :: 0 <= i < |items| && items[i].typeName == t
  {
    var firsts := Dedup(items, TypeOf);
    DedupCovers(items, TypeOf, {});
    DedupDeclared(items, TypeOf, {});
    if t in TypesInOrder(items) {
      var j :| 0 <= j < |firsts| && firsts[j].typeName == t;
      assert Declares(items, TypeOf, TypeOf(firsts[j]));
    }
    if exists i :: 0 <= i < |items| && items[i].typeName == t {
      var i :| 0 <= i < |items| && items[i].typeName == t;
      assert Declares(firsts, TypeOf, TypeOf(items[i]));
      var j :| 0 <= j < |firsts| && TypeOf(firsts[j]) == t;
      assert TypesInOrder(items)[j] == t;
    }
  }

  /** Every group holds at least one item, all of its own type. */
  lemma GroupsNonEmpty(items: seq<Asset>)
    ensures forall i :: 0 <= i < |GroupByType(items)| ==>
      GroupByType(items)[i].items != [] &&
      forall k :: 0 <= k < |GroupByType(items)[i].items| ==>
        GroupByType(items)[i].items[k].typeName == GroupByType(items)[i].typeName
  {
    var groups := GroupByType(items);
    var firsts := Dedup(items, TypeOf);
    DedupDeclared(items, TypeOf, {});
    forall i | 0 <= i < |groups| ensures groups[i].items != [] {
      var t := groups[i].typeName;
      assert t == TypeOf(firsts[i]);
      var m :| 0 <= m < |items| && TypeOf(items[m]) == t;
      ItemsOfTypeCount(items, t, items[m]);
      assert items[m] in multiset(items);
      assert items[m] in multiset(groups[i].items);
    }
  }

  /** The type of group `a` is first met in the page before the type of group `b`. */
  predicate TypeMetBefore(items: seq<Asset>, a: Group, b: Group)
  {
    Declares(items, TypeOf, a.typeName) && Declares(items, TypeOf, b.typeName) &&
    FirstIndex(items, TypeOf, a.typeName) < FirstIndex(items, TypeOf, b.typeName)
  }

  /** Group keys follow the order in which their types are first met in the page. */
  lemma GroupTypesInFirstSeenOrder(items: seq<Asset>)
    ensures forall i, j :: 0 <= i < j < |GroupByType(items)| ==>
      TypeMetBefore(items, GroupByType(items)[i], GroupByType(items)[j])
  {
    var firsts := Dedup(items, TypeOf);
    var groups := GroupByType(items);
    DedupOrder(items, TypeOf, {});
    forall i, j | 0 <= i < j < |groups|
      ensures TypeMetBefore(items, groups[i], groups[j])
    {
      assert MetBefore(items, TypeOf, firsts[i], firsts[j]);
      assert groups[i].typeName == TypeOf(firsts[i]);
      assert groups[j].typeName == TypeOf(firsts[j]);
    }
  }

  /** Past the first key, the keys stay distinct and do not repeat the first. */
  lemma DistinctTail(keys: seq<string>)
    requires Distinct(keys) && keys != []
    ensures Distinct(keys[1..]) && keys[0] !in keys[1..]
  {
    forall i, j | 0 <= i < j < |keys[1..]| ensures keys[1..][i] != keys[1..][j] {
      assert keys[1..][i] == keys[i + 1] && keys[1..][j] == keys[j + 1];
    }
    forall j | 0 <= j < |keys[1..]| ensures keys[1..][j] != keys[0] {
      assert keys[1..][j] == keys[j + 1];
    }
  }

  /** Prepending an item adds it to the one group of its type. */
  lemma {:induction false} ConcatGroupsForCons(keys: seq<string>, x: Asset, rest: seq<Asset>)
    requires Distinct(keys)
    ensures multiset(Concat(GroupsFor(keys, [x] + rest)))
         == multiset(Concat(GroupsFor(keys, rest))) + if x.typeName in keys then multiset{x} else multiset{}
  {
    if keys != [] {
      var k := keys[0];
      var ks := keys[1..];
      DistinctTail(keys);
      ConcatGroupsForCons(ks, x, rest);
      assert ([x] + rest)[1..] == rest;
      var head := if x.typeName == k then [x] else [];
      var mid := ItemsOfType(rest, k);
      var later := Concat(GroupsFor(ks, [x] + rest));
      var laterRest := Concat(GroupsFor(ks, rest));
      assert Concat(GroupsFor(keys, [x] + rest)) == head + mid + later;
      assert Concat(GroupsFor(keys, rest)) == mid + laterRest;
      var added := if x.typeName in ks then multiset{x} else multiset{};
      var addedHere := if x.typeName in keys then multiset{x} else multiset{};
      assert multiset(head) + added == addedHere;
      calc {
        multiset(head + mid + later);
        multiset(head) + multiset(mid) + (multiset(laterRest) + added);
        multiset(mid) + multiset(laterRest) + (multiset(head) + added);
        multiset(mid + laterRest) + addedHere;
      }
    }
  }

  /** Grouping by distinct keys that cover every type loses and invents nothing. */
  lemma {:induction false} GroupsForPartition(keys: seq<string>, items: seq<Asset>)
    requires Distinct(keys)
    requires forall i :: 0 <= i < |items| ==> items[i].typeName in keys
    ensures multiset(Concat(GroupsFor(keys, items))) == multiset(items)
  {
    if items == [] {
      EmptyConcat(keys);
    } else {
      var rest := items[1..];
      assert items == [items[0]] + rest;
      forall i | 0 <= i < |rest| ensures rest[i].typeName in keys {
        assert rest[i] == items[i + 1];
      }
      GroupsForPartition(keys, rest);
      ConcatGroupsForCons(keys, items[0], rest);
    }
  }

  /** Grouping nothing gives groups without items. */
  lemma {:induction false} EmptyConcat(keys: seq<string>)
    ensures Concat(GroupsFor(keys, [])) == []
  {
    if keys != [] {
      EmptyConcat(keys[1..]);
      assert GroupsFor(keys, [])[1..] == GroupsFor(keys[1..], []);
    }
  }

  /** The groups, put one after the other, are a permutation of the page. */
  lemma GroupByTypePartition(items: seq<Asset>)
    ensures multiset(Concat(GroupByType(items))) == multiset(items)
  {
    GroupTypesDistinct(items);
    forall i | 0 <= i < |items| ensures items[i].typeName in TypesInOrder(items) {
      GroupTypesCoverPage(items, items[i].typeName);
    }
    GroupsForPartition(TypesInOrder(items), items);
  }

  /** An empty page has no groups. */
  lemma EmptyPageHasNoGroups()
    ensures GroupByType([]) == []
  {
    DedupEmpty([], TypeOf, {});
  }
}

/** Items collected under string keys in key order: an ordered map filled with `entry().push()`. */
module Groups {
  import opened Common
  import opened Sorting

  datatype Group<T> = Group(key: string, items: seq<T>)

  /** `entry(key).or_default().push(item)` on a map kept in key order. */
  function Entry<T>(groups: seq<Group<T>>, key: string, item: T): seq<Group<T>> {
    if groups == [] then [Group(key, [item])]
    else if key == groups[0].key then [Group(key, groups[0].items + [item])] + groups[1..]
    else if Less(key, groups[0].key) then [Group(key, [item])] + groups
    else [groups[0]] + Entry(groups[1..], key, item)
  }

  /** Keys strictly increasing, no group empty, and every item under its own key. */
  predicate Grouped<T>(place: T -> string, groups: seq<Group<T>>) {
    && (forall i, j :: 0 <= i < j < |groups| ==> Less(groups[i].key, groups[j].key))
    && (forall i :: 0 <= i < |groups| ==> groups[i].items != [])
    && (forall i, k :: 0 <= i < |groups| && 0 <= k < |groups[i].items| ==> place(groups[i].items[k]) == groups[i].key)
  }

  function Held<T>(g: Group<T>): seq<T> {
    g.items
  }

  function AllItems<T>(groups: seq<Group<T>>): seq<T> {
    Gather(Held, groups)
  }

  lemma ItemsOfOne<T>(g: Group<T>)
    ensures AllItems([g]) == g.items
  {
    GatherOne(Held, g);
  }

  lemma AllItemsAppend<T>(a: seq<Group<T>>, b: seq<Group<T>>)
    ensures AllItems(a + b) == AllItems(a) + AllItems(b)
  {
    GatherAppend(Held, a, b);
  }

  lemma HeadAndTail<T>(groups: seq<Group<T>>)
    requires groups != []
    ensures groups == [groups[0]] + groups[1..]
    ensures AllItems([groups[0]]) == groups[0].items
    ensures AllItems(groups) == groups[0].items + AllItems(groups[1..])
  {
    assert groups == [groups[0]] + groups[1..];
    ItemsOfOne(groups[0]);
    AllItemsAppend([groups[0]], groups[1..]);
  }

  lemma GroupedCons<T>(place: T -> string, first: Group<T>, rest: seq<Group<T>>)
    requires Grouped(place, [first]) && Grouped(place, rest) && rest != [] && Less(first.key, rest[0].key)
    ensures Grouped(place, [first] + rest)
    ensures AllItems([first] + rest) == first.items + AllItems(rest)
  {
    var groups := [first] + rest;
    AllItemsAppend([first], rest);
    ItemsOfOne(first);
    forall j | 0 <= j < |rest|
      ensures Less(first.key, rest[j].key)
    {
      if j > 0 { LessTransitive(first.key, rest[0].key, rest[j].key); }
    }
    forall i, k | 0 <= i < |groups| && 0 <= k < |groups[i].items|
      ensures place(groups[i].items[k]) == groups[i].key
    {
      if i == 0 {
        assert [first][0].items[k] == groups[i].items[k];
      } else {
        assert groups[i] == rest[i - 1];
      }
    }
  }

  lemma OneItem<T>(place: T -> string, item: T)
    ensures Grouped(place, [Group(place(item), [item])])
    ensures AllItems([Group(place(item), [item])]) == [item]
  {
    ItemsOfOne(Group(place(item), [item]));
  }

  lemma OneGrows<T>(place: T -> string, g: Group<T>, item: T)
    requires Grouped(place, [g]) && place(item) == g.key
    ensures Grouped(place, [g.(items := g.items + [item])])
  {
    var bigger := g.(items := g.items + [item]);
    forall k | 0 <= k < |bigger.items|
      ensures place(bigger.items[k]) == g.key
    {
      if k < |g.items| { assert [g][0].items[k] == bigger.items[k]; }
    }
  }

  lemma GroupedParts<T>(place: T -> string, groups: seq<Group<T>>)
    requires Grouped(place, groups) && |groups| >= 2
    ensures Grouped(place, [groups[0]]) && Grouped(place, groups[1..]) && Less(groups[0].key, groups[1].key)
    ensures Less(groups[0].key, groups[|groups| - 1].key)
  {
    var rest := groups[1..];
    forall i | 0 <= i < |rest| ensures rest[i] == groups[i + 1] {}
  }

  /** Pushing an item keeps the grouping, puts the item under its key, and loses nothing. */
  lemma {:induction false} EntryKeeps<T>(place: T -> string, groups: seq<Group<T>>, item: T)
    requires Grouped(place, groups)
    ensures var more := Entry(groups, place(item), item);
            && Grouped(place, more) && more != []
            && multiset(AllItems(more)) == multiset(AllItems(groups)) + multiset{item}
            && (more[0].key == place(item) || (groups != [] && more[0].key == groups[0].key))
  {
    var key := place(item);
    OneItem(place, item);
    if groups != [] {
      var first, rest := groups[0], groups[1..];
      HeadAndTail(groups);
      LessTrichotomy(key, first.key);
      if rest != [] { GroupedParts(place, groups); } else { Single(groups); }
      if key == first.key {
        OneGrows(place, first, item);
        var bigger := first.(items := first.items + [item]);
        AllItemsAppend([bigger], rest);
        ItemsOfOne(bigger);
        if rest != [] { GroupedCons(place, bigger, rest); } else { assert [bigger] + rest == [bigger]; }
      } else if Less(key, first.key) {
        GroupedCons(place, Group(key, [item]), groups);
      } else {
        EntryKeeps(place, rest, item);
        GroupedCons(place, first, Entry(rest, key, item));
      }
    }
  }

  lemma EntryAfterOne<T>(place: T -> string, g: Group<T>, item: T)
    requires Grouped(place, [g]) && AtMost(g.key, place(item))
    ensures var more := Entry([g], place(item), item);
            more != [] && more[|more| - 1].key == place(item) && AllItems(more) == AllItems([g]) + [item]
  {
    Single([g]);
    LessTrichotomy(place(item), g.key);
    ItemsOfOne(g);
    if place(item) == g.key {
      ItemsOfOne(g.(items := g.items + [item]));
    } else {
      AllItemsAppend([g], [Group(place(item), [item])]);
      ItemsOfOne(Group(place(item), [item]));
    }
  }

  /** An item whose key is not below the last one goes to the very end. */
  lemma {:induction false} EntryAtEnd<T>(place: T -> string, groups: seq<Group<T>>, item: T)
    requires Grouped(place, groups)
    requires groups != [] ==> AtMost(groups[|groups| - 1].key, place(item))
    ensures var more := Entry(groups, place(item), item);
            && more != [] && more[|more| - 1].key == place(item)
            && AllItems(more) == AllItems(groups) + [item]
  {
    var key := place(item);
    if groups == [] {
      OneItem(place, item);
      assert AllItems(groups) + [item] == [item];
    } else if |groups| == 1 {
      Single(groups);
      EntryAfterOne(place, groups[0], item);
    } else {
      GroupedParts(place, groups);
      var last := groups[|groups| - 1].key;
      LessTrichotomy(last, key);
      if Less(last, key) { LessTransitive(groups[0].key, last, key); }
      LessTrichotomy(groups[0].key, key);
      var rest := Entry(groups[1..], key, item);
      EntryAtEnd(place, groups[1..], item);
      AllItemsAppend([groups[0]], rest);
      HeadAndTail(groups);
      Regroup(groups[0].items, AllItems(groups[1..]), [item]);
    }
  }

  lemma SplitThere<T>(front: seq<Group<T>>, g: Group<T>, back: seq<Group<T>>)
    ensures AllItems(front + [g]) == AllItems(front) + g.items
    ensures AllItems(front + [g] + back) == AllItems(front) + g.items + AllItems(back)
  {
    AllItemsAppend(front, [g]);
    ItemsOfOne(g);
    AllItemsAppend(front + [g], back);
  }

  lemma SplitAtGroup<T>(groups: seq<Group<T>>, i: nat)
    requires i < |groups|
    ensures AllItems(groups[..i + 1]) == AllItems(groups[..i]) + groups[i].items
    ensures AllItems(groups) == AllItems(groups[..i]) + groups[i].items + AllItems(groups[i + 1..])
  {
    SplitAt(groups, i);
    SplitThere(groups[..i], groups[i], groups[i + 1..]);
  }

  // ----- Groups as a filter ------------------------------------------------------------------

  lemma {:induction false} OfOwnKey<T>(place: T -> string, items: seq<T>, own: string, key: string)
    requires forall k :: 0 <= k < |items| ==> place(items[k]) == own
    ensures OfKey(place, items, key) == if own == key then items else []
  {
    if items != [] {
      OfOwnKey(place, items[..|items| - 1], own, key);
      assert items == items[..|items| - 1] + [items[|items| - 1]];
    }
  }

  lemma GroupedFront<T>(place: T -> string, groups: seq<Group<T>>)
    requires Grouped(place, groups) && groups != []
    ensures Grouped(place, groups[..|groups| - 1])
    ensures var last := groups[|groups| - 1];
            && groups == groups[..|groups| - 1] + [last] && AllItems(groups) == AllItems(groups[..|groups| - 1]) + last.items
  {
    assert groups == groups[..|groups| - 1] + [groups[|groups| - 1]];
    GatherPush(Held, groups[..|groups| - 1], groups[|groups| - 1]);
  }

  lemma {:induction false} NoneOfKey<T>(place: T -> string, groups: seq<Group<T>>, key: string)
    requires Grouped(place, groups) && forall i :: 0 <= i < |groups| ==> groups[i].key != key
    ensures OfKey(place, AllItems(groups), key) == []
  {
    if groups != [] {
      var last := groups[|groups| - 1];
      GroupedFront(place, groups);
      NoneOfKey(place, groups[..|groups| - 1], key);
      OfOwnKey(place, last.items, last.key, key);
      OfKeyAppend(place, AllItems(groups[..|groups| - 1]), last.items, key);
    }
  }

  /** Each group is the items of its key, in the order of the whole. */
  lemma {:induction false} GroupIsOfKey<T>(place: T -> string, groups: seq<Group<T>>, i: nat)
    requires Grouped(place, groups) && i < |groups|
    ensures OfKey(place, AllItems(groups), groups[i].key) == groups[i].items
  {
    var front, last, key := groups[..|groups| - 1], groups[|groups| - 1], groups[i].key;
    GroupedFront(place, groups);
    OfOwnKey(place, last.items, last.key, key);
    OfKeyAppend(place, AllItems(front), last.items, key);
    if i < |groups| - 1 {
      GroupIsOfKey(place, front, i);
      LessTrichotomy(key, last.key);
    } else {
      forall j | 0 <= j < |front| ensures front[j].key != key {
        LessTrichotomy(front[j].key, key);
      }
      NoneOfKey(place, front, key);
    }
  }

  /** Every item is in the group of its key. */
  lemma {:induction false} HasGroup<T>(place: T -> string, groups: seq<Group<T>>, k: nat) returns (i: nat)
    requires Grouped(place, groups) && k < |AllItems(groups)|
    ensures i < |groups| && groups[i].key == place(AllItems(groups)[k]) && AllItems(groups)[k] in groups[i].items
    decreases |groups|
  {
    GroupedFront(place, groups);
    var front := groups[..|groups| - 1];
    i := |groups| - 1;
    if k < |AllItems(front)| {
      i := HasGroup(place, front, k);
    }
  }

  /** Pushing an item adds it at the end of its own key and nowhere else. */
  lemma {:induction false} EntryAdds<T>(place: T -> string, groups: seq<Group<T>>, item: T, key: string)
    requires Grouped(place, groups)
    ensures OfKey(place, AllItems(Entry(groups, place(item), item)), key)
            == OfKey(place, AllItems(groups) + [item], key)
    decreases |groups|
  {
    var own := place(item);
    OfKeyPush(place, AllItems(groups), item, key);
    if groups == [] {
      OneItem(place, item);
      assert AllItems(groups) + [item] == [item];
    } else {
      if own == groups[0].key || Less(own, groups[0].key) {
        EntryAddsToFirst(place, groups, item, key);
      } else {
        var rest := groups[1..];
        if rest == [] { assert Grouped(place, rest); } else { GroupedParts(place, groups); }
        EntryAdds(place, rest, item, key);
        BehindFirst(place, groups, Entry(rest, own, item), item, key);
      }
    }
  }

  lemma BehindFirst<T>(place: T -> string, groups: seq<Group<T>>, more: seq<Group<T>>, item: T, key: string)
    requires groups != [] && OfKey(place, AllItems(more), key) == OfKey(place, AllItems(groups[1..]) + [item], key)
    ensures OfKey(place, AllItems([groups[0]] + more), key)
            == OfKey(place, AllItems(groups), key) + if place(item) == key then [item] else []
  {
    HeadAndTail(groups);
    OfKeyPush(place, AllItems(groups[1..]), item, key);
    AllItemsAppend([groups[0]], more);
    OfKeyAppend(place, groups[0].items, AllItems(more), key);
    OfKeyAppend(place, groups[0].items, AllItems(groups[1..]), key);
  }

  lemma EntryAddsToFirst<T>(place: T -> string, groups: seq<Group<T>>, item: T, key: string)
    requires Grouped(place, groups) && groups != []
    requires place(item) == groups[0].key || Less(place(item), groups[0].key)
    ensures OfKey(place, AllItems(Entry(groups, place(item), item)), key)
            == OfKey(place, AllItems(groups), key) + if place(item) == key then [item] else []
  {
    var own, first, rest := place(item), groups[0], groups[1..];
    HeadAndTail(groups);
    NotInTail(place, groups, own);
    if own == first.key {
      GrownFirst(place, first, rest, item, key);
    } else {
      NewFirst(place, groups, item, key);
    }
  }

  lemma GrownFirst<T>(place: T -> string, first: Group<T>, rest: seq<Group<T>>, item: T, key: string)
    requires place(item) == first.key && OfKey(place, AllItems(rest), first.key) == []
    ensures OfKey(place, AllItems([Group(first.key, first.items + [item])] + rest), key)
            == OfKey(place, first.items + AllItems(rest), key) + if first.key == key then [item] else []
  {
    var bigger := Group(first.key, first.items + [item]);
    AllItemsAppend([bigger], rest);
    ItemsOfOne(bigger);
    OfKeyPush(place, first.items, item, key);
    OfKeyAppend(place, bigger.items, AllItems(rest), key);
    OfKeyAppend(place, first.items, AllItems(rest), key);
  }

  lemma NewFirst<T>(place: T -> string, groups: seq<Group<T>>, item: T, key: string)
    requires OfKey(place, AllItems(groups), place(item)) == []
    ensures OfKey(place, AllItems([Group(place(item), [item])] + groups), key)
            == OfKey(place, AllItems(groups), key) + if place(item) == key then [item] else []
  {
    var own := place(item);
    AllItemsAppend([Group(own, [item])], groups);
    OneItem(place, item);
    OfOwnKey(place, [item], own, key);
    OfKeyAppend(place, [item], AllItems(groups), key);
  }

  /** A key not above the first one has no items after the first group; below it, none at all. */
  lemma NotInTail<T>(place: T -> string, groups: seq<Group<T>>, key: string)
    requires Grouped(place, groups) && groups != [] && (key == groups[0].key || Less(key, groups[0].key))
    ensures OfKey(place, AllItems(groups[1..]), key) == []
    ensures Less(key, groups[0].key) ==> OfKey(place, AllItems(groups), key) == []
  {
    LessTrichotomy(key, groups[0].key);
    forall j | 0 < j < |groups| ensures groups[j].key != key {
      if Less(key, groups[0].key) { LessTransitive(key, groups[0].key, groups[j].key); }
      LessTrichotomy(key, groups[j].key);
    }
    if |groups| >= 2 { GroupedParts(place, groups); }
    NoneOfKey(place, groups[1..], key);
    if Less(key, groups[0].key) { NoneOfKey(place, groups, key); }
  }
}

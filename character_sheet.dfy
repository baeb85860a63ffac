/**
 * The logic of scripts/render-sheet.js: items of an uploaded character are
 * grouped by the container they sit in, quantities default to one, and
 * uploaded characters are added after the stored ones.
 */
module CharacterSheet {
  import opened Wrappers
  import opened Seqs

  /** `item.system.location`: only the `parent` field is read. */
  datatype Location = Location(parent: Option<string>)

  /** `item.system`: a missing `location` or `quantity` is `None`. */
  datatype ItemSystem = ItemSystem(location: Option<Location>, quantity: Option<int>)

  datatype Item = Item(name: string, system: Option<ItemSystem>)

  const LooseItems := "Loose Items"

  /**
   * `item.system?.location?.parent || 'Loose Items'`: the parent container
   * when there is one and its name is not empty, the loose-items group
   * otherwise.
   */
  function ContainerKey(item: Item): (key: string)
    ensures key != ""
    ensures key == LooseItems || (item.system.Some? && item.system.value.location.Some?
      && item.system.value.location.value.parent == Some(key))
  {
    match item.system
    case None => LooseItems
    case Some(system) =>
      match system.location
      case None => LooseItems
      case Some(location) =>
        match location.parent
        case None => LooseItems
        case Some(parent) => if parent != "" then parent else LooseItems
  }

  /** A present, non-empty parent names the group; anything else falls back. */
  lemma ContainerKeyCases(item: Item)
    ensures (item.system.Some? && item.system.value.location.Some?
      && item.system.value.location.value.parent.Some?
      && item.system.value.location.value.parent.value != "")
      ==> ContainerKey(item) == item.system.value.location.value.parent.value
    ensures item.system.None? ==> ContainerKey(item) == LooseItems
    ensures item.system.Some? && item.system.value.location.None? ==> ContainerKey(item) == LooseItems
    ensures item.system.Some? && item.system.value.location == Some(Location(None))
      ==> ContainerKey(item) == LooseItems
    ensures item.system.Some? && item.system.value.location == Some(Location(Some("")))
      ==> ContainerKey(item) == LooseItems
  {
  }

  function InContainer(key: string): Item -> bool {
    (item: Item) => ContainerKey(item) == key
  }

  /** The items filed under `key`, in input order. */
  function Group(items: seq<Item>, key: string): seq<Item> {
    Filter(items, InContainer(key))
  }

  /** The group keys in the order they are first met. */
  function FirstSeen(items: seq<Item>): seq<string> {
    if items == [] then []
    else
      var keys := FirstSeen(items[..|items| - 1]);
      var k := ContainerKey(items[|items| - 1]);
      if k in keys then keys else keys + [k]
  }

  /** Every group is created once, and exactly the containers of the items get one. */
  lemma {:induction false} FirstSeenKeys(items: seq<Item>)
    ensures Distinct(FirstSeen(items))
    ensures forall k :: k in FirstSeen(items) <==> exists item :: item in items && ContainerKey(item) == k
  {
    if items != [] {
      var init, last := items[..|items| - 1], items[|items| - 1];
      FirstSeenKeys(init);
      assert items == init + [last];
      assert forall item :: item in items <==> item in init || item == last;
    }
  }

  /**
   * `groupItemsByContainer`: each item is pushed onto its container's group,
   * the group created the first time that container is met. `order` is the
   * order the groups were created in.
   */
  method GroupItemsByContainer(items: seq<Item>) returns (grouped: map<string, seq<Item>>, order: seq<string>)
    ensures order == FirstSeen(items)
    ensures forall k :: k in grouped <==> k in order
    ensures forall k :: k in grouped ==> grouped[k] == Group(items, k)
  {
    grouped := map[];
    order := [];
    var i := 0;
    while i < |items|
      invariant 0 <= i <= |items|
      invariant (grouped, order) == Grouping(items[..i])
    {
      var item := items[i];
      var container := ContainerKey(item);
      var group := if container in grouped then grouped[container] else [];
      if container !in grouped {
        order := order + [container];
      }
      grouped := grouped[container := group + [item]];
      assert items[..i + 1][..i] == items[..i];
      i := i + 1;
    }
    assert items[..|items|] == items;
    GroupingIsGrouped(items);
  }

  /** The grouping walk's state after `prefix`, one item at a time. */
  ghost function Grouping(prefix: seq<Item>): (map<string, seq<Item>>, seq<string>) {
    if prefix == [] then (map[], [])
    else
      var state := Grouping(prefix[..|prefix| - 1]);
      var item := prefix[|prefix| - 1];
      var key := ContainerKey(item);
      (state.0[key := (if key in state.0 then state.0[key] else []) + [item]],
       if key in state.0 then state.1 else state.1 + [key])
  }

  /** What the walk's state means: groups in first-met order, each its container's items. */
  ghost predicate Grouped(prefix: seq<Item>, grouped: map<string, seq<Item>>, order: seq<string>) {
    && order == FirstSeen(prefix)
    && (forall k :: k in grouped <==> k in order)
    && forall k :: k in grouped ==> grouped[k] == Group(prefix, k)
  }

  lemma {:induction false} GroupingIsGrouped(prefix: seq<Item>)
    ensures Grouped(prefix, Grouping(prefix).0, Grouping(prefix).1)
  {
    if prefix != [] {
      var init, item := prefix[..|prefix| - 1], prefix[|prefix| - 1];
      GroupingIsGrouped(init);
      assert prefix == init + [item];
      GroupStep(init, item, Grouping(init).0, Grouping(init).1, Grouping(prefix).0, Grouping(prefix).1);
    }
  }

  /** Pushing one more item keeps the walk's state. */
  lemma GroupStep(prefix: seq<Item>, item: Item, grouped: map<string, seq<Item>>, order: seq<string>,
                  grouped': map<string, seq<Item>>, order': seq<string>)
    requires Grouped(prefix, grouped, order)
    requires order' == if ContainerKey(item) in grouped then order else order + [ContainerKey(item)]
    requires grouped' == grouped[ContainerKey(item) :=
      (if ContainerKey(item) in grouped then grouped[ContainerKey(item)] else []) + [item]]
    ensures Grouped(prefix + [item], grouped', order')
  {
    var key := ContainerKey(item);
    FirstSeenSnoc(prefix, item);
    FirstSeenCovers(prefix);
    assert key in grouped <==> key in order;
    GroupBucketsNext(prefix, item, grouped, grouped');
  }

  lemma FirstSeenSnoc(prefix: seq<Item>, item: Item)
    ensures FirstSeen(prefix + [item]) == if ContainerKey(item) in FirstSeen(prefix)
      then FirstSeen(prefix) else FirstSeen(prefix) + [ContainerKey(item)]
  {
    assert (prefix + [item])[..|prefix|] == prefix;
  }

  lemma FirstSeenCovers(prefix: seq<Item>)
    ensures forall x :: x in prefix ==> ContainerKey(x) in FirstSeen(prefix)
  {
    FirstSeenKeys(prefix);
  }

  lemma GroupBucketsNext(prefix: seq<Item>, item: Item, grouped: map<string, seq<Item>>,
                         grouped': map<string, seq<Item>>)
    requires forall k :: k in grouped ==> grouped[k] == Group(prefix, k)
    requires forall x :: x in prefix ==> ContainerKey(x) in grouped
    requires grouped' == grouped[ContainerKey(item) :=
      (if ContainerKey(item) in grouped then grouped[ContainerKey(item)] else []) + [item]]
    ensures forall k :: k in grouped' ==> grouped'[k] == Group(prefix + [item], k)
  {
    forall k | k in grouped' ensures grouped'[k] == Group(prefix + [item], k) {
      GroupSnoc(prefix, item, k);
      if k == ContainerKey(item) && k !in grouped {
        FilterNone(prefix, InContainer(k));
      }
    }
  }

  lemma GroupSnoc(prefix: seq<Item>, item: Item, key: string)
    ensures Group(prefix + [item], key) == Group(prefix, key) + (if ContainerKey(item) == key then [item] else [])
  {
    FilterAppend(prefix, [item], InContainer(key));
    assert [item][1..] == [];
  }

  /** Every item lies in exactly one group: its own container's. */
  lemma ItemInOneGroup(items: seq<Item>, item: Item, key: string)
    requires item in items
    ensures item in Group(items, key) <==> key == ContainerKey(item)
    ensures ContainerKey(item) in FirstSeen(items)
  {
    FirstSeenKeys(items);
  }

  /** No group is empty. */
  lemma GroupNonEmpty(items: seq<Item>, key: string)
    requires key in FirstSeen(items)
    ensures Group(items, key) != []
  {
    FirstSeenKeys(items);
    var item :| item in items && ContainerKey(item) == key;
    assert item in Group(items, key);
  }

  /** The total size of the groups named by `keys`. */
  function GroupSizes(items: seq<Item>, keys: seq<string>): nat {
    if keys == [] then 0 else |Group(items, keys[0])| + GroupSizes(items, keys[1..])
  }

  /** Adding one item in front adds one to the groups of every key equal to its own. */
  lemma {:induction false} GroupSizesCons(item: Item, rest: seq<Item>, keys: seq<string>)
    ensures GroupSizes([item] + rest, keys)
      == GroupSizes(rest, keys) + multiset(keys)[ContainerKey(item)]
  {
    if keys != [] {
      GroupSizesCons(item, rest, keys[1..]);
      assert ([item] + rest)[1..] == rest;
      assert keys == [keys[0]] + keys[1..];
    }
  }

  /** Over distinct keys that cover every item, the group sizes add up to the item count. */
  lemma {:induction false} GroupSizesCover(items: seq<Item>, keys: seq<string>)
    requires Distinct(keys)
    requires forall item :: item in items ==> ContainerKey(item) in keys
    ensures GroupSizes(items, keys) == |items|
  {
    if items == [] {
      EmptyGroupSizes(keys);
    } else {
      var item, rest := items[0], items[1..];
      assert items == [item] + rest;
      GroupSizesCover(rest, keys);
      GroupSizesCons(item, rest, keys);
      DistinctCount(keys, ContainerKey(item));
    }
  }

  lemma {:induction false} EmptyGroupSizes(keys: seq<string>)
    ensures GroupSizes([], keys) == 0
  {
    if keys != [] {
      EmptyGroupSizes(keys[1..]);
    }
  }

  /** The groups `groupItemsByContainer` builds hold every item once: their sizes add up. */
  lemma GroupSizesSum(items: seq<Item>)
    ensures GroupSizes(items, FirstSeen(items)) == |items|
  {
    FirstSeenKeys(items);
    GroupSizesCover(items, FirstSeen(items));
  }

  /** `item.system?.quantity ?? 1`: one only when no quantity is given. */
  function DisplayQuantity(item: Item): (q: int)
    ensures item.system.Some? && item.system.value.quantity.Some? ==> q == item.system.value.quantity.value
    ensures item.system.None? || item.system.value.quantity.None? ==> q == 1
  {
    match item.system
    case None => 1
    case Some(system) =>
      match system.quantity
      case None => 1
      case Some(quantity) => quantity
  }

  /** A quantity of zero is shown as zero, not replaced by the default. */
  lemma ZeroQuantityKept(name: string, location: Option<Location>)
    ensures DisplayQuantity(Item(name, Some(ItemSystem(location, Some(0))))) == 0
  {
  }

  /** `[...stored, ...newChars]`: the stored characters, then the uploaded ones in file order. */
  function MergeUploads<T>(stored: seq<T>, newChars: seq<T>): (updated: seq<T>)
    ensures |updated| == |stored| + |newChars|
    ensures updated[..|stored|] == stored
    ensures updated[|stored|..] == newChars
  {
    stored + newChars
  }
}

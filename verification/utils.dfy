/** The grouping and error-merging helpers of `utils.js`.

    `groupByKey` collects items into a plain object keyed by a property of each
    item. A plain object enumerates its keys in JavaScript's own-property order:
    keys that are array indices (canonical numerals below 2^32 - 1) first, in
    ascending numeric order, then the other keys in insertion order. `Group`
    sequences here keep that order, so iterating the object is iterating the
    sequence.

    `mergeErrorsByRow` combines two error reports into one entry per row, keyed
    in a `Map` (which keeps insertion order). */
module Utils {
  import opened Wrappers
  import opened Strings
  import opened Json
  import opened Errors

  // ---------------------------------------------------------------------------
  // groupByKey
  // ---------------------------------------------------------------------------

  /** One property of a grouping object: its key and the array under it. */
  datatype Group<T> = Group(key: string, items: seq<T>)

  /** The array index a property key denotes, if it denotes one. */
  function ArrayIndex(k: string): Option<nat> {
    if Canonical(k) && DigitsValue(k) < 0xFFFF_FFFF then Some(DigitsValue(k)) else None
  }

  function Keys<T>(gs: seq<Group<T>>): set<string> {
    set i | 0 <= i < |gs| :: gs[i].key
  }

  ghost predicate DistinctKeys<T>(gs: seq<Group<T>>) {
    forall i, j :: 0 <= i < j < |gs| ==> gs[i].key != gs[j].key
  }

  /** Array-index keys come first and in ascending order. */
  ghost predicate PropertyOrdered<T>(gs: seq<Group<T>>) {
    forall i, j :: 0 <= i < j < |gs| && ArrayIndex(gs[j].key).Some? ==>
      ArrayIndex(gs[i].key).Some? && ArrayIndex(gs[i].key).value < ArrayIndex(gs[j].key).value
  }

  /** The items whose key is `k`, in their original order. */
  function Filter<T>(items: seq<T>, keyOf: T -> string, k: string): seq<T> {
    if |items| == 0 then []
    else
      var last := items[|items| - 1];
      Filter(items[..|items| - 1], keyOf, k) + (if keyOf(last) == k then [last] else [])
  }

  function KeySet<T>(items: seq<T>, keyOf: T -> string): set<string> {
    set i | 0 <= i < |items| :: keyOf(items[i])
  }

  /** Position of the group keyed `k`, if there is one. */
  function FindKey<T>(gs: seq<Group<T>>, k: string): (r: Option<nat>)
    ensures r.Some? ==> r.value < |gs| && gs[r.value].key == k
    ensures r.None? ==> k !in Keys(gs)
  {
    if |gs| == 0 then None
    else if gs[0].key == k then Some(0)
    else match FindKey(gs[1..], k)
      case None => None
      case Some(i) => Some(i + 1)
  }

  /** Where a new array-index key `n` goes: after every smaller array index. */
  function IndexSlot<T>(gs: seq<Group<T>>, n: nat): (p: nat)
    ensures p <= |gs|
    ensures forall i :: 0 <= i < p ==> ArrayIndex(gs[i].key).Some? && ArrayIndex(gs[i].key).value < n
    ensures p < |gs| ==> ArrayIndex(gs[p].key).None? || ArrayIndex(gs[p].key).value >= n
  {
    if |gs| > 0 && ArrayIndex(gs[0].key).Some? && ArrayIndex(gs[0].key).value < n then
      1 + IndexSlot(gs[1..], n)
    else 0
  }

  /** The items already under key `k`. */
  function ItemsAt<T>(gs: seq<Group<T>>, k: string): seq<T> {
    match FindKey(gs, k)
    case Some(i) => gs[i].items
    case None => []
  }

  /** `if (!acc[k]) acc[k] = []; acc[k].push(x)`: the item joins the group keyed
      `k`, which is created, in its own-property position, if it is new. */
  function AddToGroup<T>(gs: seq<Group<T>>, k: string, x: T): seq<Group<T>> {
    match FindKey(gs, k)
    case Some(i) => gs[i := Group(k, gs[i].items + [x])]
    case None =>
      var p := match ArrayIndex(k) case Some(n) => IndexSlot(gs, n) case None => |gs|;
      gs[..p] + [Group(k, [x])] + gs[p..]
  }

  /** Adding an item keeps the keys distinct and in own-property order, and changes
      only the group of the item's key. */
  lemma AddToGroupSpec<T>(gs: seq<Group<T>>, k: string, x: T)
    requires DistinctKeys(gs) && PropertyOrdered(gs)
    ensures var r := AddToGroup(gs, k, x);
      && DistinctKeys(r) && PropertyOrdered(r)
      && Keys(r) == Keys(gs) + {k}
      && (forall i :: 0 <= i < |r| && r[i].key != k ==> r[i] in gs)
      && (forall i :: 0 <= i < |r| && r[i].key == k ==> r[i].items == ItemsAt(gs, k) + [x])
  {
    var r := AddToGroup(gs, k, x);
    match FindKey(gs, k)
    case Some(i) =>
      UpdateKeepsOrder(gs, i, Group(k, gs[i].items + [x]));
    case None =>
      var p := match ArrayIndex(k) case Some(n) => IndexSlot(gs, n) case None => |gs|;
      InsertKeepsOrder(gs, p, Group(k, [x]));
  }

  lemma UpdateKeepsOrder<T>(gs: seq<Group<T>>, i: nat, g: Group<T>)
    requires i < |gs| && g.key == gs[i].key
    requires DistinctKeys(gs) && PropertyOrdered(gs)
    ensures var r := gs[i := g];
      && DistinctKeys(r) && PropertyOrdered(r) && Keys(r) == Keys(gs) + {g.key}
      && (forall j :: 0 <= j < |r| && r[j].key != g.key ==> r[j] in gs)
      && (forall j :: 0 <= j < |r| && r[j].key == g.key ==> r[j] == g)
  {
    var r := gs[i := g];
    assert forall j :: 0 <= j < |r| ==> r[j].key == gs[j].key;
    assert Keys(r) == Keys(gs) by {
      forall j | 0 <= j < |gs| ensures gs[j].key in Keys(r) {
        assert r[j].key == gs[j].key;
      }
    }
    forall j | 0 <= j < |r| && r[j].key != g.key ensures r[j] in gs {
      assert r[j] == gs[j];
    }
  }

  lemma ArrayIndexInjective(a: string, b: string)
    requires ArrayIndex(a).Some? && ArrayIndex(a) == ArrayIndex(b)
    ensures a == b
  {
    CanonicalRoundTrip(a);
    CanonicalRoundTrip(b);
  }

  /** Inserting a group whose key is new, at the slot its key's kind calls for,
      keeps the keys distinct and in own-property order. */
  lemma InsertKeepsOrder<T>(gs: seq<Group<T>>, p: nat, g: Group<T>)
    requires p <= |gs| && DistinctKeys(gs) && PropertyOrdered(gs) && g.key !in Keys(gs)
    requires ArrayIndex(g.key).None? ==> p == |gs|
    requires ArrayIndex(g.key).Some? ==>
      && (forall i :: 0 <= i < p ==>
            ArrayIndex(gs[i].key).Some? && ArrayIndex(gs[i].key).value < ArrayIndex(g.key).value)
      && (p < |gs| ==> ArrayIndex(gs[p].key).None? || ArrayIndex(gs[p].key).value >= ArrayIndex(g.key).value)
    ensures var r := gs[..p] + [g] + gs[p..];
      && DistinctKeys(r) && PropertyOrdered(r) && Keys(r) == Keys(gs) + {g.key}
      && (forall j :: 0 <= j < |r| && r[j].key != g.key ==> r[j] in gs)
      && (forall j :: 0 <= j < |r| && r[j].key == g.key ==> r[j] == g)
  {
    assert forall j :: 0 <= j < |gs| ==> gs[j].key != g.key by {
      forall j | 0 <= j < |gs| ensures gs[j].key != g.key {
        assert gs[j].key in Keys(gs);
      }
    }
    InsertKeys(gs, p, g);
    InsertOrdered(gs, p, g);
  }

  lemma InsertKeys<T>(gs: seq<Group<T>>, p: nat, g: Group<T>)
    requires p <= |gs| && DistinctKeys(gs)
    requires forall j :: 0 <= j < |gs| ==> gs[j].key != g.key
    ensures var r := gs[..p] + [g] + gs[p..];
      && DistinctKeys(r) && Keys(r) == Keys(gs) + {g.key}
      && (forall j :: 0 <= j < |r| && r[j].key != g.key ==> r[j] in gs)
      && (forall j :: 0 <= j < |r| && r[j].key == g.key ==> r[j] == g)
  {
    var r := gs[..p] + [g] + gs[p..];
    assert r[p] == g;
    assert forall j :: 0 <= j < p ==> r[j] == gs[j];
    assert forall j :: p < j < |r| ==> r[j] == gs[j - 1];
    assert Keys(r) == Keys(gs) + {g.key} by {
      forall j | 0 <= j < |gs| ensures gs[j].key in Keys(r) {
        assert r[if j < p then j else j + 1] == gs[j];
      }
    }
    forall a | 0 <= a < |r| && a != p ensures r[a] in gs {
      assert r[a] == gs[if a < p then a else a - 1];
    }
  }

  lemma InsertOrdered<T>(gs: seq<Group<T>>, p: nat, g: Group<T>)
    requires p <= |gs| && PropertyOrdered(gs)
    requires forall j :: 0 <= j < |gs| ==> gs[j].key != g.key
    requires ArrayIndex(g.key).None? ==> p == |gs|
    requires ArrayIndex(g.key).Some? ==>
      && (forall i :: 0 <= i < p ==>
            ArrayIndex(gs[i].key).Some? && ArrayIndex(gs[i].key).value < ArrayIndex(g.key).value)
      && (p < |gs| ==> ArrayIndex(gs[p].key).None? || ArrayIndex(gs[p].key).value >= ArrayIndex(g.key).value)
    ensures PropertyOrdered(gs[..p] + [g] + gs[p..])
  {
    var r := gs[..p] + [g] + gs[p..];
    assert r[p] == g;
    assert forall j :: 0 <= j < p ==> r[j] == gs[j];
    assert forall j :: p < j < |r| ==> r[j] == gs[j - 1];
    forall a, b | 0 <= a < b < |r| && ArrayIndex(r[b].key).Some?
      ensures ArrayIndex(r[a].key).Some? && ArrayIndex(r[a].key).value < ArrayIndex(r[b].key).value
    {
      if a == p {
        InsertedBeforeLater(gs, p, g, b - 1);
      } else if b == p {
      } else {
        var a' := if a < p then a else a - 1;
        var b' := if b < p then b else b - 1;
        assert r[a] == gs[a'] && r[b] == gs[b'] && a' < b';
      }
    }
  }

  lemma InsertedBeforeLater<T>(gs: seq<Group<T>>, p: nat, g: Group<T>, q: nat)
    requires p <= q < |gs| && PropertyOrdered(gs)
    requires forall j :: 0 <= j < |gs| ==> gs[j].key != g.key
    requires ArrayIndex(g.key).None? ==> p == |gs|
    requires ArrayIndex(g.key).Some? ==>
      ArrayIndex(gs[p].key).None? || ArrayIndex(gs[p].key).value >= ArrayIndex(g.key).value
    requires ArrayIndex(gs[q].key).Some?
    ensures ArrayIndex(g.key).Some? && ArrayIndex(g.key).value < ArrayIndex(gs[q].key).value
  {
    assert ArrayIndex(gs[p].key).Some?;
    if ArrayIndex(gs[p].key).value == ArrayIndex(g.key).value {
      ArrayIndexInjective(gs[p].key, g.key);
    }
  }

  /** `groupByKey(items, key)`, with `keyOf(item)` standing for the property key
      `String(item[key])`. */
  function GroupBy<T>(items: seq<T>, keyOf: T -> string): seq<Group<T>> {
    if |items| == 0 then []
    else AddToGroup(GroupBy(items[..|items| - 1], keyOf), keyOf(items[|items| - 1]), items[|items| - 1])
  }

  /** Every item is in the group of its key and in no other, each group keeps its
      items in their original relative order, no group is empty, and the groups
      come in own-property order. */
  lemma {:induction false} GroupBySpec<T>(items: seq<T>, keyOf: T -> string)
    ensures var r := GroupBy(items, keyOf);
      && DistinctKeys(r) && PropertyOrdered(r)
      && Keys(r) == KeySet(items, keyOf)
      && (forall i :: 0 <= i < |r| ==> r[i].items == Filter(items, keyOf, r[i].key))
      && (forall i :: 0 <= i < |r| ==> |r[i].items| > 0)
  {
    if |items| > 0 {
      GroupBySpec(items[..|items| - 1], keyOf);
      GroupStep(items, keyOf);
    }
  }

  lemma GroupStep<T>(items: seq<T>, keyOf: T -> string)
    requires |items| > 0
    requires var gs := GroupBy(items[..|items| - 1], keyOf);
      && DistinctKeys(gs) && PropertyOrdered(gs)
      && Keys(gs) == KeySet(items[..|items| - 1], keyOf)
      && (forall i :: 0 <= i < |gs| ==> gs[i].items == Filter(items[..|items| - 1], keyOf, gs[i].key))
      && (forall i :: 0 <= i < |gs| ==> |gs[i].items| > 0)
    ensures var r := GroupBy(items, keyOf);
      && DistinctKeys(r) && PropertyOrdered(r)
      && Keys(r) == KeySet(items, keyOf)
      && (forall i :: 0 <= i < |r| ==> r[i].items == Filter(items, keyOf, r[i].key))
      && (forall i :: 0 <= i < |r| ==> |r[i].items| > 0)
  {
    var r := GroupBy(items, keyOf);
    var prefix := items[..|items| - 1];
    var x := items[|items| - 1];
    var gs := GroupBy(prefix, keyOf);
    AddToGroupSpec(gs, keyOf(x), x);
    KeySetSnoc(items, keyOf);
    forall i | 0 <= i < |r|
      ensures r[i].items == Filter(items, keyOf, r[i].key) && |r[i].items| > 0
    {
      if r[i].key == keyOf(x) {
        match FindKey(gs, keyOf(x))
        case Some(j) =>
        case None =>
          FilterAbsent(prefix, keyOf, keyOf(x));
      } else {
        var j :| 0 <= j < |gs| && gs[j] == r[i];
      }
    }
  }

  lemma KeySetSnoc<T>(items: seq<T>, keyOf: T -> string)
    requires |items| > 0
    ensures KeySet(items, keyOf) == KeySet(items[..|items| - 1], keyOf) + {keyOf(items[|items| - 1])}
  {
    var prefix := items[..|items| - 1];
    forall i | 0 <= i < |prefix| ensures keyOf(prefix[i]) in KeySet(items, keyOf) {
      assert prefix[i] == items[i];
    }
    forall i | 0 <= i < |items|
      ensures keyOf(items[i]) in KeySet(prefix, keyOf) + {keyOf(items[|items| - 1])}
    {
      if i < |prefix| {
        assert prefix[i] == items[i];
      }
    }
  }

  lemma FilterAbsent<T>(items: seq<T>, keyOf: T -> string, k: string)
    requires k !in KeySet(items, keyOf)
    ensures Filter(items, keyOf, k) == []
  {
    if |items| > 0 {
      var prefix := items[..|items| - 1];
      assert KeySet(prefix, keyOf) <= KeySet(items, keyOf) by {
        forall i | 0 <= i < |prefix| ensures keyOf(prefix[i]) in KeySet(items, keyOf) {
          assert prefix[i] == items[i];
        }
      }
      FilterAbsent(prefix, keyOf, k);
    }
  }

  /** An item's group holds it: grouping loses nothing. */
  lemma GroupByCovers<T>(items: seq<T>, keyOf: T -> string, n: nat)
    requires n < |items|
    ensures exists i :: (0 <= i < |GroupBy(items, keyOf)| && GroupBy(items, keyOf)[i].key == keyOf(items[n])
                         && items[n] in GroupBy(items, keyOf)[i].items)
  {
    var r := GroupBy(items, keyOf);
    GroupBySpec(items, keyOf);
    assert keyOf(items[n]) in KeySet(items, keyOf);
    var i :| 0 <= i < |r| && r[i].key == keyOf(items[n]);
    FilterHas(items, keyOf, n);
  }

  lemma FilterHas<T>(items: seq<T>, keyOf: T -> string, n: nat)
    requires n < |items|
    ensures items[n] in Filter(items, keyOf, keyOf(items[n]))
  {
    var prefix := items[..|items| - 1];
    if n < |items| - 1 {
      assert prefix[n] == items[n];
      FilterHas(prefix, keyOf, n);
    }
  }

  /** The number of items over all groups. */
  function TotalSize<T>(gs: seq<Group<T>>): nat {
    if |gs| == 0 then 0 else TotalSize(gs[..|gs| - 1]) + |gs[|gs| - 1].items|
  }

  lemma {:induction false} TotalSizeAppend<T>(a: seq<Group<T>>, b: seq<Group<T>>)
    ensures TotalSize(a + b) == TotalSize(a) + TotalSize(b)
    decreases |b|
  {
    if |b| == 0 {
      assert a + b == a;
    } else {
      assert (a + b)[..|a + b| - 1] == a + b[..|b| - 1];
      TotalSizeAppend(a, b[..|b| - 1]);
    }
  }

  lemma TotalSizeSplit<T>(gs: seq<Group<T>>, i: nat)
    requires i < |gs|
    ensures TotalSize(gs) == TotalSize(gs[..i]) + |gs[i].items| + TotalSize(gs[i + 1..])
  {
    assert gs == gs[..i] + [gs[i]] + gs[i + 1..];
    TotalSizeAppend(gs[..i] + [gs[i]], gs[i + 1..]);
    TotalSizeAppend(gs[..i], [gs[i]]);
    assert ([] + [gs[i]])[..0] == [];
  }

  lemma TotalSizeUpdate<T>(gs: seq<Group<T>>, i: nat, g: Group<T>)
    requires i < |gs|
    ensures TotalSize(gs[i := g]) == TotalSize(gs) - |gs[i].items| + |g.items|
  {
    var r := gs[i := g];
    TotalSizeSplit(gs, i);
    TotalSizeSplit(r, i);
    assert r[..i] == gs[..i] && r[i + 1..] == gs[i + 1..];
  }

  lemma TotalSizeInsert<T>(gs: seq<Group<T>>, p: nat, g: Group<T>)
    requires p <= |gs|
    ensures TotalSize(gs[..p] + [g] + gs[p..]) == TotalSize(gs) + |g.items|
  {
    assert gs == gs[..p] + gs[p..];
    TotalSizeAppend(gs[..p], gs[p..]);
    TotalSizeAppend(gs[..p] + [g], gs[p..]);
    TotalSizeAppend(gs[..p], [g]);
    assert [g][..0] == [];
  }

  /** Grouping neither loses nor duplicates an item. */
  lemma {:induction false} GroupBySize<T>(items: seq<T>, keyOf: T -> string)
    ensures TotalSize(GroupBy(items, keyOf)) == |items|
    decreases |items|
  {
    if |items| > 0 {
      var gs := GroupBy(items[..|items| - 1], keyOf);
      var x := items[|items| - 1];
      var k := keyOf(x);
      GroupBySize(items[..|items| - 1], keyOf);
      assert GroupBy(items, keyOf) == AddToGroup(gs, k, x);
      match FindKey(gs, k)
      case Some(i) =>
        TotalSizeUpdate(gs, i, Group(k, gs[i].items + [x]));
      case None =>
        var p := match ArrayIndex(k) case Some(n) => IndexSlot(gs, n) case None => |gs|;
        TotalSizeInsert(gs, p, Group(k, [x]));
    }
  }

  /** `String(item[key])`: the property key `groupByKey` files an item under. */
  function PropertyKey(key: string): Object -> string {
    o => ToStr(Get(o, key))
  }

  /** `groupByKey(items, key)`: every item lands in exactly one group, the one
      keyed by `String(item[key])`; each group keeps its items in input order; no
      group is empty; no key repeats; and the groups come in own-property order. */
  function GroupByKey(items: seq<Object>, key: string): (r: seq<Group<Object>>)
    ensures DistinctKeys(r) && PropertyOrdered(r)
    ensures Keys(r) == set i | 0 <= i < |items| :: ToStr(Get(items[i], key))
    ensures forall i :: 0 <= i < |r| ==>
      |r[i].items| > 0 && r[i].items == Filter(items, PropertyKey(key), r[i].key)
  {
    GroupBySpec(items, PropertyKey(key));
    GroupBy(items, PropertyKey(key))
  }

  // ---------------------------------------------------------------------------
  // mergeErrorsByRow
  // ---------------------------------------------------------------------------

  /** Every entry of the report has an `errors` array. */
  predicate AllCarry(entries: seq<ErrorEntry>) {
    forall i :: 0 <= i < |entries| ==> CarriesErrors(entries[i])
  }

  /** Every entry is a `{ row, errors }` entry. */
  predicate AllRows(entries: seq<ErrorEntry>) {
    forall i :: 0 <= i < |entries| ==> entries[i].RowEntry?
  }

  /** All errors reported for `row`, in report order. */
  function ErrorsFor(entries: seq<ErrorEntry>, row: Value): seq<FieldError>
    requires AllCarry(entries)
  {
    if |entries| == 0 then []
    else
      var last := entries[|entries| - 1];
      ErrorsFor(entries[..|entries| - 1], row) + (if RowOf(last) == row then last.errors else [])
  }

  /** Index of the first entry for `row` (the length of the report if none). */
  function FirstAt(entries: seq<ErrorEntry>, row: Value): nat {
    if |entries| == 0 then 0
    else if RowOf(entries[0]) == row then 0
    else 1 + FirstAt(entries[1..], row)
  }

  /** Number of individual errors in a report. */
  function TotalErrors(entries: seq<ErrorEntry>): nat
    requires AllCarry(entries)
  {
    if |entries| == 0 then 0
    else TotalErrors(entries[..|entries| - 1]) + |entries[|entries| - 1].errors|
  }

  function FindRow(acc: seq<ErrorEntry>, row: Value): (r: Option<nat>)
    ensures r.Some? ==> r.value < |acc| && RowOf(acc[r.value]) == row
    ensures r.None? ==> forall i :: 0 <= i < |acc| ==> RowOf(acc[i]) != row
  {
    if |acc| == 0 then None
    else if RowOf(acc[0]) == row then Some(0)
    else match FindRow(acc[1..], row)
      case None => None
      case Some(i) => Some(i + 1)
  }

  /** Adds one entry's errors under its row: `Map` insertion order, so a new row
      goes last. */
  function AddRowErrors(acc: seq<ErrorEntry>, row: Value, errors: seq<FieldError>): (r: seq<ErrorEntry>)
    requires AllRows(acc)
    ensures AllRows(r)
  {
    match FindRow(acc, row)
    case Some(i) => acc[i := RowEntry(row, acc[i].errors + errors)]
    case None => acc + [RowEntry(row, errors)]
  }

  /** The `mergedMap` built by `addErrors` over a report, as its entries. */
  function MergeRows(entries: seq<ErrorEntry>): (r: seq<ErrorEntry>)
    requires AllCarry(entries)
    ensures AllRows(r)
  {
    if |entries| == 0 then []
    else
      var last := entries[|entries| - 1];
      AddRowErrors(MergeRows(entries[..|entries| - 1]), RowOf(last), last.errors)
  }

  /** Some merged entry is for `row`. */
  ghost predicate HasRow(merged: seq<ErrorEntry>, row: Value) {
    exists i :: 0 <= i < |merged| && RowOf(merged[i]) == row
  }

  /** One entry per distinct row, and every row of the report present. */
  ghost predicate SameRows(entries: seq<ErrorEntry>, merged: seq<ErrorEntry>) {
    && (forall i, j :: 0 <= i < j < |merged| ==> RowOf(merged[i]) != RowOf(merged[j]))
    && (forall k :: 0 <= k < |entries| ==> HasRow(merged, RowOf(entries[k])))
  }

  /** Each merged entry holds all of its row's errors, in report order. */
  ghost predicate AllErrorsOfRow(entries: seq<ErrorEntry>, merged: seq<ErrorEntry>)
    requires AllCarry(entries) && AllRows(merged)
  {
    forall i :: 0 <= i < |merged| ==> merged[i].errors == ErrorsFor(entries, RowOf(merged[i]))
  }

  /** Merged entries come in order of their row's first appearance in the report. */
  ghost predicate FirstAppearanceOrder(entries: seq<ErrorEntry>, merged: seq<ErrorEntry>) {
    && (forall i :: 0 <= i < |merged| ==> FirstAt(entries, RowOf(merged[i])) < |entries|)
    && (forall i, j :: 0 <= i < j < |merged| ==>
          FirstAt(entries, RowOf(merged[i])) < FirstAt(entries, RowOf(merged[j])))
  }

  /** `merged` is the merge of `entries`: one entry per distinct row, every row of
      the report present, each holding all of its row's errors in report order,
      in order of each row's first appearance, and no error lost or added. */
  ghost predicate Merged(entries: seq<ErrorEntry>, merged: seq<ErrorEntry>)
    requires AllCarry(entries) && AllRows(merged)
  {
    && SameRows(entries, merged)
    && AllErrorsOfRow(entries, merged)
    && FirstAppearanceOrder(entries, merged)
    && TotalErrors(merged) == TotalErrors(entries)
  }

  /** Merging a report gives its merge. */
  lemma {:induction false} MergeRowsSpec(entries: seq<ErrorEntry>)
    requires AllCarry(entries)
    ensures Merged(entries, MergeRows(entries))
  {
    if |entries| > 0 {
      var prefix := entries[..|entries| - 1];
      var last := entries[|entries| - 1];
      assert entries == prefix + [last];
      MergeRowsSpec(prefix);
      MergeStep(prefix, last, MergeRows(prefix));
    }
  }

  lemma MergeStep(prefix: seq<ErrorEntry>, last: ErrorEntry, acc: seq<ErrorEntry>)
    requires AllCarry(prefix) && CarriesErrors(last) && AllRows(acc)
    requires Merged(prefix, acc)
    ensures AllCarry(prefix + [last])
    ensures Merged(prefix + [last], AddRowErrors(acc, RowOf(last), last.errors))
  {
    var entries := prefix + [last];
    assert entries[..|prefix|] == prefix;
    match FindRow(acc, RowOf(last))
    case Some(i) => MergeExisting(prefix, last, acc, i);
    case None => MergeNew(prefix, last, acc);
  }

  lemma MergeExisting(prefix: seq<ErrorEntry>, last: ErrorEntry, acc: seq<ErrorEntry>, i: nat)
    requires AllCarry(prefix) && CarriesErrors(last) && AllRows(acc)
    requires AllCarry(prefix + [last]) && (prefix + [last])[..|prefix|] == prefix
    requires Merged(prefix, acc)
    requires i < |acc| && RowOf(acc[i]) == RowOf(last)
    ensures var r := acc[i := RowEntry(RowOf(last), acc[i].errors + last.errors)];
      AllRows(r) && Merged(prefix + [last], r)
  {
    var entries := prefix + [last];
    var r := acc[i := RowEntry(RowOf(last), acc[i].errors + last.errors)];
    assert TotalErrors(entries) == TotalErrors(prefix) + |last.errors|;
    ExistingRows(prefix, last, acc, i);
    ExistingErrors(prefix, last, acc, i);
    assert forall j :: 0 <= j < |r| ==> RowOf(r[j]) == RowOf(acc[j]);
    ExistingOrder(prefix, last, acc, r);
    TotalUpdate(acc, i, r[i]);
  }

  lemma MergeNew(prefix: seq<ErrorEntry>, last: ErrorEntry, acc: seq<ErrorEntry>)
    requires AllCarry(prefix) && CarriesErrors(last) && AllRows(acc)
    requires AllCarry(prefix + [last]) && (prefix + [last])[..|prefix|] == prefix
    requires Merged(prefix, acc)
    requires forall j :: 0 <= j < |acc| ==> RowOf(acc[j]) != RowOf(last)
    ensures var r := acc + [RowEntry(RowOf(last), last.errors)];
      AllRows(r) && Merged(prefix + [last], r)
  {
    var entries := prefix + [last];
    var r := acc + [RowEntry(RowOf(last), last.errors)];
    assert TotalErrors(entries) == TotalErrors(prefix) + |last.errors|;
    RowAbsent(prefix, acc, RowOf(last));
    FirstAtNone(prefix, last);
    ErrorsForAbsent(prefix, RowOf(last));
    NewRows(prefix, last, acc);
    NewErrors(prefix, last, acc);
    NewOrder(prefix, last, acc);
    assert r[..|r| - 1] == acc;
  }

  lemma ExistingOrder(prefix: seq<ErrorEntry>, last: ErrorEntry, acc: seq<ErrorEntry>, r: seq<ErrorEntry>)
    requires FirstAppearanceOrder(prefix, acc)
    requires |r| == |acc| && forall j :: 0 <= j < |r| ==> RowOf(r[j]) == RowOf(acc[j])
    ensures FirstAppearanceOrder(prefix + [last], r)
  {
    forall j | 0 <= j < |r|
      ensures FirstAt(prefix + [last], RowOf(r[j])) == FirstAt(prefix, RowOf(acc[j])) < |prefix|
    {
      FirstAtExtend(prefix, last, RowOf(acc[j]));
    }
  }

  lemma ExistingRows(prefix: seq<ErrorEntry>, last: ErrorEntry, acc: seq<ErrorEntry>, i: nat)
    requires CarriesErrors(last) && AllRows(acc)
    requires SameRows(prefix, acc)
    requires i < |acc| && RowOf(acc[i]) == RowOf(last)
    ensures SameRows(prefix + [last], acc[i := RowEntry(RowOf(last), acc[i].errors + last.errors)])
  {
    var entries := prefix + [last];
    var r := acc[i := RowEntry(RowOf(last), acc[i].errors + last.errors)];
    assert forall j :: 0 <= j < |r| ==> RowOf(r[j]) == RowOf(acc[j]);
    forall k | 0 <= k < |entries| ensures HasRow(r, RowOf(entries[k])) {
      if k < |prefix| {
        assert entries[k] == prefix[k];
        assert HasRow(acc, RowOf(prefix[k]));
        var j :| 0 <= j < |acc| && RowOf(acc[j]) == RowOf(prefix[k]);
        assert RowOf(r[j]) == RowOf(acc[j]);
      } else {
        assert RowOf(r[i]) == RowOf(entries[k]);
      }
    }
  }

  lemma ExistingErrors(prefix: seq<ErrorEntry>, last: ErrorEntry, acc: seq<ErrorEntry>, i: nat)
    requires AllCarry(prefix) && CarriesErrors(last) && AllRows(acc)
    requires AllCarry(prefix + [last]) && (prefix + [last])[..|prefix|] == prefix
    requires AllErrorsOfRow(prefix, acc)
    requires forall a, b :: 0 <= a < b < |acc| ==> RowOf(acc[a]) != RowOf(acc[b])
    requires i < |acc| && RowOf(acc[i]) == RowOf(last)
    ensures var r := acc[i := RowEntry(RowOf(last), acc[i].errors + last.errors)];
      AllRows(r) && AllErrorsOfRow(prefix + [last], r)
  {
    var entries := prefix + [last];
    var r := acc[i := RowEntry(RowOf(last), acc[i].errors + last.errors)];
    forall j | 0 <= j < |r| ensures r[j].errors == ErrorsFor(entries, RowOf(r[j])) {
      if j != i {
        assert RowOf(acc[j]) != RowOf(last);
        assert r[j] == acc[j];
      }
    }
  }

  lemma NewRows(prefix: seq<ErrorEntry>, last: ErrorEntry, acc: seq<ErrorEntry>)
    requires CarriesErrors(last)
    requires SameRows(prefix, acc)
    requires forall j :: 0 <= j < |acc| ==> RowOf(acc[j]) != RowOf(last)
    ensures SameRows(prefix + [last], acc + [RowEntry(RowOf(last), last.errors)])
  {
    var entries := prefix + [last];
    var r := acc + [RowEntry(RowOf(last), last.errors)];
    assert forall j :: 0 <= j < |acc| ==> r[j] == acc[j];
    forall k | 0 <= k < |entries| ensures HasRow(r, RowOf(entries[k])) {
      if k < |prefix| {
        assert entries[k] == prefix[k];
        assert HasRow(acc, RowOf(prefix[k]));
        var j :| 0 <= j < |acc| && RowOf(acc[j]) == RowOf(prefix[k]);
        assert RowOf(r[j]) == RowOf(acc[j]);
      } else {
        assert RowOf(r[|acc|]) == RowOf(entries[k]);
      }
    }
  }

  lemma NewErrors(prefix: seq<ErrorEntry>, last: ErrorEntry, acc: seq<ErrorEntry>)
    requires AllCarry(prefix) && CarriesErrors(last) && AllRows(acc)
    requires AllCarry(prefix + [last]) && (prefix + [last])[..|prefix|] == prefix
    requires AllErrorsOfRow(prefix, acc)
    requires forall j :: 0 <= j < |acc| ==> RowOf(acc[j]) != RowOf(last)
    requires ErrorsFor(prefix, RowOf(last)) == []
    ensures var r := acc + [RowEntry(RowOf(last), last.errors)];
      AllRows(r) && AllErrorsOfRow(prefix + [last], r)
  {
    var entries := prefix + [last];
    var r := acc + [RowEntry(RowOf(last), last.errors)];
    forall j | 0 <= j < |r| ensures r[j].errors == ErrorsFor(entries, RowOf(r[j])) {
      if j < |acc| {
        assert r[j] == acc[j];
      }
    }
  }

  lemma NewOrder(prefix: seq<ErrorEntry>, last: ErrorEntry, acc: seq<ErrorEntry>)
    requires CarriesErrors(last)
    requires FirstAppearanceOrder(prefix, acc)
    requires FirstAt(prefix + [last], RowOf(last)) == |prefix|
    ensures FirstAppearanceOrder(prefix + [last], acc + [RowEntry(RowOf(last), last.errors)])
  {
    var r := acc + [RowEntry(RowOf(last), last.errors)];
    forall j | 0 <= j < |acc|
      ensures FirstAt(prefix + [last], RowOf(r[j])) == FirstAt(prefix, RowOf(acc[j])) < |prefix|
    {
      assert r[j] == acc[j];
      FirstAtExtend(prefix, last, RowOf(acc[j]));
    }
  }

  /** The first entry of a row that already occurs keeps its position when the
      report grows. */
  lemma FirstAtExtend(prefix: seq<ErrorEntry>, last: ErrorEntry, row: Value)
    requires FirstAt(prefix, row) < |prefix|
    ensures FirstAt(prefix + [last], row) == FirstAt(prefix, row)
  {
    if RowOf(prefix[0]) != row {
      FirstAtExtend(prefix[1..], last, row);
      assert (prefix + [last])[1..] == prefix[1..] + [last];
    }
  }

  /** A row the merge does not hold occurs nowhere in a report it covers. */
  lemma RowAbsent(prefix: seq<ErrorEntry>, acc: seq<ErrorEntry>, row: Value)
    requires forall k :: 0 <= k < |prefix| ==> HasRow(acc, RowOf(prefix[k]))
    requires forall i :: 0 <= i < |acc| ==> RowOf(acc[i]) != row
    ensures forall k :: 0 <= k < |prefix| ==> RowOf(prefix[k]) != row
  {
    forall k | 0 <= k < |prefix| ensures RowOf(prefix[k]) != row {
      assert HasRow(acc, RowOf(prefix[k]));
      var i :| 0 <= i < |acc| && RowOf(acc[i]) == RowOf(prefix[k]);
    }
  }

  lemma FirstAtNone(prefix: seq<ErrorEntry>, last: ErrorEntry)
    requires forall k :: 0 <= k < |prefix| ==> RowOf(prefix[k]) != RowOf(last)
    ensures FirstAt(prefix + [last], RowOf(last)) == |prefix|
  {
    if |prefix| > 0 {
      assert (prefix + [last])[1..] == prefix[1..] + [last];
      FirstAtNone(prefix[1..], last);
    }
  }

  lemma ErrorsForAbsent(prefix: seq<ErrorEntry>, row: Value)
    requires AllCarry(prefix)
    requires forall k :: 0 <= k < |prefix| ==> RowOf(prefix[k]) != row
    ensures ErrorsFor(prefix, row) == []
  {
    if |prefix| > 0 {
      var p := prefix[..|prefix| - 1];
      assert forall k :: 0 <= k < |p| ==> p[k] == prefix[k];
      ErrorsForAbsent(p, row);
    }
  }

  lemma TotalUpdate(acc: seq<ErrorEntry>, i: nat, e: ErrorEntry)
    requires i < |acc| && AllCarry(acc) && CarriesErrors(e)
    ensures AllCarry(acc[i := e])
    ensures TotalErrors(acc[i := e]) + |acc[i].errors| == TotalErrors(acc) + |e.errors|
  {
    var r := acc[i := e];
    if i < |acc| - 1 {
      assert r[..|r| - 1] == acc[..|acc| - 1][i := e];
      TotalUpdate(acc[..|acc| - 1], i, e);
    } else {
      assert r[..|r| - 1] == acc[..|acc| - 1];
    }
  }

  /** The errors of a row in two reports put together: those of the first report,
      then those of the second. */
  lemma ErrorsForAppend(s1: seq<ErrorEntry>, s2: seq<ErrorEntry>, row: Value)
    requires AllCarry(s1) && AllCarry(s2)
    ensures AllCarry(s1 + s2)
    ensures ErrorsFor(s1 + s2, row) == ErrorsFor(s1, row) + ErrorsFor(s2, row)
    decreases |s2|
  {
    if |s2| > 0 {
      var p := s2[..|s2| - 1];
      assert (s1 + s2)[..|s1 + s2| - 1] == s1 + p;
      ErrorsForAppend(s1, p, row);
    } else {
      assert s1 + s2 == s1;
    }
  }

  lemma TotalAppend(s1: seq<ErrorEntry>, s2: seq<ErrorEntry>)
    requires AllCarry(s1) && AllCarry(s2)
    ensures AllCarry(s1 + s2)
    ensures TotalErrors(s1 + s2) == TotalErrors(s1) + TotalErrors(s2)
    decreases |s2|
  {
    if |s2| > 0 {
      var p := s2[..|s2| - 1];
      assert (s1 + s2)[..|s1 + s2| - 1] == s1 + p;
      TotalAppend(s1, p);
    } else {
      assert s1 + s2 == s1;
    }
  }

  const NotIterable := Errors.Error("TypeError", "item.errors is not iterable", None)

  /** `mergeErrorsByRow(set1, set2)`. An empty set leaves the other unchanged.
      Otherwise the result has one entry per row, in order of first appearance
      across `set1` then `set2`, each holding `set1`'s errors for the row followed
      by `set2`'s, so no error is lost; but an entry without an `errors` array
      makes the spread throw. */
  function MergeErrorsByRow(set1: seq<ErrorEntry>, set2: seq<ErrorEntry>): (r: Result<seq<ErrorEntry>, Thrown>)
    ensures |set1| == 0 ==> r == Ok(set2)
    ensures |set1| > 0 && |set2| == 0 ==> r == Ok(set1)
    ensures |set1| > 0 && |set2| > 0 ==> (r.Err? <==> !AllCarry(set1 + set2))
    ensures r.Err? ==> r.error == NotIterable
    ensures |set1| > 0 && |set2| > 0 && r.Ok? ==>
      var all := set1 + set2;
      var m := r.value;
      && AllCarry(set1) && AllCarry(set2) && AllRows(m)
      && (forall i, j :: 0 <= i < j < |m| ==> RowOf(m[i]) != RowOf(m[j]))
      && (forall k :: 0 <= k < |all| ==> HasRow(m, RowOf(all[k])))
      && (forall i :: 0 <= i < |m| ==>
            m[i].errors == ErrorsFor(set1, RowOf(m[i])) + ErrorsFor(set2, RowOf(m[i])))
      && (forall i, j :: 0 <= i < j < |m| ==> FirstAt(all, RowOf(m[i])) < FirstAt(all, RowOf(m[j])))
      && TotalErrors(m) == TotalErrors(set1) + TotalErrors(set2)
  {
    if |set1| == 0 then Ok(set2)
    else if |set2| == 0 then Ok(set1)
    else if !AllCarry(set1 + set2) then Err(NotIterable)
    else
      MergeFacts(set1, set2);
      Ok(MergeRows(set1 + set2))
  }

  lemma MergeFacts(set1: seq<ErrorEntry>, set2: seq<ErrorEntry>)
    requires AllCarry(set1 + set2)
    ensures AllCarry(set1) && AllCarry(set2)
    ensures var all := set1 + set2;
      var m := MergeRows(all);
      && (forall i, j :: 0 <= i < j < |m| ==> RowOf(m[i]) != RowOf(m[j]))
      && (forall k :: 0 <= k < |all| ==> HasRow(m, RowOf(all[k])))
      && (forall i :: 0 <= i < |m| ==>
            m[i].errors == ErrorsFor(set1, RowOf(m[i])) + ErrorsFor(set2, RowOf(m[i])))
      && (forall i, j :: 0 <= i < j < |m| ==> FirstAt(all, RowOf(m[i])) < FirstAt(all, RowOf(m[j])))
      && TotalErrors(m) == TotalErrors(set1) + TotalErrors(set2)
  {
    var all := set1 + set2;
    assert forall k :: 0 <= k < |set1| ==> set1[k] == all[k];
    assert forall k :: 0 <= k < |set2| ==> set2[k] == all[|set1| + k];
    var m := MergeRows(all);
    MergeRowsSpec(all);
    forall i | 0 <= i < |m|
      ensures m[i].errors == ErrorsFor(set1, RowOf(m[i])) + ErrorsFor(set2, RowOf(m[i]))
    {
      ErrorsForAppend(set1, set2, RowOf(m[i]));
    }
    TotalAppend(set1, set2);
  }

  /** Concatenation regroups freely. */
  lemma ConcatAssociates<T>(x: seq<T>, y: seq<T>, z: seq<T>)
    ensures x + y + z == x + (y + z)
  {
  }
}

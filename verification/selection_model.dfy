/**
 * The selection model: an insertion-ordered map from `identifyBy(item)` to
 * the item, built on an event bus. Every mutating operation returns the
 * `change` events it emitted and the listener calls they caused, so that the
 * sequence of events can be stated.
 */
module SelectionModel {
  import opened Wrappers
  import Decimal
  import EventBus

  /** The payload of a `change` event. */
  datatype Change<T> = Change(added: seq<T>, removed: seq<T>)

  /** The selected items under their keys, in the order the keys were first selected. */
  type Selection<K, T> = seq<(K, T)>

  const ChangeEvent: EventBus.EventName := "change"

  datatype Model<K, !T> = Model(identify: T -> K, selected: Selection<K, T>, bus: EventBus.Bus)

  /** The model after an operation, the changes it emitted and the listener calls they made. */
  datatype Step<K, !T> = Step(model: Model<K, T>, changes: seq<Change<T>>, calls: seq<EventBus.Invocation<Change<T>>>)

  datatype Created<K, !T> = Created(counters: EventBus.Counters, modelCount: nat, model: Model<K, T>)

  datatype Subscribed<K, !T> = Subscribed(counters: EventBus.Counters, model: Model<K, T>, id: nat)

  // ---------------------------------------------------------------------------
  // The selection as an ordered map

  function Keys<K(==), T>(s: Selection<K, T>): set<K>
  {
    set i | 0 <= i < |s| :: s[i].0
  }

  /** The keys of a list of items. */
  function KeysOf<K(==), T>(key: T -> K, items: seq<T>): set<K>
  {
    set i | 0 <= i < |items| :: key(items[i])
  }

  lemma KeysCons<K, T>(s: Selection<K, T>)
    requires |s| > 0
    ensures Keys(s) == {s[0].0} + Keys(s[1..])
  {
    forall k | k in Keys(s) && k != s[0].0
      ensures k in Keys(s[1..])
    {
      var i :| 0 <= i < |s| && s[i].0 == k;
      assert s[1..][i - 1] == s[i];
    }
    forall k | k in Keys(s[1..])
      ensures k in Keys(s)
    {
      var i :| 0 <= i < |s[1..]| && s[1..][i].0 == k;
      assert s[i + 1] == s[1..][i];
    }
  }

  lemma KeysAppend<K, T>(a: Selection<K, T>, b: Selection<K, T>)
    ensures Keys(a + b) == Keys(a) + Keys(b)
  {
    forall k | k in Keys(a + b)
      ensures k in Keys(a) + Keys(b)
    {
      var i :| 0 <= i < |a + b| && (a + b)[i].0 == k;
      if i >= |a| {
        assert b[i - |a|] == (a + b)[i];
      } else {
        assert a[i] == (a + b)[i];
      }
    }
    forall k | k in Keys(b)
      ensures k in Keys(a + b)
    {
      var i :| 0 <= i < |b| && b[i].0 == k;
      assert (a + b)[|a| + i] == b[i];
    }
    forall k | k in Keys(a)
      ensures k in Keys(a + b)
    {
      var i :| 0 <= i < |a| && a[i].0 == k;
      assert (a + b)[i] == a[i];
    }
  }

  lemma KeysOfCons<K, T>(key: T -> K, items: seq<T>)
    requires |items| > 0
    ensures KeysOf(key, items) == {key(items[0])} + KeysOf(key, items[1..])
  {
    forall k | k in KeysOf(key, items) && k != key(items[0])
      ensures k in KeysOf(key, items[1..])
    {
      var i :| 0 <= i < |items| && key(items[i]) == k;
      assert items[1..][i - 1] == items[i];
    }
    forall k | k in KeysOf(key, items[1..])
      ensures k in KeysOf(key, items)
    {
      var i :| 0 <= i < |items[1..]| && key(items[1..][i]) == k;
      assert items[i + 1] == items[1..][i];
    }
  }

  lemma KeysPush<K, T>(s: Selection<K, T>, p: (K, T))
    ensures Keys(s + [p]) == Keys(s) + {p.0}
  {
    KeysAppend(s, [p]);
    KeysCons([p]);
    assert [p][1..] == [];
  }

  /** The stored items, in order. */
  function Items<K(==), T>(s: Selection<K, T>): (r: seq<T>)
    ensures |r| == |s|
    ensures forall i :: 0 <= i < |s| ==> r[i] == s[i].1
  {
    seq(|s|, i requires 0 <= i < |s| => s[i].1)
  }

  ghost predicate DistinctKeys<K, T>(s: Selection<K, T>)
  {
    forall i, j :: 0 <= i < j < |s| ==> s[i].0 != s[j].0
  }

  /** The map the selection stands for (the source keeps a JavaScript `Map`). */
  function AsMap<K(==), T>(s: Selection<K, T>): (m: map<K, T>)
    ensures m.Keys == Keys(s)
  {
    if |s| == 0 then map[]
    else
      KeysCons(s);
      AsMap(s[1..])[s[0].0 := s[0].1]
  }

  /** Entries for items stored under their own keys. */
  function Entries<K(==), T>(key: T -> K, items: seq<T>): (r: Selection<K, T>)
    ensures |r| == |items|
    ensures forall i :: 0 <= i < |items| ==> r[i] == (key(items[i]), items[i])
  {
    seq(|items|, i requires 0 <= i < |items| => (key(items[i]), items[i]))
  }

  /**
   * `Map.set(k, v)`: an existing key keeps its position and gets the new value;
   * a new key is appended.
   */
  function Put<K(==), T>(s: Selection<K, T>, k: K, v: T): (r: Selection<K, T>)
    ensures Keys(r) == Keys(s) + {k}
    ensures k !in Keys(s) ==> r == s + [(k, v)]
    ensures k in Keys(s) ==> |r| == |s|
  {
    if |s| == 0 then
      KeysPush(s, (k, v));
      assert s + [(k, v)] == [(k, v)];
      [(k, v)]
    else if s[0].0 == k then
      assert ([(k, v)] + s[1..])[1..] == s[1..];
      KeysCons(s);
      KeysCons([(k, v)] + s[1..]);
      assert k in Keys(s);
      [(k, v)] + s[1..]
    else
      var rest := Put(s[1..], k, v);
      assert ([s[0]] + rest)[1..] == rest;
      KeysCons(s);
      KeysCons([s[0]] + rest);
      [s[0]] + rest
  }

  /** The entries whose key is not in `ks`, in their order (`Map.delete` for each key of `ks`). */
  function Without<K(==), T>(s: Selection<K, T>, ks: set<K>): (r: Selection<K, T>)
    ensures |r| <= |s|
    ensures forall i :: 0 <= i < |r| ==> r[i].0 !in ks
    ensures Keys(r) == Keys(s) - ks
    ensures Keys(s) !! ks ==> r == s
  {
    if |s| == 0 then []
    else
      var rest := Without(s[1..], ks);
      KeysCons(s);
      if s[0].0 in ks then rest
      else
        assert ([s[0]] + rest)[1..] == rest;
        KeysCons([s[0]] + rest);
        [s[0]] + rest
  }

  // ---------------------------------------------------------------------------
  // Facts about the ordered map

  /** Dropping keys from the selection drops them from the map it stands for. */
  lemma {:induction false} WithoutAsMap<K, T>(s: Selection<K, T>, ks: set<K>)
    ensures AsMap(Without(s, ks)) == AsMap(s) - ks
  {
    if |s| > 0 {
      WithoutAsMap(s[1..], ks);
    }
  }

  /** Distinct keys make the selection exactly as long as the map has entries. */
  lemma {:induction false} SizeOfMap<K, T>(s: Selection<K, T>)
    ensures DistinctKeys(s) ==> |AsMap(s)| == |s|
  {
    if |s| > 0 && DistinctKeys(s) {
      SizeOfMap(s[1..]);
      forall j | 0 <= j < |s[1..]|
        ensures s[1..][j].0 != s[0].0
      {
        assert s[1..][j] == s[j + 1];
      }
    }
  }

  /** `Put` is `Map.set` on the map the selection stands for. */
  lemma {:induction false} PutAsMap<K, T>(s: Selection<K, T>, k: K, v: T)
    ensures AsMap(Put(s, k, v)) == AsMap(s)[k := v]
  {
    if |s| > 0 {
      var r := Put(s, k, v);
      if s[0].0 == k {
        assert r == [(k, v)] + s[1..];
        assert r[1..] == s[1..];
      } else {
        PutAsMap(s[1..], k, v);
        assert r[1..] == Put(s[1..], k, v);
      }
    }
  }

  /** Under distinct keys, `Put` on a present key replaces that entry in place and touches no other. */
  lemma {:induction false} PutInPlace<K, T>(s: Selection<K, T>, k: K, v: T)
    ensures DistinctKeys(s) && k in Keys(s) ==>
              forall i :: 0 <= i < |s| ==> Put(s, k, v)[i] == (if s[i].0 == k then (k, v) else s[i])
  {
    if |s| > 0 && DistinctKeys(s) && k in Keys(s) {
      if s[0].0 == k {
        forall i | 0 < i < |s|
          ensures s[i].0 != k
        {
        }
      } else {
        PutInPlace(s[1..], k, v);
        KeysCons(s);
      }
    }
  }

  /** `Put` keeps the keys distinct. */
  lemma {:induction false} PutDistinct<K, T>(s: Selection<K, T>, k: K, v: T)
    ensures DistinctKeys(s) ==> DistinctKeys(Put(s, k, v))
  {
    if |s| > 0 && DistinctKeys(s) {
      if s[0].0 == k {
        assert Put(s, k, v)[1..] == s[1..];
        HeadKeyFresh(s);
        ConsDistinct((k, v), s[1..]);
      } else {
        PutDistinct(s[1..], k, v);
        HeadKeyFresh(s);
        ConsDistinct(s[0], Put(s[1..], k, v));
      }
    }
  }

  /** An entry whose key is new can go in front of a selection with distinct keys. */
  lemma ConsDistinct<K, T>(x: (K, T), s: Selection<K, T>)
    ensures DistinctKeys(s) && x.0 !in Keys(s) ==> DistinctKeys([x] + s)
  {
    if DistinctKeys(s) && x.0 !in Keys(s) {
      forall i, j | 0 <= i < j < |[x] + s|
        ensures ([x] + s)[i].0 != ([x] + s)[j].0
      {
        assert ([x] + s)[j] == s[j - 1];
        if i == 0 {
          assert s[j - 1].0 in Keys(s);
        } else {
          assert ([x] + s)[i] == s[i - 1];
        }
      }
    }
  }

  /** Appending entries with new, distinct keys keeps the keys distinct. */
  lemma AppendDistinct<K, T>(s: Selection<K, T>, k: K, v: T)
    requires DistinctKeys(s) && k !in Keys(s)
    ensures DistinctKeys(s + [(k, v)])
  {
    forall i | 0 <= i < |s|
      ensures s[i].0 != k
    {
      assert s[i].0 in Keys(s);
    }
  }

  /** Under distinct keys the first key does not occur again. */
  lemma HeadKeyFresh<K, T>(s: Selection<K, T>)
    requires |s| > 0
    ensures DistinctKeys(s) ==> s[0].0 !in Keys(s[1..])
  {
    forall j | 0 <= j < |s[1..]|
      ensures DistinctKeys(s) ==> s[1..][j].0 != s[0].0
    {
      assert s[1..][j] == s[j + 1];
    }
  }

  /** `Without` keeps exactly the entries whose key is not dropped. */
  lemma {:induction false} WithoutMembers<K, T>(s: Selection<K, T>, ks: set<K>)
    ensures forall e :: e in Without(s, ks) <==> e in s && e.0 !in ks
  {
    if |s| > 0 {
      WithoutMembers(s[1..], ks);
      assert forall e :: e in s <==> e == s[0] || e in s[1..];
    }
  }

  lemma {:induction false} WithoutDistinct<K, T>(s: Selection<K, T>, ks: set<K>)
    ensures DistinctKeys(s) ==> DistinctKeys(Without(s, ks))
  {
    if |s| > 0 && DistinctKeys(s) {
      WithoutDistinct(s[1..], ks);
      HeadKeyFresh(s);
      ConsDistinct(s[0], Without(s[1..], ks));
    }
  }

  /** Filtering distributes over concatenation, so `Without` keeps the order of what it keeps. */
  lemma {:induction false} WithoutAppend<K, T>(a: Selection<K, T>, b: Selection<K, T>, ks: set<K>)
    ensures Without(a + b, ks) == Without(a, ks) + Without(b, ks)
  {
    if |a| == 0 {
      assert a + b == b;
    } else {
      assert (a + b)[0] == a[0];
      assert (a + b)[1..] == a[1..] + b;
      WithoutAppend(a[1..], b, ks);
    }
  }

  lemma {:induction false} WithoutWithout<K, T>(s: Selection<K, T>, a: set<K>, b: set<K>)
    ensures Without(Without(s, a), b) == Without(s, a + b)
  {
    if |s| > 0 {
      WithoutWithout(s[1..], a, b);
      if s[0].0 !in a {
        assert Without(s, a)[0] == s[0];
        assert Without(s, a)[1..] == Without(s[1..], a);
      }
    }
  }

  lemma {:induction false} WithoutMissingKey<K, T>(s: Selection<K, T>, ks: set<K>, k: K)
    requires k !in Keys(s)
    ensures Without(s, ks + {k}) == Without(s, ks)
  {
    if |s| > 0 {
      KeysCons(s);
      WithoutMissingKey(s[1..], ks, k);
    }
  }

  lemma {:induction false} WithoutPut<K, T>(s: Selection<K, T>, k: K, v: T)
    ensures Without(Put(s, k, v), {k}) == Without(s, {k})
  {
    if |s| > 0 && s[0].0 != k {
      var rest := Put(s[1..], k, v);
      assert Put(s, k, v) == [s[0]] + rest;
      assert ([s[0]] + rest)[1..] == rest;
      WithoutPut(s[1..], k, v);
    } else if |s| > 0 {
      assert Put(s, k, v) == [(k, v)] + s[1..];
      assert ([(k, v)] + s[1..])[1..] == s[1..];
    }
  }

  // ---------------------------------------------------------------------------
  // Reference definitions of the bulk operations

  /**
   * The items of `items` whose key is (`inSelection`) or is not (`!inSelection`)
   * among `selectedKeys`, each kept only at the first position its key occurs.
   * Defined from the last item backwards, independently of the left-to-right
   * loops of the source.
   */
  ghost function FirstOf<K, T>(key: T -> K, items: seq<T>, selectedKeys: set<K>, inSelection: bool): seq<T>
    decreases |items|
  {
    if |items| == 0 then []
    else
      var init := items[..|items| - 1];
      FirstOf(key, init, selectedKeys, inSelection) + Kept(key, items[|items| - 1], init, selectedKeys, inSelection)
  }

  /** `[x]` when `x` is reported after the items `earlier`, otherwise nothing. */
  ghost function Kept<K, T>(key: T -> K, x: T, earlier: seq<T>, selectedKeys: set<K>, inSelection: bool): seq<T>
  {
    if (key(x) in selectedKeys) == inSelection && key(x) !in KeysOf(key, earlier) then [x] else []
  }

  /** The keys still to be found after the first item has been handled. */
  function AfterFirst<K>(selectedKeys: set<K>, k: K, inSelection: bool): set<K>
  {
    if inSelection then selectedKeys - {k} else selectedKeys + {k}
  }

  /** Whether a later item is reported does not change when the first item is moved into the key set. */
  lemma KeptAfterFirst<K, T>(key: T -> K, x: T, y: T, init: seq<T>, selectedKeys: set<K>, inSelection: bool)
    ensures Kept(key, y, [x] + init, selectedKeys, inSelection)
            == Kept(key, y, init, AfterFirst(selectedKeys, key(x), inSelection), inSelection)
  {
    assert ([x] + init)[1..] == init;
    KeysOfCons(key, [x] + init);
  }

  /** Peeling the first item off `FirstOf`: the left-to-right reading of the definition. */
  lemma {:induction false} FirstOfCons<K, T>(key: T -> K, x: T, rest: seq<T>, selectedKeys: set<K>, inSelection: bool)
    ensures FirstOf(key, [x] + rest, selectedKeys, inSelection)
            == (if (key(x) in selectedKeys) == inSelection then [x] else [])
               + FirstOf(key, rest, AfterFirst(selectedKeys, key(x), inSelection), inSelection)
    decreases |rest|
  {
    var head := if (key(x) in selectedKeys) == inSelection then [x] else [];
    var next := AfterFirst(selectedKeys, key(x), inSelection);
    if |rest| == 0 {
      FirstOfSingle(key, x, selectedKeys, inSelection);
    } else {
      var init := rest[..|rest| - 1];
      var y := rest[|rest| - 1];
      var whole := [x] + rest;
      assert whole[..|whole| - 1] == [x] + init;
      assert whole[|whole| - 1] == y;
      FirstOfLast(key, whole, selectedKeys, inSelection);
      FirstOfLast(key, rest, next, inSelection);
      FirstOfCons(key, x, init, selectedKeys, inSelection);
      KeptAfterFirst(key, x, y, init, selectedKeys, inSelection);
      var tail := Kept(key, y, init, next, inSelection);
      assert (head + FirstOf(key, init, next, inSelection)) + tail
             == head + (FirstOf(key, init, next, inSelection) + tail);
    }
  }

  lemma FirstOfSingle<K, T>(key: T -> K, x: T, selectedKeys: set<K>, inSelection: bool)
    ensures FirstOf(key, [x], selectedKeys, inSelection)
            == if (key(x) in selectedKeys) == inSelection then [x] else []
  {
    assert [x][..0] == [];
    assert KeysOf(key, []) == {};
  }

  /** The definition of `FirstOf`, one step from the back. */
  lemma FirstOfLast<K, T>(key: T -> K, items: seq<T>, selectedKeys: set<K>, inSelection: bool)
    requires |items| > 0
    ensures FirstOf(key, items, selectedKeys, inSelection)
            == FirstOf(key, items[..|items| - 1], selectedKeys, inSelection)
               + Kept(key, items[|items| - 1], items[..|items| - 1], selectedKeys, inSelection)
  {
  }

  // ---------------------------------------------------------------------------
  // The loops of selectMultiple and deselectMultiple

  /**
   * The loop of `selectMultiple`: an item whose key is not selected yet is
   * stored and reported as added; any other item is skipped.
   */
  function AddAll<K(==), T>(key: T -> K, s: Selection<K, T>, items: seq<T>): (r: (Selection<K, T>, seq<T>))
    ensures r.0 == s + Entries(key, r.1)
    ensures Keys(r.0) == Keys(s) + KeysOf(key, items)
    decreases |items|
  {
    if |items| == 0 then (s, [])
    else
      var x := items[0];
      KeysOfCons(key, items);
      if key(x) in Keys(s) then AddAll(key, s, items[1..])
      else
        var rest := AddAll(key, s + [(key(x), x)], items[1..]);
        assert Entries(key, [x] + rest.1) == [(key(x), x)] + Entries(key, rest.1);
        KeysPush(s, (key(x), x));
        (rest.0, [x] + rest.1)
  }

  /** The loop keeps the keys distinct. */
  lemma {:induction false} AddAllDistinct<K, T>(key: T -> K, s: Selection<K, T>, items: seq<T>)
    ensures DistinctKeys(s) ==> DistinctKeys(AddAll(key, s, items).0)
    decreases |items|
  {
    if !DistinctKeys(s) {
    } else if |items| > 0 && key(items[0]) !in Keys(s) {
      AppendDistinct(s, key(items[0]), items[0]);
      AddAllDistinct(key, s + [(key(items[0]), items[0])], items[1..]);
    } else if |items| > 0 {
      AddAllDistinct(key, s, items[1..]);
    }
  }

  /** The items `selectMultiple` adds are exactly the first occurrences of keys not yet selected. */
  lemma {:induction false} AddAllAddsFirstNew<K, T>(key: T -> K, s: Selection<K, T>, items: seq<T>)
    ensures AddAll(key, s, items).1 == FirstOf(key, items, Keys(s), false)
    decreases |items|
  {
    if |items| > 0 {
      var x := items[0];
      assert items == [x] + items[1..];
      FirstOfCons(key, x, items[1..], Keys(s), false);
      if key(x) in Keys(s) {
        assert Keys(s) + {key(x)} == Keys(s);
        AddAllAddsFirstNew(key, s, items[1..]);
      } else {
        KeysPush(s, (key(x), x));
        AddAllAddsFirstNew(key, s + [(key(x), x)], items[1..]);
      }
    }
  }

  /**
   * The loop of `deselectMultiple`: an item whose key is selected is removed
   * and reported as removed; any other item is skipped.
   */
  function RemoveAll<K(==), T>(key: T -> K, s: Selection<K, T>, items: seq<T>): (r: (Selection<K, T>, seq<T>))
    ensures r.0 == Without(s, KeysOf(key, items))
    decreases |items|
  {
    if |items| == 0 then
      assert KeysOf(key, items) == {};
      (s, [])
    else
      var x := items[0];
      var later := KeysOf(key, items[1..]);
      KeysOfCons(key, items);
      assert KeysOf(key, items) == {key(x)} + later;
      if key(x) in Keys(s) then
        var rest := RemoveAll(key, Without(s, {key(x)}), items[1..]);
        WithoutWithout(s, {key(x)}, later);
        (rest.0, [x] + rest.1)
      else
        WithoutMissingKey(s, later, key(x));
        assert later + {key(x)} == KeysOf(key, items);
        RemoveAll(key, s, items[1..])
  }

  /** The items `deselectMultiple` reports are exactly the first occurrences of selected keys. */
  lemma {:induction false} RemoveAllRemovesFirstSelected<K, T>(key: T -> K, s: Selection<K, T>, items: seq<T>)
    ensures RemoveAll(key, s, items).1 == FirstOf(key, items, Keys(s), true)
    decreases |items|
  {
    if |items| > 0 {
      var x := items[0];
      assert items == [x] + items[1..];
      FirstOfCons(key, x, items[1..], Keys(s), true);
      if key(x) in Keys(s) {
        RemoveAllRemovesFirstSelected(key, Without(s, {key(x)}), items[1..]);
      } else {
        assert Keys(s) - {key(x)} == Keys(s);
        RemoveAllRemovesFirstSelected(key, s, items[1..]);
      }
    }
  }

  // ---------------------------------------------------------------------------
  // The model

  /** The name of the bus of the model created after `modelCount` others. */
  function BusName(modelCount: nat): string
  {
    "selection-model-" + Decimal.Show(modelCount)
  }

  /**
   * The number of models created before the first one. The source's counter
   * starts at -1 and is incremented before use, so the first model is number 0.
   */
  const InitialModelCount: nat := 0

  /**
   * `new SelectionModel()`: an empty selection keyed by the item itself, on a
   * new bus named after the model counter.
   */
  function New<T>(c: EventBus.Counters, modelCount: nat): (r: Created<T, T>)
    ensures r.modelCount == modelCount + 1
    ensures r.model.selected == []
    ensures r.model.bus.name == BusName(modelCount)
    ensures forall e :: EventBus.Listeners(r.model.bus, e) == []
    ensures r.counters == c.(busCount := c.busCount + 1)
    ensures EventBus.Valid(r.counters, r.model.bus)
  {
    var created := EventBus.NewBus(c, Some(BusName(modelCount)));
    Created(created.counters, modelCount + 1, Model(x => x, [], created.bus))
  }

  /** A new model keys every item by the item itself. */
  lemma NewKeysByItself<T>(c: EventBus.Counters, modelCount: nat)
    ensures forall x: T :: New<T>(c, modelCount).model.identify(x) == x
  {
  }

  /** The first model's bus is `selection-model-0`. */
  lemma FirstModelName()
    ensures BusName(InitialModelCount) == "selection-model-0"
  {
  }

  /** `identifyBy(fn)`: later operations key items by `fn`; stored entries keep their keys. */
  function IdentifyBy<K(==), T>(m: Model<K, T>, fn: T -> K): (r: Model<K, T>)
    ensures r.identify == fn
    ensures r.selected == m.selected && r.bus == m.bus
  {
    m.(identify := fn)
  }

  /** Installs `selected` and emits one `change` event on the model's bus. */
  function Publish<K(==), T>(m: Model<K, T>, selected: Selection<K, T>, change: Change<T>): (r: Step<K, T>)
    ensures r.model.identify == m.identify && r.model.selected == selected
    ensures r.changes == [change]
    ensures Announced(m, change, r)
  {
    var emitted := EventBus.Emit(m.bus, ChangeEvent, change);
    Step(m.(selected := selected, bus := emitted.bus), [change], emitted.calls)
  }

  /**
   * `change` reached every `change` listener of `m`, in registration order,
   * and the bus of `r` is what that emit left.
   */
  ghost predicate Announced<K, T>(m: Model<K, T>, change: Change<T>, r: Step<K, T>)
  {
    var listeners := EventBus.Listeners(m.bus, ChangeEvent);
    && |r.calls| == |listeners|
    && (forall i :: 0 <= i < |r.calls| ==>
          r.calls[i] == EventBus.Invocation(listeners[i].id, listeners[i].callback, change))
    && r.model.bus == EventBus.Emit(m.bus, ChangeEvent, change).bus
  }

  /** Nothing changed and nothing was emitted. */
  function Unchanged<K(==), T>(m: Model<K, T>): (r: Step<K, T>)
    ensures r.model == m && r.changes == [] && r.calls == []
  {
    Step(m, [], [])
  }

  function IsSelected<K(==), T>(m: Model<K, T>, item: T): (b: bool)
    ensures b <==> m.identify(item) in AsMap(m.selected)
  {
    m.identify(item) in Keys(m.selected)
  }

  /**
   * `select(item)`: stores the item under its key and always emits one
   * `{added: [item], removed: []}`, also when the key was selected already; then
   * the key keeps its position and the stored item is replaced.
   */
  function Select<K(==), T>(m: Model<K, T>, item: T): (r: Step<K, T>)
    ensures r.changes == [Change([item], [])]
    ensures Announced(m, Change([item], []), r)
    ensures r.model.identify == m.identify
    ensures AsMap(r.model.selected) == AsMap(m.selected)[m.identify(item) := item]
    ensures !IsSelected(m, item) ==> r.model.selected == m.selected + [(m.identify(item), item)]
    ensures IsSelected(m, item) && DistinctKeys(m.selected) ==>
              |r.model.selected| == |m.selected|
              && forall i :: 0 <= i < |m.selected| ==>
                   r.model.selected[i] == (if m.selected[i].0 == m.identify(item) then (m.identify(item), item) else m.selected[i])
    ensures DistinctKeys(m.selected) ==> DistinctKeys(r.model.selected)
  {
    var k := m.identify(item);
    PutInPlace(m.selected, k, item);
    PutDistinct(m.selected, k, item);
    PutAsMap(m.selected, k, item);
    Publish(m, Put(m.selected, k, item), Change([item], []))
  }

  /**
   * `deselect(item)`: when the item's key is selected, removes it and emits
   * `{added: [], removed: [item]}` (the item passed in, not the stored one);
   * otherwise changes nothing and emits nothing.
   */
  function Deselect<K(==), T>(m: Model<K, T>, item: T): (r: Step<K, T>)
    ensures !IsSelected(r.model, item)
    ensures r.model.identify == m.identify
    ensures IsSelected(m, item) ==>
              && r.changes == [Change([], [item])]
              && Announced(m, Change([], [item]), r)
              && AsMap(r.model.selected) == AsMap(m.selected) - {m.identify(item)}
              && r.model.selected == Without(m.selected, {m.identify(item)})
    ensures !IsSelected(m, item) ==> r == Unchanged(m)
    ensures DistinctKeys(m.selected) ==> DistinctKeys(r.model.selected)
  {
    var k := m.identify(item);
    if k in Keys(m.selected) then
      WithoutDistinct(m.selected, {k});
      WithoutAsMap(m.selected, {k});
      Publish(m, Without(m.selected, {k}), Change([], [item]))
    else
      Unchanged(m)
  }

  /** `toggle(item)`: deselects a selected item and selects any other. */
  function Toggle<K(==), T>(m: Model<K, T>, item: T): (r: Step<K, T>)
    ensures r == if IsSelected(m, item) then Deselect(m, item) else Select(m, item)
    ensures IsSelected(r.model, item) <==> !IsSelected(m, item)
    ensures r.changes == if IsSelected(m, item) then [Change([], [item])] else [Change([item], [])]
    ensures IsSelected(m, item) ==>
              && Announced(m, Change([], [item]), r)
              && AsMap(r.model.selected) == AsMap(m.selected) - {m.identify(item)}
    ensures !IsSelected(m, item) ==>
              && Announced(m, Change([item], []), r)
              && r.model.selected == m.selected + [(m.identify(item), item)]
    ensures r.model.identify == m.identify
    ensures DistinctKeys(m.selected) ==> DistinctKeys(r.model.selected)
  {
    if m.identify(item) in Keys(m.selected) then Deselect(m, item) else Select(m, item)
  }

  /**
   * `clear()`: empties the selection and emits one event whose `removed` is the
   * previous selection in order, even when that is empty.
   */
  function Clear<K(==), T>(m: Model<K, T>): (r: Step<K, T>)
    ensures r.model.selected == [] && r.model.identify == m.identify
    ensures r.changes == [Change([], GetSelectedItems(m))]
    ensures Announced(m, Change([], GetSelectedItems(m)), r)
  {
    Publish(m, [], Change([], Items(m.selected)))
  }

  /**
   * `selectMultiple(items)`: appends, in input order, the first item of each key
   * not selected yet, and emits one event listing exactly those as `added`, even
   * when there are none.
   */
  function SelectMultiple<K(==), T>(m: Model<K, T>, items: seq<T>): (r: Step<K, T>)
    ensures r.changes == [Change(FirstOf(m.identify, items, Keys(m.selected), false), [])]
    ensures Announced(m, r.changes[0], r)
    ensures r.model.identify == m.identify
    ensures r.model.selected == m.selected + Entries(m.identify, r.changes[0].added)
    ensures Keys(r.model.selected) == Keys(m.selected) + KeysOf(m.identify, items)
    ensures DistinctKeys(m.selected) ==> DistinctKeys(r.model.selected)
  {
    var result := AddAll(m.identify, m.selected, items);
    AddAllAddsFirstNew(m.identify, m.selected, items);
    AddAllDistinct(m.identify, m.selected, items);
    Publish(m, result.0, Change(result.1, []))
  }

  /**
   * `deselectMultiple(items)`: removes every selected key among the items and
   * emits one event listing, in input order, the first item of each such key
   * as `removed`.
   */
  function DeselectMultiple<K(==), T>(m: Model<K, T>, items: seq<T>): (r: Step<K, T>)
    ensures r.changes == [Change([], FirstOf(m.identify, items, Keys(m.selected), true))]
    ensures Announced(m, r.changes[0], r)
    ensures r.model.identify == m.identify
    ensures r.model.selected == Without(m.selected, KeysOf(m.identify, items))
    ensures Keys(r.model.selected) == Keys(m.selected) - KeysOf(m.identify, items)
    ensures DistinctKeys(m.selected) ==> DistinctKeys(r.model.selected)
  {
    var result := RemoveAll(m.identify, m.selected, items);
    RemoveAllRemovesFirstSelected(m.identify, m.selected, items);
    WithoutDistinct(m.selected, KeysOf(m.identify, items));
    Publish(m, result.0, Change([], result.1))
  }

  /** `getSelectedItems()`: the stored items in the order their keys were first selected. */
  function GetSelectedItems<K(==), T>(m: Model<K, T>): (r: seq<T>)
    ensures |r| == |m.selected|
    ensures DistinctKeys(m.selected) ==>
              forall i :: 0 <= i < |r| ==> r[i] == AsMap(m.selected)[m.selected[i].0]
  {
    var r := Items(m.selected);
    StoredValues(m.selected);
    r
  }

  lemma StoredValues<K, T>(s: Selection<K, T>)
    ensures DistinctKeys(s) ==> forall i :: 0 <= i < |s| ==> AsMap(s)[s[i].0] == s[i].1
  {
    forall i | 0 <= i < |s|
      ensures s[i].0 in AsMap(s) && (DistinctKeys(s) ==> AsMap(s)[s[i].0] == s[i].1)
    {
      StoredValue(s, i);
    }
  }

  /** Under distinct keys each entry is what the map holds for its key. */
  lemma {:induction false} StoredValue<K, T>(s: Selection<K, T>, i: nat)
    requires i < |s|
    ensures s[i].0 in AsMap(s)
    ensures DistinctKeys(s) ==> AsMap(s)[s[i].0] == s[i].1
  {
    assert s[i] in s;
    if i > 0 {
      StoredValue(s[1..], i - 1);
      assert s[1..][i - 1] == s[i];
    }
  }

  /** `selectionCount`: the number of selected keys, which is the size of the map. */
  function SelectionCount<K(==), T>(m: Model<K, T>): (n: nat)
    ensures n == |GetSelectedItems(m)|
    ensures DistinctKeys(m.selected) ==> n == |AsMap(m.selected)|
  {
    SizeOfMap(m.selected);
    |m.selected|
  }

  function HasSelection<K(==), T>(m: Model<K, T>): (b: bool)
    ensures b <==> SelectionCount(m) > 0
  {
    |m.selected| > 0
  }

  function HasSingleSelection<K(==), T>(m: Model<K, T>): (b: bool)
    ensures b <==> SelectionCount(m) == 1
  {
    |m.selected| == 1
  }

  function HasMultipleSelection<K(==), T>(m: Model<K, T>): (b: bool)
    ensures b <==> SelectionCount(m) > 1
  {
    |m.selected| > 1
  }

  /** `destroy()`: drops every listener and the selection, emitting nothing. */
  function Destroy<K(==), T>(m: Model<K, T>): (r: Step<K, T>)
    ensures r.model.selected == [] && r.model.identify == m.identify
    ensures forall e :: EventBus.Listeners(r.model.bus, e) == []
    ensures r.model.bus.name == m.bus.name
    ensures r.changes == [] && r.calls == []
  {
    Step(m.(selected := [], bus := EventBus.Clear(m.bus)), [], [])
  }

  /** `on('change', callback, options)`: registers on the model's bus. */
  function On<K(==), T>(c: EventBus.Counters, m: Model<K, T>, callback: EventBus.Callback, options: EventBus.ListenerOptions): (r: Subscribed<K, T>)
    ensures r.id == c.nextListenerId
    ensures r.counters == c.(nextListenerId := c.nextListenerId + 1)
    ensures EventBus.Listeners(r.model.bus, ChangeEvent)
            == EventBus.Listeners(m.bus, ChangeEvent) + [EventBus.Listener(r.id, callback, options)]
    ensures forall e :: e != ChangeEvent ==> EventBus.Listeners(r.model.bus, e) == EventBus.Listeners(m.bus, e)
    ensures EventBus.Valid(c, m.bus) ==> EventBus.Valid(r.counters, r.model.bus)
    ensures r.model.bus.name == m.bus.name
    ensures r.model.selected == m.selected && r.model.identify == m.identify
  {
    var registered := EventBus.On(c, m.bus, ChangeEvent, callback, options);
    OnKeepsValid(c, m.bus, callback, options);
    Subscribed(registered.counters, m.(bus := registered.bus), registered.id)
  }

  lemma OnKeepsValid(c: EventBus.Counters, bus: EventBus.Bus, callback: EventBus.Callback, options: EventBus.ListenerOptions)
    ensures EventBus.Valid(c, bus) ==>
              var registered := EventBus.On(c, bus, ChangeEvent, callback, options);
              EventBus.Valid(registered.counters, registered.bus)
  {
    if EventBus.Valid(c, bus) {
      EventBus.OnValid(c, bus, ChangeEvent, callback, options);
    }
  }

  /** `off('change', idOrCallback)`: unregisters on the model's bus. */
  function Off<K(==), T>(m: Model<K, T>, ref: EventBus.ListenerRef): (r: Model<K, T>)
    ensures forall l :: l in EventBus.Listeners(r.bus, ChangeEvent) <==>
              l in EventBus.Listeners(m.bus, ChangeEvent) && !EventBus.Matches(ref, l)
    ensures EventBus.Increasing(EventBus.Listeners(m.bus, ChangeEvent)) ==>
              EventBus.Increasing(EventBus.Listeners(r.bus, ChangeEvent))
    ensures forall e :: e != ChangeEvent ==> EventBus.Listeners(r.bus, e) == EventBus.Listeners(m.bus, e)
    ensures (forall l :: l in EventBus.Listeners(m.bus, ChangeEvent) ==> !EventBus.Matches(ref, l)) ==> r == m
    ensures r.bus.name == m.bus.name
    ensures r.selected == m.selected && r.identify == m.identify
  {
    m.(bus := EventBus.Off(m.bus, ChangeEvent, ref))
  }

  /** `off` keeps the bus valid under the same counters. */
  lemma OffKeepsValid<K, T>(c: EventBus.Counters, m: Model<K, T>, ref: EventBus.ListenerRef)
    ensures EventBus.Valid(c, m.bus) ==> EventBus.Valid(c, Off(m, ref).bus)
  {
    if EventBus.Valid(c, m.bus) {
      EventBus.OffValid(c, m.bus, ChangeEvent, ref);
    }
  }

  // ---------------------------------------------------------------------------
  // Properties of sequences of operations

  lemma KeysOfPrefix<K, T>(key: T -> K, items: seq<T>, n: nat)
    requires n <= |items|
    ensures KeysOf(key, items[..n]) <= KeysOf(key, items)
  {
    forall k | k in KeysOf(key, items[..n])
      ensures k in KeysOf(key, items)
    {
      var i :| 0 <= i < n && key(items[..n][i]) == k;
      assert items[..n][i] == items[i];
    }
  }

  /** No item is new when all their keys are selected already. */
  lemma {:induction false} FirstOfNoneNew<K, T>(key: T -> K, items: seq<T>, selectedKeys: set<K>)
    requires KeysOf(key, items) <= selectedKeys
    ensures FirstOf(key, items, selectedKeys, false) == []
    decreases |items|
  {
    if |items| > 0 {
      var n := |items| - 1;
      KeysOfPrefix(key, items, n);
      FirstOfNoneNew(key, items[..n], selectedKeys);
      assert key(items[n]) in KeysOf(key, items);
    }
  }

  /** Selecting the same items again adds nothing, though it still emits an event. */
  lemma SelectMultipleTwiceAddsNothing<K, T>(m: Model<K, T>, items: seq<T>)
    ensures SelectMultiple(SelectMultiple(m, items).model, items).changes == [Change([], [])]
  {
    var once := SelectMultiple(m, items).model;
    FirstOfNoneNew(m.identify, items, Keys(once.selected));
  }

  ghost predicate DistinctItemKeys<K, T>(key: T -> K, items: seq<T>)
  {
    forall i, j :: 0 <= i < j < |items| ==> key(items[i]) != key(items[j])
  }

  /** Items with distinct keys, all (or none) of them selected, are all reported. */
  lemma {:induction false} FirstOfAll<K, T>(key: T -> K, items: seq<T>, selectedKeys: set<K>, inSelection: bool)
    requires DistinctItemKeys(key, items)
    requires forall i :: 0 <= i < |items| ==> (key(items[i]) in selectedKeys) == inSelection
    ensures FirstOf(key, items, selectedKeys, inSelection) == items
    decreases |items|
  {
    if |items| > 0 {
      var n := |items| - 1;
      var init := items[..n];
      assert forall i :: 0 <= i < n ==> init[i] == items[i];
      FirstOfAll(key, init, selectedKeys, inSelection);
      assert key(items[n]) !in KeysOf(key, init);
      assert init + [items[n]] == items;
    }
  }

  lemma NoKeysNoEntries<K, T>(s: Selection<K, T>)
    requires Keys(s) == {}
    ensures s == []
  {
    assert |s| > 0 ==> s[0].0 in Keys(s);
  }

  /** Selecting items with distinct keys, none of them selected, reports all of them as added. */
  lemma SelectAllNew<K, T>(m: Model<K, T>, items: seq<T>)
    requires DistinctItemKeys(m.identify, items)
    requires forall i :: 0 <= i < |items| ==> !IsSelected(m, items[i])
    ensures SelectMultiple(m, items).changes == [Change(items, [])]
  {
    FirstOfAll(m.identify, items, Keys(m.selected), false);
  }

  /** On an empty selection, the selected keys afterwards are exactly the items' keys. */
  lemma SelectAllFromEmpty<K, T>(m: Model<K, T>, items: seq<T>)
    requires m.selected == [] && DistinctItemKeys(m.identify, items)
    ensures SelectMultiple(m, items).changes == [Change(items, [])]
    ensures Keys(SelectMultiple(m, items).model.selected) == KeysOf(m.identify, items)
  {
    assert Keys(m.selected) == {};
    SelectAllNew(m, items);
  }

  /**
   * Deselecting items with distinct keys that are exactly the selected keys
   * reports all of them as removed and leaves nothing selected.
   */
  lemma DeselectAllSelected<K, T>(m: Model<K, T>, items: seq<T>)
    requires DistinctItemKeys(m.identify, items)
    requires Keys(m.selected) == KeysOf(m.identify, items)
    ensures DeselectMultiple(m, items).changes == [Change([], items)]
    ensures DeselectMultiple(m, items).model.selected == []
  {
    assert forall i :: 0 <= i < |items| ==> m.identify(items[i]) in KeysOf(m.identify, items);
    FirstOfAll(m.identify, items, Keys(m.selected), true);
    NoKeysNoEntries(DeselectMultiple(m, items).model.selected);
  }

  /**
   * On an empty selection, selecting items with distinct keys and then
   * deselecting the same items reports all of them as added, then all of them
   * as removed, and leaves nothing selected.
   */
  lemma SelectAllThenDeselectAll<K, T>(m: Model<K, T>, items: seq<T>)
    requires m.selected == [] && DistinctItemKeys(m.identify, items)
    ensures
      var first := SelectMultiple(m, items);
      var second := DeselectMultiple(first.model, items);
      && first.changes == [Change(items, [])]
      && second.changes == [Change([], items)]
      && second.model.selected == []
  {
    SelectAllFromEmpty(m, items);
    DeselectAllSelected(SelectMultiple(m, items).model, items);
  }

  /** Toggling an unselected item twice restores the selection exactly. */
  lemma ToggleTwiceRestores<K, T>(m: Model<K, T>, item: T)
    requires !IsSelected(m, item)
    ensures Toggle(Toggle(m, item).model, item).model.selected == m.selected
  {
    var k := m.identify(item);
    var once := Toggle(m, item).model;
    assert once.selected == m.selected + [(k, item)];
    WithoutAppend(m.selected, [(k, item)], {k});
    assert Without([(k, item)], {k}) == [];
  }

  /** Deselecting after selecting the same item is deselecting alone. */
  lemma DeselectUndoesSelect<K, T>(m: Model<K, T>, item: T)
    ensures Deselect(Select(m, item).model, item).model.selected == Without(m.selected, {m.identify(item)})
  {
    WithoutPut(m.selected, m.identify(item), item);
  }

  lemma FirstOfTwoNew<K, T>(key: T -> K, a: T, b: T)
    requires key(a) != key(b)
    ensures FirstOf(key, [a, b], {}, false) == [a, b]
  {
    assert [a, b][..1] == [a];
    assert [a][..0] == [];
    assert KeysOf(key, []) == {};
    assert FirstOf(key, [a], {}, false) == [a];
    assert KeysOf(key, [a]) == {key(a)} by {
      KeysOfCons(key, [a]);
      assert [a][1..] == [];
    }
  }

  lemma WithoutFirstOfTwo<K, T>(p: (K, T), q: (K, T))
    requires p.0 != q.0
    ensures Without([p, q], {p.0}) == [q]
    ensures Keys([p, q]) == {p.0, q.0}
  {
    assert [p, q][1..] == [q];
    assert [q][1..] == [];
    KeysPush([p], q);
    KeysPush([], p);
    assert [p] + [q] == [p, q];
  }

  lemma SelectTwoFromEmpty<K, T>(m: Model<K, T>, a: T, b: T)
    requires m.selected == [] && m.identify(a) != m.identify(b)
    ensures SelectMultiple(m, [a, b]).changes == [Change([a, b], [])]
    ensures SelectMultiple(m, [a, b]).model.selected == [(m.identify(a), a), (m.identify(b), b)]
  {
    FirstOfTwoNew(m.identify, a, b);
    assert Keys(m.selected) == {};
    assert Entries(m.identify, [a, b]) == [(m.identify(a), a), (m.identify(b), b)];
  }

  lemma DeselectFirstOfTwo<K, T>(m: Model<K, T>, a: T, b: T)
    requires m.selected == [(m.identify(a), a), (m.identify(b), b)] && m.identify(a) != m.identify(b)
    ensures Deselect(m, a).changes == [Change([], [a])]
    ensures GetSelectedItems(Deselect(m, a).model) == [b]
  {
    WithoutFirstOfTwo((m.identify(a), a), (m.identify(b), b));
    assert Items([(m.identify(b), b)]) == [b];
  }

  /**
   * Selecting two items with different keys at once on an empty selection and
   * then deselecting the first emits `{added: [a, b], removed: []}` then
   * `{added: [], removed: [a]}` and leaves `[b]` selected.
   */
  lemma AddTwoRemoveOne<K, T>(m: Model<K, T>, a: T, b: T)
    requires m.selected == [] && m.identify(a) != m.identify(b)
    ensures
      var first := SelectMultiple(m, [a, b]);
      var second := Deselect(first.model, a);
      && first.changes + second.changes == [Change([a, b], []), Change([], [a])]
      && GetSelectedItems(second.model) == [b]
  {
    SelectTwoFromEmpty(m, a, b);
    DeselectFirstOfTwo(SelectMultiple(m, [a, b]).model, a, b);
  }

  /** After `off('change', id)` no later `select` or `deselect` calls the listener with that id. */
  lemma OffIdNotCalled<K, T>(m: Model<K, T>, id: nat, item: T)
    ensures forall call :: call in Select(Off(m, EventBus.ById(id)), item).calls ==> call.id != id
    ensures forall call :: call in Deselect(Off(m, EventBus.ById(id)), item).calls ==> call.id != id
  {
    var off := Off(m, EventBus.ById(id));
    var listeners := EventBus.Listeners(off.bus, ChangeEvent);
    forall i | 0 <= i < |listeners|
      ensures listeners[i].id != id
    {
      assert listeners[i] in listeners;
    }
  }

  lemma NoMembersEmpty<X>(s: seq<X>)
    ensures (forall x :: x !in s) ==> s == []
  {
    if |s| > 0 {
      assert s[0] in s;
    }
  }

  /**
   * Removing a selection listener by id: on a new model, a `change` listener
   * registered without options is called once by `select`; after
   * `off('change', id)` the `deselect` that follows still reports its change
   * but calls no listener.
   */
  lemma RemovedListenerNotCalled<T>(c: EventBus.Counters, n: nat, callback: EventBus.Callback, item: T)
    ensures
      var created := New<T>(c, n);
      var sub := On(created.counters, created.model, callback, EventBus.NoOptions);
      var first := Select(sub.model, item);
      var second := Deselect(Off(first.model, EventBus.ById(sub.id)), item);
      && first.calls == [EventBus.Invocation(sub.id, callback, Change([item], []))]
      && second.changes == [Change([], [item])]
      && second.calls == []
  {
    var created := New<T>(c, n);
    var sub := On(created.counters, created.model, callback, EventBus.NoOptions);
    var listener := EventBus.Listener(sub.id, callback, EventBus.NoOptions);
    assert EventBus.Listeners(sub.model.bus, ChangeEvent) == [listener];
    var first := Select(sub.model, item);
    var off := Off(first.model, EventBus.ById(sub.id));
    forall l
      ensures l !in EventBus.Listeners(off.bus, ChangeEvent)
    {
      if l in EventBus.Listeners(first.model.bus, ChangeEvent) {
        assert l == listener;
      }
    }
    NoMembersEmpty(EventBus.Listeners(off.bus, ChangeEvent));
    assert IsSelected(off, item);
  }

  /** The same on a fresh model, which keys items by themselves. */
  lemma NewModelAddTwoRemoveOne<T>(c: EventBus.Counters, n: nat, a: T, b: T)
    requires a != b
    ensures
      var first := SelectMultiple(New<T>(c, n).model, [a, b]);
      var second := Deselect(first.model, a);
      && first.changes + second.changes == [Change([a, b], []), Change([], [a])]
      && GetSelectedItems(second.model) == [b]
  {
    var m := New<T>(c, n).model;
    NewKeysByItself<T>(c, n);
    AddTwoRemoveOne(m, a, b);
  }
}

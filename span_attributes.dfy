/**
 * The trace page's attribute box: the span's attribute keys in ascending order, only those
 * whose value is a string, cut to the box's height with a closing line that counts the rest.
 * The key collection, sorting and string filter are shared with the span-table page's box.
 */
module SpanAttributes {
  import opened Results
  import opened Schema
  import Ordering

  /** One listed attribute: its key and its string value. */
  datatype AttributeEntry = AttributeEntry(key: string, value: string)

  /** What the box lists: the entries, and the number on the closing `+ N attributes` line
      when there is one. */
  datatype Listing = Listing(entries: seq<AttributeEntry>, more: Option<int>)

  const SliceOutOfRange := "slice bounds out of range"

  // ---------------------------------------------------------------- keys

  /** `keys` holds every key of the map once, in Go's string order. */
  ghost predicate KeysInOrder(keys: seq<string>, attributes: Attributes) {
    multiset(keys) == multiset(attributes.Keys) && Ordering.SortedBy(keys, Ordering.StrLe)
  }

  /** The sorted keys of a map are determined by the map: map iteration order does not show. */
  lemma KeysInOrderUnique(a: seq<string>, b: seq<string>, attributes: Attributes)
    requires KeysInOrder(a, attributes) && KeysInOrder(b, attributes)
    ensures a == b
  {
    Ordering.StrLeIsTotalPreorder();
    Ordering.SortedPermutationsEqual(a, b, Ordering.StrLe);
  }

  /** Sorted keys list each key of the map exactly once, strictly ascending. */
  lemma KeysInOrderListsEachKeyOnce(keys: seq<string>, attributes: Attributes)
    requires KeysInOrder(keys, attributes)
    ensures |keys| == |attributes|
    ensures forall k :: k in keys <==> k in attributes
    ensures Ascending(keys)
  {
    assert |multiset(keys)| == |multiset(attributes.Keys)|;
    forall k ensures k in keys <==> k in attributes {
      assert k in keys <==> k in multiset(keys);
    }
    forall i, j | 0 <= i < j < |keys| ensures keys[i] != keys[j] {
      if keys[i] == keys[j] {
        CountedTwice(keys, i, j);
      }
    }
  }

  /** Strictly ascending in Go's string order. */
  predicate Ascending(keys: seq<string>) {
    forall i, j :: 0 <= i < j < |keys| ==> Ordering.StrLe(keys[i], keys[j]) && keys[i] != keys[j]
  }

  /** Strictly ascending keys, entry by entry. */
  predicate EntriesAscending(es: seq<AttributeEntry>) {
    forall i, j :: 0 <= i < j < |es| ==> Ordering.StrLe(es[i].key, es[j].key) && es[i].key != es[j].key
  }

  lemma CountedTwice<T>(s: seq<T>, i: nat, j: nat)
    requires i < j < |s| && s[i] == s[j]
    ensures multiset(s)[s[i]] >= 2
  {
    assert s == s[..i] + [s[i]] + s[i + 1..j] + [s[j]] + s[j + 1..];
  }

  /** The key-collecting loop: every key of the map goes into the slice once, in whatever
      order the map is iterated. */
  method CollectKeys(attributes: Attributes) returns (a: array<string>)
    ensures fresh(a)
    ensures multiset(a[..]) == multiset(attributes.Keys)
  {
    a := new string[|attributes.Keys|];
    var rest := attributes.Keys;
    var i := 0;
    while rest != {}
      invariant 0 <= i <= a.Length && i + |rest| == a.Length
      invariant rest <= attributes.Keys
      invariant multiset(a[..i]) + multiset(rest) == multiset(attributes.Keys)
      decreases |rest|
    {
      var k :| k in rest;
      assert multiset(rest) == multiset(rest - {k}) + multiset{k};
      a[i] := k;
      assert a[..i + 1] == a[..i] + [k];
      rest := rest - {k};
      i := i + 1;
    }
    assert a[..] == a[..i];
  }

  /** The keys, collected and then sorted in place (`sort.Strings`). */
  method SortedKeys(attributes: Attributes) returns (keys: seq<string>)
    ensures KeysInOrder(keys, attributes)
  {
    var a := CollectKeys(attributes);
    Ordering.StrLeIsTotalPreorder();
    Ordering.InsertionSort(a, Ordering.StrLe);
    keys := a[..];
  }

  // ---------------------------------------------------------------- entries

  /** The entries of the keys whose value is a string, in key order. */
  function StringEntriesOf(keys: seq<string>, attributes: Attributes): seq<AttributeEntry>
    requires forall i :: 0 <= i < |keys| ==> keys[i] in attributes
  {
    if keys == [] then []
    else
      var init := StringEntriesOf(keys[..|keys| - 1], attributes);
      var k := keys[|keys| - 1];
      if attributes[k].Str? then init + [AttributeEntry(k, attributes[k].s)] else init
  }

  /** The entries are exactly the listed keys carrying string values, each with its value. */
  lemma {:induction false} EntriesAreStringAttributes(keys: seq<string>, attributes: Attributes)
    requires forall i :: 0 <= i < |keys| ==> keys[i] in attributes
    ensures forall k, v :: AttributeEntry(k, v) in StringEntriesOf(keys, attributes) <==>
      k in keys && attributes[k] == Str(v)
  {
    if keys != [] {
      var init := keys[..|keys| - 1];
      EntriesAreStringAttributes(init, attributes);
      assert keys == init + [keys[|keys| - 1]];
    }
  }

  /** Strictly ascending keys give entries with strictly ascending keys. */
  lemma {:induction false} EntriesInKeyOrder(keys: seq<string>, attributes: Attributes)
    requires forall i :: 0 <= i < |keys| ==> keys[i] in attributes
    requires Ascending(keys)
    ensures EntriesAscending(StringEntriesOf(keys, attributes))
  {
    if keys != [] {
      var n := |keys|;
      var init := keys[..n - 1];
      var k := keys[n - 1];
      assert Ascending(init);
      EntriesInKeyOrder(init, attributes);
      EntriesAreStringAttributes(init, attributes);
      var es := StringEntriesOf(init, attributes);
      var all := StringEntriesOf(keys, attributes);
      assert all == if attributes[k].Str? then es + [AttributeEntry(k, attributes[k].s)] else es;
      assert EntriesAscending(es);
      forall i, j | 0 <= i < j < |all| ensures Ordering.StrLe(all[i].key, all[j].key) && all[i].key != all[j].key {
        if j < |es| {
          assert all[i] == es[i] && all[j] == es[j];
        } else {
          var e := es[i];
          assert e == all[i] && all[j].key == k;
          assert AttributeEntry(e.key, e.value) in es;
          var m :| 0 <= m < |init| && init[m] == e.key;
          assert init[m] == keys[m];
          assert Ordering.StrLe(keys[m], keys[n - 1]) && keys[m] != keys[n - 1];
        }
      }
    }
  }

  /** The box's entries for a map: its string attributes, in strictly ascending key order,
      each key with its own value. */
  lemma EntriesOfMap(keys: seq<string>, attributes: Attributes)
    requires KeysInOrder(keys, attributes)
    ensures forall i :: 0 <= i < |keys| ==> keys[i] in attributes
    ensures var es := StringEntriesOf(keys, attributes);
      && (forall k, v :: AttributeEntry(k, v) in es <==> k in attributes && attributes[k] == Str(v))
      && EntriesAscending(es)
  {
    KeysInOrderListsEachKeyOnce(keys, attributes);
    EntriesAreStringAttributes(keys, attributes);
    EntriesInKeyOrder(keys, attributes);
  }

  /** An empty map lists nothing. */
  lemma NoAttributesNoEntries(keys: seq<string>)
    requires KeysInOrder(keys, map[])
    ensures keys == [] && StringEntriesOf(keys, map[]) == []
  {
    assert |multiset(keys)| == 0;
  }

  /** The entries loop of `View`: skips the keys whose value is not a string. */
  method StringEntries(keys: seq<string>, attributes: Attributes) returns (entries: seq<AttributeEntry>)
    requires forall i :: 0 <= i < |keys| ==> keys[i] in attributes
    ensures entries == StringEntriesOf(keys, attributes)
  {
    entries := [];
    for i := 0 to |keys|
      invariant entries == StringEntriesOf(keys[..i], attributes)
    {
      assert keys[..i + 1][..i] == keys[..i];
      var v := attributes[keys[i]];
      if !v.Str? {
        continue;
      }
      entries := entries + [AttributeEntry(keys[i], v.s)];
    }
    assert keys[..|keys|] == keys;
  }

  // ---------------------------------------------------------------- truncation

  /**
   * The cut: entries that leave no room for the closing line keep the first `height - 2`,
   * followed by a closing line whose number is `keyCount - height`. Below a height of two the
   * cut slices out of range and panics, whatever the entries — so height 0 does not list them all.
   */
  function Truncate(entries: seq<AttributeEntry>, keyCount: int, height: int): (r: Result<Listing, string>)
    ensures r.Failure? <==> |entries| + 1 > height && height < 2
    ensures r.Failure? ==> r.error == SliceOutOfRange
    ensures r.Success? ==>
      && r.value.entries <= entries
      && (r.value.more.None? <==> |entries| < height)
      && (r.value.more.None? ==> r.value.entries == entries)
      && (r.value.more.Some? ==> |r.value.entries| == height - 2)
      && 1 + |r.value.entries| + (if r.value.more.Some? then 1 else 0) <= height
  {
    if |entries| + 1 > height then
      if height < 2 then Failure(SliceOutOfRange)
      else Success(Listing(entries[..height - 2], Some(keyCount - height)))
    else Success(Listing(entries, None))
  }

  /** The closing line's number counts every key, string or not, less the height: it falls
      short of the hidden entries by two and adds the keys without a string value. */
  lemma OverflowCount(entries: seq<AttributeEntry>, keyCount: int, height: int)
    requires |entries| >= height >= 2
    ensures var r := Truncate(entries, keyCount, height);
      r.Success? && r.value.more == Some((|entries| - |r.value.entries|) + (keyCount - |entries|) - 2)
  {
  }

  /** Zero height, the default of an unset box, panics as soon as anything is listed or not. */
  lemma ZeroHeightPanics(entries: seq<AttributeEntry>, keyCount: int)
    ensures Truncate(entries, keyCount, 0).Failure?
  {
  }

  // ---------------------------------------------------------------- the model

  /** The attribute box of the trace page. A nil map and an empty one list the same, so both
      are the empty map. */
  class SpanAttributeModel {
    var attributes: Attributes
    var width: int
    var height: int

    /** `CreateSpanAttributeModel`: no attributes, five rows high. */
    constructor ()
      ensures attributes == map[] && width == 0 && height == 5
    {
      attributes := map[];
      width := 0;
      height := 5;
    }

    /** `SetAttributes` replaces the map as a whole. */
    method SetAttributes(a: Attributes)
      modifies this
      ensures attributes == a && width == old(width) && height == old(height)
    {
      attributes := a;
    }

    /** `View`: sorted keys, their string entries, then the cut to the height; the closing
        line counts every key of the map. */
    method View() returns (r: Result<Listing, string>)
      ensures exists keys :: (
        && KeysInOrder(keys, attributes)
        && (forall i :: 0 <= i < |keys| ==> keys[i] in attributes)
        && r == Truncate(StringEntriesOf(keys, attributes), |keys|, height))
    {
      var keys := SortedKeys(attributes);
      KeysInOrderListsEachKeyOnce(keys, attributes);
      var entries := StringEntries(keys, attributes);
      r := Truncate(entries, |keys|, height);
    }
  }
}

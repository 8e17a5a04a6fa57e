/** Ordered maps in cache keys: entries are written in key order, so that the stream depends on the map alone. */
module CacheKeyMaps {
  import opened CacheKey
  import opened Utf8

  function EntryValue(entry: (Value, Value)): Value {
    Both(entry.0, entry.1)
  }

  /** The entries of a map in the order in which they are written. */
  function MapValue(entries: seq<(Value, Value)>): Value {
    Elements(seq(|entries|, i requires 0 <= i < |entries| => EntryValue(entries[i])))
  }

  ghost predicate IsStrictOrder(less: (Value, Value) -> bool) {
    && (forall a :: !less(a, a))
    && (forall a, b, c :: less(a, b) && less(b, c) ==> less(a, c))
    && (forall a, b :: less(a, b) || a == b || less(b, a))
  }

  /** The entries of `m` by ascending key, as an ordered map yields them. */
  ghost predicate IsListing(m: map<Value, Value>, entries: seq<(Value, Value)>, less: (Value, Value) -> bool) {
    && (forall i :: 0 <= i < |entries| ==> entries[i].0 in m && m[entries[i].0] == entries[i].1)
    && (forall key :: key in m ==> exists i :: 0 <= i < |entries| && entries[i].0 == key)
    && (forall i, j :: 0 <= i < j < |entries| ==> less(entries[i].0, entries[j].0))
  }

  lemma FirstKeysAgree(
      m: map<Value, Value>, a: seq<(Value, Value)>, b: seq<(Value, Value)>, less: (Value, Value) -> bool)
    requires IsStrictOrder(less) && IsListing(m, a, less) && IsListing(m, b, less) && a != []
    ensures b != [] && a[0] == b[0]
  {
    assert a[0].0 in m;
    var i :| 0 <= i < |b| && b[i].0 == a[0].0;
    var j :| 0 <= j < |a| && a[j].0 == b[0].0;
    assert 0 < j ==> less(a[0].0, a[j].0);
  }

  lemma RestIsListing(m: map<Value, Value>, entries: seq<(Value, Value)>, less: (Value, Value) -> bool)
    requires IsStrictOrder(less) && IsListing(m, entries, less) && entries != []
    ensures IsListing(m - {entries[0].0}, entries[1..], less)
  {
    var rest := m - {entries[0].0};
    forall key | key in rest
      ensures exists i :: 0 <= i < |entries[1..]| && entries[1..][i].0 == key
    {
      var i :| 0 <= i < |entries| && entries[i].0 == key;
      assert entries[1..][i - 1].0 == key;
    }
  }

  /** There is one order in which the entries of a map are written. */
  lemma {:induction false} ListingIsUnique(
      m: map<Value, Value>, a: seq<(Value, Value)>, b: seq<(Value, Value)>, less: (Value, Value) -> bool)
    requires IsStrictOrder(less) && IsListing(m, a, less) && IsListing(m, b, less)
    ensures a == b
    decreases |a|
  {
    hide IsStrictOrder;
    if a == [] && b != [] {
      FirstKeysAgree(m, b, a, less);
    } else if a != [] {
      FirstKeysAgree(m, a, b, less);
      RestIsListing(m, a, less);
      RestIsListing(m, b, less);
      hide IsListing;
      ListingIsUnique(m - {a[0].0}, a[1..], b[1..], less);
      assert a == [a[0]] + a[1..] && b == [b[0]] + b[1..];
    }
  }

  lemma MapValueIsInjective(a: seq<(Value, Value)>, b: seq<(Value, Value)>)
    requires MapValue(a) == MapValue(b)
    ensures a == b
  {
    var v, w := MapValue(a).values, MapValue(b).values;
    assert |v| == |a| && |w| == |b|;
    forall i | 0 <= i < |a|
      ensures a[i] == b[i]
    {
      assert v[i] == w[i] && v[i] == EntryValue(a[i]) && w[i] == EntryValue(b[i]);
    }
  }

  lemma ListedMapsAgree(
      m: map<Value, Value>, n: map<Value, Value>, entries: seq<(Value, Value)>, less: (Value, Value) -> bool)
    requires IsListing(m, entries, less) && IsListing(n, entries, less)
    ensures m == n
  {
  }

  /** Two ordered maps of one type write one stream, with any tails, if and only if maps and tails are equal. */
  lemma EqualStreamsIffEqualMaps(
      key: Shape, value: Shape, less: (Value, Value) -> bool,
      m: map<Value, Value>, a: seq<(Value, Value)>, s: seq<byte>,
      n: map<Value, Value>, b: seq<(Value, Value)>, t: seq<byte>)
    requires IsStrictOrder(less) && IsListing(m, a, less) && IsListing(n, b, less)
    requires HasShape(MapValue(a), MapShape(key, value)) && HasShape(MapValue(b), MapShape(key, value))
    ensures Encode(MapValue(a), MapShape(key, value)) + s == Encode(MapValue(b), MapShape(key, value)) + t <==>
            m == n && s == t
  {
    hide HasShape, Encode, MapValue, IsListing, IsStrictOrder;
    if Encode(MapValue(a), MapShape(key, value)) + s == Encode(MapValue(b), MapShape(key, value)) + t {
      EncodingIsUniquelyDecodable(MapShape(key, value), MapValue(a), MapValue(b), s, t);
      MapValueIsInjective(a, b);
      ListedMapsAgree(m, n, a, less);
    } else if m == n {
      ListingIsUnique(m, a, b, less);
    }
  }

  lemma EncodeMap(entries: seq<(Value, Value)>, key: Shape, value: Shape)
    requires HasShape(MapValue(entries), MapShape(key, value))
    ensures forall v :: v in MapValue(entries).values ==> HasShape(v, Pair(key, value))
    ensures |entries| < Capacity(LENGTH_WIDTH)
    ensures Encode(MapValue(entries), MapShape(key, value)) ==
            Encode(Number(|entries|), Unsigned(LENGTH_WIDTH)) +
            EncodeAll(MapValue(entries).values, Pair(key, value))
  {
  }

  lemma EncodeNext(entries: seq<(Value, Value)>, i: nat, key: Shape, value: Shape)
    requires i < |entries|
    requires forall v :: v in MapValue(entries).values ==> HasShape(v, Pair(key, value))
    ensures HasShape(entries[i].0, key) && HasShape(entries[i].1, value)
    ensures var values := MapValue(entries).values;
      EncodeAll(values[i..], Pair(key, value)) ==
      Encode(entries[i].0, key) + Encode(entries[i].1, value) + EncodeAll(values[i + 1..], Pair(key, value))
  {
    var values := MapValue(entries).values;
    assert values[i] == EntryValue(entries[i]) && values[i] in values;
    assert values[i..][1..] == values[i + 1..];
  }

  /** The length first, then keys and values in turn. */
  method WriteMap(state: CacheKeyHasher, entries: seq<(Value, Value)>, key: Shape, value: Shape)
    requires HasShape(MapValue(entries), MapShape(key, value))
    modifies state
    ensures state.stream == old(state.stream) + Encode(MapValue(entries), MapShape(key, value))
  {
    hide LittleEndian, Capacity, Encode, HasShape, EncodeAll;
    EncodeMap(entries, key, value);
    ghost var values := MapValue(entries).values;
    state.WriteUsize(|entries|);
    for i := 0 to |entries|
      invariant old(state.stream) + Encode(MapValue(entries), MapShape(key, value)) ==
                state.stream + EncodeAll(values[i..], Pair(key, value))
    {
      EncodeNext(entries, i, key, value);
      state.WriteValue(entries[i].0, key);
      state.WriteValue(entries[i].1, value);
    }
    NothingLeft(values, Pair(key, value));
  }

  lemma NothingLeft(values: seq<Value>, element: Shape)
    ensures EncodeAll(values[|values|..], element) == []
  {
  }
}

/** `ODObject` as a value: a record of a collection with its field map, and
    the operations on it that do not touch the network. */
module Records {
  import opened Wrappers
  import opened Text
  import opened Values
  import opened Faults

  /** `Guid` (empty for a record not yet created), the collection, the field
      map, the media link, `IsReadOnly`, and the `Many` cache of records
      linked from other collections. */
  datatype Record = Record(
    guid: Str,
    collection: Str,
    data: Data,
    binaryLink: Str,
    readOnly: bool,
    many: map<Str, seq<Record>>)

  const IdKey: Str := Lit("Id")
  const CreatedOnKey: Str := Lit("CreatedOn")
  const ModifiedOnKey: Str := Lit("ModifiedOn")
  const CollectionWord: Str := Lit("Collection")
  const CollectionVersionWord: Str := Lit("CollectionVersion")
  /** The prefix of temporary fields. */
  const TempMark: u16 := 0x21

  /** `exists`: the record has fields and an id. */
  predicate Exists(r: Record) {
    |r.data| > 0 && r.guid != []
  }

  /** `hasBinaryData` */
  predicate HasBinaryData(r: Record) {
    r.binaryLink != []
  }

  /** The indexer's getter: the value, or `null` for a missing key. */
  function Get(r: Record, what: Str): (v: Value)
    ensures what !in r.data ==> v == Null
    ensures what in r.data ==> v == r.data[what]
  {
    if what in r.data then r.data[what] else Null
  }

  /** The indexer's setter; storing `null` keeps the key. */
  function Set(r: Record, what: Str, v: Value): (r': Record)
    ensures r'.data.Keys == r.data.Keys + {what}
    ensures r' == r.(data := r'.data)
  {
    r.(data := r.data[what := v])
  }

  /** The setter's partner: reading back what was set, other keys untouched. */
  lemma SetThenGet(r: Record, what: Str, v: Value, other: Str)
    ensures Get(Set(r, what, v), what) == v
    ensures other != what ==> Get(Set(r, what, v), other) == Get(r, other)
  {
  }

  /** `NewObject(collection)`: no id, and both stamps set to the current
      time in round-trip format (two readings of the clock). */
  function NewObject(collection: Str, createdOn: Str, modifiedOn: Str): (r: Record)
    ensures r.collection == collection && !r.readOnly
  {
    Record([], collection, map[CreatedOnKey := StrVal(createdOn), ModifiedOnKey := StrVal(modifiedOn)], [], false, map[])
  }

  /** A new record has exactly the two stamp fields, and does not exist yet. */
  lemma NewObjectShape(collection: Str, createdOn: Str, modifiedOn: Str)
    ensures NewObject(collection, createdOn, modifiedOn).data.Keys == {CreatedOnKey, ModifiedOnKey}
    ensures !Exists(NewObject(collection, createdOn, modifiedOn))
  {
  }

  /** `CollectionLocalName`: `Collection` is appended unless the name already
      ends in `Collection` or `CollectionVersion`. */
  function CollectionLocalName(collection: Str): (r: Str)
    ensures EndsWith(r, CollectionWord) || EndsWith(r, CollectionVersionWord)
    ensures StartsWith(r, collection)
    ensures r == collection || r == collection + CollectionWord
  {
    if EndsWith(collection, CollectionWord) || EndsWith(collection, CollectionVersionWord) then collection
    else
      var r := collection + CollectionWord;
      assert r[..|collection|] == collection && r[|r| - |CollectionWord|..] == CollectionWord;
      r
  }

  lemma CollectionLocalNameIdempotent(collection: Str)
    ensures CollectionLocalName(CollectionLocalName(collection)) == CollectionLocalName(collection)
  {
  }

  /** `T00:00:00` */
  const Midnight: Str := [0x54, 0x30, 0x30, 0x3A, 0x30, 0x30, 0x3A, 0x30, 0x30]
  /** `T12:00:00` */
  const Noon: Str := [0x54, 0x31, 0x32, 0x3A, 0x30, 0x30, 0x3A, 0x30, 0x30]
  /** `T00:00:00.0000000Z` */
  const MidnightUtc: Str := [0x54, 0x30, 0x30, 0x3A, 0x30, 0x30, 0x3A, 0x30, 0x30, 0x2E, 0x30, 0x30, 0x30, 0x30, 0x30, 0x30, 0x30, 0x5A]

  /** A value whose text ends in a midnight time of day. */
  predicate AtMidnight(v: Value) {
    v != Null && (EndsWith(Render(v), MidnightUtc) || EndsWith(Render(v), Midnight))
  }

  /** One value through `FixDateBug`: midnight becomes noon. */
  function FixValue(v: Value): (r: Value)
    ensures !AtMidnight(v) ==> r == v
    ensures AtMidnight(v) ==> r.StrVal?
  {
    if AtMidnight(v) then StrVal(ReplaceAll(Render(v), Midnight, Noon)) else v
  }

  /** `FixDateBug`: every midnight date is moved to noon. */
  function FixDateBug(data: Data): (r: Data)
    ensures r.Keys == data.Keys
    ensures forall k | k in data && !AtMidnight(data[k]) :: r[k] == data[k]
    ensures forall k | k in data && AtMidnight(data[k]) ::
      r[k] == StrVal(ReplaceAll(Render(data[k]), Midnight, Noon))
  {
    map k | k in data :: FixValue(data[k])
  }

  /** A string ending in either suffix holds an occurrence of `T00:00:00`. */
  lemma SuffixOccurs(s: Str)
    requires EndsWith(s, MidnightUtc) || EndsWith(s, Midnight)
    ensures !NoOccurrence(s, Midnight)
  {
    if EndsWith(s, MidnightUtc) {
      var i := |s| - |MidnightUtc|;
      assert s[i..i + |Midnight|] == s[i..][..|Midnight|] == MidnightUtc[..|Midnight|] == Midnight;
      assert OccursAt(s, Midnight, i);
    } else {
      var i := |s| - |Midnight|;
      assert OccursAt(s, Midnight, i);
    }
  }

  /** A fixed value is no longer at midnight. */
  lemma FixValueFixed(v: Value)
    ensures !AtMidnight(FixValue(v))
  {
    if AtMidnight(v) {
      var s := ReplaceAll(Render(v), Midnight, Noon);
      ReplaceRemovesPattern(Render(v), Midnight, Noon);
      if EndsWith(s, MidnightUtc) || EndsWith(s, Midnight) {
        SuffixOccurs(s);
        assert false;
      }
    }
  }

  /** `FixDateBug` is idempotent. */
  lemma FixDateBugIdempotent(data: Data)
    ensures FixDateBug(FixDateBug(data)) == FixDateBug(data)
  {
    forall k | k in data ensures FixValue(FixValue(data[k])) == FixValue(data[k]) {
      FixValueFixed(data[k]);
    }
  }

  predicate IsTemp(k: Str) {
    |k| > 0 && k[0] == TempMark
  }

  /** `CleanTemp`, over the dictionary enumerated in the order `keys`: the
      `!`-prefixed fields are moved out of `data` and returned. */
  method CleanTemp(data: Data, keys: seq<Str>) returns (rest: Data, temp: Data)
    requires forall k | k in data :: k in keys
    ensures temp.Keys !! rest.Keys
    ensures temp + rest == data
    ensures forall k | k in temp :: IsTemp(k)
    ensures forall k | k in rest :: !IsTemp(k)
  {
    // The first loop collects the keys to remove.
    var toRemove: seq<Str> := [];
    var i := 0;
    while i < |keys|
      invariant 0 <= i <= |keys|
      invariant forall k | k in toRemove :: IsTemp(k) && k in data
      invariant forall j | 0 <= j < i :: keys[j] in data && IsTemp(keys[j]) ==> keys[j] in toRemove
    {
      if keys[i] in data && IsTemp(keys[i]) {
        toRemove := toRemove + [keys[i]];
      }
      i := i + 1;
    }
    // The second loop moves them.
    rest, temp := data, map[];
    i := 0;
    while i < |toRemove|
      invariant 0 <= i <= |toRemove|
      invariant temp.Keys !! rest.Keys && temp + rest == data
      invariant forall k | k in temp :: IsTemp(k)
      invariant forall k | k in rest && IsTemp(k) :: k in toRemove[i..]
    {
      var k := toRemove[i];
      if k in rest {
        temp := temp[k := rest[k]];
        rest := rest - {k};
      }
      i := i + 1;
    }
  }

  /** The value `MergeWith(newData)` leaves under each key. */
  function Merged(data: Data, newData: Data): (r: Data)
    ensures forall k | k in newData && newData[k] == Null :: k !in r
    ensures forall k | k in newData && newData[k] != Null :: k in r && r[k] == newData[k]
    ensures forall k | k !in newData :: (k in r <==> k in data) && (k in data ==> r[k] == data[k])
  {
    map k | k in data.Keys + newData.Keys && !(k in newData && newData[k] == Null) ::
      if k in newData then newData[k] else data[k]
  }

  /** One turn of the loop of `MergeWith(newData)`: a null removes the key,
      any other value is stored, and no other key changes. */
  function MergeOne(r: Data, k: Str, v: Value): (r': Data)
    ensures v == Null ==> k !in r'
    ensures v != Null ==> k in r' && r'[k] == v
    ensures forall k' | k' != k :: (k' in r' <==> k' in r) && (k' in r ==> r'[k'] == r[k'])
  {
    if k in r then
      if v == Null then r - {k} else r[k := v]
    else if v != Null then r[k := v]
    else r
  }

  /** `MergeWith(newData)` on the field map, over `newData` enumerated in the
      order `keys`. */
  method MergeData(data: Data, newData: Data, keys: seq<Str>) returns (r: Data)
    requires forall i | 0 <= i < |keys| :: keys[i] in newData
    requires forall k | k in newData :: k in keys
    ensures r == Merged(data, newData)
  {
    r := data;
    var i := 0;
    while i < |keys|
      invariant 0 <= i <= |keys|
      invariant forall k | k in keys[..i] :: (newData[k] == Null ==> k !in r) && (newData[k] != Null ==> k in r && r[k] == newData[k])
      invariant forall k | k !in keys[..i] :: (k in r <==> k in data) && (k in data ==> r[k] == data[k])
    {
      var k := keys[i];
      r := MergeOne(r, k, newData[k]);
      assert keys[..i + 1] == keys[..i] + [k];
      i := i + 1;
    }
    assert keys[..|keys|] == keys;
  }

  /** The fields `MergeWith(ODObject)` takes from the other record: all but `Id`. */
  function WithoutId(data: Data): (r: Data)
    ensures IdKey !in r
    ensures forall k | k != IdKey :: (k in r <==> k in data) && (k in r ==> r[k] == data[k])
  {
    data - {IdKey}
  }

  /** Merging another record's fields never changes `Id`. */
  lemma MergeKeepsId(data: Data, other: Data)
    ensures IdKey in Merged(data, WithoutId(other)) <==> IdKey in data
    ensures IdKey in data ==> Merged(data, WithoutId(other))[IdKey] == data[IdKey]
  {
  }

  /** `MergeWith(ODObject)`: the guard, then the merge without `Id`. */
  method MergeWithRecord(r: Record, second: Record, keys: seq<Str>) returns (r': Record, res: Result<(), Error>)
    requires forall i | 0 <= i < |keys| :: keys[i] in WithoutId(second.data)
    requires forall k | k in WithoutId(second.data) :: k in keys
    ensures r.readOnly ==> r' == r && res == Err(Security(Lit("update")))
    ensures !r.readOnly ==> res.Ok? && r' == r.(data := Merged(r.data, WithoutId(second.data)))
  {
    if r.readOnly {
      return r, Err(Security(Lit("update")));
    }
    var merged := MergeData(r.data, WithoutId(second.data), keys);
    return r.(data := merged), Ok(());
  }

  /** `MergeWith(Dictionary)`: the guard, then the merge. */
  method MergeWith(r: Record, newData: Data, keys: seq<Str>) returns (r': Record, res: Result<(), Error>)
    requires forall i | 0 <= i < |keys| :: keys[i] in newData
    requires forall k | k in newData :: k in keys
    ensures r.readOnly ==> r' == r && res == Err(Security(Lit("update")))
    ensures !r.readOnly ==> res.Ok? && r' == r.(data := Merged(r.data, newData))
  {
    if r.readOnly {
      return r, Err(Security(Lit("update")));
    }
    var merged := MergeData(r.data, newData, keys);
    return r.(data := merged), Ok(());
  }

  /** The `Many` cache after a load of `collection`: the list when it is not
      empty, otherwise no entry. */
  function CacheMany(many: map<Str, seq<Record>>, collection: Str, loaded: seq<Record>): (m: map<Str, seq<Record>>)
    ensures loaded != [] ==> collection in m && m[collection] == loaded
    ensures loaded == [] ==> collection !in m
    ensures forall c | c != collection :: (c in m <==> c in many) && (c in m ==> m[c] == many[c])
  {
    if loaded != [] then many[collection := loaded] else many - {collection}
  }
}

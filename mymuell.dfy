/**
 * The adapter instance: its view of the ioBroker store, the handling of the
 * API response, and `processMyMuellData`, which reduces the collection
 * entries and publishes the result as states and object definitions.
 */
module MyMuell {
  import opened Schedule
  import opened Publish

  const ApiEndpoint: string := "https://mymuell.jumomind.com/mmapp/api.php"

  /**
   * The `url` string built from the configured city and area ids, each in
   * its text form. The `trophies` query parameter that the request adds
   * separately is not part of it.
   */
  function ApiUrl(cityId: string, areaId: string): string {
    ApiEndpoint + "?r=dates&city_id=" + cityId + "&area_id=" + areaId
  }

  /** The position of the first `&` in `s`, or `|s|` when it has none. */
  function FirstAmp(s: string): nat
    decreases |s|
  {
    if s == [] || s[0] == '&' then 0 else 1 + FirstAmp(s[1..])
  }

  /** The first `&` after an `&`-free text is the one that follows it. */
  lemma {:induction false} FirstAmpAfter(c: string, rest: string)
    requires '&' !in c
    ensures FirstAmp(c + "&" + rest) == |c|
    decreases |c|
  {
    if c != [] {
      assert (c + "&" + rest)[1..] == c[1..] + "&" + rest;
      FirstAmpAfter(c[1..], rest);
    }
  }

  /**
   * The URL determines both ids, as long as the city id holds no `&`
   * (configured ids are numbers, so it never does).
   */
  lemma ApiUrlInjective(city1: string, area1: string, city2: string, area2: string)
    requires '&' !in city1 && '&' !in city2
    requires ApiUrl(city1, area1) == ApiUrl(city2, area2)
    ensures city1 == city2 && area1 == area2
  {
    var prefix := ApiEndpoint + "?r=dates&city_id=";
    var u := ApiUrl(city1, area1);
    var n := |prefix|;
    var t1, t2 := city1 + "&" + ("area_id=" + area1), city2 + "&" + ("area_id=" + area2);
    assert u == prefix + t1;
    assert u == prefix + t2;
    assert t1 == u[n..] == t2;
    FirstAmpAfter(city1, "area_id=" + area1);
    FirstAmpAfter(city2, "area_id=" + area2);
    assert city1 == t1[..|city1|] && city2 == t2[..|city2|];
    assert area1 == t1[|city1| + 9..] && area2 == t2[|city2| + 9..];
  }

  /** The unawaited `'test'` write to the archive is overwritten by the archive itself. */
  lemma ArchiveOverwritesTest(sts: map<string, State>, raw: string)
    ensures sts[RawDataId := State("test", true)][RawDataId := State(raw, true)] == sts[RawDataId := State(raw, true)]
  {
  }

  /**
   * The adapter, reduced to what `processMyMuellData` touches: the states
   * and the object definitions of its namespace in the ioBroker store.
   */
  class Adapter {
    var states: map<string, State>
    var objects: map<string, ObjectDef>

    constructor (states0: map<string, State>, objects0: map<string, ObjectDef>)
      ensures states == states0 && objects == objects0
    {
      states := states0;
      objects := objects0;
    }

    /** `setState` / `setStateAsync`: overwrite the state `id`. */
    method SetState(id: string, st: State)
      modifies this
      ensures states == old(states)[id := st]
      ensures objects == old(objects)
    {
      states := states[id := st];
    }

    /** `setObjectNotExistsAsync`: define `id` unless a definition exists. */
    method SetObjectNotExists(id: string, def: ObjectDef)
      modifies this
      ensures objects == CreateIfAbsent(old(objects), id, def)
      ensures id in old(objects) ==> objects == old(objects)
      ensures states == old(states)
    {
      if id !in objects {
        objects := objects[id := def];
      }
    }

    /**
     * What the adapter does with the API's answer: only a status of 200
     * leads to processing; any other status writes nothing.
     */
    method OnApiResponse(status: int, data: seq<Entry>, serialize: seq<Entry> -> string)
      modifies this
      ensures status != 200 ==> states == old(states) && objects == old(objects)
      ensures status == 200 ==> states == PublishedStates(old(states), data, serialize(data))
      ensures status == 200 ==> objects == PublishedObjects(old(objects), data)
    {
      if status == 200 {
        ProcessMyMuellData(data, serialize);
      }
    }

    /**
     * Archive the raw data, reduce it, write the five `next.*` states when
     * there is a next collection, then for every waste type, in order of
     * first appearance, create its device and leaf objects where missing
     * and write its four leaf states.
     */
    method ProcessMyMuellData(data: seq<Entry>, serialize: seq<Entry> -> string)
      modifies this
      ensures states == PublishedStates(old(states), data, serialize(data))
      ensures objects == PublishedObjects(old(objects), data)
    {
      SetState(RawDataId, State("test", true));
      SetState(RawDataId, State(serialize(data), true));
      ArchiveOverwritesTest(old(states), serialize(data));

      var nextElement, nextByType := ReduceEntries(data);

      if nextElement.Some? {
        PublishNext(nextElement.value);
      }
      PublishWasteTypes(nextByType);
    }

    /**
     * The `for…of` loop over the keys of `nextByType`, in insertion order:
     * one `PublishWasteType` per waste type.
     */
    method PublishWasteTypes(nextByType: InsertionMap)
      requires nextByType.Valid()
      modifies this
      ensures states == WasteStates(old(states), nextByType.keys, nextByType.entries)
      ensures objects == WasteObjects(old(objects), nextByType.keys, nextByType.entries)
    {
      var keys, entries := nextByType.keys, nextByType.entries;
      for i := 0 to |keys|
        invariant states == WasteStates(old(states), keys[..i], entries)
        invariant objects == WasteObjects(old(objects), keys[..i], entries)
      {
        var key := keys[i];
        ghost var visited := keys[..i + 1];
        assert visited[..i] == keys[..i] && visited[i] == key;
        ghost var states0, objects0 := states, objects;
        PublishWasteType(key, nextByType.Get(key));
        assert states == WriteLeaves(states0, key, entries[key]);
        assert objects == EnsureTypeObjects(objects0, key, entries[key]);
      }
      assert keys[..|keys|] == keys;
    }

    /** The five `next.*` writes for the overall next entry `e`. */
    method PublishNext(e: Entry)
      modifies this
      ensures states == WriteNext(old(states), Some(e))
      ensures objects == old(objects)
    {
      SetState(NextNameId, State(e.title, true));
      SetState(NextColorId, State(e.color, true));
      SetState(NextDateId, State(e.day, true));
      SetState(NextDescId, State(e.description, true));
      SetState(NextTypeId, State(e.trashName, true));
    }

    /** One turn of the per-type loop: waste type `key` with its next entry `trashItem`. */
    method PublishWasteType(key: string, trashItem: Entry)
      modifies this
      ensures states == WriteLeaves(old(states), key, trashItem)
      ensures objects == EnsureTypeObjects(old(objects), key, trashItem)
    {
      var objectid := "waste." + key;

      SetObjectNotExists(objectid, Device(trashItem.title));

      SetObjectNotExists(objectid + ".color", LeafObject(Color));
      SetState(objectid + ".color", State(trashItem.color, true));

      SetObjectNotExists(objectid + ".name", LeafObject(Name));
      SetState(objectid + ".name", State(trashItem.title, true));

      SetObjectNotExists(objectid + ".next_date", LeafObject(NextDate));
      SetState(objectid + ".next_date", State(trashItem.day, true));

      SetObjectNotExists(objectid + ".next_desc", LeafObject(NextDesc));
      SetState(objectid + ".next_desc", State(trashItem.description, true));
    }
  }
}

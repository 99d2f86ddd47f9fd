/**
 * The publishing half of `processMyMuellData`: which states and object
 * definitions the adapter writes into the ioBroker store, as functions of
 * the store before and of the reduction's result.
 *
 * Ids are relative to the adapter's namespace. Waste type `k` gets a device
 * `waste.<k>` and four leaf states under it.
 */
module Publish {
  import opened Schedule

  /** A state value with its acknowledge flag. */
  datatype State = State(val: string, ack: bool)

  /** An object definition: a device folder, or a read-only string state with a role. */
  datatype ObjectDef =
    | Device(name: string)
    | StateObject(name: string, valueType: string, role: string, read: bool, write: bool)

  /** The four leaf states of every waste type. */
  datatype Leaf = Color | Name | NextDate | NextDesc

  const RawDataId: string := "rawDataJson"
  const NextNameId: string := "next.name"
  const NextColorId: string := "next.color"
  const NextDateId: string := "next.date"
  const NextDescId: string := "next.desc"
  const NextTypeId: string := "next.type"

  const NextIds: set<string> := {NextNameId, NextColorId, NextDateId, NextDescId, NextTypeId}

  function LeafSuffix(l: Leaf): string {
    match l
    case Color => ".color"
    case Name => ".name"
    case NextDate => ".next_date"
    case NextDesc => ".next_desc"
  }

  function DeviceId(k: string): string {
    "waste." + k
  }

  function LeafId(k: string, l: Leaf): string {
    DeviceId(k) + LeafSuffix(l)
  }

  /** The entry field a leaf shows. */
  function LeafValue(e: Entry, l: Leaf): string {
    match l
    case Color => e.color
    case Name => e.title
    case NextDate => e.day
    case NextDesc => e.description
  }

  /** The definition a leaf is created with (the same for every waste type). */
  function LeafObject(l: Leaf): ObjectDef {
    match l
    case Color => StateObject("Color", "string", "level.color.rgb", true, false)
    case Name => StateObject("Name", "string", "text", true, false)
    case NextDate => StateObject("Name", "string", "date", true, false)
    case NextDesc => StateObject("Name", "string", "text", true, false)
  }

  /** The four leaf ids of waste type `k`. */
  function TypeLeafIds(k: string): set<string> {
    {LeafId(k, Color), LeafId(k, Name), LeafId(k, NextDate), LeafId(k, NextDesc)}
  }

  /** The leaf ids of all the waste types in `keys`. */
  function LeafIds(keys: seq<string>): set<string>
    decreases |keys|
  {
    if keys == [] then {} else LeafIds(keys[..|keys| - 1]) + TypeLeafIds(keys[|keys| - 1])
  }

  /** The device and leaf ids of all the waste types in `keys`. */
  function ObjectIds(keys: seq<string>): set<string>
    decreases |keys|
  {
    if keys == [] then {} else ObjectIds(keys[..|keys| - 1]) + {DeviceId(keys[|keys| - 1])} + TypeLeafIds(keys[|keys| - 1])
  }

  /**
   * No waste type's device id is another type's leaf id (a waste type
   * named `a.color` next to one named `a` breaks this).
   */
  ghost predicate NoIdClash(keys: seq<string>) {
    forall k, k' | k in keys && k' in keys :: DeviceId(k) !in TypeLeafIds(k')
  }

  // ---------------------------------------------------------------------
  // The writes, as functions of the store before them.

  /** `setObjectNotExistsAsync`: define `id` unless it is already defined. */
  function CreateIfAbsent(objs: map<string, ObjectDef>, id: string, def: ObjectDef): map<string, ObjectDef> {
    if id in objs then objs else objs[id := def]
  }

  /** The five `next.*` writes, made only when there is a next entry. */
  function WriteNext(sts: map<string, State>, next: Option<Entry>): map<string, State> {
    match next
    case None => sts
    case Some(e) =>
      sts[NextNameId := State(e.title, true)]
         [NextColorId := State(e.color, true)]
         [NextDateId := State(e.day, true)]
         [NextDescId := State(e.description, true)]
         [NextTypeId := State(e.trashName, true)]
  }

  /** The four leaf writes of waste type `k`. */
  function WriteLeaves(sts: map<string, State>, k: string, e: Entry): map<string, State> {
    sts[LeafId(k, Color) := State(e.color, true)]
       [LeafId(k, Name) := State(e.title, true)]
       [LeafId(k, NextDate) := State(e.day, true)]
       [LeafId(k, NextDesc) := State(e.description, true)]
  }

  /** The five create-if-absent calls of waste type `k`. */
  function EnsureTypeObjects(objs: map<string, ObjectDef>, k: string, e: Entry): map<string, ObjectDef> {
    var o := CreateIfAbsent(objs, DeviceId(k), Device(e.title));
    var o := CreateIfAbsent(o, LeafId(k, Color), LeafObject(Color));
    var o := CreateIfAbsent(o, LeafId(k, Name), LeafObject(Name));
    var o := CreateIfAbsent(o, LeafId(k, NextDate), LeafObject(NextDate));
    CreateIfAbsent(o, LeafId(k, NextDesc), LeafObject(NextDesc))
  }

  /** The states after the per-type loop has visited `keys` in order. */
  function WasteStates(sts: map<string, State>, keys: seq<string>, entries: map<string, Entry>): map<string, State>
    requires forall k | k in keys :: k in entries
    decreases |keys|
  {
    if keys == [] then sts
    else
      var k := keys[|keys| - 1];
      WriteLeaves(WasteStates(sts, keys[..|keys| - 1], entries), k, entries[k])
  }

  /** The object definitions after the per-type loop has visited `keys` in order. */
  function WasteObjects(objs: map<string, ObjectDef>, keys: seq<string>, entries: map<string, Entry>): map<string, ObjectDef>
    requires forall k | k in keys :: k in entries
    decreases |keys|
  {
    if keys == [] then objs
    else
      var k := keys[|keys| - 1];
      EnsureTypeObjects(WasteObjects(objs, keys[..|keys| - 1], entries), k, entries[k])
  }

  // ---------------------------------------------------------------------
  // Ids.

  lemma LeafIdTail(k: string, l: Leaf)
    ensures |LeafId(k, l)| >= 2
    ensures LeafId(k, l)[|LeafId(k, l)| - 2..] == LeafSuffix(l)[|LeafSuffix(l)| - 2..]
  {
    var s := LeafSuffix(l);
    var x := DeviceId(k) + s;
    assert x[|x| - 2..] == s[|s| - 2..] by {
      assert x[|x| - 2] == s[|s| - 2] && x[|x| - 1] == s[|s| - 1];
    }
  }

  lemma DeviceIdInjective(k1: string, k2: string)
    requires DeviceId(k1) == DeviceId(k2)
    ensures k1 == k2
  {
    assert k1 == DeviceId(k1)[6..];
    assert k2 == DeviceId(k2)[6..];
  }

  /** Two waste types never share a leaf id, and no two leaves of a type do. */
  lemma LeafIdInjective(k1: string, l1: Leaf, k2: string, l2: Leaf)
    requires LeafId(k1, l1) == LeafId(k2, l2)
    ensures k1 == k2 && l1 == l2
  {
    LeafIdTail(k1, l1);
    LeafIdTail(k2, l2);
    assert l1 == l2;
    var x, s := LeafId(k1, l1), LeafSuffix(l1);
    assert DeviceId(k1) == x[..|x| - |s|];
    assert DeviceId(k2) == x[..|x| - |s|];
    DeviceIdInjective(k1, k2);
  }

  /** Leaf ids are neither the archive id nor a `next.*` id. */
  lemma LeafIdIsNotFixed(k: string, l: Leaf)
    ensures LeafId(k, l) != RawDataId && LeafId(k, l) !in NextIds
  {
    assert LeafId(k, l)[0] == 'w';
  }

  /** No fixed id is a leaf id of any waste type. */
  lemma FixedIdsAreNotLeafIds(keys: seq<string>)
    ensures RawDataId !in LeafIds(keys)
    ensures forall id | id in NextIds :: id !in LeafIds(keys)
  {
    LeafIdsMembers(keys);
    forall id | id in LeafIds(keys) ensures id != RawDataId && id !in NextIds {
      var k, l :| k in keys && id == LeafId(k, l);
      LeafIdIsNotFixed(k, l);
    }
  }

  // ---------------------------------------------------------------------
  // States.

  lemma WriteLeavesSpec(sts: map<string, State>, k: string, e: Entry)
    ensures forall l :: LeafId(k, l) in WriteLeaves(sts, k, e)
                        && WriteLeaves(sts, k, e)[LeafId(k, l)] == State(LeafValue(e, l), true)
    ensures WriteLeaves(sts, k, e).Keys == sts.Keys + TypeLeafIds(k)
    ensures forall id | id in sts && id !in TypeLeafIds(k) :: WriteLeaves(sts, k, e)[id] == sts[id]
  {
    forall l1, l2 | l1 != l2 ensures LeafId(k, l1) != LeafId(k, l2) {
      if LeafId(k, l1) == LeafId(k, l2) {
        LeafIdInjective(k, l1, k, l2);
      }
    }
  }

  /**
   * After the per-type loop, each leaf of each visited type holds that
   * type's entry field, acknowledged; the ids it adds are the leaf ids, and
   * every other state is as it was.
   */
  lemma {:induction false} WasteStatesSpec(sts: map<string, State>, keys: seq<string>, entries: map<string, Entry>)
    requires forall k | k in keys :: k in entries
    ensures forall k, l | k in keys :: LeafId(k, l) in WasteStates(sts, keys, entries)
                                      && WasteStates(sts, keys, entries)[LeafId(k, l)] == State(LeafValue(entries[k], l), true)
    ensures WasteStates(sts, keys, entries).Keys == sts.Keys + LeafIds(keys)
    ensures forall id | id in sts && id !in LeafIds(keys) :: WasteStates(sts, keys, entries)[id] == sts[id]
    decreases |keys|
  {
    if keys != [] {
      var n := |keys| - 1;
      var pre, k := keys[..n], keys[n];
      WasteStatesSpec(sts, pre, entries);
      var r', r := WasteStates(sts, pre, entries), WasteStates(sts, keys, entries);
      assert r == WriteLeaves(r', k, entries[k]);
      WriteLeavesSpec(r', k, entries[k]);
      forall k0, l | k0 in keys
        ensures LeafId(k0, l) in r && r[LeafId(k0, l)] == State(LeafValue(entries[k0], l), true)
      {
        if k0 != k {
          InPrefix(keys, k0);
          LeafIdNotOfOtherType(k0, l, k);
        }
      }
    }
  }

  /** A leaf id of type `k0` is none of the leaf ids of another type `k`. */
  lemma LeafIdNotOfOtherType(k0: string, l: Leaf, k: string)
    requires k0 != k
    ensures LeafId(k0, l) !in TypeLeafIds(k)
  {
    forall l' ensures LeafId(k0, l) != LeafId(k, l') {
      if LeafId(k0, l) == LeafId(k, l') {
        LeafIdInjective(k0, l, k, l');
      }
    }
  }

  /** `LeafIds(keys)` holds exactly the leaf ids of the types in `keys`. */
  lemma {:induction false} LeafIdsMembers(keys: seq<string>)
    ensures forall k, l | k in keys :: LeafId(k, l) in LeafIds(keys)
    ensures forall id | id in LeafIds(keys) :: exists k, l :: k in keys && id == LeafId(k, l)
    decreases |keys|
  {
    if keys != [] {
      var n := |keys| - 1;
      var pre, k := keys[..n], keys[n];
      LeafIdsMembers(pre);
      forall k0, l | k0 in keys ensures LeafId(k0, l) in LeafIds(keys) {
        if k0 != k {
          InPrefix(keys, k0);
        }
      }
      forall id | id in LeafIds(keys) ensures exists k0, l :: k0 in keys && id == LeafId(k0, l) {
        if id in LeafIds(pre) {
          var k0, l :| k0 in pre && id == LeafId(k0, l);
          assert k0 in keys;
        } else if id == LeafId(k, Color) {
          assert k in keys;
        } else if id == LeafId(k, Name) {
          assert k in keys;
        } else if id == LeafId(k, NextDate) {
          assert k in keys;
        } else {
          assert id == LeafId(k, NextDesc) && k in keys;
        }
      }
    }
  }

  /** An element of a non-empty sequence other than its last is in its prefix. */
  lemma InPrefix(keys: seq<string>, k0: string)
    requires keys != [] && k0 in keys && k0 != keys[|keys| - 1]
    ensures k0 in keys[..|keys| - 1]
  {
    var j :| 0 <= j < |keys| && keys[j] == k0;
    assert keys[..|keys| - 1][j] == k0;
  }

  // ---------------------------------------------------------------------
  // Object definitions.

  lemma EnsureTypeObjectsKeeps(objs: map<string, ObjectDef>, k: string, e: Entry)
    ensures EnsureTypeObjects(objs, k, e).Keys == objs.Keys + {DeviceId(k)} + TypeLeafIds(k)
    ensures forall id | id in objs :: EnsureTypeObjects(objs, k, e)[id] == objs[id]
  {
  }

  /**
   * The per-type loop never alters an existing definition; it adds a
   * definition for exactly the device and leaf ids of the visited types
   * that were missing.
   */
  lemma {:induction false} WasteObjectsKeepExisting(objs: map<string, ObjectDef>, keys: seq<string>, entries: map<string, Entry>)
    requires forall k | k in keys :: k in entries
    ensures WasteObjects(objs, keys, entries).Keys == objs.Keys + ObjectIds(keys)
    ensures forall id | id in objs :: WasteObjects(objs, keys, entries)[id] == objs[id]
    decreases |keys|
  {
    if keys != [] {
      var n := |keys| - 1;
      var pre, k := keys[..n], keys[n];
      var r := WasteObjects(objs, pre, entries);
      WasteObjectsKeepExisting(objs, pre, entries);
      EnsureTypeObjectsKeeps(r, k, entries[k]);
      assert WasteObjects(objs, keys, entries) == EnsureTypeObjects(r, k, entries[k]);
      assert ObjectIds(keys) == ObjectIds(pre) + {DeviceId(k)} + TypeLeafIds(k);
    }
  }

  /** When every id is already defined, the per-type loop changes no definition. */
  lemma {:induction false} WasteObjectsNoop(objs: map<string, ObjectDef>, keys: seq<string>, entries: map<string, Entry>)
    requires forall k | k in keys :: k in entries
    requires ObjectIds(keys) <= objs.Keys
    ensures WasteObjects(objs, keys, entries) == objs
    decreases |keys|
  {
    if keys != [] {
      var n := |keys| - 1;
      var pre, k := keys[..n], keys[n];
      WasteObjectsNoop(objs, pre, entries);
      assert {DeviceId(k)} + TypeLeafIds(k) <= objs.Keys;
    }
  }

  /**
   * Running the per-type loop a second time, even with other entries,
   * leaves the object definitions exactly as the first run left them.
   */
  lemma WasteObjectsIdempotent(objs: map<string, ObjectDef>, keys: seq<string>,
                               entries: map<string, Entry>, entries': map<string, Entry>)
    requires forall k | k in keys :: k in entries && k in entries'
    ensures WasteObjects(WasteObjects(objs, keys, entries), keys, entries') == WasteObjects(objs, keys, entries)
  {
    WasteObjectsKeepExisting(objs, keys, entries);
    WasteObjectsNoop(WasteObjects(objs, keys, entries), keys, entries');
  }

  /**
   * A definition the loop creates is the one written for that id: the
   * device named after the type's entry title, or the leaf's fixed
   * definition, provided device and leaf ids do not clash.
   */
  lemma WasteObjectsDefinitions(objs: map<string, ObjectDef>, keys: seq<string>, entries: map<string, Entry>)
    requires forall k | k in keys :: k in entries
    requires NoIdClash(keys)
    ensures forall k | k in keys && DeviceId(k) !in objs ::
      DeviceId(k) in WasteObjects(objs, keys, entries) &&
      WasteObjects(objs, keys, entries)[DeviceId(k)] == Device(entries[k].title)
    ensures forall k, l | k in keys && LeafId(k, l) !in objs ::
      LeafId(k, l) in WasteObjects(objs, keys, entries) &&
      WasteObjects(objs, keys, entries)[LeafId(k, l)] == LeafObject(l)
  {
    forall k | k in keys && DeviceId(k) !in objs
      ensures DeviceId(k) in WasteObjects(objs, keys, entries)
      ensures WasteObjects(objs, keys, entries)[DeviceId(k)] == Device(entries[k].title)
    {
      DeviceDefinedAt(objs, keys, entries, k);
    }
    forall k, l | k in keys && LeafId(k, l) !in objs
      ensures LeafId(k, l) in WasteObjects(objs, keys, entries)
      ensures WasteObjects(objs, keys, entries)[LeafId(k, l)] == LeafObject(l)
    {
      LeafDefinedAt(objs, keys, entries, k, l);
    }
  }

  lemma {:induction false} DeviceDefinedAt(objs: map<string, ObjectDef>, keys: seq<string>, entries: map<string, Entry>, k0: string)
    requires forall k | k in keys :: k in entries
    requires NoIdClash(keys)
    requires k0 in keys && DeviceId(k0) !in objs
    ensures DeviceId(k0) in WasteObjects(objs, keys, entries)
    ensures WasteObjects(objs, keys, entries)[DeviceId(k0)] == Device(entries[k0].title)
    decreases |keys|
  {
    var n := |keys| - 1;
    var pre, k := keys[..n], keys[n];
    var r' := WasteObjects(objs, pre, entries);
    assert WasteObjects(objs, keys, entries) == EnsureTypeObjects(r', k, entries[k]);
    EnsureTypeObjectsKeeps(r', k, entries[k]);
    if k0 != k {
      InPrefix(keys, k0);
    }
    if k0 in pre {
      NoIdClashPrefix(keys);
      DeviceDefinedAt(objs, pre, entries, k0);
    } else {
      WasteObjectsKeepExisting(objs, pre, entries);
      NewTypeIdsAreFresh(pre, k);
      EnsureTypeObjectsCreates(r', k, entries[k]);
    }
  }

  lemma {:induction false} LeafDefinedAt(objs: map<string, ObjectDef>, keys: seq<string>, entries: map<string, Entry>, k0: string, l: Leaf)
    requires forall k | k in keys :: k in entries
    requires NoIdClash(keys)
    requires k0 in keys && LeafId(k0, l) !in objs
    ensures LeafId(k0, l) in WasteObjects(objs, keys, entries)
    ensures WasteObjects(objs, keys, entries)[LeafId(k0, l)] == LeafObject(l)
    decreases |keys|
  {
    var n := |keys| - 1;
    var pre, k := keys[..n], keys[n];
    var r' := WasteObjects(objs, pre, entries);
    assert WasteObjects(objs, keys, entries) == EnsureTypeObjects(r', k, entries[k]);
    EnsureTypeObjectsKeeps(r', k, entries[k]);
    if k0 != k {
      InPrefix(keys, k0);
    }
    if k0 in pre {
      NoIdClashPrefix(keys);
      LeafDefinedAt(objs, pre, entries, k0, l);
    } else {
      WasteObjectsKeepExisting(objs, pre, entries);
      NewTypeIdsAreFresh(pre, k);
      EnsureTypeObjectsCreates(r', k, entries[k]);
    }
  }

  lemma NoIdClashPrefix(keys: seq<string>)
    requires keys != [] && NoIdClash(keys)
    ensures NoIdClash(keys[..|keys| - 1])
  {
    assert forall x | x in keys[..|keys| - 1] :: x in keys;
  }

  /**
   * A type not among `pre` has no device or leaf id in `ObjectIds(pre)`,
   * provided no device id clashes with a leaf id.
   */
  lemma {:induction false} NewTypeIdsAreFresh(pre: seq<string>, k: string)
    requires k !in pre
    requires NoIdClash(pre + [k])
    ensures DeviceId(k) !in ObjectIds(pre)
    ensures forall l :: LeafId(k, l) !in ObjectIds(pre)
    decreases |pre|
  {
    if pre != [] {
      var n := |pre| - 1;
      var p, k0 := pre[..n], pre[n];
      assert forall x | x in p + [k] :: x in pre + [k];
      NewTypeIdsAreFresh(p, k);
      assert k0 in pre + [k] && k in pre + [k];
      assert DeviceId(k) !in TypeLeafIds(k0) && DeviceId(k0) !in TypeLeafIds(k);
      if DeviceId(k) == DeviceId(k0) {
        DeviceIdInjective(k, k0);
      }
      forall l ensures LeafId(k, l) !in TypeLeafIds(k0) {
        LeafIdNotOfOtherType(k, l, k0);
      }
    }
  }

  /** Each of the five creations of a type defines its id when that id was missing. */
  lemma EnsureTypeObjectsCreates(objs: map<string, ObjectDef>, k: string, e: Entry)
    ensures DeviceId(k) !in objs ==> EnsureTypeObjects(objs, k, e)[DeviceId(k)] == Device(e.title)
    ensures forall l | LeafId(k, l) !in objs :: EnsureTypeObjects(objs, k, e)[LeafId(k, l)] == LeafObject(l)
  {
    forall l ensures DeviceId(k) != LeafId(k, l) {
      assert |DeviceId(k)| < |LeafId(k, l)|;
    }
    forall l1, l2 | l1 != l2 ensures LeafId(k, l1) != LeafId(k, l2) {
      if LeafId(k, l1) == LeafId(k, l2) {
        LeafIdInjective(k, l1, k, l2);
      }
    }
  }

  // ---------------------------------------------------------------------
  // The whole publishing step.

  /** The states after `processMyMuellData`, given the archived text `raw`. */
  function PublishedStates(sts: map<string, State>, data: seq<Entry>, raw: string): map<string, State> {
    var m := ByTypeOf(data);
    WasteStates(WriteNext(sts[RawDataId := State(raw, true)], NextOf(data)), m.keys, m.entries)
  }

  /** The object definitions after `processMyMuellData`. */
  function PublishedObjects(objs: map<string, ObjectDef>, data: seq<Entry>): map<string, ObjectDef> {
    var m := ByTypeOf(data);
    WasteObjects(objs, m.keys, m.entries)
  }

  /** The archive id is none of the `next.*` ids. */
  lemma ArchiveIdIsNotNextId()
    ensures RawDataId !in NextIds
  {
    assert RawDataId[0] == 'r';
    assert forall id | id in NextIds :: id[0] == 'n';
  }

  /** A state outside the leaf ids survives the per-type loop. */
  lemma WasteStatesAt(sts: map<string, State>, keys: seq<string>, entries: map<string, Entry>, id: string)
    requires forall k | k in keys :: k in entries
    requires id in sts && id !in LeafIds(keys)
    ensures id in WasteStates(sts, keys, entries) && WasteStates(sts, keys, entries)[id] == sts[id]
  {
    WasteStatesSpec(sts, keys, entries);
  }

  /** The `next.*` writes: the five fields of the next entry, or nothing. */
  lemma WriteNextSpec(sts: map<string, State>, next: Option<Entry>)
    ensures WriteNext(sts, next).Keys == sts.Keys + (if next.Some? then NextIds else {})
    ensures forall id | id in sts && (next.Some? ==> id !in NextIds) :: WriteNext(sts, next)[id] == sts[id]
    ensures next.Some? ==>
      && WriteNext(sts, next)[NextNameId] == State(next.value.title, true)
      && WriteNext(sts, next)[NextColorId] == State(next.value.color, true)
      && WriteNext(sts, next)[NextDateId] == State(next.value.day, true)
      && WriteNext(sts, next)[NextDescId] == State(next.value.description, true)
      && WriteNext(sts, next)[NextTypeId] == State(next.value.trashName, true)
  {
  }

  /** `rawDataJson` holds the archived text, acknowledged. */
  lemma PublishedArchive(sts: map<string, State>, data: seq<Entry>, raw: string)
    ensures RawDataId in PublishedStates(sts, data, raw)
    ensures PublishedStates(sts, data, raw)[RawDataId] == State(raw, true)
  {
    var m := ByTypeOf(data);
    var s1 := sts[RawDataId := State(raw, true)];
    var s2 := WriteNext(s1, NextOf(data));
    assert PublishedStates(sts, data, raw) == WasteStates(s2, m.keys, m.entries);
    FixedIdsAreNotLeafIds(m.keys);
    ArchiveIdIsNotNextId();
    WriteNextSpec(s1, NextOf(data));
    WasteStatesAt(s2, m.keys, m.entries, RawDataId);
  }

  /**
   * For non-empty input the five `next.*` states hold the fields of the
   * overall next entry, acknowledged.
   */
  lemma PublishedNext(sts: map<string, State>, data: seq<Entry>, raw: string)
    requires data != []
    ensures NextIds <= PublishedStates(sts, data, raw).Keys
    ensures PublishedStates(sts, data, raw)[NextNameId] == State(NextOf(data).value.title, true)
    ensures PublishedStates(sts, data, raw)[NextColorId] == State(NextOf(data).value.color, true)
    ensures PublishedStates(sts, data, raw)[NextDateId] == State(NextOf(data).value.day, true)
    ensures PublishedStates(sts, data, raw)[NextDescId] == State(NextOf(data).value.description, true)
    ensures PublishedStates(sts, data, raw)[NextTypeId] == State(NextOf(data).value.trashName, true)
  {
    var m := ByTypeOf(data);
    NextOfNoneIffEmpty(data);
    var s2 := WriteNext(sts[RawDataId := State(raw, true)], NextOf(data));
    assert PublishedStates(sts, data, raw) == WasteStates(s2, m.keys, m.entries);
    NextSurvivesWasteStates(sts[RawDataId := State(raw, true)], NextOf(data).value, m.keys, m.entries);
  }

  /** The per-type loop leaves the five `next.*` states as written. */
  lemma NextSurvivesWasteStates(sts: map<string, State>, e: Entry, keys: seq<string>, entries: map<string, Entry>)
    requires forall k | k in keys :: k in entries
    ensures NextIds <= WasteStates(WriteNext(sts, Some(e)), keys, entries).Keys
    ensures WasteStates(WriteNext(sts, Some(e)), keys, entries)[NextNameId] == State(e.title, true)
    ensures WasteStates(WriteNext(sts, Some(e)), keys, entries)[NextColorId] == State(e.color, true)
    ensures WasteStates(WriteNext(sts, Some(e)), keys, entries)[NextDateId] == State(e.day, true)
    ensures WasteStates(WriteNext(sts, Some(e)), keys, entries)[NextDescId] == State(e.description, true)
    ensures WasteStates(WriteNext(sts, Some(e)), keys, entries)[NextTypeId] == State(e.trashName, true)
  {
    var s2 := WriteNext(sts, Some(e));
    FixedIdsAreNotLeafIds(keys);
    WriteNextSpec(sts, Some(e));
    WasteStatesAt(s2, keys, entries, NextNameId);
    WasteStatesAt(s2, keys, entries, NextColorId);
    WasteStatesAt(s2, keys, entries, NextDateId);
    WasteStatesAt(s2, keys, entries, NextDescId);
    WasteStatesAt(s2, keys, entries, NextTypeId);
  }

  /** Every waste type's four leaves hold the fields of that type's next entry. */
  lemma PublishedLeaves(sts: map<string, State>, data: seq<Entry>, raw: string)
    ensures forall k, l | k in ByTypeOf(data).keys ::
      && LeafId(k, l) in PublishedStates(sts, data, raw)
      && PublishedStates(sts, data, raw)[LeafId(k, l)] == State(LeafValue(ByTypeOf(data).Get(k), l), true)
  {
    var m := ByTypeOf(data);
    var s2 := WriteNext(sts[RawDataId := State(raw, true)], NextOf(data));
    assert PublishedStates(sts, data, raw) == WasteStates(s2, m.keys, m.entries);
    WasteStatesSpec(s2, m.keys, m.entries);
  }

  /**
   * Publishing writes no state but the archive, the `next.*` states (only
   * for non-empty input) and the leaves of the input's waste types; with
   * empty input it writes only the archive.
   */
  lemma PublishedFrame(sts: map<string, State>, data: seq<Entry>, raw: string)
    ensures PublishedStates(sts, data, raw).Keys
            == sts.Keys + {RawDataId} + (if data == [] then {} else NextIds) + LeafIds(ByTypeOf(data).keys)
    ensures forall id | id in sts && id != RawDataId && (data != [] ==> id !in NextIds)
                        && id !in LeafIds(ByTypeOf(data).keys) :: PublishedStates(sts, data, raw)[id] == sts[id]
    ensures data == [] ==> PublishedStates(sts, data, raw) == sts[RawDataId := State(raw, true)]
  {
    var m := ByTypeOf(data);
    NextOfNoneIffEmpty(data);
    var s2 := WriteNext(sts[RawDataId := State(raw, true)], NextOf(data));
    assert PublishedStates(sts, data, raw) == WasteStates(s2, m.keys, m.entries);
    WrittenStates(sts, raw, NextOf(data), m.keys, m.entries);
    if data == [] {
      assert m.keys == [];
    }
  }

  /** The ids written by the archive, the `next.*` writes and the per-type loop, and nothing else. */
  lemma WrittenStates(sts: map<string, State>, raw: string, next: Option<Entry>,
                      keys: seq<string>, entries: map<string, Entry>)
    requires forall k | k in keys :: k in entries
    ensures WasteStates(WriteNext(sts[RawDataId := State(raw, true)], next), keys, entries).Keys
            == sts.Keys + {RawDataId} + (if next.Some? then NextIds else {}) + LeafIds(keys)
    ensures forall id | id in sts && id != RawDataId && (next.Some? ==> id !in NextIds) && id !in LeafIds(keys) ::
              WasteStates(WriteNext(sts[RawDataId := State(raw, true)], next), keys, entries)[id] == sts[id]
  {
    var s1 := sts[RawDataId := State(raw, true)];
    WriteNextSpec(s1, next);
    WasteStatesSpec(WriteNext(s1, next), keys, entries);
  }

  /**
   * Publishing only adds object definitions, for exactly the device and
   * leaf ids of the input's waste types; with empty input it adds none.
   */
  lemma PublishedObjectsSpec(objs: map<string, ObjectDef>, data: seq<Entry>)
    ensures PublishedObjects(objs, data).Keys == objs.Keys + ObjectIds(ByTypeOf(data).keys)
    ensures forall id | id in objs :: PublishedObjects(objs, data)[id] == objs[id]
    ensures data == [] ==> PublishedObjects(objs, data) == objs
  {
    var m := ByTypeOf(data);
    WasteObjectsKeepExisting(objs, m.keys, m.entries);
  }

  lemma {:induction false} ObjectIdsOfType(keys: seq<string>, k: string)
    requires k in keys
    ensures DeviceId(k) in ObjectIds(keys) && TypeLeafIds(k) <= ObjectIds(keys)
    decreases |keys|
  {
    var n := |keys| - 1;
    if keys[n] != k {
      InPrefix(keys, k);
      ObjectIdsOfType(keys[..n], k);
    }
  }

  /** Fewer waste types have fewer ids. */
  lemma {:induction false} ObjectIdsMono(keys: seq<string>, keys': seq<string>)
    requires forall k | k in keys' :: k in keys
    ensures ObjectIds(keys') <= ObjectIds(keys)
    decreases |keys'|
  {
    if keys' != [] {
      var n := |keys'| - 1;
      assert forall k | k in keys'[..n] :: k in keys';
      ObjectIdsMono(keys, keys'[..n]);
      ObjectIdsOfType(keys, keys'[n]);
    }
  }

  /**
   * A second run on data with no new waste type (the same data, say)
   * leaves every object definition exactly as the first run left it.
   */
  lemma PublishTwiceKeepsObjects(objs: map<string, ObjectDef>, data: seq<Entry>, data': seq<Entry>)
    requires Names(data') <= Names(data)
    ensures PublishedObjects(PublishedObjects(objs, data), data') == PublishedObjects(objs, data)
  {
    var m, m' := ByTypeOf(data), ByTypeOf(data');
    ByTypeKeysInFirstSeenOrder(data);
    ByTypeKeysInFirstSeenOrder(data');
    PublishedObjectsSpec(objs, data);
    ObjectIdsMono(m.keys, m'.keys);
    WasteObjectsNoop(PublishedObjects(objs, data), m'.keys, m'.entries);
  }
}

/**
 * The reduction half of `processMyMuellData`: one pass over the collection
 * entries delivered by the MyMuell API that finds the next collection
 * overall and the next collection of every waste type.
 */
module Schedule {
  import opened JsOrder

  datatype Option<T> = None | Some(value: T)

  /** One collection date as delivered by the API (the fields the adapter reads). */
  datatype Entry = Entry(day: string, title: string, color: string, description: string, trashName: string)

  /**
   * A JavaScript `Map` from waste type to entry: its values, and its keys in
   * insertion order. `Set` on a key already present replaces the value and
   * leaves the key where it is.
   */
  datatype InsertionMap = InsertionMap(keys: seq<string>, entries: map<string, Entry>) {

    ghost predicate Valid() {
      && (forall i, j | 0 <= i < j < |keys| :: keys[i] != keys[j])
      && (forall k :: k in entries <==> k in keys)
    }

    predicate Has(k: string) {
      k in entries
    }

    function Get(k: string): Entry
      requires Has(k)
    {
      entries[k]
    }

    function Set(k: string, e: Entry): (r: InsertionMap)
      requires Valid()
      ensures r.Valid()
      ensures r.Has(k) && r.Get(k) == e
      ensures forall k' | k' != k :: r.Has(k') == Has(k') && (Has(k') ==> r.Get(k') == Get(k'))
      ensures Has(k) ==> r.keys == keys
      ensures !Has(k) ==> r.keys == keys + [k]
    {
      if k in entries then InsertionMap(keys, entries[k := e])
      else InsertionMap(keys + [k], entries[k := e])
    }
  }

  const EmptyMap: InsertionMap := InsertionMap([], map[])

  /** The waste types that occur in `s`. */
  function Names(s: seq<Entry>): set<string> {
    set e | e in s :: e.trashName
  }

  /** The entries of `s` whose waste type is `k`, in input order. */
  function OfType(s: seq<Entry>, k: string): seq<Entry>
    decreases |s|
  {
    if s == [] then []
    else OfType(s[..|s| - 1], k) + (if s[|s| - 1].trashName == k then [s[|s| - 1]] else [])
  }

  /**
   * `s[i]` is the first entry of `s` with the smallest day: no entry has an
   * earlier day, and every entry before it has a strictly later day.
   */
  ghost predicate IsFirstMinimum(s: seq<Entry>, i: int) {
    && 0 <= i < |s|
    && (forall j | 0 <= j < |s| :: !Before(s[j].day, s[i].day))
    && (forall j | 0 <= j < i :: Before(s[i].day, s[j].day))
  }

  /** `keys` are distinct, and each occurs in `s` only after every key listed before it has. */
  ghost predicate KeysInFirstSeenOrder(s: seq<Entry>, keys: seq<string>) {
    forall i, j | 0 <= i < j < |keys| :: keys[i] != keys[j] && SeenBefore(s, keys[i], keys[j])
  }

  /** `e` is the first entry of waste type `k` in `s` with that type's earliest day. */
  ghost predicate IsFirstMinimumOfType(s: seq<Entry>, k: string, e: Entry) {
    exists i :: IsFirstMinimum(OfType(s, k), i) && OfType(s, k)[i] == e
  }

  /** Every occurrence of waste type `b` in `s` comes after an occurrence of `a`. */
  ghost predicate SeenBefore(s: seq<Entry>, a: string, b: string) {
    forall p | 0 <= p < |s| && s[p].trashName == b :: a in Names(s[..p])
  }

  // ---------------------------------------------------------------------
  // The loop body, one element at a time, and the pass as a left fold.

  /** `nextElement` after visiting `e`: replaced only by a strictly earlier day. */
  function StepNext(next: Option<Entry>, e: Entry): Option<Entry> {
    if next.None? || Before(e.day, next.value.day) then Some(e) else next
  }

  /** `nextByType` after visiting `e`. */
  function StepByType(m: InsertionMap, e: Entry): InsertionMap
    requires m.Valid()
  {
    if m.Has(e.trashName) then
      if Before(e.day, m.Get(e.trashName).day) then m.Set(e.trashName, e) else m
    else m.Set(e.trashName, e)
  }

  /** `nextElement` after the pass over `s`. */
  function NextOf(s: seq<Entry>): Option<Entry>
    decreases |s|
  {
    if s == [] then None else StepNext(NextOf(s[..|s| - 1]), s[|s| - 1])
  }

  /** `nextByType` after the pass over `s`. */
  function ByTypeOf(s: seq<Entry>): (m: InsertionMap)
    ensures m.Valid()
    decreases |s|
  {
    if s == [] then EmptyMap else StepByType(ByTypeOf(s[..|s| - 1]), s[|s| - 1])
  }

  /**
   * The `forEach` pass over the API data: after it, `nextElement` is the
   * first entry with the earliest day (none for empty input) and
   * `nextByType` maps each waste type, in order of first appearance, to the
   * first entry of that type with its earliest day.
   */
  method ReduceEntries(data: seq<Entry>) returns (nextElement: Option<Entry>, nextByType: InsertionMap)
    ensures nextElement == NextOf(data) && nextByType == ByTypeOf(data)
    ensures nextElement.None? <==> data == []
    ensures nextElement.Some? ==> exists i :: IsFirstMinimum(data, i) && data[i] == nextElement.value
    ensures forall k :: nextByType.Has(k) <==> k in Names(data)
    ensures forall k | nextByType.Has(k) :: nextByType.Get(k) in data && nextByType.Get(k).trashName == k
    ensures forall k | nextByType.Has(k) ::
      forall j | 0 <= j < |data| && data[j].trashName == k :: !Before(data[j].day, nextByType.Get(k).day)
    ensures nextElement.Some? ==> nextByType.Has(nextElement.value.trashName)
                                  && nextByType.Get(nextElement.value.trashName) == nextElement.value
    ensures forall k | nextByType.Has(k) ::
      IsFirstMinimumOfType(data, k, nextByType.Get(k))
    ensures KeysInFirstSeenOrder(data, nextByType.keys)
  {
    nextElement := None;
    nextByType := EmptyMap;
    for i := 0 to |data|
      invariant nextElement == NextOf(data[..i])
      invariant nextByType == ByTypeOf(data[..i])
    {
      var element := data[i];
      assert data[..i + 1][..i] == data[..i];
      if nextElement.None? || Before(element.day, nextElement.value.day) {
        nextElement := Some(element);
      }
      if nextByType.Has(element.trashName) {
        if Before(element.day, nextByType.Get(element.trashName).day) {
          nextByType := nextByType.Set(element.trashName, element);
        }
      } else {
        nextByType := nextByType.Set(element.trashName, element);
      }
    }
    assert data[..|data|] == data;
    ReductionSpec(data);
  }

  // ---------------------------------------------------------------------
  // The overall minimum.

  lemma NextOfNoneIffEmpty(s: seq<Entry>)
    ensures NextOf(s).None? <==> s == []
  {
  }

  /** `nextElement` is the first entry of the input that has the earliest day. */
  lemma {:induction false} NextIsFirstMinimum(s: seq<Entry>) returns (i: int)
    requires s != []
    ensures IsFirstMinimum(s, i) && NextOf(s) == Some(s[i])
    decreases |s|
  {
    var n := |s| - 1;
    var p, e := s[..n], s[n];
    if p == [] {
      i := 0;
      BeforeIrreflexive(e.day);
    } else {
      var q := NextIsFirstMinimum(p);
      if Before(e.day, p[q].day) {
        i := n;
        forall j | 0 <= j < n
          ensures Before(s[i].day, s[j].day) && !Before(s[j].day, s[i].day)
        {
          assert s[j] == p[j];
          BeforeThenNotBefore(e.day, p[q].day, p[j].day);
          BeforeAsymmetric(e.day, p[j].day);
        }
        BeforeIrreflexive(e.day);
      } else {
        i := q;
        assert forall j | 0 <= j < n :: s[j] == p[j];
      }
    }
  }

  /** Only one index can be the first with the earliest day. */
  lemma FirstMinimumUnique(s: seq<Entry>, i: int, i': int)
    requires IsFirstMinimum(s, i) && IsFirstMinimum(s, i')
    ensures i == i'
  {
    var d, d' := s[i].day, s[i'].day;
    assert i < i' ==> Before(d', d);
    assert i' < i ==> Before(d, d');
  }

  // ---------------------------------------------------------------------
  // The minimum per waste type.

  lemma {:induction false} OfTypeMembers(s: seq<Entry>, k: string)
    ensures forall e :: e in OfType(s, k) <==> e in s && e.trashName == k
    decreases |s|
  {
    if s != [] {
      var n := |s| - 1;
      OfTypeMembers(s[..n], k);
      assert s == s[..n] + [s[n]];
    }
  }

  lemma {:induction false} OfTypeOfAbsentType(s: seq<Entry>, k: string)
    requires k !in Names(s)
    ensures OfType(s, k) == []
    decreases |s|
  {
    if s != [] {
      var n := |s| - 1;
      assert s[n] in s;
      assert Names(s[..n]) <= Names(s) by {
        forall x | x in s[..n] ensures x in s { }
      }
      OfTypeOfAbsentType(s[..n], k);
    }
  }

  lemma NamesOfSnoc(p: seq<Entry>, e: Entry)
    ensures Names(p + [e]) == Names(p) + {e.trashName}
  {
    assert forall x :: x in p + [e] <==> x in p || x == e;
  }

  /**
   * The value `nextByType` holds for a waste type is what the overall
   * search gives when run on the entries of that type only, and its keys
   * are exactly the waste types of the input.
   */
  lemma {:induction false} ByTypeIsNextOfType(s: seq<Entry>)
    ensures forall k :: ByTypeOf(s).Has(k) <==> k in Names(s)
    ensures forall k | ByTypeOf(s).Has(k) :: NextOf(OfType(s, k)) == Some(ByTypeOf(s).Get(k))
    decreases |s|
  {
    if s != [] {
      var n := |s| - 1;
      var p, e := s[..n], s[n];
      assert s == p + [e];
      ByTypeIsNextOfType(p);
      NamesOfSnoc(p, e);
      var m, m' := ByTypeOf(p), ByTypeOf(s);
      forall k | m'.Has(k)
        ensures NextOf(OfType(s, k)) == Some(m'.Get(k))
      {
        if k == e.trashName {
          var t := OfType(p, k);
          assert OfType(s, k) == t + [e];
          assert (t + [e])[..|t|] == t;
          if !m.Has(k) {
            OfTypeOfAbsentType(p, k);
          }
        } else {
          assert OfType(s, k) == OfType(p, k);
        }
      }
    }
  }

  /**
   * The entry `nextByType` holds for waste type `k` is an input entry of
   * that type, no entry of that type has an earlier day, and it is the
   * first entry of that type with that day.
   */
  lemma ByTypeIsFirstMinimumOfType(s: seq<Entry>, k: string) returns (i: int)
    requires k in Names(s)
    ensures ByTypeOf(s).Has(k)
    ensures IsFirstMinimum(OfType(s, k), i) && ByTypeOf(s).Get(k) == OfType(s, k)[i]
    ensures ByTypeOf(s).Get(k) in s && ByTypeOf(s).Get(k).trashName == k
    ensures forall j | 0 <= j < |s| && s[j].trashName == k :: !Before(s[j].day, ByTypeOf(s).Get(k).day)
  {
    ByTypeIsNextOfType(s);
    OfTypeMembers(s, k);
    var t := OfType(s, k);
    i := NextIsFirstMinimum(t);
    assert t[i] in t;
    forall j | 0 <= j < |s| && s[j].trashName == k
      ensures !Before(s[j].day, t[i].day)
    {
      assert s[j] in t;
      var j' :| 0 <= j' < |t| && t[j'] == s[j];
    }
  }

  /**
   * One step of the pass keeps the overall next entry stored under its own
   * waste type, provided a new overall minimum is also earlier than the
   * entry stored for its type.
   */
  lemma StepKeepsNextInByType(m: InsertionMap, x: Entry, e: Entry)
    requires m.Valid() && m.Has(x.trashName) && m.Get(x.trashName) == x
    requires Before(e.day, x.day) && m.Has(e.trashName) ==> Before(e.day, m.Get(e.trashName).day)
    ensures StepByType(m, e).Has(StepNext(Some(x), e).value.trashName)
    ensures StepByType(m, e).Get(StepNext(Some(x), e).value.trashName) == StepNext(Some(x), e).value
  {
  }

  /** The overall next entry is also the next entry of its own waste type. */
  lemma {:induction false} NextIsNextOfItsType(s: seq<Entry>)
    requires s != []
    ensures ByTypeOf(s).Has(NextOf(s).value.trashName)
    ensures ByTypeOf(s).Get(NextOf(s).value.trashName) == NextOf(s).value
    decreases |s|
  {
    var n := |s| - 1;
    var p, e := s[..n], s[n];
    if p != [] {
      NextIsNextOfItsType(p);
      var m, x := ByTypeOf(p), NextOf(p).value;
      if Before(e.day, x.day) && m.Has(e.trashName) {
        var q := NextIsFirstMinimum(p);
        ByTypeIsNextOfType(p);
        var r := ByTypeIsFirstMinimumOfType(p, e.trashName);
        var y := m.Get(e.trashName);
        var j :| 0 <= j < |p| && p[j] == y;
        BeforeThenNotBefore(e.day, x.day, y.day);
      }
      StepKeepsNextInByType(m, x, e);
    }
  }

  /**
   * Appending an entry keeps `a` before `b` when `a` already occurs and
   * every earlier occurrence of `b` already followed one of `a`.
   */
  lemma SeenBeforeSnoc(p: seq<Entry>, e: Entry, a: string, b: string)
    requires a in Names(p)
    requires b in Names(p) ==> SeenBefore(p, a, b)
    ensures SeenBefore(p + [e], a, b)
  {
    var s := p + [e];
    forall x | 0 <= x < |s| && s[x].trashName == b
      ensures a in Names(s[..x])
    {
      if x == |p| {
        assert s[..x] == p;
      } else {
        assert s[..x] == p[..x] && p[x] == s[x];
      }
    }
  }

  /**
   * The keys of `nextByType` are the waste types in order of first
   * appearance in the input, each once.
   */
  lemma {:induction false} ByTypeKeysInFirstSeenOrder(s: seq<Entry>)
    ensures forall i, j | 0 <= i < j < |ByTypeOf(s).keys| :: ByTypeOf(s).keys[i] != ByTypeOf(s).keys[j]
    ensures forall k :: k in ByTypeOf(s).keys <==> k in Names(s)
    ensures forall i, j | 0 <= i < j < |ByTypeOf(s).keys| :: SeenBefore(s, ByTypeOf(s).keys[i], ByTypeOf(s).keys[j])
    decreases |s|
  {
    ByTypeIsNextOfType(s);
    if s != [] {
      var n := |s| - 1;
      var p, e := s[..n], s[n];
      assert s == p + [e];
      ByTypeKeysInFirstSeenOrder(p);
      ByTypeIsNextOfType(p);
      var ks, ks' := ByTypeOf(p).keys, ByTypeOf(s).keys;
      assert ks' == ks || ks' == ks + [e.trashName];
      forall i, j | 0 <= i < j < |ks'|
        ensures SeenBefore(s, ks'[i], ks'[j])
      {
        assert ks'[i] == ks[i];
        if j < |ks| {
          assert ks'[j] == ks[j];
        }
        SeenBeforeSnoc(p, e, ks'[i], ks'[j]);
      }
    }
  }

  /**
   * Everything the pass promises. `nextElement` is absent exactly for empty
   * input, and otherwise is the first entry with the earliest day and is
   * stored under its own type. The keys of `nextByType` are the input's
   * waste types, distinct and in order of first appearance, and each holds
   * the first entry of its type with that type's earliest day.
   */
  lemma ReductionSpec(s: seq<Entry>)
    ensures NextOf(s).None? <==> s == []
    ensures NextOf(s).Some? ==> exists i :: IsFirstMinimum(s, i) && s[i] == NextOf(s).value
    ensures NextOf(s).Some? ==> ByTypeOf(s).Has(NextOf(s).value.trashName)
                                && ByTypeOf(s).Get(NextOf(s).value.trashName) == NextOf(s).value
    ensures forall k :: ByTypeOf(s).Has(k) <==> k in Names(s)
    ensures forall k | ByTypeOf(s).Has(k) :: ByTypeOf(s).Get(k) in s && ByTypeOf(s).Get(k).trashName == k
    ensures forall k | ByTypeOf(s).Has(k) ::
      forall j | 0 <= j < |s| && s[j].trashName == k :: !Before(s[j].day, ByTypeOf(s).Get(k).day)
    ensures forall k | ByTypeOf(s).Has(k) ::
      IsFirstMinimumOfType(s, k, ByTypeOf(s).Get(k))
    ensures KeysInFirstSeenOrder(s, ByTypeOf(s).keys)
  {
    NextOfNoneIffEmpty(s);
    if s != [] {
      var i := NextIsFirstMinimum(s);
      NextIsNextOfItsType(s);
    }
    var m := ByTypeOf(s);
    ByTypeIsNextOfType(s);
    forall k | m.Has(k)
      ensures m.Get(k) in s && m.Get(k).trashName == k
      ensures forall j | 0 <= j < |s| && s[j].trashName == k :: !Before(s[j].day, m.Get(k).day)
      ensures IsFirstMinimumOfType(s, k, m.Get(k))
    {
      var i := ByTypeIsFirstMinimumOfType(s, k);
      assert IsFirstMinimum(OfType(s, k), i) && OfType(s, k)[i] == m.Get(k);
    }
    ByTypeKeysInFirstSeenOrder(s);
  }

  /**
   * A worked run: `a1` and `a2` share a waste type, `b` has another type
   * and the earliest day, and `a1` comes before `a2` (paper on 2024-01-10,
   * bio on 2024-01-05, paper on 2024-01-20). The next collection is `b`;
   * the types are `a1`'s then `b`'s, each with its earliest entry.
   */
  lemma ExampleRun(a1: Entry, b: Entry, a2: Entry)
    requires a1.trashName == a2.trashName != b.trashName
    requires Before(b.day, a1.day) && Before(a1.day, a2.day)
    ensures NextOf([a1, b, a2]) == Some(b)
    ensures ByTypeOf([a1, b, a2]).keys == [a1.trashName, b.trashName]
    ensures ByTypeOf([a1, b, a2]).Get(a1.trashName) == a1
    ensures ByTypeOf([a1, b, a2]).Get(b.trashName) == b
  {
    var data, d2, d1 := [a1, b, a2], [a1, b], [a1];
    assert data[..2] == d2 && d2[..1] == d1 && d1[..0] == [];
    BeforeTransitive(b.day, a1.day, a2.day);
    BeforeAsymmetric(b.day, a2.day);
    BeforeAsymmetric(a1.day, a2.day);
    assert NextOf(d1) == Some(a1);
    assert NextOf(d2) == Some(b);
    var m1 := ByTypeOf(d1);
    assert ByTypeOf(d1[..0]) == EmptyMap;
    assert m1 == StepByType(EmptyMap, a1);
    assert !EmptyMap.Has(a1.trashName);
    assert m1.keys == [a1.trashName] && m1.Get(a1.trashName) == a1;
    var m2 := ByTypeOf(d2);
    assert m2 == StepByType(m1, b) == m1.Set(b.trashName, b);
    assert m2.keys == [a1.trashName, b.trashName];
    assert ByTypeOf(data) == StepByType(m2, a2) == m2;
  }
}

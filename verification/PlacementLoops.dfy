/**
 Placing account entries in lookup tables, loop by loop. The source keeps, for each table, the
 indexes of the writable and of the readonly addresses it loads, and drops tables that load none;
 the loops are proved to produce the static entries, the loaded keys and the lookups of the compiler,
 including its error for a table of too many addresses.
 */
module PlacementLoops {
  import opened Wrappers
  import opened Bytes
  import opened Message
  import opened AccountMetas
  import opened KeyTable
  import opened HeaderOrder
  import opened Compiler

  datatype LookupCompilation = LookupCompilation(
    staticMetas: seq<Meta>,
    writableLoaded: seq<Key>,
    readonlyLoaded: seq<Key>,
    lookups: seq<TableLookup>)

  /** What placing computes: the static entries in order of first use, and the loaded parts table by table. */
  function Placed(ms: seq<Meta>, tables: seq<LookupTable>): LookupCompilation
    requires SmallTables(tables)
  {
    LookupCompilation(
      StaticMetas(ms, tables),
      Keys(LoadedPart(ms, tables, true)),
      Keys(LoadedPart(ms, tables, false)),
      LookupsUpTo(ms, tables, |tables|))
  }

  //// The index of each table

  ghost predicate IndexesTable(m: map<Key, nat>, addresses: seq<Key>) {
    forall key :: if key in m then m[key] == Find(addresses, key) && m[key] < |addresses|
                              else Find(addresses, key) == |addresses|
  }

  lemma {:induction false} FindAppend(keys: seq<Key>, next: Key, key: Key)
    ensures Find(keys + [next], key)
         == if Find(keys, key) < |keys| then Find(keys, key) else if next == key then |keys| else |keys| + 1
  {
    if keys != [] && keys[0] != key {
      assert (keys + [next])[1..] == keys[1..] + [next];
      FindAppend(keys[1..], next, key);
    }
  }

  method IndexTable(addresses: seq<Key>) returns (m: map<Key, nat>)
    ensures IndexesTable(m, addresses)
  {
    m := map[];
    for i := 0 to |addresses|
      invariant IndexesTable(m, addresses[..i])
    {
      assert addresses[..i + 1] == addresses[..i] + [addresses[i]];
      forall key
        ensures Find(addresses[..i + 1], key)
             == if Find(addresses[..i], key) < i then Find(addresses[..i], key)
                else if addresses[i] == key then i else i + 1
      {
        FindAppend(addresses[..i], addresses[i], key);
      }
      if addresses[i] !in m {
        m := m[addresses[i] := i];
      }
    }
    assert addresses[..|addresses|] == addresses;
  }

  /** The first table whose index holds the key. */
  method LocateKey(indexes: seq<map<Key, nat>>, key: Key, ghost tables: seq<LookupTable>) returns (p: Option<Placement>)
    requires |indexes| == |tables|
    requires forall t :: 0 <= t < |tables| ==> IndexesTable(indexes[t], tables[t].addresses)
    ensures p == Locate(tables, 0, key)
  {
    for t := 0 to |indexes|
      invariant Locate(tables, 0, key) == Locate(tables, t, key)
    {
      assert IndexesTable(indexes[t], tables[t].addresses);
      if key in indexes[t] {
        return Some(Placement(t, indexes[t][key]));
      }
    }
    return None;
  }

  //// One entry at a time

  lemma {:induction false} PickAppend(ms: seq<Meta>, m: Meta, tables: seq<LookupTable>, slot: Slot)
    ensures Pick(ms + [m], tables, slot) == Pick(ms, tables, slot) + if SlotOf(m, tables) == slot then [m] else []
  {
    assert (ms + [m])[..|ms|] == ms;
  }

  lemma {:induction false} StaticAppend(ms: seq<Meta>, m: Meta, tables: seq<LookupTable>)
    ensures StaticMetas(ms + [m], tables) == StaticMetas(ms, tables) + if SlotOf(m, tables).Static? then [m] else []
  {
    assert (ms + [m])[..|ms|] == ms;
  }

  lemma {:induction false} IndexesAppend(ms: seq<Meta>, m: Meta, tables: seq<LookupTable>)
    requires SmallTables(tables)
    ensures IndexesOf(ms + [m], tables) == IndexesOf(ms, tables) + [TableIndex(tables, m.key)]
  {
  }

  function PickedIndexes(ms: seq<Meta>, tables: seq<LookupTable>, t: nat, writable: bool): seq<byte>
    requires SmallTables(tables)
  {
    IndexesOf(Pick(ms, tables, Loaded(t, writable)), tables)
  }

  lemma {:induction false} PickedAppend(ms: seq<Meta>, m: Meta, tables: seq<LookupTable>, t: nat, writable: bool)
    requires SmallTables(tables)
    ensures PickedIndexes(ms + [m], tables, t, writable)
         == PickedIndexes(ms, tables, t, writable)
          + if SlotOf(m, tables) == Loaded(t, writable) then [TableIndex(tables, m.key)] else []
  {
    PickAppend(ms, m, tables, Loaded(t, writable));
    if SlotOf(m, tables) == Loaded(t, writable) {
      IndexesAppend(Pick(ms, tables, Loaded(t, writable)), m, tables);
    }
  }

  ghost predicate Collected(lists: seq<seq<byte>>, ms: seq<Meta>, tables: seq<LookupTable>, writable: bool)
    requires SmallTables(tables)
  {
    |lists| == |tables| && forall t :: 0 <= t < |tables| ==> lists[t] == PickedIndexes(ms, tables, t, writable)
  }

  /** Pushing onto the destination list keeps every list right; no push keeps them right too. */
  lemma {:induction false} CollectedAppend(
      lists: seq<seq<byte>>, ms: seq<Meta>, m: Meta, tables: seq<LookupTable>, writable: bool)
    requires SmallTables(tables) && Collected(lists, ms, tables, writable)
    ensures var slot := SlotOf(m, tables);
      Collected(
        if slot.Loaded? && slot.writable == writable
          then lists[slot.table := lists[slot.table] + [TableIndex(tables, m.key)]] else lists,
        ms + [m], tables, writable)
  {
    forall t | 0 <= t < |tables|
      ensures PickedIndexes(ms + [m], tables, t, writable)
           == PickedIndexes(ms, tables, t, writable)
            + if SlotOf(m, tables) == Loaded(t, writable) then [TableIndex(tables, m.key)] else []
    {
      PickedAppend(ms, m, tables, t, writable);
    }
  }

  /** The static entries and the index lists are right for the entries seen so far. */
  ghost predicate Progress(
      staticMetas: seq<Meta>, writable: seq<seq<byte>>, readonly: seq<seq<byte>>,
      ms: seq<Meta>, tables: seq<LookupTable>)
  {
    SmallTables(tables) && staticMetas == StaticMetas(ms, tables)
    && Collected(writable, ms, tables, true) && Collected(readonly, ms, tables, false)
  }

  lemma {:induction false} ProgressStatic(
      staticMetas: seq<Meta>, writable: seq<seq<byte>>, readonly: seq<seq<byte>>,
      ms: seq<Meta>, tables: seq<LookupTable>, m: Meta)
    requires Progress(staticMetas, writable, readonly, ms, tables) && SlotOf(m, tables).Static?
    ensures Progress(staticMetas + [m], writable, readonly, ms + [m], tables)
  {
    StaticAppend(ms, m, tables);
    CollectedAppend(writable, ms, m, tables, true);
    CollectedAppend(readonly, ms, m, tables, false);
  }

  lemma {:induction false} ProgressLoaded(
      staticMetas: seq<Meta>, writable: seq<seq<byte>>, readonly: seq<seq<byte>>,
      ms: seq<Meta>, tables: seq<LookupTable>, m: Meta, t: nat, index: byte)
    requires Progress(staticMetas, writable, readonly, ms, tables) && t < |tables|
    requires SlotOf(m, tables) == Loaded(t, m.isWritable) && TableIndex(tables, m.key) == index
    ensures if m.isWritable
      then Progress(staticMetas, writable[t := writable[t] + [index]], readonly, ms + [m], tables)
      else Progress(staticMetas, writable, readonly[t := readonly[t] + [index]], ms + [m], tables)
  {
    StaticAppend(ms, m, tables);
    assert StaticMetas(ms, tables) + [] == StaticMetas(ms, tables);
    CollectedAppend(writable, ms, m, tables, true);
    CollectedAppend(readonly, ms, m, tables, false);
  }

  lemma {:induction false} ProgressStart(tables: seq<LookupTable>)
    requires SmallTables(tables)
    ensures Progress([], seq(|tables|, _ => []), seq(|tables|, _ => []), [], tables)
  {
  }

  lemma {:induction false} SlotWithoutTable(m: Meta, tables: seq<LookupTable>)
    requires m.isSigner || m.isProgram || Locate(tables, 0, m.key).None?
    ensures SlotOf(m, tables).Static?
  {
  }

  lemma {:induction false} SlotInTable(m: Meta, tables: seq<LookupTable>, p: Placement)
    requires SmallTables(tables) && !m.isSigner && !m.isProgram && Locate(tables, 0, m.key) == Some(p)
    ensures p.table < |tables| && p.index < 256
    ensures SlotOf(m, tables) == Loaded(p.table, m.isWritable) && TableIndex(tables, m.key) == p.index
  {
  }

  /** Pushes one entry onto the static list or onto an index list of the first table that holds it. */
  method PlaceOne(
      lists: (seq<Meta>, seq<seq<byte>>, seq<seq<byte>>), m: Meta, isFirst: bool,
      indexes: seq<map<Key, nat>>, ghost seen: seq<Meta>, ghost tables: seq<LookupTable>)
      returns (r: (seq<Meta>, seq<seq<byte>>, seq<seq<byte>>))
    requires Progress(lists.0, lists.1, lists.2, seen, tables) && (isFirst ==> m.isSigner)
    requires |indexes| == |tables|
    requires forall t :: 0 <= t < |tables| ==> IndexesTable(indexes[t], tables[t].addresses)
    ensures Progress(r.0, r.1, r.2, seen + [m], tables)
  {
    var (staticMetas, writable, readonly) := lists;
    if m.isSigner || m.isProgram || isFirst {
      SlotWithoutTable(m, tables);
      ProgressStatic(staticMetas, writable, readonly, seen, tables, m);
      return (staticMetas + [m], writable, readonly);
    }
    var placement := LocateKey(indexes, m.key, tables);
    if placement.None? {
      SlotWithoutTable(m, tables);
      ProgressStatic(staticMetas, writable, readonly, seen, tables, m);
      return (staticMetas + [m], writable, readonly);
    }
    var Placement(t, index) := placement.value;
    SlotInTable(m, tables, placement.value);
    ProgressLoaded(staticMetas, writable, readonly, seen, tables, m, t, index);
    if m.isWritable {
      return (staticMetas, writable[t := writable[t] + [index]], readonly);
    } else {
      return (staticMetas, writable, readonly[t := readonly[t] + [index]]);
    }
  }

  /** The main pass: static entries and index lists. */
  method Distribute(ms: seq<Meta>, indexes: seq<map<Key, nat>>, ghost tables: seq<LookupTable>)
      returns (r: (seq<Meta>, seq<seq<byte>>, seq<seq<byte>>))
    requires ms != [] && ms[0].isSigner && SmallTables(tables) && |indexes| == |tables|
    requires forall t :: 0 <= t < |tables| ==> IndexesTable(indexes[t], tables[t].addresses)
    ensures Progress(r.0, r.1, r.2, ms, tables)
  {
    r := ([], seq(|indexes|, _ => []), seq(|indexes|, _ => []));
    ProgressStart(tables);
    ghost var seen: seq<Meta> := [];
    for i := 0 to |ms|
      invariant seen == ms[..i]
      invariant Progress(r.0, r.1, r.2, seen, tables)
    {
      r := PlaceOne(r, ms[i], i == 0, indexes, seen, tables);
      TakeNext(ms, i);
      seen := seen + [ms[i]];
    }
    TakeAll(ms);
  }

  //// One table at a time

  method AddressesAt(addresses: seq<Key>, indexes: seq<byte>) returns (keys: seq<Key>)
    requires forall i :: 0 <= i < |indexes| ==> indexes[i] < |addresses|
    ensures |keys| == |indexes| && forall i :: 0 <= i < |indexes| ==> keys[i] == addresses[indexes[i]]
  {
    keys := [];
    for i := 0 to |indexes|
      invariant |keys| == i && forall j :: 0 <= j < i ==> keys[j] == addresses[indexes[j]]
    {
      keys := keys + [addresses[indexes[i]]];
    }
  }

  lemma {:induction false} PickedAddresses(ms: seq<Meta>, tables: seq<LookupTable>, t: nat, writable: bool)
    requires SmallTables(tables) && t < |tables|
    ensures var p, indexes := Pick(ms, tables, Loaded(t, writable)), PickedIndexes(ms, tables, t, writable);
      |indexes| == |p| && forall i :: 0 <= i < |p| ==>
        indexes[i] < |tables[t].addresses| && tables[t].addresses[indexes[i]] == p[i].key
  {
    var p := Pick(ms, tables, Loaded(t, writable));
    forall i | 0 <= i < |p|
      ensures PickedIndexes(ms, tables, t, writable)[i] < |tables[t].addresses|
      ensures tables[t].addresses[PickedIndexes(ms, tables, t, writable)[i]] == p[i].key
    {
      PickIn(ms, tables, Loaded(t, writable), p[i]);
    }
  }

  method LoadTable(
      ms: seq<Meta>, tables: seq<LookupTable>, t: nat, indexes: seq<byte>, writable: bool, loaded: seq<Key>)
      returns (r: seq<Key>)
    requires SmallTables(tables) && t < |tables| && indexes == PickedIndexes(ms, tables, t, writable)
    requires loaded == Keys(LoadedUpTo(ms, tables, writable, t))
    ensures r == Keys(LoadedUpTo(ms, tables, writable, t + 1))
  {
    PickedAddresses(ms, tables, t, writable);
    var keys := AddressesAt(tables[t].addresses, indexes);
    ghost var p := Pick(ms, tables, Loaded(t, writable));
    assert keys == Keys(p);
    KeysConcat(LoadedUpTo(ms, tables, writable, t), p);
    r := loaded + keys;
  }

  lemma {:induction false} SkippedTable(ms: seq<Meta>, tables: seq<LookupTable>, t: nat, writable: bool)
    requires SmallTables(tables) && t < |tables| && PickedIndexes(ms, tables, t, writable) == []
    ensures LoadedUpTo(ms, tables, writable, t + 1) == LoadedUpTo(ms, tables, writable, t)
  {
    assert |Pick(ms, tables, Loaded(t, writable))| == 0;
  }

  method IndexTables(tables: seq<LookupTable>) returns (r: Option<seq<map<Key, nat>>>)
    ensures r.Some? <==> SmallTables(tables)
    ensures r.Some? ==> |r.value| == |tables| && forall t :: 0 <= t < |tables| ==>
      IndexesTable(r.value[t], tables[t].addresses)
  {
    var indexes: seq<map<Key, nat>> := [];
    for t := 0 to |tables|
      invariant |indexes| == t
      invariant forall u :: 0 <= u < t ==>
        |tables[u].addresses| <= 256 && IndexesTable(indexes[u], tables[u].addresses)
    {
      if |tables[t].addresses| > 256 {
        return None;
      }
      var m := IndexTable(tables[t].addresses);
      indexes := indexes + [m];
    }
    return Some(indexes);
  }

  /** What the first `t` tables have given. */
  ghost predicate LoadedSoFar(
      ms: seq<Meta>, tables: seq<LookupTable>, t: nat,
      writableLoaded: seq<Key>, readonlyLoaded: seq<Key>, lookups: seq<TableLookup>)
    requires SmallTables(tables) && t <= |tables|
  {
    && writableLoaded == Keys(LoadedUpTo(ms, tables, true, t))
    && readonlyLoaded == Keys(LoadedUpTo(ms, tables, false, t))
    && lookups == LookupsUpTo(ms, tables, t)
  }

  lemma {:induction false} SkipTable(
      ms: seq<Meta>, tables: seq<LookupTable>, t: nat,
      writableLoaded: seq<Key>, readonlyLoaded: seq<Key>, lookups: seq<TableLookup>)
    requires SmallTables(tables) && t < |tables|
    requires LoadedSoFar(ms, tables, t, writableLoaded, readonlyLoaded, lookups)
    requires PickedIndexes(ms, tables, t, true) == [] && PickedIndexes(ms, tables, t, false) == []
    ensures LoadedSoFar(ms, tables, t + 1, writableLoaded, readonlyLoaded, lookups)
  {
    SkippedTable(ms, tables, t, true);
    SkippedTable(ms, tables, t, false);
    SkippedLookup(ms, tables, t);
  }

  lemma {:induction false} SkippedLookup(ms: seq<Meta>, tables: seq<LookupTable>, t: nat)
    requires SmallTables(tables) && t < |tables|
    requires PickedIndexes(ms, tables, t, true) == [] && PickedIndexes(ms, tables, t, false) == []
    ensures LookupsUpTo(ms, tables, t + 1) == LookupsUpTo(ms, tables, t)
  {
  }

  lemma {:induction false} TakenLookup(ms: seq<Meta>, tables: seq<LookupTable>, t: nat)
    requires SmallTables(tables) && t < |tables|
    requires PickedIndexes(ms, tables, t, true) != [] || PickedIndexes(ms, tables, t, false) != []
    ensures LookupsUpTo(ms, tables, t + 1) == LookupsUpTo(ms, tables, t)
      + [TableLookup(tables[t].address, PickedIndexes(ms, tables, t, true), PickedIndexes(ms, tables, t, false))]
  {
  }

  lemma {:induction false} TakeTable(
      ms: seq<Meta>, tables: seq<LookupTable>, t: nat, writableLoaded: seq<Key>, readonlyLoaded: seq<Key>,
      lookups: seq<TableLookup>, l: TableLookup)
    requires SmallTables(tables) && t < |tables| && lookups == LookupsUpTo(ms, tables, t)
    requires writableLoaded == Keys(LoadedUpTo(ms, tables, true, t + 1))
    requires readonlyLoaded == Keys(LoadedUpTo(ms, tables, false, t + 1))
    requires PickedIndexes(ms, tables, t, true) != [] || PickedIndexes(ms, tables, t, false) != []
    requires l == TableLookup(
      tables[t].address, PickedIndexes(ms, tables, t, true), PickedIndexes(ms, tables, t, false))
    ensures LoadedSoFar(ms, tables, t + 1, writableLoaded, readonlyLoaded, lookups + [l])
  {
    TakenLookup(ms, tables, t);
  }

  lemma {:induction false} NothingLoaded(ms: seq<Meta>, tables: seq<LookupTable>)
    requires SmallTables(tables)
    ensures LoadedSoFar(ms, tables, 0, [], [], [])
  {
  }

  /** The addresses and lookups, table by table; a table with both lists empty is skipped. */
  method LoadTables(ms: seq<Meta>, tables: seq<LookupTable>, writable: seq<seq<byte>>, readonly: seq<seq<byte>>)
      returns (writableLoaded: seq<Key>, readonlyLoaded: seq<Key>, lookups: seq<TableLookup>)
    requires SmallTables(tables)
    requires Collected(writable, ms, tables, true) && Collected(readonly, ms, tables, false)
    ensures writableLoaded == Keys(LoadedPart(ms, tables, true))
    ensures readonlyLoaded == Keys(LoadedPart(ms, tables, false))
    ensures lookups == LookupsUpTo(ms, tables, |tables|)
  {
    writableLoaded, readonlyLoaded, lookups := [], [], [];
    NothingLoaded(ms, tables);
    for t := 0 to |tables|
      invariant LoadedSoFar(ms, tables, t, writableLoaded, readonlyLoaded, lookups)
    {
      if writable[t] == [] && readonly[t] == [] {
        SkipTable(ms, tables, t, writableLoaded, readonlyLoaded, lookups);
        continue;
      }
      var lookup := TableLookup(tables[t].address, writable[t], readonly[t]);
      writableLoaded := LoadTable(ms, tables, t, writable[t], true, writableLoaded);
      readonlyLoaded := LoadTable(ms, tables, t, readonly[t], false, readonlyLoaded);
      TakeTable(ms, tables, t, writableLoaded, readonlyLoaded, lookups, lookup);
      lookups := lookups + [lookup];
    }
  }

  method PlaceAccountsInLookupTables(ms: seq<Meta>, tables: seq<LookupTable>)
      returns (r: Result<LookupCompilation, CompileError>)
    requires ms != [] && ms[0].isSigner
    ensures r == if SmallTables(tables) then Ok(Placed(ms, tables)) else Err(TableTooLarge)
  {
    var indexes := IndexTables(tables);
    if indexes.None? {
      return Err(TableTooLarge);
    }
    var lists := Distribute(ms, indexes.value, tables);
    var (staticMetas, writable, readonly) := lists;
    var writableLoaded, readonlyLoaded, lookups := LoadTables(ms, tables, writable, readonly);
    return Ok(LookupCompilation(staticMetas, writableLoaded, readonlyLoaded, lookups));
  }
}

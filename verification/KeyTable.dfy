/**
 Where each account key of a message goes: a static privilege group, or the first table that lists it.
 */
module KeyTable {
  import opened Wrappers
  import opened Bytes
  import opened Message
  import opened AccountMetas

  datatype LookupTable = LookupTable(address: Key, addresses: seq<Key>)

  datatype Placement = Placement(table: nat, index: nat)

  /** The first position of a key, or the length. */
  function Find(keys: seq<Key>, key: Key): (p: nat)
    ensures p <= |keys|
    ensures p < |keys| ==> keys[p] == key
    ensures forall i :: 0 <= i < p ==> keys[i] != key
  {
    if keys == [] || keys[0] == key then 0 else 1 + Find(keys[1..], key)
  }

  lemma {:induction false} FindUnique(keys: seq<Key>, key: Key, p: nat)
    requires p < |keys| && keys[p] == key && forall i :: 0 <= i < p ==> keys[i] != key
    ensures Find(keys, key) == p
  {
  }

  /** The first table, from `t` on, that lists the key, and where. */
  function Locate(tables: seq<LookupTable>, t: nat, key: Key): (r: Option<Placement>)
    requires t <= |tables|
    ensures r.Some? ==> t <= r.value.table < |tables|
    ensures r.Some? ==> r.value.index < |tables[r.value.table].addresses|
    ensures r.Some? ==> tables[r.value.table].addresses[r.value.index] == key
    ensures r.Some? ==> key !in tables[r.value.table].addresses[..r.value.index]
    ensures r.Some? ==> forall u :: t <= u < r.value.table ==> key !in tables[u].addresses
    ensures r.None? ==> forall u :: t <= u < |tables| ==> key !in tables[u].addresses
    decreases |tables| - t
  {
    if t == |tables| then None
    else
      var p := Find(tables[t].addresses, key);
      if p < |tables[t].addresses| then Some(Placement(t, p)) else Locate(tables, t + 1, key)
  }

  function Group(m: Meta): nat {
    if m.isSigner && m.isWritable then 0 else if m.isSigner then 1 else if m.isWritable then 2 else 3
  }

  datatype Slot = Static(group: nat) | Loaded(table: nat, writable: bool)

  /** Signers, programs and keys no table lists stay static; the fee payer is a signer. */
  function SlotOf(m: Meta, tables: seq<LookupTable>): (slot: Slot)
    ensures slot.Static? ==> slot.group < 4
    ensures slot.Loaded? ==> slot.table < |tables|
  {
    if m.isSigner || m.isProgram then Static(Group(m))
    else
      match Locate(tables, 0, m.key)
      case None => Static(Group(m))
      case Some(p) => Loaded(p.table, m.isWritable)
  }

  /** The entries of one slot, in order. */
  function Pick(ms: seq<Meta>, tables: seq<LookupTable>, slot: Slot): seq<Meta> {
    if ms == [] then []
    else
      var last := ms[|ms| - 1];
      Pick(ms[..|ms| - 1], tables, slot) + if SlotOf(last, tables) == slot then [last] else []
  }

  function LoadedUpTo(ms: seq<Meta>, tables: seq<LookupTable>, writable: bool, n: nat): seq<Meta> {
    if n == 0 then []
    else LoadedUpTo(ms, tables, writable, n - 1) + Pick(ms, tables, Loaded(n - 1, writable))
  }

  function StaticPart(ms: seq<Meta>, tables: seq<LookupTable>): seq<Meta> {
    Pick(ms, tables, Static(0)) + Pick(ms, tables, Static(1))
    + Pick(ms, tables, Static(2)) + Pick(ms, tables, Static(3))
  }

  function LoadedPart(ms: seq<Meta>, tables: seq<LookupTable>, writable: bool): seq<Meta> {
    LoadedUpTo(ms, tables, writable, |tables|)
  }

  /** The whole key table: static entries, loaded writable entries, loaded readonly entries. */
  function Entries(ms: seq<Meta>, tables: seq<LookupTable>): seq<Meta> {
    StaticPart(ms, tables) + LoadedPart(ms, tables, true) + LoadedPart(ms, tables, false)
  }

  function Keys(ms: seq<Meta>): (r: seq<Key>)
    ensures |r| == |ms| && forall i :: 0 <= i < |ms| ==> r[i] == ms[i].key
  {
    seq(|ms|, i requires 0 <= i < |ms| => ms[i].key)
  }

  lemma {:induction false} KeysConcat(s: seq<Meta>, t: seq<Meta>)
    ensures Keys(s + t) == Keys(s) + Keys(t)
  {
  }

  //// The key table holds each entry exactly once

  lemma {:induction false} PickIn(ms: seq<Meta>, tables: seq<LookupTable>, slot: Slot, m: Meta)
    ensures m in Pick(ms, tables, slot) <==> m in ms && SlotOf(m, tables) == slot
  {
    if ms != [] {
      var init, last := ms[..|ms| - 1], ms[|ms| - 1];
      PickIn(init, tables, slot, m);
      assert ms == init + [last];
      assert m in ms <==> m in init || m == last;
    }
  }

  predicate LoadedBefore(slot: Slot, writable: bool, n: nat) {
    slot.Loaded? && slot.writable == writable && slot.table < n
  }

  lemma {:induction false} LoadedBeforeNext(slot: Slot, writable: bool, n: nat)
    requires n > 0
    ensures LoadedBefore(slot, writable, n)
      <==> LoadedBefore(slot, writable, n - 1) || slot == Loaded(n - 1, writable)
  {
  }

  lemma {:induction false} InConcat(s: seq<Meta>, t: seq<Meta>, m: Meta)
    ensures m in s + t <==> m in s || m in t
  {
  }

  lemma {:induction false} LoadedIntoHolds(
      ms: seq<Meta>, tables: seq<LookupTable>, writable: bool, n: nat, m: Meta, slot: Slot, loaded: seq<Meta>)
    requires slot == SlotOf(m, tables) && loaded == LoadedUpTo(ms, tables, writable, n)
    ensures m in loaded <==> m in ms && LoadedBefore(slot, writable, n)
  {
    if n > 0 {
      var before := LoadedUpTo(ms, tables, writable, n - 1);
      var picked := Pick(ms, tables, Loaded(n - 1, writable));
      LoadedIntoHolds(ms, tables, writable, n - 1, m, slot, before);
      PickIn(ms, tables, Loaded(n - 1, writable), m);
      InConcat(before, picked, m);
      LoadedBeforeNext(slot, writable, n);
    }
  }

  lemma {:induction false} LoadedIn(ms: seq<Meta>, tables: seq<LookupTable>, writable: bool, n: nat, m: Meta)
    ensures m in LoadedUpTo(ms, tables, writable, n) <==> m in ms && LoadedBefore(SlotOf(m, tables), writable, n)
  {
    LoadedIntoHolds(ms, tables, writable, n, m, SlotOf(m, tables), LoadedUpTo(ms, tables, writable, n));
  }

  lemma {:induction false} StaticIn(ms: seq<Meta>, tables: seq<LookupTable>, m: Meta)
    ensures m in StaticPart(ms, tables) <==> m in ms && SlotOf(m, tables).Static?
  {
    PickIn(ms, tables, Static(0), m);
    PickIn(ms, tables, Static(1), m);
    PickIn(ms, tables, Static(2), m);
    PickIn(ms, tables, Static(3), m);
  }

  lemma {:induction false} EntriesIn(ms: seq<Meta>, tables: seq<LookupTable>, m: Meta)
    ensures m in Entries(ms, tables) <==> m in ms
  {
    StaticIn(ms, tables, m);
    LoadedIn(ms, tables, true, |tables|, m);
    LoadedIn(ms, tables, false, |tables|, m);
  }

  ghost predicate DisjointKeys(s: seq<Meta>, t: seq<Meta>) {
    forall a, b :: a in s && b in t ==> a.key != b.key
  }

  lemma {:induction false} ConcatDistinct(s: seq<Meta>, t: seq<Meta>)
    requires DistinctKeys(s) && DistinctKeys(t) && DisjointKeys(s, t)
    ensures DistinctKeys(s + t)
  {
    forall i, j | 0 <= i < j < |s + t|
      ensures (s + t)[i].key != (s + t)[j].key
    {
      if i < |s| <= j {
        assert s[i] in s && t[j - |s|] in t;
      }
    }
  }

  lemma {:induction false} SameKeySameEntry(ms: seq<Meta>, a: Meta, b: Meta)
    requires DistinctKeys(ms) && a in ms && b in ms && a.key == b.key
    ensures a == b
  {
  }

  lemma {:induction false} PickDistinct(ms: seq<Meta>, tables: seq<LookupTable>, slot: Slot)
    requires DistinctKeys(ms)
    ensures DistinctKeys(Pick(ms, tables, slot))
  {
    if ms != [] {
      var init, last := ms[..|ms| - 1], ms[|ms| - 1];
      PickDistinct(init, tables, slot);
      forall a | a in Pick(init, tables, slot)
        ensures a.key != last.key
      {
        PickIn(init, tables, slot, a);
      }
      ConcatDistinct(Pick(init, tables, slot), [last]);
    }
  }

  lemma {:induction false} NextTableDisjoint(ms: seq<Meta>, tables: seq<LookupTable>, writable: bool, n: nat)
    requires DistinctKeys(ms)
    ensures DisjointKeys(LoadedUpTo(ms, tables, writable, n), Pick(ms, tables, Loaded(n, writable)))
  {
    forall a, b | a in LoadedUpTo(ms, tables, writable, n) && b in Pick(ms, tables, Loaded(n, writable))
      ensures a.key != b.key
    {
      LoadedIn(ms, tables, writable, n, a);
      PickIn(ms, tables, Loaded(n, writable), b);
      if a.key == b.key {
        SameKeySameEntry(ms, a, b);
      }
    }
  }

  lemma {:induction false} LoadedDistinct(ms: seq<Meta>, tables: seq<LookupTable>, writable: bool, n: nat)
    requires DistinctKeys(ms)
    ensures DistinctKeys(LoadedUpTo(ms, tables, writable, n))
  {
    if n > 0 {
      var s, t := LoadedUpTo(ms, tables, writable, n - 1), Pick(ms, tables, Loaded(n - 1, writable));
      LoadedDistinct(ms, tables, writable, n - 1);
      PickDistinct(ms, tables, Loaded(n - 1, writable));
      NextTableDisjoint(ms, tables, writable, n - 1);
      ConcatDistinct(s, t);
    }
  }

  /** Picks of two different slots share no key. */
  lemma {:induction false} PicksDisjoint(ms: seq<Meta>, tables: seq<LookupTable>, x: Slot, y: Slot)
    requires DistinctKeys(ms) && x != y
    ensures DisjointKeys(Pick(ms, tables, x), Pick(ms, tables, y))
  {
    forall a, b | a in Pick(ms, tables, x) && b in Pick(ms, tables, y)
      ensures a.key != b.key
    {
      PickIn(ms, tables, x, a);
      PickIn(ms, tables, y, b);
      if a.key == b.key {
        SameKeySameEntry(ms, a, b);
      }
    }
  }

  lemma {:induction false} StaticDistinct(ms: seq<Meta>, tables: seq<LookupTable>)
    requires DistinctKeys(ms)
    ensures DistinctKeys(StaticPart(ms, tables))
  {
    var p0, p1 := Pick(ms, tables, Static(0)), Pick(ms, tables, Static(1));
    var p2, p3 := Pick(ms, tables, Static(2)), Pick(ms, tables, Static(3));
    PickDistinct(ms, tables, Static(0));
    PickDistinct(ms, tables, Static(1));
    PickDistinct(ms, tables, Static(2));
    PickDistinct(ms, tables, Static(3));
    PicksDisjoint(ms, tables, Static(0), Static(1));
    ConcatDistinct(p0, p1);
    PicksDisjoint(ms, tables, Static(0), Static(2));
    PicksDisjoint(ms, tables, Static(1), Static(2));
    ConcatDistinct(p0 + p1, p2);
    PicksDisjoint(ms, tables, Static(0), Static(3));
    PicksDisjoint(ms, tables, Static(1), Static(3));
    PicksDisjoint(ms, tables, Static(2), Static(3));
    ConcatDistinct(p0 + p1 + p2, p3);
  }

  lemma {:induction false} LoadedDisjoint(ms: seq<Meta>, tables: seq<LookupTable>)
    requires DistinctKeys(ms)
    ensures DisjointKeys(LoadedPart(ms, tables, true), LoadedPart(ms, tables, false))
    ensures DisjointKeys(StaticPart(ms, tables), LoadedPart(ms, tables, true))
    ensures DisjointKeys(StaticPart(ms, tables), LoadedPart(ms, tables, false))
  {
    forall a, b | a in ms && b in ms && a.key == b.key
      ensures a == b
    {
      SameKeySameEntry(ms, a, b);
    }
    forall m
      ensures m in StaticPart(ms, tables) <==> m in ms && SlotOf(m, tables).Static?
      ensures m in LoadedPart(ms, tables, true) <==> m in ms && LoadedBefore(SlotOf(m, tables), true, |tables|)
      ensures m in LoadedPart(ms, tables, false) <==> m in ms && LoadedBefore(SlotOf(m, tables), false, |tables|)
    {
      StaticIn(ms, tables, m);
      LoadedIn(ms, tables, true, |tables|, m);
      LoadedIn(ms, tables, false, |tables|, m);
    }
  }

  lemma {:induction false} EntriesDistinct(ms: seq<Meta>, tables: seq<LookupTable>)
    requires DistinctKeys(ms)
    ensures DistinctKeys(Entries(ms, tables))
  {
    StaticDistinct(ms, tables);
    LoadedDistinct(ms, tables, true, |tables|);
    LoadedDistinct(ms, tables, false, |tables|);
    LoadedDisjoint(ms, tables);
    ConcatDistinct(StaticPart(ms, tables), LoadedPart(ms, tables, true));
    ConcatDistinct(StaticPart(ms, tables) + LoadedPart(ms, tables, true), LoadedPart(ms, tables, false));
  }

  lemma {:induction false} KeySetAppend(init: seq<Meta>, last: Meta)
    ensures (set m | m in init + [last] :: m.key) == (set m | m in init :: m.key) + {last.key}
  {
    assert forall m :: m in init + [last] <==> m in init || m == last;
  }

  lemma {:induction false} LastIsNew(init: seq<Meta>, last: Meta)
    requires DistinctKeys(init + [last])
    ensures DistinctKeys(init) && last.key !in (set m | m in init :: m.key)
  {
    var ms := init + [last];
    assert ms[|init|] == last && forall i :: 0 <= i < |init| ==> ms[i] == init[i];
  }

  lemma {:induction false} DistinctCount(ms: seq<Meta>)
    requires DistinctKeys(ms)
    ensures |ms| == |(set m | m in ms :: m.key)|
  {
    if ms != [] {
      var init, last := ms[..|ms| - 1], ms[|ms| - 1];
      assert ms == init + [last];
      LastIsNew(init, last);
      DistinctCount(init);
      KeySetAppend(init, last);
    }
  }

  /** The key table has no key twice, and its entries are exactly the aggregated ones. */
  lemma {:induction false} EntriesWellFormed(ms: seq<Meta>, tables: seq<LookupTable>)
    requires DistinctKeys(ms)
    ensures DistinctKeys(Entries(ms, tables))
    ensures forall m :: m in Entries(ms, tables) <==> m in ms
    ensures |Entries(ms, tables)| == |ms|
  {
    var es := Entries(ms, tables);
    EntriesDistinct(ms, tables);
    forall m
      ensures m in es <==> m in ms
    {
      EntriesIn(ms, tables, m);
    }
    DistinctCount(ms);
    DistinctCount(es);
    assert (set m | m in es :: m.key) == (set m | m in ms :: m.key);
  }
}

/** The order of the reported keys and the contents of the lookups, from the instructions and tables alone. */
module KeyOrder {
  import opened Wrappers
  import opened Bytes
  import opened Message
  import opened AccountMetas
  import opened KeyTable
  import opened HeaderOrder
  import opened Compiler
  import opened CompilerCorrect
  import opened CompiledMessages

  //// Which key an input mentions first

  /** The keys of an instruction: its accounts, then its program. */
  function KeyAt(i: Instruction, j: nat): Key
    requires j <= |i.accounts|
  {
    if j < |i.accounts| then i.accounts[j].key else i.program
  }

  /** Neither the fee payer nor anything in front of key `j` of instruction `i` is this key. */
  ghost predicate NotBefore(feePayer: Key, instructions: seq<Instruction>, i: nat, j: nat, key: Key)
    requires i < |instructions| && j <= |instructions[i].accounts|
  {
    && key != feePayer
    && (forall k, l :: 0 <= k < i && 0 <= l <= |instructions[k].accounts| ==> KeyAt(instructions[k], l) != key)
    && (forall l :: 0 <= l < j ==> KeyAt(instructions[i], l) != key)
  }

  ghost predicate MentionedFirst(feePayer: Key, instructions: seq<Instruction>, a: Key, b: Key) {
    a != b
    && (a == feePayer || exists i, j ::
          0 <= i < |instructions| && 0 <= j <= |instructions[i].accounts|
          && KeyAt(instructions[i], j) == a && NotBefore(feePayer, instructions, i, j, b))
  }

  lemma {:induction false} PrefixUses(instructions: seq<Instruction>, i: nat)
    requires i <= |instructions|
    ensures AllInstructionUses(instructions[..i]) <= AllInstructionUses(instructions)
  {
    if i < |instructions| {
      var init := instructions[..|instructions| - 1];
      PrefixUses(init, i);
      assert init[..i] == instructions[..i];
    } else {
      assert instructions[..i] == instructions;
    }
  }

  /** Where the uses of an instruction start. */
  ghost function Start(instructions: seq<Instruction>, i: nat): nat
    requires i <= |instructions|
  {
    |AllInstructionUses(instructions[..i])|
  }

  lemma {:induction false} NextUses(instructions: seq<Instruction>, i: nat)
    requires i < |instructions|
    ensures AllInstructionUses(instructions[..i + 1])
      == AllInstructionUses(instructions[..i]) + InstructionUses(instructions[i])
  {
    assert instructions[..i + 1][..i] == instructions[..i];
  }

  lemma {:induction false} UseAt(instructions: seq<Instruction>, i: nat, j: nat)
    requires i < |instructions| && j <= |instructions[i].accounts|
    ensures Start(instructions, i) + j < |AllInstructionUses(instructions)|
    ensures AllInstructionUses(instructions)[Start(instructions, i) + j].key == KeyAt(instructions[i], j)
  {
    PrefixUses(instructions, i + 1);
    NextUses(instructions, i);
  }

  lemma {:induction false} StartsApart(instructions: seq<Instruction>, k: nat, i: nat)
    requires k < i <= |instructions|
    ensures Start(instructions, k) + |instructions[k].accounts| < Start(instructions, i)
  {
    NextUses(instructions, k);
    PrefixUses(instructions[..i], k + 1);
    assert instructions[..i][..k + 1] == instructions[..k + 1];
  }

  lemma {:induction false} PlaceOf(instructions: seq<Instruction>, n: nat, p: nat) returns (i: nat, j: nat)
    requires n <= |instructions| && p < Start(instructions, n)
    ensures i < n && j <= |instructions[i].accounts| && p == Start(instructions, i) + j
  {
    NextUses(instructions, n - 1);
    if p < Start(instructions, n - 1) {
      i, j := PlaceOf(instructions, n - 1, p);
    } else {
      i, j := n - 1, p - Start(instructions, n - 1);
    }
  }

  /** A key first used later than place `j` of instruction `i` is not mentioned before it. */
  lemma {:induction false} LaterIsNotBefore(
      feePayer: Key, instructions: seq<Instruction>, i: nat, j: nat, key: Key, all: seq<Use>)
    requires all == AllInstructionUses(instructions) && i < |instructions| && j <= |instructions[i].accounts|
    requires key != feePayer && Start(instructions, i) + j <= |all|
    requires forall p :: 0 <= p < Start(instructions, i) + j ==> all[p].key != key
    ensures NotBefore(feePayer, instructions, i, j, key)
  {
    forall k, l | 0 <= k < i && 0 <= l <= |instructions[k].accounts|
      ensures KeyAt(instructions[k], l) != key
    {
      StartsApart(instructions, k, i);
      UseAt(instructions, k, l);
    }
    forall l | 0 <= l < j
      ensures KeyAt(instructions[i], l) != key
    {
      UseAt(instructions, i, l);
    }
  }

  ghost predicate FirstUseAt(us: seq<Use>, p: nat, key: Key) {
    p < |us| && us[p].key == key && forall k :: 0 <= k < p ==> us[k].key != key
  }

  /** The key at place `i`, `j` is mentioned before one that is not used up to there. */
  lemma {:induction false} FirstAt(
      feePayer: Key, instructions: seq<Instruction>, i: nat, j: nat, a: Key, b: Key, all: seq<Use>)
    requires all == AllInstructionUses(instructions) && i < |instructions| && j <= |instructions[i].accounts|
    requires KeyAt(instructions[i], j) == a && a != b && b != feePayer
    requires Start(instructions, i) + j < |all|
    requires forall k :: 0 <= k < Start(instructions, i) + j ==> all[k].key != b
    ensures MentionedFirst(feePayer, instructions, a, b)
  {
    LaterIsNotBefore(feePayer, instructions, i, j, b, all);
  }

  lemma {:induction false} FirstUsesMean(
      feePayer: Key, instructions: seq<Instruction>, p: nat, q: nat, a: Key, b: Key, us: seq<Use>, all: seq<Use>)
    requires all == AllInstructionUses(instructions) && us == [Use(feePayer, true, true, false)] + all
    requires FirstUseAt(us, p, a) && FirstUseAt(us, q, b) && p < q
    ensures MentionedFirst(feePayer, instructions, a, b)
  {
    assert us[0].key == feePayer && us[p].key != b;
    if p > 0 {
      assert instructions[..|instructions|] == instructions;
      var i, j := PlaceOf(instructions, |instructions|, p - 1);
      UseAt(instructions, i, j);
      forall k | 0 <= k < p - 1
        ensures all[k].key != b
      {
        assert us[k + 1] == all[k];
      }
      assert us[p] == all[p - 1];
      FirstAt(feePayer, instructions, i, j, a, b, all);
    }
  }

  /** Entries are numbered by the first mention of their key. */
  lemma {:induction false} FirstSeenMeans(feePayer: Key, instructions: seq<Instruction>, a: Meta, b: Meta)
    requires Summarises(a, Uses(feePayer, instructions)) && Summarises(b, Uses(feePayer, instructions))
    requires a.firstSeen < b.firstSeen
    ensures MentionedFirst(feePayer, instructions, a.key, b.key)
  {
    FirstUsesMean(feePayer, instructions, a.firstSeen, b.firstSeen, a.key, b.key,
      Uses(feePayer, instructions), AllInstructionUses(instructions));
  }

  //// The order of the keys

  /** The first table that lists a key. */
  ghost predicate FirstTable(tables: seq<LookupTable>, key: Key, t: nat) {
    && t < |tables| && key in tables[t].addresses
    && forall u :: 0 <= u < t ==> key !in tables[u].addresses
  }

  /** Keys written out come in four classes, keys that are loaded in two. */
  ghost function Class(feePayer: Key, instructions: seq<Instruction>, tables: seq<LookupTable>, key: Key): nat {
    var sign, write := MustSign(feePayer, instructions, key), MustWrite(feePayer, instructions, key);
    if !WrittenOut(feePayer, instructions, tables, key) then if write then 4 else 5
    else if sign && write then 0
    else if sign then 1
    else if write then 2
    else 3
  }

  /** By class; loaded keys then by the first table that lists them; then by first mention. */
  ghost predicate Ahead(feePayer: Key, instructions: seq<Instruction>, tables: seq<LookupTable>, a: Key, b: Key) {
    var x, y := Class(feePayer, instructions, tables, a), Class(feePayer, instructions, tables, b);
    x < y || (x == y
      && if x < 4 then MentionedFirst(feePayer, instructions, a, b)
         else exists t: nat, u: nat ::
           (FirstTable(tables, a, t) && FirstTable(tables, b, u)
            && (t < u || (t == u && MentionedFirst(feePayer, instructions, a, b)))))
  }

  lemma {:induction false} PickInOrder(ms: seq<Meta>, tables: seq<LookupTable>, slot: Slot)
    requires InFirstUseOrder(ms)
    ensures InFirstUseOrder(Pick(ms, tables, slot))
  {
    if ms != [] {
      var init, last := ms[..|ms| - 1], ms[|ms| - 1];
      PickInOrder(init, tables, slot);
      forall a | a in Pick(init, tables, slot)
        ensures a.firstSeen < last.firstSeen
      {
        PickIn(init, tables, slot, a);
      }
    }
  }

  ghost predicate LoadedAhead(tables: seq<LookupTable>, a: Meta, b: Meta) {
    var x, y := SlotOf(a, tables), SlotOf(b, tables);
    x.Loaded? && y.Loaded? && (x.table < y.table || (x.table == y.table && a.firstSeen < b.firstSeen))
  }

  ghost predicate LoadedSorted(tables: seq<LookupTable>, loaded: seq<Meta>) {
    forall i, j :: 0 <= i < j < |loaded| ==> LoadedAhead(tables, loaded[i], loaded[j])
  }

  /** What is taken from a later table comes behind, in order of first use. */
  lemma {:induction false} SortedNext(
      tables: seq<LookupTable>, before: seq<Meta>, picked: seq<Meta>, t: nat, writable: bool)
    requires LoadedSorted(tables, before) && InFirstUseOrder(picked)
    requires forall i :: 0 <= i < |before| ==> LoadedBefore(SlotOf(before[i], tables), writable, t)
    requires forall i :: 0 <= i < |picked| ==> SlotOf(picked[i], tables) == Loaded(t, writable)
    ensures LoadedSorted(tables, before + picked)
  {
  }

  lemma {:induction false} LoadedSlots(
      ms: seq<Meta>, tables: seq<LookupTable>, writable: bool, n: nat, loaded: seq<Meta>)
    requires loaded == LoadedUpTo(ms, tables, writable, n)
    ensures forall i :: 0 <= i < |loaded| ==> LoadedBefore(SlotOf(loaded[i], tables), writable, n)
  {
    forall i | 0 <= i < |loaded|
      ensures LoadedBefore(SlotOf(loaded[i], tables), writable, n)
    {
      LoadedIn(ms, tables, writable, n, loaded[i]);
    }
  }

  lemma {:induction false} PickedSlots(ms: seq<Meta>, tables: seq<LookupTable>, slot: Slot, picked: seq<Meta>)
    requires picked == Pick(ms, tables, slot)
    ensures forall i :: 0 <= i < |picked| ==> SlotOf(picked[i], tables) == slot
  {
    forall i | 0 <= i < |picked|
      ensures SlotOf(picked[i], tables) == slot
    {
      PickIn(ms, tables, slot, picked[i]);
    }
  }

  lemma {:induction false} LoadedInOrder(
      ms: seq<Meta>, tables: seq<LookupTable>, writable: bool, n: nat, loaded: seq<Meta>)
    requires InFirstUseOrder(ms) && loaded == LoadedUpTo(ms, tables, writable, n)
    ensures LoadedSorted(tables, loaded)
  {
    if n > 0 {
      var before, picked := LoadedUpTo(ms, tables, writable, n - 1), Pick(ms, tables, Loaded(n - 1, writable));
      LoadedInOrder(ms, tables, writable, n - 1, before);
      LoadedSlots(ms, tables, writable, n - 1, before);
      PickInOrder(ms, tables, Loaded(n - 1, writable));
      PickedSlots(ms, tables, Loaded(n - 1, writable), picked);
      SortedNext(tables, before, picked, n - 1, writable);
    }
  }

  lemma {:induction false} SlotTable(m: Meta, tables: seq<LookupTable>)
    requires SlotOf(m, tables).Loaded?
    ensures !m.isSigner && !m.isProgram && SlotOf(m, tables).writable == m.isWritable
    ensures FirstTable(tables, m.key, SlotOf(m, tables).table)
  {
    var p := Locate(tables, 0, m.key).value;
    assert tables[p.table].addresses[p.index] in tables[p.table].addresses;
  }

  lemma {:induction false} EntrySummary(feePayer: Key, instructions: seq<Instruction>, m: Meta)
    requires m in Metas(feePayer, instructions)
    ensures Summarises(m, Uses(feePayer, instructions))
    ensures m.isSigner <==> MustSign(feePayer, instructions, m.key)
    ensures m.isWritable <==> MustWrite(feePayer, instructions, m.key)
    ensures m.isProgram <==> Runs(instructions, m.key)
  {
    var us, ms := Uses(feePayer, instructions), Metas(feePayer, instructions);
    AggregateCorrect(us);
    var k :| 0 <= k < |ms| && ms[k] == m;
    assert Summarises(ms[k], us);
    UsesMean(feePayer, instructions, m.key);
  }

  lemma {:induction false} InLoaded(ms: seq<Meta>, tables: seq<LookupTable>, writable: bool, m: Meta)
    requires m in LoadedPart(ms, tables, writable)
    ensures m in ms && SlotOf(m, tables).Loaded? && SlotOf(m, tables).writable == writable
  {
    LoadedIn(ms, tables, writable, |tables|, m);
  }

  /** A loaded entry's key is not written out, and its slot names the first table that lists it. */
  lemma {:induction false} LoadedEntry(
      feePayer: Key, instructions: seq<Instruction>, tables: seq<LookupTable>, m: Meta, writable: bool)
    requires m in LoadedPart(Metas(feePayer, instructions), tables, writable)
    ensures Class(feePayer, instructions, tables, m.key) == if writable then 4 else 5
    ensures SlotOf(m, tables).Loaded? && FirstTable(tables, m.key, SlotOf(m, tables).table)
    ensures Summarises(m, Uses(feePayer, instructions))
  {
    InLoaded(Metas(feePayer, instructions), tables, writable, m);
    SlotTable(m, tables);
    EntrySummary(feePayer, instructions, m);
  }

  lemma {:induction false} WrittenEntry(
      feePayer: Key, instructions: seq<Instruction>, tables: seq<LookupTable>, m: Meta)
    requires m in StaticPart(Metas(feePayer, instructions), tables)
    ensures Class(feePayer, instructions, tables, m.key) == Group(m) < 4
    ensures Summarises(m, Uses(feePayer, instructions))
  {
    StaticEntry(feePayer, instructions, tables, m);
    StaticIn(Metas(feePayer, instructions), tables, m);
    EntrySummary(feePayer, instructions, m);
  }

  lemma {:induction false} StaticAhead(
      feePayer: Key, instructions: seq<Instruction>, tables: seq<LookupTable>, i: nat, j: nat, s: seq<Meta>)
    requires s == StaticPart(Metas(feePayer, instructions), tables) && i < j < |s|
    ensures Ahead(feePayer, instructions, tables, s[i].key, s[j].key)
  {
    AggregateCorrect(Uses(feePayer, instructions));
    StaticSorted(Metas(feePayer, instructions), tables);
    assert Before(s[i], s[j]);
    WrittenEntry(feePayer, instructions, tables, s[i]);
    WrittenEntry(feePayer, instructions, tables, s[j]);
    if Group(s[i]) == Group(s[j]) {
      FirstSeenMeans(feePayer, instructions, s[i], s[j]);
    }
  }

  lemma {:induction false} LoadedKeysAhead(
      feePayer: Key, instructions: seq<Instruction>, tables: seq<LookupTable>, writable: bool, i: nat, j: nat,
      s: seq<Meta>)
    requires s == LoadedPart(Metas(feePayer, instructions), tables, writable) && i < j < |s|
    ensures Ahead(feePayer, instructions, tables, s[i].key, s[j].key)
  {
    AggregateCorrect(Uses(feePayer, instructions));
    LoadedInOrder(Metas(feePayer, instructions), tables, writable, |tables|, s);
    assert LoadedAhead(tables, s[i], s[j]);
    LoadedEntry(feePayer, instructions, tables, s[i], writable);
    LoadedEntry(feePayer, instructions, tables, s[j], writable);
    if SlotOf(s[i], tables).table == SlotOf(s[j], tables).table {
      FirstSeenMeans(feePayer, instructions, s[i], s[j]);
    }
  }

  /** Two entries of the same part. */
  lemma {:induction false} SamePartAhead(
      feePayer: Key, instructions: seq<Instruction>, tables: seq<LookupTable>, i: nat, j: nat, part: int,
      x: Meta, y: Meta)
    requires 0 <= part < 3 && i < j
    requires var ms := Metas(feePayer, instructions);
      var s := if part == 0 then StaticPart(ms, tables) else LoadedPart(ms, tables, part == 1);
      j < |s| && s[i] == x && s[j] == y
    ensures Ahead(feePayer, instructions, tables, x.key, y.key)
  {
    var ms := Metas(feePayer, instructions);
    if part == 0 {
      StaticAhead(feePayer, instructions, tables, i, j, StaticPart(ms, tables));
    } else {
      LoadedKeysAhead(feePayer, instructions, tables, part == 1, i, j, LoadedPart(ms, tables, part == 1));
    }
  }

  /** Entries of different parts are of different classes. */
  lemma {:induction false} LaterPartAhead(
      feePayer: Key, instructions: seq<Instruction>, tables: seq<LookupTable>, i: nat, j: nat, x: Meta, y: Meta)
    requires var ms := Metas(feePayer, instructions);
      var es, n := Entries(ms, tables), |StaticPart(ms, tables)|;
      var k := n + |LoadedPart(ms, tables, true)|;
      && i < j < |es| && x == es[i] && y == es[j]
      && ((i < n && n <= j) || (n <= i < k && k <= j))
    ensures Ahead(feePayer, instructions, tables, x.key, y.key)
  {
    EntryClass(feePayer, instructions, tables, i);
    EntryClass(feePayer, instructions, tables, j);
    LowerClassAhead(feePayer, instructions, tables, x.key, y.key);
  }

  lemma {:induction false} EntriesAhead(
      feePayer: Key, instructions: seq<Instruction>, tables: seq<LookupTable>, i: nat, j: nat, x: Meta, y: Meta)
    requires var es := Entries(Metas(feePayer, instructions), tables); i < j < |es| && x == es[i] && y == es[j]
    ensures Ahead(feePayer, instructions, tables, x.key, y.key)
  {
    var ms := Metas(feePayer, instructions);
    var s, w, r := StaticPart(ms, tables), LoadedPart(ms, tables, true), LoadedPart(ms, tables, false);
    ThreeParts(Entries(ms, tables), s, w, r, i);
    ThreeParts(Entries(ms, tables), s, w, r, j);
    var n, k := |s|, |s| + |w|;
    if j < n {
      SamePartAhead(feePayer, instructions, tables, i, j, 0, x, y);
    } else if n <= i && j < k {
      SamePartAhead(feePayer, instructions, tables, i - n, j - n, 1, x, y);
    } else if k <= i {
      SamePartAhead(feePayer, instructions, tables, i - k, j - k, 2, x, y);
    } else {
      LaterPartAhead(feePayer, instructions, tables, i, j, x, y);
    }
  }

  lemma {:induction false} ThreeParts<T>(all: seq<T>, a: seq<T>, b: seq<T>, c: seq<T>, i: nat)
    requires all == a + b + c && i < |all|
    ensures all[i] == if i < |a| then a[i] else if i < |a| + |b| then b[i - |a|] else c[i - |a| - |b|]
  {
  }

  lemma {:induction false} LowerClassAhead(
      feePayer: Key, instructions: seq<Instruction>, tables: seq<LookupTable>, a: Key, b: Key)
    requires Class(feePayer, instructions, tables, a) < Class(feePayer, instructions, tables, b)
    ensures Ahead(feePayer, instructions, tables, a, b)
  {
  }

  lemma {:induction false} EntryClass(feePayer: Key, instructions: seq<Instruction>, tables: seq<LookupTable>, i: nat)
    requires i < |Entries(Metas(feePayer, instructions), tables)|
    ensures var ms := Metas(feePayer, instructions);
      var x := Class(feePayer, instructions, tables, Entries(ms, tables)[i].key);
      var n := |StaticPart(ms, tables)|;
      if i < n then x < 4 else x == if i < n + |LoadedPart(ms, tables, true)| then 4 else 5
  {
    var ms := Metas(feePayer, instructions);
    var s, w := StaticPart(ms, tables), LoadedPart(ms, tables, true);
    var m := Entries(ms, tables)[i];
    if i < |s| {
      WrittenEntry(feePayer, instructions, tables, m);
    } else {
      LoadedEntry(feePayer, instructions, tables, m, i < |s| + |w|);
    }
  }

  /** The reported keys stand in this order, which leaves no choice: see `CompiledKeyTable` for which they are. */
  lemma {:induction false} KeysOrdered(
      version: Version, feePayer: Key, instructions: seq<Instruction>, blockhash: Key, tables: seq<LookupTable>,
      c: CompiledMessage, i: nat, j: nat)
    requires SmallTables(tables) && CompileWith(version, feePayer, instructions, blockhash, tables) == Ok(c)
    requires i < j < |c.accountKeys|
    ensures Ahead(feePayer, instructions, tables, c.accountKeys[i], c.accountKeys[j])
  {
    CompiledHeader(version, feePayer, instructions, blockhash, tables, c,
      StaticPart(Metas(feePayer, instructions), tables));
    var es := Entries(Metas(feePayer, instructions), tables);
    EntriesAhead(feePayer, instructions, tables, i, j, es[i], es[j]);
  }

  //// The lookups

  /** Position `x` of table `t` is the first one, in the first table, at which its key is listed. */
  ghost predicate FirstPlace(tables: seq<LookupTable>, t: nat, x: nat) {
    && t < |tables| && x < |tables[t].addresses| && FirstTable(tables, tables[t].addresses[x], t)
    && tables[t].addresses[x] !in tables[t].addresses[..x]
  }

  /** A lookup that takes something from table `t`, and each key from its first place. */
  ghost predicate TakesFrom(l: TableLookup, tables: seq<LookupTable>, t: nat) {
    && t < |tables| && l.table == tables[t].address && (l.writable != [] || l.readonly != [])
    && (forall i :: 0 <= i < |l.writable| ==> FirstPlace(tables, t, l.writable[i]))
    && (forall i :: 0 <= i < |l.readonly| ==> FirstPlace(tables, t, l.readonly[i]))
  }

  lemma {:induction false} IndexPlace(
      ms: seq<Meta>, tables: seq<LookupTable>, t: nat, writable: bool, i: nat, picked: seq<Meta>)
    requires SmallTables(tables) && picked == Pick(ms, tables, Loaded(t, writable)) && i < |picked|
    ensures FirstPlace(tables, t, IndexesOf(picked, tables)[i])
  {
    PickIn(ms, tables, Loaded(t, writable), picked[i]);
    SlotTable(picked[i], tables);
  }

  lemma {:induction false} LookupTakes(ms: seq<Meta>, tables: seq<LookupTable>, t: nat)
    requires SmallTables(tables) && t < |tables|
    ensures var l := LookupOf(ms, tables, t);
      l.writable != [] || l.readonly != [] ==> TakesFrom(l, tables, t)
  {
    var w, r := Pick(ms, tables, Loaded(t, true)), Pick(ms, tables, Loaded(t, false));
    forall i | 0 <= i < |w|
      ensures FirstPlace(tables, t, IndexesOf(w, tables)[i])
    {
      IndexPlace(ms, tables, t, true, i, w);
    }
    forall i | 0 <= i < |r|
      ensures FirstPlace(tables, t, IndexesOf(r, tables)[i])
    {
      IndexPlace(ms, tables, t, false, i, r);
    }
  }

  ghost predicate Increasing(ts: seq<nat>, n: nat) {
    (forall i, j :: 0 <= i < j < |ts| ==> ts[i] < ts[j]) && forall i :: 0 <= i < |ts| ==> ts[i] < n
  }

  ghost predicate AllTake(ls: seq<TableLookup>, tables: seq<LookupTable>, ts: seq<nat>) {
    |ts| == |ls| && forall i :: 0 <= i < |ls| ==> TakesFrom(ls[i], tables, ts[i])
  }

  lemma {:induction false} OneMoreTakes(
      ls: seq<TableLookup>, tables: seq<LookupTable>, ts: seq<nat>, n: nat, l: TableLookup)
    requires AllTake(ls, tables, ts) && Increasing(ts, n) && TakesFrom(l, tables, n)
    ensures AllTake(ls + [l], tables, ts + [n]) && Increasing(ts + [n], n + 1)
  {
  }

  lemma {:induction false} TakesNext(
      before: seq<TableLookup>, tables: seq<LookupTable>, first: seq<nat>, n: nat, l: TableLookup)
      returns (ts: seq<nat>)
    requires AllTake(before, tables, first) && Increasing(first, n)
    requires l.writable != [] || l.readonly != [] ==> TakesFrom(l, tables, n)
    ensures AllTake(before + if l.writable == [] && l.readonly == [] then [] else [l], tables, ts)
    ensures Increasing(ts, n + 1)
  {
    if l.writable == [] && l.readonly == [] {
      assert before + [] == before;
      ts := first;
    } else {
      OneMoreTakes(before, tables, first, n, l);
      ts := first + [n];
    }
  }

  lemma {:induction false} LookupsTake(ms: seq<Meta>, tables: seq<LookupTable>, n: nat, ls: seq<TableLookup>)
      returns (ts: seq<nat>)
    requires SmallTables(tables) && n <= |tables| && ls == LookupsUpTo(ms, tables, n)
    ensures AllTake(ls, tables, ts) && Increasing(ts, n)
  {
    if n == 0 {
      ts := [];
    } else {
      var before := LookupsUpTo(ms, tables, n - 1);
      ts := LookupsTake(ms, tables, n - 1, before);
      LookupsNext(ms, tables, n - 1);
      LookupTakes(ms, tables, n - 1);
      ts := TakesNext(before, tables, ts, n - 1, LookupOf(ms, tables, n - 1));
    }
  }

  /**
   There is a lookup for each table that is used and for no other, in the order of the tables, and
   each key is taken from the first place at which it is listed.
   */
  lemma {:induction false} LookupsExactly(
      version: Version, feePayer: Key, instructions: seq<Instruction>, blockhash: Key, tables: seq<LookupTable>,
      c: CompiledMessage) returns (ts: seq<nat>)
    requires SmallTables(tables) && CompileWith(version, feePayer, instructions, blockhash, tables) == Ok(c)
    ensures AllTake(c.lookups, tables, ts) && Increasing(ts, |tables|)
  {
    CompiledParts(version, feePayer, instructions, blockhash, tables, c);
    ts := LookupsTake(Metas(feePayer, instructions), tables, |tables|, c.lookups);
  }
}

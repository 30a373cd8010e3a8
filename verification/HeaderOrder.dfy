/**
 The order of the static keys and the three header counts, which together give back each privilege.
 */
module HeaderOrder {
  import opened Wrappers
  import opened Bytes
  import opened Message
  import opened AccountMetas
  import opened KeyTable

  //// Sorting by (group, first use)

  predicate Before(a: Meta, b: Meta) {
    Group(a) < Group(b) || (Group(a) == Group(b) && a.firstSeen < b.firstSeen)
  }

  ghost predicate Sorted(ms: seq<Meta>) {
    forall i, j :: 0 <= i < j < |ms| ==> Before(ms[i], ms[j])
  }

  lemma {:induction false} SortedConcat(s: seq<Meta>, t: seq<Meta>)
    requires Sorted(s) && Sorted(t) && forall a, b :: a in s && b in t ==> Before(a, b)
    ensures Sorted(s + t)
  {
    forall i, j | 0 <= i < j < |s + t|
      ensures Before((s + t)[i], (s + t)[j])
    {
      if i < |s| <= j {
        assert s[i] in s && t[j - |s|] in t;
      }
    }
  }

  lemma {:induction false} PickSorted(ms: seq<Meta>, tables: seq<LookupTable>, group: nat)
    requires InFirstUseOrder(ms)
    ensures Sorted(Pick(ms, tables, Static(group)))
  {
    if ms != [] {
      var init, last := ms[..|ms| - 1], ms[|ms| - 1];
      var s := Pick(init, tables, Static(group));
      PickSorted(init, tables, group);
      if SlotOf(last, tables) == Static(group) {
        forall a | a in s
          ensures Before(a, last)
        {
          PickIn(init, tables, Static(group), a);
          SlotGroup(a, tables, group);
          SlotGroup(last, tables, group);
        }
        SortedConcat(s, [last]);
      }
    }
  }

  lemma {:induction false} SlotGroup(m: Meta, tables: seq<LookupTable>, group: nat)
    requires SlotOf(m, tables) == Static(group)
    ensures Group(m) == group
  {
  }

  lemma {:induction false} PicksOrdered(ms: seq<Meta>, tables: seq<LookupTable>, g: nat, h: nat)
    requires g < h
    ensures forall a, b :: a in Pick(ms, tables, Static(g)) && b in Pick(ms, tables, Static(h)) ==> Before(a, b)
  {
    forall a, b | a in Pick(ms, tables, Static(g)) && b in Pick(ms, tables, Static(h))
      ensures Before(a, b)
    {
      PickIn(ms, tables, Static(g), a);
      PickIn(ms, tables, Static(h), b);
      SlotGroup(a, tables, g);
      SlotGroup(b, tables, h);
    }
  }

  /** The static part comes out in sorted order. */
  lemma {:induction false} StaticSorted(ms: seq<Meta>, tables: seq<LookupTable>)
    requires InFirstUseOrder(ms)
    ensures Sorted(StaticPart(ms, tables))
  {
    var p0, p1 := Pick(ms, tables, Static(0)), Pick(ms, tables, Static(1));
    var p2, p3 := Pick(ms, tables, Static(2)), Pick(ms, tables, Static(3));
    PickSorted(ms, tables, 0);
    PickSorted(ms, tables, 1);
    PickSorted(ms, tables, 2);
    PickSorted(ms, tables, 3);
    PicksOrdered(ms, tables, 0, 1);
    SortedConcat(p0, p1);
    PicksOrdered(ms, tables, 0, 2);
    PicksOrdered(ms, tables, 1, 2);
    SortedConcat(p0 + p1, p2);
    PicksOrdered(ms, tables, 0, 3);
    PicksOrdered(ms, tables, 1, 3);
    PicksOrdered(ms, tables, 2, 3);
    SortedConcat(p0 + p1 + p2, p3);
  }

  lemma {:induction false} SameHead(s: seq<Meta>, t: seq<Meta>)
    requires Sorted(s) && Sorted(t) && s != [] && t != [] && s[0] in t && t[0] in s
    ensures s[0] == t[0]
  {
    var k :| 0 <= k < |t| && t[k] == s[0];
    var l :| 0 <= l < |s| && s[l] == t[0];
    assert k == 0 || Before(t[0], t[k]);
    assert l == 0 || Before(s[0], s[l]);
  }

  /** A strictly sorted list is determined by its elements. */
  lemma {:induction false} SortedUnique(s: seq<Meta>, t: seq<Meta>)
    requires Sorted(s) && Sorted(t) && forall m :: m in s <==> m in t
    ensures s == t
  {
    assert (s == [] || s[0] in s) && (t == [] || t[0] in t);
    if s != [] && t != [] {
      SameHead(s, t);
      forall m
        ensures m in s[1..] <==> m in t[1..]
      {
        assert m in s[1..] <==> m in s && m != s[0];
        assert m in t[1..] <==> m in t && m != t[0];
      }
      SortedUnique(s[1..], t[1..]);
    }
  }

  function OrderStatic(ms: seq<Meta>): seq<Meta> {
    StaticPart(ms, [])
  }

  lemma {:induction false} BagOfFour(a: seq<Meta>, b: seq<Meta>, c: seq<Meta>, d: seq<Meta>)
    ensures multiset(a + b + c + d) == multiset(a) + multiset(b) + multiset(c) + multiset(d)
  {
  }

  function One(m: Meta, picked: bool): multiset<Meta> {
    if picked then multiset{m} else multiset{}
  }

  lemma {:induction false} PickOneMore(init: seq<Meta>, last: Meta, group: nat)
    ensures multiset(Pick(init + [last], [], Static(group)))
      == multiset(Pick(init, [], Static(group))) + One(last, Group(last) == group)
  {
    var ms := init + [last];
    assert ms[..|ms| - 1] == init && ms[|ms| - 1] == last;
    assert SlotOf(last, []) == Static(Group(last));
  }

  lemma {:induction false} OneGroup(m: Meta)
    ensures One(m, Group(m) == 0) + One(m, Group(m) == 1) + One(m, Group(m) == 2) + One(m, Group(m) == 3)
      == multiset{m}
  {
  }

  lemma {:induction false} AddBags(a: multiset<Meta>, b: multiset<Meta>, c: multiset<Meta>, d: multiset<Meta>,
      w: multiset<Meta>, x: multiset<Meta>, y: multiset<Meta>, z: multiset<Meta>)
    ensures (a + w) + (b + x) + (c + y) + (d + z) == (a + b + c + d) + (w + x + y + z)
  {
  }

  function Bag(ms: seq<Meta>, group: nat): multiset<Meta> {
    multiset(Pick(ms, [], Static(group)))
  }

  /** Each entry is picked by exactly one group: together the groups are a permutation of the entries. */
  lemma {:induction false} GroupsPermute(ms: seq<Meta>)
    ensures Bag(ms, 0) + Bag(ms, 1) + Bag(ms, 2) + Bag(ms, 3) == multiset(ms)
  {
    if ms != [] {
      var init, last := ms[..|ms| - 1], ms[|ms| - 1];
      assert ms == init + [last];
      GroupsPermute(init);
      PickOneMore(init, last, 0);
      PickOneMore(init, last, 1);
      PickOneMore(init, last, 2);
      PickOneMore(init, last, 3);
      OneGroup(last);
      AddBags(Bag(init, 0), Bag(init, 1), Bag(init, 2), Bag(init, 3), One(last, Group(last) == 0),
        One(last, Group(last) == 1), One(last, Group(last) == 2), One(last, Group(last) == 3));
    }
  }

  lemma {:induction false} OrderPermutes(ms: seq<Meta>)
    ensures multiset(OrderStatic(ms)) == multiset(ms)
  {
    GroupsPermute(ms);
    BagOfFour(Pick(ms, [], Static(0)), Pick(ms, [], Static(1)), Pick(ms, [], Static(2)), Pick(ms, [], Static(3)));
  }

  /** Whatever sorts the entries by (group, first use) returns the four groups in order. */
  lemma {:induction false} OrderIsTheSort(ms: seq<Meta>, sorted: seq<Meta>)
    requires InFirstUseOrder(ms)
    ensures Sorted(sorted) && multiset(sorted) == multiset(ms) ==> sorted == OrderStatic(ms)
    ensures Sorted(OrderStatic(ms)) && multiset(OrderStatic(ms)) == multiset(ms)
  {
    StaticSorted(ms, []);
    OrderPermutes(ms);
    forall m
      ensures m in OrderStatic(ms) <==> m in ms
    {
      StaticIn(ms, [], m);
    }
    if Sorted(sorted) && multiset(sorted) == multiset(ms) {
      forall m
        ensures m in sorted <==> m in OrderStatic(ms)
      {
        assert m in sorted <==> m in multiset(sorted);
        assert m in ms <==> m in multiset(ms);
      }
      SortedUnique(sorted, OrderStatic(ms));
    }
  }

  /** The entries the tables leave static, in order of first use. */
  function StaticMetas(ms: seq<Meta>, tables: seq<LookupTable>): seq<Meta> {
    if ms == [] then []
    else
      var last := ms[|ms| - 1];
      StaticMetas(ms[..|ms| - 1], tables) + if SlotOf(last, tables).Static? then [last] else []
  }

  lemma {:induction false} PickStatic(ms: seq<Meta>, tables: seq<LookupTable>, group: nat)
    ensures Pick(StaticMetas(ms, tables), [], Static(group)) == Pick(ms, tables, Static(group))
  {
    if ms != [] {
      var init, last := ms[..|ms| - 1], ms[|ms| - 1];
      var st := StaticMetas(init, tables);
      PickStatic(init, tables, group);
      if SlotOf(last, tables).Static? {
        assert SlotOf(last, tables) == Static(Group(last)) == SlotOf(last, []);
        assert (st + [last])[..|st|] == st;
      } else {
        assert StaticMetas(ms, tables) == st;
      }
    }
  }

  /** Placing first and then ordering gives the static part of the key table. */
  lemma {:induction false} OrderOfStatic(ms: seq<Meta>, tables: seq<LookupTable>)
    ensures OrderStatic(StaticMetas(ms, tables)) == StaticPart(ms, tables)
  {
    PickStatic(ms, tables, 0);
    PickStatic(ms, tables, 1);
    PickStatic(ms, tables, 2);
    PickStatic(ms, tables, 3);
  }

  //// Header counts

  datatype HeaderCount = Signatures | ReadonlySigned | ReadonlyUnsigned

  predicate Matches(m: Meta, c: HeaderCount) {
    match c
    case Signatures => m.isSigner
    case ReadonlySigned => m.isSigner && !m.isWritable
    case ReadonlyUnsigned => !m.isSigner && !m.isWritable
  }

  function Count(ms: seq<Meta>, c: HeaderCount): (n: nat)
    ensures n <= |ms|
  {
    if ms == [] then 0 else Count(ms[..|ms| - 1], c) + if Matches(ms[|ms| - 1], c) then 1 else 0
  }

  lemma {:induction false} CountConcat(s: seq<Meta>, t: seq<Meta>, c: HeaderCount)
    ensures Count(s + t, c) == Count(s, c) + Count(t, c)
  {
    if t == [] {
      assert s + t == s;
    } else {
      assert (s + t)[..|s + t| - 1] == s + t[..|t| - 1];
      CountConcat(s, t[..|t| - 1], c);
    }
  }

  lemma {:induction false} CountUniform(s: seq<Meta>, c: HeaderCount, b: bool)
    requires forall m :: m in s ==> Matches(m, c) == b
    ensures Count(s, c) == if b then |s| else 0
  {
    if s != [] {
      assert s[|s| - 1] in s;
      CountUniform(s[..|s| - 1], c, b);
    }
  }

  lemma {:induction false} PickPrivileges(ms: seq<Meta>, tables: seq<LookupTable>, group: nat)
    requires group < 4
    ensures forall m :: m in Pick(ms, tables, Static(group)) ==>
      (m.isSigner <==> group < 2) && (m.isWritable <==> group == 0 || group == 2)
  {
    forall m | m in Pick(ms, tables, Static(group))
      ensures (m.isSigner <==> group < 2) && (m.isWritable <==> group == 0 || group == 2)
    {
      PickIn(ms, tables, Static(group), m);
      SlotGroup(m, tables, group);
    }
  }

  lemma {:induction false} CountPick(ms: seq<Meta>, tables: seq<LookupTable>, group: nat, c: HeaderCount)
    requires group < 4
    ensures var b := match c case Signatures => group < 2
                             case ReadonlySigned => group == 1
                             case ReadonlyUnsigned => group == 3;
            Count(Pick(ms, tables, Static(group)), c) == if b then |Pick(ms, tables, Static(group))| else 0
  {
    PickPrivileges(ms, tables, group);
    CountUniform(Pick(ms, tables, Static(group)), c,
      match c case Signatures => group < 2 case ReadonlySigned => group == 1 case ReadonlyUnsigned => group == 3);
  }

  lemma {:induction false} CountStatic(ms: seq<Meta>, tables: seq<LookupTable>, c: HeaderCount)
    ensures Count(StaticPart(ms, tables), c)
         == Count(Pick(ms, tables, Static(0)), c) + Count(Pick(ms, tables, Static(1)), c)
          + Count(Pick(ms, tables, Static(2)), c) + Count(Pick(ms, tables, Static(3)), c)
  {
    var p0, p1 := Pick(ms, tables, Static(0)), Pick(ms, tables, Static(1));
    var p2, p3 := Pick(ms, tables, Static(2)), Pick(ms, tables, Static(3));
    CountConcat(p0, p1, c);
    CountConcat(p0 + p1, p2, c);
    CountConcat(p0 + p1 + p2, p3, c);
  }

  /** The counts are the group sizes. */
  lemma {:induction false} HeaderCounts(ms: seq<Meta>, tables: seq<LookupTable>)
    ensures var s := StaticPart(ms, tables);
      && Count(s, Signatures) == |Pick(ms, tables, Static(0))| + |Pick(ms, tables, Static(1))|
      && Count(s, ReadonlySigned) == |Pick(ms, tables, Static(1))|
      && Count(s, ReadonlyUnsigned) == |Pick(ms, tables, Static(3))|
  {
    forall c: HeaderCount
      ensures Count(StaticPart(ms, tables), c)
           == Count(Pick(ms, tables, Static(0)), c) + Count(Pick(ms, tables, Static(1)), c)
            + Count(Pick(ms, tables, Static(2)), c) + Count(Pick(ms, tables, Static(3)), c)
    {
      CountStatic(ms, tables, c);
    }
    forall c: HeaderCount, group: nat | group < 4
      ensures Count(Pick(ms, tables, Static(group)), c)
           == if (match c case Signatures => group < 2
                          case ReadonlySigned => group == 1
                          case ReadonlyUnsigned => group == 3)
              then |Pick(ms, tables, Static(group))| else 0
    {
      CountPick(ms, tables, group, c);
    }
  }

  //// Reading privileges from a position

  /** A static key signs when it stands among the first `signatures`. */
  predicate SignsAt(signatures: nat, i: nat) {
    i < signatures
  }

  /** The last signers and the last non-signers of the static keys are readonly. */
  predicate WritesAt(signatures: nat, readonlySigned: nat, readonlyUnsigned: nat, keys: nat, i: nat) {
    if i < signatures then i < signatures - readonlySigned else i < keys - readonlyUnsigned
  }

  lemma {:induction false} StaticAt(ms: seq<Meta>, tables: seq<LookupTable>, i: nat)
    requires i < |StaticPart(ms, tables)|
    ensures var n0, n1 := |Pick(ms, tables, Static(0))|, |Pick(ms, tables, Static(1))|;
            var n2 := |Pick(ms, tables, Static(2))|;
            var m := StaticPart(ms, tables)[i];
            (m.isSigner <==> i < n0 + n1) && (m.isWritable <==> i < n0 || n0 + n1 <= i < n0 + n1 + n2)
  {
    var p0, p1 := Pick(ms, tables, Static(0)), Pick(ms, tables, Static(1));
    var p2, p3 := Pick(ms, tables, Static(2)), Pick(ms, tables, Static(3));
    var m := StaticPart(ms, tables)[i];
    PickPrivileges(ms, tables, 0);
    PickPrivileges(ms, tables, 1);
    PickPrivileges(ms, tables, 2);
    PickPrivileges(ms, tables, 3);
    if i < |p0| {
      assert m == p0[i];
    } else if i < |p0 + p1| {
      assert m == p1[i - |p0|];
    } else if i < |p0 + p1 + p2| {
      assert m == p2[i - |p0 + p1|];
    } else {
      assert m == p3[i - |p0 + p1 + p2|];
    }
  }

  /** Position and the three counts give back exactly the merged flags of each static entry. */
  lemma {:induction false} StaticPrivileges(ms: seq<Meta>, tables: seq<LookupTable>, i: nat)
    requires i < |StaticPart(ms, tables)|
    ensures var s := StaticPart(ms, tables);
            var signatures, readonlySigned, readonlyUnsigned :=
              Count(s, Signatures), Count(s, ReadonlySigned), Count(s, ReadonlyUnsigned);
            (s[i].isSigner <==> SignsAt(signatures, i))
            && (s[i].isWritable <==> WritesAt(signatures, readonlySigned, readonlyUnsigned, |s|, i))
  {
    HeaderCounts(ms, tables);
    StaticAt(ms, tables, i);
  }

  /** Loaded entries never sign, and the writable ones are those of the writable part. */
  lemma {:induction false} LoadedPrivileges(ms: seq<Meta>, tables: seq<LookupTable>, writable: bool, i: nat)
    requires i < |LoadedPart(ms, tables, writable)|
    ensures var m := LoadedPart(ms, tables, writable)[i];
            !m.isSigner && !m.isProgram && m.isWritable == writable
  {
    var m := LoadedPart(ms, tables, writable)[i];
    LoadedIn(ms, tables, writable, |tables|, m);
  }
}

/** What the extensions of a mint hold, field by field and offset by offset, and which mints are refused. */
module MintFields {
  import opened Wrappers
  import opened Bytes
  import opened LittleEndianIntegers
  import opened TransferFees
  import opened TokenExtensions

  //// One entry

  /** A key at an offset; 32 zero bytes are none. */
  ghost predicate KeyIn(bytes: seq<byte>, from: nat, key: Option<seq<byte>>) {
    from + 32 <= |bytes|
    && match key
       case None => forall i :: from <= i < from + 32 ==> bytes[i] == 0
       case Some(k) => k == bytes[from..from + 32] && exists i :: from <= i < from + 32 && bytes[i] != 0
  }

  /** A fee at an offset: epoch and maximum of eight bytes each, basis points of two. */
  ghost predicate FeeIn(bytes: seq<byte>, from: nat, fee: TransferFee) {
    from + 18 <= |bytes|
    && fee.epoch == Unsigned(bytes[from..from + 8]) && fee.maximumFee == Unsigned(bytes[from + 8..from + 16])
    && fee.basisPoints == Unsigned(bytes[from + 16..from + 18]) <= 10_000
  }

  /** The fields of a fee configuration at their offsets. */
  ghost predicate ConfigIn(value: seq<byte>, c: TransferFeeConfig) {
    && |value| == 108
    && KeyIn(value, 0, c.configAuthority) && KeyIn(value, 32, c.withdrawAuthority)
    && c.withheld == Unsigned(value[64..72]) && FeeIn(value, 72, c.older) && FeeIn(value, 90, c.newer)
  }

  /** Fee configurations and hooks have their sizes, and no configuration takes more than the whole amount. */
  ghost predicate WellShaped(e: Extension) {
    && (e.kind == 1 ==>
          |e.value| == 108 && Unsigned(e.value[88..90]) <= 10_000 && Unsigned(e.value[106..108]) <= 10_000)
    && (e.kind == 14 ==> |e.value| == 64)
  }

  lemma {:induction false} FeeHeld(value: seq<byte>, from: nat, fee: TransferFee)
    requires from + 18 <= |value|
    ensures DecodeFee(value[from..from + 18]) == Ok(fee) <==> FeeIn(value, from, fee)
  {
    SubSlice(value, from, 18, 0, 8);
    SubSlice(value, from, 18, 8, 16);
    SubSlice(value, from, 18, 16, 18);
  }

  lemma {:induction false} SubSlice(bytes: seq<byte>, from: nat, n: nat, a: nat, b: nat)
    requires a <= b <= n && from + n <= |bytes|
    ensures bytes[from..from + n][a..b] == bytes[from + a..from + b]
    ensures b == n ==> bytes[from..from + n][a..] == bytes[from + a..from + b]
  {
    var part := bytes[from..from + n];
    assert |part[a..b]| == |bytes[from + a..from + b]|;
    forall i | 0 <= i < b - a
      ensures part[a..b][i] == bytes[from + a..from + b][i]
    {
      assert part[a..b][i] == part[a + i] == bytes[from + (a + i)];
      assert bytes[from + a..from + b][i] == bytes[(from + a) + i];
    }
    if b == n {
      assert |part| == b;
      assert part[a..] == part[a..b];
    }
  }

  lemma {:induction false} KeyHeld(value: seq<byte>, from: nat, key: Option<seq<byte>>)
    requires from + 32 <= |value|
    ensures OptionalKey(value[from..from + 32]) == key <==> KeyIn(value, from, key)
  {
    var part := value[from..from + 32];
    assert forall i :: from <= i < from + 32 ==> value[i] == part[i - from];
  }

  /** A configuration is decoded from a value exactly when it is what the value's fields say. */
  lemma {:induction false} ConfigHeld(value: seq<byte>, c: TransferFeeConfig)
    ensures DecodeFeeConfig(value) == Ok(c) <==> ConfigIn(value, c)
  {
    if |value| == 108 {
      KeyHeld(value, 0, c.configAuthority);
      KeyHeld(value, 32, c.withdrawAuthority);
      FeeHeld(value, 72, c.older);
      FeeHeld(value, 90, c.newer);
      assert value[90..] == value[90..108];
    }
  }

  lemma {:induction false} ShapedExactly(e: Extension)
    ensures Shaped(e) <==> WellShaped(e)
  {
    if e.kind == 1 && |e.value| == 108 {
      var older, newer := e.value[72..90], e.value[90..];
      assert older[16..] == e.value[88..90] && newer[16..] == e.value[106..108];
    }
  }

  //// All entries

  /** Entries that can be written with two-byte types and lengths, shaped, and at most one fee configuration. */
  ghost predicate Acceptable(entries: seq<Extension>) {
    && (forall i :: 0 <= i < |entries| ==>
          0 < entries[i].kind < 0x1_0000 && |entries[i].value| < 0x1_0000 && WellShaped(entries[i]))
    && forall i, j :: 0 <= i < j < |entries| ==> entries[i].kind != 1 || entries[j].kind != 1
  }

  lemma {:induction false} AcceptableExactly(entries: seq<Extension>)
    ensures ValidEntries(entries) <==> Acceptable(entries)
  {
    forall e
      ensures Shaped(e) <==> WellShaped(e)
    {
      ShapedExactly(e);
    }
    if Acceptable(entries) {
      forall e | e in entries
        ensures Writable(e) && Shaped(e)
      {
        var i :| 0 <= i < |entries| && entries[i] == e;
      }
    }
    if ValidEntries(entries) {
      forall i | 0 <= i < |entries|
        ensures Writable(entries[i]) && Shaped(entries[i])
      {
        assert entries[i] in entries;
      }
    }
  }

  /** Type and length in two little-endian bytes each, then the value. */
  lemma {:induction false} EntryBytes(e: Extension)
    requires 0 < e.kind < 0x1_0000 && |e.value| < 0x1_0000
    ensures WriteEntry(e) == [e.kind % 256, e.kind / 256, |e.value| % 256, |e.value| / 256] + e.value
  {
    TwoByteInteger(e.kind);
    TwoByteInteger(|e.value|);
  }

  lemma {:induction false} TwoByteInteger(n: nat)
    requires n < 0x1_0000
    ensures LittleEndian(n, 2) == [n % 256, n / 256]
  {
    assert LittleEndian(n, 2) == [n % 256] + LittleEndian(n / 256, 1);
    assert LittleEndian(n / 256, 1) == [n / 256] + LittleEndian(0, 0);
  }

  /** The last hook entry decides which hook there is. */
  ghost predicate HookOf(entries: seq<Extension>, hook: Option<seq<byte>>) {
    if entries == [] then hook == None
    else
      var init, last := entries[..|entries| - 1], entries[|entries| - 1];
      if last.kind == 14 then KeyIn(last.value, 32, hook) else HookOf(init, hook)
  }

  /** What accepted entries amount to. */
  ghost predicate Means(entries: seq<Extension>, f: Findings) {
    && f.extensions == entries
    && (f.feeConfig.Some? <==> exists e :: e in entries && e.kind == 1)
    && (forall e :: e in entries && e.kind == 1 ==> f.feeConfig.Some? && ConfigIn(e.value, f.feeConfig.value))
    && HookOf(entries, f.hook)
    && (f.unmodelled <==>
          exists e :: (e in entries
            && (e.kind == 16 || (e.kind == 14 && |e.value| == 64 && exists i :: 32 <= i < 64 && e.value[i] != 0))))
  }

  lemma {:induction false} AbsorbOneMore(f: Findings, init: seq<Extension>, last: Extension)
    requires AbsorbAll(f, init + [last]).Ok?
    ensures AbsorbAll(f, init).Ok?
    ensures AbsorbAll(f, init + [last]) == Absorb(AbsorbAll(f, init).value, last)
    decreases |init|
  {
    if init == [] {
      assert ([last])[1..] == [];
      assert [] + [last] == [last];
    } else {
      assert (init + [last])[1..] == init[1..] + [last];
      AbsorbOneMore(Absorb(f, init[0]).value, init[1..], last);
    }
  }

  lemma {:induction false} HookAbsorbed(entries: seq<Extension>)
    requires AbsorbAll(Nothing, entries).Ok?
    ensures HookOf(entries, AbsorbAll(Nothing, entries).value.hook)
    decreases |entries|
  {
    if entries != [] {
      var init, last := SplitLast(entries);
      assert entries[..|entries| - 1] == init;
      AbsorbOneMore(Nothing, init, last);
      HookAbsorbed(init);
      if last.kind == 14 {
        KeyHeld(last.value, 32, AbsorbAll(Nothing, entries).value.hook);
        assert last.value[32..] == last.value[32..64];
      }
    }
  }

  lemma {:induction false} UnmodelledExactly(e: Extension)
    ensures Unmodelled(e) <==>
      e.kind == 16 || (e.kind == 14 && |e.value| == 64 && exists i :: 32 <= i < 64 && e.value[i] != 0)
  {
    if |e.value| == 64 {
      var program := e.value[32..];
      if i :| 32 <= i < 64 && e.value[i] != 0 {
        assert program[i - 32] != 0;
      }
      if !AllZero(program) {
        var i :| 0 <= i < |program| && program[i] != 0;
        assert e.value[i + 32] != 0;
      }
    }
  }

  lemma {:induction false} AbsorbedMeans(entries: seq<Extension>)
    requires AbsorbAll(Nothing, entries).Ok?
    ensures Means(entries, AbsorbAll(Nothing, entries).value)
  {
    FlagExactly(Nothing, entries);
    FeeConfigExactly(Nothing, entries);
    HookAbsorbed(entries);
    assert [] + entries == entries;
    forall e
      ensures Unmodelled(e) <==>
        e.kind == 16 || (e.kind == 14 && |e.value| == 64 && exists i :: 32 <= i < 64 && e.value[i] != 0)
    {
      UnmodelledExactly(e);
    }
    forall e | e in entries && e.kind == 1
      ensures AbsorbAll(Nothing, entries).value.feeConfig.Some?
      ensures ConfigIn(e.value, AbsorbAll(Nothing, entries).value.feeConfig.value)
    {
      ConfigHeld(e.value, DecodeFeeConfig(e.value).value);
    }
  }

  //// The whole mint

  /** A mint of type one whose entries start at byte 166 and then end. */
  ghost predicate MintHolds(data: seq<byte>, entries: seq<Extension>) {
    |data| >= 166 && data[165] == 1 && Acceptable(entries) && Written(data[166..], entries)
  }

  /** A mint's entries decide what is decoded; a bare mint has none. */
  lemma {:induction false} HeldIsDecoded(data: seq<byte>, entries: seq<Extension>)
    requires MintHolds(data, entries)
    ensures Decoded(data).Ok? && Decoded(data).value.accountType == Some(1)
    ensures Means(entries, Decoded(data).value.findings)
  {
    AcceptableExactly(entries);
    var end :| End(end) && data[166..] == WriteEntries(entries) + end;
    ParseWritten(entries, end, Nothing);
    AbsorbExactly(Nothing, entries);
    AbsorbedMeans(entries);
  }

  /** Exactly which mints are decoded, and how the others are refused before their entries are looked at. */
  lemma {:induction false} DecodedExactly(data: seq<byte>)
    ensures Decoded(data).Ok? <==> |data| == 82 || exists entries :: MintHolds(data, entries)
    ensures |data| == 82 ==> Decoded(data) == Ok(MintExtensions(None, Findings([], None, None, false)))
    ensures |data| != 82 && |data| <= 165 ==> Decoded(data) == Err(Truncated)
    ensures |data| > 165 && data[165] != 1 ==> Decoded(data) == Err(WrongAccountType(data[165]))
  {
    if Decoded(data).Ok? && |data| != 82 {
      AcceptedIsWritten(data[166..]);
      AcceptableExactly(Parse(data[166..], Nothing).value.extensions);
      assert MintHolds(data, Parse(data[166..], Nothing).value.extensions);
    }
    if entries :| MintHolds(data, entries) {
      HeldIsDecoded(data, entries);
    }
  }

  /** Why one entry is refused. */
  lemma {:induction false} EntryErrors(f: Findings, e: Extension)
    ensures Absorb(f, e) == Err(DuplicateFeeConfig) <==> e.kind == 1 && f.feeConfig.Some?
    ensures Absorb(f, e) == Err(FeeConfigLength(|e.value|)) <==>
      e.kind == 1 && f.feeConfig.None? && |e.value| != 108
    ensures Absorb(f, e) == Err(HookLength(|e.value|)) <==> e.kind == 14 && |e.value| != 64
    ensures Absorb(f, e).Err? && Absorb(f, e).error.ExcessiveBasisPoints? <==>
      e.kind == 1 && f.feeConfig.None? && |e.value| == 108
      && (Unsigned(e.value[88..90]) > 10_000 || Unsigned(e.value[106..108]) > 10_000)
  {
    if e.kind == 1 && |e.value| == 108 {
      ShapedExactly(e);
    }
  }

  /** Behind entries that are accepted, the parser goes on with what they amount to. */
  lemma {:induction false} ParseBehind(entries: seq<Extension>, rest: seq<byte>, f: Findings)
    requires (forall e :: e in entries ==> Writable(e)) && AbsorbAll(f, entries).Ok?
    ensures Parse(WriteEntries(entries) + rest, f) == Parse(rest, AbsorbAll(f, entries).value)
    decreases |entries|
  {
    var region := WriteEntries(entries) + rest;
    if entries == [] {
      assert region == rest;
    } else {
      var first, later := entries[0], entries[1..];
      assert region == WriteEntry(first) + (WriteEntries(later) + rest);
      EntryExactly(region, first, WriteEntries(later) + rest);
      assert Extension(first.kind, first.value) == first;
      ParseBehind(later, rest, Absorb(f, first).value);
    }
  }

  function TwoByteNumber(low: byte, high: byte): nat {
    var l: int, h: int := low, high;
    l + 256 * h
  }

  /** Where there is neither an end nor a whole entry, the reason is a stray byte or an entry that is cut off. */
  lemma {:induction false} RestErrors(rest: seq<byte>, f: Findings)
    ensures |rest| < 4 && (exists i :: 0 <= i < |rest| && rest[i] != 0) ==> Parse(rest, f) == Err(NonzeroTrailing)
    ensures |rest| >= 4 && (rest[0] != 0 || rest[1] != 0) && 4 + TwoByteNumber(rest[2], rest[3]) > |rest| ==>
      Parse(rest, f) == Err(EntryTruncated(TwoByteNumber(rest[0], rest[1])))
  {
    if |rest| >= 4 {
      PairValue(rest[..2]);
      PairValue(rest[2..4]);
    }
  }

  lemma {:induction false} PairValue(pair: seq<byte>)
    requires |pair| == 2
    ensures Unsigned(pair) == TwoByteNumber(pair[0], pair[1])
  {
    assert pair == [pair[0]] + ([pair[1]] + []);
    ValuePrepend(pair[1], [], 256);
    ValuePrepend(pair[0], [pair[1]] + [], 256);
  }

  /** Which error entries behind accepted ones lead to. */
  lemma {:induction false} RegionErrors(data: seq<byte>, entries: seq<Extension>, rest: seq<byte>)
    requires |data| >= 166 && data[165] == 1 && data[166..] == WriteEntries(entries) + rest && Acceptable(entries)
    ensures |rest| < 4 && (exists i :: 0 <= i < |rest| && rest[i] != 0) ==> Decoded(data) == Err(NonzeroTrailing)
    ensures |rest| >= 4 && (rest[0] != 0 || rest[1] != 0) && 4 + TwoByteNumber(rest[2], rest[3]) > |rest| ==>
      Decoded(data) == Err(EntryTruncated(TwoByteNumber(rest[0], rest[1])))
  {
    AcceptableExactly(entries);
    AbsorbExactly(Nothing, entries);
    ParseBehind(entries, rest, Nothing);
    RestErrors(rest, AbsorbAll(Nothing, entries).value);
  }
}

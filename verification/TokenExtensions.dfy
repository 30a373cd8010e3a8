/**
 Token-2022 mint extensions: type-length-value entries, parsed as the exact inverse of writing them.
 */
module TokenExtensions {
  import opened Wrappers
  import opened Bytes
  import opened LittleEndianIntegers
  import opened TransferFees

  datatype Extension = Extension(kind: nat, value: seq<byte>)

  const FeeConfigType := 1
  const HookType := 14
  const ConfidentialFeeType := 16

  const FeeConfigSize := 108
  const HookSize := 64

  datatype TlvError =
    | Truncated | WrongAccountType(tag: byte) | EntryTruncated(kind: nat) | DuplicateFeeConfig
    | FeeConfigLength(length: nat) | ExcessiveBasisPoints(basisPoints: nat) | HookLength(length: nat)
    | NonzeroTrailing

  //// The fee configuration

  predicate AllZero(bytes: seq<byte>) {
    forall i :: 0 <= i < |bytes| ==> bytes[i] == 0
  }

  function OptionalKey(bytes: seq<byte>): Option<seq<byte>> {
    if AllZero(bytes) then None else Some(bytes)
  }

  function DecodeFee(value: seq<byte>): Result<TransferFee, TlvError>
    requires |value| == 18
  {
    var basisPoints := Unsigned(value[16..]);
    if basisPoints > 10_000 then Err(ExcessiveBasisPoints(basisPoints))
    else Ok(TransferFee(Unsigned(value[..8]), Unsigned(value[8..16]), basisPoints))
  }

  function DecodeFeeConfig(value: seq<byte>): Result<TransferFeeConfig, TlvError> {
    if |value| != FeeConfigSize then Err(FeeConfigLength(|value|))
    else
      match DecodeFee(value[72..90])
      case Err(e) => Err(e)
      case Ok(older) =>
        match DecodeFee(value[90..])
        case Err(e) => Err(e)
        case Ok(newer) =>
          Ok(TransferFeeConfig(
            OptionalKey(value[..32]), OptionalKey(value[32..64]), Unsigned(value[64..72]), older, newer))
  }

  /** A decoded configuration never makes a transfer fee exceed its amount, in any epoch. */
  lemma {:induction false} DecodedFeesSafe(value: seq<byte>, epoch: int)
    requires DecodeFeeConfig(value).Ok?
    ensures Safe(Some(DecodeFeeConfig(value).value), epoch)
  {
  }

  //// The fee configuration as bytes

  lemma {:induction false} UnsignedExactly(bytes: seq<byte>, n: nat, k: nat)
    requires |bytes| == k
    ensures Unsigned(bytes) == n <==> n < Power256(k) && bytes == LittleEndian(n, k)
  {
    LittleEndianValue(bytes);
    if n < Power256(k) {
      ValueLittleEndian(n, k);
    }
  }

  /** The widths of the fields: long and short integers, and keys. */
  datatype Widths = Widths(long: nat, short: nat, key: nat)

  function WriteFee(f: TransferFee, w: Widths): seq<byte> {
    LittleEndian(f.epoch, w.long) + LittleEndian(f.maximumFee, w.long) + LittleEndian(f.basisPoints, w.short)
  }

  predicate FeeFits(f: TransferFee, w: Widths) {
    f.epoch < Power256(w.long) && f.maximumFee < Power256(w.long) && f.basisPoints < Power256(w.short)
    && f.basisPoints <= 10_000
  }

  function WriteKey(key: Option<seq<byte>>, w: Widths): seq<byte> {
    if key.None? then Zeros(w.key) else key.value
  }

  predicate KeyFits(key: Option<seq<byte>>, w: Widths) {
    key.Some? ==> |key.value| == w.key && !AllZero(key.value)
  }

  lemma {:induction false} KeyExactly(bytes: seq<byte>, key: Option<seq<byte>>, w: Widths)
    requires |bytes| == w.key
    ensures OptionalKey(bytes) == key <==> KeyFits(key, w) && bytes == WriteKey(key, w)
  {
    if AllZero(bytes) {
      assert bytes == Zeros(w.key);
    }
  }

  lemma {:induction false} FeeExactly(value: seq<byte>, f: TransferFee, w: Widths)
    requires w.long == 8 && w.short == 2 && |value| == 18
    ensures DecodeFee(value) == Ok(f) <==> FeeFits(f, w) && value == WriteFee(f, w)
  {
    UnsignedExactly(value[..8], f.epoch, w.long);
    UnsignedExactly(value[8..16], f.maximumFee, w.long);
    UnsignedExactly(value[16..], f.basisPoints, w.short);
    ThreeParts(value,
      LittleEndian(f.epoch, w.long), LittleEndian(f.maximumFee, w.long), LittleEndian(f.basisPoints, w.short));
  }

  lemma {:induction false} ThreeParts(value: seq<byte>, a: seq<byte>, b: seq<byte>, c: seq<byte>)
    requires |a| == 8 && |b| == 8 && |value| == 18 && |c| == 2
    ensures value == a + b + c <==> value[..8] == a && value[8..16] == b && value[16..] == c
  {
    assert value == value[..8] + value[8..16] + value[16..];
  }

  function WriteFeeConfig(c: TransferFeeConfig, w: Widths): seq<byte> {
    WriteKey(c.configAuthority, w) + WriteKey(c.withdrawAuthority, w) + LittleEndian(c.withheld, w.long)
    + WriteFee(c.older, w) + WriteFee(c.newer, w)
  }

  predicate FeeConfigFits(c: TransferFeeConfig, w: Widths) {
    && KeyFits(c.configAuthority, w) && KeyFits(c.withdrawAuthority, w) && c.withheld < Power256(w.long)
    && FeeFits(c.older, w) && FeeFits(c.newer, w)
  }

  lemma {:induction false} FiveParts(
      value: seq<byte>, a: seq<byte>, b: seq<byte>, c: seq<byte>, d: seq<byte>, e: seq<byte>)
    requires |value| == 108 && |a| == 32 && |b| == 32 && |c| == 8 && |d| == 18 && |e| == 18
    ensures value == a + b + c + d + e <==>
      value[..32] == a && value[32..64] == b && value[64..72] == c && value[72..90] == d && value[90..] == e
  {
    assert value == value[..32] + value[32..64] + value[64..72] + value[72..90] + value[90..];
  }

  /** A configuration is decoded from exactly one value, the one that holds its fields in order. */
  lemma {:induction false} DecodeFeeConfigExactly(value: seq<byte>, c: TransferFeeConfig, w: Widths)
    requires w == Widths(8, 2, 32)
    ensures DecodeFeeConfig(value) == Ok(c) <==> FeeConfigFits(c, w) && value == WriteFeeConfig(c, w)
  {
    if |value| == FeeConfigSize {
      KeyExactly(value[..32], c.configAuthority, w);
      KeyExactly(value[32..64], c.withdrawAuthority, w);
      UnsignedExactly(value[64..72], c.withheld, w.long);
      FeeExactly(value[72..90], c.older, w);
      FeeExactly(value[90..], c.newer, w);
      if KeyFits(c.configAuthority, w) && KeyFits(c.withdrawAuthority, w) {
        FiveParts(value, WriteKey(c.configAuthority, w), WriteKey(c.withdrawAuthority, w),
          LittleEndian(c.withheld, w.long), WriteFee(c.older, w), WriteFee(c.newer, w));
      }
    }
  }

  //// What the entries mean

  /** The entries read so far, the fee configuration, the hook, and whether transfers do more than is modelled. */
  datatype Findings = Findings(
    extensions: seq<Extension>, feeConfig: Option<TransferFeeConfig>, hook: Option<seq<byte>>, unmodelled: bool)

  const Nothing := Findings([], None, None, false)

  function Absorb(f: Findings, e: Extension): Result<Findings, TlvError> {
    var extensions := f.extensions + [e];
    if e.kind == FeeConfigType then
      if f.feeConfig.Some? then Err(DuplicateFeeConfig)
      else
        match DecodeFeeConfig(e.value)
        case Err(error) => Err(error)
        case Ok(config) => Ok(f.(extensions := extensions, feeConfig := Some(config)))
    else if e.kind == HookType then
      if |e.value| != HookSize then Err(HookLength(|e.value|))
      else
        var hook := OptionalKey(e.value[32..]);
        Ok(f.(extensions := extensions, hook := hook, unmodelled := f.unmodelled || hook.Some?))
    else if e.kind == ConfidentialFeeType then Ok(f.(extensions := extensions, unmodelled := true))
    else Ok(f.(extensions := extensions))
  }

  function AbsorbAll(f: Findings, entries: seq<Extension>): Result<Findings, TlvError>
    decreases |entries|
  {
    if entries == [] then Ok(f)
    else
      match Absorb(f, entries[0])
      case Err(e) => Err(e)
      case Ok(next) => AbsorbAll(next, entries[1..])
  }

  /** An entry that alone makes transfers do more than is modelled. */
  predicate Unmodelled(e: Extension) {
    (e.kind == HookType && |e.value| == HookSize && !AllZero(e.value[32..])) || e.kind == ConfidentialFeeType
  }

  /** An entry whose value has the shape its type asks for. */
  predicate Shaped(e: Extension) {
    && (e.kind == FeeConfigType ==> DecodeFeeConfig(e.value).Ok?)
    && (e.kind == HookType ==> |e.value| == HookSize)
  }

  ghost predicate AtMostOneFeeConfig(entries: seq<Extension>) {
    forall i, j :: 0 <= i < j < |entries| && entries[i].kind == FeeConfigType ==> entries[j].kind != FeeConfigType
  }

  lemma {:induction false} AbsorbExactly(f: Findings, entries: seq<Extension>)
    ensures AbsorbAll(f, entries).Ok? <==>
      (forall e :: e in entries ==> Shaped(e)) && AtMostOneFeeConfig(entries)
      && (f.feeConfig.Some? ==> forall e :: e in entries ==> e.kind != FeeConfigType)
    decreases |entries|
  {
    if entries != [] {
      var first, rest := entries[0], entries[1..];
      assert entries == [first] + rest;
      OneFeeConfigSplits(first, rest);
      if Absorb(f, first).Ok? {
        AbsorbExactly(Absorb(f, first).value, rest);
      }
      assert first in entries;
      assert forall e :: e in entries <==> e == first || e in rest;
    }
  }

  lemma {:induction false} OneFeeConfigSplits(first: Extension, rest: seq<Extension>)
    ensures AtMostOneFeeConfig([first] + rest) <==>
      (AtMostOneFeeConfig(rest) && (first.kind == FeeConfigType ==> forall e :: e in rest ==> e.kind != FeeConfigType))
  {
    var all := [first] + rest;
    assert forall i :: 0 <= i < |rest| ==> all[i + 1] == rest[i];
    if AtMostOneFeeConfig(all) {
      forall i, j | 0 <= i < j < |rest| && rest[i].kind == FeeConfigType
        ensures rest[j].kind != FeeConfigType
      {
        assert all[i + 1] == rest[i] && all[j + 1] == rest[j];
      }
      forall e | e in rest && first.kind == FeeConfigType
        ensures e.kind != FeeConfigType
      {
        var j :| 0 <= j < |rest| && rest[j] == e;
        assert all[0] == first && all[j + 1] == e;
      }
    }
  }

  ghost predicate SomeUnmodelled(entries: seq<Extension>) {
    exists e :: e in entries && Unmodelled(e)
  }

  lemma {:induction false} UnmodelledSplits(first: Extension, rest: seq<Extension>)
    ensures SomeUnmodelled([first] + rest) <==> Unmodelled(first) || SomeUnmodelled(rest)
  {
    assert first in [first] + rest;
    assert forall e :: e in rest ==> e in [first] + rest;
  }

  lemma {:induction false} AbsorbedFlag(f: Findings, e: Extension)
    requires Absorb(f, e).Ok?
    ensures Absorb(f, e).value.unmodelled <==> f.unmodelled || Unmodelled(e)
    ensures Absorb(f, e).value.extensions == f.extensions + [e]
  {
  }

  /** The flag is set exactly when some entry asks for it. */
  lemma {:induction false} FlagExactly(f: Findings, entries: seq<Extension>)
    requires AbsorbAll(f, entries).Ok?
    ensures AbsorbAll(f, entries).value.unmodelled <==> f.unmodelled || SomeUnmodelled(entries)
    ensures AbsorbAll(f, entries).value.extensions == f.extensions + entries
    decreases |entries|
  {
    assert f.extensions + [] == f.extensions;
    if entries != [] {
      var first, rest := entries[0], entries[1..];
      assert entries == [first] + rest;
      AbsorbedFlag(f, first);
      UnmodelledSplits(first, rest);
      FlagExactly(Absorb(f, first).value, rest);
      assert (f.extensions + [first]) + rest == f.extensions + entries;
    }
  }

  /** The fee configuration is that of the one entry of its type, if there is one. */
  lemma {:induction false} FeeConfigExactly(f: Findings, entries: seq<Extension>)
    requires AbsorbAll(f, entries).Ok?
    ensures var c := AbsorbAll(f, entries).value.feeConfig;
      && (f.feeConfig.Some? ==> c == f.feeConfig)
      && (forall e :: e in entries && e.kind == FeeConfigType ==> Ok(c) == Lifted(DecodeFeeConfig(e.value)))
      && (f.feeConfig.None? && (forall e :: e in entries ==> e.kind != FeeConfigType) ==> c == None)
    decreases |entries|
  {
    if entries != [] {
      var first, rest := entries[0], entries[1..];
      assert entries == [first] + rest;
      FeeConfigExactly(Absorb(f, first).value, rest);
      assert forall e :: e in entries <==> e == first || e in rest;
      if first.kind == FeeConfigType {
        AbsorbExactly(Absorb(f, first).value, rest);
      }
    }
  }

  function Lifted(r: Result<TransferFeeConfig, TlvError>): Result<Option<TransferFeeConfig>, TlvError> {
    match r
    case Err(e) => Err(e)
    case Ok(c) => Ok(Some(c))
  }

  //// Entries as bytes

  function WriteEntry(e: Extension): seq<byte> {
    LittleEndian(e.kind, 2) + LittleEndian(|e.value|, 2) + e.value
  }

  function WriteEntries(entries: seq<Extension>): seq<byte> {
    if entries == [] then [] else WriteEntry(entries[0]) + WriteEntries(entries[1..])
  }

  predicate Writable(e: Extension) {
    0 < e.kind < 65_536 && |e.value| < 65_536
  }

  /** Where reading stops: fewer than four zero bytes, or a type of zero with anything behind it. */
  predicate End(bytes: seq<byte>) {
    if |bytes| < 4 then AllZero(bytes) else bytes[0] == 0 && bytes[1] == 0
  }

  function Parse(region: seq<byte>, f: Findings): Result<Findings, TlvError> {
    if |region| < 4 then if AllZero(region) then Ok(f) else Err(NonzeroTrailing)
    else
      var kind, length := Unsigned(region[..2]), Unsigned(region[2..4]);
      if kind == 0 then Ok(f)
      else if 4 + length > |region| then Err(EntryTruncated(kind))
      else
        match Absorb(f, Extension(kind, region[4..4 + length]))
        case Err(e) => Err(e)
        case Ok(next) => Parse(region[4 + length..], next)
  }

  lemma {:induction false} TwoBytes(bytes: seq<byte>, n: nat)
    requires |bytes| == 2
    ensures Unsigned(bytes) == n <==> n < 65_536 && bytes == LittleEndian(n, 2)
  {
    LittleEndianValue(bytes);
    assert Power256(2) == 65_536;
    if n < 65_536 {
      ValueLittleEndian(n, 2);
    }
  }

  /** A region that does not end starts with exactly one entry. */
  lemma {:induction false} EntryExactly(region: seq<byte>, e: Extension, rest: seq<byte>)
    requires Writable(e) && region == WriteEntry(e) + rest
    ensures |region| >= 4 + |e.value| && Unsigned(region[..2]) == e.kind && Unsigned(region[2..4]) == |e.value|
    ensures region[4..4 + |e.value|] == e.value && region[4 + |e.value|..] == rest
  {
    var a, b := LittleEndian(e.kind, 2), LittleEndian(|e.value|, 2);
    assert region == a + (b + (e.value + rest));
    assert region[..2] == a && region[2..4] == b;
    TwoBytes(a, e.kind);
    TwoBytes(b, |e.value|);
  }

  lemma {:induction false} FirstEntry(region: seq<byte>) returns (e: Extension)
    requires |region| >= 4 && Unsigned(region[..2]) != 0 && 4 + Unsigned(region[2..4]) <= |region|
    ensures e == Extension(Unsigned(region[..2]), region[4..4 + Unsigned(region[2..4])])
    ensures Writable(e) && region == WriteEntry(e) + region[4 + |e.value|..]
  {
    var kind, length := Unsigned(region[..2]), Unsigned(region[2..4]);
    TwoBytes(region[..2], kind);
    TwoBytes(region[2..4], length);
    e := Extension(kind, region[4..4 + length]);
    assert region == region[..2] + region[2..4] + region[4..4 + length] + region[4 + length..];
  }

  lemma {:induction false} ZeroType(region: seq<byte>)
    requires |region| >= 4
    ensures Unsigned(region[..2]) == 0 <==> region[0] == 0 && region[1] == 0
  {
    TwoBytes(region[..2], 0);
    assert LittleEndian(0, 2) == [0, 0];
    assert region[..2] == [region[0], region[1]];
  }

  /** Reading what was written gives the entries back, whatever end follows. */
  lemma {:induction false} ParseWritten(entries: seq<Extension>, end: seq<byte>, f: Findings)
    requires (forall e :: e in entries ==> Writable(e)) && End(end)
    ensures Parse(WriteEntries(entries) + end, f) == AbsorbAll(f, entries)
    decreases |entries|
  {
    var region := WriteEntries(entries) + end;
    if entries == [] {
      assert region == end;
      if |end| >= 4 {
        ZeroType(end);
      }
    } else {
      var first, rest := entries[0], entries[1..];
      assert region == WriteEntry(first) + (WriteEntries(rest) + end);
      EntryExactly(region, first, WriteEntries(rest) + end);
      assert Extension(first.kind, first.value) == first;
      if Absorb(f, first).Ok? {
        ParseWritten(rest, end, Absorb(f, first).value);
      }
    }
  }

  /** What was read was written: the entries tile the region up to its end. */
  lemma {:induction false} ParsedTiles(region: seq<byte>, f: Findings) returns (entries: seq<Extension>, end: seq<byte>)
    requires Parse(region, f).Ok?
    ensures region == WriteEntries(entries) + end && End(end) && forall e :: e in entries ==> Writable(e)
    ensures AbsorbAll(f, entries) == Parse(region, f)
    decreases |region|
  {
    entries, end := [], region;
    if |region| >= 4 {
      ZeroType(region);
      if Unsigned(region[..2]) != 0 {
        var first := FirstEntry(region);
        var after := region[4 + |first.value|..];
        var rest;
        rest, end := ParsedTiles(after, Absorb(f, first).value);
        entries := [first] + rest;
        assert entries[1..] == rest;
        assert region == WriteEntry(first) + (WriteEntries(rest) + end);
      }
    }
  }

  ghost predicate Written(region: seq<byte>, entries: seq<Extension>) {
    exists end :: End(end) && region == WriteEntries(entries) + end
  }

  /** Entries that can be written and that the parser accepts. */
  ghost predicate ValidEntries(entries: seq<Extension>) {
    (forall e :: e in entries ==> Writable(e) && Shaped(e)) && AtMostOneFeeConfig(entries)
  }

  lemma {:induction false} AcceptedIsWritten(region: seq<byte>)
    requires Parse(region, Nothing).Ok?
    ensures var found := Parse(region, Nothing).value.extensions; ValidEntries(found) && Written(region, found)
  {
    var found, end := ParsedTiles(region, Nothing);
    AbsorbExactly(Nothing, found);
    FlagExactly(Nothing, found);
    assert Nothing.extensions + found == found;
  }

  lemma {:induction false} WrittenIsAccepted(entries: seq<Extension>, end: seq<byte>)
    requires ValidEntries(entries) && End(end)
    ensures Parse(WriteEntries(entries) + end, Nothing).Ok?
    ensures Parse(WriteEntries(entries) + end, Nothing).value.extensions == entries
  {
    ParseWritten(entries, end, Nothing);
    AbsorbExactly(Nothing, entries);
    FlagExactly(Nothing, entries);
    assert Nothing.extensions + entries == entries;
  }

  /** The parser returns a list of entries exactly for the regions that hold it and then end. */
  lemma {:induction false} ParseExactly(region: seq<byte>, entries: seq<Extension>)
    ensures Parse(region, Nothing).Ok? && Parse(region, Nothing).value.extensions == entries
      <==> ValidEntries(entries) && Written(region, entries)
  {
    if Parse(region, Nothing).Ok? {
      AcceptedIsWritten(region);
    }
    if ValidEntries(entries) && Written(region, entries) {
      var end :| End(end) && region == WriteEntries(entries) + end;
      WrittenIsAccepted(entries, end);
    }
  }

  lemma {:induction false} ZerosEnd(n: nat)
    ensures End(Zeros(n))
  {
  }

  /** Any amount of zero padding after valid entries is accepted. */
  lemma {:induction false} PaddedRoundTrip(entries: seq<Extension>, padding: nat)
    requires ValidEntries(entries)
    ensures Parse(WriteEntries(entries) + Zeros(padding), Nothing).Ok?
    ensures Parse(WriteEntries(entries) + Zeros(padding), Nothing).value.extensions == entries
  {
    ZerosEnd(padding);
    WrittenIsAccepted(entries, Zeros(padding));
  }

  /** What the findings say, in terms of the entries found. */
  lemma {:induction false} FindingsExactly(region: seq<byte>)
    requires Parse(region, Nothing).Ok?
    ensures var f := Parse(region, Nothing).value;
      && (f.unmodelled <==> SomeUnmodelled(f.extensions))
      && (forall e :: e in f.extensions && e.kind == FeeConfigType ==>
            Ok(f.feeConfig) == Lifted(DecodeFeeConfig(e.value)))
      && (f.feeConfig.Some? ==> exists e :: e in f.extensions && e.kind == FeeConfigType)
  {
    var found, end := ParsedTiles(region, Nothing);
    FlagExactly(Nothing, found);
    FeeConfigExactly(Nothing, found);
    assert Nothing.extensions + found == found;
  }

  /** Whatever mint is accepted, its transfer fees never exceed their amounts. */
  lemma {:induction false} AcceptedFeesSafe(region: seq<byte>, epoch: int)
    requires Parse(region, Nothing).Ok?
    ensures Safe(Parse(region, Nothing).value.feeConfig, epoch)
  {
    var f := Parse(region, Nothing).value;
    FindingsExactly(region);
    if f.feeConfig.Some? {
      var e :| e in f.extensions && e.kind == FeeConfigType;
      DecodedFeesSafe(e.value, epoch);
    }
  }

  //// The decoder as it runs

  const MintSize := 82
  const AccountTypeOffset := 165
  const TlvOffset := 166

  datatype MintExtensions = MintExtensions(accountType: Option<byte>, findings: Findings)

  /** The extensions behind a mint; a bare mint has none. */
  function Decoded(data: seq<byte>): Result<MintExtensions, TlvError> {
    if |data| == MintSize then Ok(MintExtensions(None, Nothing))
    else if |data| <= AccountTypeOffset then Err(Truncated)
    else if data[AccountTypeOffset] != 1 then Err(WrongAccountType(data[AccountTypeOffset]))
    else
      match Parse(data[TlvOffset..], Nothing)
      case Err(e) => Err(e)
      case Ok(f) => Ok(MintExtensions(Some(1), f))
  }

  method DecodeMintExtensions(data: seq<byte>) returns (r: Result<MintExtensions, TlvError>)
    ensures r == Decoded(data)
  {
    if |data| == MintSize {
      return Ok(MintExtensions(None, Nothing));
    }
    if |data| <= AccountTypeOffset {
      return Err(Truncated);
    }
    if data[AccountTypeOffset] != 1 {
      return Err(WrongAccountType(data[AccountTypeOffset]));
    }
    var findings := Nothing;
    var cursor := TlvOffset;
    while cursor + 4 <= |data|
      invariant TlvOffset <= cursor <= |data|
      invariant Parse(data[cursor..], findings) == Parse(data[TlvOffset..], Nothing)
      decreases |data| - cursor
    {
      var kind: nat := Unsigned(data[cursor..cursor + 2]);
      var length: nat := Unsigned(data[cursor + 2..cursor + 4]);
      Header(data, cursor);
      if kind == 0 {
        break;
      }
      if cursor + 4 + length > |data| {
        return Err(EntryTruncated(kind));
      }
      EntryAt(data, cursor, length);
      var absorbed := Absorb(findings, Extension(kind, data[cursor + 4..cursor + 4 + length]));
      if absorbed.Err? {
        return Err(absorbed.error);
      }
      findings := absorbed.value;
      cursor := cursor + 4 + length;
    }
    if cursor < |data| && |data| - cursor < 4 {
      var zero := IsZero(data[cursor..]);
      if !zero {
        return Err(NonzeroTrailing);
      }
    }
    return Ok(MintExtensions(Some(1), findings));
  }

  method IsZero(bytes: seq<byte>) returns (zero: bool)
    ensures zero == AllZero(bytes)
  {
    for i := 0 to |bytes|
      invariant forall j :: 0 <= j < i ==> bytes[j] == 0
    {
      if bytes[i] != 0 {
        return false;
      }
    }
    return true;
  }

  lemma {:induction false} Header(data: seq<byte>, cursor: nat)
    requires cursor + 4 <= |data|
    ensures data[cursor..][..2] == data[cursor..cursor + 2] && data[cursor..][2..4] == data[cursor + 2..cursor + 4]
  {
  }

  lemma {:induction false} EntryAt(data: seq<byte>, cursor: nat, length: nat)
    requires cursor + 4 + length <= |data|
    ensures data[cursor..][4..4 + length] == data[cursor + 4..cursor + 4 + length]
    ensures data[cursor..][4 + length..] == data[cursor + 4 + length..]
  {
  }
}

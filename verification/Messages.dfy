/** The text that oracles sign (servers/oracle/src/oracle_publish_message.py), with the coin pair
    it names (servers/common/services/oracle_dao.py). */
module Messages {
  import opened Prelude
  import opened Encoding

  const LEGACY_PRICE_MESSAGE_VERSION := 3
  const EXPIRING_PRICE_MESSAGE_VERSION := 4

  // ----- Coin pairs

  /** `CoinPair.shorter`; None is the IndexError on a name with nothing but NULs. */
  function Shorter(cp: string): Option<string> {
    if cp == "" then None
    else if cp[|cp| - 1] == '\0' then Shorter(cp[..|cp| - 1])
    else Some(cp)
  }

  predicate ProperName(cp: string) {
    cp != "" && cp[|cp| - 1] != '\0'
  }

  function Nuls(k: nat): string {
    seq(k, _ => '\0')
  }

  /** The short form is the name without its trailing NULs; it exists unless the name is all NULs. */
  lemma {:induction false} ShorterIff(cp: string)
    ensures match Shorter(cp)
            case Some(s) => ProperName(s) && s <= cp && cp == s + Nuls(|cp| - |s|)
            case None => cp == Nuls(|cp|)
  {
    if cp != "" && cp[|cp| - 1] == '\0' {
      ShorterIff(cp[..|cp| - 1]);
    }
  }

  method Shorten(cp: string) returns (r: Option<string>)
    ensures r == Shorter(cp)
  {
    var cp' := cp;
    while true
      invariant Shorter(cp') == Shorter(cp)
      decreases |cp'|
    {
      if cp' == "" {
        return None;
      }
      if cp'[|cp'| - 1] != '\0' {
        return Some(cp');
      }
      cp' := cp'[..|cp'| - 1];
    }
  }

  /** `encode("ascii")`; None is a UnicodeEncodeError. */
  function Ascii(cp: string): (b: Option<seq<Byte>>)
    ensures b.Some? ==> |b.value| == |cp|
  {
    if cp == "" then Some([]) else
      var init := Ascii(cp[..|cp| - 1]);
      if init.Some? && cp[|cp| - 1] as int < 128 then Some(init.value + [cp[|cp| - 1] as int]) else None
  }

  /** Encoding succeeds exactly for names of ASCII characters. */
  lemma {:induction false} AsciiIff(cp: string)
    ensures Ascii(cp).Some? <==> forall i :: 0 <= i < |cp| ==> cp[i] as int < 128
  {
    if cp != "" {
      AsciiIff(cp[..|cp| - 1]);
    }
  }

  /** `CoinPair.longer`. */
  function Longer(cp: string): Option<seq<Byte>> {
    match Ascii(cp)
    case None => None
    case Some(b) => Some(LJust32(b))
  }

  function Chars(b: seq<Byte>): (cp: string)
    ensures |cp| == |b|
  {
    if b == [] then "" else Chars(b[..|b| - 1]) + [b[|b| - 1] as char]
  }

  lemma {:induction false} CharsOfAscii(cp: string)
    requires Ascii(cp).Some?
    ensures Chars(Ascii(cp).value) == cp
    ensures cp != "" ==> Ascii(cp).value[|cp| - 1] == cp[|cp| - 1] as int
  {
    if cp != "" {
      CharsOfAscii(cp[..|cp| - 1]);
      var b := Ascii(cp).value;
      assert b[..|b| - 1] == Ascii(cp[..|cp| - 1]).value;
    }
  }

  // ----- Fields and messages

  datatype Field = Uint256(n: int) | Byte32(b: seq<Byte>) | PackedAddress(n: int)

  datatype Kind = AUint256 | AByte32 | APackedAddress

  function KindOf(f: Field): Kind {
    match f
    case Uint256(_) => AUint256
    case Byte32(_) => AByte32
    case PackedAddress(_) => APackedAddress
  }

  function HexWidth(k: Kind): nat {
    if k == APackedAddress then 40 else 64
  }

  /** The encoder of each parameter. */
  function Enc(f: Field): string {
    match f
    case Uint256(n) => PercentX(64, n)
    case Byte32(b) => BytesHex(LJust32(b))
    case PackedAddress(n) => PercentX(40, n)
  }

  function EncodeAll(fs: seq<Field>): string {
    if fs == [] then "" else Enc(fs[0]) + EncodeAll(fs[1..])
  }

  /** What the message format has room for. */
  predicate Fits(f: Field) {
    match f
    case Uint256(n) => 0 <= n < Pow16(64)
    case Byte32(b) => |b| == 32
    case PackedAddress(n) => 0 <= n < Pow16(40)
  }

  function Dec(k: Kind, s: string): Option<Field> {
    match k
    case AUint256 => (match FromHex(s) case None => None case Some(n) => Some(Uint256(n)))
    case AByte32 => (match FromBytesHex(s) case None => None case Some(b) => Some(Byte32(b)))
    case APackedAddress => (match FromHex(s) case None => None case Some(n) => Some(PackedAddress(n)))
  }

  function DecodeAll(kinds: seq<Kind>, s: string): Option<seq<Field>> {
    if kinds == [] then if s == "" then Some([]) else None
    else
      var w := HexWidth(kinds[0]);
      if |s| < w then None else
        match (Dec(kinds[0], s[..w]), DecodeAll(kinds[1..], s[w..]))
        case (Some(f), Some(fs)) => Some([f] + fs)
        case _ => None
  }

  function Kinds(fs: seq<Field>): (kinds: seq<Kind>)
    ensures |kinds| == |fs|
  {
    seq(|fs|, i requires 0 <= i < |fs| => KindOf(fs[i]))
  }

  function TotalWidth(kinds: seq<Kind>): nat {
    if kinds == [] then 0 else HexWidth(kinds[0]) + TotalWidth(kinds[1..])
  }

  lemma FieldReadsBack(f: Field)
    requires Fits(f)
    ensures |Enc(f)| == HexWidth(KindOf(f)) && Dec(KindOf(f), Enc(f)) == Some(f)
  {
    match f {
      case Uint256(n) => PercentXReadsBack(64, n);
      case Byte32(b) =>
        assert LJust32(b) == b;
        BytesReadBack(b);
      case PackedAddress(n) => PercentXReadsBack(40, n);
    }
  }

  lemma {:induction false} DecodeCons(k: Kind, kinds: seq<Kind>, head: string, tail: string, f: Field, fs: seq<Field>)
    requires |head| == HexWidth(k) && Dec(k, head) == Some(f) && DecodeAll(kinds, tail) == Some(fs)
    ensures DecodeAll([k] + kinds, head + tail) == Some([f] + fs)
  {
    var s := head + tail;
    assert s[..|head|] == head && s[|head|..] == tail;
    assert ([k] + kinds)[1..] == kinds;
  }

  lemma {:induction false} Cons(f: Field, rest: seq<Field>)
    ensures Kinds([f] + rest) == [KindOf(f)] + Kinds(rest)
    ensures TotalWidth(Kinds([f] + rest)) == HexWidth(KindOf(f)) + TotalWidth(Kinds(rest))
    ensures EncodeAll([f] + rest) == Enc(f) + EncodeAll(rest)
  {
    assert ([f] + rest)[1..] == rest;
    assert Kinds([f] + rest)[1..] == Kinds(rest);
  }

  ghost predicate ReadsBack(fs: seq<Field>) {
    |EncodeAll(fs)| == TotalWidth(Kinds(fs)) && DecodeAll(Kinds(fs), EncodeAll(fs)) == Some(fs)
  }

  lemma ReadsBackCons(f: Field, rest: seq<Field>)
    requires Fits(f) && ReadsBack(rest)
    ensures ReadsBack([f] + rest)
  {
    FieldReadsBack(f);
    Cons(f, rest);
    DecodeCons(KindOf(f), Kinds(rest), Enc(f), EncodeAll(rest), f, rest);
  }

  /** Reading at the fixed widths undoes the concatenation. */
  lemma {:induction false} EncodingReadsBack(fs: seq<Field>)
    requires forall f :: f in fs ==> Fits(f)
    ensures ReadsBack(fs)
  {
    if fs != [] {
      EncodingReadsBack(fs[1..]);
      ReadsBackCons(fs[0], fs[1..]);
      assert [fs[0]] + fs[1..] == fs;
    }
  }

  datatype PriceParams = PriceParams(
    version: int, coinPair: string, price: int, priceTsUtc: real,
    oracleAddr: string, lastPubBlock: int, expiration: Option<int>)

  datatype TaskParams = TaskParams(
    version: int, coinPair: string, tasksFlags: int, oracleAddr: string, lastPubBlock: int)

  datatype MsgError = UnicodeEncodeError | BadAddress

  function FiveFields(version: int, coinPair: string, value: int, oracleAddr: string, lastPubBlock: int)
    : Result<seq<Field>, MsgError>
  {
    match (Longer(coinPair), AddrToNumber(oracleAddr))
    case (None, _) => Err(UnicodeEncodeError)
    case (Some(_), None) => Err(BadAddress)
    case (Some(b), Some(n)) => Ok([Uint256(version), Byte32(b), Uint256(value), PackedAddress(n),
        Uint256(lastPubBlock)])
  }

  function PriceMsg(p: PriceParams): Result<string, MsgError> {
    match FiveFields(p.version, p.coinPair, p.price, p.oracleAddr, p.lastPubBlock)
    case Err(e) => Err(e)
    case Ok(fs) => Ok(EncodeAll(fs + if p.expiration.Some? then [Uint256(p.expiration.value)] else []))
  }

  function TaskMsg(p: TaskParams): Result<string, MsgError> {
    match FiveFields(p.version, p.coinPair, p.tasksFlags, p.oracleAddr, p.lastPubBlock)
    case Err(e) => Err(e)
    case Ok(fs) => Ok(EncodeAll(fs))
  }

  /** The text of a price message, field after field. */
  lemma PriceMessageLayout(p: PriceParams)
    requires PriceMsg(p).Ok?
    ensures Ascii(p.coinPair).Some? && AddrToNumber(p.oracleAddr).Some?
    ensures PriceMsg(p).value ==
            PercentX(64, p.version) + BytesHex(LJust32(LJust32(Ascii(p.coinPair).value))) + PercentX(64, p.price)
            + PercentX(40, AddrToNumber(p.oracleAddr).value) + PercentX(64, p.lastPubBlock)
            + if p.expiration.Some? then PercentX(64, p.expiration.value) else ""
  {
    var b, n := LJust32(Ascii(p.coinPair).value), AddrToNumber(p.oracleAddr).value;
    var tail := if p.expiration.Some? then [Uint256(p.expiration.value)] else [];
    FiveFieldsText(p.version, b, p.price, n, p.lastPubBlock, tail);
    if p.expiration.Some? {
      Cons(Uint256(p.expiration.value), []);
      assert tail == [Uint256(p.expiration.value)] + [];
    }
  }

  /** There is a text unless the name is not ASCII or, failing that, the address is no number. */
  lemma PriceMessageFailsIff(p: PriceParams)
    ensures PriceMsg(p) == Err(UnicodeEncodeError) <==> exists i :: 0 <= i < |p.coinPair| && p.coinPair[i] as int >= 128
    ensures PriceMsg(p) == Err(BadAddress)
            <==> PriceMsg(p) != Err(UnicodeEncodeError) && AddrToNumber(p.oracleAddr).None?
  {
    AsciiIff(p.coinPair);
  }

  lemma {:induction false} FiveFieldsText(version: int, b: seq<Byte>, value: int, n: nat, lastPubBlock: int,
                                          tail: seq<Field>)
    ensures EncodeAll([Uint256(version), Byte32(b), Uint256(value), PackedAddress(n), Uint256(lastPubBlock)] + tail) ==
            PercentX(64, version) + BytesHex(LJust32(b)) + PercentX(64, value) + PercentX(40, n)
            + PercentX(64, lastPubBlock) + EncodeAll(tail)
  {
    FiveEncoded(Uint256(version), Byte32(b), Uint256(value), PackedAddress(n), Uint256(lastPubBlock), tail);
  }

  lemma {:induction false} FiveEncoded(f1: Field, f2: Field, f3: Field, f4: Field, f5: Field, tail: seq<Field>)
    ensures EncodeAll([f1, f2, f3, f4, f5] + tail)
            == Enc(f1) + Enc(f2) + Enc(f3) + Enc(f4) + Enc(f5) + EncodeAll(tail)
  {
    var l5 := [f5] + tail;
    var l3 := [f3, f4] + l5;
    Cons(f5, tail);
    TwoEncoded(f3, f4, l5);
    TwoEncoded(f1, f2, l3);
    assert [f1, f2, f3, f4, f5] + tail == [f1, f2] + l3;
    Regroup(Enc(f1), Enc(f2), Enc(f3), Enc(f4), Enc(f5), EncodeAll(tail));
  }

  lemma {:induction false} TwoEncoded(f1: Field, f2: Field, rest: seq<Field>)
    ensures EncodeAll([f1, f2] + rest) == Enc(f1) + (Enc(f2) + EncodeAll(rest))
  {
    Cons(f2, rest);
    Cons(f1, [f2] + rest);
    assert [f1, f2] + rest == [f1] + ([f2] + rest);
  }

  lemma Regroup(a: string, b: string, c: string, d: string, e: string, tail: string)
    ensures a + (b + (c + (d + (e + tail)))) == a + b + c + d + e + tail
  {}

  /** A task message is laid out like a price message without expiration, the flags in place of the price. */
  lemma TaskMessageLayout(p: TaskParams)
    ensures TaskMsg(p) == PriceMsg(PriceParams(p.version, p.coinPair, p.tasksFlags, 0.0, p.oracleAddr,
                                               p.lastPubBlock, None))
  {
    var r := FiveFields(p.version, p.coinPair, p.tasksFlags, p.oracleAddr, p.lastPubBlock);
    assert r.Ok? ==> r.value + [] == r.value;
  }

  function AsLegacy(p: PriceParams): PriceParams {
    PriceParams(LEGACY_PRICE_MESSAGE_VERSION, p.coinPair, p.price, p.priceTsUtc, p.oracleAddr, p.lastPubBlock, None)
  }

  // ----- Reading a message

  /** What a message says. */
  datatype Contents = Contents(
    version: int, coinPair: string, value: int, oracle: int, lastPubBlock: int, expiration: Option<int>)

  const FIVE := [AUint256, AByte32, AUint256, APackedAddress, AUint256]
  const SIX := FIVE + [AUint256]

  const V3_LENGTH := 296
  const V4_LENGTH := 360

  function Read(msg: string): Option<Contents> {
    match DecodeAll(if |msg| == V4_LENGTH then SIX else FIVE, msg)
    case Some(fs) => ContentsOf(fs)
    case None => None
  }

  function ContentsOf(fs: seq<Field>): Option<Contents> {
    if |fs| >= 5 && fs[0].Uint256? && fs[1].Byte32? && fs[2].Uint256? && fs[3].PackedAddress? && fs[4].Uint256?
       && (|fs| == 5 || (|fs| == 6 && fs[5].Uint256?))
    then Some(Contents(fs[0].n, Chars(StripNuls(fs[1].b)), fs[2].n, fs[3].n, fs[4].n,
                       if |fs| == 6 then Some(fs[5].n) else None))
    else None
  }

  /** A name of at most 32 ASCII characters without trailing NUL, uint256 numbers, a 160-bit address. */
  predicate InRange(version: int, coinPair: string, value: int, oracleAddr: string, lastPubBlock: int) {
    && Fits(Uint256(version)) && Fits(Uint256(value)) && Fits(Uint256(lastPubBlock))
    && ProperName(coinPair) && |coinPair| <= 32 && Ascii(coinPair).Some?
    && AddrToNumber(oracleAddr).Some? && Fits(PackedAddress(AddrToNumber(oracleAddr).value))
  }

  predicate PriceInRange(p: PriceParams) {
    && InRange(p.version, p.coinPair, p.price, p.oracleAddr, p.lastPubBlock)
    && (p.expiration.Some? ==> Fits(Uint256(p.expiration.value)))
  }

  predicate TaskInRange(p: TaskParams) {
    InRange(p.version, p.coinPair, p.tasksFlags, p.oracleAddr, p.lastPubBlock)
  }

  function PriceContents(p: PriceParams): Contents
    requires PriceInRange(p)
  {
    Contents(p.version, p.coinPair, p.price, AddrToNumber(p.oracleAddr).value, p.lastPubBlock, p.expiration)
  }

  function TaskContents(p: TaskParams): Contents
    requires TaskInRange(p)
  {
    Contents(p.version, p.coinPair, p.tasksFlags, AddrToNumber(p.oracleAddr).value, p.lastPubBlock, None)
  }

  lemma FieldsFit(version: int, coinPair: string, value: int, oracleAddr: string, lastPubBlock: int)
    requires InRange(version, coinPair, value, oracleAddr, lastPubBlock)
    ensures var r := FiveFields(version, coinPair, value, oracleAddr, lastPubBlock);
            && r.Ok? && |r.value| == 5 && Kinds(r.value) == FIVE
            && (forall f :: f in r.value ==> Fits(f))
            && ContentsOf(r.value)
               == Some(Contents(version, coinPair, value, AddrToNumber(oracleAddr).value, lastPubBlock, None))
  {
    PairReadsBack(coinPair);
  }

  /** `longer` pads to 32 bytes, and stripping the padding gives the name back. */
  lemma {:induction false} PairReadsBack(coinPair: string)
    requires ProperName(coinPair) && |coinPair| <= 32 && Ascii(coinPair).Some?
    ensures Longer(coinPair).Some? && |Longer(coinPair).value| == 32
    ensures Chars(StripNuls(Longer(coinPair).value)) == coinPair
  {
    CharsOfAscii(coinPair);
    StripUndoesPadding(Ascii(coinPair).value, 32 - |coinPair|);
  }

  lemma {:induction false} WidthAppend(kinds: seq<Kind>, k: Kind)
    ensures TotalWidth(kinds + [k]) == TotalWidth(kinds) + HexWidth(k)
  {
    if kinds != [] {
      assert (kinds + [k])[1..] == kinds[1..] + [k];
      WidthAppend(kinds[1..], k);
    }
  }

  lemma Widths()
    ensures TotalWidth(FIVE) == V3_LENGTH && TotalWidth(SIX) == V4_LENGTH
  {
    WidthAppend([], AUint256);
    WidthAppend([AUint256], AByte32);
    WidthAppend([AUint256, AByte32], AUint256);
    WidthAppend([AUint256, AByte32, AUint256], APackedAddress);
    WidthAppend([AUint256, AByte32, AUint256, APackedAddress], AUint256);
    WidthAppend(FIVE, AUint256);
    assert [AUint256] == [] + [AUint256];
    assert FIVE == [AUint256, AByte32, AUint256, APackedAddress] + [AUint256];
  }

  /** Every field of an in-range price message can be read back from its text. */
  lemma PriceMessageReadsBack(p: PriceParams)
    requires PriceInRange(p)
    ensures PriceMsg(p).Ok? && Read(PriceMsg(p).value) == Some(PriceContents(p))
    ensures |PriceMsg(p).value| == if p.expiration.Some? then V4_LENGTH else V3_LENGTH
  {
    FieldsFit(p.version, p.coinPair, p.price, p.oracleAddr, p.lastPubBlock);
    Widths();
    var five := FiveFields(p.version, p.coinPair, p.price, p.oracleAddr, p.lastPubBlock).value;
    var fs := five + if p.expiration.Some? then [Uint256(p.expiration.value)] else [];
    if p.expiration.Some? {
      assert Kinds(fs) == SIX;
    } else {
      assert fs == five;
    }
    EncodingReadsBack(fs);
  }

  lemma TaskMessageReadsBack(p: TaskParams)
    requires TaskInRange(p)
    ensures TaskMsg(p).Ok? && Read(TaskMsg(p).value) == Some(TaskContents(p)) && |TaskMsg(p).value| == V3_LENGTH
  {
    FieldsFit(p.version, p.coinPair, p.tasksFlags, p.oracleAddr, p.lastPubBlock);
    Widths();
    EncodingReadsBack(FiveFields(p.version, p.coinPair, p.tasksFlags, p.oracleAddr, p.lastPubBlock).value);
  }

  /** So a signature on a price message covers every field of it, and nothing else. */
  lemma PriceMessagesInjective(p: PriceParams, q: PriceParams)
    requires PriceInRange(p) && PriceInRange(q)
    ensures PriceMsg(p) == PriceMsg(q) <==> PriceContents(p) == PriceContents(q)
  {
    PriceMessageReadsBack(p);
    PriceMessageReadsBack(q);
    if PriceContents(p) == PriceContents(q) {
      assert FiveFields(p.version, p.coinPair, p.price, p.oracleAddr, p.lastPubBlock)
          == FiveFields(q.version, q.coinPair, q.price, q.oracleAddr, q.lastPubBlock);
    }
  }

  /** The legacy form of a message says the same apart from version and expiration. */
  lemma LegacySaysTheSame(p: PriceParams)
    requires PriceInRange(p)
    ensures PriceInRange(AsLegacy(p)) && PriceMsg(AsLegacy(p)).Ok?
    ensures Read(PriceMsg(AsLegacy(p)).value) ==
            Some(PriceContents(p).(version := 3, expiration := None))
    ensures p.expiration.Some? ==> PriceMsg(AsLegacy(p)) != PriceMsg(p)
  {
    assert 3 < Pow16(64) by {
      assert Pow16(64) == 16 * Pow16(63);
    }
    PriceMessageReadsBack(p);
    PriceMessageReadsBack(AsLegacy(p));
  }

  /** A task message and a price message share a text exactly when the price message has no expiration
      and all five fields agree; between a price pair and a task runner only the name tells them apart. */
  lemma TaskAndPriceMessagesAgreeIff(p: PriceParams, t: TaskParams)
    requires PriceInRange(p) && TaskInRange(t)
    ensures PriceMsg(p) == TaskMsg(t) <==> PriceContents(p) == TaskContents(t)
  {
    PriceMessageReadsBack(p);
    TaskMessageReadsBack(t);
    if PriceContents(p) == TaskContents(t) {
      var fs := FiveFields(p.version, p.coinPair, p.price, p.oracleAddr, p.lastPubBlock).value;
      assert fs + [] == fs;
      assert FiveFields(p.version, p.coinPair, p.price, p.oracleAddr, p.lastPubBlock)
          == FiveFields(t.version, t.coinPair, t.tasksFlags, t.oracleAddr, t.lastPubBlock);
    }
  }
}

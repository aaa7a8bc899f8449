/** Legacy Ethereum transactions and their wire format: the six-item form, the nine-item form of
    EIP-155 that binds a chain id, and the nine-item signed form. */
module LegacyTransaction {
  import opened Outcomes
  import opened Numbers
  import opened Rlp
  import opened RlpStream

  datatype Unsigned = Unsigned(
    chainId: Option<u256>,
    gas: u256,
    gasPrice: u256,
    input: Blob,
    nonce: u256,
    to: Option<H160>,
    value: u256
  )

  datatype Signed = Signed(unsigned: Unsigned, r: u256, s: u256, v: u256)

  // ----- the items of each form -----

  /** A number is written as its shortest big-endian string. */
  function Uint(n: u256): (item: Item)
    ensures |item| <= 32
  {
    Pow256Widths();
    BigEndianWidth(n, 32);
    BigEndian(n)
  }

  /** A contract creation has an empty recipient. */
  function Recipient(to: Option<H160>): (item: Item)
    ensures |item| <= 20
  {
    if to.Some? then to.value else []
  }

  /** The six items that every form starts with. */
  function CommonItems(tx: Unsigned): (items: seq<Item>) {
    [Uint(tx.nonce), Uint(tx.gasPrice), Uint(tx.gas), Recipient(tx.to), Uint(tx.value), tx.input]
  }

  /** What the wallet signs: with a chain id, EIP-155 adds it and two zeros. */
  function UnsignedItems(tx: Unsigned): seq<Item> {
    CommonItems(tx) + if tx.chainId.Some? then [Uint(tx.chainId.value), [], []] else []
  }

  function SignedItems(tx: Signed): seq<Item> {
    CommonItems(tx.unsigned) + [Uint(tx.v), Uint(tx.r), Uint(tx.s)]
  }

  /** All forms are short enough for a list header, for every input a `Vec<u8>` can hold. */
  lemma PayloadFits(tx: Unsigned, tail: seq<Item>)
    requires |tail| <= 3 && forall i | 0 <= i < |tail| :: |tail[i]| <= 32
    ensures |Payload(CommonItems(tx) + tail)| < U64_LIMIT
  {
    hide Payload, EncodeData, Uint;
    PayloadOfShortItems(tail);
    var items := CommonItems(tx);
    PayloadConcat(items, tail);
    PayloadOfShortItems(items[..5]);
    assert items == items[..5] + [tx.input];
    PayloadAppend(items[..5], tx.input);
  }

  lemma {:induction false} PayloadOfShortItems(items: seq<Item>)
    requires forall i | 0 <= i < |items| :: |items[i]| <= 32
    ensures |Payload(items)| <= 41 * |items|
  {
    if items == [] {
    } else {
      PayloadOfShortItems(items[1..]);
    }
  }

  /** The bytes that are hashed and signed. */
  function EncodeUnsigned(tx: Unsigned): bytes {
    PayloadFits(tx, UnsignedItems(tx)[6..]);
    EncodeList(UnsignedItems(tx))
  }

  /** The bytes that the wallet submits. */
  function EncodeSigned(tx: Signed): bytes {
    PayloadFits(tx.unsigned, SignedItems(tx)[6..]);
    EncodeList(SignedItems(tx))
  }

  // ----- writing, item by item -----

  /** The five numbers and the recipient's place that every form starts with. */
  method AppendHead(tx: Unsigned, s: Stream)
    requires s.Valid() && s.items == [] && s.unfinished.Some? && s.unfinished.value.max >= 6
    modifies s
    ensures s.Valid() && s.items == CommonItems(tx)[..5] && s.before == old(s.before)
    ensures s.unfinished.Some? && s.unfinished.value.max == old(s.unfinished.value.max)
    ensures |Payload(s.items)| < 1000
  {
    hide EncodeData, Uint;
    s.Append(Uint(tx.nonce));
    s.Append(Uint(tx.gasPrice));
    s.Append(Uint(tx.gas));
    s.Append(Recipient(tx.to));
    s.Append(Uint(tx.value));
  }

  method AppendUnsigned(tx: Unsigned, s: Stream)
    requires s.Valid() && s.unfinished == None
    modifies s
    ensures s.Valid() && s.unfinished == None && s.buffer == old(s.buffer) + EncodeUnsigned(tx)
  {
    hide EncodeData, Payload, Uint;
    match tx.chainId {
      case Some(chainId) =>
        s.BeginList(9);
        AppendHead(tx, s);
        s.Append(tx.input);
        s.Append(Uint(chainId));
        s.Append([]);
        s.Append([]);
      case None =>
        s.BeginList(6);
        AppendHead(tx, s);
        s.Append(tx.input);
    }
    assert s.items == UnsignedItems(tx);
  }

  method AppendSigned(tx: Signed, s: Stream)
    requires s.Valid() && s.unfinished == None
    modifies s
    ensures s.Valid() && s.unfinished == None && s.buffer == old(s.buffer) + EncodeSigned(tx)
  {
    hide EncodeData, Payload, Uint;
    s.BeginList(9);
    AppendHead(tx.unsigned, s);
    s.Append(tx.unsigned.input);
    s.Append(Uint(tx.v));
    s.Append(Uint(tx.r));
    s.Append(Uint(tx.s));
    assert s.items == SignedItems(tx);
  }

  // ----- reading -----

  /** A number: at most 32 bytes, without leading zeros. */
  function DecodeUint(b: bytes): Decoded<u256> {
    var d :- DecodeData(b);
    if d != [] && d[0] == 0 then Err(InvalidIndirection)
    else if |d| > 32 then Err(IsTooBig)
    else
      FromBigEndianBound(d);
      Pow256Monotone(|d|, 32);
      Pow256Widths();
      Ok(FromBigEndian(d))
  }

  function DecodeAddress(b: bytes): Decoded<H160> {
    var d :- DecodeData(b);
    if |d| < 20 then Err(IsTooShort) else if |d| > 20 then Err(IsTooBig) else Ok(d)
  }

  function DecodeRecipient(b: bytes): Decoded<Option<H160>> {
    var item :- At(b, 3);
    if IsEmptyItem(item) then Ok(None) else
      var to :- DecodeAddress(item);
      Ok(Some(to))
  }

  function UintAt(b: bytes, index: nat): Decoded<u256> {
    var item :- At(b, index);
    DecodeUint(item)
  }

  /** The input is copied to a new `Vec<u8>`, which aborts when no `Vec<u8>` can be that long. */
  function DataAt(b: bytes, index: nat): Decoded<Blob> {
    var item :- At(b, index);
    var d :- DecodeData(item);
    if |d| < BLOB_LIMIT then Ok(d) else Panic
  }

  function DecodeUnsigned(b: bytes): Decoded<Unsigned> {
    var nonce :- UintAt(b, 0);
    var gasPrice :- UintAt(b, 1);
    var gas :- UintAt(b, 2);
    var to :- DecodeRecipient(b);
    var value :- UintAt(b, 4);
    var input :- DataAt(b, 5);
    var chainId := match UintAt(b, 6) { case Ok(id) => Some(id) case _ => None };
    Ok(Unsigned(chainId, gas, gasPrice, input, nonce, to, value))
  }

  /** The chain id that EIP-155 folds into `v`. */
  function ExtractChainId(v: u64): Option<u256> {
    if v >= 35 then Some((v - 35) / 2) else None
  }

  /** Reading `v` as a `u64` aborts when it does not fit. */
  function DecodeSigned(b: bytes): Decoded<Signed> {
    var v :- UintAt(b, 6);
    var nonce :- UintAt(b, 0);
    var gasPrice :- UintAt(b, 1);
    var gas :- UintAt(b, 2);
    var to :- DecodeRecipient(b);
    var value :- UintAt(b, 4);
    var input :- DataAt(b, 5);
    if v >= U64_LIMIT then Panic else
      var chainId := ExtractChainId(v);
      var r :- UintAt(b, 7);
      var s :- UintAt(b, 8);
      Ok(Signed(Unsigned(chainId, gas, gasPrice, input, nonce, to, value), r, s, v))
  }

  // ----- round trips -----

  lemma DecodeEncodeUint(n: u256)
    ensures DecodeUint(EncodeData(Uint(n))) == Ok(n)
  {
    hide EncodeData, DecodeData;
    DecodeEncodeData(Uint(n));
  }

  /** Each of the six common items is read back from its place, whatever follows it. */
  lemma CommonItemsReadBack(tx: Unsigned, tail: seq<Item>, rest: bytes)
    requires |tail| <= 3 && forall i | 0 <= i < |tail| :: |tail[i]| <= 32
    requires |Payload(CommonItems(tx) + tail)| < U64_LIMIT
    ensures var b := EncodeList(CommonItems(tx) + tail) + rest;
            && UintAt(b, 0) == Ok(tx.nonce) && UintAt(b, 1) == Ok(tx.gasPrice) && UintAt(b, 2) == Ok(tx.gas)
            && DecodeRecipient(b) == Ok(tx.to) && UintAt(b, 4) == Ok(tx.value) && DataAt(b, 5) == Ok(tx.input)
  {
    hide EncodeData, DecodeData, At, EncodeList, Uint, DecodeUint;
    var items := CommonItems(tx) + tail;
    forall i | 0 <= i < 6
      ensures At(EncodeList(items) + rest, i) == Ok(EncodeData(items[i]))
    {
      AtOfList(items, i, rest);
    }
    DecodeEncodeUint(tx.nonce);
    DecodeEncodeUint(tx.gasPrice);
    DecodeEncodeUint(tx.gas);
    DecodeEncodeUint(tx.value);
    DecodeEncodeData(Recipient(tx.to));
    DecodeEncodeData(tx.input);
  }

  lemma TailItemReadBack(tx: Unsigned, tail: seq<Item>, rest: bytes, index: nat)
    requires |Payload(CommonItems(tx) + tail)| < U64_LIMIT && index >= 6
    ensures var b := EncodeList(CommonItems(tx) + tail) + rest;
            At(b, index) == if index - 6 < |tail| then Ok(EncodeData(tail[index - 6])) else Err(IsTooShort)
  {
    hide EncodeData, At, EncodeList;
    AtOfList(CommonItems(tx) + tail, index, rest);
  }

  /** Reading what was written gives back the same transaction: all numbers, the recipient or its
      absence, the input of any length, and the chain id or its absence. */
  lemma UnsignedRoundTrip(tx: Unsigned, rest: bytes)
    ensures DecodeUnsigned(EncodeUnsigned(tx) + rest) == Ok(tx)
  {
    hide EncodeData, DecodeData, At, EncodeList, Uint, DecodeUint, CommonItems, DataAt, DecodeRecipient;
    var tail: seq<Item> := if tx.chainId.Some? then [Uint(tx.chainId.value), [], []] else [];
    PayloadFits(tx, tail);
    CommonItemsReadBack(tx, tail, rest);
    TailItemReadBack(tx, tail, rest, 6);
    if tx.chainId.Some? {
      DecodeEncodeUint(tx.chainId.value);
    }
  }

  /** The signed bytes bind every field, across the two forms. */
  lemma EncodeUnsignedInjective(a: Unsigned, b: Unsigned)
    ensures EncodeUnsigned(a) == EncodeUnsigned(b) ==> a == b
  {
    UnsignedRoundTrip(a, []);
    UnsignedRoundTrip(b, []);
  }

  /** `v` can carry the chain id of the transaction. */
  predicate ConsistentChainId(tx: Signed) {
    tx.v < U64_LIMIT && tx.unsigned.chainId == ExtractChainId(tx.v)
  }

  /** What reading a written signed transaction gives, for every `v`: the transaction with the chain
      id that `v` stands for, or an abort when `v` needs more than 64 bits. */
  lemma DecodeEncodeSigned(tx: Signed, rest: bytes)
    ensures DecodeSigned(EncodeSigned(tx) + rest)
         == if tx.v >= U64_LIMIT then Panic
            else Ok(tx.(unsigned := tx.unsigned.(chainId := ExtractChainId(tx.v))))
  {
    hide EncodeData, DecodeData, At, EncodeList, Uint, DecodeUint, CommonItems, DataAt, DecodeRecipient;
    var tail := [Uint(tx.v), Uint(tx.r), Uint(tx.s)];
    PayloadFits(tx.unsigned, tail);
    CommonItemsReadBack(tx.unsigned, tail, rest);
    TailItemReadBack(tx.unsigned, tail, rest, 6);
    TailItemReadBack(tx.unsigned, tail, rest, 7);
    TailItemReadBack(tx.unsigned, tail, rest, 8);
    DecodeEncodeUint(tx.v);
    DecodeEncodeUint(tx.r);
    DecodeEncodeUint(tx.s);
  }

  lemma {:induction false} SkippedIsPart(b: bytes, n: nat)
    ensures !SkipItems(b, n).Panic? && (SkipItems(b, n).Ok? ==> |SkipItems(b, n).value| <= |b|)
    decreases n
  {
    hide ItemHeader;
    ItemHeaderNeverAborts(b);
    if n == 0 {
    } else if FirstItem(b).Ok? {
      SkippedIsPart(b[FirstItem(b).value.Total()..], n - 1);
    }
  }

  lemma ItemHeaderNeverAborts(b: bytes)
    ensures !ItemHeader(b).Panic?
  {
  }

  /** The item that is found is part of the list, and no item makes the reader abort. */
  lemma ItemIsPart(b: bytes, index: nat)
    ensures !At(b, index).Panic? && (At(b, index).Ok? ==> |At(b, index).value| <= |b|)
  {
    hide ItemHeader, SkipItems;
    ItemHeaderNeverAborts(b);
    if IsList(b) && FirstItem(b).Ok? {
      var list := FirstItem(b).value;
      var inside := b[list.headerLen..list.Total()];
      SkippedIsPart(inside, index);
      if SkipItems(inside, index).Ok? {
        ItemHeaderNeverAborts(SkipItems(inside, index).value);
      }
    }
  }

  lemma DataIsPart(b: bytes)
    ensures !DecodeData(b).Panic? && (DecodeData(b).Ok? ==> |DecodeData(b).value| <= |b|)
  {
  }

  /** In bytes that fit in memory, no item makes decoding abort. */
  lemma ItemsNeverAbort(b: Blob, index: nat)
    ensures !UintAt(b, index).Panic? && !DataAt(b, index).Panic? && !DecodeRecipient(b).Panic?
  {
    hide At, DecodeData;
    ItemIsPart(b, index);
    ItemIsPart(b, 3);
    if At(b, index).Ok? {
      DataIsPart(At(b, index).value);
    }
    if At(b, 3).Ok? {
      DataIsPart(At(b, 3).value);
    }
  }

  /** When decoding aborts, for any bytes that fit in memory: exactly when the seven items up to `v` can be
      read, and `v` needs more than 64 bits. */
  lemma DecodingAborts(b: Blob)
    ensures DecodeSigned(b).Panic?
       <==> && UintAt(b, 0).Ok? && UintAt(b, 1).Ok? && UintAt(b, 2).Ok? && DecodeRecipient(b).Ok?
            && UintAt(b, 4).Ok? && DataAt(b, 5).Ok? && UintAt(b, 6).Ok? && UintAt(b, 6).value >= U64_LIMIT
  {
    hide UintAt, DecodeRecipient, DataAt;
    forall i: nat
      ensures !UintAt(b, i).Panic? && !DataAt(b, i).Panic? && !DecodeRecipient(b).Panic?
    {
      ItemsNeverAbort(b, i);
    }
  }

  /** The round trip of a signed transaction holds exactly when `v` fits 64 bits and stands for its
      chain id. */
  lemma SignedRoundTrip(tx: Signed, rest: bytes)
    ensures DecodeSigned(EncodeSigned(tx) + rest) == Ok(tx) <==> ConsistentChainId(tx)
  {
    DecodeEncodeSigned(tx, rest);
  }
}

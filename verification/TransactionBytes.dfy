/** Which bytes decode to which transaction: the reader accepts canonical items only, so that decoding is
    exact, and encoding again gives the bytes back whenever they are nothing but the list. */
module TransactionBytes {
  import opened Outcomes
  import opened Numbers
  import opened Rlp
  import opened LegacyTransaction

  // ----- an item that can be read is in its only encoding -----

  lemma LongHeaderIsCanonical(b: bytes, lenOfLen: nat, offset: u8)
    requires b != [] && 0 < lenOfLen <= 8 && LongPayloadInfo(b, lenOfLen).Ok?
    requires (offset == 0x80 || offset == 0xc0) && b[0] == offset + 55 + lenOfLen
    ensures var info := LongPayloadInfo(b, lenOfLen).value;
            info.valueLen < U64_LIMIT && b[..info.headerLen] == Header(info.valueLen, offset)
  {
    var digits := b[1..1 + lenOfLen];
    FromBigEndianBound(digits);
    Pow256Monotone(lenOfLen, 8);
    Pow256Widths();
    BigEndianCanonical(digits);
    assert b[..1 + lenOfLen] == [b[0]] + digits;
  }

  lemma HeaderIsCanonical(b: bytes)
    requires ItemHeader(b).Ok? && b[0] > 0x7f
    ensures var info, offset := ItemHeader(b).value, if b[0] >= 0xc0 then 0xc0 else 0x80;
            info.valueLen < U64_LIMIT && info.headerLen <= |b| && b[..info.headerLen] == Header(info.valueLen, offset)
  {
    hide LongPayloadInfo, Header;
    if b[0] <= 0xb7 {
      ShortHeader(b, 0x80);
    } else if b[0] <= 0xbf {
      LongHeaderIsCanonical(b, b[0] - 0xb7, 0x80);
      LongHeaderFits(b, b[0] - 0xb7);
    } else if b[0] <= 0xf7 {
      ShortHeader(b, 0xc0);
    } else {
      LongHeaderIsCanonical(b, b[0] - 0xf7, 0xc0);
      LongHeaderFits(b, b[0] - 0xf7);
    }
  }

  lemma ShortHeader(b: bytes, offset: u8)
    requires b != [] && (offset == 0x80 || offset == 0xc0) && offset <= b[0] <= offset + 55
    ensures b[..1] == Header(b[0] - offset, offset)
  {
  }

  lemma LongHeaderFits(b: bytes, lenOfLen: nat)
    requires b != [] && lenOfLen > 0 && LongPayloadInfo(b, lenOfLen).Ok?
    ensures LongPayloadInfo(b, lenOfLen).value.headerLen == 1 + lenOfLen <= |b|
  {
  }

  /** The item that starts a string. */
  function ItemOf(b: bytes): bytes
    requires FirstItem(b).Ok?
  {
    b[..FirstItem(b).value.Total()]
  }

  lemma DataIsCanonical(b: bytes, d: bytes)
    requires FirstItem(b).Ok? && DecodeData(ItemOf(b)) == Ok(d)
    ensures |d| < U64_LIMIT && ItemOf(b) == EncodeData(d)
  {
    var info, item := FirstItem(b).value, ItemOf(b);
    if b[0] > 0x7f {
      HeaderIsCanonical(b);
      assert item[..info.headerLen] == b[..info.headerLen];
      assert item == item[..info.headerLen] + item[info.headerLen..];
      DataOfItem(b, d);
    }
  }

  lemma DataOfItem(b: bytes, d: bytes)
    requires FirstItem(b).Ok? && DecodeData(ItemOf(b)) == Ok(d) && b[0] > 0x7f
    ensures var info := FirstItem(b).value;
            d == ItemOf(b)[info.headerLen..] && |d| == info.valueLen && !(|d| == 1 && d[0] < 0x80) && b[0] < 0xc0
  {
    var info, item := FirstItem(b).value, ItemOf(b);
    if 0xb7 < b[0] <= 0xbf {
      LongHeaderFits(b, b[0] - 0xb7);
      assert item[1..info.headerLen] == b[1..info.headerLen];
    }
  }

  /** Positional access gives the item that starts what is left after skipping. */
  lemma AtIsItem(b: bytes, index: nat) returns (rest: bytes)
    requires At(b, index).Ok?
    ensures FirstItem(rest).Ok? && At(b, index).value == ItemOf(rest)
  {
    hide FirstItem;
    var list := FirstItem(b).value;
    FirstItemFits(b);
    rest := SkipItems(b[list.headerLen..list.Total()], index).value;
    FirstItemFits(rest);
  }

  lemma FirstItemFits(b: bytes)
    ensures FirstItem(b).Ok? ==> FirstItem(b).value.Total() <= |b|
  {
  }

  /** A place holds a piece of data exactly if it holds the encoding of it. */
  lemma DataAtPlace(b: bytes, index: nat, d: Item)
    ensures At(b, index).Ok? && DecodeData(At(b, index).value) == Ok(d) <==> At(b, index) == Ok(EncodeData(d))
  {
    hide At, EncodeData, DecodeData, FirstItem;
    if At(b, index) == Ok(EncodeData(d)) {
      DecodeEncodeData(d);
    } else if At(b, index).Ok? && DecodeData(At(b, index).value) == Ok(d) {
      var rest := AtIsItem(b, index);
      DataIsCanonical(rest, d);
    }
  }

  /** A place is read as a number exactly if it holds the encoding of that number. */
  lemma UintAtExact(b: bytes, index: nat, n: u256)
    ensures UintAt(b, index) == Ok(n) <==> At(b, index) == Ok(EncodeData(Uint(n)))
  {
    hide At, EncodeData, DecodeData;
    if UintAt(b, index) == Ok(n) {
      var d := DecodeData(At(b, index).value).value;
      BigEndianCanonical(d);
      DataAtPlace(b, index, d);
    }
    if At(b, index) == Ok(EncodeData(Uint(n))) {
      DecodeEncodeUint(n);
    }
  }

  lemma DataAtExact(b: bytes, index: nat, d: Blob)
    ensures DataAt(b, index) == Ok(d) <==> At(b, index) == Ok(EncodeData(d))
  {
    hide At, EncodeData, DecodeData;
    DataAtPlace(b, index, d);
  }

  /** The place of the recipient may also hold an empty list, which is read as no recipient. */
  predicate HoldsRecipient(b: bytes, to: Option<H160>) {
    At(b, 3) == Ok(EncodeData(Recipient(to))) || (to == None && At(b, 3) == Ok([0xc0]))
  }

  lemma RecipientExact(b: bytes, to: Option<H160>)
    ensures DecodeRecipient(b) == Ok(to) <==> HoldsRecipient(b, to)
  {
    hide At, DecodeData, EncodeData;
    EmptyData();
    if At(b, 3).Ok? {
      EmptyItem(b);
      if to.Some? {
        DataAtPlace(b, 3, to.value);
        DecodeEncodeData(to.value);
      }
    }
  }

  lemma EmptyData()
    ensures EncodeData([]) == [0x80]
  {
  }

  lemma EmptyItem(b: bytes)
    requires At(b, 3).Ok?
    ensures IsEmptyItem(At(b, 3).value) <==> At(b, 3).value == [0x80] || At(b, 3).value == [0xc0]
  {
    hide At;
    var rest := AtIsItem(b, 3);
  }

  // ----- whole transactions -----

  /** The places of the list hold these items; the recipient may be missing in two ways. */
  predicate Holds(b: bytes, items: seq<Item>, to: Option<H160>) {
    && HoldsRecipient(b, to)
    && forall i | 0 <= i < |items| && i != 3 :: At(b, i) == Ok(EncodeData(items[i]))
  }

  lemma CommonItemsExact(b: bytes, tx: Unsigned)
    ensures Holds(b, CommonItems(tx), tx.to)
       <==> && UintAt(b, 0) == Ok(tx.nonce) && UintAt(b, 1) == Ok(tx.gasPrice) && UintAt(b, 2) == Ok(tx.gas)
            && DecodeRecipient(b) == Ok(tx.to) && UintAt(b, 4) == Ok(tx.value) && DataAt(b, 5) == Ok(tx.input)
  {
    hide At, EncodeData, UintAt, DataAt, DecodeRecipient, Uint, HoldsRecipient;
    UintAtExact(b, 0, tx.nonce);
    UintAtExact(b, 1, tx.gasPrice);
    UintAtExact(b, 2, tx.gas);
    RecipientExact(b, tx.to);
    UintAtExact(b, 4, tx.value);
    DataAtExact(b, 5, tx.input);
  }

  /** Decoding is exact on all bytes: they decode to a signed transaction exactly if the list that starts
      them holds its nine items, and its `v` fits 64 bits and stands for its chain id. */
  lemma DecodeSignedExact(b: bytes, tx: Signed)
    ensures DecodeSigned(b) == Ok(tx) <==> ConsistentChainId(tx) && Holds(b, SignedItems(tx), tx.unsigned.to)
  {
    hide At, EncodeData, UintAt, DataAt, DecodeRecipient, Uint, HoldsRecipient;
    CommonItemsExact(b, tx.unsigned);
    UintAtExact(b, 6, tx.v);
    UintAtExact(b, 7, tx.r);
    UintAtExact(b, 8, tx.s);
    var items, common := SignedItems(tx), CommonItems(tx.unsigned);
    assert items[..6] == common && items[6..] == [Uint(tx.v), Uint(tx.r), Uint(tx.s)];
    assert forall i | 0 <= i < 6 :: items[i] == common[i];
    assert items[6] == Uint(tx.v) && items[7] == Uint(tx.r) && items[8] == Uint(tx.s);
  }

  /** The same for unsigned transactions: six items, and the chain id if the seventh is a number. */
  lemma DecodeUnsignedExact(b: bytes, tx: Unsigned)
    ensures DecodeUnsigned(b) == Ok(tx)
       <==> && Holds(b, CommonItems(tx), tx.to)
            && (forall id: u256 :: tx.chainId == Some(id) <==> At(b, 6) == Ok(EncodeData(Uint(id))))
  {
    hide At, EncodeData, UintAt, DataAt, DecodeRecipient, Uint, HoldsRecipient, Holds;
    CommonItemsExact(b, tx);
    forall id: u256
      ensures UintAt(b, 6) == Ok(id) <==> At(b, 6) == Ok(EncodeData(Uint(id)))
    {
      UintAtExact(b, 6, id);
    }
  }

  // ----- encoding again -----

  /** The bytes are a list of `n` items and nothing else. */
  predicate IsListOf(b: bytes, n: nat) {
    && IsList(b) && FirstItem(b).Ok? && FirstItem(b).value.Total() == |b|
    && SkipItems(b[FirstItem(b).value.headerLen..], n) == Ok([])
  }

  lemma {:induction false} PayloadOfPlaces(p: bytes, items: seq<Item>)
    requires SkipItems(p, |items|) == Ok([])
    requires forall i | 0 <= i < |items| ::
               && SkipItems(p, i).Ok? && FirstItem(SkipItems(p, i).value).Ok?
               && ItemOf(SkipItems(p, i).value) == EncodeData(items[i])
    ensures p == Payload(items)
  {
    hide EncodeData, FirstItem;
    if items == [] {
    } else {
      assert SkipItems(p, 0) == Ok(p);
      FirstItemFits(p);
      var rest := p[FirstItem(p).value.Total()..];
      forall i | 0 <= i < |items| - 1
        ensures SkipItems(rest, i) == SkipItems(p, i + 1) && items[1..][i] == items[i + 1]
      {
      }
      PayloadOfPlaces(rest, items[1..]);
      assert p == ItemOf(p) + rest;
    }
  }

  lemma PlacesOfList(b: bytes, items: seq<Item>)
    requires IsListOf(b, |items|) && forall i | 0 <= i < |items| :: At(b, i) == Ok(EncodeData(items[i]))
    ensures |Payload(items)| < U64_LIMIT && b == EncodeList(items)
  {
    hide EncodeData, Header, FirstItem, ItemHeader, SkipItems, At, Payload;
    var info := FirstItem(b).value;
    var p := b[info.headerLen..];
    ListHeader(b);
    forall i | 0 <= i < |items|
      ensures SkipItems(p, i).Ok? && FirstItem(SkipItems(p, i).value).Ok?
      ensures ItemOf(SkipItems(p, i).value) == EncodeData(items[i])
    {
      PlaceOfList(b, i);
    }
    hide ItemOf;
    PayloadOfPlaces(p, items);
    assert b == b[..info.headerLen] + p;
  }

  lemma ListHeader(b: bytes)
    requires IsList(b) && FirstItem(b).Ok? && FirstItem(b).value.Total() == |b|
    ensures var info := FirstItem(b).value;
            && info.headerLen <= |b| && info.valueLen == |b[info.headerLen..]| < U64_LIMIT
            && b[info.headerLen..info.Total()] == b[info.headerLen..]
            && b[..info.headerLen] == Header(info.valueLen, 0xc0)
  {
    HeaderIsCanonical(b);
  }

  lemma PlaceOfList(b: bytes, i: nat)
    requires IsList(b) && FirstItem(b).Ok? && At(b, i).Ok?
    ensures var info := FirstItem(b).value;
            var p := b[info.headerLen..info.Total()];
            SkipItems(p, i).Ok? && FirstItem(SkipItems(p, i).value).Ok? && At(b, i) == Ok(ItemOf(SkipItems(p, i).value))
  {
  }

  /** Decoding and encoding again gives the bytes back exactly if they are a list of nine items and nothing
      else, and a missing recipient is an empty string. */
  lemma EncodeDecodeSigned(b: bytes)
    requires DecodeSigned(b).Ok?
    ensures EncodeSigned(DecodeSigned(b).value) == b <==> IsListOf(b, 9) && At(b, 3) != Ok([0xc0])
  {
    hide At, EncodeData, IsListOf, HoldsRecipient, Uint, DecodeSigned;
    var tx := DecodeSigned(b).value;
    DecodeSignedExact(b, tx);
    var items := SignedItems(tx);
    PayloadFits(tx.unsigned, items[6..]);
    if EncodeSigned(tx) == b {
      ListOfItems(items);
      AtOfList(items, 3, []);
      assert EncodeList(items) + [] == b;
      RecipientIsData(tx.unsigned.to);
    }
    if IsListOf(b, 9) && At(b, 3) != Ok([0xc0]) {
      RecipientPlace(b, tx.unsigned.to);
      assert items[3] == Recipient(tx.unsigned.to);
      assert forall i | 0 <= i < |items| :: At(b, i) == Ok(EncodeData(items[i]));
      PlacesOfList(b, items);
    }
  }

  lemma RecipientPlace(b: bytes, to: Option<H160>)
    requires HoldsRecipient(b, to) && At(b, 3) != Ok([0xc0])
    ensures At(b, 3) == Ok(EncodeData(Recipient(to)))
  {
  }

  lemma RecipientIsData(to: Option<H160>)
    ensures EncodeData(Recipient(to)) != [0xc0]
  {
    assert EncodeData(Recipient(to))[0] == 0x80 + |Recipient(to)|;
  }

  lemma ListOfItems(items: seq<Item>)
    requires |Payload(items)| < U64_LIMIT
    ensures IsListOf(EncodeList(items), |items|)
  {
    var b := EncodeList(items);
    FirstItemOfList(items, []);
    assert b + [] == b;
    SkipItemsOfPayload(items, |items|);
    assert items[|items|..] == [];
    assert b[|Header(|Payload(items)|, 0xc0)|..] == Payload(items);
  }

  // ----- why bytes are refused -----

  /** What a place that holds data is read as, or why not. A number must not start with a zero byte and not
      exceed 32 bytes, in this order; an address must have 20 bytes. */
  lemma PlaceErrors(b: bytes, index: nat, d: Item)
    requires At(b, index) == Ok(EncodeData(d))
    ensures UintAt(b, index)
         == if d != [] && d[0] == 0 then Err(InvalidIndirection)
            else if |d| > 32 then Err(IsTooBig)
            else Ok(FromBigEndian(d))
    ensures index == 3 ==>
              DecodeRecipient(b) == if d == [] then Ok(None) else if |d| < 20 then Err(IsTooShort)
                                    else if |d| > 20 then Err(IsTooBig) else Ok(Some(d))
  {
    hide At, EncodeData, DecodeData;
    DecodeEncodeData(d);
  }

  /** A list in the place of data is refused as such. */
  lemma ListIsNoData(items: seq<Item>, rest: bytes)
    requires |Payload(items)| < U64_LIMIT
    ensures DecodeData(EncodeList(items) + rest) == Err(ExpectedToBeData)
  {
    hide Payload;
    FirstItemOfList(items, rest);
  }

  lemma HeaderOfPrefix(len: nat, p: bytes, k: nat)
    requires len < U64_LIMIT && |p| == len && 0 < k < |Header(len, 0xc0)| + len
    ensures IsList((Header(len, 0xc0) + p)[..k]) && FirstItem((Header(len, 0xc0) + p)[..k]) == Err(IsTooShort)
  {
    var h := Header(len, 0xc0);
    var b := (h + p)[..k];
    assert b[0] == h[0];
    if len > 55 {
      HeaderLength(len, 0xc0, p);
      if k >= |h| {
        assert b == h + p[..k - |h|];
        ItemHeaderOf(len, 0xc0, p[..k - |h|]);
      } else if k > 1 {
        assert b[1] == (h + p)[1];
      }
    }
  }

  /** A transaction that is cut off anywhere is refused. */
  lemma CutOffIsRefused(tx: Signed, k: nat)
    requires k < |EncodeSigned(tx)|
    ensures DecodeSigned(EncodeSigned(tx)[..k]) == if k == 0 then Err(ExpectedToBeList) else Err(IsTooShort)
  {
    hide EncodeData, Payload, Uint, Header, FirstItem;
    var items := SignedItems(tx);
    PayloadFits(tx.unsigned, items[6..]);
    if k > 0 {
      HeaderOfPrefix(|Payload(items)|, Payload(items), k);
    } else {
      assert EncodeSigned(tx)[..0] == [];
    }
  }
}

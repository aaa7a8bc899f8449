/** The recursive-length-prefix format (Ethereum Yellow Paper, Appendix B): the byte layout of data
    items and of lists of data items, and the positional reader. */
module Rlp {
  import opened Outcomes
  import opened Numbers

  datatype DecoderError =
    | IsTooBig
    | IsTooShort
    | ExpectedToBeList
    | ExpectedToBeData
    | DataLenWithZeroPrefix
    | InvalidIndirection
    | InconsistentLengthAndData

  type Decoded<T> = Outcome<T, DecoderError>

  // ----- the layout -----

  /** The header of a payload of `len` bytes; `offset` is 0x80 for data and 0xc0 for a list. */
  function Header(len: nat, offset: u8): (h: bytes)
    requires len < U64_LIMIT
    requires offset == 0x80 || offset == 0xc0
    ensures 1 <= |h| <= 9
  {
    if len <= 55 then [offset + len] else
      var digits := BigEndian(len);
      assert |digits| <= 8 by { Pow256Widths(); BigEndianWidth(len, 8); }
      [offset + 55 + |digits|] + digits
  }

  /** The content of a data item: the length must fit in 64 bits. */
  type Item = b: bytes | |b| < 0x1_0000_0000_0000_0000

  function EncodeData(b: Item): (e: bytes)
    ensures e != [] && |e| <= |b| + 9
  {
    if |b| == 1 && b[0] < 0x80 then b else Header(|b|, 0x80) + b
  }

  /** The encodings of the items, one after the other. */
  function Payload(items: seq<Item>): bytes
  {
    if items == [] then [] else EncodeData(items[0]) + Payload(items[1..])
  }

  function EncodeList(items: seq<Item>): bytes
    requires |Payload(items)| < U64_LIMIT
  {
    Header(|Payload(items)|, 0xc0) + Payload(items)
  }

  lemma {:induction false} PayloadConcat(a: seq<Item>, b: seq<Item>)
    ensures Payload(a + b) == Payload(a) + Payload(b)
  {
    hide EncodeData;
    if a == [] {
      assert a + b == b;
    } else {
      assert Payload(a + b) == EncodeData(a[0]) + Payload(a[1..] + b) by {
        assert (a + b)[0] == a[0];
        assert (a + b)[1..] == a[1..] + b;
      }
      PayloadConcat(a[1..], b);
      ConcatAssociative(EncodeData(a[0]), Payload(a[1..]), Payload(b));
    }
  }

  lemma ConcatAssociative(x: bytes, y: bytes, z: bytes)
    ensures x + (y + z) == x + y + z
  {
  }

  lemma PayloadAppend(items: seq<Item>, item: Item)
    ensures Payload(items + [item]) == Payload(items) + EncodeData(item)
  {
    hide EncodeData;
    PayloadConcat(items, [item]);
    assert [item][1..] == [];
    assert Payload([item]) == EncodeData(item) + Payload([item][1..]);
  }

  // ----- the reader -----

  /** Where the payload of an item starts and how long it is. */
  datatype PayloadInfo = PayloadInfo(headerLen: nat, valueLen: nat) {
    function Total(): nat {
      headerLen + valueLen
    }
  }

  /** Big-endian length of at most eight bytes, none of them leading zeros. */
  function DecodeLength(b: bytes): Decoded<nat>
    requires b != []
  {
    if |b| > 8 then Err(IsTooBig)
    else if b[0] == 0 then Err(InvalidIndirection)
    else Ok(FromBigEndian(b))
  }

  /** A header whose first byte announces that the length takes `lenOfLen` bytes. */
  function LongPayloadInfo(b: bytes, lenOfLen: nat): Decoded<PayloadInfo>
    requires b != [] && lenOfLen > 0
  {
    if |b| == 1 then Err(IsTooShort)
    else if b[1] == 0 then Err(DataLenWithZeroPrefix)
    else if |b| < 1 + lenOfLen then Err(IsTooShort)
    else
      var len :- DecodeLength(b[1..1 + lenOfLen]);
      if len <= 55 then Err(InvalidIndirection) else Ok(PayloadInfo(1 + lenOfLen, len))
  }

  function ItemHeader(b: bytes): Decoded<PayloadInfo> {
    if b == [] then Err(IsTooShort)
    else if b[0] <= 0x7f then Ok(PayloadInfo(0, 1))
    else if b[0] <= 0xb7 then Ok(PayloadInfo(1, b[0] - 0x80))
    else if b[0] <= 0xbf then LongPayloadInfo(b, b[0] - 0xb7)
    else if b[0] <= 0xf7 then Ok(PayloadInfo(1, b[0] - 0xc0))
    else LongPayloadInfo(b, b[0] - 0xf7)
  }

  /** The header of the first item of `b`, which must lie entirely inside `b`. */
  function FirstItem(b: bytes): (r: Decoded<PayloadInfo>)
    ensures r.Ok? ==> r.value.Total() <= |b|
  {
    var info :- ItemHeader(b);
    if info.Total() <= |b| then Ok(info) else Err(IsTooShort)
  }

  predicate IsList(b: bytes) {
    b != [] && b[0] >= 0xc0
  }

  /** The empty data item or the empty list. */
  predicate IsEmptyItem(b: bytes) {
    b != [] && (b[0] == 0xc0 || b[0] == 0x80)
  }

  /** What is left of `b` after its first `n` items. */
  function SkipItems(b: bytes, n: nat): Decoded<bytes>
    decreases n
  {
    if n == 0 then Ok(b) else
      var info :- FirstItem(b);
      SkipItems(b[info.Total()..], n - 1)
  }

  /** The item at position `index` of the list that starts `b`. */
  function At(b: bytes, index: nat): Decoded<bytes> {
    if !IsList(b) then Err(ExpectedToBeList) else
      var list :- FirstItem(b);
      var rest :- SkipItems(b[list.headerLen..list.Total()], index);
      var found :- FirstItem(rest);
      Ok(rest[..found.Total()])
  }

  /** The content of a data item. */
  function DecodeData(b: bytes): Decoded<bytes> {
    if b == [] then Err(IsTooShort)
    else if b[0] <= 0x7f then Ok([b[0]])
    else if b[0] <= 0xb7 then
      var last := 1 + b[0] - 0x80;
      if |b| < last then Err(InconsistentLengthAndData)
      else if b[0] == 0x81 && b[1] < 0x80 then Err(InvalidIndirection)
      else Ok(b[1..last])
    else if b[0] <= 0xbf then
      var start := 1 + b[0] - 0xb7;
      if |b| < start then Err(InconsistentLengthAndData) else
        var len :- DecodeLength(b[1..start]);
        if |b| < start + len then Err(InconsistentLengthAndData) else Ok(b[start..start + len])
    else Err(ExpectedToBeData)
  }

  // ----- the reader inverts the layout -----

  lemma HeaderLength(len: nat, offset: u8, rest: bytes)
    requires 55 < len < U64_LIMIT
    requires offset == 0x80 || offset == 0xc0
    ensures var h := Header(len, offset);
            1 < |h| <= 9 && h[0] == offset + 54 + |h| && (h + rest)[1] != 0
            && (h + rest)[1..|h|] == BigEndian(len) && DecodeLength(BigEndian(len)) == Ok(len)
  {
    Pow256Widths();
    BigEndianWidth(len, 8);
    var digits := BigEndian(len);
    var h := Header(len, offset);
    assert h[1..] == digits;
    assert (h + rest)[1..|h|] == digits;
    assert (h + rest)[1] == digits[0];
  }

  /** Reading a written header gives its own length and the length it announces. */
  lemma ItemHeaderOf(len: nat, offset: u8, rest: bytes)
    requires len < U64_LIMIT
    requires offset == 0x80 || offset == 0xc0
    ensures ItemHeader(Header(len, offset) + rest) == Ok(PayloadInfo(|Header(len, offset)|, len))
  {
    var h := Header(len, offset);
    var b := h + rest;
    assert b[0] == h[0];
    if len > 55 {
      HeaderLength(len, offset, rest);
      assert b[1..1 + (|h| - 1)] == BigEndian(len);
      assert LongPayloadInfo(b, |h| - 1) == Ok(PayloadInfo(|h|, len));
    }
  }

  /** The first item of an encoding followed by anything is that encoding, no byte more or less. */
  lemma FirstItemOfData(d: Item, rest: bytes)
    ensures FirstItem(EncodeData(d) + rest).Ok?
    ensures FirstItem(EncodeData(d) + rest).value.Total() == |EncodeData(d)|
  {
    if !(|d| == 1 && d[0] < 0x80) {
      ItemHeaderOf(|d|, 0x80, d + rest);
      assert EncodeData(d) + rest == Header(|d|, 0x80) + (d + rest);
    }
  }

  lemma FirstItemOfList(items: seq<Item>, rest: bytes)
    requires |Payload(items)| < U64_LIMIT
    ensures IsList(EncodeList(items) + rest)
    ensures FirstItem(EncodeList(items) + rest)
         == Ok(PayloadInfo(|Header(|Payload(items)|, 0xc0)|, |Payload(items)|))
  {
    var h := Header(|Payload(items)|, 0xc0);
    assert EncodeList(items) + rest == h + (Payload(items) + rest);
    ItemHeaderOf(|Payload(items)|, 0xc0, Payload(items) + rest);
  }

  lemma {:induction false} SkipItemsOfPayload(items: seq<Item>, n: nat)
    ensures n <= |items| ==> SkipItems(Payload(items), n) == Ok(Payload(items[n..]))
    ensures n > |items| ==> SkipItems(Payload(items), n) == Err(IsTooShort)
  {
    if n == 0 || items == [] {
    } else {
      FirstItemOfData(items[0], Payload(items[1..]));
      SkipItemsOfPayload(items[1..], n - 1);
      assert Payload(items)[|EncodeData(items[0])|..] == Payload(items[1..]);
      if n <= |items| {
        assert items[1..][n - 1..] == items[n..];
      }
    }
  }

  /** Positional access to an encoded list finds exactly the encoding of that item, and reports a
      list that is too short past the end; bytes after the list are not looked at. */
  lemma AtOfList(items: seq<Item>, index: nat, rest: bytes)
    requires |Payload(items)| < U64_LIMIT
    ensures At(EncodeList(items) + rest, index)
         == if index < |items| then Ok(EncodeData(items[index])) else Err(IsTooShort)
  {
    var b := EncodeList(items) + rest;
    FirstItemOfList(items, rest);
    var h := |Header(|Payload(items)|, 0xc0)|;
    assert b[h..h + |Payload(items)|] == Payload(items);
    SkipItemsOfPayload(items, index);
    if index < |items| {
      var tail := Payload(items[index..]);
      assert tail == EncodeData(items[index]) + Payload(items[index..][1..]);
      FirstItemOfData(items[index], Payload(items[index..][1..]));
    }
  }

  lemma DecodeEncodeLongData(d: Item)
    requires |d| > 55
    ensures DecodeData(EncodeData(d)) == Ok(d) && !IsEmptyItem(EncodeData(d))
  {
    HeaderLength(|d|, 0x80, d);
    var h := Header(|d|, 0x80);
    var e := EncodeData(d);
    assert e[0] == h[0] && 0xb7 < e[0] <= 0xbf && 1 + e[0] - 0xb7 == |h|;
    assert e[1..|h|] == BigEndian(|d|);
    assert e[|h|..|h| + |d|] == d;
  }

  /** Reading a data item returns the bytes that were written, and the empty item is the empty string. */
  lemma DecodeEncodeData(d: Item)
    ensures DecodeData(EncodeData(d)) == Ok(d)
    ensures IsEmptyItem(EncodeData(d)) <==> d == []
  {
    if |d| > 55 {
      DecodeEncodeLongData(d);
    } else if !(|d| == 1 && d[0] < 0x80) {
      var e := EncodeData(d);
      assert e == [0x80 + |d|] + d;
      assert e[1..] == d && e[1..1 + |d|] == d;
      if |d| == 1 {
        assert e[1] == d[0];
      }
    } else {
      assert d == [d[0]];
    }
  }

  /** The first byte tells the kind and the length: a single byte below 0x80 stands for itself, up to 55 bytes
      are announced by one byte, and more by a byte for the number of length bytes and these. */
  lemma FirstByteTells(d: Item, items: seq<Item>)
    requires |Payload(items)| < U64_LIMIT
    ensures var e := EncodeData(d);
            && (e[0] < 0x80 <==> e == d && |d| == 1)
            && (0x80 <= e[0] <= 0xb7 <==> e == [0x80 + (|e| - 1)] + d && |d| <= 55)
            && (0xb8 <= e[0] <==> |d| > 55)
            && (|d| > 55 ==> |e| == 1 + (e[0] - 0xb7) + |d| && FromBigEndian(e[1..1 + (e[0] - 0xb7)]) == |d|)
    ensures var e, p := EncodeList(items), Payload(items);
            && e[0] >= 0xc0 && (e[0] <= 0xf7 <==> |p| <= 55)
            && (|p| <= 55 ==> e == [0xc0 + |p|] + p)
            && (|p| > 55 ==> |e| == 1 + (e[0] - 0xf7) + |p| && FromBigEndian(e[1..1 + (e[0] - 0xf7)]) == |p|)
  {
    DataTells(d);
    var p := Payload(items);
    if |p| > 55 {
      HeaderLength(|p|, 0xc0, p);
    }
  }

  lemma DataTells(d: Item)
    ensures var e := EncodeData(d);
            && (e[0] < 0x80 <==> e == d && |d| == 1)
            && (0x80 <= e[0] <= 0xb7 <==> e == [0x80 + (|e| - 1)] + d && |d| <= 55)
            && (0xb8 <= e[0] <==> |d| > 55)
            && (|d| > 55 ==> |e| == 1 + (e[0] - 0xb7) + |d| && FromBigEndian(e[1..1 + (e[0] - 0xb7)]) == |d|)
  {
    if |d| > 55 {
      HeaderLength(|d|, 0x80, d);
    }
  }
}

/** The SCALE codec (Polkadot Protocol Specification, section A.2.2): compact 32-bit integers, byte
    vectors, the deploy input and account addresses. Every decoder returns what it leaves unread. */
module Scale {
  import opened Outcomes
  import opened Numbers

  datatype ScaleError = NotEnoughData | OutOfRange | UnknownVariant

  type Read<T> = Outcome<(T, bytes), ScaleError>

  function Take(b: bytes, n: nat): Read<bytes> {
    if |b| < n then Err(NotEnoughData) else Ok((b[..n], b[n..]))
  }

  // ----- compact integers: the two low bits of the first byte tell the mode -----

  function EncodeCompact(n: u32): bytes {
    if n <= 0x3f then LittleEndian(4 * n, 1)
    else if n <= 0x3fff then LittleEndian(4 * n + 1, 2)
    else if n <= 0x3fff_ffff then LittleEndian(4 * n + 2, 4)
    else [3] + LittleEndian(n, 4)
  }

  /** A value in `width` little-endian bytes above its two mode bits; a value that a narrower mode
      could hold is refused. */
  function DecodeWide(b: bytes, width: nat, least: nat, most: u32): Read<u32> {
    var (d, rest) :- Take(b, width);
    var x := FromLittleEndian(d) / 4;
    if least < x <= most then Ok((x, rest)) else Err(OutOfRange)
  }

  function DecodeFull(b: bytes): Read<u32> {
    var (d, rest) :- Take(b, 4);
    LittleEndianCanonical(d);
    Pow256Widths();
    var x := FromLittleEndian(d);
    if x > 0x3fff_ffff then Ok((x, rest)) else Err(OutOfRange)
  }

  function DecodeCompact(b: bytes): Read<u32> {
    if b == [] then Err(NotEnoughData)
    else if b[0] % 4 == 0 then Ok((b[0] / 4, b[1..]))
    else if b[0] % 4 == 1 then DecodeWide(b, 2, 0x3f, 0x3fff)
    else if b[0] % 4 == 2 then DecodeWide(b, 4, 0x3fff, 0x3fff_ffff)
    else if b[0] / 4 == 0 then DecodeFull(b[1..])
    else Err(OutOfRange)
  }

  lemma WideRoundTrip(n: u32, mode: nat, width: nat, least: nat, most: u32, rest: bytes)
    requires mode < 4 && width > 0 && 4 * n + mode < Pow256(width) && least < n <= most
    ensures DecodeWide(LittleEndian(4 * n + mode, width) + rest, width, least, most) == Ok((n, rest))
    ensures LittleEndian(4 * n + mode, width)[0] % 4 == mode
  {
    hide LittleEndian, FromLittleEndian, Pow256;
    var e := LittleEndian(4 * n + mode, width);
    LittleEndianValue(4 * n + mode, width);
    LowByte(n, mode, width);
    assert (e + rest)[..width] == e && (e + rest)[width..] == rest;
  }

  lemma LowByte(n: nat, mode: nat, width: nat)
    requires mode < 4 && width > 0
    ensures LittleEndian(4 * n + mode, width)[0] % 4 == mode
    ensures (4 * n + mode) / 4 == n
  {
    assert LittleEndian(4 * n + mode, width)[0] == (4 * n + mode) % 256;
  }

  lemma WideCanonical(b: bytes, width: nat, least: nat, most: u32)
    requires width > 0 && DecodeWide(b, width, least, most).Ok?
    ensures b[0] < 256 && LittleEndian(4 * DecodeWide(b, width, least, most).value.0 + b[0] % 4, width)
            + DecodeWide(b, width, least, most).value.1 == b
  {
    var d := b[..width];
    var x := FromLittleEndian(d);
    LittleEndianCanonical(d);
    assert x == d[0] + 256 * FromLittleEndian(d[1..]);
    hide LittleEndian, FromLittleEndian;
    LowBits(x, d[0], FromLittleEndian(d[1..]));
    assert LittleEndian(x, width) == d;
    assert b == d + b[width..];
  }

  lemma LowBits(x: nat, low: nat, high: nat)
    requires x == low + 256 * high
    ensures x == 4 * (x / 4) + low % 4
  {
  }

  lemma FullRoundTrip(n: u32, rest: bytes)
    requires n > 0x3fff_ffff
    ensures DecodeFull(LittleEndian(n, 4) + rest) == Ok((n, rest))
  {
    var e := LittleEndian(n, 4);
    Pow256Widths();
    LittleEndianValue(n, 4);
    assert (e + rest)[..4] == e && (e + rest)[4..] == rest;
  }

  lemma DecodeEncodeCompact(n: u32, rest: bytes)
    ensures DecodeCompact(EncodeCompact(n) + rest) == Ok((n, rest))
  {
    hide LittleEndian, DecodeWide, DecodeFull;
    Pow256Widths();
    if n <= 0x3f {
      ShortRoundTrip(n, rest);
    } else if n <= 0x3fff {
      Pow256Of2();
      WideRoundTrip(n, 1, 2, 0x3f, 0x3fff, rest);
    } else if n <= 0x3fff_ffff {
      WideRoundTrip(n, 2, 4, 0x3fff, 0x3fff_ffff, rest);
    } else {
      FullRoundTrip(n, rest);
      assert ([3] + LittleEndian(n, 4) + rest)[1..] == LittleEndian(n, 4) + rest;
    }
  }

  lemma ShortRoundTrip(n: u32, rest: bytes)
    requires n <= 0x3f
    ensures EncodeCompact(n) == [4 * n] && DecodeCompact([4 * n] + rest) == Ok((n, rest))
  {
  }

  lemma Pow256Of2()
    ensures Pow256(2) == 0x1_0000
  {
  }

  lemma EncodeDecodeCompact(b: bytes)
    requires DecodeCompact(b).Ok?
    ensures EncodeCompact(DecodeCompact(b).value.0) + DecodeCompact(b).value.1 == b
  {
    if b[0] % 4 == 0 {
      ShortRoundTrip(b[0] / 4, b[1..]);
    } else if b[0] % 4 == 1 {
      WideCanonical(b, 2, 0x3f, 0x3fff);
    } else if b[0] % 4 == 2 {
      WideCanonical(b, 4, 0x3fff, 0x3fff_ffff);
    } else {
      LittleEndianCanonical(b[1..][..4]);
      assert b == [3] + b[1..][..4] + b[1..][4..];
    }
  }

  /** The length modes, by the two low bits of the first byte: one, two or four bytes that hold the number
      above these bits, or four bytes after the first. The shortest mode is used. */
  lemma CompactModes(n: u32)
    ensures var e := EncodeCompact(n);
            && |e| == (if n < 64 then 1 else if n < 16384 then 2 else if n < 1073741824 then 4 else 5)
            && e[0] % 4 == (if n < 64 then 0 else if n < 16384 then 1 else if n < 1073741824 then 2 else 3)
            && (n < 1073741824 ==> FromLittleEndian(e) / 4 == n)
            && (n >= 1073741824 ==> e[0] == 3 && FromLittleEndian(e[1..]) == n)
  {
    hide LittleEndian, FromLittleEndian;
    Pow256Widths();
    Pow256Of2();
    if n < 1073741824 {
      var mode := if n < 64 then 0 else if n < 16384 then 1 else 2;
      var width := if n < 64 then 1 else if n < 16384 then 2 else 4;
      assert Pow256(1) == 256 * Pow256(0);
      LittleEndianValue(4 * n + mode, width);
      LowByte(n, mode, width);
    } else {
      LittleEndianValue(n, 4);
      assert EncodeCompact(n)[1..] == LittleEndian(n, 4);
    }
  }

  // ----- byte vectors -----

  function EncodeVec(v: ScaleBlob): bytes {
    EncodeCompact(|v|) + v
  }

  function DecodeVec(b: bytes): Read<ScaleBlob> {
    var (len, rest) :- DecodeCompact(b);
    Take(rest, len)
  }

  lemma VecIsPrefixCode(b: bytes, v: ScaleBlob, rest: bytes)
    ensures DecodeVec(b) == Ok((v, rest)) <==> b == EncodeVec(v) + rest
  {
    hide DecodeCompact, EncodeCompact;
    if DecodeVec(b) == Ok((v, rest)) {
      EncodeDecodeCompact(b);
      assert DecodeCompact(b).value.1 == v + rest;
    }
    if b == EncodeVec(v) + rest {
      DecodeEncodeCompact(|v|, v + rest);
      assert b == EncodeCompact(|v|) + (v + rest);
    }
  }

  // ----- the input of a contract creation -----

  datatype CallInput = CallInput(code: ScaleBlob, data: ScaleBlob, salt: ScaleBlob)

  function EncodeCallInput(c: CallInput): bytes {
    EncodeVec(c.code) + EncodeVec(c.data) + EncodeVec(c.salt)
  }

  function DecodeCallInput(b: bytes): Read<CallInput> {
    var (code, afterCode) :- DecodeVec(b);
    var (data, afterData) :- DecodeVec(afterCode);
    var (salt, rest) :- DecodeVec(afterData);
    Ok((CallInput(code, data, salt), rest))
  }

  /** `CallInput` is a canonical prefix code: a byte string decodes to `c` leaving `rest` exactly when
      it is the encoding of `c` followed by `rest`, for all lengths and length modes. */
  lemma CallInputIsPrefixCode(b: bytes, c: CallInput, rest: bytes)
    ensures DecodeCallInput(b) == Ok((c, rest)) <==> b == EncodeCallInput(c) + rest
  {
    hide DecodeVec, EncodeVec;
    if b == EncodeCallInput(c) + rest {
      var afterData := EncodeVec(c.salt) + rest;
      var afterCode := EncodeVec(c.data) + afterData;
      assert b == EncodeVec(c.code) + afterCode;
      VecIsPrefixCode(b, c.code, afterCode);
      VecIsPrefixCode(afterCode, c.data, afterData);
      VecIsPrefixCode(afterData, c.salt, rest);
    }
    if DecodeCallInput(b) == Ok((c, rest)) {
      var (code, afterCode) := DecodeVec(b).value;
      var (data, afterData) := DecodeVec(afterCode).value;
      VecIsPrefixCode(b, code, afterCode);
      VecIsPrefixCode(afterCode, data, afterData);
      var (salt, tail) := DecodeVec(afterData).value;
      VecIsPrefixCode(afterData, salt, tail);
      assert c == CallInput(code, data, salt) && tail == rest;
      assert b == EncodeVec(code) + (EncodeVec(data) + (EncodeVec(salt) + rest));
    }
  }

  lemma EncodeCallInputInjective(a: CallInput, b: CallInput)
    ensures EncodeCallInput(a) == EncodeCallInput(b) ==> a == b
  {
    CallInputIsPrefixCode(EncodeCallInput(a) + [], a, []);
    CallInputIsPrefixCode(EncodeCallInput(b) + [], b, []);
  }

  /** Encoding the decoded input again gives back the original bytes exactly when nothing was left over. */
  lemma ReencodesExactly(b: bytes)
    ensures DecodeCallInput(b).Ok? ==>
              (EncodeCallInput(DecodeCallInput(b).value.0) == b <==> DecodeCallInput(b).value.1 == [])
  {
    hide DecodeVec, EncodeVec;
    if DecodeCallInput(b).Ok? {
      var (c, rest) := DecodeCallInput(b).value;
      CallInputIsPrefixCode(b, c, rest);
    }
  }

  // ----- why bytes are refused -----

  /** A compact integer is refused because bytes are missing, or because it is not in its shortest mode or of
      a larger mode than 32 bits need. */
  lemma CompactErrors(b: bytes)
    requires !DecodeCompact(b).Ok?
    ensures var width := if b == [] then 1 else if b[0] % 4 == 1 then 2 else if b[0] % 4 == 2 then 4
                         else if b[0] == 3 then 5 else 1;
            DecodeCompact(b) == if |b| < width then Err(NotEnoughData) else Err(OutOfRange)
  {
  }

  lemma CompactCutOff(n: u32, k: nat)
    requires k < |EncodeCompact(n)|
    ensures DecodeCompact(EncodeCompact(n)[..k]) == Err(NotEnoughData)
  {
    hide LittleEndian, DecodeCompact;
    CompactModes(n);
    var b := EncodeCompact(n)[..k];
    if DecodeCompact(b).Ok? {
      var (m, rest) := DecodeCompact(b).value;
      EncodeDecodeCompact(b);
      var tail := EncodeCompact(n)[k..];
      assert EncodeCompact(n) == b + tail && b == EncodeCompact(m) + rest;
      assert EncodeCompact(n) + [] == EncodeCompact(m) + (rest + tail);
      DecodeEncodeCompact(m, rest + tail);
      DecodeEncodeCompact(n, []);
    } else {
      CompactErrors(b);
      if n >= 0x4000_0000 && k > 0 {
        assert b[0] == 3;
      }
    }
  }

  lemma VecCutOff(v: ScaleBlob, k: nat)
    requires k < |EncodeVec(v)|
    ensures DecodeVec(EncodeVec(v)[..k]) == Err(NotEnoughData)
  {
    hide EncodeCompact, DecodeCompact;
    var head := EncodeCompact(|v|);
    if k < |head| {
      assert EncodeVec(v)[..k] == head[..k];
      CompactCutOff(|v|, k);
    } else {
      assert EncodeVec(v)[..k] == head + v[..k - |head|];
      DecodeEncodeCompact(|v|, v[..k - |head|]);
    }
  }

  /** Deploy input that is cut off anywhere is refused because bytes are missing. */
  lemma CallInputCutOff(c: CallInput, k: nat)
    requires k < |EncodeCallInput(c)|
    ensures DecodeCallInput(EncodeCallInput(c)[..k]) == Err(NotEnoughData)
  {
    hide EncodeVec, DecodeVec;
    var x, y, z := EncodeVec(c.code), EncodeVec(c.data), EncodeVec(c.salt);
    var b := EncodeCallInput(c)[..k];
    if k < |x| {
      assert b == x[..k];
      VecCutOff(c.code, k);
    } else if k < |x + y| {
      assert b == x + y[..k - |x|];
      VecIsPrefixCode(b, c.code, y[..k - |x|]);
      VecCutOff(c.data, k - |x|);
    } else {
      var w := z[..k - |x + y|];
      assert b == x + (y + w);
      VecIsPrefixCode(b, c.code, y + w);
      VecIsPrefixCode(y + w, c.data, w);
      VecCutOff(c.salt, k - |x + y|);
    }
  }

  // ----- account addresses -----

  datatype MultiAddress =
    | Id(id: H256)
    | Index(index: u32)
    | Raw(raw: ScaleBlob)
    | Address32(data32: H256)
    | Address20(data20: H160)

  function EncodeMultiAddress(a: MultiAddress): bytes {
    match a
    case Id(id) => [0] + id
    case Index(i) => [1] + EncodeCompact(i)
    case Raw(raw) => [2] + EncodeVec(raw)
    case Address32(d) => [3] + d
    case Address20(d) => [4] + d
  }

  function DecodeMultiAddress(b: bytes): Read<MultiAddress> {
    if b == [] then Err(NotEnoughData)
    else if b[0] == 0 then var (id, rest) :- Take(b[1..], 32); Ok((Id(id), rest))
    else if b[0] == 1 then var (i, rest) :- DecodeCompact(b[1..]); Ok((Index(i), rest))
    else if b[0] == 2 then var (raw, rest) :- DecodeVec(b[1..]); Ok((Raw(raw), rest))
    else if b[0] == 3 then var (d, rest) :- Take(b[1..], 32); Ok((Address32(d), rest))
    else if b[0] == 4 then var (d, rest) :- Take(b[1..], 20); Ok((Address20(d), rest))
    else Err(UnknownVariant)
  }

  lemma DecodeEncodeMultiAddress(a: MultiAddress, rest: bytes)
    ensures DecodeMultiAddress(EncodeMultiAddress(a) + rest) == Ok((a, rest))
  {
    hide DecodeCompact, EncodeCompact, EncodeVec, DecodeVec;
    var e := EncodeMultiAddress(a);
    assert (e + rest)[1..] == e[1..] + rest;
    match a {
      case Index(i) => DecodeEncodeCompact(i, rest);
      case Raw(raw) => VecIsPrefixCode(EncodeVec(raw) + rest, raw, rest);
      case _ =>
    }
  }

  /** Account addresses are a canonical prefix code too. */
  lemma MultiAddressIsPrefixCode(b: bytes, a: MultiAddress, rest: bytes)
    ensures DecodeMultiAddress(b) == Ok((a, rest)) <==> b == EncodeMultiAddress(a) + rest
  {
    if b == EncodeMultiAddress(a) + rest {
      DecodeEncodeMultiAddress(a, rest);
    }
    if DecodeMultiAddress(b) == Ok((a, rest)) {
      MultiAddressIsCanonical(b, a, rest);
    }
  }

  lemma MultiAddressIsCanonical(b: bytes, a: MultiAddress, rest: bytes)
    requires DecodeMultiAddress(b) == Ok((a, rest))
    ensures b == EncodeMultiAddress(a) + rest
  {
    hide DecodeCompact, EncodeCompact, EncodeVec, DecodeVec;
    var tail := b[1..];
    assert b == [b[0]] + tail;
    if b[0] == 1 {
      EncodeDecodeCompact(tail);
      assert tail == EncodeCompact(a.index) + rest;
    } else if b[0] == 2 {
      var (v, r) := DecodeVec(tail).value;
      VecIsPrefixCode(tail, v, r);
      assert tail == EncodeVec(a.raw) + rest;
    } else {
      assert tail == EncodeMultiAddress(a)[1..] + rest;
    }
  }
}

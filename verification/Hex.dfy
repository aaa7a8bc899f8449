/** Hex strings of the JSON interface. Text is a sequence of UTF-8 code units, one per `char`. */
module Hex {
  import opened Outcomes
  import opened Numbers

  datatype HexError = OddLength | InvalidHexCharacter | InvalidStringLength
  datatype ParseIntError = Empty | InvalidDigit | PosOverflow

  function Digit(n: nat): char
    requires n < 16
  {
    "0123456789abcdef"[n]
  }

  function DigitValue(c: char): Option<nat> {
    if '0' <= c <= '9' then Some((c - '0') as nat)
    else if 'a' <= c <= 'f' then Some((c - 'a') as nat + 10)
    else if 'A' <= c <= 'F' then Some((c - 'A') as nat + 10)
    else None
  }

  function Lower(s: string): (r: string)
    ensures |r| == |s|
  {
    seq(|s|, i requires 0 <= i < |s| => if 'A' <= s[i] <= 'Z' then s[i] - 'A' + 'a' else s[i])
  }

  predicate AllDigits(s: string) {
    forall i | 0 <= i < |s| :: DigitValue(s[i]).Some?
  }

  /** Removes the prefix `0x` as often as it occurs. */
  function Trim(s: string): string {
    if |s| >= 2 && s[0] == '0' && s[1] == 'x' then Trim(s[2..]) else s
  }

  // ----- byte vectors and arrays -----

  /** Two lower-case digits a byte. */
  function Encode(v: bytes): string {
    if v == [] then "" else [Digit(v[0] / 16), Digit(v[0] % 16)] + Encode(v[1..])
  }

  function DecodePairs(s: string): Outcome<bytes, HexError>
    requires |s| % 2 == 0
  {
    if s == "" then Ok([]) else
      var high :- OkOr(DigitValue(s[0]), InvalidHexCharacter);
      var low :- OkOr(DigitValue(s[1]), InvalidHexCharacter);
      DigitRange(s[0]);
      DigitRange(s[1]);
      var tail :- DecodePairs(s[2..]);
      Ok([16 * high + low] + tail)
  }

  function Decode(s: string): Outcome<bytes, HexError> {
    if |s| % 2 != 0 then Err(OddLength) else DecodePairs(s)
  }

  function VecToHex(v: bytes): string {
    "0x" + Encode(v)
  }

  function VecFromHex(s: string): Outcome<bytes, HexError> {
    Decode(Trim(s))
  }

  /** An array of `length` bytes. */
  function ArrayFromHex(s: string, length: nat): Outcome<bytes, HexError> {
    var data :- Decode(Trim(s));
    if |data| != length then Err(InvalidStringLength) else Ok(data)
  }

  // ----- single bytes -----

  /** No leading zero. */
  function ByteToHex(n: u8): string {
    "0x" + if n < 16 then [Digit(n)] else [Digit(n / 16), Digit(n % 16)]
  }

  function ParseDigits(s: string, acc: u8): Outcome<u8, ParseIntError> {
    if s == "" then Ok(acc) else
      var d :- OkOr(DigitValue(s[0]), InvalidDigit);
      if acc * 16 + d >= 256 then Err(PosOverflow) else
        DigitRange(s[0]);
        ParseDigits(s[1..], acc * 16 + d)
  }

  /** The integer parser of the standard library accepts a plus sign. */
  function ByteFromHex(s: string): Outcome<u8, ParseIntError> {
    var t := Trim(s);
    if t == "" then Err(Empty)
    else if t == "+" || t == "-" then Err(InvalidDigit)
    else if t[0] == '+' then ParseDigits(t[1..], 0)
    else ParseDigits(t, 0)
  }

  // ----- properties -----

  lemma DigitRange(c: char)
    ensures DigitValue(c).Some? ==> DigitValue(c).value < 16
  {
  }

  lemma DigitRoundTrip(n: nat)
    requires n < 16
    ensures DigitValue(Digit(n)) == Some(n) && Digit(n) != 'x'
  {
  }

  /** The digit printed for a value is the lower-case form of every digit with that value. */
  lemma DigitNormalForm(c: char)
    ensures DigitValue(c).Some? ==> DigitValue(c).value < 16 && [Digit(DigitValue(c).value)] == Lower([c])
  {
  }

  /** Digits contain no `x`, so exactly one prefix of a printed value is removed. */
  lemma TrimRemovesOnePrefix(digits: string)
    requires AllDigits(digits)
    ensures Trim("0x" + digits) == digits
  {
    assert ("0x" + digits)[2..] == digits;
    if |digits| >= 2 {
      assert DigitValue(digits[1]).Some?;
    }
  }

  function Prefixes(k: nat): string {
    if k == 0 then "" else "0x" + Prefixes(k - 1)
  }

  /** Trimming removes all prefixes and nothing else: what is left starts with none. */
  lemma {:induction false} TrimExact(s: string) returns (k: nat)
    ensures s == Prefixes(k) + Trim(s)
    ensures !(|Trim(s)| >= 2 && Trim(s)[..2] == "0x")
  {
    if |s| >= 2 && s[0] == '0' && s[1] == 'x' {
      var j := TrimExact(s[2..]);
      k := j + 1;
      assert s == "0x" + s[2..];
    } else {
      k := 0;
      if |s| >= 2 && s[..2] == "0x" {
        assert s[..2][0] == '0' && s[..2][1] == 'x';
      }
    }
  }

  /** A decoded string is its first pair and the decoded remainder. */
  lemma PairFirst(high: char, low: char, tail: string)
    requires |tail| % 2 == 0
    ensures var s := [high, low] + tail;
            && (AllDigits(s) <==> DigitValue(high).Some? && DigitValue(low).Some? && AllDigits(tail))
            && (Decode(s).Ok? <==> DigitValue(high).Some? && DigitValue(low).Some? && Decode(tail).Ok?)
            && (Decode(s).Ok? ==>
                  && DigitValue(high).value < 16 && DigitValue(low).value < 16
                  && Decode(s).value == [16 * DigitValue(high).value + DigitValue(low).value] + Decode(tail).value)
  {
    var s := [high, low] + tail;
    assert s[2..] == tail && s[0] == high && s[1] == low;
    DigitRange(high);
    DigitRange(low);
    assert forall i | 0 <= i < |tail| :: tail[i] == s[i + 2];
  }

  lemma {:induction false} DecodeEncode(v: bytes)
    ensures AllDigits(Encode(v)) && |Encode(v)| == 2 * |v| && Decode(Encode(v)) == Ok(v)
  {
    if v == [] {
    } else {
      DecodeEncode(v[1..]);
      DigitRoundTrip(v[0] / 16);
      DigitRoundTrip(v[0] % 16);
      PairFirst(Digit(v[0] / 16), Digit(v[0] % 16), Encode(v[1..]));
      assert v == [v[0]] + v[1..];
    }
  }

  /** Printing and parsing byte vectors of any length, and arrays of their own length. */
  lemma VecHexRoundTrip(v: bytes)
    ensures VecFromHex(VecToHex(v)) == Ok(v)
    ensures ArrayFromHex(VecToHex(v), |v|) == Ok(v)
  {
    DecodeEncode(v);
    TrimRemovesOnePrefix(Encode(v));
  }

  lemma ByteHexRoundTrip(n: u8)
    ensures ByteFromHex(ByteToHex(n)) == Ok(n)
  {
    hide Trim, DigitValue, Digit;
    if n < 16 {
      DigitRoundTrip(n);
      ParsePlain([Digit(n)]);
      assert [Digit(n)][1..] == "";
    } else {
      DigitRoundTrip(n / 16);
      DigitRoundTrip(n % 16);
      var digits := [Digit(n / 16), Digit(n % 16)];
      ParsePlain(digits);
      assert digits[1..] == [Digit(n % 16)] && digits[1..][1..] == "";
      assert ParseDigits(digits[1..], n / 16) == Ok(n);
    }
  }

  /** Printed digits carry no sign, so they are parsed as they are. */
  lemma ParsePlain(digits: string)
    requires digits != "" && AllDigits(digits)
    ensures ByteFromHex("0x" + digits) == ParseDigits(digits, 0)
  {
    hide ParseDigits, Trim;
    TrimRemovesOnePrefix(digits);
    assert DigitValue(digits[0]).Some?;
  }

  lemma {:induction false} EncodeDecode(s: string)
    requires |s| % 2 == 0
    ensures Decode(s).Ok? <==> AllDigits(s)
    ensures Decode(s).Ok? ==> Encode(Decode(s).value) == Lower(s)
  {
    hide DigitValue, Digit, DecodePairs;
    if s == "" {
      assert Decode("") == Ok([]) by { DecodeEncode([]); }
    } else {
      var t := s[2..];
      assert s == [s[0], s[1]] + t;
      EncodeDecode(t);
      PairFirst(s[0], s[1], t);
      DigitNormalForm(s[0]);
      DigitNormalForm(s[1]);
      if Decode(s).Ok? {
        var v := Decode(s).value;
        assert v[1..] == Decode(t).value;
        assert Lower(s) == Lower([s[0]]) + Lower([s[1]]) + Lower(t);
      }
    }
  }

  /** A string parses exactly when, without its prefixes, it is an even number of digits; printing the
      result gives its lower-case form under a single prefix, which parses to the same bytes. */
  lemma HexNormalForm(s: string)
    ensures VecFromHex(s).Ok? <==> |Trim(s)| % 2 == 0 && AllDigits(Trim(s))
    ensures VecFromHex(s).Ok? ==>
              && VecToHex(VecFromHex(s).value) == "0x" + Lower(Trim(s))
              && VecFromHex(VecToHex(VecFromHex(s).value)) == VecFromHex(s)
  {
    if |Trim(s)| % 2 == 0 {
      EncodeDecode(Trim(s));
      if VecFromHex(s).Ok? {
        VecHexRoundTrip(VecFromHex(s).value);
      }
    }
  }

  // ----- what the digits mean, and which strings are refused -----

  const LOWER_DIGITS: string := "0123456789abcdef"
  const UPPER_DIGITS: string := "0123456789ABCDEF"

  /** A character has the value of its place among the sixteen digits, in either case, and no other has one. */
  lemma DigitValueExact(c: char, v: nat)
    ensures DigitValue(c) == Some(v) <==> v < 16 && (c == LOWER_DIGITS[v] || c == UPPER_DIGITS[v])
  {
    if v < 16 {
      if v < 10 {
        assert LOWER_DIGITS[v] == '0' + v as char && UPPER_DIGITS[v] == '0' + v as char;
      } else {
        assert LOWER_DIGITS[v] == 'a' + (v - 10) as char && UPPER_DIGITS[v] == 'A' + (v - 10) as char;
      }
    }
  }

  /** Each byte is the value of its two digits, the first being worth sixteen times the second. */
  lemma {:induction false} PairsAreBytes(s: string, i: nat)
    requires Decode(s).Ok? && i < |Decode(s).value|
    ensures |s| == 2 * |Decode(s).value| && DigitValue(s[2 * i]).Some? && DigitValue(s[2 * i + 1]).Some?
    ensures Decode(s).value[i] == 16 * DigitValue(s[2 * i]).value + DigitValue(s[2 * i + 1]).value
  {
    hide DigitValue, DecodePairs;
    DecodedLength(s);
    var t := s[2..];
    assert s == [s[0], s[1]] + t;
    PairFirst(s[0], s[1], t);
    if i == 0 {
    } else {
      PairsAreBytes(t, i - 1);
    }
  }

  lemma {:induction false} DecodedLength(s: string)
    requires Decode(s).Ok?
    ensures |s| == 2 * |Decode(s).value|
  {
    hide DigitValue, DecodePairs;
    if s == "" {
      DecodeEncode([]);
    } else {
      var t := s[2..];
      assert s == [s[0], s[1]] + t;
      PairFirst(s[0], s[1], t);
      DecodedLength(t);
    }
  }

  lemma {:induction false} PairsFail(s: string)
    requires |s| % 2 == 0
    ensures DecodePairs(s).Ok? || DecodePairs(s) == Err(InvalidHexCharacter)
  {
    if s == "" {
    } else {
      PairsFail(s[2..]);
    }
  }

  /** Why a string is refused: an odd number of characters counts before a character that is no digit, and
      both before a length that is not that of the array. */
  lemma HexErrors(s: string, length: nat)
    ensures var t := Trim(s);
            && (|t| % 2 != 0 ==> VecFromHex(s) == Err(OddLength))
            && (|t| % 2 == 0 && !AllDigits(t) ==> VecFromHex(s) == Err(InvalidHexCharacter))
            && (VecFromHex(s).Ok? <==> |t| % 2 == 0 && AllDigits(t))
    ensures ArrayFromHex(s, length)
         == if VecFromHex(s).Ok? && |VecFromHex(s).value| != length then Err(InvalidStringLength) else VecFromHex(s)
  {
    if |Trim(s)| % 2 == 0 {
      EncodeDecode(Trim(s));
      PairsFail(Trim(s));
    }
  }

  /** The number that a string of digits stands for. */
  function Number(s: string, acc: nat): nat
    requires AllDigits(s)
  {
    if s == "" then acc else Number(s[1..], 16 * acc + DigitValue(s[0]).value)
  }

  lemma {:induction false} NumberGrows(s: string, acc: nat)
    requires AllDigits(s)
    ensures Number(s, acc) >= acc
  {
    if s == "" {
    } else {
      NumberGrows(s[1..], 16 * acc + DigitValue(s[0]).value);
    }
  }

  lemma {:induction false} ParsedIsNumber(s: string, acc: u8)
    ensures AllDigits(s) ==>
              ParseDigits(s, acc) == if Number(s, acc) < 256 then Ok(Number(s, acc)) else Err(PosOverflow)
    ensures !AllDigits(s) ==> ParseDigits(s, acc).Err? && ParseDigits(s, acc).error in {InvalidDigit, PosOverflow}
  {
    hide DigitValue;
    if s == "" {
    } else {
      assert s == [s[0]] + s[1..];
      assert AllDigits(s) <==> DigitValue(s[0]).Some? && AllDigits(s[1..]);
      DigitRange(s[0]);
      if DigitValue(s[0]).Some? {
        var next := acc * 16 + DigitValue(s[0]).value;
        if next < 256 {
          ParsedIsNumber(s[1..], next);
        } else if AllDigits(s[1..]) {
          NumberGrows(s[1..], next);
        }
      }
    }
  }

  /** Without the sign that may precede them. */
  function Unsigned(t: string): string {
    if t != "" && t[0] == '+' then t[1..] else t
  }

  /** A string is read as a byte exactly if, without its prefixes and a plus sign, it is one digit or more
      whose number is less than 256; digits of a larger number are refused as an overflow. */
  lemma ByteFromHexExact(s: string, n: u8)
    ensures var digits := Unsigned(Trim(s));
            && (ByteFromHex(s) == Ok(n) <==> digits != "" && AllDigits(digits) && Number(digits, 0) == n)
            && (digits != "" && AllDigits(digits) && Number(digits, 0) >= 256 ==> ByteFromHex(s) == Err(PosOverflow))
            && (Trim(s) == "" ==> ByteFromHex(s) == Err(Empty))
            && !ByteFromHex(s).Panic?
  {
    var t := Trim(s);
    hide Trim;
    if t != "" && t != "+" && t != "-" {
      ParsedIsNumber(Unsigned(t), 0);
    } else if t == "-" {
      assert DigitValue(t[0]).None?;
    }
  }
}

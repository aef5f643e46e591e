/** Bytes, hexadecimal text and the fixed-size values built from it: the
    go-ethereum helpers Bytes2Hex, Hex2Bytes, FromHex, HexToAddress,
    HexToHash and Address.Hex that the client applies to addresses, hashes
    and payloads. */
module Hex {
  import Text

  type Byte = b: int | 0 <= b < 256

  const AddressLength: nat := 20
  const HashLength: nat := 32

  /** A 20-byte account or contract address. */
  type Address = a: seq<Byte> | |a| == AddressLength witness Zeros(AddressLength)

  /** A 32-byte transaction hash. */
  type Hash = h: seq<Byte> | |h| == HashLength witness Zeros(HashLength)

  function Zeros(n: nat): (z: seq<Byte>)
    ensures |z| == n && forall k :: 0 <= k < n ==> z[k] == 0
  {
    seq(n, _ => 0)
  }

  predicate IsHexDigit(ch: char)
  {
    '0' <= ch <= '9' || 'a' <= ch <= 'f' || 'A' <= ch <= 'F'
  }

  function HexValue(ch: char): (v: nat)
    requires IsHexDigit(ch)
    ensures v < 16
  {
    if '0' <= ch <= '9' then ch as int - '0' as int
    else if 'a' <= ch <= 'f' then ch as int - 'a' as int + 10
    else ch as int - 'A' as int + 10
  }

  /** The lower-case hexadecimal digit for `v`. */
  function HexChar(v: nat): (ch: char)
    requires v < 16
    ensures IsHexDigit(ch) && HexValue(ch) == v
  {
    if v < 10 then ('0' as int + v) as char else ('a' as int + v - 10) as char
  }

  /** common.Bytes2Hex: two lower-case digits per byte, high nibble first. */
  function Bytes2Hex(b: seq<Byte>): (s: string)
    ensures |s| == 2 * |b|
  {
    if b == [] then "" else [HexChar(b[0] / 16), HexChar(b[0] % 16)] + Bytes2Hex(b[1..])
  }

  /** common.Hex2Bytes: decode digit pairs from the front; decoding stops at
      the first pair holding a non-hex character, and a trailing odd digit is
      dropped, keeping the bytes decoded so far. */
  function Hex2Bytes(s: string): (b: seq<Byte>)
    ensures |b| <= |s| / 2
  {
    if |s| < 2 || !IsHexDigit(s[0]) || !IsHexDigit(s[1]) then []
    else [HexValue(s[0]) * 16 + HexValue(s[1])] + Hex2Bytes(s[2..])
  }

  predicate Has0xPrefix(s: string)
  {
    |s| >= 2 && s[0] == '0' && (s[1] == 'x' || s[1] == 'X')
  }

  /** common.FromHex: drop a "0x"/"0X" prefix, left-pad a text of odd
      length with one "0", then decode. Go's len counts UTF-8 bytes, so a
      text's parity is that of its byte length. */
  function FromHex(s: string): seq<Byte>
  {
    var t := if Has0xPrefix(s) then s[2..] else s;
    var u := if Text.Utf8Len(t) % 2 == 1 then "0" + t else t;
    Hex2Bytes(u)
  }

  /** The last `n` bytes of `b`, left-padded with zero bytes when `b` is
      shorter (common.BytesToAddress / BytesToHash). */
  function LastBytes(b: seq<Byte>, n: nat): (r: seq<Byte>)
    ensures |r| == n
  {
    if |b| > n then b[|b| - n..] else Zeros(n - |b|) + b
  }

  function HexToAddress(s: string): Address
  {
    LastBytes(FromHex(s), AddressLength)
  }

  function HexToHash(s: string): Hash
  {
    LastBytes(FromHex(s), HashLength)
  }

  /** Address.Hex: "0x" and forty hexadecimal digits. The EIP-55 checksum
      casing is not modelled; digits are lower-case here. */
  function AddressHex(a: Address): (s: string)
    ensures |s| == 42 && Text.HasPrefix(s, "0x")
  {
    "0x" + Bytes2Hex(a)
  }

  /** A text of hex digits only. */
  predicate IsHexText(s: string)
  {
    forall k :: 0 <= k < |s| ==> IsHexDigit(s[k])
  }

  /** The hex text of any bytes holds hex digits only. */
  lemma {:induction false} Bytes2HexDigits(b: seq<Byte>)
    ensures IsHexText(Bytes2Hex(b))
  {
    if b != [] {
      Bytes2HexDigits(b[1..]);
      var s := Bytes2Hex(b);
      assert s == [HexChar(b[0] / 16), HexChar(b[0] % 16)] + Bytes2Hex(b[1..]);
    }
  }

  /** Forty hex digits, with or without a lower-case "0x" in front: the
      well-formed spelling of an address. */
  predicate IsAddressText(s: string)
  {
    var t := if Text.HasPrefix(s, "0x") then s[2..] else s;
    |t| == 2 * AddressLength && IsHexText(t)
  }

  // ---------------------------------------------------------------------
  // Round trips

  /** Decoding the hex text of a byte string gives the bytes back. */
  lemma {:induction false} Hex2BytesOfBytes2Hex(b: seq<Byte>)
    ensures Hex2Bytes(Bytes2Hex(b)) == b
  {
    if b != [] {
      var s := Bytes2Hex(b);
      assert s[2..] == Bytes2Hex(b[1..]);
      Hex2BytesOfBytes2Hex(b[1..]);
    }
  }

  /** Encoding the bytes of an even-length hex text gives the text back,
      in lower case. */
  lemma {:induction false} Bytes2HexOfHex2Bytes(s: string)
    requires |s| % 2 == 0 && IsHexText(s)
    ensures Bytes2Hex(Hex2Bytes(s)) == Text.ToLower(s)
    decreases |s|
  {
    if s != [] {
      var rest := s[2..];
      assert IsHexText(rest) by {
        forall k | 0 <= k < |rest| ensures IsHexDigit(rest[k]) {
          assert rest[k] == s[k + 2];
        }
      }
      Bytes2HexOfHex2Bytes(rest);
      LowerPairStep(s, rest, Text.ToLower(rest));
    }
  }

  /** One step of the round trip: the first digit pair comes back lower-cased. */
  lemma LowerPairStep(s: string, rest: string, lowRest: string)
    requires |s| >= 2 && IsHexDigit(s[0]) && IsHexDigit(s[1]) && rest == s[2..]
    requires lowRest == Text.ToLower(rest) && Bytes2Hex(Hex2Bytes(rest)) == lowRest
    ensures Bytes2Hex(Hex2Bytes(s)) == Text.ToLower(s)
  {
    Bytes2HexPairStep(s);
    LowerHexChar(s[0]);
    LowerHexChar(s[1]);
    Text.ToLowerPair(s);
  }

  lemma Bytes2HexPairStep(s: string)
    requires |s| >= 2 && IsHexDigit(s[0]) && IsHexDigit(s[1])
    ensures Bytes2Hex(Hex2Bytes(s)) ==
            [HexChar(HexValue(s[0])), HexChar(HexValue(s[1]))] + Bytes2Hex(Hex2Bytes(s[2..]))
  {
    var v := HexValue(s[0]) * 16 + HexValue(s[1]);
    assert v / 16 == HexValue(s[0]) && v % 16 == HexValue(s[1]);
    assert Hex2Bytes(s) == [v] + Hex2Bytes(s[2..]);
  }

  /** The lower-case digit of a hex character's value is its lower-case form. */
  lemma LowerHexChar(ch: char)
    requires IsHexDigit(ch)
    ensures HexChar(HexValue(ch)) == Text.LowerChar(ch)
  {
  }

  /** An address survives a trip through its hex text. */
  lemma HexToAddressOfAddressHex(a: Address)
    ensures HexToAddress(AddressHex(a)) == a
  {
    FromHexOfBytesHex(a);
  }

  /** Any bytes survive a trip through their "0x" hex text. */
  lemma FromHexOfBytesHex(b: seq<Byte>)
    ensures FromHex("0x" + Bytes2Hex(b)) == b
  {
    assert ("0x" + Bytes2Hex(b))[2..] == Bytes2Hex(b);
    Bytes2HexDigits(b);
    HexTextBytes(Bytes2Hex(b));
    Hex2BytesOfBytes2Hex(b);
  }

  /** The padding goes by bytes: "1é" is three bytes long, so it is padded
      to "01é", and the pair "01" decodes before the decoding stops. */
  lemma FromHexCountsBytes()
    ensures FromHex("1\U{E9}") == [0x01]
  {
    assert Text.Utf8Len("1\U{E9}") == 3 by {
      assert "1\U{E9}"[1..] == "\U{E9}";
      assert "\U{E9}"[1..] == "";
    }
    assert ("0" + "1\U{E9}")[2..] == "\U{E9}";
  }

  /** Hex digits are ASCII, one byte each. */
  lemma HexTextBytes(s: string)
    requires IsHexText(s)
    ensures Text.Utf8Len(s) == |s|
  {
    assert Text.IsAscii(s) by {
      forall k | 0 <= k < |s| ensures s[k] as int < 0x80 {
        assert IsHexDigit(s[k]);
      }
    }
  }

  /** A hash survives a trip through its hex text. */
  lemma HexToHashOfHashHex(h: Hash)
    ensures HexToHash("0x" + Bytes2Hex(h)) == h
  {
    FromHexOfBytesHex(h);
  }

  /** The hex text of the address read from a well-formed address text is
      that text, lower-cased and without its "0x". */
  lemma AddressHexOfHexToAddress(s: string)
    requires IsAddressText(s)
    ensures var t := if Text.HasPrefix(s, "0x") then s[2..] else s;
            Bytes2Hex(HexToAddress(s)) == Text.ToLower(t)
  {
    var t := if Text.HasPrefix(s, "0x") then s[2..] else s;
    FromHexOfAddressText(s);
    Hex2BytesLength(t);
    var b := Hex2Bytes(t);
    assert LastBytes(b, AddressLength) == b by {
      assert Zeros(0) + b == b;
    }
    Bytes2HexOfHex2Bytes(t);
  }

  lemma FromHexOfAddressText(s: string)
    requires IsAddressText(s)
    ensures FromHex(s) == Hex2Bytes(if Text.HasPrefix(s, "0x") then s[2..] else s)
  {
    if Text.HasPrefix(s, "0x") {
      assert s[..2] == "0x";
      assert s[0] == '0' && s[1] == 'x';
      assert |s[2..]| % 2 == 0;
      HexTextBytes(s[2..]);
    } else {
      assert IsHexDigit(s[1]);
      assert !Has0xPrefix(s);
      assert |s| % 2 == 0;
      HexTextBytes(s);
    }
  }

  /** A hex text decodes to half as many bytes. */
  lemma {:induction false} Hex2BytesLength(s: string)
    requires IsHexText(s)
    ensures |Hex2Bytes(s)| == |s| / 2
    decreases |s|
  {
    if |s| >= 2 {
      Hex2BytesLength(s[2..]);
    }
  }

  /** Text that does not start with a hex digit (after any "0x") decodes to
      no bytes, so it reads as the zero address or hash. */
  lemma {:induction false} FromHexOfNonHex(s: string)
    requires s != [] && !IsHexDigit(s[0]) && s[0] != '0'
    ensures FromHex(s) == []
  {
  }
}

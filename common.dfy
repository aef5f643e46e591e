/** CheckArguments: the length and sign checks the client applies to a
    transaction's sender, receiver, value and payload before building the
    call message. Only lengths are checked, never the characters. */
module Arguments {
  import Text
  import Hex

  /** The text with one leading lower-case "0x" removed, if it has one. */
  function Strip0x(s: string): (r: string)
    ensures Text.HasPrefix(s, "0x") ==> s == "0x" + r
    ensures !Text.HasPrefix(s, "0x") ==> r == s
  {
    if Text.HasPrefix(s, "0x") then
      assert s == s[..2] + s[2..];
      s[2..]
    else s
  }

  /** CheckArguments, branch for branch. Go's len counts the UTF-8 bytes
      of a string. The payload is whatever sequence the caller passes; only
      its emptiness matters. */
  predicate CheckArguments<T>(sender: string, receiver: string, value: int, payload: seq<T>)
  {
    var sender := Strip0x(sender);
    var receiver := Strip0x(receiver);
    if sender == "" || Text.Utf8Len(sender) != 40 then false
    else if receiver != "" && Text.Utf8Len(receiver) != 40 then false
    else if receiver == "" && |payload| == 0 then false
    else if value < 0 then false
    else true
  }

  /** The arguments pass exactly when the sender is forty bytes long after
      its "0x", the receiver forty or none, a missing receiver comes with a
      payload, and the value is not negative. */
  lemma CheckArgumentsMeaning<T>(sender: string, receiver: string, value: int, payload: seq<T>)
    ensures CheckArguments(sender, receiver, value, payload) <==>
            Text.Utf8Len(Strip0x(sender)) == 40 &&
            (Text.Utf8Len(Strip0x(receiver)) == 40 || (Strip0x(receiver) == "" && payload != [])) &&
            value >= 0
  {
  }

  /** Only a lower-case "0x" is removed: a sender spelled with "0X" is
      forty-two bytes long and fails. */
  lemma UpperPrefixKept<T>(sender: string, receiver: string, value: int, payload: seq<T>)
    requires |sender| == 42 && sender[..2] == "0X"
    ensures !CheckArguments(sender, receiver, value, payload)
  {
    assert !Text.HasPrefix(sender, "0x") by {
      assert sender[1] == "0X"[1];
    }
  }

  /** The characters are never inspected: forty arbitrary ASCII characters
      pass as a sender or receiver. */
  lemma CharactersUnchecked<T>(sender: string, receiver: string, value: int, payload: seq<T>)
    requires |sender| == 40 && |receiver| == 40 && value >= 0
    requires Text.IsAscii(sender) && Text.IsAscii(receiver)
    requires !Text.HasPrefix(sender, "0x") && !Text.HasPrefix(receiver, "0x")
    ensures CheckArguments(sender, receiver, value, payload)
  {
  }

  /** Bytes are counted, not characters: forty characters of which one is
      not ASCII are too long for a sender. */
  lemma NonAsciiTooLong<T>(sender: string, receiver: string, value: int, payload: seq<T>)
    requires |sender| == 40 && !Text.IsAscii(sender) && !Text.HasPrefix(sender, "0x")
    ensures !CheckArguments(sender, receiver, value, payload)
  {
  }

  /** Twenty two-byte characters make a forty-byte sender, which passes. */
  lemma TwoByteSender<T>(sender: string, receiver: string, value: int, payload: seq<T>)
    requires |sender| == 20 && forall k :: 0 <= k < |sender| ==> Text.RuneLen(sender[k]) == 2
    requires Text.IsAscii(receiver) && |receiver| == 40 && !Text.HasPrefix(receiver, "0x")
    requires value >= 0
    ensures CheckArguments(sender, receiver, value, payload)
  {
    assert !Text.HasPrefix(sender, "0x") by {
      assert Text.RuneLen(sender[0]) == 2;
    }
    Text.Utf8LenUniform(sender, 2);
  }

  /** The hex texts of two addresses always pass the length checks, so for
      them the check reduces to the sign of the value. */
  lemma CheckAddressesReducesToSign<T>(from: Hex.Address, to: Hex.Address, value: int, payload: seq<T>)
    ensures CheckArguments(Hex.AddressHex(from), Hex.AddressHex(to), value, payload) <==> value >= 0
  {
    HexAscii(from);
    HexAscii(to);
  }

  /** The hex text of an address, without its "0x", is forty ASCII digits,
      forty bytes. */
  lemma HexAscii(a: Hex.Address)
    ensures Text.Utf8Len(Strip0x(Hex.AddressHex(a))) == 40
  {
    var t := Strip0x(Hex.AddressHex(a));
    assert t == Hex.Bytes2Hex(a);
    Hex.Bytes2HexDigits(a);
    assert Text.IsAscii(t) by {
      forall k | 0 <= k < |t| ensures t[k] as int < 0x80 {
        assert Hex.IsHexDigit(t[k]);
      }
    }
  }
}

/** The macro examples of the repository's own test, checked against the
    model for any registry holding the RDN token with 18 decimals: a
    balance query and a transfer of 100 tokens. */
module MacroVectors {
  import opened Outcome
  import opened Hex
  import Text
  import Numbers
  import Abi
  import Macro

  /** The RDN token as the test expects it: its contract address and 18
      decimals. Its kind plays no part. */
  const Rdn := Macro.Token("0xe10f51424adbead82eb4b9ae72c29828dc24188f", "RDN", 18, "")

  /** A registry that maps "rdn" to the RDN token, whatever else it
      holds; the test's registry is one. */
  predicate HoldsRdn(p: Macro.MacroParser)
  {
    "rdn" in p.tokens && p.tokens["rdn"] == Rdn
  }

  /** The smallest such registry, built from a one-token list. */
  function RdnParser(): (p: Macro.MacroParser)
    ensures p.tokens == map["rdn" := Rdn] && HoldsRdn(p)
  {
    LowerRdn();
    assert [Rdn][..0] == [];
    assert Macro.TokenTable([Rdn]) == map[][Macro.KeyOf(Rdn) := Rdn];
    Macro.MacroParser(Macro.TokenTable([Rdn]))
  }

  /** `#BALANCEOF RDN <holder>` yields the RDN contract, the payload of
      `balanceOf(holder)` and 18 decimals. */
  lemma BalanceOfVector(p: Macro.MacroParser, holder: string, receiver: string)
    requires HoldsRdn(p)
    requires ' ' !in holder
    ensures Macro.Interpret(p, "#BALANCEOF RDN " + holder, receiver) ==
            Success(Macro.Invocation(HexToAddress(Rdn.address),
                                     Bytes2Hex(Abi.PackBalanceOf(HexToAddress(holder))), 18))
  {
    var input := "#BALANCEOF RDN " + holder;
    assert input == "#BALANCEOF" + " " + "RDN" + " " + holder;
    SplitThree("#BALANCEOF", "RDN", holder);
    Macro.InterpretIsDispatch(p, input, receiver);
    DispatchBalanceOf(p, holder, receiver);
  }

  lemma DispatchBalanceOf(p: Macro.MacroParser, holder: string, receiver: string)
    requires HoldsRdn(p)
    ensures Macro.Dispatch(p, ["#BALANCEOF", "RDN", holder], receiver) ==
            Success(Macro.Invocation(HexToAddress(Rdn.address),
                                     Bytes2Hex(Abi.PackBalanceOf(HexToAddress(holder))), 18))
  {
    var words := ["#BALANCEOF", "RDN", holder];
    assert words[0][1..] == "BALANCEOF" && words[0][..1] == "#";
    LowerBalanceOf();
    DispatchKeyword(p, words, receiver);
    assert words[1..] == ["RDN", holder];
    LowerRdn();
  }

  /** Dispatch on a known keyword hands the remaining words to its parser. */
  lemma DispatchKeyword(p: Macro.MacroParser, words: seq<string>, receiver: string)
    requires |words| >= 1 && Text.HasPrefix(words[0], "#")
    ensures var name := Text.ToLower(words[0][1..]);
            var t := Macro.ParseTransfer(p, words[1..], receiver);
            (name == Macro.MacroBalanceOf ==> Macro.Dispatch(p, words, receiver) == Macro.ParseBalanceOf(p, words[1..])) &&
            (name == Macro.MacroTransfer ==>
               Macro.Dispatch(p, words, receiver) ==
               (if t.Failure? then Failure(t.error) else Success(Macro.Invocation(t.value.0, t.value.1, 0))))
  {
  }

  /** `#TRANSFER RDN 100` yields the RDN contract, the payload of
      `transfer(receiver, 100 * 10^18)` and no decimals. */
  lemma TransferVector(p: Macro.MacroParser, receiver: string)
    requires HoldsRdn(p)
    ensures Macro.Interpret(p, "#TRANSFER RDN 100", receiver) ==
            Success(Macro.Invocation(HexToAddress(Rdn.address),
                                     Bytes2Hex(Abi.PackTransfer(HexToAddress(receiver), Macro.Units(100, 18))), 0))
  {
    var input := "#TRANSFER RDN 100";
    assert input == "#TRANSFER" + " " + "RDN" + " " + "100";
    SplitThree("#TRANSFER", "RDN", "100");
    Macro.InterpretIsDispatch(p, input, receiver);
    DispatchTransfer(p, receiver);
  }

  lemma DispatchTransfer(p: Macro.MacroParser, receiver: string)
    requires HoldsRdn(p)
    ensures Macro.Dispatch(p, ["#TRANSFER", "RDN", "100"], receiver) ==
            Success(Macro.Invocation(HexToAddress(Rdn.address),
                                     Bytes2Hex(Abi.PackTransfer(HexToAddress(receiver), Macro.Units(100, 18))), 0))
  {
    var words := ["#TRANSFER", "RDN", "100"];
    assert words[0][1..] == "TRANSFER" && words[0][..1] == "#";
    LowerTransfer();
    DispatchKeyword(p, words, receiver);
    assert words[1..] == ["RDN", "100"];
    TransferHundred(p, receiver);
  }

  lemma TransferHundred(p: Macro.MacroParser, receiver: string)
    requires HoldsRdn(p)
    ensures Macro.ParseTransfer(p, ["RDN", "100"], receiver) ==
            Success((HexToAddress(Rdn.address), Bytes2Hex(Abi.PackTransfer(HexToAddress(receiver), Macro.Units(100, 18)))))
  {
    LowerRdn();
    Hundred();
    assert !Text.HasSuffix("100", "%");
    Macro.TransferPlainAmount(p, "RDN", "100", receiver);
  }

  /** Three space-free words joined by single spaces split back apart. */
  lemma SplitThree(a: string, b: string, c: string)
    requires ' ' !in a && ' ' !in b && ' ' !in c
    ensures Macro.Words(a + " " + b + " " + c) == [a, b, c]
  {
    var parts := [a, b, c];
    assert Text.Join(parts, " ") == a + " " + b + " " + c by {
      assert parts[1..] == [b, c] && parts[1..][1..] == [c];
      assert Text.Join([c], " ") == c;
      assert Text.Join([b, c], " ") == b + " " + c;
      assert a + " " + (b + " " + c) == a + " " + b + " " + c;
    }
    assert forall k :: 0 <= k < |parts| ==> ' ' !in parts[k];
    Text.SplitJoin(parts, ' ');
  }

  lemma LowerTransfer()
    ensures Text.ToLower("TRANSFER") == "transfer"
  {
    var r := Text.ToLower("TRANSFER");
    assert r[0] == Text.LowerChar('T') == 't';
    assert r[1] == Text.LowerChar('R') == 'r';
    assert r[2] == Text.LowerChar('A') == 'a';
    assert r[3] == Text.LowerChar('N') == 'n';
    assert r[4] == Text.LowerChar('S') == 's';
    assert r[5] == Text.LowerChar('F') == 'f';
    assert r[6] == Text.LowerChar('E') == 'e';
    assert r[7] == Text.LowerChar('R') == 'r';
  }

  lemma LowerBalanceOf()
    ensures Text.ToLower("BALANCEOF") == "balanceof"
  {
    var r := Text.ToLower("BALANCEOF");
    assert r[0] == Text.LowerChar('B') == 'b';
    assert r[1] == Text.LowerChar('A') == 'a';
    assert r[2] == Text.LowerChar('L') == 'l';
    assert r[3] == Text.LowerChar('A') == 'a';
    assert r[4] == Text.LowerChar('N') == 'n';
    assert r[5] == Text.LowerChar('C') == 'c';
    assert r[6] == Text.LowerChar('E') == 'e';
    assert r[7] == Text.LowerChar('O') == 'o';
    assert r[8] == Text.LowerChar('F') == 'f';
  }

  lemma LowerRdn()
    ensures Text.ToLower("RDN") == "rdn"
  {
    var r := Text.ToLower("RDN");
    assert r[0] == Text.LowerChar('R') == 'r';
    assert r[1] == Text.LowerChar('D') == 'd';
    assert r[2] == Text.LowerChar('N') == 'n';
  }

  lemma Hundred()
    ensures Numbers.ParseInt("100") == Success(100)
  {
    assert Numbers.ScanUint("0", 10) == Success(100);
    assert Numbers.ScanUint("00", 1) == Success(100);
  }

  /** The last nine bytes of the word for 100 tokens of 18 decimals, the
      digits `056bc75e2d63100000` of the expected payload. */
  const AmountTail: seq<Byte> := [0x05, 0x6b, 0xc7, 0x5e, 0x2d, 0x63, 0x10, 0x00, 0x00]

  /** `#TRANSFER RDN 100` for a token with 18 decimals asks for
      100 * 10^18 units, whose word is 23 zero bytes and then AmountTail. */
  lemma AmountWordVector()
    ensures Abi.UintWord(Macro.Units(100, 18)) == Zeros(23) + AmountTail
  {
    var n := 100_000_000_000_000_000_000;
    assert Abi.UintWord(Macro.Units(100, 18)) == Abi.BigEndian(n, 32) by {
      Macro.Pow10Eighteen();
      assert Macro.Units(100, 18) == n;
      assert n % Abi.Two256 == n;
    }
    AmountBytes();
    assert n < Abi.Pow256(9) by {
      Abi.Pow256Add(4, 5);
      assert Abi.Pow256(4) == 0x1_0000_0000;
      assert Abi.Pow256(5) == 0x100_0000_0000;
    }
    BigEndianPadded(n, 32, 9);
  }

  lemma AmountBytes()
    ensures Abi.BigEndian(100_000_000_000_000_000_000, 9) == AmountTail
  {
    assert Abi.BigEndian(0x05, 1) == [0x05];
    assert Abi.BigEndian(0x56b, 2) == [0x05, 0x6b];
    assert Abi.BigEndian(0x56bc7, 3) == [0x05, 0x6b, 0xc7];
    assert Abi.BigEndian(0x56bc75e, 4) == [0x05, 0x6b, 0xc7, 0x5e];
    assert Abi.BigEndian(0x56bc75e2d, 5) == [0x05, 0x6b, 0xc7, 0x5e, 0x2d];
    assert Abi.BigEndian(0x56bc75e2d63, 6) == [0x05, 0x6b, 0xc7, 0x5e, 0x2d, 0x63];
    assert Abi.BigEndian(0x56bc75e2d6310, 7) == [0x05, 0x6b, 0xc7, 0x5e, 0x2d, 0x63, 0x10];
    assert Abi.BigEndian(0x56bc75e2d631000, 8) == [0x05, 0x6b, 0xc7, 0x5e, 0x2d, 0x63, 0x10, 0x00];
  }

  /** A number below 256^k written in `len >= k` bytes is zero-padded. */
  lemma {:induction false} BigEndianPadded(n: nat, len: nat, k: nat)
    requires k <= len && n < Abi.Pow256(k)
    ensures Abi.BigEndian(n, len) == Zeros(len - k) + Abi.BigEndian(n, k)
    decreases k
  {
    if k == 0 {
      BigEndianZero(len);
    } else {
      BigEndianPadded(n / 256, len - 1, k - 1);
    }
  }

  lemma {:induction false} BigEndianZero(len: nat)
    ensures Abi.BigEndian(0, len) == Zeros(len)
  {
    if len > 0 {
      BigEndianZero(len - 1);
    }
  }
}

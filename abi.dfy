/** Contract-call payloads of the two EIP-20 (ERC-20) functions the macro
    language reaches, laid out as the Solidity Contract ABI Specification
    describes: a 4-byte function selector followed by one 32-byte word per
    argument, an address right-aligned in its word and a uint256 in
    big-endian order. The selectors are the first four bytes of the
    Keccak-256 hashes of `transfer(address,uint256)` and
    `balanceOf(address)`, written here as constants. */
module Abi {
  import opened Hex
  import opened Outcome

  const TransferSelector: seq<Byte> := [0xa9, 0x05, 0x9c, 0xbb]
  const BalanceOfSelector: seq<Byte> := [0x70, 0xa0, 0x82, 0x31]

  const WordSize: nat := 32
  const Two256: int := 0x1_0000_0000_0000_0000_0000_0000_0000_0000_0000_0000_0000_0000_0000_0000_0000_0000

  /** The lowest `len` bytes of `n`, most significant first. */
  function BigEndian(n: nat, len: nat): (b: seq<Byte>)
    ensures |b| == len
  {
    if len == 0 then [] else BigEndian(n / 256, len - 1) + [n % 256]
  }

  /** The number a big-endian byte string denotes. */
  function FromBigEndian(b: seq<Byte>): nat
  {
    if b == [] then 0 else FromBigEndian(b[..|b| - 1]) * 256 + b[|b| - 1]
  }

  function Pow256(len: nat): (p: nat)
    ensures p > 0
  {
    if len == 0 then 1 else 256 * Pow256(len - 1)
  }

  /** A uint256 argument word. A negative number is taken modulo 2^256,
      that is, in two's complement. */
  function UintWord(n: int): (w: seq<Byte>)
    ensures |w| == WordSize
  {
    BigEndian(n % Two256, WordSize)
  }

  /** An address argument word: twelve zero bytes, then the address. */
  function AddressWord(a: Address): (w: seq<Byte>)
    ensures |w| == WordSize
  {
    Zeros(WordSize - AddressLength) + a
  }

  /** The payload of `transfer(to, amount)`. */
  function PackTransfer(to: Address, amount: int): (p: seq<Byte>)
    ensures |p| == 4 + 2 * WordSize
  {
    TransferSelector + AddressWord(to) + UintWord(amount)
  }

  /** The payload of `balanceOf(holder)`. */
  function PackBalanceOf(holder: Address): (p: seq<Byte>)
    ensures |p| == 4 + WordSize
  {
    BalanceOfSelector + AddressWord(holder)
  }

  /** A decoded call of one of the two functions. */
  datatype Call = Transfer(to: Address, amount: nat) | BalanceOf(holder: Address)

  /** The reference decoder: recognises a payload by its selector and length
      and reads the arguments back out of their words. */
  function Unpack(p: seq<Byte>): Option<Call>
  {
    if |p| == 4 + 2 * WordSize && p[..4] == TransferSelector && p[4..16] == Zeros(12) then
      Some(Transfer(p[16..36], FromBigEndian(p[36..68])))
    else if |p| == 4 + WordSize && p[..4] == BalanceOfSelector && p[4..16] == Zeros(12) then
      Some(BalanceOf(p[16..36]))
    else None
  }

  /** The encoding of a decoded call. */
  function Pack(c: Call): seq<Byte>
  {
    match c
    case Transfer(to, amount) => PackTransfer(to, amount)
    case BalanceOf(holder) => PackBalanceOf(holder)
  }

  // ---------------------------------------------------------------------
  // Properties

  /** Reading back the big-endian bytes of `n` gives `n` modulo 256^len. */
  lemma {:induction false} FromBigEndianOfBigEndian(n: nat, len: nat)
    ensures FromBigEndian(BigEndian(n, len)) == n % Pow256(len)
  {
    if len > 0 {
      var b := BigEndian(n, len);
      assert b[..len - 1] == BigEndian(n / 256, len - 1);
      FromBigEndianOfBigEndian(n / 256, len - 1);
      DivModStep(n, Pow256(len - 1));
    }
  }

  /** (n / 256) % p * 256 + n % 256 == n % (256 * p). */
  lemma DivModStep(n: nat, p: nat)
    requires p > 0
    ensures (n / 256) % p * 256 + n % 256 == n % (256 * p)
  {
    var q := (n / 256) / p;
    var r := (n / 256) % p;
    var m := n % 256;
    assert n / 256 == q * p + r;
    assert n == (n / 256) * 256 + m;
    calc {
      n;
      (q * p + r) * 256 + m;
      { MulAssoc(q, p); }
      q * (256 * p) + (r * 256 + m);
    }
    assert r * 256 + m < 256 * p by {
      assert r <= p - 1;
      MulMono(r, p - 1);
    }
    ModUnique(n, 256 * p, q, r * 256 + m);
  }

  lemma MulAssoc(q: int, p: int)
    ensures (q * p) * 256 == q * (256 * p)
  {
  }

  lemma MulMono(r: nat, s: nat)
    requires r <= s
    ensures r * 256 <= s * 256
  {
  }

  /** Euclidean division is determined by quotient and remainder. */
  lemma ModUnique(n: int, d: int, k: int, r: int)
    requires d > 0 && 0 <= r < d && n == k * d + r
    ensures n % d == r
  {
    var q := n / d;
    var m := n % d;
    assert n == q * d + m;
    assert (k - q) * d == m - r;
    if k - q > 0 {
      MulAtLeast(k - q, d);
    } else if k - q < 0 {
      MulAtLeast(q - k, d);
    }
  }

  lemma MulAtLeast(a: int, d: int)
    requires a >= 1 && d > 0
    ensures a * d >= d
  {
  }

  lemma {:induction false} Pow256Add(a: nat, b: nat)
    ensures Pow256(a + b) == Pow256(a) * Pow256(b)
    decreases a
  {
    if a > 0 {
      Pow256Add(a - 1, b);
    }
  }

  lemma Pow256Word()
    ensures Pow256(WordSize) == Two256
  {
    assert Pow256(1) == 0x100;
    assert Pow256(2) == 0x1_0000;
    Pow256Add(2, 2);
    assert Pow256(4) == 0x1_0000_0000;
    Pow256Add(4, 4);
    assert Pow256(8) == 0x1_0000_0000_0000_0000;
    Pow256Add(8, 8);
    assert Pow256(16) == 0x1_0000_0000_0000_0000_0000_0000_0000_0000;
    Pow256Add(16, 16);
  }

  /** A uint256 word holds its number modulo 2^256, so every number in
      [0, 2^256) is read back exactly. */
  lemma UintWordRoundTrip(n: int)
    ensures FromBigEndian(UintWord(n)) == n % Two256
    ensures 0 <= n < Two256 ==> FromBigEndian(UintWord(n)) == n
  {
    FromBigEndianOfBigEndian(n % Two256, WordSize);
    Pow256Word();
    ModUnique(n % Two256, Two256, 0, n % Two256);
    if 0 <= n < Two256 {
      ModUnique(n, Two256, 0, n);
    }
  }

  /** Decoding the payload of a transfer gives its receiver and amount
      (modulo 2^256). */
  lemma UnpackPackTransfer(to: Address, amount: int)
    ensures Unpack(PackTransfer(to, amount)) == Some(Transfer(to, amount % Two256))
  {
    var p := PackTransfer(to, amount);
    var head := TransferSelector + AddressWord(to);
    assert p == head + UintWord(amount) && |head| == 36;
    assert p[..4] == TransferSelector;
    assert p[4..16] == Zeros(12);
    assert p[16..36] == to;
    assert p[36..] == UintWord(amount);
    assert p[36..68] == p[36..];
    UintWordRoundTrip(amount);
  }

  /** Decoding the payload of a balance query gives its holder. */
  lemma UnpackPackBalanceOf(holder: Address)
    ensures Unpack(PackBalanceOf(holder)) == Some(BalanceOf(holder))
  {
    var p := PackBalanceOf(holder);
    assert p[..4] == BalanceOfSelector;
    assert p[4..16] == Zeros(12);
    assert p[16..36] == holder;
  }

  /** A payload the decoder accepts is exactly the encoding of what it
      decodes to: no two payloads decode to the same call. */
  lemma PackOfUnpack(p: seq<Byte>)
    requires Unpack(p).Some?
    ensures Pack(Unpack(p).value) == p
  {
    if |p| == 4 + 2 * WordSize && p[..4] == TransferSelector && p[4..16] == Zeros(12) {
      PackOfTransferPayload(p);
    } else {
      PackOfBalanceOfPayload(p);
    }
  }

  lemma PackOfBalanceOfPayload(p: seq<Byte>)
    requires |p| == 4 + WordSize && p[..4] == BalanceOfSelector && p[4..16] == Zeros(12)
    ensures PackBalanceOf(p[16..36]) == p
  {
    assert p == p[..4] + p[4..16] + p[16..36];
  }

  lemma PackOfTransferPayload(p: seq<Byte>)
    requires |p| == 4 + 2 * WordSize && p[..4] == TransferSelector && p[4..16] == Zeros(12)
    ensures PackTransfer(p[16..36], FromBigEndian(p[36..68])) == p
  {
    var word := p[36..68];
    var amount := FromBigEndian(word);
    BigEndianOfFromBigEndian(word);
    FromBigEndianBound(word);
    Pow256Word();
    ModUnique(amount, Two256, 0, amount);
    assert UintWord(amount) == word;
    assert p == p[..4] + p[4..16] + p[16..36] + word;
  }

  lemma {:induction false} FromBigEndianBound(b: seq<Byte>)
    ensures FromBigEndian(b) < Pow256(|b|)
  {
    if b != [] {
      FromBigEndianBound(b[..|b| - 1]);
    }
  }

  /** Writing out the number a byte string denotes gives the bytes back. */
  lemma {:induction false} BigEndianOfFromBigEndian(b: seq<Byte>)
    ensures BigEndian(FromBigEndian(b), |b|) == b
  {
    if b != [] {
      var init := b[..|b| - 1];
      var n := FromBigEndian(b);
      BigEndianOfFromBigEndian(init);
      assert n / 256 == FromBigEndian(init);
      assert n % 256 == b[|b| - 1];
      assert b == init + [b[|b| - 1]];
    }
  }
}

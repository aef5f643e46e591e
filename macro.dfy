/** The macro interpreter: a line such as `#TRANSFER RDN 100` or
    `#BALANCEOF RDN 0x8f09...` becomes the address of the token contract to
    call and the hex text of the call payload, looked up in a registry of
    tokens keyed by lower-cased symbol. */
module Macro {
  import opened Outcome
  import opened Hex
  import Text
  import Numbers
  import Abi

  const MacroTransfer: string := "transfer"
  const MacroBalanceOf: string := "balanceof"

  /** One entry of the token list: contract address text, symbol, number of
      decimals and kind. */
  datatype Token = Token(address: string, symbol: string, decimal: int, kind: string)

  /** How many arguments a macro keyword takes. */
  datatype MacroDef = MacroDef(argNumber: nat)

  /** A parser holds the token registry, keyed by lower-cased symbol. */
  datatype MacroParser = MacroParser(tokens: map<string, Token>)

  datatype MacroError =
    | InvalidMacroDefinition
    | InvalidMacroArgument
    | UndefinedMacro
    | UnrecognizableTokenSymbol
    | BadNumber(cause: Numbers.NumError)

  /** A resolved macro: the contract to call, the payload as lower-case hex
      without "0x", and the decimals the caller needs to read a balance. */
  datatype Invocation = Invocation(contract: Address, payload: string, decimal: int)

  /** The macro keywords and their arities. */
  function NewMacroSet(): (m: map<string, MacroDef>)
    ensures m.Keys == {MacroTransfer, MacroBalanceOf}
    ensures forall k :: k in m ==> m[k].argNumber == 2
  {
    map[MacroTransfer := MacroDef(2), MacroBalanceOf := MacroDef(2)]
  }

  // ---------------------------------------------------------------------
  // The token registry

  /** The registry a token list yields: each token under its lower-cased
      symbol, a later token replacing an earlier one with the same key. */
  function TokenTable(list: seq<Token>): map<string, Token>
  {
    if list == [] then map[]
    else TokenTable(list[..|list| - 1])[KeyOf(list[|list| - 1]) := list[|list| - 1]]
  }

  /** NewMacroParser, once the token list is read: fill the registry. */
  method NewMacroParser(list: seq<Token>) returns (p: MacroParser)
    ensures p.tokens == TokenTable(list)
  {
    var tokens: map<string, Token> := map[];
    for i := 0 to |list|
      invariant tokens == TokenTable(list[..i])
    {
      assert list[..i + 1][..i] == list[..i];
      tokens := tokens[KeyOf(list[i]) := list[i]];
    }
    assert list[..|list|] == list;
    p := MacroParser(tokens);
  }

  /** The registry key of a token: its lower-cased symbol. */
  function KeyOf(t: Token): string
  {
    Text.ToLower(t.symbol)
  }

  /** `j` is the last position of the list holding a token with key `key`. */
  predicate IsLastWithKey(list: seq<Token>, key: string, j: int)
  {
    0 <= j < |list| && KeyOf(list[j]) == key &&
    forall j' :: j < j' < |list| ==> KeyOf(list[j']) != key
  }

  /** Every token of the list is registered under its key. */
  lemma {:induction false} TokenTableHasEntry(list: seq<Token>, j: int)
    requires 0 <= j < |list|
    ensures KeyOf(list[j]) in TokenTable(list)
    decreases |list|
  {
    var n := |list| - 1;
    if j < n {
      assert list[..n][j] == list[j];
      TokenTableHasEntry(list[..n], j);
    }
  }

  /** Every registered key comes from some token of the list. */
  lemma {:induction false} TokenTableKeySource(list: seq<Token>, key: string)
    requires key in TokenTable(list)
    ensures exists j :: 0 <= j < |list| && KeyOf(list[j]) == key
    decreases |list|
  {
    var n := |list| - 1;
    if KeyOf(list[n]) != key {
      TokenTableKeySource(list[..n], key);
      var j :| 0 <= j < n && KeyOf(list[..n][j]) == key;
      assert KeyOf(list[j]) == key;
    }
  }

  /** The registry maps a key to the last token of the list with that key. */
  lemma {:induction false} TokenTableLastWins(list: seq<Token>, key: string, j: int)
    requires IsLastWithKey(list, key, j)
    ensures key in TokenTable(list) && TokenTable(list)[key] == list[j]
    decreases |list|
  {
    var n := |list| - 1;
    if j < n {
      assert KeyOf(list[n]) != key;
      assert IsLastWithKey(list[..n], key, j);
      TokenTableLastWins(list[..n], key, j);
    }
  }

  // ---------------------------------------------------------------------
  // Interpretation

  /** int64(math.Pow10(d)): 10^d, exact in a float64, while it fits in an
      int64, that is up to 18 decimals; 0 for negative d, whose power is
      below one and truncates to zero. Past 18 the float is out of the
      int64 range, and the conversion gives the platform's value for that
      case, which on amd64 is the smallest int64. */
  function Pow10Int64(d: int): (r: int)
    ensures Numbers.IsInt64(r)
    ensures 0 <= d <= 18 ==> r == Numbers.Pow10(d)
  {
    if d < 0 then 0
    else if d <= 18 then Pow10Bound(d); Numbers.Pow10(d)
    else Numbers.MinInt64
  }

  /** 10^d is an int64 up to 18 decimals. */
  lemma Pow10Bound(d: nat)
    requires d <= 18
    ensures Numbers.Pow10(d) <= Numbers.MaxInt64
  {
    Numbers.Pow10Mono(d, 18);
    Pow10Eighteen();
  }

  /** The amount argument of TRANSFER in the token's smallest unit. A
      trailing "%" asks for a share of the balance, which is not fetched:
      a numeric share gives 0. */
  function Amount(text: string, decimal: int): (r: Result<int, MacroError>)
    ensures r.Failure? ==> r.error.BadNumber?
  {
    if Text.HasSuffix(text, "%") then
      match Numbers.ParseFloat(text[..|text| - 1])
      case Failure(e) => Failure(BadNumber(e))
      case Success(_) => Success(0)
    else
      match Numbers.ParseInt(text)
      case Failure(e) => Failure(BadNumber(e))
      case Success(v) => Success(v * Pow10Int64(decimal))
  }

  /** parseTransfer: the token contract and the `transfer(receiver, amount)`
      payload. */
  function ParseTransfer(p: MacroParser, args: seq<string>, receiver: string): (r: Result<(Address, string), MacroError>)
    ensures r.Failure? ==> r.error.InvalidMacroArgument? || r.error.UnrecognizableTokenSymbol? || r.error.BadNumber?
    ensures r.Failure? ==> (r.error.InvalidMacroArgument? <==> |args| != 2)
    ensures |args| != 2 ==> r == Failure(InvalidMacroArgument)
  {
    if |args| != NewMacroSet()[MacroTransfer].argNumber then Failure(InvalidMacroArgument)
    else
      var key := Text.ToLower(args[0]);
      if key !in p.tokens then Failure(UnrecognizableTokenSymbol)
      else
        var token := p.tokens[key];
        match Amount(args[1], token.decimal)
        case Failure(e) => Failure(e)
        case Success(amount) =>
          Success((HexToAddress(token.address), Bytes2Hex(Abi.PackTransfer(HexToAddress(receiver), amount))))
  }

  /** parseBalanceOf: the token contract, the `balanceOf(holder)` payload
      and the token's decimals. */
  function ParseBalanceOf(p: MacroParser, args: seq<string>): (r: Result<Invocation, MacroError>)
    ensures r.Failure? ==> r.error == (if |args| != 2 then InvalidMacroArgument else UnrecognizableTokenSymbol)
    ensures r.Success? ==> |args| == 2 && Text.ToLower(args[0]) in p.tokens &&
                           r.value.decimal == p.tokens[Text.ToLower(args[0])].decimal
  {
    if |args| != NewMacroSet()[MacroBalanceOf].argNumber then Failure(InvalidMacroArgument)
    else
      var key := Text.ToLower(args[0]);
      if key !in p.tokens then Failure(UnrecognizableTokenSymbol)
      else
        var token := p.tokens[key];
        Success(Invocation(HexToAddress(token.address), Bytes2Hex(Abi.PackBalanceOf(HexToAddress(args[1]))), token.decimal))
  }

  /** Dispatch on the first word of an already split and trimmed macro. */
  function Dispatch(p: MacroParser, lines: seq<string>, receiver: string): Result<Invocation, MacroError>
  {
    if |lines| < 1 then Failure(InvalidMacroDefinition)
    else
      var keyword := lines[0];
      if !Text.HasPrefix(keyword, "#") then Failure(InvalidMacroDefinition)
      else
        var name := Text.ToLower(keyword[1..]);
        if name == MacroTransfer then
          match ParseTransfer(p, lines[1..], receiver)
          case Failure(e) => Failure(e)
          case Success((contract, payload)) => Success(Invocation(contract, payload, 0))
        else if name == MacroBalanceOf then ParseBalanceOf(p, lines[1..])
        else Failure(UndefinedMacro)
  }

  /** Every piece trimmed of spaces. */
  function TrimAll(pieces: seq<string>): (r: seq<string>)
    ensures |r| == |pieces|
  {
    seq(|pieces|, i requires 0 <= i < |pieces| => Text.Trim(pieces[i], ' '))
  }

  /** The pieces of a macro between single spaces; one more than there
      are spaces. */
  function Words(input: string): (w: seq<string>)
    ensures |w| == Text.Count(input, ' ') + 1
  {
    Text.SplitLength(input, ' ');
    Text.Split(input, ' ')
  }

  /** What Parse computes: the input split on single spaces, each word
      trimmed, then dispatched on the first word. The sender plays no part. */
  function Interpret(p: MacroParser, input: string, receiver: string): Result<Invocation, MacroError>
  {
    Dispatch(p, TrimAll(Words(input)), receiver)
  }

  /** The trimming loop of Parse: every word trimmed of spaces in place. */
  method TrimWords(pieces: seq<string>) returns (words: seq<string>)
    ensures words == TrimAll(pieces)
  {
    var lines := new string[|pieces|](i requires 0 <= i < |pieces| => pieces[i]);
    for idx := 0 to lines.Length
      invariant lines[..idx] == TrimAll(pieces)[..idx]
      invariant lines[idx..] == pieces[idx..]
    {
      lines[idx] := Text.Trim(lines[idx], ' ');
      assert lines[..idx + 1] == lines[..idx] + [lines[idx]];
    }
    words := lines[..];
  }

  /** MacroParser.Parse: split on spaces, trim the words, dispatch. */
  method Parse(p: MacroParser, input: string, sender: string, receiver: string) returns (r: Result<Invocation, MacroError>)
    ensures r == Interpret(p, input, receiver)
  {
    var words := TrimWords(Words(input));
    r := Dispatch(p, words, receiver);
  }

  // ---------------------------------------------------------------------
  // Properties of the interpreter

  /** The words of a macro: its pieces between single spaces. Trimming them
      changes nothing, since no piece holds a space. */
  lemma WordsAreUntrimmed(input: string)
    ensures TrimAll(Words(input)) == Words(input)
  {
    Text.SplitPiecesFree(input, ' ');
    TrimAllFree(Words(input));
  }

  lemma TrimAllFree(pieces: seq<string>)
    requires forall k :: 0 <= k < |pieces| ==> ' ' !in pieces[k]
    ensures TrimAll(pieces) == pieces
  {
    forall k | 0 <= k < |pieces| ensures TrimAll(pieces)[k] == pieces[k] {
      Text.TrimFree(pieces[k], ' ');
    }
  }

  predicate StartsWithHash(input: string)
  {
    |input| > 0 && input[0] == '#'
  }

  /** The first word starts with "#" exactly when the input does. */
  lemma FirstWordHash(input: string)
    ensures Text.HasPrefix(Words(input)[0], "#") <==> StartsWithHash(input)
  {
    var w := Words(input)[0];
    Text.SplitFirst(input, ' ');
    if StartsWithHash(input) {
      assert Text.IndexOf(input, ' ') > 0;
      assert w[..1] == "#";
    }
  }

  /** A macro is rejected as ill-defined exactly when it does not start
      with "#", the empty input included. */
  lemma DefinitionErrorIff(p: MacroParser, input: string, receiver: string)
    ensures Interpret(p, input, receiver) == Failure(InvalidMacroDefinition) <==> !StartsWithHash(input)
  {
    InterpretIsDispatch(p, input, receiver);
    DispatchDefinitionError(p, Words(input), receiver);
    FirstWordHash(input);
  }

  /** Dispatch reports an ill-defined macro only for a missing or
      "#"-less first word: every other path fails otherwise or succeeds. */
  lemma DispatchDefinitionError(p: MacroParser, lines: seq<string>, receiver: string)
    ensures Dispatch(p, lines, receiver) == Failure(InvalidMacroDefinition) <==>
            |lines| < 1 || !Text.HasPrefix(lines[0], "#")
  {
    if |lines| >= 1 && Text.HasPrefix(lines[0], "#") {
      var name := Text.ToLower(lines[0][1..]);
      if name == MacroTransfer {
        var t := ParseTransfer(p, lines[1..], receiver);
        assert Dispatch(p, lines, receiver) == if t.Failure? then Failure(t.error) else Success(Invocation(t.value.0, t.value.1, 0));
      } else if name == MacroBalanceOf {
        assert Dispatch(p, lines, receiver) == ParseBalanceOf(p, lines[1..]);
      }
    }
  }

  /** The keyword: the first word without its "#", lower-cased. */
  function Keyword(input: string): string
    requires StartsWithHash(input)
  {
    FirstWordHash(input);
    Text.ToLower(Words(input)[0][1..])
  }

  /** Parsing dispatches on the words exactly as split: trimming them has
      no effect. */
  lemma InterpretIsDispatch(p: MacroParser, input: string, receiver: string)
    ensures Interpret(p, input, receiver) == Dispatch(p, Words(input), receiver)
  {
    WordsAreUntrimmed(input);
  }

  /** A macro starting with "#" is undefined exactly when its keyword is
      neither "transfer" nor "balanceof", in any case; a bare "#" is one. */
  lemma UndefinedMacroIff(p: MacroParser, input: string, receiver: string)
    requires StartsWithHash(input)
    ensures Interpret(p, input, receiver) == Failure(UndefinedMacro) <==>
            Keyword(input) != MacroTransfer && Keyword(input) != MacroBalanceOf
  {
    InterpretIsDispatch(p, input, receiver);
    FirstWordHash(input);
    var w := Words(input);
    if Keyword(input) == MacroTransfer {
      var t := ParseTransfer(p, w[1..], receiver);
      assert Dispatch(p, w, receiver) == if t.Failure? then Failure(t.error) else Success(Invocation(t.value.0, t.value.1, 0));
    } else if Keyword(input) == MacroBalanceOf {
      assert Dispatch(p, w, receiver) == ParseBalanceOf(p, w[1..]);
    }
  }

  /** With a known keyword, the arguments are rejected exactly when the
      input does not hold exactly two spaces: every space separates a word,
      so repeated spaces yield empty words that count. Arity is decided
      before the symbol is looked up. */
  lemma ArityIff(p: MacroParser, input: string, receiver: string)
    requires StartsWithHash(input)
    requires Keyword(input) == MacroTransfer || Keyword(input) == MacroBalanceOf
    ensures Interpret(p, input, receiver) == Failure(InvalidMacroArgument) <==> Text.Count(input, ' ') != 2
  {
    InterpretIsDispatch(p, input, receiver);
    FirstWordHash(input);
    var w := Words(input);
    if Keyword(input) == MacroTransfer {
      var t := ParseTransfer(p, w[1..], receiver);
      assert Dispatch(p, w, receiver) == if t.Failure? then Failure(t.error) else Success(Invocation(t.value.0, t.value.1, 0));
    } else {
      assert Dispatch(p, w, receiver) == ParseBalanceOf(p, w[1..]);
    }
  }

  /** With a known keyword and two arguments, an unknown symbol is rejected,
      whatever the amount or holder. */
  lemma UnknownSymbol(p: MacroParser, input: string, receiver: string)
    requires StartsWithHash(input)
    requires Keyword(input) == MacroTransfer || Keyword(input) == MacroBalanceOf
    requires Text.Count(input, ' ') == 2
    ensures Interpret(p, input, receiver) == Failure(UnrecognizableTokenSymbol) <==>
            Text.ToLower(Words(input)[1]) !in p.tokens
  {
    InterpretIsDispatch(p, input, receiver);
    FirstWordHash(input);
    var w := Words(input);
    if Keyword(input) == MacroTransfer {
      var t := ParseTransfer(p, w[1..], receiver);
      assert Dispatch(p, w, receiver) == if t.Failure? then Failure(t.error) else Success(Invocation(t.value.0, t.value.1, 0));
      assert w[1..][0] == w[1];
    } else {
      assert Dispatch(p, w, receiver) == ParseBalanceOf(p, w[1..]);
      assert w[1..][0] == w[1];
    }
  }

  /** Symbols are matched without regard to case. */
  lemma SymbolCaseInsensitive(p: MacroParser, a: string, b: string, x: string, receiver: string)
    requires Text.ToLower(a) == Text.ToLower(b)
    ensures ParseTransfer(p, [a, x], receiver) == ParseTransfer(p, [b, x], receiver)
    ensures ParseBalanceOf(p, [a, x]) == ParseBalanceOf(p, [b, x])
  {
  }

  /** A plain amount `v` of a token with `d` decimals is paid out as
      `v * 10^d` smallest units, and the payload decodes to a transfer of
      exactly that many units to the receiver. */
  lemma TransferPlainAmount(p: MacroParser, symbol: string, amount: string, receiver: string)
    requires Text.ToLower(symbol) in p.tokens
    requires var d := p.tokens[Text.ToLower(symbol)].decimal; 0 <= d <= 18
    requires !Text.HasSuffix(amount, "%") && Numbers.ParseInt(amount).Success?
    requires Numbers.ParseInt(amount).value >= 0
    ensures var token := p.tokens[Text.ToLower(symbol)];
            var units := Units(Numbers.ParseInt(amount).value, token.decimal);
            ParseTransfer(p, [symbol, amount], receiver) ==
              Success((HexToAddress(token.address), Bytes2Hex(Abi.PackTransfer(HexToAddress(receiver), units)))) &&
            Abi.Unpack(Hex2Bytes(Bytes2Hex(Abi.PackTransfer(HexToAddress(receiver), units)))) ==
              Some(Abi.Transfer(HexToAddress(receiver), units))
  {
    var token := p.tokens[Text.ToLower(symbol)];
    var units := Units(Numbers.ParseInt(amount).value, token.decimal);
    PlainAmountUnits(amount, token.decimal);
    UnitsFit(Numbers.ParseInt(amount).value, token.decimal);
    TransferPayloadDecodes(HexToAddress(receiver), units);
  }

  /** A token registered with more than 18 decimals scales a plain amount
      by the out-of-range conversion's value, the smallest int64, instead
      of by 10^d. */
  lemma TransferWideDecimals(p: MacroParser, symbol: string, amount: string, receiver: string)
    requires Text.ToLower(symbol) in p.tokens && p.tokens[Text.ToLower(symbol)].decimal > 18
    requires !Text.HasSuffix(amount, "%") && Numbers.ParseInt(amount).Success?
    ensures var token := p.tokens[Text.ToLower(symbol)];
            ParseTransfer(p, [symbol, amount], receiver) ==
              Success((HexToAddress(token.address),
                       Bytes2Hex(Abi.PackTransfer(HexToAddress(receiver), Numbers.ParseInt(amount).value * Numbers.MinInt64))))
  {
  }

  /** A non-negative amount `v` of a token with `d` decimals, in the
      token's smallest unit. */
  function Units(v: nat, d: nat): nat
  {
    v * Numbers.Pow10(d)
  }

  /** A plain, non-negative amount is scaled by 10^d. */
  lemma PlainAmountUnits(amount: string, d: nat)
    requires d <= 18
    requires !Text.HasSuffix(amount, "%") && Numbers.ParseInt(amount).Success?
    requires Numbers.ParseInt(amount).value >= 0
    ensures Amount(amount, d) == Success(Units(Numbers.ParseInt(amount).value, d))
  {
  }

  /** The hex payload of a transfer of fewer than 2^256 units decodes to
      that transfer. */
  lemma TransferPayloadDecodes(to: Address, units: nat)
    requires units < Abi.Two256
    ensures Abi.Unpack(Hex2Bytes(Bytes2Hex(Abi.PackTransfer(to, units)))) == Some(Abi.Transfer(to, units))
  {
    Hex2BytesOfBytes2Hex(Abi.PackTransfer(to, units));
    Abi.UnpackPackTransfer(to, units);
  }

  /** An int64 amount scaled by at most 10^18 fits in a uint256 word. */
  lemma UnitsFit(v: nat, d: nat)
    requires v <= Numbers.MaxInt64 && d <= 18
    ensures Units(v, d) < Abi.Two256
  {
    Numbers.Pow10Mono(d, 18);
    Pow10Eighteen();
    MulBound(v, Numbers.Pow10(d), Numbers.MaxInt64, 1_000_000_000_000_000_000);
  }

  lemma Pow10Eighteen()
    ensures Numbers.Pow10(18) == 1_000_000_000_000_000_000
  {
    assert Numbers.Pow10(3) == 1000;
    Numbers.Pow10Add(3, 3);
    Numbers.Pow10Add(6, 3);
    Numbers.Pow10Add(9, 9);
  }

  lemma MulBound(a: nat, b: nat, x: nat, y: nat)
    requires a <= x && b <= y
    ensures a * b <= x * y
  {
    assert a * b <= x * b;
  }

  /** A percentage whose number parses asks for zero units; one whose
      number does not is rejected with ParseFloat's error: a syntax error
      exactly when the number is not float text, a range error for float
      text beyond every float64. */
  lemma TransferPercent(p: MacroParser, symbol: string, share: string, receiver: string)
    requires Text.ToLower(symbol) in p.tokens
    ensures var r := ParseTransfer(p, [symbol, share + "%"], receiver);
            var token := p.tokens[Text.ToLower(symbol)];
            if Numbers.ParseFloat(share).Success?
            then r == Success((HexToAddress(token.address), Bytes2Hex(Abi.PackTransfer(HexToAddress(receiver), 0))))
            else r == Failure(BadNumber(Numbers.ParseFloat(share).error))
    ensures ParseTransfer(p, [symbol, share + "%"], receiver) ==
              Failure(BadNumber(Numbers.NumError(Numbers.ParseFloatFn, share, Numbers.ErrSyntax)))
            <==> !Numbers.IsFloatText(share)
  {
    Numbers.ParseFloatSyntax(share);
    var t := share + "%";
    assert t[|t| - 1..] == "%";
    assert t[..|t| - 1] == share;
  }

  /** A plain amount that is not an int64 decimal is rejected with
      ParseInt's error. */
  lemma TransferBadAmount(p: MacroParser, symbol: string, amount: string, receiver: string)
    requires Text.ToLower(symbol) in p.tokens
    requires !Text.HasSuffix(amount, "%") && Numbers.ParseInt(amount).Failure?
    ensures ParseTransfer(p, [symbol, amount], receiver) == Failure(BadNumber(Numbers.ParseInt(amount).error))
  {
  }

  /** BALANCEOF yields the token contract, the payload of
      `balanceOf(holder)`, which decodes back to that holder, and the
      token's decimals. */
  lemma BalanceOfResult(p: MacroParser, symbol: string, holder: string)
    requires Text.ToLower(symbol) in p.tokens
    ensures var token := p.tokens[Text.ToLower(symbol)];
            var r := ParseBalanceOf(p, [symbol, holder]);
            r == Success(Invocation(HexToAddress(token.address), r.value.payload, token.decimal)) &&
            Abi.Unpack(Hex2Bytes(r.value.payload)) == Some(Abi.BalanceOf(HexToAddress(holder)))
  {
    Hex2BytesOfBytes2Hex(Abi.PackBalanceOf(HexToAddress(holder)));
    Abi.UnpackPackBalanceOf(HexToAddress(holder));
  }
}

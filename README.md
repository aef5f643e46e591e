# ethclient core, modelled in Dafny

This project models the deterministic core of `ethclient`, a command-line Ethereum client
written in Go, and proves properties of that model. The core has five parts.

- **Macros** (`macro.go`). A line such as `#TRANSFER RDN 100` or `#BALANCEOF RDN 0x…` is
  split on single spaces, each word is trimmed, and the keyword is matched without regard to
  case. The token symbol is looked up in a registry built from a token list, keyed by the
  lower-cased symbol, where the last token with a given key wins. The result is the token's
  contract address, the ERC-20 call payload as lower-case hex, and (for `BALANCEOF`) the
  token's decimals.
- **Batch files, current revision** (`rw.go`). A text file holds one transaction per line
  with comma-separated fields. A spreadsheet holds one transaction per row after a header
  row. A record has at least five fields: sender, receiver, value, payload and passphrase,
  and the first five are trimmed of spaces. The payload stays text. An optional sixth field,
  read without trimming, is the transaction hash. There are also:
  - a line writer that annotates a numbered line with `", " + value` and writes the file back;
  - a cell writer for spreadsheets;
  - the reader/writer pairs that delegate to them.
- **Batch files, older revision** (`reader.go`). A record has exactly five fields, all
  trimmed, and the payload is decoded from hex into bytes.
- **Argument check** (`common.go`, `CheckArguments`). After one leading lower-case `0x` is
  removed, the sender must be 40 bytes long in UTF-8, which Go's `len` counts. The receiver
  must be empty or 40 bytes long. An empty receiver needs a payload. The value must not be negative.
- **Sending** (`send_transaction.go`). The client asks the node for four things in order:
  the gas estimate, the gas price, the pending nonce and the network id. It then builds the
  transaction, has the keystore sign it with a passphrase, submits it, and waits for the
  receipt when asked to. `SendBatch` reads every entry of a batch file and selects a window
  `[begin, end)`, where an `end` of 0 means all entries. It stops at the first entry that
  fails the argument check. Every other entry is sent without waiting, and a failed send is
  only logged.

The node and the keystore form one oracle: a function from the requests made so far and the
next request to a reply. The `Send.Backend` class holds the oracle and the log of requests
the client has made. Every sending operation is a method that appends to that log. Its
contract equals the method's result and new log to a specification function of the old log
(`Send.Fetch`, `Send.Sent`, `Send.SendAll`, `Send.Batch`), and the lemmas prove what the
source promises about those functions.

The readers are classes whose cursor moves as the source's scanner or row index does. The
in-place trimming loops of `parseLine`, `parseRow` and `Parse` work on arrays. The payloads
are byte sequences: the model writes out the ERC-20 `transfer`/`balanceOf` encoding, a
4-byte selector followed by 32-byte words, and proves its decoder round trips. The test
vectors of `macro_test.go` are proved for the `RDN` token of the test registry.

Modules, one per file:
- `Outcome`: the Result and Option types.
- `Text`: Go `strings` operations.
- `Numbers`: `strconv.ParseInt`, `Atoi`, and when `strconv.ParseFloat` fails and with which error.
- `Hex`: `Bytes2Hex`, `Hex2Bytes`, `FromHex`, `HexToAddress`, `HexToHash` and `Address.Hex`.
- `Abi`: the ERC-20 payloads.
- `Macro` and `MacroVectors`: the macro parser and its test vectors.
- `Arguments`: `CheckArguments`.
- `BatchRW`: `rw.go`.
- `LegacyBatch`: `reader.go`.
- `Send`: `send_transaction.go`.

Batch sending works on the older revision's records. `ethereum.CallMsg.Data` takes the entry's
payload bytes, and only `reader.go`'s records hold bytes.

## Model

| member | source | states |
|---|---|---|
| Macro.NewMacroSet | macro.go:141-150 | The macro set has exactly the keywords `transfer` and `balanceof`, each taking two arguments. |
| Macro.NewMacroParser | macro.go:157-173 | The registry the loop builds is `TokenTable` of the token list. |
| Macro.TokenTableHasEntry | macro.go:164-166 | Every token of the list is registered under its lower-cased symbol. |
| Macro.TokenTableKeySource | macro.go:164-166 | Every registered key is the lower-cased symbol of some token of the list. |
| Macro.TokenTableLastWins | macro.go:164-166 | A key maps to the last token of the list with that key. |
| Macro.Pow10Int64 | macro.go:238 | `int64(math.Pow10(d))` is always an int64: 10^d for 0 <= d <= 18, 0 for negative d (a fraction truncated), and the least int64 past 18, the value an out-of-range conversion gives on amd64. |
| Macro.Amount | macro.go:224-239 | The amount of a transfer is either a number or a failure, and every failure is a number-syntax or number-range error. |
| Macro.ParseTransfer | macro.go:206-250 | Any argument count other than two fails with the argument error, and a failure is that error exactly when the count is wrong. Any other failure is an unknown symbol or a bad number. |
| Macro.ParseBalanceOf | macro.go:257-283 | A balance query fails with a wrong argument count exactly when there are not two arguments, and otherwise only with an unknown symbol. On success there are two arguments, the symbol is registered, and the result is the token's contract, the `balanceOf(holder)` payload and the token's decimals. |
| Macro.TrimWords | macro.go:178-180 | The in-place loop trims every word: the result is `TrimAll` of the pieces. |
| Macro.Parse | macro.go:176-199 | The method computes `Interpret`: split on single spaces, trim, then dispatch on the keyword. |
| Macro.WordsAreUntrimmed | macro.go:177-180 | Pieces split on single spaces hold no space, so trimming them changes nothing. |
| Macro.FirstWordHash | macro.go:186-189 | The first word starts with `#` exactly when the input does. |
| Macro.DefinitionErrorIff | macro.go:182-189 | A macro is rejected as an invalid definition exactly when it does not start with `#`. |
| Macro.DispatchDefinitionError | macro.go:182-189 | Dispatch reports an invalid definition exactly for an empty word list or a first word without `#`. |
| Macro.InterpretIsDispatch | macro.go:176-190 | Parsing dispatches on the words exactly as split. |
| Macro.UndefinedMacroIff | macro.go:190-198 | A macro starting with `#` is undefined exactly when its lower-cased keyword is neither `transfer` nor `balanceof`. |
| Macro.ArityIff | macro.go:213-215 | With a known keyword, the macro is rejected for its arguments exactly when the input does not have two spaces. |
| Macro.UnknownSymbol | macro.go:216-222 | With a known keyword and two arguments, the macro is rejected for its symbol exactly when the lower-cased symbol is not registered. |
| Macro.SymbolCaseInsensitive | macro.go:217 | Two symbols that lower-case alike give the same transfer and the same balance query. |
| Macro.TransferPlainAmount | macro.go:232-249 | A plain non-negative amount `v` of a token with `d` decimals, 0 <= d <= 18, gives the token's contract and the payload of `transfer(receiver, v * 10^d)`, which decodes back to that receiver and amount. |
| Macro.PlainAmountUnits | macro.go:232-238 | A plain non-negative amount is scaled by 10^d. |
| Macro.TransferPayloadDecodes | macro.go:245-249 | The hex payload of a transfer of fewer than 2^256 units decodes back to that receiver and amount. |
| Macro.UnitsFit | macro.go:237-238 | An int64 amount scaled by at most 10^18 fits in a uint256 word. |
| Macro.TransferPercent | macro.go:224-231 | A percentage whose number parses as a float asks for zero units. One whose number does not fails with the float parse's own error, and that error is a syntax error exactly when the number is not float text. |
| Macro.TransferWideDecimals | macro.go:232-249 | For a token with more than 18 decimals, a plain amount is multiplied by the least int64, the converted 10^d, and the transfer carries that product, which `big.Int` does not wrap. |
| Macro.TransferBadAmount | macro.go:233-236 | A plain amount that is not an int64 decimal is rejected with that parse error. |
| Macro.BalanceOfResult | macro.go:266-282 | `BALANCEOF` yields the token's contract, the payload of `balanceOf(holder)` and the token's decimals. |
| MacroVectors.RdnParser | macro_test.go:63-64 | A registry built from a list holding only the RDN token the test expects (its address, 18 decimals) maps `rdn` to it, so the vectors below apply to at least one registry. |
| MacroVectors.BalanceOfVector | macro_test.go:59-66 | For any registry mapping `rdn` to the RDN token, whatever else it holds, `#BALANCEOF RDN <holder>` yields the RDN contract, the `balanceOf(holder)` payload and 18 decimals. |
| MacroVectors.TransferVector | macro_test.go:68-76 | For any registry mapping `rdn` to the RDN token, whatever else it holds, `#TRANSFER RDN 100` yields the RDN contract and the payload of `transfer(receiver, 100 * 10^18)`, with decimals 0. |
| MacroVectors.AmountWordVector | macro_test.go:74 | The amount word of that transfer is 23 zero bytes followed by `05 6b c7 5e 2d 63 10 00 00`, the tail of the expected payload. |
| MacroVectors.SplitThree | macro.go:177 | Three space-free words joined by single spaces split back into those three words. |
| Abi.UintWordRoundTrip | macro.go:245 | A uint256 word holds its number modulo 2^256, so every number below 2^256 is read back unchanged. |
| Abi.UnpackPackTransfer | macro.go:245 | Decoding a `transfer` payload gives its receiver and its amount modulo 2^256. |
| Abi.UnpackPackBalanceOf | macro.go:278 | Decoding a `balanceOf` payload gives its holder. |
| Abi.PackOfUnpack | macro.go:245-249 | A payload the decoder accepts is exactly the encoding of what it decodes to. |
| Abi.FromBigEndianOfBigEndian | macro.go:245 | Reading back the big-endian bytes of `n` in `len` bytes gives `n` modulo 256^len. |
| Abi.BigEndianOfFromBigEndian | macro.go:245 | Writing out the number a byte string denotes gives the bytes back. |
| Hex.Hex2BytesOfBytes2Hex | macro.go:249 | Decoding the hex text of any bytes gives the bytes back. |
| Hex.Bytes2HexOfHex2Bytes | macro.go:249 | Encoding the bytes of an even-length hex text gives the text back, lower-cased. |
| Hex.HexToAddressOfAddressHex | send_transaction.go:154 | An address survives a trip through its `0x` hex text. |
| Hex.FromHexOfBytesHex | reader.go:221 | Any bytes survive a trip through their `0x` hex text. |
| Hex.HexToHashOfHashHex | rw.go:313 | A hash survives a trip through its `0x` hex text. |
| Hex.AddressHexOfHexToAddress | send_transaction.go:84-86 | The hex text of the address read from a well-formed address text is that text, lower-cased, with `0x` in front. |
| Hex.Hex2BytesLength | reader.go:221 | A hex text decodes to half as many bytes. |
| Hex.Bytes2HexDigits | macro.go:249 | The hex text of any bytes holds hex digits only. |
| Hex.FromHexOfNonHex | reader.go:221 | A text that does not start with a hex digit or `0` decodes to no bytes. |
| Hex.FromHexCountsBytes | reader.go:221 | The padding of an odd-length text goes by its UTF-8 byte length: `1é`, three bytes, is padded to `01é` and decodes to the byte 01. |
| Numbers.ParseInt | rw.go:299 | A parsed value is an int64. An error names `ParseInt` and the text it was given. |
| Numbers.ParseIntMeaning | rw.go:299-303 | `ParseInt` succeeds exactly on an optionally signed decimal whose value is an int64, and the result is that value. |
| Numbers.FormatParseInt | rw.go:299 | Every int64 survives a trip through its decimal text. |
| Numbers.Atoi | rw.go:342-345 | `Atoi` succeeds exactly when `ParseInt` does, with the same value. |
| Numbers.ParseFloatSyntax | macro.go:225-228 | The float parse fails with a syntax error exactly when the text is not float text: an optionally signed mantissa of digits with at most one point and at least one digit, then optionally `e` or `E`, a sign and at least one digit; or `inf`, `infinity` or `nan` in any case, the first two optionally signed. A range error only ever happens on float text. |
| Numbers.SpecialMeaning | macro.go:225-228 | The special-value test accepts exactly `nan`, `inf`, `infinity`, `+inf`, `+infinity`, `-inf` and `-infinity`, in any case. |
| Numbers.ReadUnsignedMeaning | macro.go:225-228 | The character scan accepts an unsigned text exactly when it is a mantissa, optionally followed by an exponent. |
| Numbers.IntegerTextIsFloat | macro.go:225-236 | Every text `ParseInt` accepts, `ParseFloat` accepts as well. |
| Numbers.ExponentRangeError | macro.go:225-228 | Digits of non-zero value, `e` and an exponent of at least 309 are a range error: the value is past every float64. |
| Numbers.RangeErrorExample | macro.go:225-228 | `1e400` is a range error. |
| Text.JoinSplit | rw.go:332-356 | Joining the pieces of a split with the separator gives the text back. |
| Text.SplitJoin | macro.go:177 | Splitting a join of separator-free pieces gives the pieces back. |
| Text.SplitLength | rw.go:290-291 | A split yields one piece more than there are separators. |
| Text.SplitPiecesFree | rw.go:290 | No piece of a split holds the separator. |
| Text.ScanLinesOfLines | rw.go:276-277 | Lines each ended by a newline are scanned back as those lines. |
| Text.Utf8Len | common.go:102-106 | Go's byte length of a string is never below its number of characters, and equals it exactly when every character is ASCII. |
| Arguments.CheckArgumentsMeaning | common.go:95-115 | The arguments pass exactly when, after one leading lower-case `0x` is removed, the sender is 40 bytes long, the receiver 0 or 40, an empty receiver comes with a payload, and the value is not negative. |
| Arguments.UpperPrefixKept | common.go:96-104 | An upper-case `0X` is not removed, so a 42-character sender spelled with it fails. |
| Arguments.CharactersUnchecked | common.go:102-115 | Only lengths are checked: any 40 ASCII characters pass as sender and receiver. |
| Arguments.NonAsciiTooLong | common.go:102-104 | Bytes are counted: 40 characters of which one is not ASCII are too long for a sender. |
| Arguments.TwoByteSender | common.go:102-115 | Twenty two-byte characters are a 40-byte sender, which passes. |
| Arguments.CheckAddressesReducesToSign | common.go:95-115 | For the hex texts of two addresses, the check passes exactly when the value is not negative. |
| BatchRW.Required | rw.go:295-298 | The required fields are the first five, each trimmed. |
| BatchRW.BuildHash | rw.go:299-315 | The hash text plays no part in whether a record builds, nor in any field but the hash. |
| BatchRW.TrimRequired | rw.go:295-298 | The in-place loop trims the first five fields and leaves the others as they were. |
| BatchRW.ParseLine | rw.go:289-316 | A line parses to `RecordOf` of its comma-separated fields: the first five trimmed, the sixth, if any, decoded as written. |
| BatchRW.ParseRow | rw.go:136-161 | A row parses to `RecordOf` of its cells: the first five trimmed, the sixth, if any, decoded as written. |
| BatchRW.RecordErrors | rw.go:291-303 | A record is invalid content exactly when it has fewer than five fields. Any other failure is the value's parse error. |
| BatchRW.RecordFields | rw.go:304-314 | A parsed record takes the fields positionally: the addresses and the value from the first three trimmed fields, the payload and the passphrase as trimmed text, and the hash from the sixth field exactly as written, untrimmed, or zero without one. |
| BatchRW.RecordTrimmedAgrees | rw.go:291-314 | The corrected reading, which trims the sixth field, accepts exactly the fields the source accepts, fails with the same error, and reads the same record except for the hash; with a sixth field that has no comma and no space at either end, it reads the same record. |
| BatchRW.ExtraFieldsIgnored | rw.go:312-314 | Fields past the sixth play no part. |
| BatchRW.SameRequiredFields | rw.go:295-314 | Two field lists that agree on the first five fields give the same outcome, and the same record up to the hash. |
| BatchRW.KeptConcat | rw.go:276-282 | For any record parser, keeping the records that parse works record by record over a concatenation. The older revision's readers (reader.go:189-195) use the same definition with their own parser. |
| BatchRW.KeptStep | rw.go:276-282 | For any record parser, extending the window by one record appends that record when it parses. |
| BatchRW.FormatLineRoundTrip | rw.go:289-316 | A transaction written as a line of five plain fields reads back as that transaction with a zero hash. |
| BatchRW.HexTextPlain | rw.go:297 | The `0x` hex text of any bytes has no comma and no space. |
| BatchRW.RawTextReader.constructor | rw.go:239-249 | A new reader has a scanner over the file's lines and is at the first line. |
| BatchRW.RawTextReader.WithoutScanner | rw.go:234-237 | The zero reader has no scanner. |
| BatchRW.RawTextReader.Read | rw.go:252-265 | Without a scanner, `Read` fails with an empty scanner. Otherwise it returns the next line's record and moves on, or EOF at the end. |
| BatchRW.RawTextReader.ReadAll | rw.go:268-287 | Without a scanner, `ReadAll` fails. Otherwise it returns the records of every remaining line that parses, in file order, and consumes all lines. |
| BatchRW.ExcelReader.Read | rw.go:109-120 | `Read` fails on an empty sheet. Otherwise the cursor moves on and the result is EOF while rows remain, or an index-out-of-range error past them. It never yields a record. |
| BatchRW.ExcelReader.ReadAll | rw.go:122-134 | `ReadAll` fails on an empty sheet. Otherwise it returns the records of every row after the header that parses, in order. |
| BatchRW.AnnotateMeaning | rw.go:341-353 | An annotation succeeds exactly on a decimal line number within the buffer. It keeps the number of lines and changes only that line, which gains `", "` and the value. A bad number gives the `Atoi` error. |
| BatchRW.AnnotatedFields | rw.go:350 | A line annotated with a comma-free value has one field more: a space, then the value. |
| BatchRW.AnnotatedHashRead | rw.go:312-314 | With the sixth field trimmed, a five-field line annotated with a hash's hex text reads back as the same transaction carrying that hash. |
| BatchRW.AnnotatedHashLostAsWritten | rw.go:312-314 | As written, the untrimmed sixth field of an annotated line decodes to zero, whatever was written. |
| BatchRW.AnnotatedHashLostExample | rw.go:312-314 | As written, the all-ones hash written into a line reads back as something else. |
| BatchRW.SixthFieldAsWritten | rw.go:312-314 | As written, a sixth field is read untrimmed as the hash. |
| BatchRW.SpacedHexIsEmpty | rw.go:313 | A text that starts with a space decodes to no bytes and to the zero hash. |
| BatchRW.RawTextWriter.constructor | rw.go:323-337 | The writer's buffer holds the file split on newlines. |
| BatchRW.RawTextWriter.WriteString | rw.go:341-353 | `WriteString` annotates the buffer as `Annotate` says, and leaves it unchanged on an error. |
| BatchRW.RawTextWriter.Flush | rw.go:355-358 | `Flush` writes the buffer's lines joined by newlines. |
| BatchRW.FlushUnchanged | rw.go:332-356 | Without annotations, writing the buffer back reproduces the file. |
| BatchRW.ExcelWriter.WriteString | rw.go:181-184 | `WriteString` sets the named cell and succeeds. |
| BatchRW.ExcelWriter.Flush | rw.go:186-188 | `Flush` saves the cells written. |
| BatchRW.ExcelRWriter.constructor | rw.go:195-209 | The pair holds a fresh sheet reader and a fresh sheet writer over the same sheet. |
| BatchRW.ExcelRWriter.Read | rw.go:211-213 | `Read` behaves as the sheet reader's `Read`. |
| BatchRW.ExcelRWriter.ReadAll | rw.go:215-217 | `ReadAll` behaves as the sheet reader's `ReadAll`. |
| BatchRW.ExcelRWriter.WriteString | rw.go:219-221 | `WriteString` behaves as the sheet writer's `WriteString`. |
| BatchRW.ExcelRWriter.Flush | rw.go:223-225 | `Flush` behaves as the sheet writer's `Flush`. |
| BatchRW.RawTextRWriter.constructor | rw.go:365-378 | The pair holds a fresh line reader and a fresh line writer over the same content. |
| BatchRW.RawTextRWriter.Read | rw.go:380-382 | `Read` behaves as the line reader's `Read`. |
| BatchRW.RawTextRWriter.ReadAll | rw.go:384-386 | `ReadAll` behaves as the line reader's `ReadAll`. |
| BatchRW.RawTextRWriter.WriteString | rw.go:388-390 | `WriteString` behaves as the line writer's `WriteString`. |
| BatchRW.RawTextRWriter.Flush | rw.go:392-394 | `Flush` behaves as the line writer's `Flush`. |
| LegacyBatch.RecordOf | reader.go:202-224 | Any field count other than five is invalid content, before the value is read. A parsed record has five fields and an int64 value, and any other failure is the value's parse error. |
| LegacyBatch.ParseLine | reader.go:202-224 | A line parses to `RecordOf` of its comma-separated fields. |
| LegacyBatch.ParseRow | reader.go:118-138 | A row parses to `RecordOf` of its cells. |
| LegacyBatch.RecordFields | reader.go:208-223 | A parsed record takes the five trimmed fields positionally, and its payload is the hex decoding of the fourth. |
| LegacyBatch.RevisionsAgree | reader.go:202-224 | On five fields the two revisions accept the same lines and read the same transaction, except that the older one decodes the payload. |
| LegacyBatch.AnnotatedLineRejected | reader.go:204-207 | A line annotated by the newer writer has six fields, so the older revision rejects it. |
| LegacyBatch.FormatLineRoundTrip | reader.go:202-224 | A transaction written as a line with its payload as `0x` hex reads back as that transaction. |
| LegacyBatch.FormatLineRecord | reader.go:217-223 | A formatted line reads back with its payload text decoded. |
| LegacyBatch.RawTextReader.Read | reader.go:165-178 | Without a scanner, `Read` fails with an empty scanner. Otherwise it returns the next line's record and moves on, or EOF at the end. |
| LegacyBatch.RawTextReader.ReadAll | reader.go:181-200 | Without a scanner, `ReadAll` fails. Otherwise it returns the records of every remaining line that parses, in file order. |
| LegacyBatch.ExcelReader.Read | reader.go:91-102 | `Read` fails on an empty sheet. Otherwise it moves on and gives EOF, or an index-out-of-range error. It never yields a record. |
| LegacyBatch.ExcelReader.ReadAll | reader.go:104-116 | `ReadAll` fails on an empty sheet. Otherwise it returns the records of every row after the header that parses. |
| Send.Backend.Call | send_transaction.go:214-235 | One request is appended to the log and answered by the oracle given the requests before it. |
| Send.Ask | send_transaction.go:211-241 | Asking a list of requests stops at the first failure. Without a failure every request is answered. |
| Send.AskStops | send_transaction.go:211-241 | Each answer is the reply to its request after the ones before it. The log holds every request up to and including a failing one, and none after it. |
| Send.AskAnswers | send_transaction.go:211-241 | Each answer is the reply to its request, made after the requests before it. |
| Send.AskLog | send_transaction.go:211-241 | The log grows by the requests made, up to and including a failing one. |
| Send.FetchQueries | send_transaction.go:214-235 | `fetchParams` asks four questions. |
| Send.FetchOrder | send_transaction.go:211-241 | `fetchParams` asks for gas limit, gas price, nonce and chain id in that order, stopping at the first failure. It succeeds exactly when all four are answered, and the parameters are the four answers. |
| Send.FetchParams | send_transaction.go:211-241 | The method's result and log are those of `Fetch`. |
| Send.FetchLog | send_transaction.go:214-235 | After `fetchParams` the log starts with the gas estimate for the message, followed only by price, nonce and chain-id questions. |
| Send.SendTx | send_transaction.go:175-208 | The method's result and log are those of `Sent`. |
| Send.SentStages | send_transaction.go:176-194 | `sendTransaction` signs only after all four parameters are fetched, submits what was signed, and succeeds exactly when the submission is accepted. A fetch or signing failure is returned as is. |
| Send.SentTail | send_transaction.go:185-206 | After fetching, the log gains a signature request as the sender with the passphrase, a submission, and a wait only when asked. |
| Send.SentLog | send_transaction.go:175-208 | One send logs exactly one gas estimate, for its own message, first. Every signature request is as the sender with the given passphrase. There is no wait unless asked for. |
| Send.SendOne | send_transaction.go:73-102 | Arguments that fail the check give `InvalidArguments` and nothing is sent. Otherwise the message from the decoded addresses, value and hex payload is sent as `Sent` says, waiting when `sync` is set. |
| Send.FirstInvalid | send_transaction.go:152-156 | The index of the first invalid entry is at most the number of entries. |
| Send.FirstInvalidMeaning | send_transaction.go:152-156 | Every entry before `FirstInvalid` passes the check, and the entry at it fails. |
| Send.ValidMeaning | send_transaction.go:154 | A batch entry passes the argument check exactly when its value is not negative. |
| Send.SendAllOutcome | send_transaction.go:152-171 | The batch loop succeeds exactly when no entry has a negative value, however the sends fare. Otherwise it fails with `InvalidArguments`. |
| Send.MsgsMeaning | send_transaction.go:157-162 | The k-th message is the k-th entry's sender, receiver, value and payload. |
| Send.AttemptsConcat | send_transaction.go:152-170 | The gas estimates of a concatenated log are those of each part. |
| Send.AttemptsNone | send_transaction.go:185-206 | A log without gas estimates holds no attempts. |
| Send.SentAttempts | send_transaction.go:175-208 | One send adds exactly one attempt, for its own message. |
| Send.SendAllAttempts | send_transaction.go:152-170 | The batch attempts exactly the entries before the first invalid one, in order. |
| Send.SendAllLog | send_transaction.go:152-170 | The batch only appends to the log and never waits for a receipt. Every signature it asks for is an entry's sender with that entry's passphrase, or the fallback when the entry has none. |
| Send.SendAllConcat | send_transaction.go:152-170 | Running the loop over two lists runs it over the first and then, unless it stopped, over the second from where it left off. |
| Send.Window | send_transaction.go:134-143 | An end of 0 stands for all entries. A window with 0 <= begin < end <= the entry count is accepted as it is, and any accepted window is of that form. The index is invalid exactly when `begin >= end`, and any other failure is an out-of-range slice. |
| Send.EmptyWindowSendsNothing | send_transaction.go:135-141 | When the indices select no entries, nothing is sent and the batch fails with an invalid index. |
| Send.BatchWindow | send_transaction.go:105-172 | On a window inside the entries, the default end of 0 included, the batch succeeds exactly when no selected entry has a negative value. It attempts the selected entries before the first invalid one, in order. |
| Send.DefaultWindowSendsAll | send_transaction.go:134-171 | With the default indices, a non-empty batch of entries with non-negative values succeeds and attempts every entry, in order. |
| Send.SliceValues | send_transaction.go:143 | The values of the slice `[begin, end)` are those of the entries at those indices. |
| Send.ReadEntries | send_transaction.go:119-132 | The reader the file name selects (a sheet for `.xlsx`, text otherwise) returns `Entries`: the parsed rows after the header, or the parsed lines. |
| Send.SendEntries | send_transaction.go:152-171 | The loop's result and log are those of `SendAll`. |
| Send.SendBatch | send_transaction.go:105-172 | The command's result and log are those of `Batch`: read the entries, check the window, send the window. |

## Left out

- The I/O is not modelled: opening and stating files, `excelize`, `ioutil`, and writing files back. Files are their content; a sheet is its rows.
- Scanner errors and `bufio.Scanner`'s line-length limit are not modelled. `ScanLines` drops a trailing empty line and a carriage return at line end, as the scanner does.
- `ReadTokenList` and `downloadTokenList` (JSON decoding, downloading the list) are left out. `NewMacroParser` takes the decoded token list.
- `getClient`, `getKeystore`, `getSheetId` and `getBatchFile` are not modelled; they configure I/O.
- `getPassphrase` is left out. Its prompt is the `passphrase`/`fallback` parameter. A batch entry without a passphrase uses one fallback for every such entry, where the source prompts again each time.
- The node and the keystore are one oracle, so signing, hashing and RPC are not modelled. Timeouts (`makeTimeoutContext`) and logging are left out.
- `waitMined` is not modelled: its polling loop and 60-second timeout are one `WaitMined` request. Its outcome is only logged, as in the source.
- `Text.ToLower` and `Text.LowerChar` lower-case ASCII letters only. Go's `strings.ToLower` also folds other Unicode letters.
- `Numbers.ParseFloat` decides only whether `strconv.ParseFloat` fails and with which error; the float value is dropped, as the source drops it. It follows the base-10 grammar of the Go 1.10 release this client was written against, so hexadecimal floats and underscores, which later releases accept, are syntax errors. Rounding to a float64 is not modelled: a text is out of range when its exact magnitude is at least 2^1024 - 2^970, from where round-to-nearest-even reaches infinity.
- `Macro.Pow10Int64` gives the least int64 for more than 18 decimals. Go leaves an out-of-range float-to-int conversion to the platform; this is the value amd64 produces, and other platforms are not modelled.
- `Abi.UintWord` takes a negative amount modulo 2^256. Go's ABI packer would encode a negative `*big.Int` in two's complement, which agrees.
- `Hex.AddressHex` is the lower-case `0x` text. The EIP-55 checksum casing of `Address.Hex` is not modelled, and the batch check only looks at lengths, so the casing cannot matter there.
- `Send.Window` treats `end > len(entries)` as an out-of-range slice (a Go panic, here the error `SliceOutOfRange`). Go checks such a slice against the capacity, which can exceed the length after `append`. Go run-time panics on indexing (`ExcelReader.Read`) are the error `IndexOutOfRange`.
- `Send.Valid` and `Send.SendOne` pass a string payload to `CheckArguments`, as the source does at send_transaction.go:154 (`Bytes2Hex` of the entry's payload) and send_transaction.go:81 (the `data` text itself), although common.go:95 declares that parameter as `[]byte`, so the source is inconsistent at both call sites. The model's `CheckArguments` takes a payload of any element type, which absorbs the mismatch; only the payload's emptiness matters, and the hex text is empty exactly when the bytes are.
- `MacroVectors.TransferVector` and `MacroVectors.BalanceOfVector` state the payload as `Bytes2Hex` of the packed bytes rather than as the literal hex strings of the test. `MacroVectors.AmountWordVector` states the amount word's bytes literally.
- `MacroVectors.BalanceOfVector` holds for any space-free holder text, the test's holder among them.
- The test's token list file (`test/rinkebyEthToken.json`, macro_test.go:55) is not part of this model. The vectors assume only that the registry it yields maps `rdn` to the RDN token with the address and 18 decimals the test expects.
- The `Status` field of the current revision's records is never set by the parser and is always false.

## Findings

| source | as written | input that shows it | evidently intended | confidence | as-written member | corrected member |
|---|---|---|---|---|---|---|
| rw.go:312-314 | `parseLine` and `parseRow` trim only the first five fields and read the sixth, untrimmed, as the hash. `WriteString` (rw.go:350) annotates a line with `", " + value`, so the sixth field starts with a space. `FromHex` then decodes it to no bytes, and the hash read back is zero. | The line `a,b,1,0x,p` annotated with `"0x"` and 64 `01` digits: the annotated line reads back with the zero hash. | The hash field is trimmed like the others (`RecordTrimmed`), so an annotated line reads back with the hash that was written. | medium; not executed | BatchRW.AnnotatedHashLostAsWritten | BatchRW.AnnotatedHashRead |

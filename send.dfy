/** Sending transactions: the parameters fetched from the node, signing,
    submission, and the batch command that reads a batch file and sends a
    window of its entries one at a time.

    The node's RPC interface and the keystore are one abstract backend: it
    answers each request with a number or a failure, as a function of the
    requests made before it, and keeps the log of requests in order. */
module Send {
  import opened Outcome
  import opened Hex
  import Text
  import Numbers
  import Arguments
  import BatchRW
  import LegacyBatch

  /** ethereum.CallMsg: the fields the client sets. */
  datatype CallMsg = CallMsg(from: Address, to: Address, value: int, data: seq<Byte>)

  /** types.NewTransaction's arguments. */
  datatype Tx = Tx(nonce: nat, to: Address, value: int, gas: nat, gasPrice: nat, data: seq<Byte>)

  /** A transaction with the signature the keystore returned. */
  datatype SignedTx = SignedTx(tx: Tx, signature: nat)

  /** A request to the node or the keystore. */
  datatype Request =
    | EstimateGas(msg: CallMsg)
    | SuggestGasPrice
    | PendingNonceAt(account: Address)
    | NetworkID
    | SignTx(account: Address, passphrase: string, tx: Tx, chainId: nat)
    | SendTransaction(stx: SignedTx)
    /** The poll for the receipt, standing for the whole waiting loop. */
    | WaitMined(stx: SignedTx)

  /** A gas limit, a price, a nonce, a chain id or a signature, or an
      error. */
  datatype Reply = Ok(n: nat) | Fail(reason: string)

  type Oracle = (seq<Request>, Request) -> Reply

  datatype SendError =
    | InvalidArguments
    | InvalidBatchIndex
    /** Go's run-time panic when a slice bound is out of range. */
    | SliceOutOfRange
    | Read(cause: LegacyBatch.ReadError)
    | Remote(reason: string)

  /** An outcome together with the request log it leaves behind. */
  datatype Run<T> = Run(result: Result<T, SendError>, log: seq<Request>)

  /** The node and the keystore as seen by the client. */
  class Backend {
    const remote: Oracle
    var log: seq<Request>

    constructor (remote: Oracle)
      ensures this.remote == remote && log == []
    {
      this.remote := remote;
      log := [];
    }

    /** One request: it is logged and answered. */
    method Call(q: Request) returns (a: Reply)
      modifies this
      ensures log == old(log) + [q] && a == remote(old(log), q)
    {
      a := remote(log, q);
      log := log + [q];
    }
  }

  // ---------------------------------------------------------------------
  // Asking a fixed sequence of questions

  datatype Asked = Asked(answers: seq<nat>, failure: Option<string>, log: seq<Request>)

  /** The requests `qs` made in order from the log `h`, stopping at the
      first failure. */
  function Ask(remote: Oracle, h: seq<Request>, qs: seq<Request>): (r: Asked)
    ensures |r.answers| <= |qs|
    ensures r.failure.None? ==> |r.answers| == |qs|
    decreases |qs|
  {
    if qs == [] then Asked([], None, h)
    else
      var a := remote(h, qs[0]);
      if a.Fail? then Asked([], Some(a.reason), h + [qs[0]])
      else
        var rest := Ask(remote, h + [qs[0]], qs[1..]);
        Asked([a.n] + rest.answers, rest.failure, rest.log)
  }

  /** Asking stops at the first failure: the answers are those of the
      requests made before it, every request up to and including the
      failing one is logged, and none after it. */
  lemma AskStops(remote: Oracle, h: seq<Request>, qs: seq<Request>)
    ensures var r := Ask(remote, h, qs);
            var k := |r.answers|;
            (forall j :: 0 <= j < k ==> remote(h + qs[..j], qs[j]) == Ok(r.answers[j])) &&
            (r.failure.None? ==> r.log == h + qs) &&
            (r.failure.Some? ==> k < |qs| && r.log == h + qs[..k + 1] &&
                                 remote(h + qs[..k], qs[k]) == Fail(r.failure.value))
  {
    AskAnswers(remote, h, qs);
    AskLog(remote, h, qs);
  }

  /** Each answer is the reply to its request, made after the ones before
      it. */
  lemma {:induction false} AskAnswers(remote: Oracle, h: seq<Request>, qs: seq<Request>)
    ensures var r := Ask(remote, h, qs);
            forall j :: 0 <= j < |r.answers| ==> remote(h + qs[..j], qs[j]) == Ok(r.answers[j])
    decreases |qs|
  {
    if qs != [] && remote(h, qs[0]).Ok? {
      var rest := Ask(remote, h + [qs[0]], qs[1..]);
      var r := Ask(remote, h, qs);
      AskAnswers(remote, h + [qs[0]], qs[1..]);
      assert r.answers == [remote(h, qs[0]).n] + rest.answers;
      forall j | 0 <= j < |r.answers|
        ensures remote(h + qs[..j], qs[j]) == Ok(r.answers[j])
      {
        if j == 0 {
          assert h + qs[..0] == h;
        } else {
          PrefixShift(h, qs, j - 1);
          assert r.answers[j] == rest.answers[j - 1];
        }
      }
    }
  }

  /** The log holds the requests made, up to and including a failing one. */
  lemma {:induction false} AskLog(remote: Oracle, h: seq<Request>, qs: seq<Request>)
    ensures var r := Ask(remote, h, qs);
            var k := |r.answers|;
            (r.failure.None? ==> r.log == h + qs) &&
            (r.failure.Some? ==> k < |qs| && r.log == h + qs[..k + 1] &&
                                 remote(h + qs[..k], qs[k]) == Fail(r.failure.value))
    decreases |qs|
  {
    if qs == [] {
      assert h + qs == h;
    } else if remote(h, qs[0]).Fail? {
      assert h + qs[..0] == h;
      assert qs[..1] == [qs[0]];
    } else {
      var rest := Ask(remote, h + [qs[0]], qs[1..]);
      var r := Ask(remote, h, qs);
      AskLog(remote, h + [qs[0]], qs[1..]);
      assert r.log == rest.log && r.failure == rest.failure && |r.answers| == |rest.answers| + 1;
      if rest.failure.None? {
        assert h + [qs[0]] + qs[1..] == h + qs by {
          assert [qs[0]] + qs[1..] == qs;
        }
      } else {
        PrefixShift(h, qs, |rest.answers|);
        PrefixShift(h, qs, |rest.answers| + 1);
      }
    }
  }

  lemma PrefixShift(h: seq<Request>, qs: seq<Request>, j: nat)
    requires j < |qs|
    ensures h + [qs[0]] + qs[1..][..j] == h + qs[..j + 1]
    ensures j + 1 < |qs| ==> qs[1..][j] == qs[j + 1]
  {
    assert qs[..j + 1] == [qs[0]] + qs[1..][..j];
  }

  // ---------------------------------------------------------------------
  // fetchParams and sendTransaction

  datatype Params = Params(gasPrice: nat, gasLimit: nat, nonce: nat, chainId: nat)

  /** The questions fetchParams asks, in its order. */
  function FetchQueries(msg: CallMsg): (qs: seq<Request>)
    ensures |qs| == 4
  {
    [EstimateGas(msg), SuggestGasPrice, PendingNonceAt(msg.from), NetworkID]
  }

  /** fetchParams: the gas limit, the gas price, the sender's pending
      nonce and the chain id, or the first error. */
  function Fetch(remote: Oracle, h: seq<Request>, msg: CallMsg): Run<Params>
  {
    var r := Ask(remote, h, FetchQueries(msg));
    if r.failure.Some? then Run(Failure(Remote(r.failure.value)), r.log)
    else Run(Success(Params(r.answers[1], r.answers[0], r.answers[2], r.answers[3])), r.log)
  }

  /** fetchParams asks for gas limit, gas price, nonce and chain id in that
      order; the log grows by the questions asked, up to the first that
      fails, and the parameters are the four answers. */
  lemma FetchOrder(remote: Oracle, h: seq<Request>, msg: CallMsg)
    ensures var f := Fetch(remote, h, msg);
            var qs := FetchQueries(msg);
            exists k :: 1 <= k <= 4 && f.log == h + qs[..k] &&
              (f.result.Success? <==> k == 4 && remote(h + qs[..3], qs[3]).Ok?) &&
              (forall j :: 0 <= j < k - 1 ==> remote(h + qs[..j], qs[j]).Ok?)
    ensures var f := Fetch(remote, h, msg);
            var qs := FetchQueries(msg);
            f.result.Success? ==>
              f.result.value == Params(remote(h + qs[..1], qs[1]).n, remote(h, qs[0]).n,
                                       remote(h + qs[..2], qs[2]).n, remote(h + qs[..3], qs[3]).n)
  {
    var qs := FetchQueries(msg);
    var r := Ask(remote, h, qs);
    AskStops(remote, h, qs);
    assert h + qs[..0] == h;
    if r.failure.None? {
      assert qs[..4] == qs;
      assert remote(h + qs[..3], qs[3]).Ok?;
    } else {
      var k := |r.answers| + 1;
      assert remote(h + qs[..k - 1], qs[k - 1]).Fail?;
    }
  }

  /** fetchParams, request by request. */
  method FetchParams(b: Backend, msg: CallMsg) returns (r: Result<Params, SendError>)
    modifies b
    ensures Run(r, b.log) == Fetch(b.remote, old(b.log), msg)
  {
    ghost var h := b.log;
    ghost var qs := FetchQueries(msg);
    ghost var q1 := qs[1..];
    assert q1 == [SuggestGasPrice, PendingNonceAt(msg.from), NetworkID];
    ghost var q2 := q1[1..];
    assert q2 == [PendingNonceAt(msg.from), NetworkID];
    ghost var q3 := q2[1..];
    assert q3 == [NetworkID] && q3[1..] == [];
    var gasLimit := b.Call(EstimateGas(msg));
    if gasLimit.Fail? {
      return Failure(Remote(gasLimit.reason));
    }
    ghost var h1 := b.log;
    assert Ask(b.remote, h, qs) == Ask(b.remote, h1, q1).(answers := [gasLimit.n] + Ask(b.remote, h1, q1).answers);
    var gasPrice := b.Call(SuggestGasPrice);
    if gasPrice.Fail? {
      assert Ask(b.remote, h1, q1) == Asked([], Some(gasPrice.reason), b.log);
      return Failure(Remote(gasPrice.reason));
    }
    ghost var h2 := b.log;
    assert Ask(b.remote, h1, q1) == Ask(b.remote, h2, q2).(answers := [gasPrice.n] + Ask(b.remote, h2, q2).answers);
    var nonce := b.Call(PendingNonceAt(msg.from));
    if nonce.Fail? {
      assert Ask(b.remote, h2, q2) == Asked([], Some(nonce.reason), b.log);
      return Failure(Remote(nonce.reason));
    }
    ghost var h3 := b.log;
    assert Ask(b.remote, h2, q2) == Ask(b.remote, h3, q3).(answers := [nonce.n] + Ask(b.remote, h3, q3).answers);
    var chainId := b.Call(NetworkID);
    if chainId.Fail? {
      assert Ask(b.remote, h3, q3) == Asked([], Some(chainId.reason), b.log);
      return Failure(Remote(chainId.reason));
    }
    assert Ask(b.remote, h3, q3) == Asked([chainId.n], None, b.log);
    r := Success(Params(gasPrice.n, gasLimit.n, nonce.n, chainId.n));
  }

  /** The transaction built from a call message and the fetched
      parameters. */
  function NewTx(msg: CallMsg, p: Params): Tx
  {
    Tx(p.nonce, msg.to, msg.value, p.gasLimit, p.gasPrice, msg.data)
  }

  /** sendTransaction: fetch, sign with the passphrase, submit, and when
      asked to, wait for the receipt, whose outcome is only logged. */
  function Sent(remote: Oracle, h: seq<Request>, msg: CallMsg, passphrase: string, wait: bool): Run<()>
  {
    var f := Fetch(remote, h, msg);
    if f.result.Failure? then Run(Failure(f.result.error), f.log)
    else
      var p := f.result.value;
      var tx := NewTx(msg, p);
      var sign := SignTx(msg.from, passphrase, tx, p.chainId);
      var signature := remote(f.log, sign);
      if signature.Fail? then Run(Failure(Remote(signature.reason)), f.log + [sign])
      else
        var stx := SignedTx(tx, signature.n);
        var submitted := remote(f.log + [sign], SendTransaction(stx));
        if submitted.Fail? then Run(Failure(Remote(submitted.reason)), f.log + [sign, SendTransaction(stx)])
        else if wait then Run(Success(()), f.log + [sign, SendTransaction(stx), WaitMined(stx)])
        else Run(Success(()), f.log + [sign, SendTransaction(stx)])
  }

  /** sendTransaction, step by step. */
  method SendTx(b: Backend, msg: CallMsg, passphrase: string, wait: bool) returns (r: Result<(), SendError>)
    modifies b
    ensures Run(r, b.log) == Sent(b.remote, old(b.log), msg, passphrase, wait)
  {
    var fetched := FetchParams(b, msg);
    if fetched.Failure? {
      return Failure(fetched.error);
    }
    var p := fetched.value;
    var tx := NewTx(msg, p);
    var signature := b.Call(SignTx(msg.from, passphrase, tx, p.chainId));
    if signature.Fail? {
      return Failure(Remote(signature.reason));
    }
    var stx := SignedTx(tx, signature.n);
    var submitted := b.Call(SendTransaction(stx));
    if submitted.Fail? {
      return Failure(Remote(submitted.reason));
    }
    if wait {
      var receipt := b.Call(WaitMined(stx));
    }
    r := Success(());
  }

  /** What sendTransaction leaves in the log after `h`: it starts with the
      gas estimate for `msg`, holds no other estimate, signs at most once,
      as `msg.from` with `passphrase`, and waits only when asked to. */
  lemma SentLog(remote: Oracle, h: seq<Request>, msg: CallMsg, passphrase: string, wait: bool)
    ensures var log := Sent(remote, h, msg, passphrase, wait).log;
            |log| > |h| && log[..|h| + 1] == h + [EstimateGas(msg)] &&
            (forall k :: |h| < k < |log| ==> !log[k].EstimateGas?) &&
            (forall k :: |h| <= k < |log| && log[k].SignTx? ==>
                           log[k].account == msg.from && log[k].passphrase == passphrase) &&
            (!wait ==> forall k :: |h| <= k < |log| ==> !log[k].WaitMined?)
  {
    var f := Fetch(remote, h, msg);
    FetchLog(remote, h, msg);
    SentTail(remote, h, msg, passphrase, wait);
    var log := Sent(remote, h, msg, passphrase, wait).log;
    forall k | |h| <= k < |log|
      ensures !log[k].EstimateGas? <==> k != |h|
      ensures log[k].SignTx? ==> log[k].account == msg.from && log[k].passphrase == passphrase
      ensures !wait ==> !log[k].WaitMined?
    {
      if k < |f.log| {
        assert log[k] == f.log[k];
      }
    }
    assert log[..|h| + 1] == f.log[..|h| + 1];
  }

  /** What sendTransaction adds after fetching: a signature request as
      `msg.from` with `passphrase`, a submission, and a wait only when
      asked to. */
  lemma SentTail(remote: Oracle, h: seq<Request>, msg: CallMsg, passphrase: string, wait: bool)
    ensures var f := Fetch(remote, h, msg).log;
            var log := Sent(remote, h, msg, passphrase, wait).log;
            |log| >= |f| && log[..|f|] == f &&
            forall k :: |f| <= k < |log| ==>
              log[k].SendTransaction? || (wait && log[k].WaitMined?) ||
              (log[k].SignTx? && log[k].account == msg.from && log[k].passphrase == passphrase)
  {
  }

  /** What fetchParams leaves in the log after `h`: the gas estimate for
      `msg`, then at most the price, nonce and chain id questions. */
  lemma FetchLog(remote: Oracle, h: seq<Request>, msg: CallMsg)
    ensures var log := Fetch(remote, h, msg).log;
            |log| > |h| && log[..|h| + 1] == h + [EstimateGas(msg)] && log[|h|] == EstimateGas(msg) &&
            forall k :: |h| < k < |log| ==> log[k].SuggestGasPrice? || log[k].PendingNonceAt? || log[k].NetworkID?
  {
    var qs := FetchQueries(msg);
    FetchOrder(remote, h, msg);
    var f := Fetch(remote, h, msg);
    var k :| 1 <= k <= 4 && f.log == h + qs[..k];
    assert f.log[..|h| + 1] == h + [EstimateGas(msg)];
    forall j | |h| < j < |f.log|
      ensures f.log[j].SuggestGasPrice? || f.log[j].PendingNonceAt? || f.log[j].NetworkID?
    {
      assert f.log[j] == qs[j - |h|];
    }
  }

  /** sendTransaction signs only after all four parameters were fetched,
      submits only what was signed, and succeeds exactly when the
      submission is accepted. */
  lemma SentStages(remote: Oracle, h: seq<Request>, msg: CallMsg, passphrase: string, wait: bool)
    ensures var s := Sent(remote, h, msg, passphrase, wait);
            var f := Fetch(remote, h, msg);
            (f.result.Failure? ==> s == Run(Failure(f.result.error), f.log)) &&
            (f.result.Success? ==>
               var tx := NewTx(msg, f.result.value);
               var sign := SignTx(msg.from, passphrase, tx, f.result.value.chainId);
               |s.log| > |f.log| && s.log[..|f.log| + 1] == f.log + [sign] &&
               (remote(f.log, sign).Fail? ==> s == Run(Failure(Remote(remote(f.log, sign).reason)), f.log + [sign])) &&
               (remote(f.log, sign).Ok? ==>
                  var stx := SignedTx(tx, remote(f.log, sign).n);
                  |s.log| > |f.log| + 1 && s.log[|f.log| + 1] == SendTransaction(stx) &&
                  (s.result.Success? <==> remote(f.log + [sign], SendTransaction(stx)).Ok?)))
  {
  }

  // ---------------------------------------------------------------------
  // Send: one transaction from the command line

  /** The Send command after its flags are read: the checked arguments
      become a call message, and the transaction is sent, waiting for the
      receipt when `sync` is set. */
  method SendOne(b: Backend, sender: string, receiver: string, value: int, data: string,
                 passphrase: string, sync: bool) returns (r: Result<(), SendError>)
    modifies b
    ensures !Arguments.CheckArguments(sender, receiver, value, data) ==>
              r == Failure(InvalidArguments) && b.log == old(b.log)
    ensures Arguments.CheckArguments(sender, receiver, value, data) ==>
              var msg := CallMsg(HexToAddress(sender), HexToAddress(receiver), value, FromHex(data));
              Run(r, b.log) == Sent(b.remote, old(b.log), msg, passphrase, sync)
  {
    if !Arguments.CheckArguments(sender, receiver, value, data) {
      return Failure(InvalidArguments);
    }
    var msg := CallMsg(HexToAddress(sender), HexToAddress(receiver), value, FromHex(data));
    r := SendTx(b, msg, passphrase, sync);
  }

  // ---------------------------------------------------------------------
  // SendBatch

  /** The check each batch entry must pass before it is sent. */
  predicate Valid(e: LegacyBatch.TxParams)
  {
    Arguments.CheckArguments(AddressHex(e.from), AddressHex(e.to), e.value, Bytes2Hex(e.data))
  }

  function MsgOf(e: LegacyBatch.TxParams): CallMsg
  {
    CallMsg(e.from, e.to, e.value, e.data)
  }

  /** The passphrase an entry is sent with. */
  function PassphraseOf(e: LegacyBatch.TxParams, fallback: string): string
  {
    if e.passphrase == "" then fallback else e.passphrase
  }

  /** The loop of SendBatch over the selected entries: stop at the first
      entry that fails the argument check; send every other one without
      waiting, going on after a failed send. */
  function SendAll(remote: Oracle, h: seq<Request>, es: seq<LegacyBatch.TxParams>, fallback: string): Run<()>
    decreases |es|
  {
    if es == [] then Run(Success(()), h)
    else if !Valid(es[0]) then Run(Failure(InvalidArguments), h)
    else
      var s := Sent(remote, h, MsgOf(es[0]), PassphraseOf(es[0], fallback), false);
      SendAll(remote, s.log, es[1..], fallback)
  }

  /** The number of leading entries that pass the argument check. */
  function FirstInvalid(es: seq<LegacyBatch.TxParams>): (k: nat)
    ensures k <= |es|
  {
    if es == [] || !Valid(es[0]) then 0 else 1 + FirstInvalid(es[1..])
  }

  /** FirstInvalid is the index of the first entry failing the check, or
      the length when there is none. */
  lemma {:induction false} FirstInvalidMeaning(es: seq<LegacyBatch.TxParams>)
    ensures var k := FirstInvalid(es);
            (forall j :: 0 <= j < k ==> Valid(es[j])) && (k < |es| ==> !Valid(es[k]))
    decreases |es|
  {
    if es != [] && Valid(es[0]) {
      FirstInvalidMeaning(es[1..]);
      var k := FirstInvalid(es[1..]);
      forall j | 1 <= j < k + 1 ensures Valid(es[j]) {
        assert es[j] == es[1..][j - 1];
      }
      if k + 1 < |es| {
        assert es[k + 1] == es[1..][k];
      }
    }
  }

  /** Every batch entry's addresses pass the length checks, so an entry is
      valid exactly when its value is not negative. */
  lemma ValidMeaning(e: LegacyBatch.TxParams)
    ensures Valid(e) <==> e.value >= 0
  {
    Arguments.CheckAddressesReducesToSign(e.from, e.to, e.value, Bytes2Hex(e.data));
  }

  /** The batch succeeds exactly when no entry has a negative value, however
      the sends themselves fare; otherwise it fails with InvalidArguments. */
  lemma {:induction false} SendAllOutcome(remote: Oracle, h: seq<Request>, es: seq<LegacyBatch.TxParams>, fallback: string)
    ensures SendAll(remote, h, es, fallback).result ==
            (if forall k :: 0 <= k < |es| ==> es[k].value >= 0 then Success(()) else Failure(InvalidArguments))
    decreases |es|
  {
    if es != [] {
      ValidMeaning(es[0]);
      if Valid(es[0]) {
        var s := Sent(remote, h, MsgOf(es[0]), PassphraseOf(es[0], fallback), false);
        SendAllOutcome(remote, s.log, es[1..], fallback);
        assert (forall k :: 0 <= k < |es| ==> es[k].value >= 0) <==>
               (forall k :: 0 <= k < |es[1..]| ==> es[1..][k].value >= 0) by {
          if forall k :: 0 <= k < |es[1..]| ==> es[1..][k].value >= 0 {
            forall k | 0 <= k < |es| ensures es[k].value >= 0 {
              if k > 0 {
                assert es[k] == es[1..][k - 1];
              }
            }
          }
        }
      }
    }
  }

  /** The messages of the entries, in order. */
  function Msgs(es: seq<LegacyBatch.TxParams>): (r: seq<CallMsg>)
    ensures |r| == |es|
  {
    if es == [] then [] else [MsgOf(es[0])] + Msgs(es[1..])
  }

  lemma {:induction false} MsgsMeaning(es: seq<LegacyBatch.TxParams>)
    ensures forall k :: 0 <= k < |es| ==> Msgs(es)[k] == MsgOf(es[k])
    decreases |es|
  {
    if es != [] {
      MsgsMeaning(es[1..]);
      forall k | 1 <= k < |es| ensures Msgs(es)[k] == MsgOf(es[k]) {
        assert es[k] == es[1..][k - 1];
      }
    }
  }

  /** The messages whose gas was estimated, in log order: one per send
      attempt. */
  function Attempts(log: seq<Request>): (r: seq<CallMsg>)
    ensures |r| <= |log|
  {
    if log == [] then []
    else Attempts(log[..|log| - 1]) + (if log[|log| - 1].EstimateGas? then [log[|log| - 1].msg] else [])
  }

  lemma {:induction false} AttemptsConcat(a: seq<Request>, b: seq<Request>)
    ensures Attempts(a + b) == Attempts(a) + Attempts(b)
    decreases |b|
  {
    if b != [] {
      var n := |b| - 1;
      AttemptsConcat(a, b[..n]);
      assert (a + b)[..|a + b| - 1] == a + b[..n];
      assert (a + b)[|a + b| - 1] == b[n];
    } else {
      assert a + b == a;
    }
  }

  lemma {:induction false} AttemptsNone(t: seq<Request>)
    requires forall k :: 0 <= k < |t| ==> !t[k].EstimateGas?
    ensures Attempts(t) == []
    decreases |t|
  {
    if t != [] {
      AttemptsNone(t[..|t| - 1]);
    }
  }

  /** One send adds exactly one attempt, for its own message. */
  lemma SentAttempts(remote: Oracle, h: seq<Request>, msg: CallMsg, passphrase: string, wait: bool)
    ensures Attempts(Sent(remote, h, msg, passphrase, wait).log) == Attempts(h) + [msg]
  {
    var log := Sent(remote, h, msg, passphrase, wait).log;
    SentLog(remote, h, msg, passphrase, wait);
    var t := log[|h| + 1..];
    assert log == h + [EstimateGas(msg)] + t;
    assert forall k :: 0 <= k < |t| ==> !t[k].EstimateGas? by {
      forall k | 0 <= k < |t| ensures !t[k].EstimateGas? {
        assert t[k] == log[|h| + 1 + k];
      }
    }
    AttemptsNone(t);
    AttemptsConcat(h + [EstimateGas(msg)], t);
    AttemptsConcat(h, [EstimateGas(msg)]);
    assert Attempts([EstimateGas(msg)]) == [msg] by {
      assert [EstimateGas(msg)][..0] == [];
    }
  }

  /** The batch attempts exactly the entries before the first invalid one,
      in order, one attempt each. */
  lemma {:induction false} SendAllAttempts(remote: Oracle, h: seq<Request>, es: seq<LegacyBatch.TxParams>, fallback: string)
    ensures Attempts(SendAll(remote, h, es, fallback).log) == Attempts(h) + Msgs(es[..FirstInvalid(es)])
    decreases |es|
  {
    if es == [] || !Valid(es[0]) {
      assert es[..0] == [];
    } else {
      var s := Sent(remote, h, MsgOf(es[0]), PassphraseOf(es[0], fallback), false);
      SendAllAttempts(remote, s.log, es[1..], fallback);
      SentAttempts(remote, h, MsgOf(es[0]), PassphraseOf(es[0], fallback), false);
      MsgsStep(es, FirstInvalid(es[1..]));
    }
  }

  /** The messages of a non-empty prefix, peeled by one. */
  lemma MsgsStep(es: seq<LegacyBatch.TxParams>, k: nat)
    requires es != [] && k < |es|
    ensures Msgs(es[..k + 1]) == [MsgOf(es[0])] + Msgs(es[1..][..k])
  {
    var p := es[..1 + k];
    assert p[0] == es[0];
    assert p[1..] == es[1..1 + k] == es[1..][..k];
    assert Msgs(p) == [MsgOf(p[0])] + Msgs(p[1..]);
  }

  /** The batch only appends to the log; it never waits for a receipt, and
      every signature it asks for is an entry's sender with that entry's
      passphrase, or with the fallback when the entry has none. */
  lemma {:induction false} SendAllLog(remote: Oracle, h: seq<Request>, es: seq<LegacyBatch.TxParams>, fallback: string)
    ensures var log := SendAll(remote, h, es, fallback).log;
            |log| >= |h| && log[..|h|] == h &&
            (forall k :: |h| <= k < |log| ==> !log[k].WaitMined?) &&
            (forall k :: |h| <= k < |log| && log[k].SignTx? ==>
                           exists j :: 0 <= j < |es| && log[k].account == es[j].from &&
                                       log[k].passphrase == PassphraseOf(es[j], fallback))
    decreases |es|
  {
    if es != [] && Valid(es[0]) {
      var s := Sent(remote, h, MsgOf(es[0]), PassphraseOf(es[0], fallback), false);
      SendAllLog(remote, s.log, es[1..], fallback);
      SentLog(remote, h, MsgOf(es[0]), PassphraseOf(es[0], fallback), false);
      SendAllLogStep(remote, h, es, fallback);
    }
  }

  /** The step of SendAllLog after a first valid entry. */
  lemma SendAllLogStep(remote: Oracle, h: seq<Request>, es: seq<LegacyBatch.TxParams>, fallback: string)
    requires es != []
    requires SendAll(remote, h, es, fallback) ==
             SendAll(remote, Sent(remote, h, MsgOf(es[0]), PassphraseOf(es[0], fallback), false).log, es[1..], fallback)
    requires var s := Sent(remote, h, MsgOf(es[0]), PassphraseOf(es[0], fallback), false).log;
             |s| > |h| && s[..|h| + 1] == h + [EstimateGas(MsgOf(es[0]))] &&
             (forall k :: |h| <= k < |s| && s[k].SignTx? ==>
                            s[k].account == es[0].from && s[k].passphrase == PassphraseOf(es[0], fallback)) &&
             (forall k :: |h| <= k < |s| ==> !s[k].WaitMined?)
    requires var s := Sent(remote, h, MsgOf(es[0]), PassphraseOf(es[0], fallback), false).log;
             var log := SendAll(remote, s, es[1..], fallback).log;
             |log| >= |s| && log[..|s|] == s &&
             (forall k :: |s| <= k < |log| ==> !log[k].WaitMined?) &&
             (forall k :: |s| <= k < |log| && log[k].SignTx? ==>
                            exists j :: 0 <= j < |es[1..]| && log[k].account == es[1..][j].from &&
                                        log[k].passphrase == PassphraseOf(es[1..][j], fallback))
    ensures var log := SendAll(remote, h, es, fallback).log;
            |log| >= |h| && log[..|h|] == h &&
            (forall k :: |h| <= k < |log| ==> !log[k].WaitMined?) &&
            (forall k :: |h| <= k < |log| && log[k].SignTx? ==>
                           exists j :: 0 <= j < |es| && log[k].account == es[j].from &&
                                       log[k].passphrase == PassphraseOf(es[j], fallback))
  {
    var s := Sent(remote, h, MsgOf(es[0]), PassphraseOf(es[0], fallback), false).log;
    var log := SendAll(remote, h, es, fallback).log;
    assert log == SendAll(remote, s, es[1..], fallback).log;
    assert log[..|h|] == h by {
      assert log[..|h|] == s[..|h| + 1][..|h|];
    }
    forall k | |h| <= k < |log| && log[k].SignTx?
      ensures exists j :: 0 <= j < |es| && log[k].account == es[j].from &&
                          log[k].passphrase == PassphraseOf(es[j], fallback)
    {
      if k < |s| {
        assert log[k] == s[k];
        assert log[k].account == es[0].from;
      } else {
        var j :| 0 <= j < |es[1..]| && log[k].account == es[1..][j].from &&
                 log[k].passphrase == PassphraseOf(es[1..][j], fallback);
        assert es[1..][j] == es[j + 1];
      }
    }
    forall k | |h| <= k < |log|
      ensures !log[k].WaitMined?
    {
      if k < |s| {
        assert log[k] == s[k];
      }
    }
  }

  /** Running the loop over two lists of entries runs it over the first and,
      unless it stopped, over the second from where it left off. */
  lemma {:induction false} SendAllConcat(remote: Oracle, h: seq<Request>, a: seq<LegacyBatch.TxParams>,
                                         b: seq<LegacyBatch.TxParams>, fallback: string)
    ensures var first := SendAll(remote, h, a, fallback);
            SendAll(remote, h, a + b, fallback) ==
              if first.result.Failure? then first else SendAll(remote, first.log, b, fallback)
    decreases |a|
  {
    if a == [] {
      assert a + b == b;
    } else {
      assert (a + b)[0] == a[0];
      assert (a + b)[1..] == a[1..] + b;
      if Valid(a[0]) {
        var s := Sent(remote, h, MsgOf(a[0]), PassphraseOf(a[0], fallback), false);
        SendAllConcat(remote, s.log, a[1..], b, fallback);
      }
    }
  }

  // ---------------------------------------------------------------------
  // The whole command

  /** A batch file whose name ends in ".xlsx" is a spreadsheet; any other
      is text. */
  predicate IsSheetFile(batchfile: string)
  {
    Text.HasSuffix(batchfile, ".xlsx")
  }

  /** The entries the batch file holds: the rows after the header of a
      spreadsheet, or the lines of a text file, in order, keeping those
      that parse. */
  function Entries(batchfile: string, content: string, rows: seq<seq<string>>): Result<seq<LegacyBatch.TxParams>, SendError>
  {
    if IsSheetFile(batchfile) then
      if |rows| < 1 then Failure(Read(LegacyBatch.EmptyFileContent)) else Success(BatchRW.Kept(LegacyBatch.RecordOf, rows[1..]))
    else Success(BatchRW.Kept(LegacyBatch.RecordOf, BatchRW.AllLineFields(Text.ScanLines(content))))
  }

  /** The slice bounds SendBatch uses: an end of 0 stands for all entries;
      the window must be non-empty and inside the entries. */
  function Window(n: nat, begin: int, end: int): (r: Result<(nat, nat), SendError>)
    ensures r.Success? ==> r.value.0 < r.value.1 <= n && r.value.0 == begin &&
                           r.value.1 == (if end == 0 then n else end)
    ensures r.Failure? ==> (r.error == InvalidBatchIndex <==> begin >= (if end == 0 then n else end))
    ensures r.Failure? ==> r.error == InvalidBatchIndex || r.error == SliceOutOfRange
    ensures var e := if end == 0 then n else end;
            0 <= begin < e <= n ==> r == Success((begin, e))
  {
    var end := if end == 0 then n else end;
    if begin >= end then Failure(InvalidBatchIndex)
    else if begin < 0 || end > n then Failure(SliceOutOfRange)
    else Success((begin, end))
  }

  /** SendBatch from the entries on: select the window and send it. */
  function Batch(remote: Oracle, h: seq<Request>, batchfile: string, content: string, rows: seq<seq<string>>,
                 begin: int, end: int, fallback: string): Run<()>
  {
    match Entries(batchfile, content, rows)
    case Failure(e) => Run(Failure(e), h)
    case Success(entries) =>
      match Window(|entries|, begin, end)
      case Failure(e) => Run(Failure(e), h)
      case Success(w) => SendAll(remote, h, entries[w.0..w.1], fallback)
  }

  /** Nothing is sent when the indices select no entries, in particular
      from an empty batch with the default indices. */
  lemma EmptyWindowSendsNothing(remote: Oracle, h: seq<Request>, batchfile: string, content: string,
                                rows: seq<seq<string>>, begin: int, end: int, fallback: string)
    requires Entries(batchfile, content, rows).Success?
    requires var n := |Entries(batchfile, content, rows).value|; begin >= (if end == 0 then n else end)
    ensures Batch(remote, h, batchfile, content, rows, begin, end, fallback) == Run(Failure(InvalidBatchIndex), h)
  {
  }

  /** On a well-formed window the batch succeeds exactly when no selected
      entry has a negative value, and it attempts the selected entries
      before the first invalid one, in order. An end of 0 selects up to
      the last entry. */
  lemma BatchWindow(remote: Oracle, h: seq<Request>, batchfile: string, content: string,
                    rows: seq<seq<string>>, begin: int, end: int, fallback: string)
    requires Entries(batchfile, content, rows).Success?
    requires var n := |Entries(batchfile, content, rows).value|;
             0 <= begin < (if end == 0 then n else end) <= n
    ensures var entries := Entries(batchfile, content, rows).value;
            var e := if end == 0 then |entries| else end;
            var es := entries[begin..e];
            var run := Batch(remote, h, batchfile, content, rows, begin, end, fallback);
            (run.result.Success? <==> forall k :: begin <= k < e ==> entries[k].value >= 0) &&
            Attempts(run.log) == Attempts(h) + Msgs(es[..FirstInvalid(es)])
  {
    var entries := Entries(batchfile, content, rows).value;
    var e := if end == 0 then |entries| else end;
    var es := entries[begin..e];
    assert Batch(remote, h, batchfile, content, rows, begin, end, fallback) == SendAll(remote, h, es, fallback);
    SendAllOutcome(remote, h, es, fallback);
    SendAllAttempts(remote, h, es, fallback);
    SliceValues(entries, begin, e);
  }

  /** With the default indices, a batch of valid entries is sent whole:
      every entry is attempted, in order, and the batch succeeds. */
  lemma DefaultWindowSendsAll(remote: Oracle, h: seq<Request>, batchfile: string, content: string,
                              rows: seq<seq<string>>, fallback: string)
    requires Entries(batchfile, content, rows).Success?
    requires var entries := Entries(batchfile, content, rows).value;
             entries != [] && forall k :: 0 <= k < |entries| ==> entries[k].value >= 0
    ensures var entries := Entries(batchfile, content, rows).value;
            var run := Batch(remote, h, batchfile, content, rows, 0, 0, fallback);
            run.result.Success? && Attempts(run.log) == Attempts(h) + Msgs(entries)
  {
    var entries := Entries(batchfile, content, rows).value;
    BatchWindow(remote, h, batchfile, content, rows, 0, 0, fallback);
    assert entries[0..|entries|] == entries;
    FirstInvalidAllValid(entries);
  }

  /** With no negative value, no entry is invalid. */
  lemma FirstInvalidAllValid(es: seq<LegacyBatch.TxParams>)
    requires forall k :: 0 <= k < |es| ==> es[k].value >= 0
    ensures FirstInvalid(es) == |es|
  {
    FirstInvalidMeaning(es);
    var k := FirstInvalid(es);
    if k < |es| {
      ValidMeaning(es[k]);
    }
  }

  lemma SliceValues(entries: seq<LegacyBatch.TxParams>, begin: nat, end: nat)
    requires begin <= end <= |entries|
    ensures (forall k :: 0 <= k < end - begin ==> entries[begin..end][k].value >= 0) <==>
            (forall k :: begin <= k < end ==> entries[k].value >= 0)
  {
    var es := entries[begin..end];
    if forall k :: 0 <= k < |es| ==> es[k].value >= 0 {
      forall k | begin <= k < end ensures entries[k].value >= 0 {
        assert entries[k] == es[k - begin];
      }
    }
  }

  /** The reader the file name selects, reading every entry. */
  method ReadEntries(batchfile: string, content: string, sheet: string, rows: seq<seq<string>>)
    returns (r: Result<seq<LegacyBatch.TxParams>, SendError>)
    ensures r == Entries(batchfile, content, rows)
  {
    var read: Result<seq<LegacyBatch.TxParams>, LegacyBatch.ReadError>;
    if Text.HasSuffix(batchfile, ".xlsx") {
      var reader := new LegacyBatch.ExcelReader(sheet, rows);
      read := reader.ReadAll();
    } else {
      var reader := new LegacyBatch.RawTextReader(content);
      read := reader.ReadAll();
      assert BatchRW.AllLineFields(reader.lines)[0..] == BatchRW.AllLineFields(reader.lines);
    }
    if read.Failure? {
      return Failure(Read(read.error));
    }
    r := Success(read.value);
  }

  /** The loop of SendBatch over the selected entries. */
  method SendEntries(b: Backend, entries: seq<LegacyBatch.TxParams>, fallback: string) returns (r: Result<(), SendError>)
    modifies b
    ensures Run(r, b.log) == SendAll(b.remote, old(b.log), entries, fallback)
  {
    ghost var h := b.log;
    for i := 0 to |entries|
      invariant SendAll(b.remote, h, entries, fallback) == SendAll(b.remote, b.log, entries[i..], fallback)
    {
      var entry := entries[i];
      assert entries[i..][1..] == entries[i + 1..];
      if !Arguments.CheckArguments(AddressHex(entry.from), AddressHex(entry.to), entry.value, Bytes2Hex(entry.data)) {
        return Failure(InvalidArguments);
      }
      var msg := CallMsg(entry.from, entry.to, entry.value, entry.data);
      var passphrase := entry.passphrase;
      if passphrase == "" {
        passphrase := fallback;
      }
      var sent := SendTx(b, msg, passphrase, false);
    }
    r := Success(());
  }

  /** SendBatch after the file exists and the client is set up: read the
      entries with the reader the file name selects, select the window,
      and send its entries one by one. */
  method SendBatch(b: Backend, batchfile: string, content: string, sheet: string, rows: seq<seq<string>>,
                   begin: int, end: int, fallback: string) returns (r: Result<(), SendError>)
    modifies b
    ensures Run(r, b.log) == Batch(b.remote, old(b.log), batchfile, content, rows, begin, end, fallback)
  {
    var read := ReadEntries(batchfile, content, sheet, rows);
    if read.Failure? {
      return Failure(read.error);
    }
    var entries := read.value;
    var last := end;
    if last == 0 {
      last := |entries|;
    }
    if begin >= last {
      return Failure(InvalidBatchIndex);
    }
    if begin < 0 || last > |entries| {
      return Failure(SliceOutOfRange);
    }
    entries := entries[begin..last];
    r := SendEntries(b, entries, fallback);
  }
}

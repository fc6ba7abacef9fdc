/**
 The common coin of a HoneyBadgerBFT-style protocol: a threshold-signature
 coin that gives all parties the same unpredictable bit for every round.

 `CoinEngine` holds the state `shared_coin` keeps across calls: the
 per-round ledgers of accepted signature shares and the per-round output
 queues. `OnShare` is one pass of the receive loop and `GetCoin` is the coin
 handle; both are proved against the state machine of module CoinState.
 */
module CommonCoin {
  import opened Crypto
  import opened Ledger
  import opened CoinState

  datatype Result<T, E> = Ok(value: T) | Err(error: E)

  /** The broadcast message ('COIN', round, serialized share). */
  datatype Message = Coin(round: int, share: Bytes)

  class CoinEngine {
    const sid: SessionId
    const pid: nat
    const n: nat
    const f: nat
    const pk: PublicKey
    const sk: PrivateKey
    const sha256: Bytes -> Sha256Digest

    /** received[r]: the accepted shares of round r, in acceptance order */
    var received: map<nat, Entries>
    /** outputs[r]: the bit waiting in round r's one-place output queue */
    var outputs: map<nat, Bit>
    /** every message handed to the broadcast channel, in order */
    var sent: seq<Message>
    /** set once the receive loop has died on a failed assertion or a full queue */
    var failure: Option<Failure>

    function Configuration(): Config {
      Config(sid, n, f, pk, sha256)
    }

    /** The state the receive loop works on. */
    function Snapshot(): State
      reads this
    {
      State(received, outputs, failure)
    }

    ghost predicate Valid()
      reads this
    {
      Inv(Configuration(), Snapshot())
    }

    /** The construction checks: the key's threshold is f+1 and it has n shareholders. */
    constructor (sid: SessionId, pid: nat, n: nat, f: nat, pk: PublicKey, sk: PrivateKey,
                 sha256: Bytes -> Sha256Digest)
      requires pk.k == f + 1 && pk.l == n
      ensures Valid()
      ensures this.sid == sid && this.pid == pid && this.n == n && this.f == f
      ensures this.pk == pk && this.sk == sk && this.sha256 == sha256
      ensures Snapshot() == Initial() && sent == []
    {
      this.sid, this.pid, this.n, this.f := sid, pid, n, f;
      this.pk, this.sk, this.sha256 := pk, sk, sha256;
      received, outputs, sent, failure := map[], map[], [], None;
      new;
      InitialInv(Configuration());
    }

    /** No round ever holds more than n shares. */
    lemma RoundBound(r: nat)
      requires Valid()
      ensures Count(Snapshot(), r) <= n
    {
      if r in received {
        LedgerBound(received[r], n);
      }
    }

    /**
     One pass of the receive loop: party i sent `sigBytes` for round r. The
     new state and the outcome are those of Receive.
     */
    method OnShare(i: int, r: int, sigBytes: Bytes) returns (o: Step)
      requires Valid() && failure == None
      modifies this
      ensures (Snapshot(), o) == Receive(Configuration(), old(Snapshot()), ShareMsg(i, r, sigBytes))
      ensures Valid()
      ensures sent == old(sent)
    {
      ghost var s0, m := Snapshot(), ShareMsg(i, r, sigBytes);
      var sig := pk.deserialize(sigBytes);
      if !(0 <= i < n) {
        failure := Some(SenderOutOfRange);
        o := Crashed(SenderOutOfRange);
      } else if r < 0 {
        failure := Some(NegativeRound);
        o := Crashed(NegativeRound);
      } else {
        // the ledger is a defaultdict: looking the round up creates its entry
        var round: nat := r;
        received := received[round := RoundOf(received, round)];
        var h := MessageHash(Configuration(), round);
        if i in Senders(received[round]) {
          o := Redundant;
        } else if !pk.verifyShare(sig, i, h) {
          o := ShareFailed;
        } else {
          // the entry the lookup created is overwritten by the recorded ledger
          assert Accept(Configuration(), Snapshot(), i, round, sig) == Accept(Configuration(), s0, i, round, sig) by {
            var e' := Record(RoundOf(s0.received, round), i, sig);
            assert received[round := e'] == s0.received[round := e'];
          }
          o := Admit(i, round, sig, h);
        }
      }
      ReceiveInv(Configuration(), s0, m);
    }

    /** The accepting branch of the receive loop, for a share that verified. */
    method Admit(i: nat, round: nat, sig: Element, h: Element) returns (o: Step)
      requires failure == None && h == MessageHash(Configuration(), round)
      requires i !in Senders(RoundOf(received, round))
      modifies this
      ensures (Snapshot(), o) == Accept(Configuration(), old(Snapshot()), i, round, sig)
      ensures sent == old(sent)
    {
      received := received[round := Record(RoundOf(received, round), i, sig)];
      o := Stored(|received[round]|);
      if |received[round]| == f + 1 {
        var combined := pk.combineShares(Quorum(received[round], f + 1));
        if !pk.verifySignature(combined, h) {
          failure := Some(CombinedSignatureInvalid);
          o := Crashed(CombinedSignatureInvalid);
        } else {
          var bit := CoinBit(sha256, pk.serialize(combined));
          // put_nowait into the round's one-place queue
          if round in outputs {
            failure := Some(QueueFull);
            o := Crashed(QueueFull);
          } else {
            outputs := outputs[round := bit];
            o := Resolved(bit);
          }
        }
      }
    }

    /**
     The coin handle for a round: broadcast this party's share, then take the
     round's bit from its output queue if it is there. `None` stands for the
     call still waiting; taking the bit empties the queue.
     */
    method GetCoin(round: int) returns (coin: Option<Bit>)
      requires Valid()
      modifies this
      ensures Valid()
      ensures sent == old(sent) + [Coin(round, pk.serialize(sk.sign(MessageHash(Configuration(), round))))]
      ensures received == old(received) && failure == old(failure)
      ensures coin.Some? <==> round >= 0 && round as nat in old(outputs)
      ensures coin.Some? ==>
        Count(Snapshot(), round as nat) > f &&
        coin.value == RoundCoin(Configuration(), RoundOf(received, round as nat)) &&
        outputs == old(outputs) - {round as nat}
      ensures coin.None? ==> outputs == old(outputs)
    {
      var h := MessageHash(Configuration(), round);
      sent := sent + [Coin(round, pk.serialize(sk.sign(h)))];
      if round >= 0 && round as nat in outputs {
        coin := Some(outputs[round as nat]);
        outputs := outputs - {round as nat};
      } else {
        coin := None;
      }
    }
  }

  /**
   shared_coin's construction: the public key must require f+1 shares out of
   n shareholders, otherwise no instance is created.
   */
  method SharedCoin(sid: SessionId, pid: nat, n: nat, f: nat, pk: PublicKey, sk: PrivateKey,
                    sha256: Bytes -> Sha256Digest)
    returns (res: Result<CoinEngine, Failure>)
    ensures res.Err? <==> pk.k != f + 1 || pk.l != n
    ensures res.Err? ==> res.error == ConfigMismatch
    ensures res.Ok? ==>
      fresh(res.value) && res.value.Valid() && res.value.Snapshot() == Initial() &&
      res.value.Configuration() == Config(sid, n, f, pk, sha256) &&
      res.value.pid == pid && res.value.sk == sk && res.value.sent == []
  {
    if pk.k != f + 1 || pk.l != n {
      return Err(ConfigMismatch);
    }
    var engine := new CoinEngine(sid, pid, n, f, pk, sk, sha256);
    return Ok(engine);
  }

  /**
   Two engines of the same instance agree on every round both have taken past
   the threshold, given the threshold scheme's combination property; in
   particular on any bit both have queued.
   */
  lemma EnginesAgree(a: CoinEngine, b: CoinEngine, r: nat)
    requires a.Valid() && b.Valid() && a.Configuration() == b.Configuration()
    requires CombinationDetermined(a.Configuration(), MessageHash(a.Configuration(), r))
    requires Count(a.Snapshot(), r) > a.f && Count(b.Snapshot(), r) > b.f
    ensures RoundCoin(a.Configuration(), RoundOf(a.received, r)) ==
            RoundCoin(b.Configuration(), RoundOf(b.received, r))
    ensures r in a.outputs && r in b.outputs ==> a.outputs[r] == b.outputs[r]
  {
    var c := a.Configuration();
    assert r in a.received && r in b.received;
    assert LegitRound(c, r, a.received[r]) && LegitRound(c, r, b.received[r]);
    Agreement(c, r, a.received[r], b.received[r]);
  }
}

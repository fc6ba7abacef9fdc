/**
 One pass of shared_coin's receive loop as a function on the coin's state,
 and what it guarantees: what a dropped share leaves alone, what an accepted
 share adds, when a round's bit is published, and that each round is
 published at most once over any run of the loop.
 */
module CoinState {
  import opened Crypto
  import opened Ledger

  datatype Option<T> = None | Some(value: T)

  /** Conditions that end the receive task. */
  datatype Failure =
    | ConfigMismatch            // the public key's (k, l) is not (f+1, n)
    | SenderOutOfRange          // a share from a party id outside [0, n)
    | NegativeRound             // a share for a negative round
    | CombinedSignatureInvalid  // f+1 verified shares combined to a signature that fails
    | QueueFull                 // a second bit put into a round's one-place output queue

  /** What one pass of the receive loop did with a share. */
  datatype Step =
    | Redundant           // the party already has a share for the round: dropped
    | ShareFailed         // the share does not verify: dropped
    | Stored(count: nat)  // accepted; the round now holds `count` shares and no bit was published
    | Resolved(bit: Bit)  // accepted; the round reached f+1 shares and `bit` was published
    | Crashed(failure: Failure)

  /** A share as it arrives: the sender's id, the round and the serialized share. */
  datatype ShareMsg = ShareMsg(sender: int, round: int, share: Bytes)

  /** The fixed parameters of one coin instance. */
  datatype Config = Config(sid: SessionId, n: nat, f: nat, pk: PublicKey, sha256: Bytes -> Sha256Digest)

  /**
   The coin's mutable state: the per-round ledgers, the bit waiting in each
   round's one-place output queue, and the failure that ended the loop, if any.
   */
  datatype State = State(received: map<nat, Entries>, outputs: map<nat, Bit>, failure: Option<Failure>)

  /** The shares of round r; a round never referenced holds none. */
  function RoundOf(ledgers: map<nat, Entries>, r: nat): Entries {
    if r in ledgers then ledgers[r] else []
  }

  function Count(s: State, r: nat): nat {
    |RoundOf(s.received, r)|
  }

  /** The message every share for round r signs. */
  function MessageHash(c: Config, r: int): Element {
    c.pk.hashMessage(c.sid, r)
  }

  /** The signature the first f+1 shares of a round combine to. */
  function CombinedSignature(c: Config, e: Entries): Element
    requires c.f + 1 <= |e|
  {
    c.pk.combineShares(Quorum(e, c.f + 1))
  }

  /** The bit a round resolves to: derived from its combined signature. */
  function RoundCoin(c: Config, e: Entries): Bit
    requires c.f + 1 <= |e|
  {
    CoinBit(c.sha256, c.pk.serialize(CombinedSignature(c, e)))
  }

  /**
   A pass of the receive loop for a share `bytes` from party i for round r.
   The range checks are fatal; a party that already has a share for the round
   is dropped before its share is verified; looking the round up creates its
   empty ledger; the share that brings a round to exactly f+1 shares has the
   first f+1 combined, checked (fatal if invalid) and turned into the bit
   that is put into the round's output queue.
   */
  function Receive(c: Config, s: State, m: ShareMsg): (State, Step)
    requires s.failure.None?
  {
    if !(0 <= m.sender < c.n) then
      (s.(failure := Some(SenderOutOfRange)), Crashed(SenderOutOfRange))
    else if m.round < 0 then
      (s.(failure := Some(NegativeRound)), Crashed(NegativeRound))
    else
      Dispatch(c, s, m.sender, m.round, c.pk.deserialize(m.share))
  }

  /** The pass after the range checks: drop duplicates, then unverifiable shares. */
  function Dispatch(c: Config, s: State, i: nat, r: nat, sig: Element): (State, Step)
    requires s.failure.None?
  {
    var e := RoundOf(s.received, r);
    if i in Senders(e) then
      (s.(received := s.received[r := e]), Redundant)
    else if !c.pk.verifyShare(sig, i, MessageHash(c, r)) then
      (s.(received := s.received[r := e]), ShareFailed)
    else
      Accept(c, s, i, r, sig)
  }

  /**
   Recording an accepted share and, when it brings the round to exactly f+1
   shares, combining the first f+1 and putting the bit into the round's queue.
   */
  function Accept(c: Config, s: State, i: nat, r: nat, sig: Element): (State, Step)
    requires s.failure.None? && i !in Senders(RoundOf(s.received, r))
  {
    var e' := Record(RoundOf(s.received, r), i, sig);
    var stored := s.(received := s.received[r := e']);
    if |e'| != c.f + 1 then
      (stored, Stored(|e'|))
    else if !c.pk.verifySignature(CombinedSignature(c, e'), MessageHash(c, r)) then
      (stored.(failure := Some(CombinedSignatureInvalid)), Crashed(CombinedSignatureInvalid))
    else if r in s.outputs then
      (stored.(failure := Some(QueueFull)), Crashed(QueueFull))
    else
      (stored.(outputs := s.outputs[r := RoundCoin(c, e')]), Resolved(RoundCoin(c, e')))
  }

  /** The share `sig` from party i for round r is one the loop accepts. */
  ghost predicate Admissible(c: Config, s: State, i: int, r: int, sig: Element) {
    0 <= i < c.n && r >= 0 && i !in Senders(RoundOf(s.received, r)) &&
    c.pk.verifyShare(sig, i, MessageHash(c, r))
  }

  // ---------------------------------------------------------------------
  // The invariant of a live coin

  /** The construction checks: threshold f+1, n shareholders. */
  predicate ConfigOk(c: Config) {
    c.pk.k == c.f + 1 && c.pk.l == c.n
  }

  /** A ledger for round r: one share per party, parties in [0, n), all verified. */
  ghost predicate LegitRound(c: Config, r: nat, e: Entries) {
    OneSharePerParty(e) && FromParties(e, c.n) && AllVerified(c.pk, MessageHash(c, r), e)
  }

  /** Every round's ledger is legitimate. */
  ghost predicate LedgersLegit(c: Config, ledgers: map<nat, Entries>) {
    forall r :: r in ledgers ==> LegitRound(c, r, ledgers[r])
  }

  /** A queued bit belongs to a round past the threshold and is that round's coin. */
  ghost predicate OutputsSound(c: Config, ledgers: map<nat, Entries>, outputs: map<nat, Bit>) {
    forall r :: r in outputs ==>
      |RoundOf(ledgers, r)| > c.f && outputs[r] == RoundCoin(c, RoundOf(ledgers, r))
  }

  /** Every round past the threshold has a valid combined signature. */
  ghost predicate SignaturesValid(c: Config, ledgers: map<nat, Entries>) {
    forall r :: r in ledgers && |ledgers[r]| > c.f ==>
      c.pk.verifySignature(CombinedSignature(c, ledgers[r]), MessageHash(c, r))
  }

  ghost predicate Inv(c: Config, s: State) {
    && ConfigOk(c)
    && LedgersLegit(c, s.received)
    && OutputsSound(c, s.received, s.outputs)
    && (s.failure.None? ==> SignaturesValid(c, s.received))
  }

  /** The state of a freshly constructed coin. */
  function Initial(): State {
    State(map[], map[], None)
  }

  lemma InitialInv(c: Config)
    requires ConfigOk(c)
    ensures Inv(c, Initial())
  {
  }

  /** Once a round holds f+1 shares, further shares leave its combined signature and bit alone. */
  lemma CoinStable(c: Config, e: Entries, e': Entries)
    requires c.f + 1 <= |e| && e <= e'
    ensures CombinedSignature(c, e') == CombinedSignature(c, e)
    ensures RoundCoin(c, e') == RoundCoin(c, e)
  {
    QuorumStable(e, e', c.f + 1);
  }

  /** Creating a round's empty ledger on lookup changes none of the invariant's parts. */
  lemma TouchKeeps(c: Config, ledgers: map<nat, Entries>, outputs: map<nat, Bit>, r: nat)
    requires LedgersLegit(c, ledgers) && OutputsSound(c, ledgers, outputs)
    ensures var l' := ledgers[r := RoundOf(ledgers, r)];
      LedgersLegit(c, l') && OutputsSound(c, l', outputs) &&
      (SignaturesValid(c, ledgers) ==> SignaturesValid(c, l'))
  {
    var l' := ledgers[r := RoundOf(ledgers, r)];
    assert forall q: nat :: RoundOf(l', q) == RoundOf(ledgers, q);
  }

  /**
   Appending a verified share from a party new to the round keeps the ledgers
   legitimate and leaves every queued bit the coin of its round; the
   signatures stay valid unless the round has just reached f+1 shares.
   */
  lemma {:induction false} RecordKeeps(c: Config, ledgers: map<nat, Entries>, outputs: map<nat, Bit>,
                                       r: nat, i: nat, sig: Element)
    requires LedgersLegit(c, ledgers) && OutputsSound(c, ledgers, outputs)
    requires i < c.n && i !in Senders(RoundOf(ledgers, r)) && c.pk.verifyShare(sig, i, MessageHash(c, r))
    ensures var e' := Record(RoundOf(ledgers, r), i, sig);
      var l' := ledgers[r := e'];
      LedgersLegit(c, l') && OutputsSound(c, l', outputs) &&
      (SignaturesValid(c, ledgers) && |e'| != c.f + 1 ==> SignaturesValid(c, l')) &&
      ((SignaturesValid(c, ledgers) && |e'| == c.f + 1 &&
        c.pk.verifySignature(CombinedSignature(c, e'), MessageHash(c, r))) ==> SignaturesValid(c, l'))
  {
    var e := RoundOf(ledgers, r);
    var e' := Record(e, i, sig);
    var l' := ledgers[r := e'];
    assert LegitRound(c, r, e');
    if |e| > c.f {
      CoinStable(c, e, e');
    }
    assert forall q: nat :: q != r ==> RoundOf(l', q) == RoundOf(ledgers, q);
    assert LedgersLegit(c, l');
  }

  /** Every pass of the loop keeps the invariant. */
  lemma {:induction false} ReceiveInv(c: Config, s: State, m: ShareMsg)
    requires Inv(c, s) && s.failure.None?
    ensures Inv(c, Receive(c, s, m).0)
  {
    var i, r := m.sender, m.round;
    if 0 <= i < c.n && r >= 0 {
      var e := RoundOf(s.received, r);
      var sig := c.pk.deserialize(m.share);
      if i !in Senders(e) && c.pk.verifyShare(sig, i, MessageHash(c, r)) {
        RecordKeeps(c, s.received, s.outputs, r, i, sig);
        var e' := Record(e, i, sig);
        if |e'| == c.f + 1 && r !in s.outputs {
          var l' := s.received[r := e'];
          assert RoundOf(l', r) == e';
        }
      } else {
        TouchKeeps(c, s.received, s.outputs, r);
      }
    }
  }

  // ---------------------------------------------------------------------
  // What one pass does

  /** A failed range check ends the loop and changes nothing else. */
  lemma RangeChecksFatal(c: Config, s: State, m: ShareMsg)
    requires s.failure.None?
    ensures var (s', o) := Receive(c, s, m);
      (o == Crashed(SenderOutOfRange) <==> !(0 <= m.sender < c.n)) &&
      (o == Crashed(NegativeRound) <==> 0 <= m.sender < c.n && m.round < 0) &&
      (o == Crashed(SenderOutOfRange) || o == Crashed(NegativeRound) ==>
        s'.received == s.received && s'.outputs == s.outputs && s'.failure == Some(o.failure))
  {
  }

  /**
   A party that already has a share for the round is dropped, whether or not
   the new share verifies; a new share that fails verification is dropped.
   Either way no round's shares, no output and no failure change, and the
   failed share takes no place: the same party may still be accepted later.
   */
  lemma {:induction false} RejectedChangesNothing(c: Config, s: State, m: ShareMsg)
    requires s.failure.None?
    ensures var (s', o) := Receive(c, s, m);
      (o == Redundant <==>
        0 <= m.sender < c.n && m.round >= 0 && m.sender in Senders(RoundOf(s.received, m.round))) &&
      (o == ShareFailed <==>
        0 <= m.sender < c.n && m.round >= 0 && m.sender !in Senders(RoundOf(s.received, m.round)) &&
        !c.pk.verifyShare(c.pk.deserialize(m.share), m.sender, MessageHash(c, m.round))) &&
      (o == Redundant || o == ShareFailed ==>
        (forall q: nat :: RoundOf(s'.received, q) == RoundOf(s.received, q)) &&
        s'.outputs == s.outputs && s'.failure == None)
  {
    var (s', o) := Receive(c, s, m);
    if o == Redundant || o == ShareFailed {
      forall q: nat ensures RoundOf(s'.received, q) == RoundOf(s.received, q) {
        if q != m.round {
          assert s'.received == s.received[m.round := RoundOf(s.received, m.round)];
        }
      }
    }
  }

  /**
   An admissible share is appended to its round: every other round and every
   share already in the round stay as they were. The loop goes on after it
   unless it brings the round to f+1 shares whose combined signature fails
   (or overfills the queue, which PublishAtCrossing rules out); a crash
   records its failure, and `Stored` reports the round's new count.
   */
  lemma AcceptAppends(c: Config, s: State, m: ShareMsg)
    requires s.failure.None?
    ensures var (s', o) := Receive(c, s, m);
      var sig := c.pk.deserialize(m.share);
      (Admissible(c, s, m.sender, m.round, sig) <==> o.Stored? || o.Resolved? || o == Crashed(CombinedSignatureInvalid) || o == Crashed(QueueFull)) &&
      (Admissible(c, s, m.sender, m.round, sig) ==>
        s'.received == s.received[m.round as nat := Record(RoundOf(s.received, m.round), m.sender as nat, sig)]) &&
      (o.Stored? ==> o.count == Count(s', m.round as nat)) &&
      (o.Stored? || o.Resolved? ==> s'.failure == None) &&
      (o.Crashed? ==> s'.failure == Some(o.failure)) &&
      (o == Crashed(CombinedSignatureInvalid) <==>
        Admissible(c, s, m.sender, m.round, sig) && Count(s, m.round as nat) == c.f &&
        !c.pk.verifySignature(CombinedSignature(c, RoundOf(s'.received, m.round)), MessageHash(c, m.round)))
  {
  }

  /** Each pass adds at most one share to one round and removes none. */
  lemma {:induction false} CountsGrow(c: Config, s: State, m: ShareMsg)
    requires s.failure.None?
    ensures var s' := Receive(c, s, m).0;
      forall q: nat :: Count(s, q) <= Count(s', q) <= Count(s, q) + (if q == m.round then 1 else 0)
  {
    var s' := Receive(c, s, m).0;
    forall q: nat ensures Count(s, q) <= Count(s', q) <= Count(s, q) + (if q == m.round then 1 else 0) {
      if q != m.round {
        assert RoundOf(s'.received, q) == RoundOf(s.received, q);
      }
    }
  }

  /**
   The bit of round r is published by exactly the pass that brings the round
   from f to f+1 shares (unless the combined signature fails, which is
   fatal); it is the coin of the round's first f+1 shares, and a live coin's
   output queue for that round is still empty then, so it is never overfilled.
   */
  lemma {:induction false} PublishAtCrossing(c: Config, s: State, m: ShareMsg)
    requires Inv(c, s) && s.failure.None?
    ensures var (s', o) := Receive(c, s, m);
      var sig := c.pk.deserialize(m.share);
      o != Crashed(QueueFull) &&
      (o.Resolved? <==>
        Admissible(c, s, m.sender, m.round, sig) && Count(s, m.round as nat) == c.f &&
        c.pk.verifySignature(CombinedSignature(c, RoundOf(s'.received, m.round)), MessageHash(c, m.round))) &&
      (o.Resolved? ==>
        m.round as nat !in s.outputs && s'.outputs == s.outputs[m.round as nat := o.bit] &&
        o.bit == RoundCoin(c, RoundOf(s'.received, m.round)) &&
        |Quorum(RoundOf(s'.received, m.round), c.f + 1)| == c.f + 1) &&
      (!o.Resolved? ==> s'.outputs == s.outputs)
  {
    var (s', o) := Receive(c, s, m);
    if 0 <= m.sender < c.n && m.round >= 0 && m.round in s.outputs {
      assert Count(s, m.round as nat) > c.f;
    }
  }

  /**
   The correctness of the threshold scheme: any f+1 valid shares for `h`
   combine to a signature that verifies for `h`.
   */
  ghost predicate CombinationVerifies(c: Config, h: Element) {
    forall q :: ValidQuorum(c, h, q) ==> c.pk.verifySignature(c.pk.combineShares(q), h)
  }

  /**
   With a correct threshold scheme, a share with its sender and round in
   range never ends a live loop: the combination at the crossing verifies and
   the queue is never overfilled.
   */
  lemma {:induction false} ReceiveLive(c: Config, s: State, m: ShareMsg)
    requires Inv(c, s) && s.failure.None?
    requires 0 <= m.sender < c.n && m.round >= 0
    requires CombinationVerifies(c, MessageHash(c, m.round))
    ensures Receive(c, s, m).0.failure.None?
  {
    var sig := c.pk.deserialize(m.share);
    var r: nat := m.round;
    var e := RoundOf(s.received, r);
    if Admissible(c, s, m.sender, r, sig) && |e| == c.f {
      var e' := Record(e, m.sender, sig);
      RecordKeeps(c, s.received, s.outputs, r, m.sender, sig);
      assert LegitRound(c, r, s.received[r := e'][r]);
      var q := Quorum(e', c.f + 1);
      assert forall j :: 0 <= j < |q| ==> q[j] == e'[j];
      assert ValidQuorum(c, MessageHash(c, r), q);
    }
    PublishAtCrossing(c, s, m);
    AcceptAppends(c, s, m);
  }

  // ---------------------------------------------------------------------
  // Runs of the loop

  /**
   The loop fed a sequence of shares: the final state and what each pass
   did. A failure ends the task, after which nothing more is read.
   */
  function Run(c: Config, s: State, msgs: seq<ShareMsg>): (State, seq<Step>)
    decreases |msgs|
  {
    if msgs == [] || s.failure.Some? then (s, [])
    else
      var (s1, o) := Receive(c, s, msgs[0]);
      var (s2, os) := Run(c, s1, msgs[1..]);
      (s2, [o] + os)
  }

  /** Step j of a run published round r's bit. */
  ghost predicate PublishesAt(msgs: seq<ShareMsg>, steps: seq<Step>, j: int, r: nat) {
    0 <= j < |steps| && j < |msgs| && steps[j].Resolved? && msgs[j].round == r
  }

  /** A pass after the first that publishes r is a pass of the rest of the run publishing r. */
  lemma PublishesLater(msgs: seq<ShareMsg>, o: Step, rest: seq<Step>, j: int, r: nat)
    requires PublishesAt(msgs, [o] + rest, j, r) && j > 0
    ensures PublishesAt(msgs[1..], rest, j - 1, r)
  {
    assert ([o] + rest)[j] == rest[j - 1] && msgs[j] == msgs[1..][j - 1];
  }

  /** A run keeps the invariant and reports at most one step per share. */
  lemma {:induction false} RunInv(c: Config, s: State, msgs: seq<ShareMsg>)
    requires Inv(c, s)
    ensures Inv(c, Run(c, s, msgs).0)
    ensures |Run(c, s, msgs).1| <= |msgs|
    decreases |msgs|
  {
    if msgs != [] && s.failure.None? {
      ReceiveInv(c, s, msgs[0]);
      RunInv(c, Receive(c, s, msgs[0]).0, msgs[1..]);
    }
  }

  /** A run never removes shares: a round past the threshold stays past it. */
  lemma {:induction false} RunCountsGrow(c: Config, s: State, msgs: seq<ShareMsg>, r: nat)
    ensures Count(s, r) <= Count(Run(c, s, msgs).0, r)
    decreases |msgs|
  {
    if msgs != [] && s.failure.None? {
      CountsGrow(c, s, msgs[0]);
      RunCountsGrow(c, Receive(c, s, msgs[0]).0, msgs[1..], r);
    }
  }

  /** A round that already holds more than f shares is never published again. */
  lemma {:induction false} NoRepublish(c: Config, s: State, msgs: seq<ShareMsg>, r: nat)
    requires Inv(c, s) && Count(s, r) > c.f
    ensures forall j :: !PublishesAt(msgs, Run(c, s, msgs).1, j, r)
    decreases |msgs|
  {
    if msgs != [] && s.failure.None? {
      var (s1, o) := Receive(c, s, msgs[0]);
      PublishAtCrossing(c, s, msgs[0]);
      ReceiveInv(c, s, msgs[0]);
      CountsGrow(c, s, msgs[0]);
      NoRepublish(c, s1, msgs[1..], r);
      var steps, rest := Run(c, s, msgs).1, Run(c, s1, msgs[1..]).1;
      assert steps == [o] + rest;
      forall j ensures !PublishesAt(msgs, steps, j, r) {
        if j == 0 {
          assert o.Resolved? ==> Count(s, msgs[0].round as nat) == c.f;
        } else if 0 < j < |steps| && j < |msgs| {
          assert steps[j] == rest[j - 1] && msgs[j] == msgs[1..][j - 1];
          assert !PublishesAt(msgs[1..], rest, j - 1, r);
        }
      }
    }
  }

  /**
   The threshold fires at most once per round: over any run of the loop from
   a state satisfying the invariant, no two passes publish the same round.
   */
  lemma {:induction false} PublishedAtMostOnce(c: Config, s: State, msgs: seq<ShareMsg>, r: nat)
    requires Inv(c, s)
    ensures forall j, j' ::
      PublishesAt(msgs, Run(c, s, msgs).1, j, r) && PublishesAt(msgs, Run(c, s, msgs).1, j', r) ==> j == j'
    decreases |msgs|
  {
    if msgs != [] && s.failure.None? {
      var (s1, o) := Receive(c, s, msgs[0]);
      ReceiveInv(c, s, msgs[0]);
      PublishedAtMostOnce(c, s1, msgs[1..], r);
      var steps := Run(c, s, msgs).1;
      var rest := Run(c, s1, msgs[1..]).1;
      assert steps == [o] + rest;
      if o.Resolved? && msgs[0].round == r {
        PublishAtCrossing(c, s, msgs[0]);
        NoRepublish(c, s1, msgs[1..], r);
      }
      forall j, j' | PublishesAt(msgs, steps, j, r) && PublishesAt(msgs, steps, j', r)
        ensures j == j'
      {
        if j > 0 {
          PublishesLater(msgs, o, rest, j, r);
        }
        if j' > 0 {
          PublishesLater(msgs, o, rest, j', r);
        }
      }
    }
  }

  /**
   The threshold fires at least once: a run of a live coin that takes round
   r from at most f shares to more than f, without the loop failing,
   published r's bit on some pass.
   */
  lemma {:induction false} PublishedWhenReached(c: Config, s: State, msgs: seq<ShareMsg>, r: nat)
    requires Inv(c, s) && s.failure.None? && Count(s, r) <= c.f
    requires Run(c, s, msgs).0.failure.None? && Count(Run(c, s, msgs).0, r) > c.f
    ensures exists j :: PublishesAt(msgs, Run(c, s, msgs).1, j, r)
    decreases |msgs|
  {
    if msgs == [] {
      assert false;
    }
    var (s1, o) := Receive(c, s, msgs[0]);
    var steps := Run(c, s, msgs).1;
    var rest := Run(c, s1, msgs[1..]).1;
    assert steps == [o] + rest;
    ReceiveInv(c, s, msgs[0]);
    CountsGrow(c, s, msgs[0]);
    PublishAtCrossing(c, s, msgs[0]);
    if s1.failure.Some? {
      assert false;
    }
    if Count(s1, r) > c.f {
      assert msgs[0].round == r;
      assert Count(s, r) == c.f;
      assert PublishesAt(msgs, steps, 0, r);
    } else {
      PublishedWhenReached(c, s1, msgs[1..], r);
      var j :| PublishesAt(msgs[1..], rest, j, r);
      assert PublishesAt(msgs, steps, j + 1, r);
    }
  }

  /**
   With a correct threshold scheme, a run of in-range shares keeps the loop
   alive and takes one step per share.
   */
  lemma {:induction false} RunLive(c: Config, s: State, msgs: seq<ShareMsg>)
    requires Inv(c, s) && s.failure.None?
    requires forall j :: 0 <= j < |msgs| ==> 0 <= msgs[j].sender < c.n && msgs[j].round >= 0
    requires forall r: nat :: CombinationVerifies(c, MessageHash(c, r))
    ensures Run(c, s, msgs).0.failure.None? && |Run(c, s, msgs).1| == |msgs|
    decreases |msgs|
  {
    if msgs != [] {
      ReceiveLive(c, s, msgs[0]);
      ReceiveInv(c, s, msgs[0]);
      RunLive(c, Receive(c, s, msgs[0]).0, msgs[1..]);
    }
  }

  /**
   The threshold fires: with a correct threshold scheme, a run of in-range
   shares that takes round r from at most f shares to more than f publishes
   r's bit on some pass.
   */
  lemma ThresholdFires(c: Config, s: State, msgs: seq<ShareMsg>, r: nat)
    requires Inv(c, s) && s.failure.None? && Count(s, r) <= c.f
    requires forall j :: 0 <= j < |msgs| ==> 0 <= msgs[j].sender < c.n && msgs[j].round >= 0
    requires forall r': nat :: CombinationVerifies(c, MessageHash(c, r'))
    requires Count(Run(c, s, msgs).0, r) > c.f
    ensures exists j :: PublishesAt(msgs, Run(c, s, msgs).1, j, r)
  {
    RunLive(c, s, msgs);
    PublishedWhenReached(c, s, msgs, r);
  }

  // ---------------------------------------------------------------------
  // Agreement between parties

  /** `f+1` shares from distinct parties, each valid for the message hash `h`. */
  ghost predicate ValidQuorum(c: Config, h: Element, q: Entries) {
    |q| == c.f + 1 && OneSharePerParty(q) && AllVerified(c.pk, h, q)
  }

  /**
   The property the threshold scheme provides: any f+1 valid shares for the
   same message combine to the same signature.
   */
  ghost predicate CombinationDetermined(c: Config, h: Element) {
    forall q1, q2 :: ValidQuorum(c, h, q1) && ValidQuorum(c, h, q2) ==>
      c.pk.combineShares(q1) == c.pk.combineShares(q2)
  }

  /**
   Agreement: two ledgers of verified shares for the same round, each with
   more than f shares from distinct parties, resolve to the same bit,
   whichever shares each one accepted first.
   */
  lemma Agreement(c: Config, r: nat, e1: Entries, e2: Entries)
    requires CombinationDetermined(c, MessageHash(c, r))
    requires |e1| > c.f && LegitRound(c, r, e1)
    requires |e2| > c.f && LegitRound(c, r, e2)
    ensures RoundCoin(c, e1) == RoundCoin(c, e2)
  {
    var q1, q2 := Quorum(e1, c.f + 1), Quorum(e2, c.f + 1);
    assert forall j :: 0 <= j < |q1| ==> q1[j] == e1[j];
    assert forall j :: 0 <= j < |q2| ==> q2[j] == e2[j];
    assert ValidQuorum(c, MessageHash(c, r), q1) && ValidQuorum(c, MessageHash(c, r), q2);
  }
}

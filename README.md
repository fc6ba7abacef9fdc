# Common coin: the per-round share ledger and threshold state machine

This project models the common coin of HoneyBadgerMPC
(`honeybadgermpc/protocols/commoncoin.py`). A common coin gives every
party of an asynchronous Byzantine agreement the same unpredictable bit for
each round. Each party broadcasts a threshold-signature share on the message
`(sid, round)`. Once a party holds `f+1` verified shares for a round, it
combines them into the round's signature. The round's bit is the low bit of
the first byte of that signature's SHA-256 digest.

The model has four modules:

- `Crypto` holds the cryptography, kept abstract. The Boldyreva threshold-BLS
  key pair is two records whose fields are the library operations the coin
  calls (`hash_message`, `verify_share`, `combine_shares`,
  `verify_signature`, `serialize`, `deserialize1`, `sign`). SHA-256 is a
  function that always yields 32 bytes. `CoinBit` is the bit derivation.
- `Ledger` is the ledger of one round: the accepted `(party, share)` pairs
  in acceptance order. This stands in for the insertion-ordered `dict`
  `received[r]`. The module proves the facts about one round: at most one
  share per party, the first `f+1` shares go into the combination, and at
  most `n` shares per round.
- `CoinState` is one pass of the receive loop `_recv`, written as a
  function `Receive` on the coin's state (the ledgers, the one-place output
  queues and the failure that ended the loop). It also holds the invariant
  that every pass keeps, and `Run`, the loop fed a sequence of shares. Its
  lemmas cover:
  - what a dropped share leaves alone;
  - what an accepted share adds;
  - when a round is published;
  - that no run publishes a round more than once, and that a run in which
    the loop stays alive and a round passes `f` shares publishes it (a round
    that never gets more than `f` shares is never published, and one whose
    combined signature fails ends the loop instead);
  - that two parties agree on the bit.
- `CommonCoin` is the imperative side. `CoinEngine` is a class with the
  mutable state of `shared_coin`. `OnShare` is one pass of the receive loop,
  proved equal to `Receive` and to keep the invariant. `GetCoin` is the coin
  handle `get_coin`. `SharedCoin` is the construction with its key checks.

The `assert` statements in the loop (lines 45, 46 and 74) are fatal in the
source: a failing one ends the receive task. The model makes them a
`Crashed` outcome that records a `Failure` in the state. After that, no
further pass runs. `put_nowait` into a full queue (line 80) is fatal in the
same way (`QueueFull`), and `PublishAtCrossing` proves it never happens.

The docstring of `shared_coin` (line 29) only says that `getCoin(r)`
blocks. A caller might expect repeated calls for one round to return the
same bit and to broadcast once; the code does neither, and the model
follows the code:

- `get_coin` takes the bit out of the round's one-place queue
  (`Queue.get`). A second call for the same round would wait forever; it
  does not return the bit again. `GetCoin` removes the bit from `outputs`.
- `get_coin` broadcasts this party's share on every call, not once per
  round. `GetCoin` appends to `sent` on every call.
- Looking up a round in the `defaultdict` creates its empty ledger, even
  when the share is then dropped. The model creates that entry too, so
  "nothing changes" is stated on each round's list of shares, where an
  absent round and an empty one are the same.

## Model

| member | source | states |
|---|---|---|
| `Crypto.CoinBit` | honeybadgermpc/protocols/commoncoin.py:77 | The coin is 0 or 1: it is 0 exactly when the first byte of the SHA-256 digest of the serialized signature is even. |
| `Ledger.Record` | honeybadgermpc/protocols/commoncoin.py:61 | Storing `received[r][i] = sig` for a party with no share yet adds the entry `(i, sig)` at the end. Earlier entries stay as they were, the senders grow by exactly `i`, and each party still has at most one share. |
| `Ledger.Quorum` | honeybadgermpc/protocols/commoncoin.py:72 | The combination gets exactly `f+1` shares: the first ones in acceptance order, from distinct parties, all from the round's ledger. |
| `Ledger.QuorumStable` | honeybadgermpc/protocols/commoncoin.py:72 | Shares accepted later never change the first `f+1` shares. |
| `Ledger.LedgerBound` | honeybadgermpc/protocols/commoncoin.py:45-61 | A ledger with one share per party, all from parties in `[0, n)`, holds at most `n` shares. |
| `CoinState.MessageHash` | honeybadgermpc/protocols/commoncoin.py:51 | The message a round's shares sign, `hash_message` of `(sid, r)`. No ensures of its own; `RejectedChangesNothing`, `AcceptAppends` and `GetCoin` state its use. |
| `CoinState.CombinedSignature` | honeybadgermpc/protocols/commoncoin.py:72-74 | The combination of the round's first `f+1` shares. No ensures of its own; `Ledger.Quorum` states which shares go in, `CoinStable` that later shares do not change it, and `PublishAtCrossing` that a publication needs it to verify. |
| `CoinState.RoundCoin` | honeybadgermpc/protocols/commoncoin.py:72-77 | The bit of a round: `CoinBit` of the serialized combined signature. No ensures of its own; `Crypto.CoinBit` states the bit, `CoinStable` and `Agreement` its stability and agreement. |
| `CoinState.Receive` | honeybadgermpc/protocols/commoncoin.py:40-46 | One pass of the loop, with the two fatal range checks first. No ensures of its own; `RangeChecksFatal`, `RejectedChangesNothing`, `AcceptAppends`, `CountsGrow`, `PublishAtCrossing` and `ReceiveInv` state what it does, and `OnShare` is proved equal to it. |
| `CoinState.Dispatch` | honeybadgermpc/protocols/commoncoin.py:47-59 | The duplicate check, then share verification, each dropping the share. No ensures of its own; `RejectedChangesNothing` states both drops as if-and-only-ifs. |
| `CoinState.Accept` | honeybadgermpc/protocols/commoncoin.py:61-80 | Recording the share and, at exactly `f+1` shares, combining, checking and enqueueing the bit. No ensures of its own; `AcceptAppends`, `PublishAtCrossing` and `RecordKeeps` state it, and `Admit` is proved equal to it. |
| `CoinState.Run` | honeybadgermpc/protocols/commoncoin.py:36-40 | The loop fed a list of shares, stopping at the first failure. No ensures of its own; `RunInv`, `RunCountsGrow`, `NoRepublish`, `PublishedAtMostOnce` and `PublishedWhenReached` state what it does. |
| `CoinState.InitialInv` | honeybadgermpc/protocols/commoncoin.py:31-34 | A fresh coin that passed the key checks (empty ledgers, empty queues) satisfies the invariant. |
| `CoinState.CoinStable` | honeybadgermpc/protocols/commoncoin.py:72-77 | Once a round has `f+1` shares, later shares leave its combined signature and its bit unchanged. |
| `CoinState.TouchKeeps` | honeybadgermpc/protocols/commoncoin.py:47 | The empty ledger that the `defaultdict` lookup creates keeps every part of the invariant. |
| `CoinState.RecordKeeps` | honeybadgermpc/protocols/commoncoin.py:56-61 | Recording a verified share from a new party keeps all ledgers legitimate and every queued bit equal to its round's coin. The combined signatures stay valid unless the round has just reached `f+1` shares and its combination failed. |
| `CoinState.ReceiveInv` | honeybadgermpc/protocols/commoncoin.py:40-80 | Every pass of the loop keeps the invariant: one verified share per party per round, parties in `[0, n)`, every queued bit is the coin of a round past the threshold, and while the loop is alive every such round's combined signature verifies. |
| `CoinState.RangeChecksFatal` | honeybadgermpc/protocols/commoncoin.py:45-46 | A sender outside `[0, n)` ends the loop (`SenderOutOfRange`), and so does a negative round (`NegativeRound`), in both directions. Nothing else changes. |
| `CoinState.RejectedChangesNothing` | honeybadgermpc/protocols/commoncoin.py:47-59 | A share is `Redundant` exactly when its sender already has a share for the round, whether or not it would verify. It is `ShareFailed` exactly when it is new and fails verification. Either way no round's shares, no output and no failure change, so the same party can still be accepted later. |
| `CoinState.AcceptAppends` | honeybadgermpc/protocols/commoncoin.py:47-80 | A share is stored exactly when it is admissible: sender and round in range, sender new to the round, share verified. The ledgers then become the old ones with `(i, sig)` appended to round `r` only, and `Stored` reports the round's new count. An accepted share leaves the loop alive (`Stored` or `Resolved`). It ends the loop with `CombinedSignatureInvalid` exactly when it brings the round from `f` to `f+1` shares and their combined signature fails to verify. Every crash records its failure. |
| `CoinState.CountsGrow` | honeybadgermpc/protocols/commoncoin.py:45-61 | No round's count ever drops. Each pass raises only the count of its own round, and by at most one. |
| `CoinState.PublishAtCrossing` | honeybadgermpc/protocols/commoncoin.py:69-80 | A pass publishes exactly when it accepts the share that brings the round from `f` to `f+1` and the combined signature verifies. The bit published is the coin of the round's first `f+1` shares. The round's queue is empty at that point, so `put_nowait` never overfills it. Every other pass leaves the outputs alone. |
| `CoinState.ReceiveLive` | honeybadgermpc/protocols/commoncoin.py:45-80 | If any `f+1` valid shares combine to a verifying signature, a share with its sender in `[0, n)` and a round of at least 0 never ends a live loop. |
| `CoinState.RunLive` | honeybadgermpc/protocols/commoncoin.py:36-80 | Under the same hypothesis, a run of such shares keeps the loop alive and takes one step per share. |
| `CoinState.ThresholdFires` | honeybadgermpc/protocols/commoncoin.py:61-80 | Under the same hypothesis, a run of such shares that takes round `r` from at most `f` shares to more than `f` publishes `r` on some pass. |
| `CoinState.RunInv` | honeybadgermpc/protocols/commoncoin.py:36-80 | Over any sequence of shares, the loop keeps the invariant and takes at most one step per share. |
| `CoinState.RunCountsGrow` | honeybadgermpc/protocols/commoncoin.py:36-61 | Over any run, no round's count decreases. |
| `CoinState.NoRepublish` | honeybadgermpc/protocols/commoncoin.py:69-80 | A round that already holds more than `f` shares is not published again by any later pass. |
| `CoinState.PublishedAtMostOnce` | honeybadgermpc/protocols/commoncoin.py:69-80 | The threshold fires at most once per round: in any run, two passes that publish round `r` are the same pass. |
| `CoinState.PublishedWhenReached` | honeybadgermpc/protocols/commoncoin.py:61-80 | The threshold fires at least once: a live run that takes round `r` from at most `f` shares to more than `f` publishes `r` on some pass. |
| `CoinState.Agreement` | honeybadgermpc/protocols/commoncoin.py:72-77 | Take two ledgers of verified shares for one round, each with more than `f` shares from distinct parties. If any `f+1` valid shares combine to the same signature, the two ledgers give the same bit, whichever shares each accepted first. |
| `CommonCoin.CoinEngine.constructor` | honeybadgermpc/protocols/commoncoin.py:31-34 | A new engine, built from a key with threshold `f+1` and `n` shareholders, has empty ledgers and queues, has sent nothing, and satisfies the invariant. |
| `CommonCoin.CoinEngine.RoundBound` | honeybadgermpc/protocols/commoncoin.py:45-61 | No round of a valid engine ever holds more than `n` shares. |
| `CommonCoin.CoinEngine.OnShare` | honeybadgermpc/protocols/commoncoin.py:40-80 | One pass of the receive loop updates the engine's ledgers, queues and failure, and returns its outcome, exactly as `Receive` specifies. It keeps the invariant and broadcasts nothing. |
| `CommonCoin.CoinEngine.Admit` | honeybadgermpc/protocols/commoncoin.py:61-80 | The accepting branch: it records the share, and at exactly `f+1` shares it combines, checks the signature, derives the bit and enqueues it. The new state and outcome are those of `Accept`. |
| `CommonCoin.CoinEngine.GetCoin` | honeybadgermpc/protocols/commoncoin.py:84-97 | It always broadcasts `('COIN', round, serialize(sign(hash_message(sid, round))))`. It returns a bit exactly when the round's queue holds one. That bit is the coin of a round past the threshold, and taking it empties the queue. The ledgers are untouched. |
| `CommonCoin.SharedCoin` | honeybadgermpc/protocols/commoncoin.py:31-32 | Construction fails with `ConfigMismatch` exactly when `pk.k != f+1` or `pk.l != n`. Otherwise it yields a fresh valid engine in the initial state. |
| `CommonCoin.EnginesAgree` | honeybadgermpc/protocols/commoncoin.py:72-77 | Two valid engines of the same instance agree on the coin of every round both have taken past the threshold, and so on any bit both have queued. This holds given that `f+1` valid shares always combine to the same signature. |

## Left out

- Threshold cryptography: `deserialize1`, `serialize`, `hash_message`, `verify_share`, `combine_shares`, `verify_signature` and `sign` are function values with no properties. They are foreign library code. `verify_share` raising `AssertionError` is modelled as it returning false.
- SHA-256 (`hash`, lines 14-15) is a function parameter that always yields 32 bytes. The model says nothing else about the digest.
- `CombinationDetermined`: the property that any `f+1` valid shares combine to one signature is a hypothesis of `Agreement` and `EnginesAgree`. The abstract crypto does not prove it.
- `str((sid, r))`: the model passes the pair to `hash_message` as is. Python's formatting of the tuple is not modelled.
- `CombinationVerifies`: the property that any `f+1` valid shares combine to a signature that verifies is a hypothesis of `ReceiveLive`, `RunLive` and `ThresholdFires`. The abstract crypto does not prove it.
- Malformed payloads are not modelled. A share message is taken to be a 3-tuple whose round is an integer (`ShareMsg`). In the source, a payload that is not a 3-tuple makes the unpacking at line 40 raise. A round that cannot be compared with 0, such as a string or `None`, makes line 46 raise `TypeError`. Either exception ends the receive task, as a failed assert does. A non-integer number such as 0.5 passes line 46 and opens a ledger of its own.
- `deserialize1` failing on malformed bytes (an exception that would end the loop) is not modelled. Every byte string deserializes to some element.
- Asyncio: `create_task`, the `while True` loop and `await receive()` are left out. `Run` feeds the loop a list of shares instead. After a failure, `Run` takes no more shares, as the dead task would not.
- `GetCoin`: the blocking `Queue.get` is modelled as returning `None` when the round's queue is empty. The model does not capture the caller waiting and later receiving the bit.
- Per-round queues are created lazily by `output_queue[round]`. The model has one entry per round that holds a bit and treats a missing entry as an empty queue.
- Cancellation of the receive task is not modelled.
- Logging and the `print` calls for redundant and failed shares have no effect on the state and are left out.
- `run_common_coin` and the `__main__` block (lines 102-181) are network and configuration plumbing and are left out.

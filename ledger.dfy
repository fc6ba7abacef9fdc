/**
 The ledger of one round: the signature shares accepted so far, as
 (party id, share) pairs in the order they were accepted. The coin engine
 keeps one of these per round; this module holds the facts about a single
 round that do not depend on the engine's state.
 */
module Ledger {
  import opened Crypto

  type Entries = seq<(nat, Element)>

  /** The parties that have a share in the round. */
  function Senders(e: Entries): set<nat> {
    set j | 0 <= j < |e| :: e[j].0
  }

  /** At most one share per party. */
  predicate OneSharePerParty(e: Entries) {
    forall j, m :: 0 <= j < m < |e| ==> e[j].0 != e[m].0
  }

  /** Every share comes from a party in [0, n). */
  predicate FromParties(e: Entries, n: nat) {
    forall j :: 0 <= j < |e| ==> e[j].0 < n
  }

  /** Every share verifies against the round's message hash `h`. */
  predicate AllVerified(pk: PublicKey, h: Element, e: Entries) {
    forall j :: 0 <= j < |e| ==> pk.verifyShare(e[j].1, e[j].0, h)
  }

  /**
   Accepting the share of a party that has none yet: the new entry goes last,
   the earlier ones are kept as they were, and the ledger still holds at most
   one share per party.
   */
  function Record(e: Entries, i: nat, sig: Element): (e': Entries)
    requires i !in Senders(e)
    ensures |e'| == |e| + 1 && e <= e' && e'[|e|] == (i, sig)
    ensures Senders(e') == Senders(e) + {i}
    ensures OneSharePerParty(e) ==> OneSharePerParty(e')
  {
    var e' := e + [(i, sig)];
    assert forall j :: 0 <= j < |e'| ==> e'[j].0 in Senders(e) + {i};
    assert forall p :: p in Senders(e) ==> p in Senders(e') by {
      forall p | p in Senders(e) ensures p in Senders(e') {
        var j :| 0 <= j < |e| && e[j].0 == p;
        assert e'[j] == e[j];
      }
    }
    assert e'[|e|].0 == i;
    e'
  }

  /**
   The shares handed to the combination: the first `k` in acceptance order.
   They are exactly `k` shares from distinct parties, all taken from the ledger.
   */
  function Quorum(e: Entries, k: nat): (q: Entries)
    requires k <= |e|
    ensures |q| == k && q <= e
    ensures Senders(q) <= Senders(e)
    ensures OneSharePerParty(e) ==> OneSharePerParty(q)
  {
    e[..k]
  }

  /** Later acceptances never change the shares the combination was given. */
  lemma QuorumStable(e: Entries, e': Entries, k: nat)
    requires k <= |e| && e <= e'
    ensures Quorum(e', k) == Quorum(e, k)
  {
  }

  /** A ledger with distinct parties has as many senders as entries. */
  lemma {:induction false} SendersCount(e: Entries)
    requires OneSharePerParty(e)
    ensures |Senders(e)| == |e|
  {
    if e != [] {
      var init := e[..|e| - 1];
      SendersCount(init);
      assert Senders(e) == Senders(init) + {e[|e| - 1].0};
      assert e[|e| - 1].0 !in Senders(init);
    }
  }

  /** The party ids of an instance with n parties: {0, ..., n-1}, n of them. */
  function PartyIds(n: nat): (s: set<nat>)
    ensures forall p: nat :: p in s <==> p < n
    ensures |s| == n
  {
    if n == 0 then {} else PartyIds(n - 1) + {n - 1}
  }

  /** A subset of a finite set is no larger. */
  lemma {:induction false} SubsetSize(a: set<nat>, b: set<nat>)
    requires a <= b
    ensures |a| <= |b|
    decreases b
  {
    if a != {} {
      var x :| x in a;
      SubsetSize(a - {x}, b - {x});
    }
  }

  /**
   A round never holds more than n shares: with one share per party and
   every party in [0, n), the ledger has at most n entries.
   */
  lemma {:induction false} LedgerBound(e: Entries, n: nat)
    requires OneSharePerParty(e) && FromParties(e, n)
    ensures |e| <= n
  {
    SendersCount(e);
    SubsetSize(Senders(e), PartyIds(n));
  }
}

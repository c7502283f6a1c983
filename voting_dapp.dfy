/**
 The on-chain voting program: the two record kinds it owns (proposals and
 vote receipts), the handlers `create_proposal`, `vote` and `close_proposal`,
 and the ledger they act on.

 A transaction either commits all its effects or none: every handler below
 returns a typed failure and then leaves the ledger exactly as it found it,
 including the receipt that the runtime would have created for a vote.
 The clock reading, the signer's key and the PDA bump are parameters.
 Arithmetic is checked: an `i64` or `u64` overflow aborts the transaction.
 */
module VotingDapp {
  import opened Borsh

  // ---------------------------------------------------------------- records

  const MAX_DESCRIPTION_LEN: nat := 200

  /** Bytes allocated for a proposal account; the last 3 are slack. */
  const PROPOSAL_SPACE: nat := 8 + 32 + 4 + MAX_DESCRIPTION_LEN + 8 + 8 + 1 + 8 + 8 + 3

  /** Bytes allocated for a vote receipt account. */
  const VOTE_SPACE: nat := 8 + 32 + 32 + 1 + 1

  /** An account address or signer identity: 32 bytes. */
  type Pubkey = s: seq<Byte> | |s| == 32 witness seq(32, _ => 0)

  datatype Proposal = Proposal(
    creator: Pubkey,
    description: seq<Byte>,
    votesYes: U64,
    votesNo: U64,
    isActive: bool,
    startTs: I64,
    endTs: I64)

  datatype VoteReceipt = VoteReceipt(proposal: Pubkey, voter: Pubkey, choice: bool, bump: Byte)

  /** The program's own error codes, in declaration order. */
  datatype VotingError =
    | ProposalClosed
    | Unauthorized
    | DescriptionTooLong
    | InvalidDuration
    | DeadlinePassed
    | TooEarlyToClose

  /** Why a transaction aborts: a `require!` in a handler, or the runtime refusing it. */
  datatype Failure =
    | Program(error: VotingError)
    | AccountInUse           // `init` on an address that already holds an account
    | AccountNotInitialized  // no proposal account at the address given
    | ArithmeticOverflow     // a checked `i64` or `u64` operation overflowed

  datatype Outcome = Ok | Err(failure: Failure)

  /** The verdict of a handler's `require!` checks. */
  datatype Check = Pass | Reject(error: VotingError)

  /** What every stored proposal satisfies. */
  predicate WellFormed(p: Proposal) {
    |p.description| <= MAX_DESCRIPTION_LEN && p.startTs < p.endTs
  }

  // ---------------------------------------------------------------- guards

  /** The checks of `create_proposal`: the description's byte length first, then the duration. */
  function CreateGuard(description: seq<Byte>, durationSec: int): (c: Check)
    ensures c == Pass <==> |description| <= MAX_DESCRIPTION_LEN && durationSec > 0
    ensures |description| > MAX_DESCRIPTION_LEN ==> c == Reject(DescriptionTooLong)
    ensures |description| <= MAX_DESCRIPTION_LEN && durationSec <= 0 ==> c == Reject(InvalidDuration)
  {
    if |description| > MAX_DESCRIPTION_LEN then Reject(DescriptionTooLong)
    else if durationSec <= 0 then Reject(InvalidDuration)
    else Pass
  }

  /** The checks of `vote`: the proposal must be active, then strictly before its end. */
  function VoteGuard(p: Proposal, now: int): (c: Check)
    ensures c == Pass <==> p.isActive && now < p.endTs
    ensures !p.isActive ==> c == Reject(ProposalClosed)
    ensures p.isActive && p.endTs <= now ==> c == Reject(DeadlinePassed)
  {
    if !p.isActive then Reject(ProposalClosed)
    else if !(now < p.endTs) then Reject(DeadlinePassed)
    else Pass
  }

  /** The checks of `close_proposal`: the signer must be the creator, then the end reached. Activity is not checked. */
  /**
   Once a close has passed, a vote at the same or a later clock is refused
   whether or not the proposal was marked inactive: the activity check only
   changes which error is reported.
   */
  lemma ClosedRefusedEitherWay(p: Proposal, signer: Pubkey, tClose: int, t: int)
    requires CloseGuard(p, signer, tClose) == Pass && tClose <= t
    ensures VoteGuard(p.(isActive := false), t) == Reject(ProposalClosed)
    ensures VoteGuard(p.(isActive := true), t) == Reject(DeadlinePassed)
  {
  }

  function CloseGuard(p: Proposal, signer: Pubkey, now: int): (c: Check)
    ensures c == Pass <==> signer == p.creator && p.endTs <= now
    ensures signer != p.creator ==> c == Reject(Unauthorized)
    ensures signer == p.creator && now < p.endTs ==> c == Reject(TooEarlyToClose)
  {
    if p.creator != signer then Reject(Unauthorized)
    else if !(now >= p.endTs) then Reject(TooEarlyToClose)
    else Pass
  }

  /** Counting `choice` would push its `u64` tally past its maximum. */
  predicate TallyFull(p: Proposal, choice: bool) {
    (if choice then p.votesYes else p.votesNo) + 1 >= U64_LIMIT
  }

  // ---------------------------------------------------------------- receipt addresses

  /** The seed `"vote"` in ASCII. */
  const VOTE_SEED: seq<Byte> := [0x76, 0x6F, 0x74, 0x65]

  /** Receipts are stored under their seed bytes; the address hash over them is taken to be collision-free. */
  type VoteKey = seq<Byte>

  /** The seeds `["vote", proposal, voter]` of a vote receipt, concatenated. */
  function VoteReceiptKey(proposal: Pubkey, voter: Pubkey): (key: VoteKey)
    ensures |key| == 68 && key[..4] == VOTE_SEED
  {
    VOTE_SEED + proposal + voter
  }

  /** Two receipt keys are equal exactly when their (proposal, voter) pairs are. */
  lemma VoteReceiptKeyInjective(p1: Pubkey, v1: Pubkey, p2: Pubkey, v2: Pubkey)
    ensures VoteReceiptKey(p1, v1) == VoteReceiptKey(p2, v2) <==> p1 == p2 && v1 == v2
  {
    var k1, k2 := VoteReceiptKey(p1, v1), VoteReceiptKey(p2, v2);
    assert p1 == k1[4..36] && p2 == k2[4..36];
    assert v1 == k1[36..] && v2 == k2[36..];
  }

  // ---------------------------------------------------------------- account layouts

  /** A proposal account's bytes: account discriminator, then the fields in declaration order. */
  function ProposalAccountData(disc: seq<Byte>, p: Proposal): (data: seq<Byte>)
    requires |disc| == 8 && |p.description| < U32_LIMIT
    ensures |data| == 8 + 32 + 4 + |p.description| + 8 + 8 + 1 + 8 + 8
  {
    disc + p.creator + U32Bytes(|p.description|) + p.description
    + U64Bytes(p.votesYes) + U64Bytes(p.votesNo) + [if p.isActive then 1 else 0]
    + I64Bytes(p.startTs) + I64Bytes(p.endTs)
  }

  /** Every well-formed proposal fits in its allocation, with 3 bytes to spare at the longest description. */
  lemma ProposalAccountFits(disc: seq<Byte>, p: Proposal)
    requires |disc| == 8 && WellFormed(p)
    ensures |ProposalAccountData(disc, p)| + 3 + (MAX_DESCRIPTION_LEN - |p.description|) == PROPOSAL_SPACE
    ensures PROPOSAL_SPACE == 280
  {
  }

  /** A vote receipt account's bytes: account discriminator, then the fields in declaration order. */
  function VoteAccountData(disc: seq<Byte>, v: VoteReceipt): (data: seq<Byte>)
    requires |disc| == 8
    ensures |data| == 8 + 32 + 32 + 1 + 1
  {
    disc + v.proposal + v.voter + [if v.choice then 1 else 0] + [v.bump]
  }

  /** Every receipt fills its allocation exactly. */
  lemma VoteAccountFitsExactly(disc: seq<Byte>, v: VoteReceipt)
    requires |disc| == 8
    ensures |VoteAccountData(disc, v)| == VOTE_SPACE == 74
  {
  }

  // ---------------------------------------------------------------- ledger invariant

  /** Keys of the receipts that record the vote `choice` on `proposal`. */
  function Ballots(votes: map<VoteKey, VoteReceipt>, proposal: Pubkey, choice: bool): set<VoteKey>
  {
    set k | k in votes && votes[k].proposal == proposal && votes[k].choice == choice
  }

  /** Keys of all receipts on `proposal`. */
  function ReceiptsOn(votes: map<VoteKey, VoteReceipt>, proposal: Pubkey): set<VoteKey>
  {
    set k | k in votes && votes[k].proposal == proposal
  }

  /** The identities that hold a receipt on `proposal`. */
  function VotersOn(votes: map<VoteKey, VoteReceipt>, proposal: Pubkey): set<Pubkey>
  {
    set k | k in votes && votes[k].proposal == proposal :: votes[k].voter
  }

  /** Every receipt sits at the key derived from its own proposal and voter. */
  ghost predicate WellKeyed(votes: map<VoteKey, VoteReceipt>) {
    forall k :: k in votes ==> k == VoteReceiptKey(votes[k].proposal, votes[k].voter)
  }

  ghost predicate LedgerInvariant(proposals: map<Pubkey, Proposal>, votes: map<VoteKey, VoteReceipt>) {
    && (forall a :: a in proposals ==> WellFormed(proposals[a]))
    && WellKeyed(votes)
    && (forall k :: k in votes ==> votes[k].proposal in proposals)
    && (forall a :: a in proposals ==>
          proposals[a].votesYes == |Ballots(votes, a, true)| && proposals[a].votesNo == |Ballots(votes, a, false)|)
  }

  /** How one proposal may change over time: only its tallies grow and it may become inactive. */
  predicate Persists(before: Proposal, after: Proposal) {
    && after.creator == before.creator
    && after.description == before.description
    && after.startTs == before.startTs
    && after.endTs == before.endTs
    && after.votesYes >= before.votesYes
    && after.votesNo >= before.votesNo
    && (!before.isActive ==> !after.isActive)
  }

  /** No proposal disappears, and each one changes only as `Persists` allows. */
  ghost predicate Evolves(before: map<Pubkey, Proposal>, after: map<Pubkey, Proposal>) {
    forall a :: a in before ==> a in after && Persists(before[a], after[a])
  }

  /** No receipt disappears or changes. */
  ghost predicate Retains(before: map<VoteKey, VoteReceipt>, after: map<VoteKey, VoteReceipt>) {
    forall k :: k in before ==> k in after && after[k] == before[k]
  }

  lemma EvolvesTransitive(m1: map<Pubkey, Proposal>, m2: map<Pubkey, Proposal>, m3: map<Pubkey, Proposal>)
    requires Evolves(m1, m2) && Evolves(m2, m3)
    ensures Evolves(m1, m3)
  {
  }

  /** Replacing one proposal by a successor `Persists` allows is an evolution of the whole map. */
  lemma EvolvesByOne(proposals: map<Pubkey, Proposal>, a: Pubkey, p: Proposal)
    requires a in proposals && Persists(proposals[a], p)
    ensures Evolves(proposals, proposals[a := p])
  {
  }

  /** Storing a receipt under a fresh key keeps every receipt already stored. */
  lemma RetainsByFresh(votes: map<VoteKey, VoteReceipt>, key: VoteKey, receipt: VoteReceipt)
    requires key !in votes
    ensures Retains(votes, votes[key := receipt])
  {
  }

  /** A fresh proposal with zero tallies keeps the invariant: no receipt refers to it yet. */
  lemma CreatePreservesInvariant(proposals: map<Pubkey, Proposal>, votes: map<VoteKey, VoteReceipt>, a: Pubkey, p: Proposal)
    requires LedgerInvariant(proposals, votes) && a !in proposals
    requires WellFormed(p) && p.votesYes == 0 && p.votesNo == 0
    ensures LedgerInvariant(proposals[a := p], votes)
  {
    forall c: bool
      ensures Ballots(votes, a, c) == {}
    {
      forall k | k in votes
        ensures k !in Ballots(votes, a, c)
      {
        assert votes[k].proposal in proposals;
      }
    }
  }

  /** Adding receipt `receipt` under a fresh key adds that key to its own ballot set and to no other. */
  lemma BallotsAfterVote(votes: map<VoteKey, VoteReceipt>, key: VoteKey, receipt: VoteReceipt, b: Pubkey, c: bool)
    requires key !in votes
    ensures |Ballots(votes[key := receipt], b, c)|
            == |Ballots(votes, b, c)| + (if b == receipt.proposal && c == receipt.choice then 1 else 0)
  {
    var before, after := Ballots(votes, b, c), Ballots(votes[key := receipt], b, c);
    var added := if b == receipt.proposal && c == receipt.choice then {key} else {};
    forall k
      ensures k in after <==> k in before + added
    {
      if k != key {
        assert k in after <==> k in before;
      }
    }
    assert after == before + added;
    assert before * added == {};
  }

  /**
   Storing a fresh receipt for `voter` on `a` and counting its choice on `a`
   keeps every tally equal to the number of matching receipts.
   */
  lemma VotePreservesInvariant(
    proposals: map<Pubkey, Proposal>, votes: map<VoteKey, VoteReceipt>, receipt: VoteReceipt, counted: Proposal)
    requires LedgerInvariant(proposals, votes)
    requires receipt.proposal in proposals
    requires VoteReceiptKey(receipt.proposal, receipt.voter) !in votes
    requires var p := proposals[receipt.proposal];
             && counted.votesYes == p.votesYes + (if receipt.choice then 1 else 0)
             && counted.votesNo == p.votesNo + (if receipt.choice then 0 else 1)
             && counted == p.(votesYes := counted.votesYes, votesNo := counted.votesNo)
    ensures LedgerInvariant(proposals[receipt.proposal := counted],
                            votes[VoteReceiptKey(receipt.proposal, receipt.voter) := receipt])
  {
    var a, key := receipt.proposal, VoteReceiptKey(receipt.proposal, receipt.voter);
    var proposals', votes' := proposals[a := counted], votes[key := receipt];
    forall b | b in proposals'
      ensures proposals'[b].votesYes == |Ballots(votes', b, true)|
      ensures proposals'[b].votesNo == |Ballots(votes', b, false)|
    {
      BallotsAfterVote(votes, key, receipt, b, true);
      BallotsAfterVote(votes, key, receipt, b, false);
    }
    assert WellKeyed(votes');
    assert forall k :: k in votes' ==> votes'[k].proposal in proposals';
    assert forall b :: b in proposals' ==> WellFormed(proposals'[b]);
  }

  /** Every tally is unchanged when only activity flags change. */
  lemma ClosePreservesInvariant(proposals: map<Pubkey, Proposal>, votes: map<VoteKey, VoteReceipt>, a: Pubkey)
    requires LedgerInvariant(proposals, votes) && a in proposals
    ensures LedgerInvariant(proposals[a := proposals[a].(isActive := false)], votes)
  {
  }

  /** A (proposal, voter) pair holds at most one receipt. */
  lemma AtMostOneReceipt(votes: map<VoteKey, VoteReceipt>, k1: VoteKey, k2: VoteKey)
    requires WellKeyed(votes) && k1 in votes && k2 in votes
    requires votes[k1].proposal == votes[k2].proposal && votes[k1].voter == votes[k2].voter
    ensures k1 == k2
  {
  }

  /** Receipts on one proposal belong to pairwise distinct voters. */
  lemma {:induction false} DistinctVoters(votes: map<VoteKey, VoteReceipt>, a: Pubkey, s: set<VoteKey>)
    requires WellKeyed(votes)
    requires forall k :: k in s ==> k in votes && votes[k].proposal == a
    ensures |set k | k in s :: votes[k].voter| == |s|
  {
    if s != {} {
      var k :| k in s;
      var rest := s - {k};
      DistinctVoters(votes, a, rest);
      var voters := set j | j in rest :: votes[j].voter;
      forall j | j in s && votes[j].voter == votes[k].voter
        ensures j == k
      {
        assert j == VoteReceiptKey(a, votes[j].voter);
      }
      assert votes[k].voter !in voters;
      assert (set j | j in s :: votes[j].voter) == voters + {votes[k].voter};
    }
  }

  /** A proposal's tallies add up to the number of its receipts, which is the number of distinct identities that voted. */
  lemma TallyCountsVoters(proposals: map<Pubkey, Proposal>, votes: map<VoteKey, VoteReceipt>, a: Pubkey)
    requires LedgerInvariant(proposals, votes) && a in proposals
    ensures proposals[a].votesYes + proposals[a].votesNo == |ReceiptsOn(votes, a)|
    ensures |ReceiptsOn(votes, a)| == |VotersOn(votes, a)|
  {
    var yes, no := Ballots(votes, a, true), Ballots(votes, a, false);
    assert ReceiptsOn(votes, a) == yes + no;
    assert yes * no == {};
    DistinctVoters(votes, a, ReceiptsOn(votes, a));
    assert VotersOn(votes, a) == set k | k in ReceiptsOn(votes, a) :: votes[k].voter;
  }

  // ---------------------------------------------------------------- the ledger

  /** The accounts the program owns: proposals by address, receipts by their seed key. */
  class Ledger {
    var proposals: map<Pubkey, Proposal>
    var votes: map<VoteKey, VoteReceipt>

    ghost predicate Valid()
      reads this
    {
      LedgerInvariant(proposals, votes)
    }

    constructor ()
      ensures Valid() && proposals == map[] && votes == map[]
    {
      proposals := map[];
      votes := map[];
    }

    /** `create_proposal`: `init` the account at `proposal`, check the arguments, fill every field. */
    method CreateProposal(proposal: Pubkey, creator: Pubkey, description: seq<Byte>, durationSec: I64, now: I64)
      returns (r: Outcome)
      requires Valid()
      modifies this
      ensures Valid()
      ensures Evolves(old(proposals), proposals) && Retains(old(votes), votes)
      ensures proposal in old(proposals) ==> r == Err(AccountInUse)
      ensures proposal !in old(proposals) ==>
                r == match CreateGuard(description, durationSec)
                     case Reject(e) => Err(Program(e))
                     case Pass => if now + durationSec > I64_MAX then Err(ArithmeticOverflow) else Ok
      ensures r.Err? ==> proposals == old(proposals) && votes == old(votes)
      ensures r.Ok? ==> votes == old(votes)
      ensures r.Ok? ==> proposals == old(proposals)[proposal := Proposal(creator, description, 0, 0, true, now, now + durationSec)]
      ensures r.Ok? ==> proposals[proposal].endTs - proposals[proposal].startTs == durationSec > 0
    {
      if proposal in proposals {
        return Err(AccountInUse);
      }
      if |description| > MAX_DESCRIPTION_LEN {
        return Err(Program(DescriptionTooLong));
      }
      if durationSec <= 0 {
        return Err(Program(InvalidDuration));
      }
      if now + durationSec > I64_MAX {
        return Err(ArithmeticOverflow);
      }
      var p := Proposal(creator, description, 0, 0, true, now, now + durationSec);
      CreatePreservesInvariant(proposals, votes, proposal, p);
      proposals := proposals[proposal := p];
      r := Ok;
    }

    /**
     `vote`: `init` the receipt at the key derived from (proposal, voter),
     check activity and deadline, store the receipt and count the choice.
     */
    method Vote(proposal: Pubkey, voter: Pubkey, choice: bool, bump: Byte, now: I64) returns (r: Outcome)
      requires Valid()
      modifies this
      ensures Valid()
      ensures Evolves(old(proposals), proposals) && Retains(old(votes), votes)
      ensures proposal !in old(proposals) ==> r == Err(AccountNotInitialized)
      ensures proposal in old(proposals) && VoteReceiptKey(proposal, voter) in old(votes) ==> r == Err(AccountInUse)
      ensures proposal in old(proposals) && VoteReceiptKey(proposal, voter) !in old(votes) ==>
                r == match VoteGuard(old(proposals[proposal]), now)
                     case Reject(e) => Err(Program(e))
                     case Pass => if TallyFull(old(proposals[proposal]), choice) then Err(ArithmeticOverflow) else Ok
      ensures r.Err? ==> proposals == old(proposals) && votes == old(votes)
      ensures r.Ok? ==> votes == old(votes)[VoteReceiptKey(proposal, voter) := VoteReceipt(proposal, voter, choice, bump)]
      ensures r.Ok? ==> proposal in proposals && proposals == old(proposals)[proposal := proposals[proposal]]
      ensures r.Ok? ==>
                var before, after := old(proposals[proposal]), proposals[proposal];
                && after.votesYes == before.votesYes + (if choice then 1 else 0)
                && after.votesNo == before.votesNo + (if choice then 0 else 1)
                && after == before.(votesYes := after.votesYes, votesNo := after.votesNo)
    {
      if proposal !in proposals {
        return Err(AccountNotInitialized);
      }
      var key := VoteReceiptKey(proposal, voter);
      if key in votes {
        return Err(AccountInUse);
      }
      var p := proposals[proposal];
      if !p.isActive {
        return Err(Program(ProposalClosed));
      }
      if !(now < p.endTs) {
        return Err(Program(DeadlinePassed));
      }
      if TallyFull(p, choice) {
        return Err(ArithmeticOverflow);
      }
      var receipt := VoteReceipt(proposal, voter, choice, bump);
      if choice {
        p := p.(votesYes := p.votesYes + 1);
      } else {
        p := p.(votesNo := p.votesNo + 1);
      }
      VotePreservesInvariant(proposals, votes, receipt, p);
      EvolvesByOne(proposals, proposal, p);
      RetainsByFresh(votes, key, receipt);
      votes := votes[key := receipt];
      proposals := proposals[proposal := p];
      r := Ok;
    }

    /** `close_proposal`: only the creator, only from the end on; clears `isActive` and nothing else. */
    method CloseProposal(proposal: Pubkey, signer: Pubkey, now: I64) returns (r: Outcome)
      requires Valid()
      modifies this
      ensures Valid()
      ensures Evolves(old(proposals), proposals) && votes == old(votes)
      ensures proposal !in old(proposals) ==> r == Err(AccountNotInitialized)
      ensures proposal in old(proposals) ==>
                r == match CloseGuard(old(proposals[proposal]), signer, now)
                     case Reject(e) => Err(Program(e))
                     case Pass => Ok
      ensures r.Err? ==> proposals == old(proposals)
      ensures r.Ok? ==> proposals == old(proposals)[proposal := old(proposals[proposal]).(isActive := false)]
      ensures r.Ok? && !old(proposals[proposal].isActive) ==> proposals == old(proposals)
    {
      if proposal !in proposals {
        return Err(AccountNotInitialized);
      }
      var p := proposals[proposal];
      if p.creator != signer {
        return Err(Program(Unauthorized));
      }
      if !(now >= p.endTs) {
        return Err(Program(TooEarlyToClose));
      }
      ClosePreservesInvariant(proposals, votes, proposal);
      proposals := proposals[proposal := p.(isActive := false)];
      r := Ok;
    }
  }

  /** Creation scenarios of the integration tests: a valid duration, a zero duration, an over-long description. */
  method CreateScenarios(alice: Pubkey, addr: Pubkey, t0: I64)
    requires 0 <= t0 < I64_MAX - 100
  {
    var ledger := new Ledger();
    var r := ledger.CreateProposal(addr, alice, [0x61], 0, t0);
    assert r == Err(Program(InvalidDuration));
    r := ledger.CreateProposal(addr, alice, seq(201, _ => 0x61), 0, t0);
    assert r == Err(Program(DescriptionTooLong));
    r := ledger.CreateProposal(addr, alice, [0x61], 10, t0);
    assert r == Ok && ledger.proposals[addr].endTs - ledger.proposals[addr].startTs == 10;
    r := ledger.CreateProposal(addr, alice, [0x61], 10, t0);
    assert r == Err(AccountInUse);
  }

  /** Voting scenarios: one vote counts, a second by the same voter is refused and changes nothing. */
  method VoteScenarios(alice: Pubkey, addr: Pubkey, t0: I64)
    requires 0 <= t0 < I64_MAX - 100
  {
    var ledger := new Ledger();
    var r := ledger.CreateProposal(addr, alice, [0x61], 5, t0);
    r := ledger.Vote(addr, alice, true, 255, t0 + 1);
    assert r == Ok && ledger.proposals[addr].votesYes == 1 && ledger.proposals[addr].votesNo == 0;
    r := ledger.Vote(addr, alice, false, 255, t0 + 2);
    assert r == Err(AccountInUse) && ledger.proposals[addr].votesNo == 0;
  }

  /** Deadline scenario: a vote at the end time itself is too late. */
  method DeadlineScenario(bob: Pubkey, addr: Pubkey, t0: I64)
    requires 0 <= t0 < I64_MAX - 100
  {
    var ledger := new Ledger();
    var r := ledger.CreateProposal(addr, bob, [0x61], 5, t0);
    r := ledger.Vote(addr, bob, true, 254, t0 + 5);
    assert r == Err(Program(DeadlinePassed));
  }

  /** Closing scenarios: too early, by someone else, at the end, twice; a closed proposal takes no votes. */
  method CloseScenarios(alice: Pubkey, bob: Pubkey, addr: Pubkey, t0: I64)
    requires alice != bob && 0 <= t0 < I64_MAX - 100
  {
    var ledger := new Ledger();
    var r := ledger.CreateProposal(addr, alice, [0x61], 3, t0);
    r := ledger.CloseProposal(addr, alice, t0);
    assert r == Err(Program(TooEarlyToClose));
    r := ledger.CloseProposal(addr, bob, t0 + 3);
    assert r == Err(Program(Unauthorized));
    r := ledger.CloseProposal(addr, alice, t0 + 3);
    assert r == Ok && !ledger.proposals[addr].isActive;
    r := ledger.CloseProposal(addr, alice, t0 + 4);
    assert r == Ok && !ledger.proposals[addr].isActive;
    r := ledger.Vote(addr, bob, true, 254, t0 + 5);
    assert r == Err(Program(ProposalClosed));
  }
}

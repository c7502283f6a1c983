# Voting dapp: a verified model

This project models a Solana voting program and the two pieces of its web
client that talk to it directly.

- **The program** (`programs/voting_dapp/src/lib.rs`) owns two kinds of account:
  - proposals: creator, description, yes/no tallies, an activity flag, start and end time;
  - vote receipts: one per (proposal, voter), at an address derived from the seeds `["vote", proposal, voter]`.

  Its three handlers are `create_proposal`, `vote` and `close_proposal`. Each one validates its input and then mutates the accounts.
- **The client encoder** (`frontend/src/CreateProposalForm.tsx`) builds the `create_proposal` instruction data. The layout is an 8-byte discriminator, a Borsh string and a little-endian `i64`.
- **The proposal card** (`frontend/src/ProposalCard.tsx`) decides when to enable the vote and close buttons. It also shortens addresses for display.

Files, one module each:

- `wrappers.dfy` (`Wrappers`): `Option`, for operations that throw.
- `borsh.dfy` (`Borsh`): bytes, the integer widths `u32`/`u64`/`i64`, little-endian layout and two's complement.
- `create_proposal_form.dfy` (`CreateProposalForm`): the client's encoders and a reader for the instruction data to prove them against.
- `voting_dapp.dfy` (`VotingDapp`): records, errors, the handlers' checks, account layouts, and the ledger invariant with its lemmas. The class `Ledger` holds two maps, `proposals` (by address) and `votes` (by receipt key). Its methods `CreateProposal`, `Vote` and `CloseProposal` are the handlers. Four scenario methods (`CreateScenarios`, `VoteScenarios`, `DeadlineScenario`, `CloseScenarios`) replay the integration tests of `tests/voting_dapp.ts` on a fresh ledger.
- `proposal_card.dfy` (`ProposalCard`): the card's predicates, `short`, and the lemmas that relate the card to the program.

How the model is built:

- **Transactions.** Every handler returns `Ok` or `Err(failure)`. On `Err` both maps are exactly as before. That includes the receipt the runtime's `init` would have created, because a failed transaction commits nothing.
- **Inputs.** The clock reading `now`, the signer's key and the receipt's PDA bump are parameters.
- **Overflow.** `now + duration_sec` and `votes_yes/votes_no += 1` are treated as checked arithmetic, as if built with `overflow-checks = true`. An overflow aborts the transaction with `ArithmeticOverflow` and changes nothing. The build configuration is not part of this model.
- **Receipt keys.** A receipt is stored under its seed bytes: `"vote" ++ proposal ++ voter`, 68 bytes in all. `VoteReceiptKeyInjective` proves this key is injective. The address hash over it is assumed collision-free.
- **Check order.** The runtime checks the accounts before the handler body runs. So a missing proposal fails with `AccountNotInitialized`, and an address that already holds an account (the proposal for `create_proposal`, the receipt for `vote`) fails with `AccountInUse`. Both come before any `require!` of the handler.
- **Invariant.** `LedgerInvariant` holds in every reachable state: the constructor establishes it and every method preserves it. It states:
  - every receipt sits at the key derived from its own proposal and voter, and its proposal exists;
  - every stored proposal has a description of at most 200 bytes and `start_ts < end_ts`;
  - `votes_yes` is the number of receipts on that proposal with `choice == true`, and `votes_no` the number with `choice == false`.

### Where the code as written departs from a natural reading of the design

The model follows the code on each of these points:

- `vote` needs a strictly earlier clock (`now < end_ts`), so a vote at `now == end_ts` is rejected with `DeadlinePassed`.
- `vote` checks `is_active` first, so a closed proposal reports `ProposalClosed` rather than `DeadlinePassed`. A close needs `now >= end_ts`, so under a clock that never runs backwards the vote would be refused either way: the flag changes only the error code (`ClosedRefusedEitherWay`).
- `close_proposal` does not check `is_active`. A second close by the creator succeeds and changes nothing.
- A double vote is refused by the runtime (`AccountInUse`), not by a program error. The receipt saves its proposal, its voter, the choice and the bump.

## Model

| member | source | states |
|---|---|---|
| `Borsh.LE` | frontend/src/CreateProposalForm.tsx:23 | The little-endian writer behind `writeUInt32LE` and `writeBigInt64LE`. It gives exactly `width` bytes. Its value is stated by `FromLEOfLE`. |
| `Borsh.I64Value` | programs/voting_dapp/src/lib.rs:35 | The program's `i64` reader: the unsigned little-endian value of the 8 bytes is the two's-complement word of the result. The result is negative exactly when the top bit of the last byte is set. |
| `Borsh.FromLEOfLE` | frontend/src/CreateProposalForm.tsx:22-23 | Reading back the little-endian bytes of a value that fits its width gives the value. |
| `Borsh.LEOfFromLE` | frontend/src/CreateProposalForm.tsx:32-33 | Re-encoding what was read gives the same bytes, so the fixed-width layout is a bijection. |
| `Borsh.ToSigned64` | frontend/src/CreateProposalForm.tsx:33 | Two's complement: the signed value of a 64-bit word maps back to that word. |
| `Borsh.U32Bytes` | frontend/src/CreateProposalForm.tsx:22-23 | A `u32` is written as 4 bytes that read back as the value. |
| `Borsh.I64Bytes` | frontend/src/CreateProposalForm.tsx:32-33 | An `i64` is written as 8 bytes of two's complement that read back as the value. |
| `Borsh.I64BytesOfValue` | frontend/src/CreateProposalForm.tsx:32-33 | Any 8 bytes are the encoding of exactly one `i64`. |
| `CreateProposalForm.EncodeStringBorsh` | frontend/src/CreateProposalForm.tsx:20-25 | Fails exactly when the length does not fit a `u32`. Otherwise it gives `4 + n` bytes: the first 4 read as the length `n` and the rest are the input bytes. |
| `CreateProposalForm.EncodeI64LE` | frontend/src/CreateProposalForm.tsx:27-35 | Fails exactly outside `[-2^63, 2^63)`. Otherwise it gives 8 bytes whose two's-complement value is the input. |
| `CreateProposalForm.CreateProposalData` | frontend/src/CreateProposalForm.tsx:89-92 | Succeeds exactly when both encoders do. The data is `20 + n` bytes long and starts with the discriminator `[132,116,68,174,216,160,198,22]`. |
| `CreateProposalForm.DecodeCreateProposal` | programs/voting_dapp/src/lib.rs:35 | Accepts only data that starts with the `create_proposal` discriminator and is long enough for a string and an `i64`. |
| `CreateProposalForm.CreateProposalRoundTrip` | frontend/src/CreateProposalForm.tsx:89-92 | The program reads back the same description and duration that the form encoded, in the handler's parameter order. |
| `CreateProposalForm.EncodedStringOfPrefix` | frontend/src/CreateProposalForm.tsx:20-25 | A 4-byte prefix that reads as the byte count is exactly the prefix the string encoder writes. |
| `CreateProposalForm.DecodedCreateProposalReencodes` | programs/voting_dapp/src/lib.rs:35 | Any data the program accepts is, up to trailing bytes, what the form would send for the decoded arguments. |
| `CreateProposalForm.ForeignDiscriminatorRejected` | frontend/src/CreateProposalForm.tsx:16-18 | Data with any other 8-byte prefix is not read as `create_proposal`. |
| `VotingDapp.CreateGuard` | programs/voting_dapp/src/lib.rs:36-37 | Passes exactly when the description is at most 200 bytes and the duration is positive. The length check comes first, so a description that is too long and also has a zero duration reports `DescriptionTooLong`. |
| `VotingDapp.VoteGuard` | programs/voting_dapp/src/lib.rs:62-66 | Passes exactly when the proposal is active and `now < end_ts`. An inactive proposal gives `ProposalClosed`. An active one at or after `end_ts`, including `now == end_ts`, gives `DeadlinePassed`. |
| `VotingDapp.ClosedRefusedEitherWay` | programs/voting_dapp/src/lib.rs:62-66 | If a close passed at `tClose`, a vote at any `t >= tClose` is refused. It gives `ProposalClosed` if the proposal was marked inactive and `DeadlinePassed` if it was not. |
| `VotingDapp.CloseGuard` | programs/voting_dapp/src/lib.rs:92-96 | Passes exactly when the signer is the creator and `now >= end_ts`, whatever the activity flag. A different signer gives `Unauthorized`; the creator before the end gives `TooEarlyToClose`. |
| `VotingDapp.VoteReceiptKey` | programs/voting_dapp/src/lib.rs:150 | A receipt key is 68 bytes and starts with the seed `"vote"`. |
| `VotingDapp.VoteReceiptKeyInjective` | programs/voting_dapp/src/lib.rs:146-152 | Two receipt keys are equal exactly when their (proposal, voter) pairs are. |
| `VotingDapp.ProposalAccountData` | programs/voting_dapp/src/lib.rs:111-120 | The proposal layout is 8 + 32 + 4 + description + 8 + 8 + 1 + 8 + 8 bytes. |
| `VotingDapp.ProposalAccountFits` | programs/voting_dapp/src/lib.rs:134 | The allocation is 280 bytes. A well-formed proposal fills all but 3 of them plus its unused description bytes, so it always fits. |
| `VotingDapp.VoteAccountData` | programs/voting_dapp/src/lib.rs:122-128 | The receipt layout is discriminator, proposal, voter, choice and bump: 74 bytes. |
| `VotingDapp.VoteAccountFitsExactly` | programs/voting_dapp/src/lib.rs:149 | The 74-byte receipt allocation is exactly the receipt layout. |
| `VotingDapp.CreatePreservesInvariant` | programs/voting_dapp/src/lib.rs:41-48 | A new proposal with zero tallies keeps the ledger invariant, because no receipt refers to it yet. |
| `VotingDapp.BallotsAfterVote` | programs/voting_dapp/src/lib.rs:69-73 | Storing a receipt under a fresh key adds one to the count of receipts with that proposal and choice. Every other count is unchanged. |
| `VotingDapp.VotePreservesInvariant` | programs/voting_dapp/src/lib.rs:68-80 | Storing a fresh receipt and adding one to the matching tally keeps every tally equal to its number of receipts. |
| `VotingDapp.ClosePreservesInvariant` | programs/voting_dapp/src/lib.rs:98 | Clearing `is_active` keeps the ledger invariant. |
| `VotingDapp.AtMostOneReceipt` | programs/voting_dapp/src/lib.rs:145-152 | A (proposal, voter) pair holds at most one receipt. |
| `VotingDapp.DistinctVoters` | programs/voting_dapp/src/lib.rs:145-152 | The receipts on one proposal belong to pairwise distinct voters. |
| `VotingDapp.TallyCountsVoters` | programs/voting_dapp/src/lib.rs:76-80 | `votes_yes + votes_no` equals the number of receipts on the proposal, which equals the number of distinct identities that voted on it. |
| `VotingDapp.EvolvesTransitive` | programs/voting_dapp/src/lib.rs:35-106 | The one-step guarantee composes: two evolutions make one, so by induction any finite chain of transactions does too. Along the chain a proposal never disappears, its creator, description and times never change, its tallies never drop, and it never becomes active again. |
| `VotingDapp.Ledger.CreateProposal` | programs/voting_dapp/src/lib.rs:35-58 | An existing address gives `AccountInUse`. Otherwise the result is `CreateGuard`'s error, then `ArithmeticOverflow` if `now + duration` leaves `i64`, then success. Success stores creator, description, zero tallies, active, `start_ts = now`, `end_ts = now + duration`, so `end_ts - start_ts == duration > 0`. No receipt changes, and on error nothing changes. |
| `VotingDapp.Ledger.Vote` | programs/voting_dapp/src/lib.rs:61-88 | A missing proposal gives `AccountNotInitialized` and an existing receipt gives `AccountInUse`. Otherwise the result is `VoteGuard`'s error, then overflow, then success. Success stores `{proposal, voter, choice, bump}` at the derived key and adds exactly one to `votes_yes` (choice true) or `votes_no` (choice false). No other field or account changes, and on error nothing changes. |
| `VotingDapp.Ledger.CloseProposal` | programs/voting_dapp/src/lib.rs:91-106 | A missing proposal gives `AccountNotInitialized`. Otherwise the result is `CloseGuard`'s verdict. Success sets only `is_active := false`, and on a closed proposal it succeeds and changes nothing. Receipts never change. |
| `ProposalCard.CanVote` | frontend/src/ProposalCard.tsx:35 | The vote buttons are enabled when the proposal is active and `now < end`. |
| `ProposalCard.IsCreator` | frontend/src/ProposalCard.tsx:36 | A wallet is connected and its key equals the proposal's `creator`. A missing wallet is never the creator. |
| `ProposalCard.CanClose` | frontend/src/ProposalCard.tsx:37 | The close button is shown when the wallet is the creator, `now >= end` and the proposal is still active. |
| `ProposalCard.CanVoteIffVoteGuard` | frontend/src/ProposalCard.tsx:35 | The vote buttons are enabled exactly when `vote`'s activity and deadline checks pass at the same `now`. |
| `ProposalCard.CanCloseImpliesCloseGuard` | frontend/src/ProposalCard.tsx:36-37 | Whenever the close button is shown, `close_proposal`'s authorization and timing checks pass for the wallet's key. |
| `ProposalCard.CanVoteExcludesCanClose` | frontend/src/ProposalCard.tsx:35-37 | The card never enables voting and closing at once. |
| `ProposalCard.CanCloseStricterThanCloseGuard` | frontend/src/ProposalCard.tsx:37 | On an inactive proposal past its end, the card hides the close button although the program would accept a close by the creator. |
| `ProposalCard.JsSlice` | frontend/src/ProposalCard.tsx:123 | JavaScript `slice`: a non-negative start is clamped to the string. A negative start with no end takes the last `-start` characters, or the whole string if `-start` exceeds its length. |
| `ProposalCard.Short` | frontend/src/ProposalCard.tsx:122-124 | For `1 <= n <= length` the result is the first `n` characters, `"..."`, the last `n`, of length `2n + 3`. For `n >= length` it is `x + "..." + x`, and for `n == 0` it is `"..." + x`. Negative `n` follows `slice`. The default is `n = 4`. |
| `ProposalCard.ShortAddressLength` | frontend/src/ProposalCard.tsx:87-90 | A base58 address of 32 to 44 characters is shown as 11 characters. |

## Left out

- Events (`emit!` of `ProposalCreated`, `VoteCast`, `ProposalClosed`): logging only, with no effect on accounts.
- Ordering of clock readings: each transaction takes its own `now`, and the ledger does not require successive readings to be non-decreasing. The scenarios use only non-decreasing readings.
- The clock, rent and lamport payments, and the signer and `init` machinery: `now`, the signer's key and the bump are parameters, and `init` is a map-membership check.
- The program-derived address search (SHA-256 and an off-curve search, `frontend/src/pdas.ts` and the test helper). Receipts are keyed by their seed bytes, which are injective. The bump is an input.
- The account discriminators of `Proposal` and `Vote`: they are hash-derived, so `ProposalAccountData` and `VoteAccountData` take them as an 8-byte parameter.
- The dispatch of `vote` and `close_proposal` instructions: their discriminators are not in these sources. Only the `create_proposal` data layout is modelled.
- UTF-8 validation of the description when the program decodes it: the model works on the UTF-8 bytes.
- Integer wrap-around: overflow is modelled as an aborting failure. A build without overflow checks would wrap instead.
- Concurrent submission: the ledger runs transactions one at a time. The runtime serialises transactions on shared accounts.
- `CreateProposalForm.DecodeCreateProposal`: it does not read or reject bytes after the duration.
- Client code around the encoder: `sendTxManually`, wallet signing, `Keypair.generate` and `parseAnchorError`. Also the `anchor.BN`/`BigInt` conversion (including `BN`'s refusal of JavaScript numbers of 2^53 and more), `TextEncoder`, the form's own input checks, and its `maxLength`, which counts UTF-16 units rather than bytes.
- In the card: `Date.now()` with its floating-point division (`now` is an integer), `BN.toNumber()` (which throws beyond 53 bits; `end` is taken exactly), the async `vote`/`close` calls, `parseAnchorError` and the JSX.
- Strings outside the Basic Multilingual Plane in `short`: a Dafny `char` is a Unicode scalar value, not a UTF-16 code unit, so `JsSlice` and `Short` cannot represent a string where `slice` cuts a surrogate pair in two. They agree with JavaScript on the base58 addresses the card shortens (frontend/src/ProposalCard.tsx:87, :90), which are ASCII, so each character is one code unit.
- `frontend/src/anchor.ts` (RPC and account decoding through a library), `frontend/src/App.tsx` (React state, polling, sorting), `frontend/src/main.tsx` and `frontend/vite.config.ts`: presentation and build plumbing.
- `tests/voting_dapp.ts`: its waits (`sleep`) become explicit clock readings in `CreateScenarios`, `VoteScenarios`, `DeadlineScenario` and `CloseScenarios`.

/**
 The proposal card of the web client: which buttons it enables, and how it
 abbreviates addresses. The clock reading `now` is whole seconds and the
 proposal's end time an exact integer.
 */
module ProposalCard {
  import opened Wrappers
  import opened VotingDapp

  /** The vote buttons are enabled. */
  predicate CanVote(account: Proposal, now: int) {
    account.isActive && now < account.endTs
  }

  /** A connected wallet whose key is the proposal's creator. */
  predicate IsCreator(wallet: Option<Pubkey>, account: Proposal) {
    wallet.Some? && wallet.value == account.creator
  }

  /** The close button is shown. */
  predicate CanClose(wallet: Option<Pubkey>, account: Proposal, now: int) {
    IsCreator(wallet, account) && now >= account.endTs && account.isActive
  }

  /** The vote buttons are enabled exactly when the program's `vote` checks pass at the same instant. */
  lemma CanVoteIffVoteGuard(account: Proposal, now: int)
    ensures CanVote(account, now) <==> VoteGuard(account, now) == Pass
  {
  }

  /** When the close button is shown, the program's `close_proposal` checks pass for the wallet's key. */
  lemma CanCloseImpliesCloseGuard(wallet: Option<Pubkey>, account: Proposal, now: int)
    requires CanClose(wallet, account, now)
    ensures wallet.Some? && CloseGuard(account, wallet.value, now) == Pass
  {
  }

  /** The card never offers voting and closing at once. */
  lemma CanVoteExcludesCanClose(wallet: Option<Pubkey>, account: Proposal, now: int)
    ensures !(CanVote(account, now) && CanClose(wallet, account, now))
  {
  }

  /** The card is stricter than the program: it hides the close button on a closed proposal the creator may still close. */
  lemma CanCloseStricterThanCloseGuard(account: Proposal, now: int)
    requires !account.isActive && account.endTs <= now
    ensures !CanClose(Some(account.creator), account, now)
    ensures CloseGuard(account, account.creator, now) == Pass
  {
  }

  function Min(a: int, b: int): (m: int) { if a <= b then a else b }

  function Max(a: int, b: int): (m: int) { if a <= b then b else a }

  /**
   JavaScript's `s.slice(start, end)` (`end` absent when `None`): a negative
   position counts from the end, positions are clamped to the string, and an
   empty range gives the empty string.
   */
  function JsSlice(s: string, start: int, end: Option<int>): (r: string)
    ensures 0 <= start ==> r == s[Min(start, |s|)..Max(Min(start, |s|), Target(s, end))]
    ensures start < 0 && end.None? ==> r == s[Max(|s| + start, 0)..]
  {
    var from := if start < 0 then Max(|s| + start, 0) else Min(start, |s|);
    var to := Target(s, end);
    if from >= to then "" else s[from..to]
  }

  /** Where `JsSlice` stops: the clamped `end`, or the end of the string. */
  function Target(s: string, end: Option<int>): (to: nat)
    ensures to <= |s|
  {
    match end
    case None => |s|
    case Some(e) => if e < 0 then Max(|s| + e, 0) else Min(e, |s|)
  }

  /**
   `short(x, n)`: the first `n` characters, `"..."`, the last `n`.
   With `n == 0` the tail is the whole string, since `slice(-0)` starts at 0.
   */
  function Short(x: string, n: int := 4): (r: string)
    ensures 1 <= n <= |x| ==> r == x[..n] + "..." + x[|x| - n..] && |r| == 2 * n + 3
    ensures |x| <= n ==> r == x + "..." + x
    ensures n == 0 ==> r == "..." + x
    ensures n < 0 ==> r == x[..Max(|x| + n, 0)] + "..." + x[Min(-n, |x|)..]
  {
    JsSlice(x, 0, Some(n)) + "..." + JsSlice(x, -n, None)
  }

  /** An address in base58 (32 to 44 characters) is shown as 11 characters by default. */
  lemma ShortAddressLength(x: string)
    requires 32 <= |x| <= 44
    ensures |Short(x)| == 11
  {
  }
}

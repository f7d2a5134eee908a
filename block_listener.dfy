/**
 * The Ethereum block listener of the relayer
 * (relayer/src/message_relayer/common/ethereum/block_listener.rs): it polls
 * the latest finalized block number and sends every block number from its
 * cursor up to it, then moves the cursor past it. On any error `run`
 * starts `run_inner` again, from the configured first block.
 *
 * The RPC answers are a finite sequence of polls; an infinite run is
 * modelled by its finite prefixes. Sleeping and metrics are left out.
 */
module BlockListener {

  /** One answer of `finalized_block_number`. */
  datatype Poll = Latest(number: nat) | RpcError

  /** The block numbers a, a+1, ..., b-1. */
  function Range(a: nat, b: nat): (r: seq<nat>)
    requires a <= b
    ensures |r| == b - a
    ensures forall i :: 0 <= i < |r| ==> r[i] == a + i
  {
    seq(b - a, i requires 0 <= i < b - a => a + i)
  }

  /** One poll's effect on the cursor: past `latest` when it reached the cursor, unchanged otherwise. */
  function Advance(current: nat, latest: nat): (r: nat)
    ensures r >= current
    ensures latest >= current ==> r == latest + 1
    ensures latest < current ==> r == current
  {
    if latest >= current then latest + 1 else current
  }

  /**
   * The cursor at the end of a session of `run_inner` started at `current`:
   * every answer advances it, until an RPC error or a send into a closed
   * channel ends the session.
   */
  function SessionCursor(current: nat, polls: seq<Poll>, receiverOpen: bool): (r: nat)
    ensures r >= current
    decreases |polls|
  {
    if polls == [] then current
    else match polls[0]
      case RpcError => current
      case Latest(latest) =>
        if latest >= current && !receiverOpen then current
        else SessionCursor(Advance(current, latest), polls[1..], receiverOpen)
  }

  /** Whether the session ends with an error before the polls run out. */
  predicate SessionFails(current: nat, polls: seq<Poll>, receiverOpen: bool)
    decreases |polls|
  {
    polls != [] &&
    match polls[0]
      case RpcError => true
      case Latest(latest) =>
        (latest >= current && !receiverOpen) || SessionFails(Advance(current, latest), polls[1..], receiverOpen)
  }

  /**
   * `run_inner`: the cursor starts at `from_block`; each poll sends
   * `current..=latest` when `latest >= current` and moves the cursor to
   * `latest + 1`. What was sent is always the gap-free run from
   * `from_block` to the cursor.
   */
  method RunInner(fromBlock: nat, polls: seq<Poll>, receiverOpen: bool) returns (sent: seq<nat>, cursor: nat, failed: bool)
    ensures cursor == SessionCursor(fromBlock, polls, receiverOpen)
    ensures failed == SessionFails(fromBlock, polls, receiverOpen)
    ensures sent == Range(fromBlock, cursor)
  {
    var currentBlock := fromBlock;
    sent := [];
    var k := 0;
    while k < |polls|
      invariant k <= |polls|
      invariant currentBlock >= fromBlock
      invariant sent == Range(fromBlock, currentBlock)
      invariant SessionCursor(fromBlock, polls, receiverOpen) == SessionCursor(currentBlock, polls[k..], receiverOpen)
      invariant SessionFails(fromBlock, polls, receiverOpen) == SessionFails(currentBlock, polls[k..], receiverOpen)
    {
      assert polls[k..][1..] == polls[k + 1..];
      match polls[k]
      case RpcError =>
        return sent, currentBlock, true;
      case Latest(latest) =>
        if latest >= currentBlock {
          if !receiverOpen {
            return sent, currentBlock, true;
          }
          for block := currentBlock to latest + 1
            invariant sent == Range(fromBlock, block)
          {
            sent := sent + [block];
          }
          currentBlock := latest + 1;
        }
      k := k + 1;
    }
    cursor, failed := currentBlock, false;
  }

  /** A poll at or past the cursor sends exactly `current..=latest`; one behind it sends nothing. */
  lemma AdvanceSends(fromBlock: nat, current: nat, latest: nat)
    requires fromBlock <= current
    ensures Range(fromBlock, Advance(current, latest)) == Range(fromBlock, current) + Range(current, Advance(current, latest))
    ensures latest < current ==> Range(current, Advance(current, latest)) == []
    ensures latest >= current ==> var sentNow := Range(current, Advance(current, latest));
      |sentNow| == latest - current + 1 && sentNow[0] == current && sentNow[|sentNow| - 1] == latest
  {
  }

  /** Polling in two parts ends where polling all at once ends, when the first part does not fail. */
  lemma {:induction false} SessionCursorAppend(current: nat, first: seq<Poll>, rest: seq<Poll>, receiverOpen: bool)
    requires !SessionFails(current, first, receiverOpen)
    ensures SessionCursor(current, first + rest, receiverOpen)
         == SessionCursor(SessionCursor(current, first, receiverOpen), rest, receiverOpen)
    decreases |first|
  {
    if first != [] {
      assert (first + rest)[0] == first[0];
      assert (first + rest)[1..] == first[1..] + rest;
      match first[0]
      case Latest(latest) =>
        SessionCursorAppend(Advance(current, latest), first[1..], rest, receiverOpen);
      case RpcError =>
    } else {
      assert first + rest == rest;
    }
  }

  /** Sent numbers are strictly increasing: no duplicate and no gap within one session. */
  lemma SessionOutputAscending(fromBlock: nat, polls: seq<Poll>, receiverOpen: bool)
    ensures var sent := Range(fromBlock, SessionCursor(fromBlock, polls, receiverOpen));
      forall i, j :: 0 <= i < j < |sent| ==> sent[i] < sent[j] && sent[j] - sent[i] == j - i
  {
  }

  /** The cursor passes every finalized block the session saw before it ended. */
  lemma {:induction false} CursorPassesLatest(current: nat, polls: seq<Poll>, receiverOpen: bool, k: nat)
    requires receiverOpen && k < |polls| && polls[k].Latest?
    requires forall j :: 0 <= j < k ==> polls[j].Latest?
    ensures SessionCursor(current, polls, receiverOpen) > polls[k].number
    decreases k
  {
    if k == 0 {
      assert SessionCursor(current, polls, receiverOpen) >= Advance(current, polls[0].number);
    } else {
      CursorPassesLatest(Advance(current, polls[0].number), polls[1..], receiverOpen, k - 1);
    }
  }

  function Concat(parts: seq<seq<nat>>): seq<nat> {
    if parts == [] then [] else Concat(parts[..|parts| - 1]) + parts[|parts| - 1]
  }

  /**
   * `run`: calls `run_inner` again after every error, each time from
   * `from_block`. `sessions` holds each session's polls; `run_inner` only
   * returns through an error, so every session but the last one (still
   * running) ends in one.
   */
  method Run(fromBlock: nat, sessions: seq<seq<Poll>>, receiverOpen: bool) returns (sent: seq<nat>)
    requires forall i :: 0 <= i < |sessions| - 1 ==> SessionFails(fromBlock, sessions[i], receiverOpen)
    ensures sent == Concat(seq(|sessions|, i requires 0 <= i < |sessions| =>
                              Range(fromBlock, SessionCursor(fromBlock, sessions[i], receiverOpen))))
  {
    sent := [];
    ghost var parts: seq<seq<nat>> := [];
    for s := 0 to |sessions|
      invariant |parts| == s
      invariant forall i :: 0 <= i < s ==> parts[i] == Range(fromBlock, SessionCursor(fromBlock, sessions[i], receiverOpen))
      invariant sent == Concat(parts)
    {
      var sessionSent, _, _ := RunInner(fromBlock, sessions[s], receiverOpen);
      assert (parts + [sessionSent])[..s] == parts;
      parts := parts + [sessionSent];
      sent := sent + sessionSent;
    }
    assert parts == seq(|sessions|, i requires 0 <= i < |sessions| =>
                        Range(fromBlock, SessionCursor(fromBlock, sessions[i], receiverOpen)));
  }

  /** After a failed session that sent something, the next one sends `from_block` again: blocks are re-sent. */
  lemma RestartResends(fromBlock: nat, first: seq<Poll>, second: seq<Poll>, receiverOpen: bool)
    requires SessionFails(fromBlock, first, receiverOpen)
    requires SessionCursor(fromBlock, first, receiverOpen) > fromBlock
    requires SessionCursor(fromBlock, second, receiverOpen) > fromBlock
    ensures var a := Range(fromBlock, SessionCursor(fromBlock, first, receiverOpen));
            var b := Range(fromBlock, SessionCursor(fromBlock, second, receiverOpen));
      var all := a + b;
      all[0] == all[|a|] == fromBlock
  {
  }
}

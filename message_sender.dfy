/**
 * The era table of the relayer's Ethereum message sender
 * (relayer/src/message_relayer/common/ethereum/message_sender/mod.rs).
 *
 * Each round of `run_inner` reads the fee payer's balance, files every
 * received message and merkle root under the era of its authority set,
 * then processes the eras in ascending id order and removes those that
 * report themselves finalized, except the latest era. Any `?` error ends
 * `run_inner`; `run` then starts it again with a fresh, empty table.
 *
 * `Era` is reduced to what the table files in it; its `process` and
 * `try_finalize` (whose module is not part of this model) and the RPC
 * answers are parameters of each round.
 */
module MessageSender {
  import opened Wrappers

  /** `MessageInBlock`, reduced to the block hash that decides its era and a payload. */
  datatype Message = Message(blockHash: nat, payload: nat)

  /** `RelayedMerkleRoot`, reduced to its authority set id and a payload. */
  datatype MerkleRoot = MerkleRoot(authoritySetId: nat, payload: nat)

  /** An `Era`: its authority set id and what was pushed into it. */
  datatype Era = Era(id: nat, messages: seq<Message>, merkleRoots: seq<MerkleRoot>)

  /** What one round of the loop receives from outside. */
  datatype RoundInput = RoundInput(
    balanceOk: bool,                     // `get_approx_balance` succeeds
    messages: seq<Message>,              // `messages.try_iter()`
    merkleRoots: seq<MerkleRoot>,        // `merkle_roots.try_iter()`
    authoritySetOf: nat -> Option<nat>,  // `signed_by_authority_set_id(block_hash)`, None on error
    processOk: nat -> bool,              // `era.process` succeeds for this era id
    tryFinalize: nat -> Option<bool>)    // `era.try_finalize`: finalized or not, None on error

  datatype RoundStatus = Continue | Stopped

  /** Every era is filed under its own id. */
  predicate KeysMatch(eras: map<nat, Era>) {
    forall id :: id in eras ==> eras[id].id == id
  }

  // ----- ingestion -------------------------------------------------------------

  /** The messages an era already holds, or none for a vacant entry. */
  function HeldMessages(eras: map<nat, Era>, id: nat): seq<Message> {
    if id in eras then eras[id].messages else []
  }

  /** The merkle roots an era already holds, or none for a vacant entry. */
  function HeldMerkleRoots(eras: map<nat, Era>, id: nat): seq<MerkleRoot> {
    if id in eras then eras[id].merkleRoots else []
  }

  /** The `entry` match for a message: push into the era, creating it when vacant. */
  function WithMessage(eras: map<nat, Era>, id: nat, m: Message): map<nat, Era> {
    if id in eras then eras[id := eras[id].(messages := eras[id].messages + [m])]
    else eras[id := Era(id, [m], [])]
  }

  /** The `entry` match for a merkle root. */
  function WithMerkleRoot(eras: map<nat, Era>, root: MerkleRoot): map<nat, Era> {
    var id := root.authoritySetId;
    if id in eras then eras[id := eras[id].(merkleRoots := eras[id].merkleRoots + [root])]
    else eras[id := Era(id, [], [root])]
  }

  /** The message loop: files each message until an authority-set lookup fails (false). */
  function IngestMessages(eras: map<nat, Era>, messages: seq<Message>, authoritySetOf: nat -> Option<nat>): (map<nat, Era>, bool)
    decreases |messages|
  {
    if messages == [] then (eras, true)
    else match authoritySetOf(messages[0].blockHash)
      case None => (eras, false)
      case Some(id) => IngestMessages(WithMessage(eras, id, messages[0]), messages[1..], authoritySetOf)
  }

  /** The merkle-root loop, which cannot fail. */
  function IngestMerkleRoots(eras: map<nat, Era>, roots: seq<MerkleRoot>): map<nat, Era>
    decreases |roots|
  {
    if roots == [] then eras else IngestMerkleRoots(WithMerkleRoot(eras, roots[0]), roots[1..])
  }

  /**
   * What `WithMessage` does to era `id`: the target era gains the message
   * at its end and exists afterwards; every other era is left as it was.
   */
  lemma WithMessageAt(eras: map<nat, Era>, target: nat, m: Message, id: nat)
    ensures var r := WithMessage(eras, target, m);
      && (id in r <==> id in eras || id == target)
      && HeldMessages(r, id) == HeldMessages(eras, id) + (if id == target then [m] else [])
      && HeldMerkleRoots(r, id) == HeldMerkleRoots(eras, id)
      && (id != target && id in eras ==> r[id] == eras[id])
  {
  }

  /** What `WithMerkleRoot` does to era `id`. */
  lemma WithMerkleRootAt(eras: map<nat, Era>, root: MerkleRoot, id: nat)
    ensures var r := WithMerkleRoot(eras, root);
      && (id in r <==> id in eras || id == root.authoritySetId)
      && HeldMerkleRoots(r, id) == HeldMerkleRoots(eras, id) + (if id == root.authoritySetId then [root] else [])
      && HeldMessages(r, id) == HeldMessages(eras, id)
      && (id != root.authoritySetId && id in eras ==> r[id] == eras[id])
  {
  }

  /** An era created for a message carries the id it is filed under. */
  lemma WithMessageKeepsKeysMatching(eras: map<nat, Era>, target: nat, m: Message)
    requires KeysMatch(eras)
    ensures KeysMatch(WithMessage(eras, target, m))
  {
  }

  /** An era created for a merkle root carries the id it is filed under. */
  lemma WithMerkleRootKeepsKeysMatching(eras: map<nat, Era>, root: MerkleRoot)
    requires KeysMatch(eras)
    ensures KeysMatch(WithMerkleRoot(eras, root))
  {
  }

  /** The messages that belong to era `id`, in arrival order. */
  function MessagesOf(messages: seq<Message>, authoritySetOf: nat -> Option<nat>, id: nat): seq<Message>
    decreases |messages|
  {
    if messages == [] then []
    else (if authoritySetOf(messages[0].blockHash) == Some(id) then [messages[0]] else [])
         + MessagesOf(messages[1..], authoritySetOf, id)
  }

  /** The merkle roots that belong to era `id`, in arrival order. */
  function MerkleRootsOf(roots: seq<MerkleRoot>, id: nat): seq<MerkleRoot>
    decreases |roots|
  {
    if roots == [] then []
    else (if roots[0].authoritySetId == id then [roots[0]] else []) + MerkleRootsOf(roots[1..], id)
  }

  /** One step of the message loop that did not stop: the first message goes to its era. */
  lemma IngestMessagesStep(eras: map<nat, Era>, messages: seq<Message>, authoritySetOf: nat -> Option<nat>)
    requires messages != [] && IngestMessages(eras, messages, authoritySetOf).1
    ensures authoritySetOf(messages[0].blockHash).Some?
    ensures IngestMessages(eras, messages, authoritySetOf)
         == IngestMessages(WithMessage(eras, authoritySetOf(messages[0].blockHash).value, messages[0]), messages[1..], authoritySetOf)
  {
  }

  /**
   * After a complete message loop, each era holds what it held before
   * followed by exactly its own messages in arrival order, and an era
   * exists when it existed before or received a message.
   */
  lemma {:induction false} IngestMessagesGroups(eras: map<nat, Era>, messages: seq<Message>, authoritySetOf: nat -> Option<nat>, id: nat)
    requires IngestMessages(eras, messages, authoritySetOf).1
    ensures var r := IngestMessages(eras, messages, authoritySetOf).0;
      && (id in r <==> id in eras || MessagesOf(messages, authoritySetOf, id) != [])
      && HeldMessages(r, id) == HeldMessages(eras, id) + MessagesOf(messages, authoritySetOf, id)
      && HeldMerkleRoots(r, id) == HeldMerkleRoots(eras, id)
    decreases |messages|
  {
    if messages != [] {
      IngestMessagesStep(eras, messages, authoritySetOf);
      var target := authoritySetOf(messages[0].blockHash).value;
      var next := WithMessage(eras, target, messages[0]);
      IngestMessagesGroups(next, messages[1..], authoritySetOf, id);
      WithMessageAt(eras, target, messages[0], id);
      var own := if target == id then [messages[0]] else [];
      var rest := MessagesOf(messages[1..], authoritySetOf, id);
      assert MessagesOf(messages, authoritySetOf, id) == own + rest;
      assert (HeldMessages(eras, id) + own) + rest == HeldMessages(eras, id) + (own + rest);
    }
  }

  /** After the merkle-root loop, each era holds what it held before followed by exactly its own roots. */
  lemma {:induction false} IngestMerkleRootsGroups(eras: map<nat, Era>, roots: seq<MerkleRoot>, id: nat)
    ensures var r := IngestMerkleRoots(eras, roots);
      && (id in r <==> id in eras || MerkleRootsOf(roots, id) != [])
      && HeldMerkleRoots(r, id) == HeldMerkleRoots(eras, id) + MerkleRootsOf(roots, id)
      && HeldMessages(r, id) == HeldMessages(eras, id)
    decreases |roots|
  {
    if roots != [] {
      var next := WithMerkleRoot(eras, roots[0]);
      assert IngestMerkleRoots(eras, roots) == IngestMerkleRoots(next, roots[1..]);
      IngestMerkleRootsGroups(next, roots[1..], id);
      WithMerkleRootAt(eras, roots[0], id);
      var own := if roots[0].authoritySetId == id then [roots[0]] else [];
      var rest := MerkleRootsOf(roots[1..], id);
      assert MerkleRootsOf(roots, id) == own + rest;
      assert (HeldMerkleRoots(eras, id) + own) + rest == HeldMerkleRoots(eras, id) + (own + rest);
    }
  }

  lemma {:induction false} IngestKeepsKeysMatching(eras: map<nat, Era>, messages: seq<Message>, roots: seq<MerkleRoot>, authoritySetOf: nat -> Option<nat>)
    requires KeysMatch(eras)
    ensures KeysMatch(IngestMessages(eras, messages, authoritySetOf).0)
    ensures KeysMatch(IngestMerkleRoots(eras, roots))
    decreases |messages| + |roots|
  {
    if messages != [] && authoritySetOf(messages[0].blockHash).Some? {
      var id := authoritySetOf(messages[0].blockHash).value;
      WithMessageKeepsKeysMatching(eras, id, messages[0]);
      IngestKeepsKeysMatching(WithMessage(eras, id, messages[0]), messages[1..], [], authoritySetOf);
    }
    if roots != [] {
      WithMerkleRootKeepsKeysMatching(eras, roots[0]);
      IngestKeepsKeysMatching(WithMerkleRoot(eras, roots[0]), [], roots[1..], authoritySetOf);
    }
  }

  // ----- finalization ----------------------------------------------------------

  /** The largest key: `last_key_value` of the `BTreeMap`. */
  ghost function MaxKey(keys: set<nat>): (r: nat)
    requires keys != {}
    ensures r in keys && forall k :: k in keys ==> k <= r
    decreases |keys|
  {
    var k :| k in keys;
    if keys == {k} then k
    else
      var rest := MaxKey(keys - {k});
      assert forall j :: j in keys ==> j == k || j in keys - {k};
      if k > rest then k else rest
  }

  /** The smallest key: the next era of the ascending iteration. */
  ghost function MinKey(keys: set<nat>): (r: nat)
    requires keys != {}
    ensures r in keys && forall k :: k in keys ==> r <= k
    decreases |keys|
  {
    var k :| k in keys;
    if keys == {k} then k
    else
      var rest := MinKey(keys - {k});
      assert forall j :: j in keys ==> j == k || j in keys - {k};
      if k < rest then k else rest
  }

  /** Some era whose `process` succeeded failed to answer `try_finalize`: the round stops. */
  ghost predicate FinalizeFails(eras: map<nat, Era>, input: RoundInput) {
    exists id :: id in eras && input.processOk(id) && input.tryFinalize(id).None?
  }

  /** The eras the round removes: processed, reported finalized, and not the latest. */
  ghost function Finalized(eras: map<nat, Era>, input: RoundInput): (r: set<nat>)
    requires eras != map[]
    ensures r <= eras.Keys
  {
    var latestEra := MaxKey(eras.Keys);
    set id | id in eras && input.processOk(id) && input.tryFinalize(id) == Some(true) && id != latestEra
  }

  /** The table after the round's removals. */
  function RemoveAll(eras: map<nat, Era>, ids: set<nat>): (r: map<nat, Era>)
    ensures r.Keys == eras.Keys - ids
    ensures forall id :: id in r ==> r[id] == eras[id]
  {
    map id | id in eras && id !in ids :: eras[id]
  }

  /** The table after the ingestion of a round whose balance read succeeded, and whether ingestion succeeded. */
  function Ingested(eras: map<nat, Era>, input: RoundInput): (map<nat, Era>, bool) {
    var (afterMessages, ok) := IngestMessages(eras, input.messages, input.authoritySetOf);
    if !ok then (afterMessages, false) else (IngestMerkleRoots(afterMessages, input.merkleRoots), true)
  }

  /** One round of the loop: the new table, and whether the round ended `run_inner`. */
  ghost function RoundEffect(eras: map<nat, Era>, input: RoundInput): (map<nat, Era>, RoundStatus) {
    if !input.balanceOk then (eras, Stopped)
    else
      var (ingested, ok) := Ingested(eras, input);
      if !ok then (ingested, Stopped)
      else if ingested == map[] then (ingested, Continue)
      else if FinalizeFails(ingested, input) then (ingested, Stopped)
      else (RemoveAll(ingested, Finalized(ingested, input)), Continue)
  }

  /** The latest era survives every round that gets to finalization, whatever `try_finalize` says of it. */
  lemma LatestEraNeverRemoved(eras: map<nat, Era>, input: RoundInput)
    requires input.balanceOk && Ingested(eras, input).1 && Ingested(eras, input).0 != map[]
    ensures var ingested := Ingested(eras, input).0;
      var latestEra := MaxKey(ingested.Keys);
      latestEra in RoundEffect(eras, input).0 && RoundEffect(eras, input).0[latestEra] == ingested[latestEra]
  {
  }

  /**
   * An era leaves the table exactly when its `process` succeeded, it
   * reported itself finalized and it is not the latest; every other era
   * stays as it was.
   */
  lemma OnlyFinalizedRemoved(eras: map<nat, Era>, input: RoundInput, id: nat)
    requires input.balanceOk && Ingested(eras, input).1 && Ingested(eras, input).0 != map[]
    requires !FinalizeFails(Ingested(eras, input).0, input) && id in Ingested(eras, input).0
    ensures var ingested := Ingested(eras, input).0;
      var after := RoundEffect(eras, input).0;
      && (id !in after <==> input.processOk(id) && input.tryFinalize(id) == Some(true) && id != MaxKey(ingested.Keys))
      && (id in after ==> after[id] == ingested[id])
  {
  }

  /** A round that ingests nothing into an empty table neither processes nor removes anything. */
  lemma EmptyRoundContinues(input: RoundInput)
    requires input.balanceOk && input.messages == [] && input.merkleRoots == []
    ensures RoundEffect(map[], input) == (map[], Continue)
  {
  }

  /** Strictly increasing. */
  predicate Ascending(ids: seq<nat>) {
    forall i, j :: 0 <= i < j < |ids| ==> ids[i] < ids[j]
  }

  /** The keys in ascending order: the order in which a `BTreeMap` is iterated. */
  ghost function InOrder(keys: set<nat>): seq<nat>
    decreases |keys|
  {
    if keys == {} then [] else var least := MinKey(keys); [least] + InOrder(keys - {least})
  }

  /** `InOrder` lists exactly the keys. */
  lemma {:induction false} InOrderMembers(keys: set<nat>, id: nat)
    ensures id in InOrder(keys) <==> id in keys
    decreases |keys|
  {
    if keys != {} {
      var least := MinKey(keys);
      InOrderMembers(keys - {least}, id);
    }
  }

  /** `InOrder` lists the keys smallest first. */
  lemma {:induction false} InOrderAscending(keys: set<nat>)
    ensures Ascending(InOrder(keys))
    decreases |keys|
  {
    if keys != {} {
      var least := MinKey(keys);
      var rest := keys - {least};
      InOrderAscending(rest);
      var tail := InOrder(rest);
      var ordered := [least] + tail;
      forall i, j | 0 <= i < j < |ordered|
        ensures ordered[i] < ordered[j]
      {
        if i == 0 {
          InOrderMembers(rest, tail[j - 1]);
        }
      }
    }
  }

  /** The largest element of a non-empty set, computed: the latest era. */
  method Greatest(keys: set<nat>) returns (greatest: nat)
    requires keys != {}
    ensures greatest == MaxKey(keys)
  {
    ghost var largest := MaxKey(keys);
    greatest :| greatest in keys && forall k :: k in keys ==> k <= greatest;
    assert greatest <= largest && largest <= greatest;
  }

  /** A prefix of an ascending sequence is ascending and holds only its elements. */
  lemma AscendingPrefix(ids: seq<nat>, n: nat)
    requires Ascending(ids) && n <= |ids|
    ensures Ascending(ids[..n])
    ensures forall id :: id in ids[..n] ==> id in ids
  {
  }

  /** The smallest element of a non-empty set, computed: the first key of the iteration. */
  method Least(keys: set<nat>) returns (least: nat)
    requires keys != {}
    ensures least == MinKey(keys)
  {
    ghost var smallest := MinKey(keys);
    least :| least in keys && forall k :: k in keys ==> least <= k;
    assert least <= smallest && smallest <= least;
  }

  /** The keys in ascending order, taken smallest first. */
  method SortedKeys(keys: set<nat>) returns (ordered: seq<nat>)
    ensures ordered == InOrder(keys)
    ensures Ascending(ordered)
    ensures forall id :: id in ordered <==> id in keys
  {
    var remaining := keys;
    ordered := [];
    while remaining != {}
      invariant ordered + InOrder(remaining) == InOrder(keys)
      decreases |remaining|
    {
      var next := Least(remaining);
      assert InOrder(remaining) == [next] + InOrder(remaining - {next});
      ordered := ordered + [next];
      remaining := remaining - {next};
    }
    InOrderAscending(keys);
    forall id
      ensures id in ordered <==> id in keys
    {
      InOrderMembers(keys, id);
    }
  }

  /** The eras among `ids` the walk marks for removal, in walk order. */
  function FinalizedIn(ids: seq<nat>, input: RoundInput, latestEra: nat): seq<nat>
    decreases |ids|
  {
    if ids == [] then []
    else
      var last := ids[|ids| - 1];
      FinalizedIn(ids[..|ids| - 1], input, latestEra)
        + (if input.processOk(last) && input.tryFinalize(last) == Some(true) && last != latestEra then [last] else [])
  }

  /** Whether every era among `ids` whose `process` succeeded answered `try_finalize`. */
  predicate AnsweredIn(ids: seq<nat>, input: RoundInput)
    decreases |ids|
  {
    ids == [] ||
    (AnsweredIn(ids[..|ids| - 1], input)
     && (input.processOk(ids[|ids| - 1]) ==> input.tryFinalize(ids[|ids| - 1]).Some?))
  }

  /** Walking one more era: it is marked, and must have answered, by the same test as the walk applies. */
  lemma WalkStep(ids: seq<nat>, i: nat, input: RoundInput, latestEra: nat)
    requires i < |ids|
    ensures FinalizedIn(ids[..i + 1], input, latestEra) == FinalizedIn(ids[..i], input, latestEra)
      + (if input.processOk(ids[i]) && input.tryFinalize(ids[i]) == Some(true) && ids[i] != latestEra then [ids[i]] else [])
    ensures AnsweredIn(ids[..i + 1], input)
        == (AnsweredIn(ids[..i], input) && (input.processOk(ids[i]) ==> input.tryFinalize(ids[i]).Some?))
  {
    assert ids[..i + 1][..i] == ids[..i];
  }

  /** An era is marked exactly when it was processed, reported finalized, and is not the latest. */
  lemma {:induction false} FinalizedInMembers(ids: seq<nat>, input: RoundInput, latestEra: nat, id: nat)
    ensures id in FinalizedIn(ids, input, latestEra)
        <==> id in ids && input.processOk(id) && input.tryFinalize(id) == Some(true) && id != latestEra
    decreases |ids|
  {
    if ids != [] {
      var init := ids[..|ids| - 1];
      FinalizedInMembers(init, input, latestEra, id);
      assert ids == init + [ids[|ids| - 1]];
    }
  }

  /** A walk in which every processed era answered leaves no processed era unanswered. */
  lemma {:induction false} AnsweredInMembers(ids: seq<nat>, input: RoundInput, id: nat)
    requires AnsweredIn(ids, input)
    requires id in ids && input.processOk(id)
    ensures input.tryFinalize(id).Some?
    decreases |ids|
  {
    var init := ids[..|ids| - 1];
    assert ids == init + [ids[|ids| - 1]];
    if id != ids[|ids| - 1] {
      AnsweredInMembers(init, input, id);
    }
  }

  /** When every era whose `process` succeeded answered `try_finalize`, the round does not stop. */
  lemma AllAnswered(eras: map<nat, Era>, input: RoundInput, ordered: seq<nat>)
    requires forall id :: id in ordered <==> id in eras
    requires AnsweredIn(ordered, input)
    ensures !FinalizeFails(eras, input)
  {
    forall id | id in eras && input.processOk(id)
      ensures input.tryFinalize(id).Some?
    {
      AnsweredInMembers(ordered, input, id);
    }
  }

  /** The marked eras of a complete walk are the eras the round removes. */
  lemma FinalizedMatches(eras: map<nat, Era>, input: RoundInput, ordered: seq<nat>, latestEra: nat)
    requires eras != map[] && latestEra == MaxKey(eras.Keys)
    requires forall id :: id in ordered <==> id in eras
    ensures forall id :: id in FinalizedIn(ordered, input, latestEra) <==> id in Finalized(eras, input)
  {
    forall id
      ensures id in FinalizedIn(ordered, input, latestEra) <==> id in Finalized(eras, input)
    {
      FinalizedInMembers(ordered, input, latestEra, id);
    }
  }

  /**
   * The walk over the eras in ascending order: `visited` lists the eras
   * whose `process` was called, in that order, up to the first failing
   * `try_finalize`; `finalizedEras` lists the eras to remove.
   */
  method CollectFinalized(eras: map<nat, Era>, input: RoundInput) returns (finalizedEras: seq<nat>, failed: bool, visited: seq<nat>)
    requires eras != map[]
    ensures failed <==> FinalizeFails(eras, input)
    ensures !failed ==> (forall id :: id in finalizedEras <==> id in Finalized(eras, input))
    ensures !failed ==> (forall id :: id in eras <==> id in visited)
    ensures forall id :: id in visited ==> id in eras
    ensures Ascending(visited)
  {
    var latestEra := Greatest(eras.Keys);
    var ordered := SortedKeys(eras.Keys);
    finalizedEras := [];
    for i := 0 to |ordered|
      invariant AnsweredIn(ordered[..i], input)
      invariant finalizedEras == FinalizedIn(ordered[..i], input, latestEra)
    {
      WalkStep(ordered, i, input, latestEra);
      var eraId := ordered[i];
      if !input.processOk(eraId) {
        continue;
      }
      var finalized := input.tryFinalize(eraId);
      if finalized.None? {
        assert FinalizeFails(eras, input) by {
          assert eraId in eras && input.processOk(eraId) && input.tryFinalize(eraId).None?;
        }
        visited := ordered[..i + 1];
        AscendingPrefix(ordered, i + 1);
        return finalizedEras, true, visited;
      }
      if finalized.value && eraId != latestEra {
        finalizedEras := finalizedEras + [eraId];
      }
    }
    assert ordered[..|ordered|] == ordered;
    AllAnswered(eras, input, ordered);
    FinalizedMatches(eras, input, ordered, latestEra);
    failed, visited := false, ordered;
  }

  // ----- the table, updated in place ----------------------------------------------

  class EraTable {
    /** `eras: BTreeMap<AuthoritySetId, Era>`. */
    var eras: map<nat, Era>

    ghost predicate Valid()
      reads this
    {
      KeysMatch(eras)
    }

    /** `BTreeMap::new()`. */
    constructor()
      ensures Valid() && eras == map[]
    {
      eras := map[];
    }

    /** The message loop, stopping at the first failed authority-set lookup. */
    method PushMessages(messages: seq<Message>, authoritySetOf: nat -> Option<nat>) returns (ok: bool)
      requires Valid()
      modifies this
      ensures Valid()
      ensures (eras, ok) == IngestMessages(old(eras), messages, authoritySetOf)
    {
      var k := 0;
      while k < |messages|
        invariant k <= |messages|
        invariant KeysMatch(eras)
        invariant IngestMessages(old(eras), messages, authoritySetOf) == IngestMessages(eras, messages[k..], authoritySetOf)
      {
        assert messages[k..][1..] == messages[k + 1..];
        var authoritySetId := authoritySetOf(messages[k].blockHash);
        if authoritySetId.None? {
          return false;
        }
        WithMessageKeepsKeysMatching(eras, authoritySetId.value, messages[k]);
        eras := WithMessage(eras, authoritySetId.value, messages[k]);
        k := k + 1;
      }
      ok := true;
    }

    /** The merkle-root loop. */
    method PushMerkleRoots(roots: seq<MerkleRoot>)
      requires Valid()
      modifies this
      ensures Valid()
      ensures eras == IngestMerkleRoots(old(eras), roots)
    {
      var k := 0;
      while k < |roots|
        invariant k <= |roots|
        invariant KeysMatch(eras)
        invariant IngestMerkleRoots(old(eras), roots) == IngestMerkleRoots(eras, roots[k..])
      {
        assert roots[k..][1..] == roots[k + 1..];
        WithMerkleRootKeepsKeysMatching(eras, roots[k]);
        eras := WithMerkleRoot(eras, roots[k]);
        k := k + 1;
      }
    }

    /** `eras.remove` for each finalized era. */
    method RemoveEras(ids: seq<nat>)
      requires Valid()
      modifies this
      ensures Valid()
      ensures eras == RemoveAll(old(eras), set i | 0 <= i < |ids| :: ids[i])
    {
      for i := 0 to |ids|
        invariant KeysMatch(eras)
        invariant eras == RemoveAll(old(eras), set j | 0 <= j < i :: ids[j])
      {
        eras := eras - {ids[i]};
      }
    }

    /**
     * One iteration of the loop of `run_inner`. `visited` lists the eras
     * whose `process` was called, in the order it was called.
     */
    method Round(input: RoundInput) returns (status: RoundStatus, visited: seq<nat>)
      requires Valid()
      modifies this
      ensures Valid()
      ensures (eras, status) == RoundEffect(old(eras), input)
      ensures Ascending(visited)
      ensures status == Continue && Ingested(old(eras), input).0 != map[] ==>
        forall id :: id in Ingested(old(eras), input).0 <==> id in visited
    {
      visited := [];
      if !input.balanceOk {
        return Stopped, visited;
      }
      var ok := PushMessages(input.messages, input.authoritySetOf);
      if !ok {
        return Stopped, visited;
      }
      PushMerkleRoots(input.merkleRoots);
      if eras == map[] {
        return Continue, visited;
      }
      var finalizedEras, failed;
      finalizedEras, failed, visited := CollectFinalized(eras, input);
      if failed {
        return Stopped, visited;
      }
      assert (set i | 0 <= i < |finalizedEras| :: finalizedEras[i]) == Finalized(eras, input);
      RemoveEras(finalizedEras);
      status := Continue;
    }
  }

  /** `run_inner` over a finite sequence of rounds: rounds run until one stops. */
  ghost function RunRounds(eras: map<nat, Era>, rounds: seq<RoundInput>): (map<nat, Era>, bool)
    decreases |rounds|
  {
    if rounds == [] then (eras, false)
    else
      var (next, status) := RoundEffect(eras, rounds[0]);
      if status == Stopped then (next, true) else RunRounds(next, rounds[1..])
  }

  /**
   * `run_inner`: a fresh, empty table, then rounds until one stops it.
   * Whatever the previous `run_inner` had filed is gone: every call of
   * `run` starts from `map[]`.
   */
  method RunInner(rounds: seq<RoundInput>) returns (table: EraTable, stopped: bool)
    ensures fresh(table)
    ensures (table.eras, stopped) == RunRounds(map[], rounds)
  {
    table := new EraTable();
    var k := 0;
    while k < |rounds|
      invariant k <= |rounds|
      invariant table.Valid()
      invariant RunRounds(map[], rounds) == RunRounds(table.eras, rounds[k..])
    {
      assert rounds[k..][1..] == rounds[k + 1..];
      var status, _ := table.Round(rounds[k]);
      if status == Stopped {
        return table, true;
      }
      k := k + 1;
    }
    stopped := false;
  }
}

# Verified core of neatio

A Dafny model of the stateful cores of neatio, a Go blockchain node derived from go-ethereum:
the transaction pool, the event feed, the header and block chains, the section indexer, gas and
money over a block, side-chain settlement, the decaying metrics sample and derivation paths.
Code that updates fields, slices and maps is modelled by classes, arrays and loops; concurrent
code is modelled by a machine over its atomic steps. Everything is proved for all inputs and
all runs; `dafny verify dfyconfig.toml` checks the whole project.

## Main results

- **Pool.** From a new pool, after any sequence of adds, removals, price changes, idle evictions
  and resets, the hash index is exactly the disjoint union of the pending and the queued lists,
  every pooled transaction is tracked by the price heap, and each one is local or meets the price
  floor. On a run without a reorganisation every account's pending nonces are exactly the interval
  from its state nonce to its virtual nonce (`TxPools.Run`). A reset leaves only what fits the new
  state, takes nothing from elsewhere, and in a pool with room makes every valid reinjected
  transaction at its account's nonce pending (`TxPools.TxPool.Reset`).
- **Fairness.** The eviction loop over a priority queue of offenders computes a water level:
  every non-local list is cut to one common level, never below the guaranteed slots, and it is
  the highest level that meets the limit (`TxPools.TxPool.EqualizePending`).
- **Feed.** Under every interleaving, a Send delivers once to each subscription live when it
  merged the inbox, except those removed while still active, and a removal always finds its
  channel (`Feeds.SendOutcome`, `Feeds.RunKeeps`). Told by the steps alone, a channel subscribed k
  times and never unsubscribed is sent to exactly k times (`Feeds.SendReaches`).
- **Chains.** After any header writes and coin flips the number index is exactly the ancestry of
  a heaviest header (`HeaderChains.Run`); over any block writes index and transaction lookup are
  those of the head, with the exact condition for blocks written again (`BlockChains.Run`).
- **Indexer.** With every read and write of the section count a step of its own, section heads
  stay owned and linked throughout a run if and only if no step relies on an outdated count
  (`ChainIndexers.RunKeepsIff`), and always if no notice overlaps a rollback
  (`ChainIndexers.EveryRun`). Their heads are those of the canonical chain if and only if no commit
  stores a head that has ceased to be canonical since it was read (`IndexerLaws.CanonicalIff`).
- **Blocks.** A block is accepted exactly if no transaction fails in its turn, and each has exactly
  its effect on every balance. Gas used and gas left make up the block limit, money is conserved
  but for the fees counted, and the gas of each receipt can be read off the cumulative counts
  (`StateTransitions.Process`, `StateTransitions.GasRecovered`).
- **Settlement, sample, paths.** Every pending chain has one fate and its deposits are released
  once; the reservoir heap keeps every index under rescaling; paths round-trip.

## Where the code differs from what it promises

- The indexer's rollback after a failed backend reset runs without the lock
  (core/chain_indexer.go:348-351), so it can overlap the loop of a notice on the same count.
  `ChainIndexers.RunKeepsIff` gives the exact condition: the invariant fails exactly when a worker
  writes back from an outdated or an empty count, removes the head of a section it did not take,
  or ends at another count than it relies on. `ChainIndexers.RaceBreaks` gives for each of these a
  run from a new indexer that ends at rest with wrong heads; `ChainIndexers.Underflow` one that
  wraps the count around. A later round of the rollback may repair a broken state, so the
  condition is for the invariant throughout a run; `ChainIndexers.EndsExactIff` says which runs end
  with exact heads all the same.
- A reorganisation can overtake a section between its last read and its commit. If it changes the
  section's blocks only, the notice rolls nothing back and the commit compares the head before the
  section, which still stands (core/chain_indexer.go:306), so the head of the abandoned branch is
  stored: `IndexerLaws.StrayCommit`. `IndexerLaws.CanonicalIff` gives the exact condition, a
  comparison the commit could make: the head read is still the canonical block of its number.
- The sample is documented as a forward-decaying priority reservoir. An update evicts the
  lightest entry before it looks at the new one (metrics/sample.go:168-174), so a lighter entry
  can replace a heavier one: `Samples.LighterReplacesHeavier`. `Samples.RunSelectsIff` gives the
  exact condition, and `Samples.NewestKept` what holds instead.
- Derivation paths are documented to ignore white space. `DerivationPaths.GapIff` says exactly
  when they do: white space put anywhere into a path that parses is ignored if and only if it is
  at an end of its component or before the component's apostrophe. The empty path prints as a
  text that does not parse (`DerivationPaths.RoundTrip`).
- `writeBlockWithState` makes a block that is stored with its state the head without a
  reorganisation (core/blockchain.go:969-973). `BlockChains.RefreshOffIndex` shows an index left
  with a wrong block; `BlockChains.Run` gives the exact conditions for index and lookup.
- In `writeBlockWithState` the branch for other engines assigns a shadowed variable and is
  unreachable behind a type assertion, so only the branch that always makes the block canonical
  is modelled.

## Modelling choices

- A transaction's hash commits to its fields, so hashes are values (`TxItems.Tx`); a block's hash
  commits to its ancestry, so a block is its ancestry (`Chains.Block`).
- Go's `container/heap` is modelled by its sift-up and sift-down steps (`Heaps`), which
  metrics/sample.go spells out; heaps compare real-valued keys.
- The virtual machine and the chain-contract callbacks are function values that return at most
  the gas they are given and keep the total of balances.
- Time, randomness and delegated checks (signatures, data size, chain-contract validation) are
  inputs of the operations.
- Unsigned 64-bit gas arithmetic is explicit: overflow checks, the panic of `AddGas` as a proof
  obligation, and wrap-around in receipt differences.

## Model

| member | source | states |
|---|---|---|
| `Heaps.SiftUpRestores` | metrics/sample.go:583-592 | a sequence in heap order but for one element that may be too light is a heap once that element has risen |
| `Heaps.SiftDownRestores` | metrics/sample.go:594-610 | after sinking an element every edge is in order, but perhaps the one above it when nothing moved |
| `Heaps.RootIsLeast` | metrics/sample.go:546-551 | the root of a heap is a least element |
| `Heaps.Push` | metrics/sample.go:557-562 | pushing keeps heap order and adds exactly the element |
| `Heaps.Pop` | metrics/sample.go:564-573 | popping keeps heap order, takes out exactly the root, and nothing left is below it |
| `Heaps.Remove` | core/tx_list.go:159-164 | removal at any index keeps heap order and takes out exactly that element |
| `Heaps.Init` | core/tx_list.go:114-118 | heap construction orders any sequence and keeps its elements |
| `TxLists.IndexTop` | core/tx_list.go:34-48 | the top of a nonce heap over the contents is their least nonce |
| `TxLists.TxSortedMap.constructor` | core/tx_list.go:59-64 | a new map is empty and its three representations agree |
| `TxLists.TxSortedMap.Put` | core/tx_list.go:73-79 | stores under the nonce, replacing what was there; heap, map and cache still agree |
| `TxLists.TxSortedMap.Forward` | core/tx_list.go:84-98 | drops and returns in order exactly what lies below the threshold; map, heap and cache agree |
| `TxLists.TxSortedMap.Filter` | core/tx_list.go:102-123 | drops and returns, each once, exactly what the predicate selects; the representations agree |
| `TxLists.TxSortedMap.Reindex` | core/tx_list.go:113-121 | rebuilding the heap from the map makes the representations agree without changing the contents |
| `TxLists.TxSortedMap.Cap` | core/tx_list.go:127-148 | keeps the lowest nonces up to the threshold and returns exactly the others, highest first |
| `TxLists.TxSortedMap.Remove` | core/tx_list.go:152-169 | removes exactly the nonce and tells whether it was there |
| `TxLists.TxSortedMap.Ready` | core/tx_list.go:178-193 | takes out in order the maximal consecutive run from the least nonce, or nothing when that is past start |
| `TxLists.TxSortedMap.Flatten` | core/tx_list.go:203-216 | the cached or freshly sorted listing is the contents by nonce, each once |
| `TxItems.FlattensUnique` | core/tx_list.go:203-216 | the sorted listing of a contents is unique, so the cache cannot be another one |
| `TxItems.ReadyFromStart` | core/tx_list.go:178-193 | a list with nothing below start yields exactly the interval from start to its first gap |
| `TxItems.CapToCaps` | core/tx_list.go:127-148 | dropping the highest nonce repeatedly is the cap to the lowest ones |
| `TxItems.CapIsCapTo` | core/tx_list.go:127-148 | there is only one way to cap, so what a capped list object holds is what the pool takes it to hold |
| `TxItems.CapSpans` | core/tx_list.go:127-148 | capping an interval by one drops its last nonce |
| `TxItems.FilterPartitions` | core/tx_list.go:290-314 | removed, invalidated and kept transactions partition the list |
| `TxItems.FilterSpans` | core/tx_list.go:290-314 | a strict filter leaves a consecutive list as a consecutive prefix, shorter exactly if something was over a limit |
| `TxLists.CapsSuffice` | core/tx_list.go:291-294 | below the cached caps the plain scan finds nothing, so the shortcut is right |
| `TxLists.TxList.constructor` | core/tx_list.go:232-238 | a new list is empty and its caps hold |
| `TxLists.TxList.Overlaps` | core/tx_list.go:242-244 | whether the nonce is taken |
| `TxLists.TxList.Add` | core/tx_list.go:251-272 | inserts exactly if the nonce is free, or the price is higher and less than one unit short of the old one raised by the bump; returns what it replaced; the caps still bound every entry |
| `TxLists.OutbidsIff` | core/tx_list.go:254-261 | the rounded threshold lets in exactly the higher prices less than one unit short of the whole bump |
| `TxLists.BidsCompound` | core/tx_list.go:251-272 | over any series of bids for a nonce prices compound: but for 99 hundredths of a unit lost at each step, every replacement raises the price by the whole bump |
| `TxLists.TxList.Forward` | core/tx_list.go:277-279 | drops exactly what lies below the threshold, keeping the caps sound |
| `TxLists.TxList.Filter` | core/tx_list.go:290-314 | whatever the cached caps, keeps exactly what is within both limits, in strict mode only as far as everything before it is; returns exactly what is over a limit and what that strands |
| `TxLists.TxList.LowestNonce` | core/tx_list.go:304-310 | finds the least nonce among the removed transactions |
| `TxLists.TxList.Cap` | core/tx_list.go:318-320 | keeps the lowest nonces and returns exactly the others |
| `TxLists.TxList.Remove` | core/tx_list.go:325-336 | removes the nonce, and in strict mode exactly everything past it, which it returns |
| `TxLists.TxList.Ready` | core/tx_list.go:345-347 | takes out the maximal consecutive run from the least nonce |
| `TxLists.TxList.Flatten` | core/tx_list.go:362-364 | the sorted contents |
| `TxPriced.Popped` | core/tx_list.go:370-384 | the popped transaction is a cheapest one and the rest is still a heap |
| `TxPriced.TxPricedList.Put` | core/tx_list.go:403-405 | the heap holds exactly one copy of the transaction more |
| `TxPriced.TxPricedList.Removed` | core/tx_list.go:410-424 | counts a stale entry, or past a quarter of the heap rebuilds it as exactly the pool |
| `TxPriced.TxPricedList.Cap` | core/tx_list.go:428-455 | takes out exactly the pooled non-local transactions below the threshold; the heap still tracks the others |
| `TxPriced.TxPricedList.Underpriced` | core/tx_list.go:459-484 | true exactly for a non-local transaction no dearer than every one in a non-empty pool |
| `TxPriced.TxPricedList.Discard` | core/tx_list.go:488-511 | takes pooled non-local transactions, none dearer than any it leaves; falls short of the count only if it took all of them |
| `PoolLists.Refile` | core/tx_pool.go:744-765 | replacing one account's two lists and the index by their contents keeps the partition |
| `PoolLists.StaysGapFree` | core/tx_pool.go:782-815 | if one account stays an interval from state nonce to virtual nonce and others are untouched, all stay gap-free |
| `PoolSteps.RemovesPending` | core/tx_pool.go:948-969 | removing a pending transaction and queueing what follows it keeps the partition |
| `PoolSteps.RemovesQueued` | core/tx_pool.go:970-976 | removing a queued transaction keeps the partition |
| `PoolSteps.RemovalGapFree` | core/tx_pool.go:948-969 | after a removal the virtual nonce ends the shortened interval |
| `PoolSteps.PromotionPartitions` | core/tx_pool.go:991-1032 | dropping, promoting and capping on one account keeps the partition |
| `PoolSteps.PromotionGapFree` | core/tx_pool.go:1012-1017 | the promoted run continues the pending interval |
| `PoolSteps.DemotionPartitions` | core/tx_pool.go:1149-1189 | dropping and demoting on one account keeps the partition |
| `PoolSteps.DemotionRoots` | core/tx_pool.go:1149-1189 | after demotion an account's pending list starts at its new state nonce |
| `PoolSteps.CutPartitions` | core/tx_pool.go:1063-1076 | cutting the last pending transaction of an account keeps the partition |
| `PoolSteps.CutGapFree` | core/tx_pool.go:1063-1076 | and with the virtual nonce lowered keeps the interval |
| `PoolSteps.ReplacementPartitions` | core/tx_pool.go:700-724 | replacing a pending transaction keeps the partition |
| `PoolSteps.InsertionPartitions` | core/tx_pool.go:726-738 | queueing a transaction whose nonce is not pending keeps the partition |
| `PoolObjects.PromoteList` | core/tx_pool.go:996-1027 | run on the list object, the calls of the promotion loop return exactly the ready run and leave exactly what the pool's proof says is left |
| `PoolObjects.DemoteList` | core/tx_pool.go:1153-1184 | run on the list object, the calls of the demotion loop leave exactly what stays and return exactly what is queued again |
| `PoolObjects.CutList` | core/tx_pool.go:1063-1064 | run on the list object, the fairness cut drops exactly the last transaction, and shortens an interval by one |
| `PoolObjects.ListTable.Touched` | core/tx_pool.go:939-1189 | changing one list object in place changes the contents of that account's list and of no other |
| `PoolObjects.ListTable.Add` | core/tx_pool.go:744-765 | on the table of list objects: inserts by the price bump into the account's list, made if there is none; no other list changes |
| `PoolObjects.ListTable.Remove` | core/tx_pool.go:950-976 | removes from the account's list, in strict mode with everything past it, and deletes an empty list |
| `PoolObjects.ListTable.Promote` | core/tx_pool.go:991-1032 | leaves and returns exactly what promotion on contents does, and deletes an empty list |
| `PoolObjects.ListTable.Demote` | core/tx_pool.go:1151-1188 | leaves and returns exactly what demotion on contents does, and deletes an empty list |
| `PoolObjects.ListTable.Cut` | core/tx_pool.go:1063-1076 | drops exactly the account's last transaction |
| `TxPools.TxPool.constructor` | core/tx_pool.go:169-272 | a new pool is empty, valid and gap-free; its settings are those given, a price limit of 0 being 1 and a bump of 0 being 10, and the floor is the price limit |
| `TxPools.TxPool.EnqueueTx` | core/tx_pool.go:744-765 | queues or refuses by the price bump; says exactly which lists and index entries change |
| `TxPools.TxPool.Demote` | core/tx_pool.go:960-962 | demoted transactions are all queued: none is refused and none displaces another |
| `TxPools.TxPool.RemoveTx` | core/tx_pool.go:939-977 | removes exactly the transaction from the index, demotes exactly what follows it, lowers the virtual nonce to it, keeps partition and gap-freedom |
| `TxPools.TxPool.SetGasPrice` | core/tx_pool.go:475-484 | exactly the non-local transactions below the new floor go; every invariant is kept |
| `TxPools.TxPool.PromoteTx` | core/tx_pool.go:782-815 | moves to pending or drops by the price bump, and sets the virtual nonce past it |
| `TxPools.TxPool.PromoteAccount` | core/tx_pool.go:991-1032 | promotes exactly the ready run of what is still executable and caps the rest of a non-local queue; no other account changes |
| `TxPools.TxPool.DemoteAccount` | core/tx_pool.go:1153-1188 | keeps exactly what is still executable in place and queues exactly what is stranded |
| `TxPools.TxPool.Count` | core/tx_pool.go:1034-1037 | the number of transactions over all lists |
| `TxPools.TxPool.SpamOrder` | core/tx_pool.go:1040-1047 | the queue of offenders holds exactly the non-local accounts above their slots |
| `TxPools.TxPool.LowerOnce` | core/tx_pool.go:1062-1077 | one pass cuts every offender by one, so all of them stay at one length |
| `TxPools.TxPool.LowerTo` | core/tx_pool.go:1056-1078 | lowers the earlier offenders together until they meet the newest or the limit is met |
| `TxPools.TxPool.Penalize` | core/tx_pool.go:1050-1080 | when a new offender is taken, all offenders end at its length unless the limit is met first |
| `TxPools.TxPool.ReduceToSlots` | core/tx_pool.go:1081-1101 | lowers the offenders together to the limit or to the guaranteed slots |
| `TxPools.TxPool.EqualizePending` | core/tx_pool.go:1033-1103 | the outcome is one level for all non-local accounts, never below the slots, meeting the limit unless at the slots, and the highest that does; local accounts lose nothing, and nobody does while the whole pool fits |
| `TxPools.TxPool.ShortenQueue` | core/tx_pool.go:1124-1141 | drops exactly the given number of highest nonces from one queue |
| `TxPools.TxPool.LimitQueue` | core/tx_pool.go:1104-1143 | stops exactly at the limit or when only local accounts queue; each list loses only highest nonces, local ones nothing |
| `PoolOutcomes.Validate` | core/tx_pool.go:566-657 | accepted exactly if every check passes: nonce not used up, cost within the balance, gas within the block, price at least the floor unless local; each error says what failed and what had passed before |
| `TxPools.TxPool.MakeRoom` | core/tx_pool.go:681-697 | a full pool refuses exactly the underpriced, changing nothing; otherwise it drops cheapest non-local transactions, as many entries as it is over, or all of them |
| `PoolOutcomes.RoomShrinks` | core/tx_pool.go:690-696 | a full pool with a non-local transaction gives something up |
| `PoolOutcomes.RoomIsMade` | core/tx_pool.go:690-696 | if no transaction was taken off the heap twice, it ends below the limit or without non-local transactions |
| `TxPools.TxPool.Add` | core/tx_pool.go:667-739 | refused with the first failing check, changing nothing, or placed in the lists as they are once room is made; a taken nonce is replaced exactly at a price less than one unit short of the bump; every invariant is kept |
| `TxPools.TxPool.ReplacePending` | core/tx_pool.go:699-724 | replaces exactly if the bump is met, in its pending place and in the index; the floor holds although the sender is not made local |
| `TxPools.TxPool.InsertQueued` | core/tx_pool.go:726-738 | queues exactly if the nonce is free or the bump is met, and makes a local sender local |
| `TxPools.TxPool.PromoteExecutables` | core/tx_pool.go:982-1144 | on each given account exactly the ready run is promoted, from the lists before the call; then pending is cut to one level and queues lose only highest nonces; both limits hold again |
| `TxPools.TxPool.AddTx` | core/tx_pool.go:846-861 | the verdict and the contents are those of adding, followed by promotion on the sender exactly if something new was queued; with room, a valid transaction next in line is pending at once |
| `PoolOutcomes.AddTakes` | core/tx_pool.go:667-861 | in a gap-free pool with room, a valid transaction one past its account's pending ones, with its place in the queue free, is pending after promotion |
| `PoolOutcomes.InTurn` | core/tx_pool.go:872-895 | in a batch that fits the pool, a valid transaction with its place to itself is not in the pool before its turn and queued from its turn on |
| `PoolOutcomes.PromotesFirst` | core/tx_pool.go:991-1032 | a payable transaction next in line becomes pending, if there is room |
| `TxPools.TxPool.AddTxs` | core/tx_pool.go:872-895 | each verdict is that of adding to what the earlier ones left, followed by promotion on exactly the accounts that got something new |
| `TxPools.TxPool.RemoveTxs` | core/tx_pool.go:928-935 | removes exactly the given transactions and keeps every invariant |
| `TxPools.TxPool.EvictIdle` | core/tx_pool.go:323-337 | empties the queue of an idle account unless it is local; no other list changes |
| `TxPools.TxPool.DemoteUnexecutables` | core/tx_pool.go:1149-1189 | every account keeps exactly what is executable from its state nonce on and gets exactly the stranded rest queued again; the partition is kept |
| `TxPools.TxPool.UpdateVirtualNonces` | core/tx_pool.go:434-438 | every pending account's virtual nonce is one past its last transaction |
| `TxPools.TxPool.DemoteAndCount` | core/tx_pool.go:428-438 | demotes on every account and sets the virtual nonces, which makes rooted lists gap-free |
| `TxPools.TxPool.Reset` | core/tx_pool.go:363-442 | any new chain state keeps partition, floor and limits, without a reorganisation also gap-freedom; the batch is added with no virtual nonce set, then accounts are demoted, counted and promoted; nothing comes from elsewhere, everything left fits the new state, and with room a valid transaction at its account's nonce is pending |
| `PoolOutcomes.ResetWithin` | core/tx_pool.go:363-442 | after a reset the index is within the old one and the reinjected transactions, and no account has become local |
| `PoolOutcomes.ResetFits` | core/tx_pool.go:428-442 | no transaction left is below the new state nonce, above the balance or above the block's gas |
| `PoolOutcomes.ResetTakes` | core/tx_pool.go:420-442 | with room for the batch, a valid reinjected transaction at its state nonce, with that nonce free and uncontested, ends pending |
| `TxPools.Run` | core/tx_pool.go:227-1189 | over every sequence of operations: partition, heap coverage and price floor, and without a reorganisation gap-free pending lists |
| `Feeds.Find` | event/feed.go:213-220 | the first index of the channel, or -1 exactly if it is absent |
| `Feeds.Delete` | event/feed.go:223-225 | the later cases move down one place in the shared array |
| `Feeds.Deactivate` | event/feed.go:228-232 | the case changes places with the last active one |
| `Feeds.FindHits` | event/feed.go:117-125 | a waiting removal always finds its channel among the subscribers' cases |
| `Feeds.DeactivateUsers` | event/feed.go:228-232 | deactivation keeps the cases and takes exactly the delivered one off the active prefix |
| `Feeds.MergeKeeps` | event/feed.go:136-154 | a Send starts with exactly the live subscriptions |
| `Feeds.SelectRemoveKeeps` | event/feed.go:171-177 | a removal during the blocking phase keeps the accounts and the history of the Send |
| `Feeds.DeliverKeeps` | event/feed.go:159-165 | a delivery moves one case from active to delivered |
| `Feeds.StepKeeps` | event/feed.go:73-190 | every step, in any state, keeps the invariant and panics nowhere |
| `Feeds.RunKeeps` | event/feed.go:73-190 | so does every run |
| `Feeds.EveryRun` | event/feed.go:73-190 | inbox and cases hold each live subscription exactly once after any run of a new feed |
| `Feeds.SendDelivers` | event/feed.go:154-190 | a Send ends exactly when each case it began with is delivered to or dropped; it has counted the deliveries |
| `Feeds.SendOutcome` | event/feed.go:129-190 | a whole Send among any other steps delivers once to every subscription live at its start, except those removed while active |
| `Feeds.RoundShrinks` | event/feed.go:169-182 | every blocking round shortens the cases or the active prefix |
| `Feeds.LiveIsSubscribed` | event/feed.go:73-125 | after every run of a new feed a channel is in inbox and cases as often as it was subscribed less the removals that are over; the removals asked for and not over are waiting |
| `Feeds.RunSends` | event/feed.go:156-182 | the deliveries counted are exactly the sends of the steps, and no case is dropped unless its removal was waiting or asked for |
| `Feeds.SendReaches` | event/feed.go:73-190 | told by the steps alone: a Send reaches a channel at most once per subscription not over at its start and at least once per subscription not asked to be removed by its end; subscribed k times and never unsubscribed, exactly k times |
| `Feeds.SendEnds` | event/feed.go:156-190 | however far a Send has got it can go on, and it ends once its receivers take the value |
| `Feeds.CompleteSend` | event/feed.go:129-190 | an undisturbed Send with ready receivers sends to each live subscription exactly once |
| `Chains.AncestorOfAncestor` | core/headerchain.go:178-184 | ancestry composes, so two chains that agree at a height agree below it |
| `HeaderChains.BackfillStep` | core/headerchain.go:178-184 | a mismatch is never at the genesis, so the walk has a stored parent to go to |
| `HeaderChains.BackfillDone` | core/headerchain.go:178-187 | where the index meets the new ancestry it agrees all the way down |
| `HeaderChains.HeaderChain.constructor` | core/headerchain.go:76-112 | a chain of the genesis alone is valid |
| `HeaderChains.HeaderChain.GetTd` | core/headerchain.go:322-334 | returns the stored total, cached or not |
| `HeaderChains.HeaderChain.WriteTd` | core/headerchain.go:348-352 | stores the total; the cache still agrees |
| `HeaderChains.HeaderChain.Reroute` | core/headerchain.go:160-192 | the index becomes exactly the ancestry of the new head, with nothing above it |
| `HeaderChains.HeaderChain.WriteHeader` | core/headerchain.go:137-201 | unknown parents are refused; the heavier header, or either of two equal ones, becomes current; totals, index and heaviest head stay exact |
| `HeaderChains.Run` | core/headerchain.go:137-201 | all of it after any sequence of writes and coin flips from the genesis; stored are exactly the headers whose parent was stored by then |
| `BlockChains.MeetIsDeepest` | core/blockchain.go:1509-1547 | two walks that first meet at a block meet at the deepest common ancestor |
| `BlockChains.LookupSwitch` | core/blockchain.go:1559-1575 | adding the new branch's entries and deleting those only the old one had gives the new chain's lookup |
| `BlockChains.BlockChain.constructor` | core/blockchain.go:482-498 | a chain of the genesis alone is valid |
| `BlockChains.InsertStep` | core/blockchain.go:482-498 | inserting the next block of a chain extends the index of its ancestry by one height |
| `BlockChains.BlockChain.Reinsert` | core/blockchain.go:1559-1575 | inserting the collected blocks lowest first indexes the new head's ancestry |
| `BlockChains.BlockChain.Reorg` | core/blockchain.go:1478-1575 | finds the deepest common ancestor; index and lookup become those of the new branch; fails, changing nothing, only if a block is missing |
| `BlockChains.BlockChain.WriteNew` | core/blockchain.go:1079-1108 | a block on a known parent becomes head; an exact index stays exact, and an exact lookup too while no transaction repeats |
| `BlockChains.RefreshIndexIff` | core/blockchain.go:969-973 | making a stored block head keeps the index exactly if the index below it is its ancestry |
| `BlockChains.OnIndexIff` | core/blockchain.go:969-973 | for a block at most one above the head, one look at the index decides that |
| `BlockChains.RefreshLookupIff` | core/blockchain.go:969-973 | it keeps the lookup exactly if neither branch has transactions above the common ancestor |
| `BlockChains.RefreshOffIndex` | core/blockchain.go:969-973 | writing the other branch's head again leaves a wrong block below it in the index |
| `BlockChains.BlockChain.WriteBlock` | core/blockchain.go:963-1108 | a block stored with its state only becomes head: the index stays exact if and only if it already is the block's ancestry below, the lookup if and only if neither branch has transactions of its own; any other block on a known parent keeps both |
| `BlockChains.LookupMeaning` | core/blockchain.go:969-1045 | the lookup of a chain knows exactly the transactions its blocks list, and finds each in one that lists it |
| `BlockChains.Run` | core/blockchain.go:963-1108 | over any run of writes and pruned states: index exact throughout if and only if no stored block becomes head off the index, lookup exact throughout if and only if none does so across transactions |
| `ChainIndexers.ReadKeeps` | core/chain_indexer.go:343-372 | the headers read so far hang together back to the captured head |
| `ChainIndexers.CommitKeeps` | core/chain_indexer.go:303-324 | a section is stored only on the head it was built on |
| `ChainIndexers.RestIsExact` | core/chain_indexer.go:407-449 | with nothing in flight the invariant says that heads are stored exactly below the count and linked |
| `ChainIndexers.StoreKeepsIff` | core/chain_indexer.go:414-415 | writing the decremented count back keeps the invariant exactly if the count is still the one read, and not zero |
| `ChainIndexers.RemoveKeepsIff` | core/chain_indexer.go:416 | removing a head keeps it exactly if the count read for it is the one the worker wrote |
| `ChainIndexers.AssignKeepsIff` | core/chain_indexer.go:418 | the final assignment keeps it exactly if the count is already the target |
| `ChainIndexers.StepKeepsIff` | core/chain_indexer.go:223-419 | so of all steps exactly the stale ones break it |
| `ChainIndexers.RunKeepsIff` | core/chain_indexer.go:223-419 | the invariant, with rounds in flight, holds throughout a run if and only if no step is stale |
| `ChainIndexers.NoOverlapNoRace` | core/chain_indexer.go:348-351 | while no notice and rollback are at work together no step is stale |
| `ChainIndexers.NoFailureNoOverlap` | core/chain_indexer.go:348-351 | while backend resets succeed they never are |
| `ChainIndexers.EveryRun` | core/chain_indexer.go:223-419 | from a new indexer on it holds under every interleaving in which no notice overlaps a rollback |
| `ChainIndexers.EndsExactIff` | core/chain_indexer.go:407-449 | whatever the overlaps between two commits, heads end exact if and only if the count ends no higher than it began and exactly the sections from it on were removed |
| `ChainIndexers.StaleAssignment` | core/chain_indexer.go:418 | the rollback ends below a notice's target and the notice sets the count back up over removed heads |
| `ChainIndexers.StaleDecrement` | core/chain_indexer.go:415 | a notice writes back a count read before the rollback |
| `ChainIndexers.StaleRemoval` | core/chain_indexer.go:416 | both take a section before either removes a head, so one head is removed twice and another stays |
| `ChainIndexers.Underflow` | core/chain_indexer.go:414-415 | a test passed just before the count reaches zero wraps the count around |
| `ChainIndexers.RaceBreaks` | core/chain_indexer.go:348-351 | runs from a new indexer that end with nothing in flight and wrong heads, one for each kind of stale step |
| `IndexerLaws.NoticeRollsBack` | core/chain_indexer.go:227-240 | a notice down to block h, from rest to rest: a section stays known, counted and stored exactly if it was and all its blocks lie below h |
| `IndexerLaws.NoticeEnds` | core/chain_indexer.go:407-419 | left alone, a notice comes to its end |
| `IndexerLaws.NewHeadCovers` | core/chain_indexer.go:249-262 | a new head makes exactly the sections known whose last block has its confirmations |
| `IndexerLaws.EveryRunConfirmed` | core/chain_indexer.go:223-324 | after every run without overlap, the last block of the known and of the stored sections was announced with its confirmations |
| `IndexerLaws.ReadYields` | core/chain_indexer.go:353-372 | a read yields the section's head exactly if it is of the last block, found, continues the one before and is committed |
| `IndexerLaws.CommitStores` | core/chain_indexer.go:303-324 | comparing heads amounts to comparing counts: a commit stores its section exactly if it is still the next one, and else gives up what is known and not stored |
| `IndexerLaws.StepKeepsCanonIff` | core/chain_indexer.go:223-419 | of all steps only a commit of a head no longer canonical leaves a section with a wrong head that no later notice is due for |
| `IndexerLaws.CanonicalIff` | core/chain_indexer.go:223-419 | without overlap the heads of told and unchanged sections are canonical throughout a run if and only if no such commit occurs |
| `IndexerLaws.EndsCanonical` | core/chain_indexer.go:223-419 | then at rest, with every change told, the head of stored section s is the canonical block (s + 1) * size - 1 |
| `IndexerLaws.NeverOvertakenNeverStray` | core/chain_indexer.go:294-306 | no such commit occurs while no reorganisation overtakes a section between its last read and its commit |
| `IndexerLaws.StrayCommit` | core/chain_indexer.go:230-237 | a run from a new indexer on which one does, every change having been told |
| `StateTransitions.IntrinsicGas` | core/state_transition.go:79-110 | the 64-bit checks return the exact cost if it fits and fail exactly if it does not |
| `StateTransitions.CostIsSum` | core/state_transition.go:79-110 | the cost is 21000, or 53000 for a creation, and 4 for each zero byte and 68 for each other |
| `StateTransitions.GasPool.AddGas` | core/gaspool.go:29-35 | adds; staying within 64 bits is an obligation every caller meets |
| `StateTransitions.GasPool.SubGas` | core/gaspool.go:39-45 | subtracts exactly if there is enough |
| `StateTransitions.World.CreditWealth` | core/state_transition.go:255-274 | a credit changes the total of balances by its amount |
| `StateTransitions.StateTransition.UseGas` | core/state_transition.go:160-167 | uses gas exactly if there is enough |
| `StateTransitions.StateTransition.BuyGas` | core/state_transition.go:169-186 | charges the whole limit exactly if balance and pool allow, else changes nothing |
| `StateTransitions.StateTransition.PreCheck` | core/state_transition.go:188-202 | refuses by nonce, balance and pool in that order, changing nothing |
| `StateTransitions.AfterRefund` | core/state_transition.go:255-262 | what comes back is the greatest number no more than the refund counter and no more than half of the gas spent |
| `StateTransitions.StateTransition.RefundGas` | core/state_transition.go:255-274 | what is left goes back to the sender at the price paid and to the pool |
| `StateTransitions.StateTransition.TransitionDbEx` | core/state_transition1.go:22-92 | fails exactly with the first failing check or a transfer that cannot be made; else pool and balances lose exactly gas used and its price |
| `StateTransitions.StateTransition.TransitionDb` | core/state_transition.go:207-253 | fails exactly when the other form does; the coinbase receives the fee, so the total of balances is unchanged |
| `StateTransitions.BlockContext.ApplyToVm` | core/state_processor1.go:30-82 | fails exactly when the message does; else gas and fee are each counted once, and gas used, status, every balance and nonce, and the contract address are those of the execution |
| `StateTransitions.BlockContext.Prepay` | core/state_processor1.go:84-123 | refuses in the order of the checks, changing nothing, or charges the whole limit |
| `StateTransitions.BlockContext.ApplyToContract` | core/state_processor1.go:84-193 | fails exactly with the first failing check, required gas, amount or callback; else every balance is the callback's, but for the unused gas paid back to the sender; without a callback the sender loses exactly the price of the required gas and nobody else anything; takes the nonce |
| `StateTransitions.BlockContext.ApplyTransactionEx` | core/state_processor1.go:21-194 | both branches fail exactly as they should, settle gas and fee alike, and have their effect on every balance and nonce |
| `StateTransitions.NoCallbackCosts` | core/state_processor1.go:112-190 | a chain function without a callback costs its sender the required gas and one nonce, and nobody else anything |
| `StateTransitions.InertCosts` | core/state_transition1.go:22-92 | a message on which the machine does nothing costs its sender exactly the intrinsic gas |
| `StateTransitions.Process` | core/state_processor.go:60-94 | the block is accepted exactly if no transaction fails on the state and gas the earlier ones left, and else fails with that error; each state and receipt is the effect of its transaction at its place with its logs; gas used and left make up the limit, receipts are cumulative, and balances lose exactly the fees counted |
| `StateTransitions.SetReceiptsData` | core/blockchain.go:803-842 | refuses exactly a count mismatch; derives place, gas, contract address and log numbers of every receipt and keeps the rest |
| `StateTransitions.GasRecovered` | core/blockchain.go:826-831 | the differences give back each transaction's own gas |
| `StateTransitions.LogNumber` | core/blockchain.go:832-840 | log numbers run through the block without a gap |
| `Samples.PushInPlace` | metrics/sample.go:181-184 | re-pushing the elements of a heap in order moves none of them |
| `Samples.SampleHeap.Up` | metrics/sample.go:583-592 | the loop in the array is the sift-up and touches nothing past the heap |
| `Samples.SampleHeap.Down` | metrics/sample.go:594-610 | the loop in the array is the sift-down and touches nothing past the heap |
| `Samples.SampleHeap.Push` | metrics/sample.go:557-562 | adds the entry to the heap in place |
| `Samples.SampleHeap.Pop` | metrics/sample.go:564-573 | returns the root and leaves the heap without it |
| `Samples.SampleHeap.Rescale` | metrics/sample.go:175-185 | the re-push into the array being read multiplies every weight by the factor at its own index, losing and duplicating none |
| `Samples.Updated` | metrics/sample.go:164-186 | an update keeps heap order and the size at most the reservoir |
| `Samples.ExpDecaySample.Update` | metrics/sample.go:164-186 | the state after an update is that function of the state before |
| `Samples.UpdatedContents` | metrics/sample.go:168-174 | an update adds the entry, and if full takes out the lightest one kept |
| `Samples.UpdateSelectsIff` | metrics/sample.go:168-174 | an update keeps the heaviest entries exactly if there was room or the new one is no lighter than the lightest kept |
| `Samples.RescaleSelects` | metrics/sample.go:175-185 | decay does not change which entries are the heaviest |
| `Samples.KeepsAll` | metrics/sample.go:164-186 | up to the reservoir size everything seen is kept |
| `Samples.RunSelectsIff` | metrics/sample.go:164-186 | over a run: the heaviest are kept throughout if and only if no update evicts something heavier than it brings |
| `Samples.NewestKept` | metrics/sample.go:164-186 | the newest entry is always kept |
| `Samples.LighterReplacesHeavier` | metrics/sample.go:168-174 | a reservoir of one drops the heavier of two when the lighter comes second |
| `SideChains.TotalDeposit` | core/chains_info.go:180-186 | the sum of the validators' deposits |
| `SideChains.ChainDb.StorePending` | core/chains_info.go:359-383 | stores the data; a new chain gets one index entry, and no chain two |
| `SideChains.ChainDb.DeletePending` | core/chains_info.go:386-391 | deletes the data of any chain; index and data stay consistent exactly if the chain is no longer indexed |
| `SideChains.ChainDb.PayRefunds` | core/chains_info.go:415-428 | every pot changes by exactly the refunds; the total does not |
| `SideChains.ChainDb.PayHandover` | core/chains_info.go:438-442 | every pot changes by exactly the deposits handed over; the total does not |
| `SideChains.ChainDb.SettleEntry` | core/chains_info.go:411-449 | one entry gets its fate and exactly its transfers are made |
| `SideChains.ChainDb.GetSideChainForLaunch` | core/chains_info.go:394-459 | an entry is deleted exactly if it has started and its end is below the height, and launched exactly if it is in its window with enough validators and deposits; the in-place filter returns the rest in order; all money is conserved and every pot changes by what is due |
| `SideChains.ChainDb.ProcessPostPendingData` | core/chains_info.go:461-474 | deletes exactly the named data and replaces the index if there is a new one |
| `SideChains.ChainDb.SettleAndPost` | core/chains_info.go:394-474 | posting leaves exactly the kept entries, none of them expired, and nothing is left to settle at that height |
| `SideChains.FatesPartition` | core/chains_info.go:411-449 | every entry is kept, launched or expired, and only one of these |
| `SideChains.KeptStay` | core/chains_info.go:394-474 | kept entries keep their data, so the posted index is valid and settling again does nothing |
| `SideChains.DueDeposit` | core/chains_info.go:415-442 | an entry that leaves releases exactly the recorded deposits of its chain |
| `SideChains.DepositsReleased` | core/chains_info.go:411-449 | a settlement releases each account's deposit on a leaving chain exactly once and touches no other deposit |
| `SideChains.HandoverFlow` | core/chains_info.go:438-442 | a launch moves exactly the total deposit to the owner's chain balance |
| `SideChains.ReturnedFlow` | core/chains_info.go:418-421 | an expiry returns to each validator exactly what it deposited |
| `SideChains.LaunchFunds` | core/chains_info.go:436-442 | a launch raises the owner's chain balance by the deposits, so by the required minimum at least |
| `SideChains.ExpiryFlow` | core/chains_info.go:415-428 | an expiry moves each deposit back to its validator's balance and 10^24 from the owner's chain balance to the balance, and nothing else |
| `DerivationPaths.SplitJoins` | accounts/hd.go:71 | the components make up the text again |
| `DerivationPaths.SplitParts` | accounts/hd.go:71 | no component holds a slash |
| `DerivationPaths.SplitAppend` | accounts/hd.go:71 | appending a slash and a text without one appends one component |
| `DerivationPaths.TrimPadded` | accounts/hd.go:91 | white space around a text does not change what is left of it |
| `DerivationPaths.ParsesBack` | accounts/hd.go:100-103 | a number printed in base 2, 8, 10 or 16 with its prefix parses back |
| `DerivationPaths.ParseComponent` | accounts/hd.go:89-114 | an accepted component fits 32 bits |
| `DerivationPaths.ComponentParsesBack` | accounts/hd.go:89-114 | every 32-bit component, hardened or not, parses back from its printed form |
| `DerivationPaths.ComponentRange` | accounts/hd.go:95-113 | a decimal number is taken exactly up to 4294967295, with an apostrophe up to 2147483647, and is out of range above |
| `DerivationPaths.ComponentNegative` | accounts/hd.go:104-110 | a negative number is out of range |
| `DerivationPaths.ParseDerivationPath` | accounts/hd.go:67-117 | the loop parses all components or fails with the first that fails, from the root that the prefix selects |
| `DerivationPaths.String` | accounts/hd.go:121-135 | the loop prints the prefix and every component |
| `DerivationPaths.RoundTrip` | accounts/hd.go:67-135 | a path parses back from its printed form exactly if it is not empty |
| `DerivationPaths.RelativeIsAbsolute` | accounts/hd.go:30-84 | a relative text parses as the text after m/44'/60'/0'/0/ does |
| `DerivationPaths.Reprint` | accounts/hd.go:67-135 | whatever text a path came from, printing and parsing it again gives the same path |
| `DerivationPaths.PaddedComponent` | accounts/hd.go:91 | white space around a component is ignored |
| `DerivationPaths.NumberSpaceless` | accounts/hd.go:100-103 | no text that parses as a number holds white space |
| `DerivationPaths.HarmlessGap` | accounts/hd.go:91-98 | white space at either end of a component or before its apostrophe is ignored |
| `DerivationPaths.SplitComponent` | accounts/hd.go:91-103 | anywhere else it makes the component invalid |
| `DerivationPaths.ComponentGapIff` | accounts/hd.go:91-103 | white space put into a component that parses is ignored exactly at its ends and before its apostrophe |
| `DerivationPaths.SplitGlues` | accounts/hd.go:71 | splitting two texts put together joins the last component of one and the first of the other |
| `DerivationPaths.GapIff` | accounts/hd.go:67-117 | the same for white space put anywhere into a path that parses |
| `DerivationPaths.SpaceInsideNumber` | accounts/hd.go:100-103 | for instance, a space inside a number changes the outcome |

## Left out

- Consensus engine, epochs, virtual machine, trie, storage encoding, signatures, networking, RPC, console and miner.
- Pool: journal, event feed, heartbeats, counters and locks; the order of heartbeats is any order, idle accounts are an input.
- Pool: the pool's invariants are over the contents of its lists; `PoolObjects.ListTable` shows every list operation of the pool on tables of list objects with the same contents, and that no two accounts share one.
- Pool: 64-bit wrap-around of nonces and of the pool's size counters.
- Pool: the block walk of a reset that collects the transactions to reinject; any transactions may be reinjected.
- Pool: no claim that the stale counter is exact, nor that a full pool shrinks by the count it asks for: demotion can put a transaction into the price heap twice, and `Discard` counts each copy.
- TxPools.TxPool.Reset: gap-freedom is not claimed across a reorganisation, because a reinjected transaction may be refused and only a gap at the front is repaired.
- PoolOutcomes.Validate: the checks on size, value, signature, intrinsic gas and chain-contract data are inputs of the submission.
- Feed: channel types and the values sent.
- HeaderChains.HeaderChain.WriteHeader: a header's number is its ancestry depth, which header verification establishes before; SetHead and the caches of headers and numbers are left out.
- BlockChains.BlockChain.WriteBlock: state contents, receipts and events; which states the node keeps is an input; index entries above a shorter head, which the code does not clear either.
- Indexer: AddKnownSectionHead, child indexers, persistence of the section count and the throttling timer; reordering of memory accesses by compiler or processor.
- StateTransitions.Process: the consensus engine's Finalize, which pays out the fees counted, and logs and blooms, which are inputs; a contract transaction with fewer than four data bytes, on which the source panics.
- StateTransitions.BlockContext.ApplyTransactionEx: the second result, which is zero in the contract branch and not used by the block loop.
- Samples: weights are reals, so rounding and infinite weights are not modelled; the statistics functions and the uniform sample are left out.
- SideChains.ChainDb.GetSideChainForLaunch: requires the data of every indexed chain, which storing and posting keep; without it the source dereferences a missing record. The error log about a non-zero chain balance is left out.
- DerivationPaths: texts are sequences of characters, not bytes; the wallets that use paths are left out.

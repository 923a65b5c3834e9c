/**
 What the operations of core/tx_pool.go do to the pool's contents, as relations between the
 contents at two moments, and the laws that follow from them whatever the steps in between.
 */
module PoolOutcomes {
  import opened Wrappers
  import opened TxItems
  import opened PoolLists
  import opened PoolSteps
  import opened TxLists
  import opened TxPriced

  datatype Config = Config(priceLimit: nat, priceBump: nat, accountSlots: nat, globalSlots: nat,
                           accountQueue: nat, globalQueue: nat, noLocals: bool, perfTest: bool)

  /** Replaces unworkable settings by the defaults. */
  function Sanitize(c: Config): Config {
    c.(priceLimit := if c.priceLimit < 1 then 1 else c.priceLimit,
       priceBump := if c.priceBump < 1 then 10 else c.priceBump)
  }

  /** The outcome of inserting into a queued list. */
  datatype Enqueued = Rejected | Queued(replaced: bool)

  /** The results of the checks the pool delegates: encoding size, value sign, signature, recipient and call data. */
  datatype Outside = Outside(oversized: bool, negative: bool, unsigned: bool, badContent: bool)

  datatype PoolError = KnownTransaction | OversizedData | NegativeValue | GasLimit | InvalidSender | Underpriced
                     | NonceTooLow | InsufficientFunds | InvalidContent | ReplaceUnderpriced

  /** The outcome of adding a transaction. */
  datatype Verdict = Added(replaced: bool) | Refused(error: PoolError)

  /** A transaction as submitted, with the delegated checks. */
  datatype Submission = Submission(tx: Tx, outside: Outside)

  /** Where there is room: a transaction whose nonce is taken, in either list, must outbid the one there. */
  ghost function Placement(tx: Tx, pending: Items, queued: Items, priceBump: nat): Verdict {
    var taken := if tx.nonce in pending then Some(pending[tx.nonce])
                 else if tx.nonce in queued then Some(queued[tx.nonce]) else None;
    if taken.None? then Added(false)
    else if Outbids(tx, taken.value, priceBump) then Added(true)
    else Refused(ReplaceUnderpriced)
  }

  /** The pool's contents at one moment. */
  datatype Snapshot = Snapshot(all: set<Tx>, pending: Lists, queue: Lists, virtual: map<Address, Nonce>,
                               locals: set<Address>)

  /** A non-local transaction no dearer than everything in a non-empty pool. */
  ghost predicate Undercut(tx: Tx, pool: Snapshot) {
    tx.from !in pool.locals && pool.all != {} && forall t :: t in pool.all ==> tx.price <= t.price
  }

  /**
   A transaction put in its place: in the pending list if its nonce is there, else in the queue,
   which makes the sender of a local submission local; or refused, changing nothing.
   */
  ghost predicate Placed(tx: Tx, local: bool, room: Snapshot, priceBump: nat, v: Verdict, after: Snapshot) {
    var l, k := ListOf(room.pending, tx.from), ListOf(room.queue, tx.from);
    && v == Placement(tx, l, k, priceBump)
    && after.virtual == room.virtual
    && if v.Refused? then after == room
       else if tx.nonce in l then
         && Replaces(after.pending, room.pending, tx.from, l[tx.nonce := tx]) && after.queue == room.queue
         && after.all == room.all - {l[tx.nonce]} + {tx} && after.locals == room.locals
       else
         && after.pending == room.pending && Replaces(after.queue, room.queue, tx.from, k[tx.nonce := tx])
         && after.all == (if tx.nonce in k then room.all - {k[tx.nonce]} else room.all) + {tx}
         && after.locals == if local then room.locals + {tx.from} else room.locals
  }

  lemma PlacedPending(tx: Tx, room: Snapshot, priceBump: nat)
    requires tx.nonce in ListOf(room.pending, tx.from)
    ensures var l := ListOf(room.pending, tx.from);
            if Outbids(tx, l[tx.nonce], priceBump) then
              Placed(tx, false, room, priceBump, Added(true),
                     room.(pending := room.pending[tx.from := l[tx.nonce := tx]],
                         all := room.all - {l[tx.nonce]} + {tx}))
            else Placed(tx, false, room, priceBump, Refused(ReplaceUnderpriced), room)
  {
  }

  /** A pending transaction is replaced alike, whoever submits the replacement. */
  lemma PlacedAnyway(tx: Tx, local: bool, room: Snapshot, priceBump: nat, v: Verdict, after: Snapshot)
    requires tx.nonce in ListOf(room.pending, tx.from) && Placed(tx, false, room, priceBump, v, after)
    ensures Placed(tx, local, room, priceBump, v, after)
  {
  }

  /** A taken nonce is replaced exactly at a higher price less than one unit short of the whole bump. */
  ghost predicate BumpDecides(tx: Tx, room: Snapshot, priceBump: nat, v: Verdict) {
    v == Added(true) || v == Refused(ReplaceUnderpriced) ==>
      var l, k := ListOf(room.pending, tx.from), ListOf(room.queue, tx.from);
      && (tx.nonce in l || tx.nonce in k)
      && var prev := if tx.nonce in l then l[tx.nonce] else k[tx.nonce];
         v == Added(true) <==> prev.price < tx.price && prev.price * (100 + priceBump) < 100 * (tx.price + 1)
  }

  lemma RefusedBefore(tx: Tx, room: Snapshot, priceBump: nat, e: PoolError)
    requires e != ReplaceUnderpriced
    ensures BumpDecides(tx, room, priceBump, Refused(e))
  {
  }

  lemma PlacedByBump(tx: Tx, local: bool, room: Snapshot, priceBump: nat, v: Verdict, after: Snapshot)
    requires Placed(tx, local, room, priceBump, v, after)
    ensures BumpDecides(tx, room, priceBump, v)
  {
    hide Outbids, Replaces;
    var l, k := ListOf(room.pending, tx.from), ListOf(room.queue, tx.from);
    if tx.nonce in l {
      OutbidsIff(tx, l[tx.nonce], priceBump);
    } else if tx.nonce in k {
      OutbidsIff(tx, k[tx.nonce], priceBump);
    }
  }

  /** Every pooled transaction is from a local account or priced at least the pool's gas price. */
  ghost predicate FloorHolds(all: set<Tx>, locals: set<Address>, gasPrice: int) {
    forall t :: t in all ==> t.from in locals || gasPrice <= t.price
  }

  // ---- Validation ----

  /** validateTx: the first failing check, if any. */
  function Validate(s: Submission, local: bool, locals: set<Address>, chain: ChainState, gasPrice: int)
    : (e: Option<PoolError>)
    ensures e.None? <==>
            && !s.outside.oversized && !s.outside.negative && !s.outside.unsigned && !s.outside.badContent
            && s.tx.gas <= chain.gasLimit && s.tx.cost <= chain.BalanceOf(s.tx.from)
            && chain.NonceOf(s.tx.from) <= s.tx.nonce
            && (local || s.tx.from in locals || gasPrice <= s.tx.price)
    ensures e == Some(OversizedData) <==> s.outside.oversized
    ensures e == Some(NegativeValue) <==> s.outside.negative && !s.outside.oversized
    ensures e == Some(GasLimit) ==> chain.gasLimit < s.tx.gas
    ensures e == Some(InvalidSender) ==> s.outside.unsigned && s.tx.gas <= chain.gasLimit
    ensures e == Some(Underpriced) ==> !local && s.tx.from !in locals && s.tx.price < gasPrice && !s.outside.unsigned
    ensures e == Some(NonceTooLow) ==>
              s.tx.nonce < chain.NonceOf(s.tx.from) && (local || s.tx.from in locals || gasPrice <= s.tx.price)
    ensures e == Some(InsufficientFunds) ==>
              chain.BalanceOf(s.tx.from) < s.tx.cost && chain.NonceOf(s.tx.from) <= s.tx.nonce
    ensures e == Some(InvalidContent) ==> s.outside.badContent && s.tx.cost <= chain.BalanceOf(s.tx.from)
    ensures e != Some(KnownTransaction) && e != Some(ReplaceUnderpriced)
  {
    if s.outside.oversized then Some(OversizedData)
    else if s.outside.negative then Some(NegativeValue)
    else if chain.gasLimit < s.tx.gas then Some(GasLimit)
    else if s.outside.unsigned then Some(InvalidSender)
    else if !(local || s.tx.from in locals) && gasPrice > s.tx.price then Some(Underpriced)
    else if chain.NonceOf(s.tx.from) > s.tx.nonce then Some(NonceTooLow)
    else if chain.BalanceOf(s.tx.from) < s.tx.cost then Some(InsufficientFunds)
    else if s.outside.badContent then Some(InvalidContent)
    else None
  }

  // ---- Making room ----

  ghost predicate Full(config: Config, all: set<Tx>) {
    !config.perfTest && |all| >= config.globalSlots + config.globalQueue
  }

  /** How many transactions a full pool is to give up. */
  ghost function Excess(config: Config, all: set<Tx>): int {
    |all| - (config.globalSlots + config.globalQueue - 1)
  }

  /**
   The transactions taken off the price heap: cheapest non-local ones, as many as asked for if there
   are so many.
   */
  ghost predicate Discards(config: Config, before: Snapshot, room: Snapshot, drop: seq<Tx>) {
    && room.all == before.all - Members(drop)
    && (forall d :: d in drop ==> d in before.all && d.from !in before.locals)
    && (forall d, t :: d in drop && t in room.all && t.from !in before.locals ==> d.price <= t.price)
    && |drop| <= Excess(config, before.all)
    && (|drop| < Excess(config, before.all) ==> forall t :: t in room.all ==> t.from in before.locals)
  }

  lemma Discarded(config: Config, before: Snapshot, room: Snapshot, drop: seq<Tx>)
    requires room.all == before.all - Members(drop) && Excess(config, before.all) > 0
    requires forall d :: d in drop ==> d in before.all && d.from !in before.locals
    requires forall d, t :: d in drop && t in before.all && t.from !in before.locals && t !in drop ==>
                              d.price <= t.price
    requires |drop| <= Excess(config, before.all)
    requires |drop| < Excess(config, before.all) ==>
               forall t :: t in before.all && t.from !in before.locals ==> t in drop
    ensures Discards(config, before, room, drop)
  {
  }

  /** Room was made if the pool was full. */
  ghost predicate MadeRoom(config: Config, before: Snapshot, room: Snapshot) {
    && (if Full(config, before.all) then exists drop :: Discards(config, before, room, drop) else room == before)
    && room.locals == before.locals && Partition(room.all, room.pending, room.queue)
  }

  /** A full pool with a non-local transaction gives something up. */
  lemma RoomShrinks(config: Config, before: Snapshot, room: Snapshot)
    requires !config.perfTest && |before.all| >= config.globalSlots + config.globalQueue
    requires MadeRoom(config, before, room) && exists t :: t in before.all && t.from !in before.locals
    ensures room.all < before.all
  {
    hide Partition;
    var drop :| Discards(config, before, room, drop);
    assert drop == [] ==> room.all == before.all;
    assert drop != [];
    assert drop[0] in drop && drop[0] !in room.all;
  }

  /** If no transaction was taken twice, it ends below its limit or without non-local transactions. */
  lemma RoomIsMade(config: Config, before: Snapshot, room: Snapshot, drop: seq<Tx>)
    requires Full(config, before.all) && Discards(config, before, room, drop)
    requires forall i, j :: 0 <= i < j < |drop| ==> drop[i] != drop[j]
    ensures |room.all| == |before.all| - |drop|
    ensures |room.all| < config.globalSlots + config.globalQueue
            || forall t :: t in room.all ==> t.from in before.locals
  {
    DistinctSize(drop);
    assert Members(drop) <= before.all;
  }

  // ---- Adding and promoting ----

  /** What decides on a transaction besides the pool's contents. */
  datatype Rules = Rules(config: Config, chain: ChainState, gasPrice: int)

  /** The one step of add: refused with the first failing check, or placed by the price bump once there is room. */
  ghost predicate AddOutcome(rules: Rules, before: Snapshot, s: Submission, local: bool, room: Snapshot, v: Verdict,
                             after: Snapshot)
  {
    var e := Validate(s, local, before.locals, rules.chain, rules.gasPrice);
    if s.tx in before.all then v == Refused(KnownTransaction) && after == before
    else if e.Some? then v == Refused(e.value) && after == before
    else if Full(rules.config, before.all) && Undercut(s.tx, before) then v == Refused(Underpriced) && after == before
    else MadeRoom(rules.config, before, room) && Placed(s.tx, local, room, rules.config.priceBump, v, after)
  }

  /** Every submission of a batch is added to what the earlier ones left. */
  ghost predicate AddedInTurn(rules: Rules, ss: seq<Submission>, local: bool, trace: seq<Snapshot>,
                              rooms: seq<Snapshot>, vs: seq<Verdict>)
  {
    && |vs| == |rooms| == |ss| && |trace| == |ss| + 1
    && forall i :: 0 <= i < |ss| ==> AddOutcome(rules, trace[i], ss[i], local, rooms[i], vs[i], trace[i + 1])
  }

  /** After promotion: pending lists cut to one level, queued ones losing only highest nonces, local ones nothing. */
  ghost predicate EvictsTo(config: Config, all: set<Tx>, p: Lists, q: Lists, level: nat, to: Snapshot) {
    && to.pending == Leveled(p, to.locals, level) && config.accountSlots <= level
    && (to.pending != p ==> Total(Leveled(p, to.locals, level + 1)) > config.globalSlots)
    && (|all| <= config.globalSlots ==> to.pending == p)
    && (forall a :: ListOf(to.queue, a) == CapTo(ListOf(q, a), |ListOf(to.queue, a)|))
    && (forall a :: a in to.locals ==> ListOf(to.queue, a) == ListOf(q, a))
  }

  /** The contents are what promotion on the accounts makes of the earlier ones. */
  ghost predicate Promotes(config: Config, chain: ChainState, accounts: set<Address>, from: Snapshot, to: Snapshot) {
    && to.locals == from.locals && to.all <= from.all
    && exists p, q, level ::
         && PromotedOn(accounts, from.pending, from.queue, from.virtual, chain, to.locals, config.accountQueue, p, q)
         && EvictsTo(config, from.all, p, q, level, to)
  }

  // ---- Where a transaction is after a batch ----

  ghost predicate Free(c: Snapshot, a: Address, n: Nonce) {
    n !in ListOf(c.pending, a) && n !in ListOf(c.queue, a)
  }

  ghost predicate IsQueued(c: Snapshot, tx: Tx) {
    && tx.nonce !in ListOf(c.pending, tx.from)
    && tx.nonce in ListOf(c.queue, tx.from) && ListOf(c.queue, tx.from)[tx.nonce] == tx
  }

  ghost predicate IsPending(c: Snapshot, tx: Tx) {
    tx.nonce in ListOf(c.pending, tx.from) && ListOf(c.pending, tx.from)[tx.nonce] == tx
  }

  /** What every addition leaves alone. */
  lemma AddGrows(rules: Rules, before: Snapshot, s: Submission, room: Snapshot, v: Verdict, after: Snapshot)
    requires AddOutcome(rules, before, s, false, room, v, after)
    ensures after.all <= before.all + {s.tx} && after.locals == before.locals
    ensures !Full(rules.config, before.all) ==> after.virtual == before.virtual && |after.all| <= |before.all| + 1
  {
    hide Partition, Replaces, Validate, Undercut;
    if after.all <= before.all + {s.tx} {
      SubsetSize(after.all, before.all + {s.tx});
    }
  }

  /** With room, adding one transaction does not touch any other place. */
  lemma AddElsewhere(rules: Rules, before: Snapshot, s: Submission, room: Snapshot, v: Verdict, after: Snapshot, tx: Tx)
    requires AddOutcome(rules, before, s, false, room, v, after) && !Full(rules.config, before.all)
    requires s.tx.from != tx.from || s.tx.nonce != tx.nonce
    ensures Free(before, tx.from, tx.nonce) ==> Free(after, tx.from, tx.nonce)
    ensures IsQueued(before, tx) ==> IsQueued(after, tx)
  {
    hide Partition, Validate, Undercut, Placement, ListOf;
    assert ListOf(before.pending, tx.from) == ListOf(before.pending, tx.from);
  }

  /** With room, a valid transaction at a free place is queued there. */
  lemma AddFree(rules: Rules, before: Snapshot, s: Submission, local: bool, room: Snapshot, v: Verdict,
                after: Snapshot)
    requires AddOutcome(rules, before, s, local, room, v, after) && !Full(rules.config, before.all)
    requires s.tx !in before.all && Free(before, s.tx.from, s.tx.nonce)
    requires Validate(s, local, before.locals, rules.chain, rules.gasPrice).None?
    ensures v == Added(false) && IsQueued(after, s.tx) && after.all == before.all + {s.tx}
    ensures after.virtual == before.virtual
    ensures ListOf(after.queue, s.tx.from).Keys == ListOf(before.queue, s.tx.from).Keys + {s.tx.nonce}
  {
    hide Partition, Validate, ListOf;
  }

  /** No other submission of the batch is for the same place. */
  ghost predicate OnlyOne(ss: seq<Submission>, i: nat)
    requires i < |ss|
  {
    forall j :: 0 <= j < |ss| && j != i ==> ss[j].tx.from != ss[i].tx.from || ss[j].tx.nonce != ss[i].tx.nonce
  }

  /** The batch fits the pool, and submission i has its place to itself. */
  ghost predicate FitsAt(rules: Rules, ss: seq<Submission>, first: Snapshot, i: nat) {
    && i < |ss| && |first.all| + |ss| <= rules.config.globalSlots && OnlyOne(ss, i)
    && ss[i].tx !in first.all && Free(first, ss[i].tx.from, ss[i].tx.nonce)
    && Validate(ss[i], false, first.locals, rules.chain, rules.gasPrice).None?
  }

  ghost predicate Ahead(ss: seq<Submission>, i: nat, j: nat, first: Snapshot, c: Snapshot)
    requires i < |ss|
  {
    && |c.all| <= |first.all| + j && c.virtual == first.virtual && c.locals == first.locals
    && (j <= i ==> ss[i].tx !in c.all && Free(c, ss[i].tx.from, ss[i].tx.nonce))
    && (j > i ==> IsQueued(c, ss[i].tx))
  }

  lemma {:induction false} InTurn(rules: Rules, ss: seq<Submission>, trace: seq<Snapshot>, rooms: seq<Snapshot>,
                                  vs: seq<Verdict>, i: nat, j: nat)
    requires AddedInTurn(rules, ss, false, trace, rooms, vs) && FitsAt(rules, ss, trace[0], i) && j <= |ss|
    ensures Ahead(ss, i, j, trace[0], trace[j]) && (j > i ==> vs[i] == Added(false))
    decreases j
  {
    hide AddOutcome, Free, IsQueued, Validate;
    if j > 0 {
      InTurn(rules, ss, trace, rooms, vs, i, j - 1);
      var c, d, s := trace[j - 1], trace[j], ss[j - 1];
      AddGrows(rules, c, s, rooms[j - 1], vs[j - 1], d);
      if j - 1 == i {
        AddFree(rules, c, s, false, rooms[i], vs[i], d);
      } else {
        AddElsewhere(rules, c, s, rooms[j - 1], vs[j - 1], d, ss[i].tx);
      }
    }
  }

  // ---- Promotion and demotion of one transaction ----

  /** Nothing is queued between the account's state nonce and the transaction. */
  ghost predicate NextInLine(q: Lists, virtual: map<Address, Nonce>, chain: ChainState, tx: Tx) {
    && tx.nonce == VirtualNonce(virtual, chain, tx.from)
    && forall n :: n in ListOf(q, tx.from) && chain.NonceOf(tx.from) <= n ==> tx.nonce <= n
  }

  ghost predicate Affordable(tx: Tx, chain: ChainState) {
    chain.NonceOf(tx.from) <= tx.nonce && tx.cost <= chain.BalanceOf(tx.from) && tx.gas <= chain.gasLimit
  }

  lemma ReadyFirst(q: Lists, virtual: map<Address, Nonce>, chain: ChainState, tx: Tx)
    requires tx.nonce in ListOf(q, tx.from) && ListOf(q, tx.from)[tx.nonce] == tx
    requires NextInLine(q, virtual, chain, tx) && Affordable(tx, chain)
    ensures var r := ReadyOf(q, virtual, chain, tx.from); tx.nonce in r && r[tx.nonce] == tx
  {
    var e := Executable(ListOf(q, tx.from), chain, tx.from);
    assert tx.nonce in e && e[tx.nonce] == tx && forall n :: n in e ==> tx.nonce <= n;
    ReadyFromStart(e, tx.nonce);
  }

  /** A payable transaction next in line becomes pending, if there is room. */
  lemma PromotesFirst(config: Config, chain: ChainState, accounts: set<Address>, from: Snapshot, to: Snapshot, tx: Tx)
    requires Promotes(config, chain, accounts, from, to) && IsQueued(from, tx) && tx.from in accounts
    requires NextInLine(from.queue, from.virtual, chain, tx) && Affordable(tx, chain)
    requires |from.all| <= config.globalSlots
    ensures IsPending(to, tx)
  {
    hide ReadyOf, LeftOf, ListOf, Leveled, Total, CapTo, NextInLine, Affordable;
    ReadyFirst(from.queue, from.virtual, chain, tx);
  }

  /**
   In a gap-free pool with room, a valid transaction one past its account's pending ones, with
   its place in the queue free, is pending at once.
   */
  lemma AddTakes(rules: Rules, before: Snapshot, s: Submission, local: bool, room: Snapshot, v: Verdict,
                 added: Snapshot, after: Snapshot)
    requires AddOutcome(rules, before, s, local, room, v, added)
    requires v == Added(false) ==> Promotes(rules.config, rules.chain, {s.tx.from}, added, after)
    requires Partition(before.all, before.pending, before.queue)
    requires GapFree(before.pending, before.virtual, rules.chain)
    requires |before.all| < rules.config.globalSlots && s.tx !in before.all
    requires Validate(s, local, before.locals, rules.chain, rules.gasPrice).None?
    requires s.tx.nonce == VirtualNonce(before.virtual, rules.chain, s.tx.from)
    requires s.tx.nonce !in ListOf(before.queue, s.tx.from)
    ensures IsPending(after, s.tx)
  {
    hide AddOutcome, Promotes, Partition, GapFree, IsPending, ListOf;
    AccountOf(before.all, before.pending, before.queue, s.tx.from);
    GapFreeAt(before.pending, before.virtual, rules.chain, s.tx.from);
    AddFree(rules, before, s, local, room, v, added);
    PromotesFirst(rules.config, rules.chain, {s.tx.from}, added, after, s.tx);
  }

  /** Promotion leaves what is pending where it is. */
  lemma PromotionKeeps(accounts: set<Address>, from: Snapshot, chain: ChainState, locals: set<Address>, cap: nat,
                       p: Lists, q: Lists, tx: Tx)
    requires PromotedOn(accounts, from.pending, from.queue, from.virtual, chain, locals, cap, p, q)
    requires Partition(from.all, from.pending, from.queue) && IsPending(from, tx)
    ensures tx.nonce in ListOf(p, tx.from) && ListOf(p, tx.from)[tx.nonce] == tx
  {
    hide Partition, ListOf, CapTo, LeftOf, ReadyOf;
    AccountOf(from.all, from.pending, from.queue, tx.from);
    ReadyQueued(from.queue, from.virtual, chain, tx.from);
  }

  lemma ReadyQueued(q: Lists, virtual: map<Address, Nonce>, chain: ChainState, a: Address)
    ensures ReadyOf(q, virtual, chain, a).Keys <= ListOf(q, a).Keys
  {
  }

  /** Demotion leaves a payable transaction at the state nonce pending. */
  lemma DemotionKeeps(p: Lists, q: Lists, chain: ChainState, p': Lists, q': Lists, tx: Tx)
    requires DemotedBut({}, p, q, chain, p', q')
    requires tx.nonce in ListOf(p, tx.from) && ListOf(p, tx.from)[tx.nonce] == tx && tx.nonce == chain.NonceOf(tx.from)
    requires tx.cost <= chain.BalanceOf(tx.from) && tx.gas <= chain.gasLimit
    ensures tx.nonce in ListOf(p', tx.from) && ListOf(p', tx.from)[tx.nonce] == tx
  {
    var l := ListOf(p, tx.from);
    assert tx.nonce in Staying(l, chain, tx.from) && Staying(l, chain, tx.from)[tx.nonce] == tx;
  }

  // ---- What a reset leaves ----

  /** Every transaction of the list is from the state nonce on, payable and within the block's gas. */
  ghost predicate Current(l: Items, chain: ChainState, a: Address) {
    forall n :: n in l ==> chain.NonceOf(a) <= n && l[n].cost <= chain.BalanceOf(a) && l[n].gas <= chain.gasLimit
  }

  lemma ExecutableCurrent(l: Items, chain: ChainState, a: Address)
    ensures Current(Executable(l, chain, a), chain, a) && Current(Staying(l, chain, a), chain, a)
  {
  }

  lemma PartCurrent(part: Items, l: Items, chain: ChainState, a: Address)
    requires Current(l, chain, a) && forall n :: n in part ==> n in l && part[n] == l[n]
    ensures Current(part, chain, a)
  {
  }

  lemma ReadyCurrent(q: Lists, virtual: map<Address, Nonce>, chain: ChainState, a: Address, local: bool, cap: nat)
    ensures Current(ReadyOf(q, virtual, chain, a), chain, a)
    ensures Current(LeftOf(q, virtual, chain, a, local, cap), chain, a)
  {
    hide Executable, ReadyPart, CapTo, Current;
    var e := Executable(ListOf(q, a), chain, a);
    ExecutableCurrent(ListOf(q, a), chain, a);
    ReadyPartOf(e, VirtualNonce(virtual, chain, a));
    PartCurrent(ReadyOf(q, virtual, chain, a), e, chain, a);
    var rest := e - ReadyOf(q, virtual, chain, a).Keys;
    CapToSub(rest, cap);
    PartCurrent(LeftOf(q, virtual, chain, a, local, cap), e, chain, a);
  }

  lemma ReadyPartOf(m: Items, start: Nonce)
    ensures forall n :: n in ReadyPart(m, start) ==> n in m && ReadyPart(m, start)[n] == m[n]
  {
  }

  /** After demotion and promotion on every queued account, every list is current. */
  lemma ResetCurrent(config: Config, chain: ChainState, p0: Lists, q0: Lists, demoted: Snapshot, p: Lists, q: Lists,
                     level: nat, to: Snapshot, a: Address)
    requires DemotedBut({}, p0, q0, chain, demoted.pending, demoted.queue)
    requires PromotedOn(demoted.queue.Keys, demoted.pending, demoted.queue, demoted.virtual, chain, to.locals,
                        config.accountQueue, p, q)
    requires EvictsTo(config, demoted.all, p, q, level, to)
    ensures Current(ListOf(to.pending, a), chain, a) && Current(ListOf(to.queue, a), chain, a)
  {
    hide Current, ReadyOf, LeftOf, Staying, Returning, CapTo, Total, Leveled;
    ExecutableCurrent(ListOf(p0, a), chain, a);
    ReadyCurrent(demoted.queue, demoted.virtual, chain, a, a in to.locals, config.accountQueue);
    JoinedCurrent(ListOf(demoted.pending, a), ReadyOf(demoted.queue, demoted.virtual, chain, a), chain, a);
    EmptyCurrent(chain, a);
    LeveledPart(p, to.locals, level, a);
    assert Current(ListOf(p, a), chain, a);
    PartCurrent(ListOf(to.pending, a), ListOf(p, a), chain, a);
    CapToSub(ListOf(q, a), |ListOf(to.queue, a)|);
    assert Current(ListOf(q, a), chain, a);
    PartCurrent(ListOf(to.queue, a), ListOf(q, a), chain, a);
  }

  lemma EmptyCurrent(chain: ChainState, a: Address)
    ensures Current(map[], chain, a)
  {
  }

  lemma JoinedCurrent(l: Items, k: Items, chain: ChainState, a: Address)
    requires Current(l, chain, a) && Current(k, chain, a)
    ensures Current(l + k, chain, a)
  {
  }

  lemma LeveledPart(p: Lists, locals: set<Address>, level: nat, a: Address)
    ensures forall n :: n in ListOf(Leveled(p, locals, level), a) ==>
              n in ListOf(p, a) && ListOf(Leveled(p, locals, level), a)[n] == ListOf(p, a)[n]
  {
    if a in p {
      CapToSub(p[a], level);
    }
  }

  ghost function Submitted(ss: seq<Submission>): set<Tx> {
    set i | 0 <= i < |ss| :: ss[i].tx
  }

  lemma {:induction false} BatchGrows(rules: Rules, ss: seq<Submission>, trace: seq<Snapshot>, rooms: seq<Snapshot>,
                                      vs: seq<Verdict>, j: nat)
    requires AddedInTurn(rules, ss, false, trace, rooms, vs) && j <= |ss|
    ensures trace[j].all <= trace[0].all + Submitted(ss) && trace[j].locals == trace[0].locals
    decreases j
  {
    hide AddOutcome;
    if j > 0 {
      BatchGrows(rules, ss, trace, rooms, vs, j - 1);
      AddGrows(rules, trace[j - 1], ss[j - 1], rooms[j - 1], vs[j - 1], trace[j]);
      assert ss[j - 1].tx in Submitted(ss);
    }
  }

  /** The accounts a batch queued something new for. */
  ghost function Dirty(ss: seq<Submission>, vs: seq<Verdict>): set<Address>
    requires |vs| == |ss|
  {
    set i | 0 <= i < |ss| && vs[i] == Added(false) :: ss[i].tx.from
  }

  /** A batch after its promotion. */
  ghost predicate BatchAdded(rules: Rules, ss: seq<Submission>, local: bool, before: Snapshot, trace: seq<Snapshot>,
                             rooms: seq<Snapshot>, vs: seq<Verdict>, after: Snapshot)
  {
    && AddedInTurn(rules, ss, local, trace, rooms, vs) && trace[0] == before
    && if Dirty(ss, vs) == {} then after == trace[|ss|]
       else Promotes(rules.config, rules.chain, Dirty(ss, vs), trace[|ss|], after)
  }

  lemma EmptyBatch(rules: Rules, local: bool, before: Snapshot, trace: seq<Snapshot>, rooms: seq<Snapshot>,
                   vs: seq<Verdict>, after: Snapshot)
    requires BatchAdded(rules, [], local, before, trace, rooms, vs, after)
    ensures after == before
  {
  }

  /** The moments a reset passes through. */
  datatype Route = Route(trace: seq<Snapshot>, rooms: seq<Snapshot>, vs: seq<Verdict>, added: Snapshot,
                         demoted: Snapshot, pending: Lists, queue: Lists, level: nat)

  /**
   reset: with no virtual nonce set, the batch of the abandoned branch is added; then every pending
   account is demoted, the virtual nonces are set, and every queued account is promoted.
   */
  ghost predicate ResetBy(rules: Rules, before: Snapshot, ss: seq<Submission>, r: Route, after: Snapshot) {
    && BatchAdded(rules, ss, false, before.(virtual := map[]), r.trace, r.rooms, r.vs, r.added)
    && DemotedBut({}, r.added.pending, r.added.queue, rules.chain, r.demoted.pending, r.demoted.queue)
    && PastLast(r.demoted.virtual, r.demoted.pending, {})
    && r.demoted.all <= r.added.all && r.demoted.locals == r.added.locals == after.locals
    && Partition(r.demoted.all, r.demoted.pending, r.demoted.queue)
    && PromotedOn(r.demoted.queue.Keys, r.demoted.pending, r.demoted.queue, r.demoted.virtual, rules.chain,
                  after.locals, rules.config.accountQueue, r.pending, r.queue)
    && EvictsTo(rules.config, r.demoted.all, r.pending, r.queue, r.level, after)
    && after.all <= r.demoted.all && Partition(after.all, after.pending, after.queue)
  }

  /** Nothing is pooled after a reset that was neither pooled before nor reinjected; no account becomes local. */
  lemma ResetWithin(rules: Rules, before: Snapshot, ss: seq<Submission>, r: Route, after: Snapshot)
    requires ResetBy(rules, before, ss, r, after)
    ensures after.all <= before.all + Submitted(ss) && after.locals == before.locals
  {
    hide AddedInTurn, PromotedOn, DemotedBut, EvictsTo, Partition, PastLast;
    BatchGrows(rules, ss, r.trace, r.rooms, r.vs, |ss|);
  }

  /** Whatever was pooled or reinjected, what is left fits the new chain state. */
  lemma ResetFits(rules: Rules, before: Snapshot, ss: seq<Submission>, r: Route, after: Snapshot, t: Tx)
    requires ResetBy(rules, before, ss, r, after) && t in after.all
    ensures rules.chain.NonceOf(t.from) <= t.nonce && t.cost <= rules.chain.BalanceOf(t.from)
    ensures t.gas <= rules.chain.gasLimit
  {
    hide BatchAdded, PromotedOn, DemotedBut, EvictsTo, PastLast;
    ResetCurrent(rules.config, rules.chain, r.added.pending, r.added.queue, r.demoted, r.pending, r.queue, r.level,
                 after, t.from);
  }

  lemma BatchTakes(rules: Rules, before: Snapshot, ss: seq<Submission>, trace: seq<Snapshot>, rooms: seq<Snapshot>,
                   vs: seq<Verdict>, after: Snapshot, i: nat)
    requires BatchAdded(rules, ss, false, before, trace, rooms, vs, after) && before.virtual == map[]
    requires FitsAt(rules, ss, before, i) && ss[i].tx.nonce == rules.chain.NonceOf(ss[i].tx.from)
    ensures IsPending(after, ss[i].tx) && |after.all| <= rules.config.globalSlots
  {
    hide AddedInTurn, IsPending, IsQueued, Promotes, Free;
    assert |trace| == |ss| + 1 && |vs| == |ss| by {
      BatchSizes(rules, ss, trace, rooms, vs);
    }
    InTurn(rules, ss, trace, rooms, vs, i, |ss|);
    assert ss[i].tx.from in Dirty(ss, vs);
    assert NextInLine(trace[|ss|].queue, map[], rules.chain, ss[i].tx);
    PromotesFirst(rules.config, rules.chain, Dirty(ss, vs), trace[|ss|], after, ss[i].tx);
    PromotesShrinks(rules.config, rules.chain, Dirty(ss, vs), trace[|ss|], after);
  }

  lemma BatchSizes(rules: Rules, ss: seq<Submission>, trace: seq<Snapshot>, rooms: seq<Snapshot>, vs: seq<Verdict>)
    requires AddedInTurn(rules, ss, false, trace, rooms, vs)
    ensures |vs| == |rooms| == |ss| && |trace| == |ss| + 1
  {
  }

  lemma PromotesShrinks(config: Config, chain: ChainState, accounts: set<Address>, from: Snapshot, to: Snapshot)
    requires Promotes(config, chain, accounts, from, to)
    ensures |to.all| <= |from.all|
  {
    SubsetSize(to.all, from.all);
  }

  /**
   In a pool with room for the batch, a valid reinjected transaction at its account's state nonce,
   with that nonce free and no rival in the batch, is pending after the reset.
   */
  lemma ResetTakes(rules: Rules, before: Snapshot, ss: seq<Submission>, r: Route, after: Snapshot, i: nat)
    requires ResetBy(rules, before, ss, r, after)
    requires FitsAt(rules, ss, before, i) && ss[i].tx.nonce == rules.chain.NonceOf(ss[i].tx.from)
    ensures IsPending(after, ss[i].tx)
  {
    hide AddedInTurn, Promotes, PastLast, PromotedOn, DemotedBut, Partition, ListOf, Leveled, Total, CapTo;
    BatchTakes(rules, before.(virtual := map[]), ss, r.trace, r.rooms, r.vs, r.added, i);
    DemotionKeeps(r.added.pending, r.added.queue, rules.chain, r.demoted.pending, r.demoted.queue, ss[i].tx);
    PromotionKeeps(r.demoted.queue.Keys, r.demoted, rules.chain, after.locals, rules.config.accountQueue, r.pending,
                   r.queue, ss[i].tx);
    SubsetSize(r.demoted.all, r.added.all);
  }

  /**
   With room for the batch, every valid submission at its account's state nonce is pending, if that
   nonce was free in both lists and no other submission is for it.
   */
  ghost predicate Retakes(rules: Rules, before: Snapshot, ss: seq<Submission>, after: Snapshot) {
    |before.all| + |ss| <= rules.config.globalSlots ==>
      forall i :: 0 <= i < |ss| && OnlyOne(ss, i) && ss[i].tx !in before.all ==>
        var tx := ss[i].tx;
        && tx.nonce !in ListOf(before.pending, tx.from) && tx.nonce !in ListOf(before.queue, tx.from)
        && Validate(ss[i], false, before.locals, rules.chain, rules.gasPrice).None?
        && tx.nonce == rules.chain.NonceOf(tx.from) ==>
          tx.nonce in ListOf(after.pending, tx.from) && ListOf(after.pending, tx.from)[tx.nonce] == tx
  }

  lemma ResetLaws(rules: Rules, before: Snapshot, ss: seq<Submission>, r: Route, after: Snapshot)
    requires ResetBy(rules, before, ss, r, after)
    ensures after.all <= before.all + Submitted(ss) && after.locals == before.locals
    ensures forall t :: t in after.all ==>
              && rules.chain.NonceOf(t.from) <= t.nonce && t.cost <= rules.chain.BalanceOf(t.from)
              && t.gas <= rules.chain.gasLimit
    ensures Retakes(rules, before, ss, after)
  {
    hide ResetBy, OnlyOne, Validate, ListOf;
    ResetWithin(rules, before, ss, r, after);
    forall t | t in after.all
      ensures rules.chain.NonceOf(t.from) <= t.nonce && t.cost <= rules.chain.BalanceOf(t.from)
      ensures t.gas <= rules.chain.gasLimit
    {
      ResetFits(rules, before, ss, r, after, t);
    }
    forall i: nat | FitsAt(rules, ss, before, i) && ss[i].tx.nonce == rules.chain.NonceOf(ss[i].tx.from)
      ensures IsPending(after, ss[i].tx)
    {
      ResetTakes(rules, before, ss, r, after, i);
    }
  }
}

/**
 core/tx_pool.go: the transaction pool. Pending and queued account lists, the index of all
 pooled transactions, the lazy price heap and the virtual nonces change together; each
 operation is proved to keep the partition, the price floor and, without a chain
 reorganisation, gap-free pending lists.
 */
module TxPools {
  import opened Wrappers
  import opened TxItems
  import opened PoolLists
  import opened PoolSteps
  import opened PoolOutcomes
  import opened TxPriced
  import opened TxLists

  class TxPool {
    const config: Config
    const priced: TxPricedList
    var gasPrice: int
    var chain: ChainState
    var virtual: map<Address, Nonce>
    var locals: set<Address>
    var pending: Lists
    var queue: Lists
    var all: set<Tx>

    constructor (config: Config, chain: ChainState)
      ensures Valid() && Gapless() && fresh(priced) && this.chain == chain
      ensures all == {} && locals == {} && pending == queue == map[] && virtual == map[]
      ensures gasPrice == this.config.priceLimit == (if config.priceLimit == 0 then 1 else config.priceLimit)
      ensures this.config.priceBump == (if config.priceBump == 0 then 10 else config.priceBump)
      ensures this.config == config.(priceLimit := this.config.priceLimit, priceBump := this.config.priceBump)
    {
      this.config := Sanitize(config);
      gasPrice := Sanitize(config).priceLimit;
      priced := new TxPricedList();
      this.chain := chain;
      virtual, pending, queue := map[], map[], map[];
      locals, all := {}, {};
    }

    /** Every pooled transaction is in the price heap, but for those set aside to be removed. */
    ghost predicate Tracked(aside: set<Tx>)
      reads this, priced
    {
      priced.Valid() && all - aside <= Members(priced.items)
    }

    ghost predicate Sound(aside: set<Tx>)
      reads this, priced
    {
      Tracked(aside) && Partition(all, pending, queue)
    }

    /** What holds between any two operations of the pool. */
    ghost predicate Valid()
      reads this, priced
    {
      Sound({}) && FloorHolds(all, locals, gasPrice)
    }

    ghost predicate Gapless()
      reads this
    {
      GapFree(pending, virtual, chain)
    }

    /** Deletes transactions from the index, telling the price heap of each. */
    method DropAll(gone: set<Tx>, ghost aside: set<Tx>)
      requires Tracked(aside)
      modifies this`all, priced
      ensures Tracked(aside) && all == old(all) - gone
    {
      hide PriceHeap, Members;
      var todo := gone;
      while todo != {}
        invariant todo <= gone && Tracked(aside) && all == old(all) - (gone - todo)
        decreases todo
      {
        var t :| t in todo;
        all := all - {t};
        priced.Removed(all);
        todo := todo - {t};
      }
    }

    method EnqueueTx(tx: Tx, ghost aside: set<Tx>) returns (r: Enqueued)
      requires Tracked(aside)
      modifies this`queue, this`all, priced
      ensures Tracked(aside)
      ensures var q := ListOf(old(queue), tx.from);
              if tx.nonce in q && !Outbids(tx, q[tx.nonce], config.priceBump) then
                r == Rejected && all == old(all) && queue == old(queue)
              else
                && r == Queued(tx.nonce in q)
                && Replaces(queue, old(queue), tx.from, q[tx.nonce := tx])
                && all == (if tx.nonce in q then old(all) - {q[tx.nonce]} else old(all)) + {tx}
    {
      hide PriceHeap, Members, Replaces;
      var q := ListOf(queue, tx.from);
      if tx.nonce in q && !Outbids(tx, q[tx.nonce], config.priceBump) {
        return Rejected;
      }
      FileReplaces(queue, tx.from, q[tx.nonce := tx]);
      queue := queue[tx.from := q[tx.nonce := tx]];
      if tx.nonce in q {
        all := all - {q[tx.nonce]};
        priced.Removed(all);
      }
      all := all + {tx};
      priced.Put(tx);
      return Queued(tx.nonce in q);
    }

    /** Moves pooled transactions to the queue: none is refused and none is displaced. */
    method Demote(moved: Items, a: Address, ghost aside: set<Tx>)
      requires Tracked(aside) && Owned(moved, a) && TxSet(moved) <= all
      requires moved.Keys !! ListOf(queue, a).Keys
      modifies this`queue, this`all, priced
      ensures Tracked(aside) && all == old(all)
      ensures Replaces(queue, old(queue), a, ListOf(old(queue), a) + moved)
    {
      hide PriceHeap, Members, Replaces, Done, ListOf, TxSet, Owned;
      var todo := moved.Keys;
      ghost var q := ListOf(queue, a);
      FileReplaces(queue, a, q);
      DoneStart(q, moved);
      while todo != {}
        invariant todo <= moved.Keys && Tracked(aside) && all == old(all)
        invariant Replaces(queue, old(queue), a, q + Done(moved, todo))
        decreases todo
      {
        var n :| n in todo;
        ghost var before := queue;
        DoneStep(q, moved, todo, n);
        DemoteStep(all, queue, old(queue), a, q + Done(moved, todo), moved, n);
        var r := EnqueueTx(moved[n], aside);
        assert r == Queued(false);
        ReplacesTwice(queue, before, old(queue), a, q + Done(moved, todo), q + Done(moved, todo - {n}));
        todo := todo - {n};
      }
    }

    /** Removes a transaction, if pooled, moving all that follow it on its account to the queue. */
    method RemoveTx(tx: Tx, ghost aside: set<Tx>)
      requires Sound(aside)
      modifies this`pending, this`queue, this`virtual, this`all, priced
      ensures Sound(aside) && all == old(all) - {tx}
      ensures old(Gapless()) ==> Gapless()
      ensures tx !in old(all) ==> pending == old(pending) && queue == old(queue) && virtual == old(virtual)
      ensures virtual == if && tx in old(all) && tx.nonce in ListOf(old(pending), tx.from)
                            && tx.nonce < VirtualNonce(old(virtual), chain, tx.from)
                         then old(virtual)[tx.from := tx.nonce] else old(virtual)
      ensures var l, k := ListOf(old(pending), tx.from), ListOf(old(queue), tx.from);
              tx in old(all) ==>
                if tx.nonce in l then
                  && Replaces(pending, old(pending), tx.from, Below(l, tx.nonce))
                  && Replaces(queue, old(queue), tx.from, k + Above(l, tx.nonce))
                else
                  && pending == old(pending)
                  && queue == File(old(queue), tx.from, k - {tx.nonce})
    {
      hide PriceHeap, Members, Replaces, Partition, TxSet, Owned, GapFree, Below, Above;
      if tx !in all {
        return;
      }
      ghost var all0 := all;
      all := all - {tx};
      priced.Removed(all);
      var a := tx.from;
      if a in pending && tx.nonce in pending[a] {
        var l := pending[a];
        RemovesPending(all0, pending, queue, tx);
        FileReplaces(pending, a, Below(l, tx.nonce));
        pending := File(pending, a, Below(l, tx.nonce));
        Demote(Above(l, tx.nonce), a, aside);
        if old(Gapless()) {
          RemovalGapFree(old(pending), virtual, chain, tx, pending);
        }
        if VirtualNonce(virtual, chain, a) > tx.nonce {
          virtual := virtual[a := tx.nonce];
        }
        return;
      }
      FileReplaces(queue, a, ListOf(queue, a) - {tx.nonce});
      RemovesQueued(all0, pending, queue, tx, File(queue, a, ListOf(queue, a) - {tx.nonce}));
      queue := File(queue, a, ListOf(queue, a) - {tx.nonce});
    }

    /** Removes several transactions, each if still pooled. */
    method RemoveAll(gone: seq<Tx>, ghost aside: set<Tx>)
      requires Sound(aside)
      modifies this`pending, this`queue, this`virtual, this`all, priced
      ensures Sound(aside) && all == old(all) - Members(gone)
      ensures old(Gapless()) ==> Gapless()
    {
      hide PriceHeap, Members, Partition, GapFree, Replaces;
      MembersPrefix(gone, 0);
      for i := 0 to |gone|
        invariant Sound(aside) && all == old(all) - Members(gone[..i])
        invariant old(Gapless()) ==> Gapless()
      {
        MembersPrefix(gone, i + 1);
        RemoveTx(gone[i], aside);
      }
      assert gone[..|gone|] == gone;
    }

    /** Raises or lowers the price floor and drops what falls below it. */
    method SetGasPrice(price: int)
      requires Valid()
      modifies this, priced
      ensures Valid() && gasPrice == price && locals == old(locals) && chain == old(chain)
      ensures all == set t | t in old(all) && (t.from in locals || price <= t.price)
      ensures old(Gapless()) ==> Gapless()
    {
      hide PriceHeap, Partition, GapFree;
      gasPrice := price;
      var drop := priced.Cap(price, locals, all);
      RemoveAll(drop, Members(drop));
    }

    method PromoteTx(tx: Tx)
      requires Tracked({})
      modifies this`pending, this`virtual, this`all, priced
      ensures Tracked({})
      ensures var l := ListOf(old(pending), tx.from);
              if tx.nonce in l && !Outbids(tx, l[tx.nonce], config.priceBump) then
                all == old(all) - {tx} && pending == old(pending) && virtual == old(virtual)
              else
                && Replaces(pending, old(pending), tx.from, l[tx.nonce := tx])
                && virtual == old(virtual)[tx.from := tx.nonce + 1]
                && all == (if tx.nonce in l then old(all) - {l[tx.nonce]} else old(all)) + {tx}
    {
      hide PriceHeap, Members, Replaces;
      var l := ListOf(pending, tx.from);
      if tx.nonce in l && !Outbids(tx, l[tx.nonce], config.priceBump) {
        all := all - {tx};
        priced.Removed(all);
        return;
      }
      FileReplaces(pending, tx.from, l[tx.nonce := tx]);
      pending := pending[tx.from := l[tx.nonce := tx]];
      if tx.nonce in l {
        all := all - {l[tx.nonce]};
        priced.Removed(all);
      }
      if tx !in all {
        all := all + {tx};
        priced.Put(tx);
      }
      virtual := virtual[tx.from := tx.nonce + 1];
    }

    /** Promotes a run of pooled transactions past the pending ones: none is refused or displaced. */
    method PromoteRun(run: Items, a: Address, first: Nonce, end: Nonce)
      requires Tracked({}) && Owned(run, a) && TxSet(run) <= all && Spans(run, first, end)
      requires run.Keys !! ListOf(pending, a).Keys
      modifies this`pending, this`virtual, this`all, priced
      ensures Tracked({}) && all == old(all)
      ensures Replaces(pending, old(pending), a, ListOf(old(pending), a) + run)
      ensures virtual == if first < end then old(virtual)[a := end] else old(virtual)
    {
      hide PriceHeap, Members, Replaces, ListOf, TxSet, Owned, Spans, Below;
      ghost var l := ListOf(pending, a);
      FileReplaces(pending, a, l);
      RunBounds(l, run, first, end);
      for n := first to end
        invariant Tracked({}) && all == old(all)
        invariant Replaces(pending, old(pending), a, l + Below(run, n))
        invariant virtual == if first < n then old(virtual)[a := n] else old(virtual)
      {
        ghost var before := pending;
        RunStep(all, pending, old(pending), a, l, run, first, end, n);
        PromoteTx(run[n]);
        ReplacesTwice(pending, before, old(pending), a, l + Below(run, n), l + Below(run, n + 1));
      }
    }

    /** Drops from the index what is included or unpayable in a list. */
    method DropDead(l: Items, a: Address)
      requires Tracked({})
      modifies this`all, priced
      ensures Tracked({}) && all == old(all) - TooOld(l, chain, a) - TooCostly(l, chain, a)
    {
      hide PriceHeap, Members, TooOld, TooCostly;
      DropAll(TooOld(l, chain, a), {});
      DropAll(TooCostly(l, chain, a), {});
    }

    /** Promotes what has become executable on one account and drops what has become invalid. */
    method PromoteAccount(a: Address)
      requires Sound({})
      modifies this`pending, this`queue, this`virtual, this`all, priced
      ensures Sound({}) && all <= old(all)
      ensures Replaces(pending, old(pending), a, ListOf(old(pending), a) + ReadyOf(old(queue), old(virtual), chain, a))
      ensures Replaces(queue, old(queue), a, LeftOf(old(queue), old(virtual), chain, a, a in locals,
                config.accountQueue))
      ensures forall b :: b != a ==> VirtualNonce(virtual, chain, b) == old(VirtualNonce(virtual, chain, b))
      ensures old(Gapless()) ==> Gapless()
    {
      hide PriceHeap, Members, Replaces, Partition, TxSet, Owned, GapFree, Executable, TooOld, TooCostly, ReadyPart,
           Spans, CapTo;
      if a !in queue {
        NothingQueued(queue, virtual, chain, a, a in locals, config.accountQueue);
        FileReplaces(pending, a, ListOf(pending, a));
        FileReplaces(queue, a, ListOf(queue, a));
        assert ListOf(pending, a) + map[] == ListOf(pending, a);
        return;
      }
      var q := queue[a];
      var start := VirtualNonce(virtual, chain, a);
      AccountOf(all, pending, queue, a);
      ExecutableSplits(q, chain, a);
      DropDead(q, a);
      var e := Executable(q, chain, a);
      var ready := ReadyPart(e, start);
      var rest := e - ready.Keys;
      ReadySplits(e, a, start, config.accountQueue);
      PromoteReady(ready, e, a, start);
      var kept := rest;
      if a !in locals {
        kept := CapTo(rest, config.accountQueue);
        DropAll(TxSet(rest) - TxSet(kept), {});
      }
      assert all == old(all) - TooOld(q, chain, a) - TooCostly(q, chain, a) - (TxSet(rest) - TxSet(kept));
      FileReplaces(queue, a, kept);
      PromotionPartitions(old(all), old(pending), queue, a, chain, start, kept, pending, File(queue, a, kept));
      if old(Gapless()) {
        PromotionGapFree(old(all), old(pending), queue, a, old(virtual), chain);
        StaysGapFree(old(pending), old(virtual), chain, a, pending, virtual, ListOf(old(pending), a) + ready);
      }
      queue := File(queue, a, kept);
    }

    /** Drops what is included or unpayable on one account and queues what that leaves stranded. */
    method DemoteAccount(a: Address)
      requires Sound({})
      modifies this`pending, this`queue, this`all, priced
      ensures Sound({}) && all <= old(all)
      ensures pending == File(old(pending), a, Staying(ListOf(old(pending), a), chain, a))
      ensures Replaces(queue, old(queue), a, ListOf(old(queue), a) + Returning(ListOf(old(pending), a), chain, a))
    {
      hide PriceHeap, Members, Replaces, Partition, TxSet, Owned, TooOld, TooCostly, Staying, Returning, Payable,
           Invalidated, AtLeast;
      var l := ListOf(pending, a);
      var n := chain.NonceOf(a);
      AccountOf(all, pending, queue, a);
      DemotionSplits(l, chain, a);
      DropDead(l, a);
      var invalids := Invalidated(AtLeast(l, n), chain.BalanceOf(a), chain.gasLimit, true);
      var left := Payable(AtLeast(l, n), chain.BalanceOf(a), chain.gasLimit, true);
      DemotedParts(l, chain, a);
      Demote(invalids, a, {});
      if left != map[] && n !in left {
        ghost var before := queue;
        DemoteListOf(queue, old(queue), a, ListOf(old(queue), a) + invalids);
        Demote(left, a, {});
        ReplacesTwice(queue, before, old(queue), a, ListOf(old(queue), a) + invalids, ListOf(old(queue),
            a) + invalids + left);
        assert ListOf(old(queue), a) + invalids + left == ListOf(old(queue), a) + (invalids + left);
        left := map[];
      }
      FileReplaces(pending, a, left);
      DemotionPartitions(old(all), pending, old(queue), a, chain, File(pending, a, left), queue);
      pending := File(pending, a, left);
    }

    method PromoteReady(ready: Items, e: Items, a: Address, start: Nonce)
      requires Tracked({}) && ready == ReadyPart(e, start) && Owned(ready, a) && TxSet(ready) <= all
      requires ready.Keys !! ListOf(pending, a).Keys
      modifies this`pending, this`virtual, this`all, priced
      ensures Tracked({}) && all == old(all)
      ensures Replaces(pending, old(pending), a, ListOf(old(pending), a) + ready)
      ensures forall b :: b != a ==> VirtualNonce(virtual, chain, b) == old(VirtualNonce(virtual, chain, b))
      ensures ready == map[] ==> virtual == old(virtual)
      ensures forall end :: ready != map[] && Spans(ready, start, end) ==> VirtualNonce(virtual, chain, a) == end
    {
      hide PriceHeap, Members, Replaces, TxSet, Owned, ListOf, ReadyPart, Spans;
      if ready == map[] {
        FileReplaces(pending, a, ListOf(pending, a));
        assert ListOf(pending, a) + ready == ListOf(pending, a);
        return;
      }
      ReadySpans(e, start);
      PromoteRun(ready, a, Least(e), RunEnd(e, Least(e)));
      forall end | Spans(ready, start, end)
        ensures end == RunEnd(e, Least(e))
      {
        SpansUnique(ready, start, end, Least(e), RunEnd(e, Least(e)));
      }
    }

    // ---- Eviction ----

    /** The number of transactions in a family of lists. */
    static method Count(m: Lists) returns (n: nat)
      ensures n == Total(m)
    {
      hide Total;
      var todo := m.Keys;
      n := 0;
      CountStart(m);
      while todo != {}
        invariant todo <= m.Keys && n == Total(m - todo)
        decreases todo
      {
        var a :| a in todo;
        CountStep(m, todo, a);
        n := n + |m[a]|;
        todo := todo - {a};
      }
    }

    /** Drops an account's highest pending nonce. */
    method CutLast(a: Address)
      requires Sound({}) && a in pending && pending[a] != map[]
      modifies this`pending, this`virtual, this`all, priced
      ensures Sound({}) && all <= old(all)
      ensures pending == old(pending)[a := old(pending)[a] - {Greatest(old(pending)[a])}]
      ensures Total(pending) == Total(old(pending)) - 1
      ensures old(Gapless()) ==> Gapless()
    {
      hide PriceHeap, Members, Replaces, Partition, TxSet, Owned, GapFree, Total;
      var l := pending[a];
      var n := Greatest(l);
      CutPartitions(all, pending, queue, a);
      TotalUpdate(pending, a, l - {n});
      if old(Gapless()) {
        CutGapFree(pending, virtual, chain, a);
      }
      pending := pending[a := l - {n}];
      DropAll({l[n]}, {});
      if VirtualNonce(virtual, chain, a) > n {
        virtual := virtual[a := n];
      }
    }

    /** One pass over the offenders, cutting each list by one: the level sinks by one. */
    method CutEach(offenders: seq<Address>, ghost p: Lists, ghost level: nat)
      requires Sound({}) && pending == Leveled(p, locals, level + 1)
      requires forall i, j :: 0 <= i < j < |offenders| ==> offenders[i] != offenders[j]
      requires forall o :: o in offenders ==> o in p && o !in locals && level < |p[o]|
      requires forall a :: a in p && a !in locals && a !in offenders ==> |p[a]| <= level
      modifies this`pending, this`virtual, this`all, priced
      ensures Sound({}) && all <= old(all) && pending == Leveled(p, locals, level)
      ensures Total(pending) == Total(old(pending)) - |offenders|
      ensures old(Gapless()) ==> Gapless()
    {
      hide PriceHeap, Members, Partition, GapFree, Total, Lowering, Leveled, Elements;
      LoweringStart(p, locals, level);
      ElementsNone(offenders);
      for i := 0 to |offenders|
        invariant Sound({}) && all <= old(all)
        invariant pending == Lowering(p, locals, level, Elements(offenders[..i]))
        invariant Total(pending) == Total(old(pending)) - i
        invariant old(Gapless()) ==> Gapless()
      {
        ElementsPrefix(offenders, i);
        LoweringStep(p, locals, level, Elements(offenders[..i]), offenders[i]);
        CutLast(offenders[i]);
      }
      ElementsAll(offenders);
      LoweringDone(p, locals, level, Elements(offenders));
    }

    /** The accounts that may be penalised, with their lengths as priorities. */
    method SpamOrder() returns (spammers: map<Address, nat>)
      ensures Waiting(pending, locals, config.accountSlots, [], spammers)
    {
      hide Waiting, Listed;
      spammers := map[];
      var todo := pending.Keys;
      ListedStart(pending, locals, config.accountSlots);
      while todo != {}
        invariant todo <= pending.Keys && Listed(pending, locals, config.accountSlots, todo, spammers)
        decreases todo
      {
        var a :| a in todo;
        SpammerStep(pending, locals, config.accountSlots, todo, spammers, a);
        if a !in locals && |pending[a]| > config.accountSlots {
          spammers := spammers[a := |pending[a]|];
        }
        todo := todo - {a};
      }
      ListedDone(pending, locals, config.accountSlots, spammers);
    }

    /**
     The pending lists are those of p cut to one level, count is their total, and unless nothing
     was cut, one level up would be over the limit.
     */
    ghost predicate AtLevel(p: Lists, level: nat, count: int)
      reads this`pending, this`locals
    {
      && pending == Leveled(p, locals, level) && config.accountSlots <= level && count == Total(pending)
      && (pending != p ==> Total(Leveled(p, locals, level + 1)) > config.globalSlots)
    }

    /** Offenders reach the level, and no one else is above the given length. */
    ghost predicate Lined(p: Lists, offenders: seq<Address>, level: nat, length: nat)
      reads this`locals
    {
      Reaching(p, locals, offenders, level) && OthersWithin(p, locals, offenders, length)
    }

    /** Lowers all the given offenders by one. */
    method LowerOnce(offenders: seq<Address>, total: nat, ghost p: Lists, ghost level: nat) returns (count: nat)
      requires Sound({}) && AtLevel(p, level + 1, total) && total > config.globalSlots
      requires Lined(p, offenders, level + 1, level) && config.accountSlots <= level
      modifies this`pending, this`virtual, this`all, priced
      ensures Sound({}) && all <= old(all) && (old(Gapless()) ==> Gapless())
      ensures AtLevel(p, level, count) && Reaching(p, locals, offenders, level)
      ensures forall o :: o in offenders ==> o in pending && |pending[o]| == level
    {
      hide PriceHeap, Members, Partition, GapFree, Total, Leveled, Reaching, OthersWithin;
      ReachingLower(p, locals, offenders, level);
      OthersMore(p, locals, offenders, level, level);
      CutEach(offenders, p, level);
      LevelOfAll(p, locals, offenders, level);
      TotalBounds(pending);
      count := total - |offenders|;
    }

    /** Lowers the earlier offenders together until they are as short as the newest, or the limit is met. */
    method LowerTo(others: seq<Address>, threshold: nat, total: nat, ghost p: Lists, ghost start: nat)
      returns (count: nat, ghost level: nat)
      requires Sound({}) && others != [] && AtLevel(p, start, total) && Lined(p, others, start, threshold)
      requires config.accountSlots <= threshold <= start
      modifies this`pending, this`virtual, this`all, priced
      ensures Sound({}) && all <= old(all) && (old(Gapless()) ==> Gapless())
      ensures AtLevel(p, level, count) && threshold <= level <= start && Reaching(p, locals, others, level)
      ensures count > config.globalSlots ==> level == threshold
    {
      hide PriceHeap, Members, Partition, GapFree, Total, Leveled, Reaching, OthersWithin;
      count, level := total, start;
      LevelOfAll(p, locals, others, level);
      while count > config.globalSlots && |pending[others[|others| - 1]]| > threshold
        invariant Sound({}) && all <= old(all) && (old(Gapless()) ==> Gapless())
        invariant AtLevel(p, level, count) && threshold <= level <= start && Reaching(p, locals, others, level)
        invariant forall o :: o in others ==> o in pending && |pending[o]| == level
        decreases level
      {
        level := level - 1;
        OthersMore(p, locals, others, threshold, level);
        count := LowerOnce(others, count, p, level);
      }
    }

    /** With every spammer at one length, lowers them all to the limit or to the guaranteed slots. */
    method ReduceToSlots(offenders: seq<Address>, total: nat, ghost p: Lists, ghost start: nat)
      returns (count: nat, ghost level: nat)
      requires Sound({}) && AtLevel(p, start, total) && (offenders == [] ==> pending == p)
      requires total > config.globalSlots ==> Lined(p, offenders, start, config.accountSlots)
      modifies this`pending, this`virtual, this`all, priced
      ensures Sound({}) && all <= old(all) && (old(Gapless()) ==> Gapless())
      ensures AtLevel(p, level, count)
      ensures count <= config.globalSlots
              || forall a :: a in pending && a !in locals ==> |pending[a]| <= config.accountSlots
    {
      hide PriceHeap, Members, Partition, GapFree, Total, Leveled, Reaching, OthersWithin;
      count, level := total, start;
      var slots := config.accountSlots;
      if count > config.globalSlots && offenders == [] {
        level := slots;
        WithinNow(p, locals, slots);
        AllWithin(p, locals, offenders, slots, slots);
      }
      if count > config.globalSlots && |offenders| > 0 {
        LevelOfAll(p, locals, offenders, level);
        while count > config.globalSlots && |pending[offenders[|offenders| - 1]]| > slots
          invariant Sound({}) && all <= old(all) && (old(Gapless()) ==> Gapless())
          invariant AtLevel(p, level, count) && Reaching(p, locals, offenders, level)
          invariant forall o :: o in offenders ==> o in pending && |pending[o]| == level
          decreases level
        {
          level := level - 1;
          OthersMore(p, locals, offenders, slots, level);
          count := LowerOnce(offenders, count, p, level);
        }
        AllWithin(p, locals, offenders, slots, level);
      }
    }

    /** Takes in one more offender: the earlier ones, all of one length, are lowered to its length. */
    method Penalize(others: seq<Address>, offender: Address, total: nat, ghost p: Lists, ghost start: nat)
      returns (count: nat, ghost level: nat)
      requires Sound({}) && AtLevel(p, start, total) && (others == [] ==> pending == p)
      requires offender in p && offender !in locals && offender !in others
      requires config.accountSlots < |p[offender]| <= start && Lined(p, others, start, |p[offender]|)
      modifies this`pending, this`virtual, this`all, priced
      ensures Sound({}) && all <= old(all) && (old(Gapless()) ==> Gapless())
      ensures AtLevel(p, level, count)
      ensures count > config.globalSlots ==> level == |p[offender]| && Reaching(p, locals, others + [offender], level)
    {
      hide PriceHeap, Members, Partition, GapFree, Total, Leveled, Reaching, OthersWithin;
      if |others| > 0 {
        LevelOfAll(p, locals, others, start);
        assert forall o :: o in others ==> |pending[o]| == start;
        LevelOf(p, locals, start, offender);
        var threshold := |pending[offender]|;
        count, level := LowerTo(others, threshold, total, p, start);
      } else {
        count, level := total, |p[offender]|;
        WithinNow(p, locals, level);
        NobodyYet(p, locals, level);
      }
      if count > config.globalSlots {
        JoinOffender(p, locals, others, offender, level);
      }
    }

    /** The priority queue's next account. */
    static method Longest(spammers: map<Address, nat>) returns (offender: Address)
      requires spammers != map[]
      ensures offender in spammers && forall b :: b in spammers ==> spammers[b] <= spammers[offender]
    {
      HasMaximum(spammers);
      offender :| offender in spammers && forall b :: b in spammers ==> spammers[b] <= spammers[offender];
    }

    /**
     Equalises pending lists when there are too many pending transactions. The outcome is one
     level: every non-local account keeps its lowest nonces up to the level, local accounts keep
     everything. The level is never below the guaranteed slots, it meets the limit unless it is
     down to the slots, and it is the highest that does: one level up is over the limit.
     */
    method EqualizePending() returns (ghost level: nat)
      requires Sound({})
      modifies this`pending, this`virtual, this`all, priced
      ensures Sound({}) && all <= old(all)
      ensures pending == Leveled(old(pending), locals, level) && config.accountSlots <= level
      ensures Total(pending) <= config.globalSlots
              || forall a :: a in pending && a !in locals ==> |pending[a]| <= config.accountSlots
      ensures pending != old(pending) ==> Total(Leveled(old(pending), locals, level + 1)) > config.globalSlots
      ensures |old(all)| <= config.globalSlots ==> pending == old(pending)
      ensures old(Gapless()) ==> Gapless()
    {
      hide PriceHeap, Members, Partition, GapFree, Total, Leveled, Waiting, Reaching, OthersWithin,
           TxPool.Sound, TxPool.Gapless;
      ghost var p := pending;
      var count: nat := Count(pending);
      BoundedByTotal(p, locals);
      SoundWithin();
      level := if Total(p) <= config.accountSlots then config.accountSlots else Total(p);
      OthersMore(p, locals, [], Total(p), level);
      WithinNow(p, locals, level);
      if count <= config.globalSlots {
        return;
      }
      var spammers := SpamOrder();
      var offenders: seq<Address> := [];
      NobodyYet(p, locals, level);
      while count > config.globalSlots && spammers != map[]
        invariant Sound({}) && all <= old(all) && (old(Gapless()) ==> Gapless())
        invariant AtLevel(p, level, count) && (offenders == [] ==> pending == p)
        invariant count > config.globalSlots ==>
                    Lined(p, offenders, level, level) && Waiting(p, locals, config.accountSlots, offenders, spammers)
        decreases spammers.Keys
      {
        var offender := Longest(spammers);
        PopLongest(p, locals, config.accountSlots, offenders, spammers, level, offender);
        count, level := Penalize(offenders, offender, count, p, level);
        spammers := spammers - {offender};
        offenders := offenders + [offender];
      }
      if count > config.globalSlots {
        NobodyWaits(p, locals, config.accountSlots, offenders);
      }
      count, level := ReduceToSlots(offenders, count, p, level);
    }

    lemma SoundWithin()
      requires Sound({})
      ensures Total(pending) <= |all|
    {
      PendingWithin(all, pending, queue);
    }

    /** Removes a queued account's highest nonces, or all of them. */
    method ShortenQueue(a: Address, k: nat)
      requires Sound({}) && k <= |ListOf(queue, a)|
      modifies this`pending, this`queue, this`virtual, this`all, priced
      ensures Sound({}) && all <= old(all) && pending == old(pending) && virtual == old(virtual)
      ensures Replaces(queue, old(queue), a, CapTo(ListOf(old(queue), a), |ListOf(old(queue), a)| - k))
      ensures Total(queue) == Total(old(queue)) - k
    {
      hide PriceHeap, Members, Partition, Replaces, GapFree, Total, CapTo, Owned, TxSet;
      ghost var l := ListOf(queue, a);
      FileReplaces(queue, a, l);
      CapToAll(l);
      for i := 0 to k
        invariant Sound({}) && all <= old(all) && pending == old(pending) && virtual == old(virtual)
        invariant Replaces(queue, old(queue), a, CapTo(l, |l| - i)) && Total(queue) == Total(old(queue)) - i
      {
        ghost var before := queue;
        ShortenStep(all, pending, queue, old(queue), a, l, |l| - i);
        var tx := queue[a][Greatest(queue[a])];
        RemoveTx(tx, {});
        FileReplaces(before, a, ListOf(before, a) - {tx.nonce});
        TotalUpdate(before, a, ListOf(before, a) - {tx.nonce});
        ReplacesTwice(queue, before, old(queue), a, CapTo(l, |l| - i), CapTo(l, |l| - i - 1));
      }
    }

    /**
     Drops queued transactions when there are too many, account by account in the order of
     their heartbeats (here: any order), highest nonces first. It stops exactly at the limit,
     or when only local accounts have queued transactions; local accounts lose nothing.
     */
    method LimitQueue()
      requires Sound({})
      modifies this`pending, this`queue, this`virtual, this`all, priced
      ensures Sound({}) && all <= old(all) && pending == old(pending) && virtual == old(virtual)
      ensures Total(queue) <= config.globalQueue || forall a :: a !in locals ==> ListOf(queue, a) == map[]
      ensures if Total(old(queue)) <= config.globalQueue then queue == old(queue)
                else Total(queue) >= config.globalQueue
      ensures forall a :: a in locals ==> ListOf(queue, a) == ListOf(old(queue), a)
      ensures forall a :: ListOf(queue, a) == CapTo(ListOf(old(queue), a), |ListOf(queue, a)|)
    {
      hide PriceHeap, Members, Partition, Replaces, Total, CapTo, Trimmed, Emptied;
      var queued: nat := Count(queue);
      var addresses := set a | a in queue && a !in locals;
      TrimmedStart(queue, locals);
      if queued > config.globalQueue {
        var drop: nat := queued - config.globalQueue;
        while drop > 0 && addresses != {}
          invariant Sound({}) && all <= old(all) && pending == old(pending) && virtual == old(virtual)
          invariant Total(queue) == config.globalQueue + drop
          invariant Trimmed(queue, old(queue), locals, addresses)
          invariant drop > 0 ==> Emptied(queue, locals, addresses)
          decreases addresses
        {
          var a :| a in addresses;
          var size := |ListOf(queue, a)|;
          ghost var before := queue;
          if size <= drop {
            ShortenQueue(a, size);
            TrimmedStep(queue, before, old(queue), locals, addresses, a, 0);
            drop := drop - size;
          } else {
            ShortenQueue(a, drop);
            TrimmedStep(queue, before, old(queue), locals, addresses, a, size - drop);
            drop := 0;
          }
          addresses := addresses - {a};
        }
      }
      TrimmedLists(queue, old(queue), locals, addresses);
    }

    // ---- Adding ----

    ghost function Snap(): Snapshot
      reads this
    {
      Snapshot(all, pending, queue, virtual, locals)
    }

    /** What decides on a transaction besides the pool's contents. */
    ghost function Terms(): Rules
      reads this`chain, this`gasPrice
    {
      Rules(config, chain, gasPrice)
    }

    /** When the pool is full: refuses an underpriced transaction, or drops the cheapest remote ones. */
    method MakeRoom(tx: Tx) returns (ok: bool)
      requires Valid()
      modifies this`pending, this`queue, this`virtual, this`all, priced
      ensures Valid() && (old(Gapless()) ==> Gapless()) && all <= old(all)
      ensures !ok <==>
              && !config.perfTest && |old(all)| >= config.globalSlots + config.globalQueue
              && tx.from !in locals && old(all) != {} && forall t :: t in old(all) ==> tx.price <= t.price
      ensures if ok then MadeRoom(config, old(Snap()), Snap()) else Snap() == old(Snap())
    {
      hide PriceHeap, Partition, GapFree, Discards, Members;
      ok := true;
      if !config.perfTest && |all| >= config.globalSlots + config.globalQueue {
        var under := priced.Underpriced(tx, locals, all);
        if under {
          return false;
        }
        var drop := priced.Discard(|all| - (config.globalSlots + config.globalQueue - 1), locals, all);
        RemoveAll(drop, Members(drop));
        Discarded(config, old(Snap()), Snap(), drop);
      }
    }

    /** Adds one transaction: to its pending place if it replaces one there, else to the queue. */
    method Add(s: Submission, local: bool) returns (v: Verdict, ghost room: Snapshot)
      requires Valid()
      modifies this`pending, this`queue, this`virtual, this`all, this`locals, priced
      ensures Valid() && (old(Gapless()) ==> Gapless())
      ensures AddOutcome(Terms(), old(Snap()), s, local, room, v, Snap())
      ensures BumpDecides(s.tx, room, config.priceBump, v)
    {
      hide PriceHeap, Partition, GapFree, Replaces, Members, MadeRoom, Placed, BumpDecides;
      room := Snap();
      var tx := s.tx;
      if tx in all {
        RefusedBefore(tx, room, config.priceBump, KnownTransaction);
        return Refused(KnownTransaction), room;
      }
      var e := Validate(s, local, locals, chain, gasPrice);
      if e.Some? {
        RefusedBefore(tx, room, config.priceBump, e.value);
        return Refused(e.value), room;
      }
      var ok := MakeRoom(tx);
      if !ok {
        RefusedBefore(tx, room, config.priceBump, Underpriced);
        return Refused(Underpriced), room;
      }
      room := Snap();
      if tx.nonce in ListOf(pending, tx.from) {
        v := ReplacePending(tx);
        PlacedAnyway(tx, local, room, config.priceBump, v, Snap());
      } else {
        v := InsertQueued(tx, local);
      }
      PlacedByBump(tx, local, room, config.priceBump, v, Snap());
    }

    /**
     Replaces a pending transaction, if the price bump is met. The sender is not made local, yet
     the price floor holds: the replacement is dearer than what it replaces.
     */
    method ReplacePending(tx: Tx) returns (v: Verdict)
      requires Valid() && tx !in all && tx.nonce in ListOf(pending, tx.from)
      modifies this`pending, this`all, priced
      ensures Valid() && (old(Gapless()) ==> Gapless())
      ensures Placed(tx, false, old(Snap()), config.priceBump, v, Snap())
    {
      hide PriceHeap, Partition, GapFree, Members, Placed, Replaces;
      var l := ListOf(pending, tx.from);
      PlacedPending(tx, old(Snap()), config.priceBump);
      if !Outbids(tx, l[tx.nonce], config.priceBump) {
        return Refused(ReplaceUnderpriced);
      }
      ReplacementPartitions(all, pending, queue, tx);
      if old(Gapless()) {
        ReplacementGapFree(pending, virtual, chain, tx);
      }
      pending := pending[tx.from := l[tx.nonce := tx]];
      all := all - {l[tx.nonce]};
      priced.Removed(all);
      all := all + {tx};
      priced.Put(tx);
      return Added(true);
    }

    /** Queues a transaction, making its sender local if it was submitted as such. */
    method InsertQueued(tx: Tx, local: bool) returns (v: Verdict)
      requires Valid() && tx !in all && tx.nonce !in ListOf(pending, tx.from)
      requires tx.from in locals || local || gasPrice <= tx.price
      modifies this`queue, this`all, this`locals, priced
      ensures Valid() && Placed(tx, local, old(Snap()), config.priceBump, v, Snap())
    {
      hide PriceHeap, Partition, Members, Replaces;
      var r := EnqueueTx(tx, {});
      if r.Rejected? {
        return Refused(ReplaceUnderpriced);
      }
      InsertionPartitions(old(all), pending, old(queue), tx, queue);
      if local {
        locals := locals + {tx.from};
      }
      return Added(r.replaced);
    }

    /** The limits every promotion re-establishes. */
    ghost predicate Limited()
      reads this
    {
      && (Total(pending) <= config.globalSlots
          || forall a :: a in pending && a !in locals ==> |pending[a]| <= config.accountSlots)
      && (Total(queue) <= config.globalQueue || forall a :: a !in locals ==> ListOf(queue, a) == map[])
    }

    /** Promotes on the given accounts, then evicts what is over the limits. */
    method PromoteExecutables(accounts: set<Address>) returns (ghost p: Lists, ghost q: Lists, ghost level: nat)
      requires Sound({})
      modifies this`pending, this`queue, this`virtual, this`all, priced
      ensures Sound({}) && all <= old(all) && (old(Gapless()) ==> Gapless()) && Limited()
      ensures PromotedOn(accounts, old(pending), old(queue), old(virtual), chain, locals, config.accountQueue, p, q)
      ensures EvictsTo(config, old(all), p, q, level, Snap())
    {
      hide PriceHeap, Partition, GapFree, Members, Replaces, Total, ListOf, Leveled, ReadyOf, LeftOf, CapTo, PromotedOn;
      var todo := accounts;
      PromotedStart(pending, queue, virtual, chain, locals, config.accountQueue);
      NoneDone(accounts);
      while todo != {}
        invariant todo <= accounts && Sound({}) && all <= old(all) && (old(Gapless()) ==> Gapless())
        invariant PromotedOn(accounts - todo, old(pending), old(queue), old(virtual), chain, locals,
                    config.accountQueue,
                             pending, queue)
        invariant forall a :: a in todo ==> VirtualNonce(virtual, chain, a) == VirtualNonce(old(virtual), chain, a)
        decreases todo
      {
        var a :| a in todo;
        ghost var p1, q1, virtual1 := pending, queue, virtual;
        PromoteAccount(a);
        PromotedStep(accounts - todo, old(pending), old(queue), old(virtual), chain, locals, config.accountQueue,
                     p1, q1, virtual1, a, pending, queue);
        OneDone(accounts, todo, a);
        todo := todo - {a};
      }
      p, q := pending, queue;
      SubsetSize(all, old(all));
      level := EqualizePending();
      LimitQueue();
    }

    /** AddLocal and AddRemote. */
    method AddTx(s: Submission, local: bool) returns (v: Verdict, ghost room: Snapshot, ghost added: Snapshot)
      requires Valid()
      modifies this`pending, this`queue, this`virtual, this`all, this`locals, priced
      ensures Valid() && (old(Gapless()) ==> Gapless())
      ensures AddOutcome(Terms(), old(Snap()), s, local && !config.noLocals, room, v, added)
      ensures v == Added(false) ==> Limited() && Promotes(config, chain, {s.tx.from}, added, Snap())
      ensures v != Added(false) ==> Snap() == added
      ensures && old(Gapless()) && |old(all)| < config.globalSlots && s.tx !in old(all)
              && Validate(s, local && !config.noLocals, old(locals), chain, gasPrice).None?
              && s.tx.nonce == VirtualNonce(old(virtual), chain, s.tx.from)
              && s.tx.nonce !in ListOf(old(queue), s.tx.from) ==>
                s.tx.nonce in ListOf(pending, s.tx.from) && ListOf(pending, s.tx.from)[s.tx.nonce] == s.tx
    {
      hide PriceHeap, Partition, GapFree, Members, Total, ListOf, AddOutcome, PromotedOn, EvictsTo, Validate;
      v, room := Add(s, local && !config.noLocals);
      added := Snap();
      if v == Added(false) {
        ghost var p, q, level := PromoteExecutables({s.tx.from});
      }
      if && old(Gapless()) && |old(all)| < config.globalSlots && s.tx !in old(all)
         && Validate(s, local && !config.noLocals, old(locals), chain, gasPrice).None?
         && s.tx.nonce == VirtualNonce(old(virtual), chain, s.tx.from)
         && s.tx.nonce !in ListOf(old(queue), s.tx.from)
      {
        AddTakes(Terms(), old(Snap()), s, local && !config.noLocals, room, v, added, Snap());
      }
    }

    /** Adds a batch, then promotes on every account that got something new. */
    method AddTxs(ss: seq<Submission>, local: bool)
      returns (vs: seq<Verdict>, ghost trace: seq<Snapshot>, ghost rooms: seq<Snapshot>)
      requires Valid()
      modifies this`pending, this`queue, this`virtual, this`all, this`locals, priced
      ensures Valid() && (old(Gapless()) ==> Gapless())
      ensures BatchAdded(Terms(), ss, local && !config.noLocals, old(Snap()), trace, rooms, vs, Snap())
      ensures |vs| == |ss| && (Dirty(ss, vs) != {} ==> Limited())
    {
      hide PriceHeap, Partition, GapFree, Members, Total, ListOf, AddOutcome, PromotedOn, EvictsTo;
      vs, trace, rooms := [], [Snap()], [];
      var dirty: set<Address> := {};
      for i := 0 to |ss|
        invariant Valid() && (old(Gapless()) ==> Gapless())
        invariant |vs| == |rooms| == i && |trace| == i + 1 && trace[0] == old(Snap()) && trace[i] == Snap()
        invariant forall j :: 0 <= j < i ==>
                    AddOutcome(Terms(), trace[j], ss[j], local && !config.noLocals, rooms[j], vs[j], trace[j + 1])
        invariant dirty == set j | 0 <= j < i && vs[j] == Added(false) :: ss[j].tx.from
      {
        var v;
        ghost var room;
        v, room := Add(ss[i], local && !config.noLocals);
        vs, trace, rooms := vs + [v], trace + [Snap()], rooms + [room];
        if v == Added(false) {
          dirty := dirty + {ss[i].tx.from};
        }
      }
      if dirty != {} {
        ghost var p, q, level := PromoteExecutables(dirty);
      }
    }

    /** RemoveTxs */
    method RemoveTxs(txs: seq<Tx>)
      requires Valid()
      modifies this`pending, this`queue, this`virtual, this`all, priced
      ensures Valid() && (old(Gapless()) ==> Gapless()) && all == old(all) - Members(txs)
    {
      hide PriceHeap, Partition, GapFree, Members;
      RemoveAll(txs, {});
    }

    /** The eviction timer: empties the queue of an idle account, unless it is local. */
    method EvictIdle(a: Address)
      requires Valid()
      modifies this`pending, this`queue, this`virtual, this`all, priced
      ensures Valid() && pending == old(pending) && virtual == old(virtual) && (old(Gapless()) ==> Gapless())
      ensures if a in locals then queue == old(queue) else Replaces(queue, old(queue), a, map[])
    {
      hide PriceHeap, Partition, Members, Total;
      if a !in locals {
        ShortenQueue(a, |ListOf(queue, a)|);
        CapToNone(ListOf(old(queue), a));
      }
    }

    // ---- A new head ----

    /** Drops and demotes on every account with pending transactions. */
    method DemoteUnexecutables()
      requires Sound({})
      modifies this`pending, this`queue, this`all, priced
      ensures Sound({}) && all <= old(all) && (forall a :: a in pending ==> pending[a] != map[])
      ensures DemotedBut({}, old(pending), old(queue), chain, pending, queue)
      ensures AllRooted(old(pending), chain, old(pending).Keys) ==> AllRooted(pending, chain, {})
    {
      hide PriceHeap, Partition, Members, Replaces, AllRooted, Staying, Returning, ListOf, DemotedBut;
      var todo := pending.Keys;
      DemotedStart(pending, queue, chain);
      while todo != {}
        invariant Sound({}) && all <= old(all) && todo <= old(pending).Keys
        invariant forall a :: a in pending ==> a in todo || pending[a] != map[]
        invariant DemotedBut(todo, old(pending), old(queue), chain, pending, queue)
        invariant AllRooted(old(pending), chain, old(pending).Keys) ==> AllRooted(pending, chain, todo)
        decreases todo
      {
        var a :| a in todo;
        ghost var before, queued := pending, queue;
        DemoteAccount(a);
        DemotedStep(todo, old(pending), old(queue), chain, before, queued, a, pending, queue);
        if AllRooted(old(pending), chain, old(pending).Keys) {
          DemotionRootsOne(before, chain, todo, a, pending);
        }
        todo := todo - {a};
      }
    }

    /** Sets every pending account's virtual nonce one past its last transaction. */
    method UpdateVirtualNonces()
      requires forall a :: a in pending ==> pending[a] != map[]
      modifies this`virtual
      ensures PastLast(virtual, pending, {})
      ensures forall a :: a in virtual ==> a in old(virtual) || a in pending
    {
      var todo := pending.Keys;
      while todo != {}
        invariant todo <= pending.Keys && PastLast(virtual, pending, todo)
        invariant forall a :: a in virtual ==> a in old(virtual) || a in pending
        decreases todo
      {
        var a :| a in todo;
        virtual := virtual[a := Greatest(pending[a]) + 1];
        todo := todo - {a};
      }
    }

    /**
     Brings the pool to a new chain state, adding the transactions of an abandoned branch again.
     Without any, and with no nonce going down, gap-free pending lists stay gap-free. Nothing comes
     from elsewhere, nothing is left that the new state rules out, and with room for the batch every
     valid transaction at its account's nonce is pending, unless its place is taken or contested.
     */
    method Reset(next: ChainState, reinject: seq<Submission>) returns (ghost r: Route)
      requires Valid()
      modifies this, priced
      ensures Valid() && Limited() && chain == next && gasPrice == old(gasPrice)
      ensures old(Gapless()) && reinject == [] && Advances(old(chain), next) ==> Gapless()
      ensures ResetBy(Terms(), old(Snap()), reinject, r, Snap())
      ensures all <= old(all) + (set i | 0 <= i < |reinject| :: reinject[i].tx) && locals == old(locals)
      ensures forall t :: t in all ==>
                next.NonceOf(t.from) <= t.nonce && t.cost <= next.BalanceOf(t.from) && t.gas <= next.gasLimit
      ensures Retakes(Terms(), old(Snap()), reinject, Snap())
    {
      hide PriceHeap, Partition, GapFree, Members, Total, ListOf, AllRooted, PastLast, Advances, PromotedOn, DemotedBut,
           BatchAdded, EvictsTo, Retakes, TxPool.Limited;
      chain := next;
      virtual := map[];
      if reinject == [] && old(Gapless()) && Advances(old(chain), next) {
        AdvanceReaches(pending, old(virtual), old(chain), next);
      }
      ghost var vs, trace, rooms, p, q, level;
      vs, trace, rooms := AddTxs(reinject, false);
      ghost var added := Snap();
      if reinject == [] {
        EmptyBatch(Terms(), false, old(Snap()).(virtual := map[]), trace, rooms, vs, added);
      }
      DemoteAndCount();
      ghost var demoted := Snap();
      p, q, level := PromoteExecutables(queue.Keys);
      r := Route(trace, rooms, vs, added, demoted, p, q, level);
      ResetLaws(Terms(), old(Snap()), reinject, r, Snap());
    }

    /** The second part of a reset: after demotion every virtual nonce is one past the last pending transaction. */
    method DemoteAndCount()
      requires Sound({})
      modifies this`pending, this`queue, this`virtual, this`all, priced
      ensures Sound({}) && all <= old(all)
      ensures DemotedBut({}, old(pending), old(queue), chain, pending, queue)
      ensures PastLast(virtual, pending, {})
      ensures AllRooted(old(pending), chain, old(pending).Keys) && old(virtual) == map[] ==> Gapless()
    {
      hide PriceHeap, Partition, GapFree, Members, AllRooted, PastLast, DemotedBut;
      DemoteUnexecutables();
      UpdateVirtualNonces();
      if AllRooted(old(pending), chain, old(pending).Keys) && old(virtual) == map[] {
        RootedGapFree(pending, virtual, chain);
      }
    }
  }

  // ---- Whole runs ----

  datatype Operation =
    | AddOne(s: Submission, local: bool)
    | AddMany(ss: seq<Submission>, local: bool)
    | Discard(txs: seq<Tx>)
    | SetPrice(price: int)
    | NewHead(next: ChainState, reinject: seq<Submission>)
    | Idle(a: Address)

  /** A run on one growing chain: no transaction is reinjected and no nonce goes down. */
  ghost predicate NoReorg(chain: ChainState, ops: seq<Operation>)
    decreases ops
  {
    ops != [] ==>
      match ops[0]
      case NewHead(next, reinject) => reinject == [] && Advances(chain, next) && NoReorg(next, ops[1..])
      case _ => NoReorg(chain, ops[1..])
  }

  /** The chain state after a run. */
  ghost function LastChain(chain: ChainState, ops: seq<Operation>): ChainState
    decreases ops
  {
    if ops == [] then chain
    else LastChain(if ops[0].NewHead? then ops[0].next else chain, ops[1..])
  }

  /**
   Whatever the operations, from a new pool on: the partition, the price floor and the heap's
   coverage hold after the run, and on a run without a reorganisation pending lists are gap-free.
   */
  method Run(config: Config, chain: ChainState, ops: seq<Operation>) returns (pool: TxPool)
    ensures fresh(pool) && pool.Valid() && pool.chain == LastChain(chain, ops)
    ensures NoReorg(chain, ops) ==> pool.Gapless()
  {
    hide PriceHeap, Partition, GapFree, Members, Total, ListOf, Advances, FloorHolds;
    pool := new TxPool(config, chain);
    for i := 0 to |ops|
      invariant fresh(pool) && fresh(pool.priced) && pool.Valid()
      invariant LastChain(chain, ops) == LastChain(pool.chain, ops[i..])
      invariant NoReorg(chain, ops) ==> pool.Gapless() && NoReorg(pool.chain, ops[i..])
    {
      assert ops[i..][0] == ops[i] && ops[i..][1..] == ops[i + 1..];
      match ops[i] {
        case AddOne(s, local) => var _, _, _ := pool.AddTx(s, local);
        case AddMany(ss, local) => var _, _, _ := pool.AddTxs(ss, local);
        case Discard(txs) => pool.RemoveTxs(txs);
        case SetPrice(price) => pool.SetGasPrice(price);
        case NewHead(next, reinject) => ghost var _ := pool.Reset(next, reinject);
        case Idle(a) => pool.EvictIdle(a);
      }
    }
  }
}

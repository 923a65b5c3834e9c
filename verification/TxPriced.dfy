/**
 core/tx_list.go: the lazily cleaned price heap. It may hold transactions that have left the
 pool; `all` is the pool's set of transactions, which the source reaches through a pointer.
 */
module TxPriced {
  import opened TxItems
  import Heaps

  function PriceKey(t: Tx): real {
    t.price as real
  }

  ghost predicate PriceHeap(s: seq<Tx>) {
    Heaps.IsHeap(s, |s|, PriceKey)
  }

  ghost function Members(s: seq<Tx>): set<Tx> {
    set t | t in s
  }

  /** Everything in s costs at least p. */
  ghost predicate AtLeastPrice(s: seq<Tx>, p: int) {
    forall t :: t in s ==> p <= t.price
  }

  function PushPrice(s: seq<Tx>, t: Tx): seq<Tx>
    requires PriceHeap(s)
  {
    Heaps.Push(s, t, PriceKey)
  }

  function PopPrice(s: seq<Tx>): seq<Tx>
    requires |s| > 0 && PriceHeap(s)
  {
    Heaps.Pop(s, PriceKey)
  }

  function HeapPrices(s: seq<Tx>): seq<Tx> {
    Heaps.Init(s, PriceKey)
  }

  lemma MembersOf(s: seq<Tx>)
    ensures forall t :: t in Members(s) <==> t in multiset(s)
  {
    assert forall t :: t in s <==> t in multiset(s);
  }

  lemma {:induction false} DistinctSize(s: seq<Tx>)
    requires forall i, j :: 0 <= i < j < |s| ==> s[i] != s[j]
    ensures |Members(s)| == |s|
  {
    if s != [] {
      var n := |s| - 1;
      DistinctSize(s[..n]);
      assert s == s[..n] + [s[n]];
      assert Members(s) == Members(s[..n]) + {s[n]};
    }
  }

  lemma Pushed(s: seq<Tx>, t: Tx)
    requires PriceHeap(s)
    ensures PriceHeap(PushPrice(s, t)) && Members(PushPrice(s, t)) == Members(s) + {t}
    ensures multiset(PushPrice(s, t)) == multiset(s) + multiset{t}
  {
    MembersOf(s);
    MembersOf(PushPrice(s, t));
  }

  lemma Appended(s: seq<Tx>, t: Tx)
    ensures Members(s + [t]) == Members(s) + {t}
  {
  }

  lemma Heaped(s: seq<Tx>)
    ensures PriceHeap(HeapPrices(s)) && Members(HeapPrices(s)) == Members(s)
  {
    MembersOf(s);
    MembersOf(HeapPrices(s));
  }

  /** The popped transaction is a cheapest one. */
  lemma Popped(s: seq<Tx>)
    requires |s| > 0 && PriceHeap(s)
    ensures PriceHeap(PopPrice(s)) && |PopPrice(s)| == |s| - 1
    ensures Members(s) == Members(PopPrice(s)) + {s[0]}
    ensures AtLeastPrice(PopPrice(s), s[0].price) && AtLeastPrice(s, s[0].price)
  {
    hide PopPrice, PriceHeap;
    PoppedMembers(s);
    TopCheapest(s);
    MembersOf(s);
    MembersOf(PopPrice(s));
    assert forall t :: t in PopPrice(s) ==> t in Members(s);
  }

  lemma PoppedMembers(s: seq<Tx>)
    requires |s| > 0 && PriceHeap(s)
    ensures PriceHeap(PopPrice(s)) && |PopPrice(s)| == |s| - 1
    ensures Members(s) == Members(PopPrice(s)) + {s[0]}
  {
    hide Heaps.Pop, Heaps.IsHeap;
    MembersOf(s);
    MembersOf(PopPrice(s));
    forall t ensures t in s <==> t in PopPrice(s) || t == s[0] {
      assert t in s <==> t in multiset(s);
      assert t in PopPrice(s) <==> t in multiset(PopPrice(s));
    }
  }

  lemma TopCheapest(s: seq<Tx>)
    requires |s| > 0 && PriceHeap(s)
    ensures AtLeastPrice(s, s[0].price)
  {
    forall t | t in s ensures s[0].price <= t.price {
      var i :| 0 <= i < |s| && s[i] == t;
      Heaps.RootIsLeast(s, |s|, PriceKey, i);
      assert PriceKey(s[0]) <= PriceKey(t);
    }
  }

  /** Everything in `all` that was in the heap is still in it, or set aside. */
  ghost predicate Covers(all: set<Tx>, items: seq<Tx>, save: seq<Tx>, drop: seq<Tx>) {
    all <= Members(items) + Members(save) + Members(drop)
  }

  /** Each dropped transaction is pooled, from a non-local account, and no dearer than what is left. */
  ghost predicate Cheapest(drop: seq<Tx>, items: seq<Tx>, all: set<Tx>, local: set<Address>) {
    forall d :: d in drop ==> d in all && d.from !in local && AtLeastPrice(items, d.price)
  }

  ghost predicate Local(save: seq<Tx>, local: set<Address>) {
    forall t :: t in save ==> t.from in local
  }

  /** One popped transaction, set aside by the three cases of Cap and Discard. */
  lemma PopStep(items: seq<Tx>, save: seq<Tx>, drop: seq<Tx>, all: set<Tx>, local: set<Address>)
    requires |items| > 0 && PriceHeap(items)
    requires Covers(all, items, save, drop) && Cheapest(drop, items, all, local)
    ensures var t, rest := items[0], PopPrice(items);
            && PriceHeap(rest) && |rest| < |items| && AtLeastPrice(rest, t.price)
            && Cheapest(drop, rest, all, local)
            && (t !in all ==> Covers(all, rest, save, drop))
            && Covers(all, rest, save + [t], drop)
            && Covers(all, rest, save, drop + [t])
            && (t in all && t.from !in local ==> Cheapest(drop + [t], rest, all, local))
  {
    hide PriceHeap, PopPrice, Members;
    var t := items[0];
    Popped(items);
    Appended(save, t);
    Appended(drop, t);
    CheaperThanRest(drop, items, PopPrice(items), all, local);
  }

  lemma CheaperThanRest(drop: seq<Tx>, items: seq<Tx>, rest: seq<Tx>, all: set<Tx>, local: set<Address>)
    requires Cheapest(drop, items, all, local) && Members(rest) <= Members(items)
    ensures Cheapest(drop, rest, all, local)
  {
    assert forall t :: t in rest ==> t in Members(rest);
  }

  class TxPricedList {
    var items: seq<Tx>
    var stales: int

    ghost predicate Valid()
      reads this
    {
      PriceHeap(items)
    }

    /** Every pooled transaction is in the heap, but perhaps for those set aside. */
    ghost predicate Tracks(all: set<Tx>)
      reads this
    {
      all <= Members(items)
    }

    constructor ()
      ensures Valid() && items == []
    {
      items := [];
      stales := 0;
    }

    method Put(tx: Tx)
      requires Valid()
      modifies this
      ensures Valid() && Members(items) == Members(old(items)) + {tx} && stales == old(stales)
      ensures multiset(items) == multiset(old(items)) + multiset{tx}
    {
      hide PriceHeap, PushPrice, Members;
      Pushed(items, tx);
      items := PushPrice(items, tx);
    }

    /** Counts one stale entry; past a quarter of the heap, rebuilds it from the pool. */
    method Removed(all: set<Tx>)
      requires Valid()
      modifies this
      ensures Valid()
      ensures if old(stales) + 1 <= |old(items)| / 4
              then items == old(items) && stales == old(stales) + 1
              else Members(items) == all && |items| == |all| && stales == 0
    {
      stales := stales + 1;
      if stales <= |items| / 4 {
        return;
      }
      Reheap(all);
    }

    method Reheap(all: set<Tx>)
      modifies this
      ensures Valid() && Members(items) == all && |items| == |all| && stales == 0
    {
      stales, items := 0, [];
      var todo := all;
      while todo != {}
        invariant todo <= all && stales == 0
        invariant Members(items) == all - todo && |items| == |all| - |todo|
        decreases todo
      {
        var tx :| tx in todo;
        Appended(items, tx);
        items := items + [tx];
        todo := todo - {tx};
      }
      Heaped(items);
      items := HeapPrices(items);
    }

    /** Puts the transactions set aside back into the heap. */
    method Restore(save: seq<Tx>)
      requires Valid()
      modifies this
      ensures Valid() && Members(items) == Members(old(items)) + Members(save)
      ensures stales == old(stales)
    {
      hide PriceHeap, PushPrice, Members;
      MembersPrefix(save, 0);
      for i := 0 to |save|
        invariant Valid() && stales == old(stales)
        invariant Members(items) == Members(old(items)) + Members(save[..i])
      {
        Pushed(items, save[i]);
        MembersPrefix(save, i + 1);
        items := PushPrice(items, save[i]);
      }
      assert save[..|save|] == save;
    }

    /** Takes every pooled non-local transaction below the threshold out of the heap. */
    method Cap(threshold: int, local: set<Address>, all: set<Tx>) returns (drop: seq<Tx>)
      requires Valid() && Tracks(all)
      modifies this
      ensures Valid() && Tracks(all - Members(drop))
      ensures forall t :: t in drop <==> t in all && t.from !in local && t.price < threshold
    {
      hide PriceHeap, PopPrice, Members, Cheapest, Covers, AtLeastPrice;
      drop := [];
      var save: seq<Tx> := [];
      CapStart(items, all, local, threshold);
      var done := false;
      while |items| > 0 && !done
        invariant PriceHeap(items) && Covers(all, items, save, drop) && Cheapest(drop, items, all, local)
        invariant CapKept(save, local, threshold) && AllBelow(drop, threshold)
        invariant done ==> AtLeastPrice(items, threshold)
        decreases |items|, !done
      {
        PopStep(items, save, drop, all, local);
        CapStep(save, drop, items[0], PopPrice(items), local, threshold);
        var tx := items[0];
        items := PopPrice(items);
        if tx !in all {
          stales := stales - 1;
        } else if tx.price >= threshold {
          save := save + [tx];
          done := true;
        } else if tx.from in local {
          save := save + [tx];
        } else {
          drop := drop + [tx];
        }
      }
      CapDone(items, save, drop, all, local, threshold);
      Restore(save);
    }

    /** True exactly for a non-local transaction no dearer than everything in a non-empty pool. */
    method Underpriced(tx: Tx, local: set<Address>, all: set<Tx>) returns (b: bool)
      requires Valid() && Tracks(all)
      modifies this
      ensures Valid() && Tracks(all)
      ensures b <==> tx.from !in local && all != {} && forall t :: t in all ==> tx.price <= t.price
    {
      hide PriceHeap, PopPrice, Members, AtLeastPrice;
      if tx.from in local {
        return false;
      }
      while |items| > 0 && items[0] !in all
        invariant Valid() && Tracks(all)
        decreases |items|
      {
        Popped(items);
        stales := stales - 1;
        items := PopPrice(items);
      }
      TopOfAll(items, all);
      if |items| == 0 {
        return false;
      }
      return items[0].price >= tx.price;
    }

    /**
     Takes up to count pooled non-local transactions out of the heap, cheapest first. What
     it leaves of them costs at least as much as each one it took.
     */
    method Discard(count: int, local: set<Address>, all: set<Tx>) returns (drop: seq<Tx>)
      requires Valid() && Tracks(all)
      modifies this
      ensures Valid() && Tracks(all - Members(drop))
      ensures forall d :: d in drop ==> d in all && d.from !in local
      ensures forall d, t :: d in drop && t in all && t.from !in local && t !in drop ==> d.price <= t.price
      ensures |drop| <= (if count < 0 then 0 else count)
      ensures |drop| < count ==> forall t :: t in all && t.from !in local ==> t in drop
    {
      hide PriceHeap, PopPrice, Members, Cheapest, Covers, AtLeastPrice, Local;
      drop := [];
      var save: seq<Tx> := [];
      DiscardStart(items, all, local);
      var left := count;
      while |items| > 0 && left > 0
        invariant PriceHeap(items) && Covers(all, items, save, drop) && Cheapest(drop, items, all, local)
        invariant Local(save, local) && |drop| == (if count < 0 then 0 else count - left) && left <= count
        invariant count >= 0 ==> left >= 0
        decreases |items|
      {
        PopStep(items, save, drop, all, local);
        LocalStep(save, items[0], local);
        var tx := items[0];
        items := PopPrice(items);
        if tx !in all {
          stales := stales - 1;
        } else if tx.from in local {
          save := save + [tx];
        } else {
          drop := drop + [tx];
          left := left - 1;
        }
      }
      DiscardDone(items, save, drop, all, local);
      Restore(save);
    }
  }

  lemma MembersPrefix(s: seq<Tx>, i: nat)
    requires i <= |s|
    ensures Members(s[..i]) == if i == 0 then {} else Members(s[..i - 1]) + {s[i - 1]}
  {
    if i > 0 {
      assert s[..i] == s[..i - 1] + [s[i - 1]];
    }
  }

  /** What Cap sets aside to keep is local or dear enough. */
  ghost predicate CapKept(save: seq<Tx>, local: set<Address>, threshold: int) {
    forall t :: t in save ==> t.from in local || threshold <= t.price
  }

  ghost predicate AllBelow(drop: seq<Tx>, threshold: int) {
    forall t :: t in drop ==> t.price < threshold
  }

  lemma CapStart(items: seq<Tx>, all: set<Tx>, local: set<Address>, threshold: int)
    requires all <= Members(items)
    ensures Covers(all, items, [], []) && Cheapest([], items, all, local)
    ensures CapKept([], local, threshold) && AllBelow([], threshold)
  {
  }

  lemma CapStep(save: seq<Tx>, drop: seq<Tx>, t: Tx, rest: seq<Tx>, local: set<Address>, threshold: int)
    requires CapKept(save, local, threshold) && AllBelow(drop, threshold) && AtLeastPrice(rest, t.price)
    ensures t.from in local || threshold <= t.price ==> CapKept(save + [t], local, threshold)
    ensures t.price < threshold ==> AllBelow(drop + [t], threshold)
    ensures threshold <= t.price ==> AtLeastPrice(rest, threshold)
  {
  }

  lemma CapDone(items: seq<Tx>, save: seq<Tx>, drop: seq<Tx>, all: set<Tx>, local: set<Address>, threshold: int)
    requires Covers(all, items, save, drop) && Cheapest(drop, items, all, local)
    requires CapKept(save, local, threshold) && AllBelow(drop, threshold)
    requires |items| == 0 || AtLeastPrice(items, threshold)
    ensures all - Members(drop) <= Members(items) + Members(save)
    ensures forall t :: t in drop <==> t in all && t.from !in local && t.price < threshold
  {
    forall t | t in all && t.from !in local && t.price < threshold
      ensures t in drop
    {
      assert t in Members(items) + Members(save) + Members(drop);
    }
  }

  /** With the top pooled, it is a cheapest transaction of the pool; with no top, the pool is empty. */
  lemma TopOfAll(items: seq<Tx>, all: set<Tx>)
    requires PriceHeap(items) && all <= Members(items) && (|items| > 0 ==> items[0] in all)
    ensures |items| == 0 <==> all == {}
    ensures |items| > 0 ==> items[0] in all && forall t :: t in all ==> items[0].price <= t.price
  {
    if |items| > 0 {
      Popped(items);
      assert forall t :: t in all ==> t in items;
    }
  }

  lemma DiscardStart(items: seq<Tx>, all: set<Tx>, local: set<Address>)
    requires all <= Members(items)
    ensures Covers(all, items, [], []) && Cheapest([], items, all, local) && Local([], local)
  {
  }

  lemma LocalStep(save: seq<Tx>, t: Tx, local: set<Address>)
    requires Local(save, local)
    ensures t.from in local ==> Local(save + [t], local)
  {
  }

  lemma DiscardDone(items: seq<Tx>, save: seq<Tx>, drop: seq<Tx>, all: set<Tx>, local: set<Address>)
    requires Covers(all, items, save, drop) && Cheapest(drop, items, all, local) && Local(save, local)
    ensures all - Members(drop) <= Members(items) + Members(save)
    ensures forall d :: d in drop ==> d in all && d.from !in local
    ensures forall d, t :: d in drop && t in all && t.from !in local && t !in drop ==> d.price <= t.price
    ensures |items| == 0 ==> forall t :: t in all && t.from !in local ==> t in drop
  {
    forall t | t in all && t.from !in local && t !in drop
      ensures t in items
    {
      assert t in Members(items) + Members(save) + Members(drop);
    }
  }
}

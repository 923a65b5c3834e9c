/**
 core/tx_pool.go: what the pool's loops do to one list object. The pool's proofs speak of the
 contents of its lists; here the calls the source makes on a list are run on the object itself
 and shown to leave and to return exactly those contents.
 */
module PoolObjects {
  import opened Wrappers
  import opened TxItems
  import opened PoolLists
  import opened PoolSteps
  import opened TxLists

  /** One account of promoteExecutables, on its queued list. */
  method PromoteList(q: TxList, a: Address, chain: ChainState, start: Nonce, local: bool, accountQueue: nat)
    returns (stale: seq<Tx>, costly: seq<Tx>, ready: seq<Tx>, dropped: seq<Tx>)
    requires q.Valid() && !q.strict
    modifies q, q.txs
    ensures q.Valid()
    ensures var e := Executable(old(q.txs.items), chain, a);
            var rest := e - ReadyPart(e, start).Keys;
            && Flattens(ready, ReadyPart(e, start))
            && q.txs.items == (if local then rest else CapTo(rest, accountQueue))
            && (forall t :: t in dropped <==> t in TxSet(rest) - TxSet(q.txs.items))
    ensures Flattens(stale, Below(old(q.txs.items), chain.NonceOf(a)))
    ensures multiset(costly) == multiset(TooCostly(old(q.txs.items), chain, a))
  {
    hide AtLeast, Below, Payable, Unpayable, Invalidated, ReadyPart, CapTo, IsCapped, Flattens, TxSet, TxList.Valid;
    stale := q.Forward(chain.NonceOf(a));
    var invalids;
    costly, invalids := q.Filter(chain.BalanceOf(a), chain.gasLimit);
    ready := q.Ready(start);
    ghost var rest := q.txs.items;
    dropped := [];
    if local {
      NothingGone(rest);
    } else {
      dropped := q.Cap(accountQueue);
      CapIsCapTo(q.txs.items, rest, accountQueue);
    }
  }

  lemma NothingGone(m: Items)
    ensures forall t :: t !in TxSet(m) - TxSet(m)
  {
  }

  /** One account of demoteUnexecutables, on its pending list: what is queued again comes in two parts. */
  method DemoteList(l: TxList, a: Address, chain: ChainState)
    returns (stale: seq<Tx>, costly: seq<Tx>, invalids: seq<Tx>, gapped: seq<Tx>)
    requires l.Valid() && l.strict
    modifies l, l.txs
    ensures l.Valid() && l.txs.items == Staying(old(l.txs.items), chain, a)
    ensures forall t :: t in invalids || t in gapped <==> t in TxSet(Returning(old(l.txs.items), chain, a))
    ensures Flattens(stale, Below(old(l.txs.items), chain.NonceOf(a)))
    ensures multiset(costly) == multiset(TooCostly(old(l.txs.items), chain, a))
  {
    hide TxSet, AtLeast, Below, Payable, Unpayable, Invalidated, CapTo, IsCapped, Staying, Returning, Flattens,
         TxList.Valid;
    ItemsKeyed(l);
    ghost var m := l.txs.items;
    var nonce := chain.NonceOf(a);
    stale := l.Forward(nonce);
    costly, invalids := l.Filter(chain.BalanceOf(a), chain.gasLimit);
    gapped := [];
    ghost var left := l.txs.items;
    var front := l.txs.Get(nonce);
    var n := l.txs.Len();
    if n > 0 && front.None? {
      gapped := l.Cap(0);
      CapIsCapTo(l.txs.items, left, 0);
      CapToNone(left);
      NoTx();
    }
    ReturningParts(m, chain, a, invalids, left, gapped);
  }

  lemma NoTx()
    ensures TxSet(map[]) == {}
  {
  }

  lemma ItemsKeyed(l: TxList)
    requires l.Valid()
    ensures Keyed(l.txs.items)
  {
  }

  lemma ReturningParts(m: Items, chain: ChainState, a: Address, invalids: seq<Tx>, left: Items, gapped: seq<Tx>)
    requires Keyed(m) && left == Payable(AtLeast(m, chain.NonceOf(a)), chain.BalanceOf(a), chain.gasLimit, true)
    requires multiset(invalids)
               == multiset(TxSet(Invalidated(AtLeast(m, chain.NonceOf(a)), chain.BalanceOf(a), chain.gasLimit, true)))
    requires if left != map[] && chain.NonceOf(a) !in left then forall t :: t in gapped <==> t in TxSet(left)
             else gapped == []
    ensures Staying(m, chain, a) == if left != map[] && chain.NonceOf(a) !in left then map[] else left
    ensures forall t :: t in invalids || t in gapped <==> t in TxSet(Returning(m, chain, a))
  {
    hide AtLeast, Payable, Invalidated;
    var from := AtLeast(m, chain.NonceOf(a));
    AtLeastKeyed(m, chain.NonceOf(a));
    NoTx();
    var stranded := Invalidated(from, chain.BalanceOf(a), chain.gasLimit, true);
    var gone := if left != map[] && chain.NonceOf(a) !in left then left else map[];
    forall t ensures t in invalids <==> t in TxSet(stranded) {
      assert t in invalids <==> t in multiset(invalids);
    }
    BackAgain(from, left, stranded, gone, chain.BalanceOf(a), chain.gasLimit);
    assert Staying(m, chain, a).Keys == left.Keys - gone.Keys;
    assert Returning(m, chain, a) == Payable(from, chain.BalanceOf(a), chain.gasLimit, false) - (left.Keys - gone.Keys);
    assert forall t :: t in gapped <==> t in TxSet(gone);
  }

  lemma AtLeastKeyed(m: Items, n: Nonce)
    requires Keyed(m)
    ensures Keyed(AtLeast(m, n))
  {
  }

  /** What is payable is what stays and what is stranded; a gap at the front sends all of it back. */
  lemma BackAgain(from: Items, left: Items, stranded: Items, gone: Items, costLimit: int, gasLimit: nat)
    requires Keyed(from) && left == Payable(from, costLimit, gasLimit, true)
    requires stranded == Invalidated(from, costLimit, gasLimit, true) && (gone == left || gone == map[])
    ensures var back := Payable(from, costLimit, gasLimit, false) - (left.Keys - gone.Keys);
            forall t :: t in TxSet(back) <==> t in TxSet(stranded) || t in TxSet(gone)
  {
    var back := Payable(from, costLimit, gasLimit, false) - (left.Keys - gone.Keys);
    TxSetMembers(back);
    TxSetMembers(stranded);
    TxSetMembers(gone);
  }

  /** The fairness loop's cut of one list: its last transaction goes. */
  method CutList(l: TxList) returns (drops: seq<Tx>)
    requires l.Valid() && l.txs.items != map[]
    modifies l.txs
    ensures l.Valid()
    ensures var m := old(l.txs.items); l.txs.items == m - {Greatest(m)} && drops == [m[Greatest(m)]]
    ensures forall lo: Nonce, hi: Nonce :: Spans(old(l.txs.items), lo, hi) ==> lo < hi && Spans(l.txs.items, lo, hi - 1)
  {
    hide IsCapped, CapTo, TxSet, TxList.Valid, Spans;
    ItemsKeyed(l);
    ghost var m := l.txs.items;
    var n := l.txs.Len();
    drops := l.Cap(n - 1);
    CapIsCapTo(l.txs.items, m, n - 1);
    CutDrops(m, l.txs.items, drops);
    forall lo: Nonce, hi: Nonce | Spans(m, lo, hi)
      ensures lo < hi && Spans(l.txs.items, lo, hi - 1)
    {
      NotEmpty(m, lo, hi);
      CapSpans(l.txs.items, m, lo, hi);
    }
  }

  lemma NotEmpty(m: Items, lo: Nonce, hi: Nonce)
    requires Spans(m, lo, hi) && m != map[]
    ensures lo < hi && |m| > 0
  {
  }

  lemma CutDrops(m: Items, kept: Items, drops: seq<Tx>)
    requires m != map[] && Keyed(m) && kept == CapTo(m, |m| - 1)
    requires forall t :: t in drops <==> t in TxSet(m) - TxSet(kept)
    requires forall i, j :: 0 <= i < j < |drops| ==> drops[i].nonce > drops[j].nonce
    ensures kept == m - {Greatest(m)} && drops == [m[Greatest(m)]]
  {
    var last := m[Greatest(m)];
    TxSetMembers(m);
    TxSetMembers(kept);
    assert forall t :: t in drops <==> t == last;
    assert last in drops;
    assert forall i :: 0 <= i < |drops| ==> drops[i] in drops;
    assert |drops| > 1 ==> drops[0].nonce > drops[1].nonce;
  }

  // ---- A table of list objects ----

  /**
   The pool's pending or queued lists: one list object for each account. Every operation is
   shown to change the contents of one account's list as the pool's proofs say, and no other.
   */
  class ListTable {
    const strict: bool
    var lists: map<Address, TxList>

    ghost function Repr(): set<object>
      reads this
    {
      (set a | a in lists :: lists[a] as object) + (set a | a in lists :: lists[a].txs as object)
    }

    /** No two accounts share a list object or what it is built from. */
    ghost predicate Apart()
      reads this
    {
      forall a, b :: a in lists && b in lists && a != b ==> lists[a] != lists[b] && lists[a].txs != lists[b].txs
    }

    ghost predicate Valid()
      reads this, Repr()
    {
      Apart() && forall a :: a in lists ==> lists[a].strict == strict && lists[a].Valid()
    }

    ghost function Contents(): Lists
      reads this, Repr()
    {
      map a | a in lists :: lists[a].txs.items
    }

    constructor (strict: bool)
      ensures Valid() && this.strict == strict && Contents() == map[] && Repr() == {}
    {
      this.strict := strict;
      lists := map[];
    }

    /** A list object changed in place: the table is as valid, and its contents differ at that account alone. */
    twostate lemma Touched(a: Address)
      requires lists == old(lists) && a in lists && old(Valid()) && lists[a].Valid()
      requires forall b :: b in lists && b != a ==> unchanged(lists[b]) && unchanged(lists[b].txs)
      ensures Valid() && Repr() == old(Repr()) && Contents() == old(Contents())[a := lists[a].txs.items]
    {
      hide TxSortedMap.Valid, CapsHold;
    }

    lemma Holds(a: Address)
      requires Valid() && a in lists
      ensures lists[a] in Repr() && lists[a].txs in Repr() && lists[a].Valid() && lists[a].strict == strict
      ensures a in Contents() && Contents()[a] == lists[a].txs.items && Apart()
    {
    }

    /** A new list object joins the table. */
    twostate lemma Joined(a: Address)
      requires a !in old(lists) && a in lists && lists == old(lists)[a := lists[a]] && old(Valid())
      requires fresh(lists[a]) && fresh(lists[a].txs) && lists[a].Valid() && lists[a].strict == strict
      requires forall b :: b in old(lists) ==> unchanged(lists[b]) && unchanged(lists[b].txs)
      ensures Valid() && fresh(Repr() - old(Repr())) && Contents() == old(Contents())[a := lists[a].txs.items]
    {
      hide TxSortedMap.Valid, CapsHold;
    }

    /** A list object leaves the table. */
    twostate lemma Left(a: Address)
      requires lists == old(lists) - {a} && old(Valid())
      requires forall b :: b in lists ==> unchanged(lists[b]) && unchanged(lists[b].txs)
      ensures Valid() && Repr() <= old(Repr()) && Contents() == old(Contents()) - {a}
    {
      hide TxSortedMap.Valid, CapsHold;
    }

    /** The list of an account, made if there is none. */
    method Get(a: Address) returns (l: TxList)
      requires Valid()
      modifies this
      ensures Valid() && fresh(Repr() - old(Repr())) && a in lists && lists[a] == l
      ensures Contents() == old(Contents())[a := ListOf(old(Contents()), a)]
    {
      hide TxList.Valid, Repr, Apart, Valid;
      KeysSame();
      if a !in lists {
        var made := new TxList(strict);
        lists := lists[a := made];
        Joined(a);
      } else {
        Holds(a);
        assert Contents()[a := Contents()[a]] == Contents();
      }
      l := lists[a];
    }

    lemma KeysSame()
      ensures Contents().Keys == lists.Keys
    {
    }

    method Add(tx: Tx, priceBump: nat) returns (inserted: bool, replaced: Option<Tx>)
      requires Valid()
      modifies this, Repr()
      ensures Valid() && fresh(Repr() - old(Repr()))
      ensures var l := ListOf(old(Contents()), tx.from);
              && (inserted <==>
                  (tx.nonce in l ==>
                     var prev := l[tx.nonce];
                     prev.price < tx.price && prev.price * (100 + priceBump) < 100 * (tx.price + 1)))
              && replaced == (if inserted && tx.nonce in l then Some(l[tx.nonce]) else None)
              && Contents() == old(Contents())[tx.from := if inserted then l[tx.nonce := tx] else l]
    {
      hide TxList.Valid, Repr, Valid, Contents;
      var l := Get(tx.from);
      Holds(tx.from);
      ghost var before := Contents();
      label Got:
      inserted, replaced := l.Add(tx, priceBump);
      Touched@Got(tx.from);
      TwiceSet(old(Contents()), tx.from, ListOf(old(Contents()), tx.from), l.txs.items);
    }

    /** Deletes the entry of a list that has become empty. */
    method Tidy(a: Address)
      requires Valid() && a in lists
      modifies this
      ensures Valid() && Repr() <= old(Repr())
      ensures Contents() == File(old(Contents()), a, old(Contents())[a])
    {
      hide TxList.Valid, Repr, Apart, Valid, Contents;
      Holds(a);
      var n := lists[a].txs.Len();
      if n == 0 {
        lists := lists - {a};
        Left(a);
      } else {
        Touched(a);
        SetSame(old(Contents()), a);
      }
    }

    method Remove(tx: Tx) returns (found: bool, invalids: seq<Tx>)
      requires Valid()
      modifies this, Repr()
      ensures Valid() && Repr() <= old(Repr())
      ensures var l := ListOf(old(Contents()), tx.from);
              && (found <==> tx.nonce in l)
              && (found ==> Contents() == File(old(Contents()), tx.from,
                                               if strict then Below(l, tx.nonce) else l - {tx.nonce}))
              && multiset(invalids) == (if strict && found then multiset(TxSet(Above(l, tx.nonce))) else multiset{})
    {
      hide TxList.Valid, Below, Above, TxSet, Repr, Valid, Contents;
      found, invalids := false, [];
      KeysSame();
      if tx.from in lists {
        Holds(tx.from);
        found, invalids := lists[tx.from].Remove(tx);
        Touched(tx.from);
        if found {
          ghost var l := lists[tx.from].txs.items;
          Tidy(tx.from);
          FileSet(old(Contents()), tx.from, l);
        }
      }
    }

    /** One account of promoteExecutables, on the table of queued lists. */
    method Promote(a: Address, chain: ChainState, virtual: map<Address, Nonce>, local: bool, accountQueue: nat)
      returns (stale: seq<Tx>, costly: seq<Tx>, ready: seq<Tx>, dropped: seq<Tx>)
      requires Valid() && !strict
      modifies this, Repr()
      ensures Valid() && Repr() <= old(Repr())
      ensures Flattens(ready, ReadyOf(old(Contents()), virtual, chain, a))
      ensures var left := LeftOf(old(Contents()), virtual, chain, a, local, accountQueue);
              Contents() == if a in old(lists) then File(old(Contents()), a, left) else old(Contents())
    {
      hide TxList.Valid, Repr, Valid, Contents, Executable, ReadyPart, CapTo, Flattens, TxSet, TooCostly, Below;
      stale, costly, ready, dropped := [], [], [], [];
      KeysSame();
      if a in lists {
        Holds(a);
        var start := VirtualNonce(virtual, chain, a);
        stale, costly, ready, dropped := PromoteList(lists[a], a, chain, start, local, accountQueue);
        Touched(a);
        ghost var l := lists[a].txs.items;
        Tidy(a);
        FileSet(old(Contents()), a, l);
      } else {
        NothingQueued(Contents(), virtual, chain, a, local, accountQueue);
        EmptyFlattens();
      }
    }

    /** One account of demoteUnexecutables, on the table of pending lists. */
    method Demote(a: Address, chain: ChainState)
      returns (stale: seq<Tx>, costly: seq<Tx>, invalids: seq<Tx>, gapped: seq<Tx>)
      requires Valid() && strict && a in lists
      modifies this, Repr()
      ensures Valid() && Repr() <= old(Repr())
      ensures var l := old(Contents())[a];
              && Contents() == File(old(Contents()), a, Staying(l, chain, a))
              && forall t :: t in invalids || t in gapped <==> t in TxSet(Returning(l, chain, a))
    {
      hide TxList.Valid, Repr, Valid, Contents, Staying, Returning, Flattens, TxSet, TooCostly, Below;
      Holds(a);
      stale, costly, invalids, gapped := DemoteList(lists[a], a, chain);
      Touched(a);
      ghost var l := lists[a].txs.items;
      Tidy(a);
      FileSet(old(Contents()), a, l);
    }

    /** One cut of the fairness loop, on the table of pending lists; the entry stays. */
    method Cut(a: Address) returns (drops: seq<Tx>)
      requires Valid() && a in lists && lists[a].txs.items != map[]
      modifies Repr()
      ensures Valid() && Repr() == old(Repr())
      ensures var l: Items := old(Contents())[a];
              l != map[] && drops == [l[Greatest(l)]] && Replaces(Contents(), old(Contents()), a, l - {Greatest(l)})
    {
      hide TxList.Valid, Repr, Valid, Contents, Spans;
      Holds(a);
      drops := CutList(lists[a]);
      Touched(a);
      FileReplaces(old(Contents()), a, lists[a].txs.items);
    }
  }

  lemma TwiceSet(m: Lists, a: Address, l: Items, k: Items)
    ensures m[a := l][a := k] == m[a := k]
  {
  }

  lemma SetSame(m: Lists, a: Address)
    requires a in m
    ensures m[a := m[a]] == m
  {
  }

  lemma EmptyFlattens()
    ensures Flattens([], map[])
  {
  }

  lemma FileSet(m: Lists, a: Address, l: Items)
    ensures File(m[a := l], a, l) == File(m, a, l)
  {
  }
}

/**
 What each operation of the transaction pool does to one account's pending and queued lists,
 and why that keeps the whole pool's partition and gap-free pending lists (core/tx_pool.go).
 */
module PoolSteps {
  import opened TxItems
  import opened PoolLists

  // ---- What one account's change does to the whole pool ----

  lemma ReplacesTwice(q2: Lists, q1: Lists, q0: Lists, a: Address, l1: Items, l2: Items)
    requires Replaces(q1, q0, a, l1) && Replaces(q2, q1, a, l2)
    ensures Replaces(q2, q0, a, l2)
  {
    forall b
      ensures ListOf(q2, b) == if b == a then l2 else ListOf(q0, b)
    {
      assert ListOf(q1, b) == if b == a then l1 else ListOf(q0, b);
    }
  }

  /** The part of m not in todo. */
  ghost function Done(m: Items, todo: set<Nonce>): Items {
    map n | n in m && n !in todo :: m[n]
  }

  lemma DoneStart(q: Items, m: Items)
    ensures q + Done(m, m.Keys) == q && q + Done(m, {}) == q + m
  {
  }

  lemma DoneStep(q: Items, m: Items, todo: set<Nonce>, n: Nonce)
    requires n in todo && todo <= m.Keys && q.Keys !! m.Keys
    ensures n !in q + Done(m, todo)
    ensures (q + Done(m, todo))[n := m[n]] == q + Done(m, todo - {n})
  {
  }

  /** Removing a pending transaction: the list is cut at its nonce, the rest moves to the queue. */
  lemma RemovesPending(all: set<Tx>, p: Lists, q: Lists, tx: Tx)
    requires Partition(all, p, q) && tx in all && tx.nonce in ListOf(p, tx.from)
    ensures var l, k := ListOf(p, tx.from), ListOf(q, tx.from);
            && Owned(Above(l, tx.nonce), tx.from) && Above(l, tx.nonce).Keys !! k.Keys
            && TxSet(Above(l, tx.nonce)) <= all - {tx}
            && forall p', q' ::
                 (Replaces(p', p, tx.from, Below(l, tx.nonce)) && Replaces(q', q, tx.from, k + Above(l, tx.nonce)))
                 ==> Partition(all - {tx}, p', q')
  {
    var a, n := tx.from, tx.nonce;
    var l, k := ListOf(p, a), ListOf(q, a);
    AccountOf(all, p, q, a);
    assert l[n] == tx;
    var l', k' := Below(l, n), k + Above(l, n);
    TxSetMembers(l);
    TxSetMembers(k);
    TxSetMembers(l');
    TxSetMembers(k');
    TxSetMembers(Above(l, n));
    forall p', q' | Replaces(p', p, a, l') && Replaces(q', q, a, k')
      ensures Partition(all - {tx}, p', q')
    {
      Refile(all, p, q, a, all - {tx}, p', q', l', k');
    }
  }

  /** Removing a queued transaction. */
  lemma RemovesQueued(all: set<Tx>, p: Lists, q: Lists, tx: Tx, q': Lists)
    requires Partition(all, p, q) && tx in all && tx.nonce !in ListOf(p, tx.from)
    requires Replaces(q', q, tx.from, ListOf(q, tx.from) - {tx.nonce})
    ensures tx.from in q && Partition(all - {tx}, p, q')
  {
    var a, n := tx.from, tx.nonce;
    var l, k := ListOf(p, a), ListOf(q, a);
    AccountOf(all, p, q, a);
    var k' := k - {n};
    TxSetMembers(l);
    TxSetMembers(k);
    TxSetMembers(k');
    FileReplaces(p, a, l);
    Refile(all, p, q, a, all - {tx}, p, q', l, k');
  }

  lemma RemovalGapFree(p: Lists, virtual: map<Address, Nonce>, chain: ChainState, tx: Tx, p': Lists)
    requires GapFree(p, virtual, chain) && tx.nonce in ListOf(p, tx.from)
    requires Replaces(p', p, tx.from, Below(ListOf(p, tx.from), tx.nonce))
    ensures VirtualNonce(virtual, chain, tx.from) > tx.nonce
    ensures GapFree(p', virtual[tx.from := tx.nonce], chain)
  {
    GapFreeAt(p, virtual, chain, tx.from);
    StaysGapFree(p, virtual, chain, tx.from, p', virtual[tx.from := tx.nonce], Below(ListOf(p, tx.from), tx.nonce));
  }

  // ---- Promotion and demotion of one account ----

  /** What Ready takes is one run of consecutive nonces. */
  lemma ReadySpans(q: Items, start: Nonce)
    ensures var r := ReadyPart(q, start);
            r != map[] ==> q != map[] && Spans(r, Least(q), RunEnd(q, Least(q))) && Least(q) < RunEnd(q, Least(q))
  {
  }

  /** Any change of one account's lists that loses exactly the transactions gone keeps the partition. */
  lemma Reshuffle(all: set<Tx>, p: Lists, q: Lists, a: Address, gone: set<Tx>, p': Lists, q': Lists, l': Items,
                  k': Items)
    requires Partition(all, p, q) && Replaces(p', p, a, l') && Replaces(q', q, a, k')
    requires Owned(l', a) && Owned(k', a) && l'.Keys !! k'.Keys
    requires gone <= TxSet(ListOf(p, a)) + TxSet(ListOf(q, a))
    requires TxSet(l') + TxSet(k') == TxSet(ListOf(p, a)) + TxSet(ListOf(q, a)) - gone
    ensures Partition(all - gone, p', q')
  {
    hide Partition, Replaces;
    AccountOf(all, p, q, a);
    TxSetMembers(ListOf(p, a));
    TxSetMembers(ListOf(q, a));
    Refile(all, p, q, a, all - gone, p', q', l', k');
  }

  /** A queued list without what is too old or unpayable. */
  function Executable(q: Items, chain: ChainState, a: Address): Items {
    Payable(AtLeast(q, chain.NonceOf(a)), chain.BalanceOf(a), chain.gasLimit, false)
  }

  /** The transactions a promotion drops as too old, and as unpayable. */
  function TooOld(q: Items, chain: ChainState, a: Address): set<Tx> {
    TxSet(Below(q, chain.NonceOf(a)))
  }

  function TooCostly(q: Items, chain: ChainState, a: Address): set<Tx> {
    TxSet(Unpayable(AtLeast(q, chain.NonceOf(a)), chain.BalanceOf(a), chain.gasLimit))
  }

  /** A part of an account's list, and what is left of the list without it. */
  lemma SplitOwned(m: Items, r: Items, rest: Items, a: Address)
    requires Owned(m, a) && (forall n :: n in r ==> n in m && r[n] == m[n]) && rest == m - r.Keys
    ensures Owned(r, a) && Owned(rest, a)
    ensures TxSet(m) == TxSet(r) + TxSet(rest) && TxSet(r) !! TxSet(rest)
  {
    TxSetMembers(m);
    TxSetMembers(r);
    TxSetMembers(rest);
  }

  lemma ExecutableSplits(q: Items, chain: ChainState, a: Address)
    requires Owned(q, a)
    ensures var e := Executable(q, chain, a);
            && Owned(e, a) && e.Keys <= q.Keys
            && TooOld(q, chain, a) <= TxSet(q) && TooCostly(q, chain, a) <= TxSet(q)
            && TxSet(e) == TxSet(q) - TooOld(q, chain, a) - TooCostly(q, chain, a)
  {
    hide Owned, TxSet;
    var n, hi := chain.NonceOf(a), AtLeast(q, chain.NonceOf(a));
    SplitOwned(q, Below(q, n), hi, a);
    SplitOwned(hi, Unpayable(hi, chain.BalanceOf(a), chain.gasLimit), Executable(q, chain, a), a);
  }

  /** Taking the ready run out of a list and capping the rest. */
  lemma ReadySplits(e: Items, a: Address, start: Nonce, k: nat)
    requires Owned(e, a)
    ensures var r := ReadyPart(e, start);
            var rest := e - r.Keys;
            && Owned(r, a) && Owned(rest, a) && Owned(CapTo(rest, k), a)
            && TxSet(e) == TxSet(r) + TxSet(rest) && TxSet(r) !! TxSet(rest)
            && TxSet(CapTo(rest, k)) <= TxSet(rest)
            && r.Keys <= e.Keys && CapTo(rest, k).Keys <= rest.Keys
  {
    hide Owned, TxSet, CapTo, RunEnd, Least;
    var r := ReadyPart(e, start);
    var rest := e - r.Keys;
    SplitOwned(e, r, rest, a);
    CapToSub(rest, k);
    SplitOwned(rest, CapTo(rest, k), rest - CapTo(rest, k).Keys, a);
  }

  lemma CapToSub(m: Items, k: nat)
    ensures forall n :: n in CapTo(m, k) ==> n in m && CapTo(m, k)[n] == m[n]
  {
    CapToCaps(m, k);
  }

  /** Two lists of one account with no common nonce, joined. */
  lemma JoinOwned(l: Items, r: Items, a: Address)
    requires Owned(l, a) && Owned(r, a) && l.Keys !! r.Keys
    ensures Owned(l + r, a) && TxSet(l + r) == TxSet(l) + TxSet(r)
  {
    TxSetMembers(l);
    TxSetMembers(r);
    TxSetMembers(l + r);
  }

  lemma PromotionPartitions(all: set<Tx>, p: Lists, q: Lists, a: Address, chain: ChainState, start: Nonce,
                            kept: Items, p': Lists, q': Lists)
    requires Partition(all, p, q)
    requires var e := Executable(ListOf(q, a), chain, a);
             var r := ReadyPart(e, start);
             && Owned(kept, a) && kept.Keys <= (e - r.Keys).Keys && TxSet(kept) <= TxSet(e - r.Keys)
             && Replaces(p', p, a, ListOf(p, a) + r) && Replaces(q', q, a, kept)
    ensures var e := Executable(ListOf(q, a), chain, a);
            var rest := TxSet(e - ReadyPart(e, start).Keys);
            Partition(all - TooOld(ListOf(q, a), chain, a) - TooCostly(ListOf(q, a), chain, a) - (rest - TxSet(kept)),
                p', q')
  {
    hide Partition, Replaces, Owned, Executable, ReadyPart, TxSet, TooOld, TooCostly;
    var l, k := ListOf(p, a), ListOf(q, a);
    AccountOf(all, p, q, a);
    ExecutableSplits(k, chain, a);
    var e := Executable(k, chain, a);
    var r := ReadyPart(e, start);
    ReadySplits(e, a, start, 0);
    JoinOwned(l, r, a);
    DisjointLists(l, k, a);
    var old', costly, rest := TooOld(k, chain, a), TooCostly(k, chain, a), TxSet(e - r.Keys);
    PromotionSets(TxSet(l), TxSet(k), old', costly, TxSet(r), rest, TxSet(kept));
    Reshuffle(all, p, q, a, old' + costly + (rest - TxSet(kept)), p', q', l + r, kept);
    assert all - (old' + costly + (rest - TxSet(kept))) == all - old' - costly - (rest - TxSet(kept));
  }

  lemma PromotionSets(l: set<Tx>, k: set<Tx>, old': set<Tx>, costly: set<Tx>, r: set<Tx>, rest: set<Tx>, kept: set<Tx>)
    requires l !! k && old' <= k && costly <= k && k - old' - costly == r + rest && r !! rest && kept <= rest
    ensures l + r + kept == l + k - (old' + costly + (rest - kept))
    ensures old' + costly + (rest - kept) <= l + k
  {
  }

  lemma DisjointLists(l: Items, k: Items, a: Address)
    requires Owned(l, a) && Owned(k, a) && l.Keys !! k.Keys
    ensures TxSet(l) !! TxSet(k)
  {
    TxSetMembers(l);
    TxSetMembers(k);
  }

  /** Promotion appends exactly the run from the virtual nonce on, so pending lists stay gap-free. */
  lemma PromotionGapFree(all: set<Tx>, p: Lists, q: Lists, a: Address, virtual: map<Address, Nonce>, chain: ChainState)
    requires Partition(all, p, q) && GapFree(p, virtual, chain)
    ensures var v := VirtualNonce(virtual, chain, a);
            var e := Executable(ListOf(q, a), chain, a);
            && Spans(ReadyPart(e, v), v, RunEnd(e, v))
            && Spans(ListOf(p, a) + ReadyPart(e, v), chain.NonceOf(a), RunEnd(e, v))
  {
    var v := VirtualNonce(virtual, chain, a);
    var e := Executable(ListOf(q, a), chain, a);
    AccountOf(all, p, q, a);
    GapFreeAt(p, virtual, chain, a);
    forall n | n in e ensures v <= n {
      assert n in ListOf(q, a) && chain.NonceOf(a) <= n;
      assert n !in ListOf(p, a);
    }
    ReadyFromStart(e, v);
  }

  /** What demotion leaves pending: nothing past the first unpayable nonce, nothing behind a front gap. */
  function Staying(l: Items, chain: ChainState, a: Address): Items {
    var e := Payable(AtLeast(l, chain.NonceOf(a)), chain.BalanceOf(a), chain.gasLimit, true);
    if e != map[] && chain.NonceOf(a) !in e then map[] else e
  }

  /** What it moves back to the queue. */
  function Returning(l: Items, chain: ChainState, a: Address): Items {
    Executable(l, chain, a) - Staying(l, chain, a).Keys
  }

  lemma DemotionSplits(l: Items, chain: ChainState, a: Address)
    requires Owned(l, a)
    ensures var s, r := Staying(l, chain, a), Returning(l, chain, a);
            && Owned(s, a) && Owned(r, a) && s.Keys <= l.Keys && r.Keys <= l.Keys && s.Keys !! r.Keys
            && TooOld(l, chain, a) <= TxSet(l) && TooCostly(l, chain, a) <= TxSet(l)
            && TxSet(s) + TxSet(r) == TxSet(l) - TooOld(l, chain, a) - TooCostly(l, chain, a)
  {
    hide Owned, TxSet, TooOld, TooCostly;
    ExecutableSplits(l, chain, a);
    SplitOwned(Executable(l, chain, a), Staying(l, chain, a), Returning(l, chain, a), a);
  }

  lemma DemotionPartitions(all: set<Tx>, p: Lists, q: Lists, a: Address, chain: ChainState, p': Lists, q': Lists)
    requires Partition(all, p, q)
    requires Replaces(p', p, a, Staying(ListOf(p, a), chain, a))
    requires Replaces(q', q, a, ListOf(q, a) + Returning(ListOf(p, a), chain, a))
    ensures Partition(all - TooOld(ListOf(p, a), chain, a) - TooCostly(ListOf(p, a), chain, a), p', q')
  {
    hide Partition, Replaces, Owned, Staying, Returning, TxSet, TooOld, TooCostly;
    var l, k := ListOf(p, a), ListOf(q, a);
    var s, r := Staying(l, chain, a), Returning(l, chain, a);
    AccountOf(all, p, q, a);
    DemotionSplits(l, chain, a);
    JoinOwned(k, r, a);
    DisjointLists(l, k, a);
    var gone := TooOld(l, chain, a) + TooCostly(l, chain, a);
    DemotionSets(TxSet(l), TxSet(k), TooOld(l, chain, a), TooCostly(l, chain, a), TxSet(s), TxSet(r));
    Reshuffle(all, p, q, a, gone, p', q', s, k + r);
    assert all - gone == all - TooOld(l, chain, a) - TooCostly(l, chain, a);
  }

  lemma DemotionSets(l: set<Tx>, k: set<Tx>, old': set<Tx>, costly: set<Tx>, s: set<Tx>, r: set<Tx>)
    requires l !! k && old' <= l && costly <= l && s + r == l - old' - costly
    ensures s + (k + r) == l + k - (old' + costly) && old' + costly <= l + k
  {
    forall x
      ensures x in s + (k + r) <==> x in l + k - (old' + costly)
    {
      assert x in s + r <==> x in l - old' - costly;
    }
  }

  /** An interval reaching no higher than the state nonce stays as an interval from it. */
  lemma DemotionRoots(l: Items, lo: Nonce, hi: Nonce, chain: ChainState, a: Address) returns (end: Nonce)
    requires Spans(l, lo, hi) && lo <= chain.NonceOf(a)
    ensures Spans(Staying(l, chain, a), chain.NonceOf(a), end)
  {
    var n := chain.NonceOf(a);
    var top := if n <= hi then hi else n;
    assert Spans(AtLeast(l, n), n, top);
    end := FilterSpans(AtLeast(l, n), n, top, chain.BalanceOf(a), chain.gasLimit);
  }

  /** The two batches demotion moves, and that together they are what returns to the queue. */
  lemma DemotedParts(l: Items, chain: ChainState, a: Address)
    requires Owned(l, a)
    ensures var hi := AtLeast(l, chain.NonceOf(a));
            var inv := Invalidated(hi, chain.BalanceOf(a), chain.gasLimit, true);
            var left := Payable(hi, chain.BalanceOf(a), chain.gasLimit, true);
            var front := left != map[] && chain.NonceOf(a) !in left;
            && Owned(inv, a) && Owned(left, a) && inv.Keys !! left.Keys
            && inv.Keys <= l.Keys && left.Keys <= l.Keys
            && TxSet(inv) <= TxSet(l) - TooOld(l, chain, a) - TooCostly(l, chain, a)
            && TxSet(left) <= TxSet(l) - TooOld(l, chain, a) - TooCostly(l, chain, a)
            && Returning(l, chain, a) == (if front then inv + left else inv)
            && Staying(l, chain, a) == (if front then map[] else left)
  {
    hide Owned, TxSet, TooOld, TooCostly, Stranded;
    var hi := AtLeast(l, chain.NonceOf(a));
    var inv := Invalidated(hi, chain.BalanceOf(a), chain.gasLimit, true);
    var left := Payable(hi, chain.BalanceOf(a), chain.gasLimit, true);
    var e := Executable(l, chain, a);
    ExecutableSplits(l, chain, a);
    SplitOwned(e, inv, left, a);
    assert e == inv + left;
  }

  lemma DemoteListOf(q: Lists, q0: Lists, a: Address, l: Items)
    requires Replaces(q, q0, a, l)
    ensures ListOf(q, a) == l
  {
  }

  lemma SpansUnique(m: Items, lo: Nonce, hi: Nonce, lo': Nonce, hi': Nonce)
    requires Spans(m, lo, hi) && Spans(m, lo', hi') && m != map[]
    ensures lo == lo' && hi == hi'
  {
    assert lo in m && lo' in m && hi - 1 in m && hi' - 1 in m;
  }

  lemma RunBounds(l: Items, run: Items, first: Nonce, end: Nonce)
    requires Spans(run, first, end)
    ensures first <= end && l + Below(run, first) == l && Below(run, end) == run
  {
  }

  lemma RunStep(all: set<Tx>, p: Lists, p0: Lists, a: Address, l: Items, run: Items, first: Nonce, end: Nonce, n: Nonce)
    requires Replaces(p, p0, a, l + Below(run, n)) && Owned(run, a) && TxSet(run) <= all
    requires Spans(run, first, end) && first <= n < end && run.Keys !! l.Keys
    ensures n in run && run[n].from == a && run[n].nonce == n && all + {run[n]} == all
    ensures ListOf(p, a) == l + Below(run, n) && n !in l + Below(run, n)
    ensures (l + Below(run, n))[n := run[n]] == l + Below(run, n + 1)
  {
  }

  lemma DemoteStep(all: set<Tx>, q: Lists, q0: Lists, a: Address, l: Items, moved: Items, n: Nonce)
    requires Replaces(q, q0, a, l) && Owned(moved, a) && n in moved && TxSet(moved) <= all
    ensures ListOf(q, a) == l && moved[n].from == a && moved[n].nonce == n
    ensures all + {moved[n]} == all
  {
  }

  // ---- Eviction ----

  lemma CountStart(m: Lists)
    ensures Total(m - m.Keys) == 0 && m - {} == m
  {
    assert m - m.Keys == map[];
    assert Sizes(map[]) == map[];
  }

  lemma CountStep(m: Lists, todo: set<Address>, a: Address)
    requires a in todo && todo <= m.Keys
    ensures Total(m - (todo - {a})) == Total(m - todo) + |m[a]|
  {
    assert m - (todo - {a}) == (m - todo)[a := m[a]];
    TotalUpdate(m - todo, a, m[a]);
  }

  lemma CutPartitions(all: set<Tx>, p: Lists, q: Lists, a: Address)
    requires Partition(all, p, q) && a in p && p[a] != map[]
    ensures var n := Greatest(p[a]); Partition(all - {p[a][n]}, p[a := p[a] - {n}], q)
  {
    hide Partition, Replaces, Owned, TxSet;
    var l, n := p[a], Greatest(p[a]);
    AccountOf(all, p, q, a);
    SplitOwned(l, map[n := l[n]], l - {n}, a);
    assert TxSet(map[n := l[n]]) == {l[n]} by { SingleTx(n, l[n]); }
    FileReplaces(p, a, l - {n});
    FileReplaces(q, a, ListOf(q, a));
    DisjointLists(l, ListOf(q, a), a);
    CutSets(TxSet(l), TxSet(ListOf(q, a)), l[n], TxSet(l - {n}));
    Reshuffle(all, p, q, a, {l[n]}, p[a := l - {n}], q, l - {n}, ListOf(q, a));
  }

  lemma SingleTx(n: Nonce, t: Tx)
    ensures TxSet(map[n := t]) == {t}
  {
    assert map[n := t][n] in TxSet(map[n := t]);
  }

  lemma CutSets(l: set<Tx>, k: set<Tx>, t: Tx, rest: set<Tx>)
    requires l !! k && l == {t} + rest && t !in rest
    ensures rest + k == l + k - {t} && {t} <= l + k
  {
  }

  lemma CutGapFree(p: Lists, virtual: map<Address, Nonce>, chain: ChainState, a: Address)
    requires GapFree(p, virtual, chain) && a in p && p[a] != map[]
    ensures var n := Greatest(p[a]);
            && VirtualNonce(virtual, chain, a) == n + 1
            && GapFree(p[a := p[a] - {n}], virtual[a := n], chain)
  {
    var n := Greatest(p[a]);
    GapFreeAt(p, virtual, chain, a);
    FileReplaces(p, a, p[a] - {n});
    assert VirtualNonce(virtual, chain, a) - 1 in p[a];
    StaysGapFree(p, virtual, chain, a, p[a := p[a] - {n}], virtual[a := n], p[a] - {n});
  }

  lemma ElementsNone(s: seq<Address>)
    ensures Elements(s[..0]) == {}
  {
  }

  lemma ElementsAll(s: seq<Address>)
    ensures s[..|s|] == s && forall a :: a in Elements(s) <==> a in s
  {
  }

  // ---- Equalisation ----

  /** Everyone not among the offenders is at most at the given length. */
  ghost predicate OthersWithin(p: Lists, locals: set<Address>, offenders: seq<Address>, length: nat) {
    forall a :: a in p && a !in locals && a !in offenders ==> |p[a]| <= length
  }

  /** Distinct non-local accounts whose lists reach the level. */
  ghost predicate Reaching(p: Lists, locals: set<Address>, offenders: seq<Address>, level: nat) {
    && (forall i, j :: 0 <= i < j < |offenders| ==> offenders[i] != offenders[j])
    && (forall o :: o in offenders ==> o in p && o !in locals && level <= |p[o]|)
  }

  /** The accounts still to be penalised, by length: all those over the slots but the offenders. */
  ghost predicate Waiting(p: Lists, locals: set<Address>, slots: nat, offenders: seq<Address>, spammers: map<Address,
                          nat>) {
    && (forall a :: a in spammers ==>
          a in p && a !in locals && a !in offenders && spammers[a] == |p[a]| && slots < |p[a]|)
    && (forall a :: a in p && a !in locals && slots < |p[a]| ==> a in spammers || a in offenders)
  }

  /** Popping a longest account: no one else waiting, or never listed, is longer. */
  lemma PopLongest(p: Lists, locals: set<Address>, slots: nat, offenders: seq<Address>, spammers: map<Address, nat>,
                   level: nat, o: Address)
    requires Waiting(p, locals, slots, offenders, spammers) && OthersWithin(p, locals, offenders, level)
    requires o in spammers && forall b :: b in spammers ==> spammers[b] <= spammers[o]
    ensures slots < |p[o]| <= level && o in p && o !in locals && o !in offenders
    ensures Waiting(p, locals, slots, offenders + [o], spammers - {o})
    ensures OthersWithin(p, locals, offenders, |p[o]|) && OthersWithin(p, locals, offenders + [o], |p[o]|)
  {
  }

  lemma NobodyYet(p: Lists, locals: set<Address>, level: nat)
    ensures Reaching(p, locals, [], level)
  {
  }

  /** An offender at the level joins the others. */
  lemma JoinOffender(p: Lists, locals: set<Address>, offenders: seq<Address>, o: Address, level: nat)
    requires Reaching(p, locals, offenders, level) && o in p && o !in locals && o !in offenders && level <= |p[o]|
    ensures Reaching(p, locals, offenders + [o], level)
  {
    var s := offenders + [o];
    forall i, j | 0 <= i < j < |s|
      ensures s[i] != s[j]
    {
      assert s[i] == offenders[i];
      assert offenders[i] in offenders;
    }
  }

  lemma ReachingLower(p: Lists, locals: set<Address>, offenders: seq<Address>, level: nat)
    requires Reaching(p, locals, offenders, level + 1)
    ensures Reaching(p, locals, offenders, level)
    ensures forall o :: o in offenders ==> o in p && o !in locals && level < |p[o]|
    ensures forall i, j :: 0 <= i < j < |offenders| ==> offenders[i] != offenders[j]
  {
  }

  lemma OthersMore(p: Lists, locals: set<Address>, offenders: seq<Address>, length: nat, level: nat)
    requires OthersWithin(p, locals, offenders, length) && length <= level
    ensures OthersWithin(p, locals, offenders, level)
    ensures forall a :: a in p && a !in locals && a !in offenders ==> |p[a]| <= level
  {
  }

  /** The length of a levelled list of a non-local account. */
  lemma LevelOf(p: Lists, locals: set<Address>, level: nat, o: Address)
    requires o in p && o !in locals
    ensures o in Leveled(p, locals, level)
    ensures |Leveled(p, locals, level)[o]| == if |p[o]| <= level then |p[o]| else level
  {
    LeveledSize(p, locals, level, o);
  }

  lemma LevelOfAll(p: Lists, locals: set<Address>, offenders: seq<Address>, level: nat)
    requires Reaching(p, locals, offenders, level)
    ensures forall o :: o in offenders ==> o in Leveled(p, locals, level) && |Leveled(p, locals, level)[o]| == level
  {
    forall o | o in offenders
      ensures o in Leveled(p, locals, level) && |Leveled(p, locals, level)[o]| == level
    {
      LeveledSize(p, locals, level, o);
    }
  }

  /** Once the level is down to the slots, so is every non-local list. */
  lemma AllWithin(p: Lists, locals: set<Address>, offenders: seq<Address>, slots: nat, level: nat)
    requires OthersWithin(p, locals, offenders, slots)
    ensures level <= slots ==> forall a :: a in Leveled(p, locals, level) && a !in locals ==>
              |Leveled(p, locals, level)[a]| <= slots
  {
    forall a | a in Leveled(p, locals, level) && a !in locals
      ensures level <= slots ==> |Leveled(p, locals, level)[a]| <= slots
    {
      LeveledSize(p, locals, level, a);
    }
  }

  lemma WithinNow(p: Lists, locals: set<Address>, level: nat)
    requires OthersWithin(p, locals, [], level)
    ensures Leveled(p, locals, level) == p
  {
    LeveledHigh(p, locals, level);
  }

  lemma NobodyWaits(p: Lists, locals: set<Address>, slots: nat, offenders: seq<Address>)
    requires Waiting(p, locals, slots, offenders, map[])
    ensures OthersWithin(p, locals, offenders, slots)
  {
  }

  lemma BoundedByTotal(p: Lists, locals: set<Address>)
    ensures Total(p) >= 0 && OthersWithin(p, locals, [], Total(p))
  {
    TotalBounds(p);
    assert forall a :: a in p ==> ListOf(p, a) == p[a];
  }

  lemma SpammerStep(p: Lists, locals: set<Address>, slots: nat, todo: set<Address>, spammers: map<Address, nat>,
                    a: Address)
    requires a in todo && todo <= p.Keys && Listed(p, locals, slots, todo, spammers)
    ensures Listed(p, locals, slots, todo - {a},
                   if a !in locals && |p[a]| > slots then spammers[a := |p[a]|] else spammers)
  {
  }

  /** The spam order as it is being assembled: todo has not been looked at. */
  ghost predicate Listed(p: Lists, locals: set<Address>, slots: nat, todo: set<Address>, spammers: map<Address, nat>) {
    && (forall a :: a in spammers ==> a in p && a !in todo && a !in locals && spammers[a] == |p[a]| && slots < |p[a]|)
    && (forall a :: a in p && a !in locals && slots < |p[a]| ==> a in spammers || a in todo)
  }

  lemma ListedDone(p: Lists, locals: set<Address>, slots: nat, spammers: map<Address, nat>)
    requires Listed(p, locals, slots, {}, spammers)
    ensures Waiting(p, locals, slots, [], spammers)
  {
  }

  lemma ListedStart(p: Lists, locals: set<Address>, slots: nat)
    ensures Listed(p, locals, slots, p.Keys, map[])
  {
  }

  // ---- Limiting the queue ----

  lemma CapToAll(l: Items)
    ensures CapTo(l, |l|) == l
  {
  }

  lemma CapToNone(l: Items)
    ensures CapTo(l, 0) == map[]
  {
    CapToCaps(l, 0);
  }

  lemma OneOf(m: Items, n: Nonce)
    requires n in m
    ensures m[n] in TxSet(m)
  {
  }

  /** The highest queued nonce of an account is the next to go. */
  lemma ShortenStep(all: set<Tx>, p: Lists, q: Lists, q0: Lists, a: Address, l: Items, k: nat)
    requires Partition(all, p, q) && Replaces(q, q0, a, CapTo(l, k)) && 0 < k <= |l|
    ensures a in q && q[a] != map[] && ListOf(q, a) == q[a] == CapTo(l, k)
    ensures var tx := q[a][Greatest(q[a])];
            && tx in all && tx.from == a && tx.nonce == Greatest(q[a]) && tx.nonce !in ListOf(p, a)
            && q[a] - {tx.nonce} == CapTo(l, k - 1) && |q[a] - {tx.nonce}| == |q[a]| - 1
  {
    hide Partition, CapTo, TxSet;
    CapToStep(l, k - 1);
    assert ListOf(q, a) == CapTo(l, k);
    AccountOf(all, p, q, a);
    OneOf(q[a], Greatest(q[a]));
  }

  /** Local lists are untouched, accounts not yet visited too, and every list kept its lowest nonces. */
  ghost predicate Trimmed(q: Lists, q0: Lists, locals: set<Address>, todo: set<Address>) {
    && todo !! locals
    && (forall a :: a in locals || a in todo ==> ListOf(q, a) == ListOf(q0, a))
    && (forall a :: ListOf(q, a) == CapTo(ListOf(q0, a), |ListOf(q, a)|))
  }

  /** Every other account has nothing queued. */
  ghost predicate Emptied(q: Lists, locals: set<Address>, todo: set<Address>) {
    forall a :: a !in locals && a !in todo ==> ListOf(q, a) == map[]
  }

  lemma TrimmedStart(q: Lists, locals: set<Address>)
    ensures var todo := set a | a in q && a !in locals;
            Trimmed(q, q, locals, todo) && Emptied(q, locals, todo)
  {
    forall a ensures CapTo(ListOf(q, a), |ListOf(q, a)|) == ListOf(q, a) {
      CapToAll(ListOf(q, a));
    }
  }

  lemma TrimmedStep(q': Lists, q: Lists, q0: Lists, locals: set<Address>, todo: set<Address>, a: Address, k: nat)
    requires Trimmed(q, q0, locals, todo) && a in todo && k <= |ListOf(q, a)|
    requires Replaces(q', q, a, CapTo(ListOf(q, a), k))
    ensures Trimmed(q', q0, locals, todo - {a})
    ensures k == 0 && Emptied(q, locals, todo) ==> Emptied(q', locals, todo - {a})
  {
    CapToCaps(ListOf(q, a), k);
    forall b
      ensures ListOf(q', b) == CapTo(ListOf(q0, b), |ListOf(q', b)|)
      ensures b in locals || b in todo - {a} ==> ListOf(q', b) == ListOf(q0, b)
    {
      assert ListOf(q', b) == if b == a then CapTo(ListOf(q, a), k) else ListOf(q, b);
    }
    if k == 0 && Emptied(q, locals, todo) {
      forall b | b !in locals && b !in todo - {a} ensures ListOf(q', b) == map[] {
        assert ListOf(q', b) == if b == a then CapTo(ListOf(q, a), k) else ListOf(q, b);
      }
    }
  }

  lemma TrimmedLists(q: Lists, q0: Lists, locals: set<Address>, todo: set<Address>)
    requires Trimmed(q, q0, locals, todo)
    ensures forall a :: a in locals ==> ListOf(q, a) == ListOf(q0, a)
    ensures forall a :: ListOf(q, a) == CapTo(ListOf(q0, a), |ListOf(q, a)|)
    ensures Emptied(q, locals, {}) ==> forall a :: a !in locals ==> ListOf(q, a) == map[]
  {
  }

  // ---- Replacement and insertion ----

  /** Replacing a pending transaction of the same nonce. */
  lemma ReplacementPartitions(all: set<Tx>, p: Lists, q: Lists, tx: Tx)
    requires Partition(all, p, q) && tx !in all && tx.nonce in ListOf(p, tx.from)
    ensures var l := ListOf(p, tx.from);
            && l[tx.nonce] in all && l[tx.nonce].from == tx.from
            && Partition(all - {l[tx.nonce]} + {tx}, p[tx.from := l[tx.nonce := tx]], q)
  {
    var a, l := tx.from, ListOf(p, tx.from);
    AccountOf(all, p, q, a);
    assert l[tx.nonce] in TxSet(l);
    FileReplaces(p, a, l[tx.nonce := tx]);
    FileReplaces(q, a, ListOf(q, a));
    PutMembers(l, tx);
    DisjointLists(l, ListOf(q, a), a);
    AllMembers(all, p, q, a);
    Refile(all, p, q, a, all - {l[tx.nonce]} + {tx}, p[a := l[tx.nonce := tx]], q, l[tx.nonce := tx], ListOf(q, a));
  }

  /** Queueing a transaction whose nonce is not pending, replacing a queued one of its nonce. */
  lemma InsertionPartitions(all: set<Tx>, p: Lists, q: Lists, tx: Tx, q': Lists)
    requires Partition(all, p, q) && tx !in all && tx.nonce !in ListOf(p, tx.from)
    requires Replaces(q', q, tx.from, ListOf(q, tx.from)[tx.nonce := tx])
    ensures var k := ListOf(q, tx.from);
            && (tx.nonce in k ==> k[tx.nonce] in all && k[tx.nonce].from == tx.from)
            && Partition((if tx.nonce in k then all - {k[tx.nonce]} else all) + {tx}, p, q')
  {
    var a, k := tx.from, ListOf(q, tx.from);
    AccountOf(all, p, q, a);
    assert tx.nonce in k ==> k[tx.nonce] in TxSet(k);
    FileReplaces(p, a, ListOf(p, a));
    PutMembers(k, tx);
    DisjointLists(ListOf(p, a), k, a);
    AllMembers(all, p, q, a);
    Refile(all, p, q, a, (if tx.nonce in k then all - {k[tx.nonce]}
        else all) + {tx}, p, q', ListOf(p, a), k[tx.nonce := tx]);
  }

  lemma PutMembers(l: Items, tx: Tx)
    requires Owned(l, tx.from)
    ensures Owned(l[tx.nonce := tx], tx.from)
    ensures TxSet(l[tx.nonce := tx]) == (if tx.nonce in l then TxSet(l) - {l[tx.nonce]} else TxSet(l)) + {tx}
  {
    TxSetMembers(l);
    TxSetMembers(l[tx.nonce := tx]);
  }

  lemma AllMembers(all: set<Tx>, p: Lists, q: Lists, a: Address)
    requires Partition(all, p, q)
    ensures forall t: Tx :: t.from == a ==> (t in all <==> t in TxSet(ListOf(p, a)) || t in TxSet(ListOf(q, a)))
    ensures forall t :: t in TxSet(ListOf(p, a)) || t in TxSet(ListOf(q, a)) ==> t.from == a
  {
    AccountOf(all, p, q, a);
    TxSetMembers(ListOf(p, a));
    TxSetMembers(ListOf(q, a));
  }

  lemma ReplacementGapFree(p: Lists, virtual: map<Address, Nonce>, chain: ChainState, tx: Tx)
    requires GapFree(p, virtual, chain) && tx.nonce in ListOf(p, tx.from)
    ensures GapFree(p[tx.from := ListOf(p, tx.from)[tx.nonce := tx]], virtual, chain)
  {
    var a, l := tx.from, ListOf(p, tx.from)[tx.nonce := tx];
    GapFreeAt(p, virtual, chain, a);
    FileReplaces(p, a, l);
    StaysGapFree(p, virtual, chain, a, p[a := l], virtual, l);
  }

  // ---- A new head ----

  /** Going forward: no account's nonce goes down. */
  ghost predicate Advances(chain: ChainState, next: ChainState) {
    forall a :: chain.NonceOf(a) <= next.NonceOf(a)
  }

  ghost predicate Rooted(l: Items, n: Nonce) {
    exists end: Nonce :: Spans(l, n, end)
  }

  ghost predicate Reaches(l: Items, n: Nonce) {
    exists lo: Nonce, hi: Nonce :: lo <= n && Spans(l, lo, hi)
  }

  /** Each list starts at its account's nonce, but those not yet visited may start lower. */
  ghost predicate AllRooted(p: Lists, chain: ChainState, todo: set<Address>) {
    && (forall a :: a !in todo ==> Rooted(ListOf(p, a), chain.NonceOf(a)))
    && (forall a :: a in todo ==> Reaches(ListOf(p, a), chain.NonceOf(a)))
  }

  lemma AdvanceReaches(p: Lists, virtual: map<Address, Nonce>, chain: ChainState, next: ChainState)
    requires GapFree(p, virtual, chain) && Advances(chain, next)
    ensures AllRooted(p, next, p.Keys)
  {
    forall a
      ensures a in p ==> Reaches(ListOf(p, a), next.NonceOf(a))
      ensures a !in p ==> Rooted(ListOf(p, a), next.NonceOf(a))
    {
      GapFreeAt(p, virtual, chain, a);
      assert a !in p ==> Spans(ListOf(p, a), next.NonceOf(a), next.NonceOf(a));
    }
  }

  lemma DemotionRootsOne(p: Lists, chain: ChainState, todo: set<Address>, a: Address, p': Lists)
    requires AllRooted(p, chain, todo) && a in todo
    requires p' == File(p, a, Staying(ListOf(p, a), chain, a))
    ensures AllRooted(p', chain, todo - {a})
  {
    FileReplaces(p, a, Staying(ListOf(p, a), chain, a));
    var lo: Nonce, hi: Nonce :| lo <= chain.NonceOf(a) && Spans(ListOf(p, a), lo, hi);
    var end := DemotionRoots(ListOf(p, a), lo, hi, chain, a);
    assert Rooted(ListOf(p', a), chain.NonceOf(a));
    forall b | b != a ensures ListOf(p', b) == ListOf(p, b) { }
  }

  /** Virtual nonces one past each pending list, for the accounts visited. */
  ghost predicate PastLast(virtual: map<Address, Nonce>, p: Lists, todo: set<Address>) {
    forall a :: a in p && p[a] != map[] && a !in todo ==> a in virtual && virtual[a] == Greatest(p[a]) + 1
  }

  lemma RootedGapFree(p: Lists, virtual: map<Address, Nonce>, chain: ChainState)
    requires AllRooted(p, chain, {}) && PastLast(virtual, p, {})
    requires forall a :: a in p ==> p[a] != map[]
    requires forall a :: a in virtual ==> a in p
    ensures GapFree(p, virtual, chain)
  {
    forall a
      ensures Spans(ListOf(p, a), chain.NonceOf(a), VirtualNonce(virtual, chain, a))
    {
      var end: Nonce :| Spans(ListOf(p, a), chain.NonceOf(a), end);
      if a in p {
        assert Greatest(p[a]) in p[a] && end - 1 in p[a];
      }
    }
  }

  // ---- What a promotion and a demotion do to every account ----

  /** The queued run that is ready on an account. */
  function ReadyOf(q: Lists, virtual: map<Address, Nonce>, chain: ChainState, a: Address): Items {
    ReadyPart(Executable(ListOf(q, a), chain, a), VirtualNonce(virtual, chain, a))
  }

  /** What stays queued: the rest of what is executable, capped unless the account is local. */
  function LeftOf(q: Lists, virtual: map<Address, Nonce>, chain: ChainState, a: Address, local: bool, cap: nat): Items {
    var rest := Executable(ListOf(q, a), chain, a) - ReadyOf(q, virtual, chain, a).Keys;
    if local then rest else CapTo(rest, cap)
  }

  lemma NothingQueued(q: Lists, virtual: map<Address, Nonce>, chain: ChainState, a: Address, local: bool, cap: nat)
    requires ListOf(q, a) == map[]
    ensures ReadyOf(q, virtual, chain, a) == map[] && LeftOf(q, virtual, chain, a, local, cap) == map[]
  {
  }

  /** p1 and q1 are p0 and q0 with the given accounts promoted. */
  ghost predicate PromotedOn(accounts: set<Address>, p0: Lists, q0: Lists, virtual: map<Address, Nonce>,
                             chain: ChainState,
                             locals: set<Address>, cap: nat, p1: Lists, q1: Lists)
  {
    && (forall a :: ListOf(p1, a) == if a in accounts then ListOf(p0, a) + ReadyOf(q0, virtual, chain, a)
          else ListOf(p0, a))
    && (forall a :: ListOf(q1, a) == if a in accounts then LeftOf(q0, virtual, chain, a, a in locals, cap)
          else ListOf(q0, a))
  }

  lemma PromotedStart(p: Lists, q: Lists, virtual: map<Address, Nonce>, chain: ChainState, locals: set<Address>,
                      cap: nat)
    ensures PromotedOn({}, p, q, virtual, chain, locals, cap, p, q)
  {
    hide ReadyOf, LeftOf, ListOf;
  }

  lemma SameAccount(q: Lists, q0: Lists, virtual: map<Address, Nonce>, virtual0: map<Address, Nonce>, chain: ChainState,
                    a: Address, local: bool, cap: nat)
    requires ListOf(q, a) == ListOf(q0, a) && VirtualNonce(virtual, chain, a) == VirtualNonce(virtual0, chain, a)
    ensures ReadyOf(q, virtual, chain, a) == ReadyOf(q0, virtual0, chain, a)
    ensures LeftOf(q, virtual, chain, a, local, cap) == LeftOf(q0, virtual0, chain, a, local, cap)
  {
    hide ListOf, Executable, ReadyPart, CapTo;
  }

  /** Promoting one more account, whose lists and virtual nonce are still the first ones. */
  lemma PromotedStep(done: set<Address>, p0: Lists, q0: Lists, virtual0: map<Address, Nonce>, chain: ChainState,
                     locals: set<Address>, cap: nat, p1: Lists, q1: Lists, virtual1: map<Address, Nonce>, a: Address,
                     p2: Lists, q2: Lists)
    requires PromotedOn(done, p0, q0, virtual0, chain, locals, cap, p1, q1) && a !in done
    requires VirtualNonce(virtual1, chain, a) == VirtualNonce(virtual0, chain, a)
    requires Replaces(p2, p1, a, ListOf(p1, a) + ReadyOf(q1, virtual1, chain, a))
    requires Replaces(q2, q1, a, LeftOf(q1, virtual1, chain, a, a in locals, cap))
    ensures PromotedOn(done + {a}, p0, q0, virtual0, chain, locals, cap, p2, q2)
  {
    hide ReadyOf, LeftOf, ListOf;
    assert ListOf(q1, a) == ListOf(q0, a);
    SameAccount(q1, q0, virtual1, virtual0, chain, a, a in locals, cap);
    forall b
      ensures ListOf(p2, b) == if b in done + {a} then ListOf(p0, b) + ReadyOf(q0, virtual0, chain, b)
                else ListOf(p0, b)
    {
      assert ListOf(p1, b) == if b in done then ListOf(p0, b) + ReadyOf(q0, virtual0, chain, b) else ListOf(p0, b);
    }
    forall b
      ensures ListOf(q2, b) == if b in done + {a} then LeftOf(q0, virtual0, chain, b, b in locals, cap)
                else ListOf(q0, b)
    {
      assert ListOf(q1, b) == if b in done then LeftOf(q0, virtual0, chain, b, b in locals, cap) else ListOf(q0, b);
    }
  }

  /** The accounts of a loop over them that are done with. */
  lemma NoneDone(accounts: set<Address>)
    ensures accounts - accounts == {} && accounts - {} == accounts
  {
  }

  lemma OneDone(accounts: set<Address>, todo: set<Address>, a: Address)
    requires a in todo && todo <= accounts
    ensures accounts - (todo - {a}) == accounts - todo + {a}
  {
  }

  /** p1 and q1 are p0 and q0 with every account but those in todo demoted. */
  ghost predicate DemotedBut(todo: set<Address>, p0: Lists, q0: Lists, chain: ChainState, p1: Lists, q1: Lists) {
    && (forall a :: ListOf(p1, a) == if a in todo then ListOf(p0, a) else Staying(ListOf(p0, a), chain, a))
    && (forall a :: ListOf(q1, a) == if a in todo then ListOf(q0, a)
          else ListOf(q0, a) + Returning(ListOf(p0, a), chain, a))
  }

  lemma DemotedStart(p: Lists, q: Lists, chain: ChainState)
    ensures DemotedBut(p.Keys, p, q, chain, p, q)
  {
    forall a | a !in p
      ensures Staying(ListOf(p, a), chain, a) == map[] && Returning(ListOf(p, a), chain, a) == map[]
    {
    }
    assert forall a :: ListOf(q, a) + map[] == ListOf(q, a);
  }

  lemma DemotedStep(todo: set<Address>, p0: Lists, q0: Lists, chain: ChainState, p1: Lists, q1: Lists, a: Address,
                    p2: Lists, q2: Lists)
    requires DemotedBut(todo, p0, q0, chain, p1, q1) && a in todo
    requires p2 == File(p1, a, Staying(ListOf(p1, a), chain, a))
    requires Replaces(q2, q1, a, ListOf(q1, a) + Returning(ListOf(p1, a), chain, a))
    ensures DemotedBut(todo - {a}, p0, q0, chain, p2, q2)
  {
    hide ListOf, Staying, Returning, File;
    FileReplaces(p1, a, Staying(ListOf(p1, a), chain, a));
    forall b
      ensures ListOf(p2, b) == if b in todo - {a} then ListOf(p0, b) else Staying(ListOf(p0, b), chain, b)
    {
      assert ListOf(p1, b) == if b in todo then ListOf(p0, b) else Staying(ListOf(p0, b), chain, b);
    }
    forall b
      ensures ListOf(q2, b) == if b in todo - {a} then ListOf(q0, b)
                else ListOf(q0, b) + Returning(ListOf(p0, b), chain, b)
    {
      assert ListOf(q1, b) == if b in todo then ListOf(q0, b) else ListOf(q0, b) + Returning(ListOf(p0, b), chain, b);
      assert ListOf(p1, a) == ListOf(p0, a);
    }
  }

  // ---- Lists and index ----

  lemma {:induction false} TxSetSize(m: Items)
    requires Keyed(m)
    ensures |TxSet(m)| == |m|
    decreases |m|
  {
    if m == map[] {
      assert TxSet(m) == {};
    } else {
      var n :| n in m;
      KeyedWithout(m, n);
      TxSetSize(m - {n});
      TxSetWithout(m, n);
    }
  }

  lemma TxSetWithout(m: Items, n: Nonce)
    requires Keyed(m) && n in m
    ensures m[n] !in TxSet(m - {n}) && TxSet(m) == TxSet(m - {n}) + {m[n]}
  {
    TxSetMembers(m);
    TxSetMembers(m - {n});
  }

  /** Lists of different accounts hold different transactions, so together no more than the index. */
  lemma {:induction false} TotalWithin(p: Lists, all: set<Tx>)
    requires forall a :: a in p ==> Owned(p[a], a) && TxSet(p[a]) <= all
    ensures Total(p) <= |all|
    decreases |p|
  {
    hide TxSet, Total, ListOf, Owned;
    if p == map[] {
      NoTotal();
    } else {
      var a :| a in p;
      var rest := all - TxSet(p[a]);
      forall b | b in p - {a} ensures TxSet(p[b]) <= rest {
        ApartAccounts(p[a], a, p[b], b);
      }
      TotalWithin(p - {a}, rest);
      OwnedSize(p[a], a);
      TotalSplit(p, a);
    }
  }

  lemma OwnedSize(l: Items, a: Address)
    requires Owned(l, a)
    ensures |TxSet(l)| == |l|
  {
    TxSetSize(l);
  }

  lemma TotalSplit(p: Lists, a: Address)
    requires a in p
    ensures Total(p) == |p[a]| + Total(p - {a})
  {
    hide Total;
    TotalUpdate(p - {a}, a, p[a]);
    assert (p - {a})[a := p[a]] == p;
  }

  lemma NoTotal()
    ensures Total(map[]) == 0
  {
  }

  lemma ApartAccounts(l: Items, a: Address, k: Items, b: Address)
    requires Owned(l, a) && Owned(k, b) && a != b
    ensures TxSet(l) !! TxSet(k)
  {
  }

  lemma PendingWithin(all: set<Tx>, p: Lists, q: Lists)
    requires Partition(all, p, q)
    ensures Total(p) <= |all|
  {
    hide Partition, Total, TxSet, Owned;
    forall a | a in p ensures Owned(p[a], a) && TxSet(p[a]) <= all {
      AccountOf(all, p, q, a);
    }
    TotalWithin(p, all);
  }
}

/**
 The pool's two families of account lists as values: how they partition the set of pooled
 transactions, when the pending lists have no gaps, and what capping lists does to their totals.
 */
module PoolLists {
  import opened TxItems
  import opened Sums

  type Lists = map<Address, Items>

  /** An account's list; an absent list is empty. */
  function ListOf(m: Lists, a: Address): Items {
    if a in m then m[a] else map[]
  }

  /** Stores an account's list, dropping the entry once the list is empty. */
  function File(m: Lists, a: Address, l: Items): Lists {
    if l == map[] then m - {a} else m[a := l]
  }

  /** The list belongs to account a. */
  ghost predicate Owned(l: Items, a: Address) {
    forall n :: n in l ==> l[n].nonce == n && l[n].from == a
  }

  ghost predicate Filed(t: Tx, m: Lists) {
    t.nonce in ListOf(m, t.from) && ListOf(m, t.from)[t.nonce] == t
  }

  /**
   The pool's hash index is exactly the union of the pending and the queued lists, each list
   belongs to its account, and no account has a nonce in both.
   */
  ghost predicate Partition(all: set<Tx>, p: Lists, q: Lists) {
    && (forall a :: Owned(ListOf(p, a), a) && Owned(ListOf(q, a), a))
    && (forall a :: ListOf(p, a).Keys !! ListOf(q, a).Keys)
    && (forall t :: t in all <==> Filed(t, p) || Filed(t, q))
  }

  /** m' is m with account a's list replaced. */
  ghost predicate Replaces(m': Lists, m: Lists, a: Address, l: Items) {
    forall b :: ListOf(m', b) == if b == a then l else ListOf(m, b)
  }

  lemma FileReplaces(m: Lists, a: Address, l: Items)
    ensures Replaces(File(m, a, l), m, a, l)
    ensures Replaces(m[a := l], m, a, l)
    ensures Replaces(m, m, a, ListOf(m, a))
  {
  }

  /** What the partition says of one account. */
  lemma AccountOf(all: set<Tx>, p: Lists, q: Lists, a: Address)
    requires Partition(all, p, q)
    ensures Owned(ListOf(p, a), a) && Owned(ListOf(q, a), a) && ListOf(p, a).Keys !! ListOf(q, a).Keys
    ensures TxSet(ListOf(p, a)) <= all && TxSet(ListOf(q, a)) <= all
    ensures forall t :: t in all && t.from == a ==> t in TxSet(ListOf(p, a)) || t in TxSet(ListOf(q, a))
  {
    var l, k := ListOf(p, a), ListOf(q, a);
    forall t | t in TxSet(l) ensures t in all { assert Filed(t, p); }
    forall t | t in TxSet(k) ensures t in all { assert Filed(t, q); }
    forall t | t in all && t.from == a
      ensures t in TxSet(l) || t in TxSet(k)
    {
      assert Filed(t, p) || Filed(t, q);
    }
  }

  /** Replacing one account's two lists, and the index by their contents, keeps the partition. */
  lemma Refile(all: set<Tx>, p: Lists, q: Lists, a: Address, all': set<Tx>, p': Lists, q': Lists, l: Items, k: Items)
    requires Partition(all, p, q)
    requires Replaces(p', p, a, l) && Replaces(q', q, a, k)
    requires Owned(l, a) && Owned(k, a) && l.Keys !! k.Keys
    requires forall t :: t in all' <==> if t.from == a then t in TxSet(l) || t in TxSet(k) else t in all
    ensures Partition(all', p', q')
  {
    assert ListOf(p', a) == l && ListOf(q', a) == k;
    forall t
      ensures t in all' <==> Filed(t, p') || Filed(t, q')
    {
      assert ListOf(p', t.from) == if t.from == a then l else ListOf(p, t.from);
      assert ListOf(q', t.from) == if t.from == a then k else ListOf(q, t.from);
      if t.from == a {
        assert t in TxSet(l) <==> t.nonce in l && l[t.nonce] == t;
        assert t in TxSet(k) <==> t.nonce in k && k[t.nonce] == t;
      } else {
        assert t in all <==> Filed(t, p) || Filed(t, q);
      }
    }
    forall b
      ensures Owned(ListOf(p', b), b) && Owned(ListOf(q', b), b) && ListOf(p', b).Keys !! ListOf(q', b).Keys
    {
      assert ListOf(p', b) == if b == a then l else ListOf(p, b);
      assert ListOf(q', b) == if b == a then k else ListOf(q, b);
      assert Owned(ListOf(p, b), b) && Owned(ListOf(q, b), b);
    }
  }

  // ---- Virtual nonces ----

  /** The chain state the pool last saw. */
  datatype ChainState = ChainState(nonces: map<Address, Nonce>, balances: map<Address, int>, gasLimit: nat) {
    function NonceOf(a: Address): Nonce {
      if a in nonces then nonces[a] else 0
    }

    function BalanceOf(a: Address): int {
      if a in balances then balances[a] else 0
    }
  }

  /** An account's virtual nonce: its managed nonce, or the state's. */
  function VirtualNonce(virtual: map<Address, Nonce>, chain: ChainState, a: Address): Nonce {
    if a in virtual then virtual[a] else chain.NonceOf(a)
  }

  /** Each account's pending nonces are exactly those from its state nonce up to its virtual nonce. */
  ghost predicate GapFree(p: Lists, virtual: map<Address, Nonce>, chain: ChainState) {
    forall a :: Spans(ListOf(p, a), chain.NonceOf(a), VirtualNonce(virtual, chain, a))
  }

  lemma GapFreeAt(p: Lists, virtual: map<Address, Nonce>, chain: ChainState, a: Address)
    requires GapFree(p, virtual, chain)
    ensures Spans(ListOf(p, a), chain.NonceOf(a), VirtualNonce(virtual, chain, a))
  {
  }

  /** Replacing one account's list by another interval up to its new virtual nonce. */
  lemma StaysGapFree(p: Lists, virtual: map<Address, Nonce>, chain: ChainState, a: Address,
                     p': Lists, virtual': map<Address, Nonce>, l: Items)
    requires GapFree(p, virtual, chain) && Replaces(p', p, a, l)
    requires forall b :: b != a ==> VirtualNonce(virtual', chain, b) == VirtualNonce(virtual, chain, b)
    requires Spans(l, chain.NonceOf(a), VirtualNonce(virtual', chain, a))
    ensures GapFree(p', virtual', chain)
  {
    forall b
      ensures Spans(ListOf(p', b), chain.NonceOf(b), VirtualNonce(virtual', chain, b))
    {
      assert ListOf(p', b) == if b == a then l else ListOf(p, b);
      assert Spans(ListOf(p, b), chain.NonceOf(b), VirtualNonce(virtual, chain, b));
    }
  }

  // ---- Totals ----

  ghost function Sizes(m: Lists): map<Address, int> {
    map a | a in m :: |m[a]|
  }

  /** The number of transactions in all the lists. */
  ghost function Total(m: Lists): int {
    Sum(Sizes(m))
  }

  lemma SizesUpdate(m: Lists, a: Address, l: Items)
    ensures Sizes(m[a := l]) == Sizes(m)[a := |l|]
    ensures (if a in Sizes(m) then Sizes(m)[a] else 0) == |ListOf(m, a)|
  {
  }

  lemma SizesRemove(m: Lists, a: Address)
    ensures Sizes(m - {a}) == Sizes(m) - {a}
  {
  }

  lemma TotalUpdate(m: Lists, a: Address, l: Items)
    ensures Total(m[a := l]) == Total(m) - |ListOf(m, a)| + |l|
    ensures Total(File(m, a, l)) == Total(m) - |ListOf(m, a)| + |l|
  {
    hide Sizes, ListOf, Sum;
    SizesUpdate(m, a, l);
    SizesRemove(m, a);
    SumUpdate(Sizes(m), a, |l|);
    SumRemove(Sizes(m), a);
  }

  lemma TotalBounds(m: Lists)
    ensures 0 <= Total(m) && forall a :: |ListOf(m, a)| <= Total(m)
  {
    SumBounds(Sizes(m));
    assert forall a :: a in m ==> Sizes(m)[a] == |m[a]|;
  }

  // ---- Cutting lists to a level ----

  /** Every non-local account's list is cut to the level; local accounts keep theirs. */
  function Leveled(m: Lists, locals: set<Address>, level: nat): Lists {
    map a | a in m :: if a in locals then m[a] else CapTo(m[a], level)
  }

  /** Part of the way from one level to the next: the accounts done are already one lower. */
  ghost function Lowering(m: Lists, locals: set<Address>, level: nat, done: set<Address>): Lists {
    map a | a in m :: if a in locals then m[a] else if a in done then CapTo(m[a], level) else CapTo(m[a], level + 1)
  }

  lemma LoweringStart(m: Lists, locals: set<Address>, level: nat)
    ensures Lowering(m, locals, level, {}) == Leveled(m, locals, level + 1)
  {
  }

  /** Once every longer list has been cut, the next level is reached. */
  lemma LoweringDone(m: Lists, locals: set<Address>, level: nat, done: set<Address>)
    requires forall a :: a in m && a !in locals && a !in done ==> |m[a]| <= level
    ensures Lowering(m, locals, level, done) == Leveled(m, locals, level)
  {
  }

  /** Cutting one more list by its greatest nonce. */
  lemma LoweringStep(m: Lists, locals: set<Address>, level: nat, done: set<Address>, a: Address)
    requires a in m && a !in locals && a !in done && level < |m[a]|
    ensures var p := Lowering(m, locals, level, done);
            && a in p && p[a] != map[]
            && p[a := p[a] - {Greatest(p[a])}] == Lowering(m, locals, level, done + {a})
  {
    CapToStep(m[a], level);
  }

  /** Above every non-local list, levels change nothing. */
  lemma LeveledHigh(m: Lists, locals: set<Address>, level: nat)
    requires forall a :: a in m && a !in locals ==> |m[a]| <= level
    ensures Leveled(m, locals, level) == m
  {
  }

  /** The length of a levelled list. */
  lemma LeveledSize(m: Lists, locals: set<Address>, level: nat, a: Address)
    requires a in m
    ensures a in Leveled(m, locals, level)
    ensures var l := Leveled(m, locals, level)[a];
            if a in locals then l == m[a] else |l| == if |m[a]| <= level then |m[a]| else level
  {
    CapToCaps(m[a], level);
  }

  /** The elements of a sequence of accounts. */
  ghost function Elements(s: seq<Address>): set<Address> {
    set a | a in s
  }

  lemma ElementsPrefix(s: seq<Address>, i: nat)
    requires i < |s| && forall j, k :: 0 <= j < k < |s| ==> s[j] != s[k]
    ensures s[i] !in Elements(s[..i]) && Elements(s[..i + 1]) == Elements(s[..i]) + {s[i]}
  {
    assert s[..i + 1] == s[..i] + [s[i]];
  }

  /** A priority queue has a first element. */
  lemma {:induction false} HasMaximum(m: map<Address, nat>)
    requires m != map[]
    ensures exists a :: a in m && forall b :: b in m ==> m[b] <= m[a]
    decreases m.Keys
  {
    var a :| a in m;
    if a' :| a' in m && m[a'] > m[a] {
      var higher := map b | b in m && m[b] > m[a] :: m[b];
      assert a' in higher && a !in higher && higher.Keys < m.Keys;
      HasMaximum(higher);
      var top :| top in higher && forall b :: b in higher ==> higher[b] <= higher[top];
      assert forall b :: b in m ==> b in higher || m[b] <= m[a];
    }
  }
}

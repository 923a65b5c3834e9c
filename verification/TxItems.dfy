/**
 Transactions and the nonce-indexed contents of an account's list, as values: what each
 operation of a list does to its contents, and the laws the pool relies on.
 */
module TxItems {

  datatype Address = Address(id: nat)

  /** An account nonce, an unsigned 64-bit number in the source. */
  type Nonce = nat

  /**
   A transaction. Its hash commits to all its fields, so the hash is modelled by the value
   itself; `payload` stands for the fields the pool never looks at.
   */
  datatype Tx = Tx(from: Address, nonce: Nonce, price: int, gas: nat, cost: int, payload: nat)

  /** A list's contents: nonce to transaction. */
  type Items = map<Nonce, Tx>

  /** Every transaction is stored under its own nonce. */
  ghost predicate Keyed(m: Items) {
    forall n :: n in m ==> m[n].nonce == n
  }

  /** The contents below a nonce, and from it on. */
  function Below(m: Items, t: Nonce): Items {
    map n | n in m && n < t :: m[n]
  }

  function AtLeast(m: Items, t: Nonce): Items {
    map n | n in m && t <= n :: m[n]
  }

  function Above(m: Items, t: Nonce): Items {
    map n | n in m && t < n :: m[n]
  }

  /** The contents as a set of transactions. */
  function TxSet(m: Items): set<Tx> {
    set n | n in m :: m[n]
  }

  lemma TxSetMembers(m: Items)
    requires Keyed(m)
    ensures forall t :: t in TxSet(m) <==> t.nonce in m && m[t.nonce] == t
  {
  }

  /** The nonces are exactly the interval from lo up to hi. */
  ghost predicate Spans(m: Items, lo: Nonce, hi: Nonce) {
    lo <= hi && forall n: nat :: n in m <==> lo <= n < hi
  }

  // ---- The contents in nonce order ----

  /** txs lists the contents of m by strictly increasing nonce, each once. */
  ghost predicate Flattens(txs: seq<Tx>, m: Items) {
    Stored(txs, m) && ByNonce(txs) && Complete(txs, m)
  }

  ghost predicate Stored(txs: seq<Tx>, m: Items) {
    forall i :: 0 <= i < |txs| ==> txs[i].nonce in m && m[txs[i].nonce] == txs[i]
  }

  ghost predicate ByNonce(txs: seq<Tx>) {
    forall i, j :: 0 <= i < j < |txs| ==> txs[i].nonce < txs[j].nonce
  }

  ghost predicate Complete(txs: seq<Tx>, m: Items) {
    forall n :: n in m ==> m[n] in txs
  }

  /** There is only one such listing. */
  lemma {:induction false} FlattensUnique(a: seq<Tx>, b: seq<Tx>, m: Items)
    requires Keyed(m) && Flattens(a, m) && Flattens(b, m)
    ensures a == b
    decreases |a|
  {
    hide Stored, ByNonce, Complete, Keyed;
    EmptyListing(a, m);
    EmptyListing(b, m);
    if |a| > 0 {
      var n, k := a[|a| - 1].nonce, b[|b| - 1].nonce;
      LastListed(a, m);
      LastListed(b, m);
      LastIsGreatest(a, m, k);
      LastIsGreatest(b, m, n);
      DropLastFlattens(a, m);
      DropLastFlattens(b, m);
      KeyedWithout(m, n);
      FlattensUnique(a[..|a| - 1], b[..|b| - 1], m - {n});
      assert a == a[..|a| - 1] + [a[|a| - 1]];
      assert b == b[..|b| - 1] + [b[|b| - 1]];
    }
  }

  lemma EmptyListing(a: seq<Tx>, m: Items)
    requires Flattens(a, m)
    ensures a == [] <==> m == map[]
  {
    assert forall n :: n in m ==> m[n] in a;
    assert a != [] ==> a[0].nonce in m;
  }

  lemma LastListed(a: seq<Tx>, m: Items)
    requires Flattens(a, m) && |a| > 0
    ensures a[|a| - 1].nonce in m && m[a[|a| - 1].nonce] == a[|a| - 1]
  {
  }

  lemma KeyedWithout(m: Items, n: Nonce)
    requires Keyed(m)
    ensures Keyed(m - {n})
  {
  }

  /** The last transaction listed has the greatest nonce. */
  lemma LastIsGreatest(a: seq<Tx>, m: Items, n: Nonce)
    requires Keyed(m) && Flattens(a, m) && n in m
    ensures |a| > 0 && n <= a[|a| - 1].nonce
  {
    assert m[n] in a;
    var i :| 0 <= i < |a| && a[i] == m[n];
  }

  lemma DropLastFlattens(a: seq<Tx>, m: Items)
    requires Keyed(m) && Flattens(a, m) && |a| > 0
    ensures Flattens(a[..|a| - 1], m - {a[|a| - 1].nonce})
  {
    var c := a[..|a| - 1];
    var m' := m - {a[|a| - 1].nonce};
    forall n | n in m' ensures m'[n] in c {
      var i :| 0 <= i < |a| && a[i] == m[n];
      assert i != |a| - 1;
      assert c[i] == m[n];
    }
  }

  /** How many of the listed transactions lie below a nonce. */
  ghost function CountBelow(a: seq<Tx>, t: Nonce): (k: nat)
    requires ByNonce(a)
    ensures k <= |a|
    ensures forall i :: 0 <= i < k ==> a[i].nonce < t
    ensures forall i :: k <= i < |a| ==> t <= a[i].nonce
  {
    if |a| == 0 then 0
    else if a[|a| - 1].nonce < t then |a|
    else CountBelow(a[..|a| - 1], t)
  }

  lemma CutByNonce(a: seq<Tx>, k: nat)
    requires ByNonce(a) && k <= |a|
    ensures ByNonce(a[..k]) && ByNonce(a[k..])
  {
  }

  lemma TailStored(a: seq<Tx>, m: Items, t: Nonce, k: nat)
    requires Stored(a, m) && k <= |a| && forall i :: k <= i < |a| ==> t <= a[i].nonce
    ensures Stored(a[k..], AtLeast(m, t))
  {
    forall i | 0 <= i < |a[k..]|
      ensures a[k..][i].nonce in AtLeast(m, t) && AtLeast(m, t)[a[k..][i].nonce] == a[k..][i]
    {
      assert a[k..][i] == a[k + i];
    }
  }

  lemma TailComplete(a: seq<Tx>, m: Items, t: Nonce, k: nat)
    requires Complete(a, m) && Keyed(m) && k <= |a| && forall i :: 0 <= i < k ==> a[i].nonce < t
    ensures Complete(a[k..], AtLeast(m, t))
  {
    forall n | n in AtLeast(m, t)
      ensures m[n] in a[k..]
    {
      assert m[n] in a;
      var i :| 0 <= i < |a| && a[i] == m[n];
      assert a[k..][i - k] == m[n];
    }
  }

  lemma CutFlattensTail(a: seq<Tx>, m: Items, t: Nonce)
    requires Keyed(m) && Flattens(a, m)
    ensures Flattens(a[CountBelow(a, t)..], AtLeast(m, t))
  {
    hide CountBelow, Stored, ByNonce, Complete, Keyed, AtLeast;
    var k := CountBelow(a, t);
    TailStored(a, m, t, k);
    CutByNonce(a, k);
    TailComplete(a, m, t, k);
  }

  lemma HeadStored(a: seq<Tx>, m: Items, t: Nonce, k: nat)
    requires Stored(a, m) && k <= |a| && forall i :: 0 <= i < k ==> a[i].nonce < t
    ensures Stored(a[..k], Below(m, t))
  {
  }

  lemma HeadComplete(a: seq<Tx>, m: Items, t: Nonce, k: nat)
    requires Complete(a, m) && Keyed(m) && k <= |a| && forall i :: k <= i < |a| ==> t <= a[i].nonce
    ensures Complete(a[..k], Below(m, t))
  {
    forall n | n in Below(m, t)
      ensures m[n] in a[..k]
    {
      assert m[n] in a;
      var i :| 0 <= i < |a| && a[i] == m[n];
      assert a[..k][i] == m[n];
    }
  }

  lemma CutFlattensHead(a: seq<Tx>, m: Items, t: Nonce)
    requires Keyed(m) && Flattens(a, m)
    ensures Flattens(a[..CountBelow(a, t)], Below(m, t))
  {
    hide CountBelow, Stored, ByNonce, Complete, Keyed, Below;
    var k := CountBelow(a, t);
    HeadStored(a, m, t, k);
    CutByNonce(a, k);
    HeadComplete(a, m, t, k);
  }

  /** Cutting the listing at a nonce lists the two parts. */
  lemma CutFlattens(a: seq<Tx>, m: Items, t: Nonce)
    requires Keyed(m) && Flattens(a, m)
    ensures Flattens(a[..CountBelow(a, t)], Below(m, t))
    ensures Flattens(a[CountBelow(a, t)..], AtLeast(m, t))
  {
    CutFlattensHead(a, m, t);
    CutFlattensTail(a, m, t);
  }

  // ---- Consecutive runs ----

  /** The end of the maximal run of consecutive nonces that starts at n. */
  function RunEnd(m: Items, n: Nonce): (e: Nonce)
    ensures n <= e && e !in m
    ensures forall k: nat :: n <= k < e ==> k in m
    decreases |AtLeast(m, n)|
  {
    if n !in m then n
    else
      assert AtLeast(m, n).Keys == AtLeast(m, n + 1).Keys + {n};
      RunEnd(m, n + 1)
  }

  /** The least nonce of a list. */
  function Least(m: Items): (n: Nonce)
    requires m != map[]
    ensures n in m && forall k :: k in m ==> n <= k
  {
    assert exists n :: n in m && forall k :: k in m ==> n <= k by {
      var n :| n in m;
      HasLeast(m, n, 0);
    }
    var n :| n in m && forall k :: k in m ==> n <= k;
    n
  }

  lemma {:induction false} HasLeast(m: Items, n: Nonce, lo: Nonce)
    requires n in m && lo <= n && forall k: nat :: k < lo ==> k !in m
    ensures exists n :: n in m && forall k :: k in m ==> n <= k
    decreases n - lo
  {
    if lo in m {
      assert forall k :: k in m ==> lo <= k;
    } else {
      HasLeast(m, n, lo + 1);
    }
  }

  /** What Ready(start) takes out of the contents: nothing, or the run from the least nonce. */
  function ReadyPart(m: Items, start: Nonce): Items {
    if m == map[] || start < Least(m) then map[] else Below(m, RunEnd(m, Least(m)))
  }

  /** A list with nothing below start gives exactly its run from start. */
  lemma ReadyFromStart(m: Items, start: Nonce)
    requires forall n :: n in m ==> start <= n
    ensures Spans(ReadyPart(m, start), start, RunEnd(m, start))
  {
    if start in m { assert Least(m) == start; }
  }

  // ---- Limits ----

  /** kept is what a cap at size k leaves: the k lowest nonces. */
  ghost predicate IsCapped(kept: Items, m: Items, k: nat) {
    if |m| <= k then kept == m
    else
      && |kept| == k
      && (forall n :: n in kept ==> n in m && kept[n] == m[n])
      && (forall n, d :: n in kept && d in m && d !in kept ==> n < d)
  }

  /** The greatest nonce of a list. */
  function Greatest(m: Items): (n: Nonce)
    requires m != map[]
    ensures n in m && forall k :: k in m ==> k <= n
  {
    assert exists n :: n in m && forall k :: k in m ==> k <= n by {
      var n :| n in m;
      HasGreatest(m, n, Above(m, n));
    }
    var n :| n in m && forall k :: k in m ==> k <= n;
    n
  }

  lemma FewerAbove(m: Items, n: Nonce, k: Nonce)
    requires k in Above(m, n)
    ensures |Above(m, k)| < |Above(m, n)|
  {
    SubsetSize(Above(m, k).Keys, Above(m, n).Keys - {k});
  }

  lemma {:induction false} HasGreatest(m: Items, n: Nonce, more: Items)
    requires n in m && more == Above(m, n)
    ensures exists n :: n in m && forall k :: k in m ==> k <= n
    decreases |more|
  {
    if more == map[] {
      assert forall k :: k in m ==> k in more || k <= n;
    } else {
      var k :| k in more;
      FewerAbove(m, n, k);
      HasGreatest(m, k, Above(m, k));
    }
  }

  /** The list with its highest nonces dropped until k are left. */
  function CapTo(m: Items, k: nat): Items
    decreases |m|
  {
    if |m| <= k then m else CapTo(m - {Greatest(m)}, k)
  }

  lemma {:induction false} CapToCaps(m: Items, k: nat)
    ensures IsCapped(CapTo(m, k), m, k)
    ensures |CapTo(m, k)| == if |m| <= k then |m| else k
    decreases |m|
  {
    if |m| > k {
      CapToCaps(m - {Greatest(m)}, k);
    }
  }

  /** There is only one way to cap, so a capped list object holds what the pool takes it to hold. */
  lemma CapIsCapTo(kept: Items, m: Items, k: nat)
    requires IsCapped(kept, m, k)
    ensures kept == CapTo(m, k)
  {
    hide CapTo;
    var c := CapTo(m, k);
    CapToCaps(m, k);
    if |m| > k {
      SameLowest(kept, c, m);
      SameLowest(c, kept, m);
    }
  }

  /** The lowest nonces of a list, as many, are the same. */
  lemma SameLowest(a: Items, b: Items, m: Items)
    requires |a| == |b| && (forall n :: n in a ==> n in m && a[n] == m[n]) && (forall n :: n in b ==>
               n in m && b[n] == m[n])
    requires forall n, d :: n in a && d in m && d !in a ==> n < d
    requires forall n, d :: n in b && d in m && d !in b ==> n < d
    ensures forall n :: n in a ==> n in b
  {
    assert forall n, d :: n in a && d in b && n !in b && d !in a ==> n < d && d < n;
    assert a.Keys <= b.Keys || b.Keys <= a.Keys;
    if b.Keys <= a.Keys {
      SubsetFull(b.Keys, a.Keys);
    }
  }

  lemma {:induction false} SubsetFull<T>(a: set<T>, b: set<T>)
    requires a <= b && |a| == |b|
    ensures a == b
    decreases a
  {
    if a != {} {
      var x :| x in a;
      SubsetFull(a - {x}, b - {x});
    }
  }

  /** Capping one lower drops the greatest nonce left. */
  lemma {:induction false} CapToStep(m: Items, k: nat)
    requires k < |m|
    ensures |CapTo(m, k + 1)| == k + 1
    ensures CapTo(m, k) == CapTo(m, k + 1) - {Greatest(CapTo(m, k + 1))}
    decreases |m|
  {
    if |m| > k + 1 {
      CapToStep(m - {Greatest(m)}, k);
    } else {
      assert CapTo(m - {Greatest(m)}, k) == m - {Greatest(m)};
    }
  }

  /** Capping an interval by one drops its last nonce. */
  lemma CapSpans(kept: Items, m: Items, lo: Nonce, hi: Nonce)
    requires Spans(m, lo, hi) && lo < hi && 0 < |m| && IsCapped(kept, m, |m| - 1)
    ensures Spans(kept, lo, hi - 1)
  {
    LastNotKept(kept, m, lo, hi);
    SubsetFull(kept.Keys, m.Keys - {hi - 1});
  }

  lemma LastNotKept(kept: Items, m: Items, lo: Nonce, hi: Nonce)
    requires Spans(m, lo, hi) && lo < hi && 0 < |m| && IsCapped(kept, m, |m| - 1)
    ensures kept.Keys <= m.Keys - {hi - 1} && |kept.Keys| == |m.Keys - {hi - 1}|
  {
    assert hi - 1 in m;
    if hi - 1 in kept {
      assert forall n :: n in m ==> n in kept;
      SubsetSize(m.Keys, kept.Keys);
    }
  }

  lemma {:induction false} SubsetSize<T>(a: set<T>, b: set<T>)
    requires a <= b
    ensures |a| <= |b|
    decreases a
  {
    if a != {} {
      var x :| x in a;
      SubsetSize(a - {x}, b - {x});
    }
  }

  // ---- Filtering by cost and gas ----

  predicate Over(t: Tx, costLimit: int, gasLimit: nat) {
    t.cost > costLimit || t.gas > gasLimit
  }

  /** The plain scan: the transactions over a limit. */
  function Unpayable(m: Items, costLimit: int, gasLimit: nat): Items {
    map n | n in m && Over(m[n], costLimit, gasLimit) :: m[n]
  }

  /** In a strict list also everything past the first transaction over a limit goes. */
  predicate Stranded(m: Items, costLimit: int, gasLimit: nat, n: Nonce) {
    exists k :: k in m && k < n && Over(m[k], costLimit, gasLimit)
  }

  function Invalidated(m: Items, costLimit: int, gasLimit: nat, strict: bool): Items {
    if !strict then map[]
    else map n | n in m && !Over(m[n], costLimit, gasLimit) && Stranded(m, costLimit, gasLimit, n) :: m[n]
  }

  function Payable(m: Items, costLimit: int, gasLimit: nat, strict: bool): Items {
    map n | n in m && !Over(m[n], costLimit, gasLimit)
            && !(strict && Stranded(m, costLimit, gasLimit, n)) :: m[n]
  }

  /** Kept is what is within both limits, in a strict list only as far as everything before it is. */
  ghost predicate WithinLimits(kept: Items, m: Items, costLimit: int, gasLimit: nat, strict: bool) {
    forall n :: n in kept <==>
      && n in m && m[n].cost <= costLimit && m[n].gas <= gasLimit
      && (strict ==> forall k :: k in m && k < n ==> m[k].cost <= costLimit && m[k].gas <= gasLimit)
  }

  lemma PayableIff(m: Items, costLimit: int, gasLimit: nat, strict: bool)
    ensures WithinLimits(Payable(m, costLimit, gasLimit, strict), m, costLimit, gasLimit, strict)
  {
  }

  /** Removed, invalidated and kept transactions partition the list. */
  lemma FilterPartitions(m: Items, costLimit: int, gasLimit: nat, strict: bool)
    ensures var a := Unpayable(m, costLimit, gasLimit);
            var b := Invalidated(m, costLimit, gasLimit, strict);
            var c := Payable(m, costLimit, gasLimit, strict);
            && a.Keys !! b.Keys !! c.Keys
            && a + b + c == m
  {
  }

  /** A strict filter leaves a consecutive list as a consecutive prefix. */
  lemma FilterSpans(m: Items, lo: Nonce, hi: Nonce, costLimit: int, gasLimit: nat) returns (mid: Nonce)
    requires Spans(m, lo, hi)
    ensures lo <= mid <= hi
    ensures Spans(Payable(m, costLimit, gasLimit, true), lo, mid)
    ensures mid < hi <==> exists n :: n in m && Over(m[n], costLimit, gasLimit)
  {
    mid := lo;
    while mid < hi && !Over(m[mid], costLimit, gasLimit)
      invariant lo <= mid <= hi
      invariant forall n :: lo <= n < mid ==> !Over(m[n], costLimit, gasLimit)
    {
      mid := mid + 1;
    }
    forall n | mid <= n && n in m
      ensures n !in Payable(m, costLimit, gasLimit, true)
    {
      if mid < n { assert Stranded(m, costLimit, gasLimit, n); }
    }
  }
}

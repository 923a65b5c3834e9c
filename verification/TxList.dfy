/**
 core/tx_list.go: the nonce-sorted map (hash map, heap index and sorted cache kept in step)
 and the account list with its cached cost and gas caps. Every method is proved to act on the
 contents as the values of TxItems say, whatever the heap, the cache and the caps hold.
 */
module TxLists {
  import opened Wrappers
  import opened TxItems
  import Heaps

  function NonceKey(n: Nonce): real {
    n as real
  }

  // ---- The heap index ----

  /** The index is a heap of exactly the stored nonces, each once. */
  ghost predicate Indexes(index: seq<Nonce>, m: Items) {
    && Heaps.IsHeap(index, |index|, NonceKey)
    && multiset(index) == multiset(m.Keys)
  }

  /** The heap operations on nonces. */
  function PushNonce(index: seq<Nonce>, n: Nonce): seq<Nonce>
    requires Heaps.IsHeap(index, |index|, NonceKey)
  {
    Heaps.Push(index, n, NonceKey)
  }

  function PopNonce(index: seq<Nonce>): seq<Nonce>
    requires |index| > 0 && Heaps.IsHeap(index, |index|, NonceKey)
  {
    Heaps.Pop(index, NonceKey)
  }

  function RemoveNonce(index: seq<Nonce>, i: nat): seq<Nonce>
    requires i < |index| && Heaps.IsHeap(index, |index|, NonceKey)
  {
    Heaps.Remove(index, i, NonceKey)
  }

  function HeapNonces(s: seq<Nonce>): seq<Nonce> {
    Heaps.Init(s, NonceKey)
  }

  /** A sequence of exactly the stored nonces, each once, indexes them once it is a heap. */
  lemma IndexInit(s: seq<Nonce>, m: Items)
    requires multiset(s) == multiset(m.Keys)
    ensures Indexes(HeapNonces(s), m)
  {
  }

  lemma IndexMembers(index: seq<Nonce>, m: Items)
    requires Indexes(index, m)
    ensures forall n :: n in index <==> n in m
    ensures |index| == |m|
  {
    assert forall n :: n in index <==> n in multiset(index);
    assert |multiset(index)| == |index|;
  }

  /** The top of the index is the least nonce. */
  lemma IndexTop(index: seq<Nonce>, m: Items)
    requires Indexes(index, m) && |index| > 0
    ensures index[0] in m
    ensures forall n :: n in m ==> index[0] <= n
  {
    IndexMembers(index, m);
    forall n | n in m ensures index[0] <= n {
      assert n in index;
      var i :| 0 <= i < |index| && index[i] == n;
      Heaps.RootIsLeast(index, |index|, NonceKey, i);
      assert NonceKey(index[0]) <= NonceKey(n);
    }
  }

  /** Popping the index and deleting the popped nonce keeps them in step. */
  lemma IndexPop(index: seq<Nonce>, m: Items)
    requires Indexes(index, m) && |index| > 0
    ensures Heaps.IsHeap(index, |index|, NonceKey) && |PopNonce(index)| < |index|
    ensures Indexes(PopNonce(index), m - {index[0]})
  {
    RemoveKey(index, m, 0, PopNonce(index));
  }

  lemma IndexRemove(index: seq<Nonce>, m: Items, i: nat)
    requires Indexes(index, m) && i < |index|
    ensures Indexes(RemoveNonce(index, i), m - {index[i]})
  {
    RemoveKey(index, m, i, RemoveNonce(index, i));
  }

  lemma RemoveKey(index: seq<Nonce>, m: Items, i: nat, rest: seq<Nonce>)
    requires i < |index| && multiset(index) == multiset(m.Keys)
    requires multiset(index) == multiset(rest) + multiset{index[i]}
    ensures multiset(rest) == multiset((m - {index[i]}).Keys)
  {
    var n := index[i];
    assert n in multiset(index);
    assert (m - {n}).Keys == m.Keys - {n};
    assert multiset(m.Keys - {n}) == multiset(m.Keys) - multiset{n};
  }

  /** Adding a new nonce to both keeps them in step. */
  lemma IndexPush(index: seq<Nonce>, m: Items, t: Tx)
    requires Indexes(index, m) && t.nonce !in m
    ensures Indexes(PushNonce(index, t.nonce), m[t.nonce := t])
  {
    assert m[t.nonce := t].Keys == m.Keys + {t.nonce};
  }

  // ---- Sorting (Go's sort package) ----

  ghost predicate Ascending(s: seq<Nonce>) {
    forall i, j :: 0 <= i < j < |s| ==> s[i] <= s[j]
  }

  function Insert(s: seq<Nonce>, n: Nonce): seq<Nonce> {
    if s == [] || s[|s| - 1] <= n then s + [n]
    else Insert(s[..|s| - 1], n) + [s[|s| - 1]]
  }

  function Sorted(s: seq<Nonce>): seq<Nonce> {
    if s == [] then [] else Insert(Sorted(s[..|s| - 1]), s[|s| - 1])
  }

  lemma {:induction false} InsertKeeps(s: seq<Nonce>, n: Nonce)
    ensures multiset(Insert(s, n)) == multiset(s) + multiset{n}
  {
    if s != [] && s[|s| - 1] > n {
      assert s == s[..|s| - 1] + [s[|s| - 1]];
      InsertKeeps(s[..|s| - 1], n);
    }
  }

  lemma {:induction false} InsertSorts(s: seq<Nonce>, n: Nonce)
    requires Ascending(s)
    ensures Ascending(Insert(s, n))
  {
    if s != [] && s[|s| - 1] > n {
      var q := s[..|s| - 1];
      InsertSorts(q, n);
      InsertKeeps(q, n);
      forall x | x in Insert(q, n) ensures x <= s[|s| - 1] {
        assert x in multiset(Insert(q, n));
        assert x == n || x in q;
      }
      SnocSorts(Insert(q, n), s[|s| - 1]);
    } else if s != [] {
      SnocSorts(s, n);
    }
  }

  lemma SnocSorts(s: seq<Nonce>, z: Nonce)
    requires Ascending(s) && forall x :: x in s ==> x <= z
    ensures Ascending(s + [z])
  {
    var t := s + [z];
    forall i, j | 0 <= i < j < |t|
      ensures t[i] <= t[j]
    {
      assert i < |s| ==> t[i] == s[i] && s[i] in s;
      assert j < |s| ==> t[j] == s[j];
    }
  }

  lemma {:induction false} SortedSorts(s: seq<Nonce>)
    ensures Ascending(Sorted(s)) && multiset(Sorted(s)) == multiset(s)
  {
    if s != [] {
      var q := s[..|s| - 1];
      assert s == q + [s[|s| - 1]];
      SortedSorts(q);
      InsertSorts(Sorted(q), s[|s| - 1]);
      InsertKeeps(Sorted(q), s[|s| - 1]);
    }
  }

  /** s lists the nonces of m in increasing order, each once. */
  ghost predicate Lists(s: seq<Nonce>, m: Items) {
    && (forall i, j :: 0 <= i < j < |s| ==> s[i] < s[j])
    && (forall n :: n in s <==> n in m)
  }

  /** Sorting the index lists the nonces. */
  lemma SortedLists(index: seq<Nonce>, m: Items)
    requires multiset(index) == multiset(m.Keys)
    ensures Lists(Sorted(index), m)
  {
    SortedSorts(index);
    var s := Sorted(index);
    forall n ensures n in s <==> n in m { assert n in s <==> n in multiset(s); }
    forall i, j | 0 <= i < j < |s|
      ensures s[i] < s[j]
    {
      assert s[i] <= s[j];
      if s[i] == s[j] { TwiceInMultiset(s, i, j); }
    }
  }

  lemma TwiceInMultiset(s: seq<Nonce>, i: nat, j: nat)
    requires i < j < |s| && s[i] == s[j]
    ensures multiset(s)[s[i]] >= 2
  {
    assert s == s[..j] + s[j..];
    assert s[i] in multiset(s[..j]) && s[j] in multiset(s[j..]) by {
      assert s[..j][i] == s[i] && s[j..][0] == s[j];
    }
  }

  /** Reading the map in the order of its listed nonces flattens it. */
  lemma ListFlattens(s: seq<Nonce>, m: Items, txs: seq<Tx>)
    requires Keyed(m) && Lists(s, m)
    requires |txs| == |s| && forall i :: 0 <= i < |s| ==> s[i] in m && txs[i] == m[s[i]]
    ensures Flattens(txs, m)
  {
    forall n | n in m ensures m[n] in txs {
      var i :| 0 <= i < |s| && s[i] == n;
      assert txs[i] == m[n];
    }
  }

  // ---- Cutting a list of nonces ----

  /** The contents at the k lowest of the listed nonces. */
  ghost function Lowest(m: Items, s: seq<Nonce>, k: nat): Items
    requires k <= |s|
  {
    map n | n in m && n in s[..k] :: m[n]
  }

  /** The transactions at the other listed nonces, highest first. */
  ghost function FromTop(m: Items, s: seq<Nonce>, k: nat): seq<Tx>
    requires k <= |s| && forall i :: k <= i < |s| ==> s[i] in m
    decreases |s| - k
  {
    if k == |s| then [] else FromTop(m, s, k + 1) + [m[s[k]]]
  }

  lemma {:induction false} FromTopAt(m: Items, s: seq<Nonce>, k: nat)
    requires k <= |s| && forall i :: k <= i < |s| ==> s[i] in m
    ensures |FromTop(m, s, k)| == |s| - k
    ensures forall i :: 0 <= i < |s| - k ==> FromTop(m, s, k)[i] == m[s[|s| - 1 - i]]
    decreases |s| - k
  {
    if k < |s| { FromTopAt(m, s, k + 1); }
  }

  lemma FromTopNone(m: Items, s: seq<Nonce>)
    ensures FromTop(m, s, |s|) == []
  {
  }

  lemma FromTopStep(m: Items, s: seq<Nonce>, k: nat)
    requires 0 < k <= |s| && forall i :: k - 1 <= i < |s| ==> s[i] in m
    ensures FromTop(m, s, k - 1) == FromTop(m, s, k) + [m[s[k - 1]]]
  {
  }

  lemma LowestAll(m: Items, index: seq<Nonce>)
    requires Indexes(index, m)
    ensures Lists(Sorted(index), m)
    ensures forall i :: 0 <= i < |Sorted(index)| ==> Sorted(index)[i] in m
    ensures |Sorted(index)| == |m| && Lowest(m, Sorted(index), |m|) == m
  {
    SortedLists(index, m);
    SortedSorts(index);
    var s := Sorted(index);
    assert |multiset(s)| == |s| && |multiset(m.Keys)| == |m.Keys|;
    assert s[..|s|] == s;
    assert forall i :: 0 <= i < |s| ==> s[i] in s;
  }

  lemma LowestStep(m: Items, s: seq<Nonce>, k: nat)
    requires Lists(s, m) && 0 < k <= |s|
    ensures s[k - 1] in m && s[k - 1] in Lowest(m, s, k) && Lowest(m, s, k)[s[k - 1]] == m[s[k - 1]]
    ensures Lowest(m, s, k) - {s[k - 1]} == Lowest(m, s, k - 1)
  {
    assert s[k - 1] in s;
    assert s[..k] == s[..k - 1] + [s[k - 1]];
  }

  /** The listed nonces cut at k are those of the contents kept. */
  lemma {:induction false} LowestIndexed(m: Items, s: seq<Nonce>, k: nat)
    requires Lists(s, m) && k <= |s|
    ensures multiset(s[..k]) == multiset(Lowest(m, s, k).Keys)
    ensures |Lowest(m, s, k)| == k
    decreases k
  {
    hide Lists, Lowest;
    if k == 0 {
      LowestNone(m, s);
    } else {
      LowestStep(m, s, k);
      LowestIndexed(m, s, k - 1);
      GrowMultiset(s, k, Lowest(m, s, k - 1).Keys, Lowest(m, s, k).Keys);
    }
  }

  lemma LowestNone(m: Items, s: seq<Nonce>)
    ensures Lowest(m, s, 0) == map[]
  {
  }

  lemma GrowMultiset(s: seq<Nonce>, k: nat, a: set<Nonce>, b: set<Nonce>)
    requires 0 < k <= |s| && multiset(s[..k - 1]) == multiset(a) && b - {s[k - 1]} == a && s[k - 1] in b
    ensures multiset(s[..k]) == multiset(b) && |b| == |a| + 1
  {
    assert s[..k] == s[..k - 1] + [s[k - 1]];
    assert b == a + {s[k - 1]};
  }

  /** Those contents are what a cap at k keeps, and the cut list indexes them once it is a heap. */
  lemma CapKeeps(m: Items, s: seq<Nonce>, k: nat)
    requires Lists(s, m) && k < |s| == |m|
    ensures IsCapped(Lowest(m, s, k), m, k)
    ensures Indexes(HeapNonces(s[..k]), Lowest(m, s, k))
  {
    LowestIndexed(m, s, k);
    IndexInit(s[..k], Lowest(m, s, k));
    LowestBelow(m, s, k);
  }

  /** What is listed before k lies below what is not. */
  lemma LowestBelow(m: Items, s: seq<Nonce>, k: nat)
    requires Lists(s, m) && k <= |s|
    ensures forall n, d :: n in Lowest(m, s, k) && d in m && d !in Lowest(m, s, k) ==> n < d
  {
    var low := Lowest(m, s, k);
    forall n, d | n in low && d in m && d !in low
      ensures n < d
    {
      var i :| 0 <= i < k && s[..k][i] == n;
      assert d in s;
      var j :| 0 <= j < |s| && s[j] == d;
      assert forall i :: 0 <= i < k ==> s[i] in s[..k];
    }
  }

  lemma CapNone(m: Items, k: nat)
    requires |m| <= k
    ensures IsCapped(m, m, k) && forall t :: t !in TxSet(m) - TxSet(m)
  {
  }

  /** The transactions dropped from the top, one per nonce, are those not kept. */
  lemma CapDrops(m: Items, s: seq<Nonce>, k: nat, drops: seq<Tx>)
    requires Keyed(m) && Lists(s, m) && k <= |s| && (forall i :: 0 <= i < |s| ==> s[i] in m)
    requires drops == FromTop(m, s, k)
    ensures |drops| == |s| - k && Keyed(Lowest(m, s, k))
    ensures forall t :: t in drops <==> t in TxSet(m) - TxSet(Lowest(m, s, k))
    ensures forall i, j :: 0 <= i < j < |drops| ==> drops[i].nonce > drops[j].nonce
  {
    FromTopAt(m, s, k);
    var low := Lowest(m, s, k);
    forall t | t in TxSet(m) - TxSet(low)
      ensures t in drops
    {
      assert t.nonce in m && m[t.nonce] == t;
      var i :| 0 <= i < |s| && s[i] == t.nonce;
      assert t.nonce !in low;
      assert forall j :: 0 <= j < k ==> s[j] in s[..k];
      assert drops[|s| - 1 - i] == t;
    }
    forall i | 0 <= i < |drops|
      ensures drops[i] in TxSet(m) - TxSet(low)
    {
      assert drops[i].nonce == s[|s| - 1 - i];
      assert drops[i].nonce !in s[..k];
    }
  }

  /** A listing reads the map in the order of the listed nonces. */
  lemma ListingOrder(c: seq<Tx>, m: Items, s: seq<Nonce>)
    requires Keyed(m) && Flattens(c, m) && Lists(s, m)
    ensures |c| == |s|
    ensures forall i :: 0 <= i < |s| ==> s[i] in m && c[i] == m[s[i]]
  {
    assert forall i :: 0 <= i < |s| ==> s[i] in s;
    var txs := seq(|s|, i requires 0 <= i < |s| => m[s[i]]);
    ListFlattens(s, m, txs);
    FlattensUnique(c, txs, m);
  }

  /** Cutting as many off the end of a cached listing lists what was kept. */
  lemma CapCache(c: seq<Tx>, m: Items, s: seq<Nonce>, k: nat)
    requires Keyed(m) && Flattens(c, m) && Lists(s, m) && k < |s|
    ensures |c| == |s|
    ensures Flattens(c[..k], Lowest(m, s, k))
  {
    hide Keyed, Flattens, Lists, Lowest;
    ListingOrder(c, m, s);
    CutListing(c, m, s, k);
  }

  lemma CutListing(c: seq<Tx>, m: Items, s: seq<Nonce>, k: nat)
    requires Keyed(m) && Lists(s, m) && k < |s| == |c|
    requires forall i :: 0 <= i < |s| ==> s[i] in m && c[i] == m[s[i]]
    ensures Flattens(c[..k], Lowest(m, s, k))
  {
    hide Lowest, Stored, ByNonce, Complete;
    CutStored(c, m, s, k);
    CutOrdered(c, m, s, k);
    CutComplete(c, m, s, k);
  }

  lemma CutStored(c: seq<Tx>, m: Items, s: seq<Nonce>, k: nat)
    requires Keyed(m) && k < |s| == |c| && forall i :: 0 <= i < |s| ==> s[i] in m && c[i] == m[s[i]]
    ensures Stored(c[..k], Lowest(m, s, k))
  {
    forall i | 0 <= i < k
      ensures c[..k][i].nonce in Lowest(m, s, k) && Lowest(m, s, k)[c[..k][i].nonce] == c[..k][i]
    {
      assert s[..k][i] == s[i];
    }
  }

  lemma CutOrdered(c: seq<Tx>, m: Items, s: seq<Nonce>, k: nat)
    requires Keyed(m) && Lists(s, m) && k < |s| == |c| && forall i :: 0 <= i < |s| ==> s[i] in m && c[i] == m[s[i]]
    ensures ByNonce(c[..k])
  {
  }

  lemma CutComplete(c: seq<Tx>, m: Items, s: seq<Nonce>, k: nat)
    requires k < |s| == |c| && forall i :: 0 <= i < |s| ==> s[i] in m && c[i] == m[s[i]]
    ensures Complete(c[..k], Lowest(m, s, k))
  {
    var low := Lowest(m, s, k);
    forall n | n in low ensures low[n] in c[..k] {
      var i :| 0 <= i < k && s[..k][i] == n;
      assert c[..k][i] == m[n];
    }
  }

  // ---- Taking from the front ----

  /** The contents on both sides of a bar moved past the least nonce from it on. */
  lemma MoveBar(m: Items, bar: Nonce, n: Nonce)
    requires n in AtLeast(m, bar) && forall k :: k in AtLeast(m, bar) ==> n <= k
    ensures bar <= n && n in m && AtLeast(m, bar)[n] == m[n]
    ensures AtLeast(m, bar) - {n} == AtLeast(m, n + 1)
    ensures Below(m, n + 1) == Below(m, bar)[n := m[n]]
    ensures forall k :: k in Below(m, bar) ==> k < n
    ensures Keyed(m) ==> m[n].nonce == n && Keyed(Below(m, bar))
  {
    forall k | k in m && bar <= k ensures n <= k { assert k in AtLeast(m, bar); }
  }

  lemma TakeNone(m: Items)
    ensures m == AtLeast(m, 0) && Flattens([], Below(m, 0))
  {
  }

  /** Taking the least nonce off a heap of the contents from bar on moves bar past it. */
  lemma TakeLeast(m: Items, bar: Nonce, index: seq<Nonce>, taken: seq<Tx>)
    requires Keyed(m) && Indexes(index, AtLeast(m, bar)) && |index| > 0
    requires Flattens(taken, Below(m, bar))
    ensures Heaps.IsHeap(index, |index|, NonceKey) && |PopNonce(index)| < |index|
    ensures var n := index[0];
            && bar <= n && n in m && n in AtLeast(m, bar) && AtLeast(m, bar)[n] == m[n]
            && AtLeast(m, bar) - {n} == AtLeast(m, n + 1)
            && Indexes(PopNonce(index), AtLeast(m, n + 1))
            && Flattens(taken + [m[n]], Below(m, n + 1))
  {
    hide Indexes, PopNonce, Heaps.IsHeap, Flattens, Keyed, AtLeast, Below;
    var n := index[0];
    IndexTop(index, AtLeast(m, bar));
    IndexPop(index, AtLeast(m, bar));
    MoveBar(m, bar, n);
    FlattensSnoc(taken, Below(m, bar), m[n]);
  }

  /** When the heap has nothing below t, bar might as well be t. */
  lemma NothingBelow(m: Items, bar: Nonce, index: seq<Nonce>, t: Nonce)
    requires Keyed(m) && Indexes(index, AtLeast(m, bar)) && bar <= t
    requires |index| > 0 ==> t <= index[0]
    ensures Keyed(AtLeast(m, t))
    ensures AtLeast(m, bar) == AtLeast(m, t) && Below(m, bar) == Below(m, t)
  {
    IndexMembers(index, AtLeast(m, bar));
    if |index| > 0 {
      IndexTop(index, AtLeast(m, bar));
    }
    assert forall n :: n in m && bar <= n ==> n in AtLeast(m, bar);
  }

  /** Appending a transaction past all the others. */
  lemma FlattensSnoc(a: seq<Tx>, m: Items, t: Tx)
    requires Flattens(a, m)
    requires Keyed(m) && forall n :: n in m ==> n < t.nonce
    ensures Flattens(a + [t], m[t.nonce := t])
  {
    var txs := a + [t];
    assert forall i :: 0 <= i < |a| ==> txs[i] == a[i];
    assert txs[|a|] == t;
  }

  /** A cached listing cut past what was taken. */
  lemma ForwardCache(c: seq<Tx>, m: Items, t: Nonce, taken: seq<Tx>)
    requires Keyed(m) && Flattens(c, m) && Flattens(taken, Below(m, t))
    ensures |taken| <= |c| && Flattens(c[|taken|..], AtLeast(m, t))
  {
    CutFlattens(c, m, t);
    FlattensUnique(c[..CountBelow(c, t)], taken, Below(m, t));
  }

  // ---- Filtering ----

  /** What is left once everything but todo has been looked at. */
  function Kept(m: Items, drop: Tx -> bool, todo: set<Nonce>): Items {
    map n | n in m && (n in todo || !drop(m[n])) :: m[n]
  }

  lemma KeptStart(m: Items, drop: Tx -> bool)
    ensures Kept(m, drop, m.Keys) == m
    ensures TxSet(m) - TxSet(m) == {}
  {
  }

  lemma KeptKeyed(m: Items, drop: Tx -> bool)
    requires Keyed(m)
    ensures Keyed(Kept(m, drop, {}))
  {
  }

  /** Looking at one more nonce drops its transaction, or leaves things as they are. */
  lemma KeptStep(m: Items, drop: Tx -> bool, todo: set<Nonce>, n: Nonce)
    requires Keyed(m) && n in todo && todo <= m.Keys
    ensures var cur, next := Kept(m, drop, todo), Kept(m, drop, todo - {n});
            && n in cur && cur[n] == m[n]
            && next == (if drop(m[n]) then cur - {n} else cur)
            && multiset(TxSet(m) - TxSet(cur - {n})) == multiset(TxSet(m) - TxSet(cur)) + multiset{m[n]}
  {
    DropOne(m, Kept(m, drop, todo), n);
  }

  /** Deleting one more transaction adds it to what is gone. */
  lemma DropOne(m: Items, cur: Items, n: Nonce)
    requires Keyed(m) && n in cur && (forall k :: k in cur ==> k in m && cur[k] == m[k])
    ensures cur[n] !in TxSet(m) - TxSet(cur)
    ensures TxSet(m) - TxSet(cur - {n}) == TxSet(m) - TxSet(cur) + {cur[n]}
  {
    assert cur[n].nonce == n;
    forall t | t in TxSet(cur - {n})
      ensures t in TxSet(cur) && t != cur[n]
    {
      var k :| k in cur - {n} && (cur - {n})[k] == t;
      assert cur[k].nonce == k;
    }
    forall t | t in TxSet(cur) && t != cur[n]
      ensures t in TxSet(cur - {n})
    {
      var k :| k in cur && cur[k] == t;
      assert k in cur - {n};
    }
  }

  /** When the least nonce is past start nothing is ready. */
  lemma NoneReady(index: seq<Nonce>, m: Items, start: Nonce)
    requires Indexes(index, m) && (|index| > 0 ==> start < index[0])
    ensures Flattens([], ReadyPart(m, start)) && m == m - ReadyPart(m, start).Keys
  {
    IndexMembers(index, m);
    if |index| > 0 { IndexTop(index, m); }
  }

  /** A run starts empty at the top of the index. */
  lemma RunStart(index: seq<Nonce>, m: Items)
    requires Indexes(index, m) && |index| > 0
    ensures index[0] in m && forall n :: n in m ==> index[0] <= n
    ensures m == AtLeast(m, index[0]) && Flattens([], Below(m, index[0]))
  {
    IndexTop(index, m);
  }

  /** A run that has reached a gap is what Ready takes. */
  lemma RunTaken(m: Items, least: Nonce, next: Nonce, index: seq<Nonce>, start: Nonce)
    requires Indexes(index, AtLeast(m, next)) && (|index| > 0 ==> index[0] != next)
    requires least in m && least <= start && least <= next && forall n :: n in m ==> least <= n
    requires forall k: nat :: least <= k < next ==> k in m
    ensures ReadyPart(m, start) == Below(m, next)
    ensures AtLeast(m, next) == m - Below(m, next).Keys
    ensures Keyed(m) ==> Keyed(AtLeast(m, next))
  {
    IndexMembers(index, AtLeast(m, next));
    if |index| > 0 { IndexTop(index, AtLeast(m, next)); }
    assert next in m ==> next in AtLeast(m, next);
    RunEndIs(m, least, next);
  }

  /** The first gap after a run is the end of the run. */
  lemma RunEndIs(m: Items, n: Nonce, e: Nonce)
    requires n <= e && e !in m && forall k: nat :: n <= k < e ==> k in m
    ensures RunEnd(m, n) == e
  {
    assert !(RunEnd(m, n) < e) && !(e < RunEnd(m, n));
  }

  /** The nonces of a loop over them that are done with. */
  lemma MarkStep(all: set<Nonce>, todo: set<Nonce>, n: Nonce)
    requires n in todo && todo <= all
    ensures multiset(all - (todo - {n})) == multiset(all - todo) + multiset{n}
  {
    assert all - (todo - {n}) == (all - todo) + {n};
  }

  lemma MarkEnds(all: set<Nonce>)
    ensures all - all == {} && all - {} == all
  {
  }

  // ---- txSortedMap ----

  class TxSortedMap {
    var items: Items
    var index: seq<Nonce>
    var cache: Option<seq<Tx>>

    /** The three representations agree; the cache is absent or the sorted contents. */
    ghost predicate Valid()
      reads this
    {
      && Keyed(items)
      && Indexes(index, items)
      && (cache.Some? ==> Flattens(cache.value, items))
    }

    constructor ()
      ensures Valid() && items == map[]
    {
      items := map[];
      index := [];
      cache := None;
    }

    method Get(nonce: Nonce) returns (tx: Option<Tx>)
      ensures tx == if nonce in items then Some(items[nonce]) else None
    {
      tx := if nonce in items then Some(items[nonce]) else None;
    }

    method Put(tx: Tx)
      requires Valid()
      modifies this
      ensures Valid() && items == old(items)[tx.nonce := tx]
    {
      if tx.nonce !in items {
        IndexPush(index, items, tx);
        index := PushNonce(index, tx.nonce);
      } else {
        assert items[tx.nonce := tx].Keys == items.Keys;
      }
      items, cache := items[tx.nonce := tx], None;
    }

    /** Drops and returns, in order, everything below the threshold. */
    method Forward(threshold: Nonce) returns (removed: seq<Tx>)
      requires Valid()
      modifies this
      ensures Valid() && items == AtLeast(old(items), threshold)
      ensures Flattens(removed, Below(old(items), threshold))
    {
      hide Indexes, PopNonce, Heaps.IsHeap, Flattens, AtLeast, Below, Keyed;
      removed := [];
      ghost var bar: Nonce := 0;
      TakeNone(items);
      while |index| > 0 && index[0] < threshold
        invariant bar <= threshold && items == AtLeast(old(items), bar) && Indexes(index, items)
        invariant Flattens(removed, Below(old(items), bar)) && cache == old(cache)
        decreases threshold - bar
      {
        TakeLeast(old(items), bar, index, removed);
        var nonce := index[0];
        index := PopNonce(index);
        removed := removed + [items[nonce]];
        items := items - {nonce};
        bar := nonce + 1;
      }
      NothingBelow(old(items), bar, index, threshold);
      if cache.Some? {
        ForwardCache(cache.value, old(items), threshold, removed);
        cache := Some(cache.value[|removed|..]);
      }
    }

    /** Drops and returns, in any order and each once, what the predicate selects. */
    method Filter(drop: Tx -> bool) returns (removed: seq<Tx>)
      requires Valid()
      modifies this
      ensures Valid()
      ensures items == Kept(old(items), drop, {})
      ensures multiset(removed) == multiset(TxSet(old(items)) - TxSet(items))
      ensures removed == [] ==> items == old(items)
    {
      hide Indexes, Heaps.IsHeap, Flattens, Keyed, TxSet, Kept;
      removed := [];
      var todo := items.Keys;
      KeptStart(items, drop);
      while todo != {}
        invariant todo <= old(items).Keys && index == old(index) && cache == old(cache)
        invariant items == Kept(old(items), drop, todo)
        invariant multiset(removed) == multiset(TxSet(old(items)) - TxSet(items))
        invariant removed == [] ==> items == old(items)
        decreases todo
      {
        var nonce :| nonce in todo;
        KeptStep(old(items), drop, todo, nonce);
        if drop(items[nonce]) {
          removed := removed + [items[nonce]];
          items := items - {nonce};
        }
        todo := todo - {nonce};
      }
      KeptKeyed(old(items), drop);
      if |removed| > 0 {
        Reindex();
      }
    }

    /** Rebuilds the index from the map and forgets the cache. */
    method Reindex()
      requires Keyed(items)
      modifies this
      ensures Valid() && items == old(items)
    {
      hide Indexes, HeapNonces, Heaps.IsHeap, Keyed, Flattens;
      index := [];
      var todo := items.Keys;
      MarkEnds(items.Keys);
      while todo != {}
        invariant todo <= items.Keys && items == old(items)
        invariant multiset(index) == multiset(items.Keys - todo)
        decreases todo
      {
        var nonce :| nonce in todo;
        MarkStep(items.Keys, todo, nonce);
        index := index + [nonce];
        todo := todo - {nonce};
      }
      IndexInit(index, items);
      index := HeapNonces(index);
      cache := None;
    }

    /** Keeps the lowest nonces and returns the others, highest first. */
    method Cap(threshold: nat) returns (drops: seq<Tx>)
      requires Valid()
      modifies this
      ensures Valid() && IsCapped(items, old(items), threshold)
      ensures forall t :: t in drops <==> t in TxSet(old(items)) - TxSet(items)
      ensures forall i, j :: 0 <= i < j < |drops| ==> drops[i].nonce > drops[j].nonce
    {
      hide Indexes, HeapNonces, Heaps.IsHeap, Flattens, Keyed, Lists, Lowest, Sorted, IsCapped, TxSet, FromTop;
      drops := [];
      if |items| <= threshold {
        CapNone(items, threshold);
        return;
      }
      LowestAll(items, index);
      index := Sorted(index);
      FromTopNone(items, index);
      var size := |items|;
      while size > threshold
        invariant threshold <= size <= |index|
        invariant index == Sorted(old(index)) && cache == old(cache)
        invariant items == Lowest(old(items), index, size)
        invariant drops == FromTop(old(items), index, size)
      {
        LowestStep(old(items), index, size);
        FromTopStep(old(items), index, size);
        drops := drops + [items[index[size - 1]]];
        items := items - {index[size - 1]};
        size := size - 1;
      }
      CapKeeps(old(items), index, threshold);
      CapDrops(old(items), index, threshold, drops);
      if cache.Some? {
        CapCache(cache.value, old(items), index, threshold);
        cache := Some(cache.value[..|cache.value| - |drops|]);
      }
      index := HeapNonces(index[..threshold]);
    }

    method Remove(nonce: Nonce) returns (found: bool)
      requires Valid()
      modifies this
      ensures Valid() && items == old(items) - {nonce}
      ensures found <==> nonce in old(items)
    {
      if nonce !in items {
        return false;
      }
      IndexMembers(index, items);
      var i := 0;
      while index[i] != nonce
        invariant 0 <= i < |index|
        invariant nonce in index[i..]
        decreases |index| - i
      {
        i := i + 1;
      }
      IndexRemove(index, items, i);
      index := RemoveNonce(index, i);
      items := items - {nonce};
      cache := None;
      return true;
    }

    /** Takes out and returns, in order, the run of consecutive nonces from the least one. */
    method Ready(start: Nonce) returns (ready: seq<Tx>)
      requires Valid()
      modifies this
      ensures Valid() && items == old(items) - ReadyPart(old(items), start).Keys
      ensures Flattens(ready, ReadyPart(old(items), start))
    {
      hide Indexes, PopNonce, Heaps.IsHeap, Flattens, AtLeast, Below, Keyed, ReadyPart;
      ready := [];
      if |index| == 0 || index[0] > start {
        NoneReady(index, items, start);
        return;
      }
      ghost var least := index[0];
      var next := index[0];
      RunStart(index, items);
      while |index| > 0 && index[0] == next
        invariant least <= next && items == AtLeast(old(items), next) && Indexes(index, items)
        invariant Flattens(ready, Below(old(items), next))
        invariant forall k: nat :: least <= k < next ==> k in old(items)
        decreases |index|
      {
        TakeLeast(old(items), next, index, ready);
        ready := ready + [items[next]];
        items := items - {next};
        index := PopNonce(index);
        next := next + 1;
      }
      cache := None;
      RunTaken(old(items), least, next, index, start);
    }

    method Len() returns (n: nat)
      ensures n == |items|
    {
      n := |items|;
    }

    /** The sorted contents, from the cache or by sorting and caching. */
    method Flatten() returns (txs: seq<Tx>)
      requires Valid()
      modifies this
      ensures Valid() && items == old(items)
      ensures Flattens(txs, items)
    {
      hide Indexes, Keyed, Flattens, Lists, Sorted, Lowest;
      if cache.None? {
        LowestAll(items, index);
        var nonces := Sorted(index);
        var sorted: seq<Tx> := [];
        while |sorted| < |nonces|
          invariant |sorted| <= |nonces|
          invariant forall i :: 0 <= i < |sorted| ==> sorted[i] == items[nonces[i]]
        {
          sorted := sorted + [items[nonces[|sorted|]]];
        }
        ListFlattens(nonces, items, sorted);
        cache := Some(sorted);
      }
      txs := cache.value;
    }
  }

  // ---- txList ----

  /** The caps bound the cost and gas of every transaction in the list. */
  ghost predicate CapsHold(m: Items, costcap: int, gascap: nat) {
    forall n :: n in m ==> m[n].cost <= costcap && m[n].gas <= gascap
  }

  /** Whether a transaction is dear enough to replace another of the same nonce. */
  predicate Outbids(tx: Tx, prev: Tx, priceBump: nat) {
    prev.price < tx.price && prev.price * (100 + priceBump) / 100 <= tx.price
  }

  /** The threshold is rounded down: less than one unit below the full bump is enough. */
  lemma OutbidsIff(tx: Tx, prev: Tx, priceBump: nat)
    ensures Outbids(tx, prev, priceBump) <==>
            prev.price < tx.price && prev.price * (100 + priceBump) < 100 * (tx.price + 1)
  {
  }

  /** What is held for a nonce after a series of bids for it, and how many of them were taken. */
  function Held(prev: Tx, bids: seq<Tx>, priceBump: nat): (Tx, nat)
    decreases |bids|
  {
    if bids == [] then (prev, 0)
    else
      var won := Outbids(bids[0], prev, priceBump);
      var (tx, taken) := Held(if won then bids[0] else prev, bids[1..], priceBump);
      (tx, taken + if won then 1 else 0)
  }

  function Power(b: nat, n: nat): nat {
    if n == 0 then 1 else b * Power(b, n - 1)
  }

  /**
   Prices compound: but for 99 hundredths of a unit lost to rounding at each step, every bid taken
   raises the price by the whole bump. In particular the price never falls.
   */
  lemma {:induction false} BidsCompound(prev: Tx, bids: seq<Tx>, priceBump: nat)
    ensures var (tx, taken) := Held(prev, bids, priceBump);
            && prev.price + taken <= tx.price
            && Power(100 + priceBump, taken) * (priceBump * prev.price - 99)
               <= Power(100, taken) * (priceBump * tx.price - 99)
    decreases |bids|
  {
    if bids != [] {
      var bid := bids[0];
      if Outbids(bid, prev, priceBump) {
        BidsCompound(bid, bids[1..], priceBump);
        var (tx, taken) := Held(bid, bids[1..], priceBump);
        BumpGains(bid.price, prev.price, priceBump);
        Compound(Power(100 + priceBump, taken), Power(100, taken), 100 + priceBump, priceBump * prev.price - 99,
                 priceBump * bid.price - 99, priceBump * tx.price - 99);
      } else {
        BidsCompound(prev, bids[1..], priceBump);
      }
    }
  }

  lemma BumpGains(price: int, prev: int, bump: nat)
    requires prev * (100 + bump) / 100 <= price
    ensures (100 + bump) * (bump * prev - 99) <= 100 * (bump * price - 99)
  {
    assert prev * (100 + bump) <= 100 * price + 99;
    Scale(prev * (100 + bump), 100 * price + 99, bump);
    assert bump * (prev * (100 + bump)) == (100 + bump) * (bump * prev);
  }

  lemma Scale(x: int, y: int, k: nat)
    requires x <= y
    ensures k * x <= k * y
  {
  }

  lemma Compound(up: nat, base: nat, factor: nat, first: int, bid: int, last: int)
    requires factor * first <= 100 * bid && up * bid <= base * last
    ensures (factor * up) * first <= (100 * base) * last
  {
    Scale(factor * first, 100 * bid, up);
    assert (factor * up) * first == up * (factor * first) && up * (100 * bid) == 100 * (up * bid);
    assert (100 * base) * last == 100 * (base * last);
  }

  /** Below both caps the plain scan finds nothing. */
  lemma CapsSuffice(m: Items, costcap: int, gascap: nat, costLimit: int, gasLimit: nat, strict: bool)
    requires CapsHold(m, costcap, gascap) && costcap <= costLimit && gascap <= gasLimit
    ensures Payable(m, costLimit, gasLimit, strict) == m
    ensures TxSet(Unpayable(m, costLimit, gasLimit)) == {} && TxSet(Invalidated(m, costLimit, gasLimit, strict)) == {}
  {
  }

  /** Dropping what is over a limit leaves a list within the limits. */
  lemma DropsUnpayable(m: Items, drop: Tx -> bool, costLimit: int, gasLimit: nat)
    requires Keyed(m) && forall t :: drop(t) <==> Over(t, costLimit, gasLimit)
    ensures CapsHold(Kept(m, drop, {}), costLimit, gasLimit)
    ensures Kept(m, drop, {}) == Payable(m, costLimit, gasLimit, false)
    ensures TxSet(m) - TxSet(Kept(m, drop, {})) == TxSet(Unpayable(m, costLimit, gasLimit))
    ensures TxSet(Invalidated(m, costLimit, gasLimit, false)) == {}
  {
    KeptComplement(m, drop, Unpayable(m, costLimit, gasLimit));
  }

  /** Then dropping what lies past the lowest of those leaves what a strict list keeps. */
  lemma DropsInvalidated(m: Items, kept: Items, drop: Tx -> bool, lowest: Nonce, costLimit: int, gasLimit: nat)
    requires Keyed(m) && kept == Payable(m, costLimit, gasLimit, false)
    requires lowest in Unpayable(m, costLimit, gasLimit)
    requires forall n :: n in Unpayable(m, costLimit, gasLimit) ==> lowest <= n
    requires forall t :: drop(t) <==> t.nonce > lowest
    ensures Kept(kept, drop, {}) == Payable(m, costLimit, gasLimit, true)
    ensures CapsHold(Payable(m, costLimit, gasLimit, true), costLimit, gasLimit)
    ensures TxSet(kept) - TxSet(Kept(kept, drop, {})) == TxSet(Invalidated(m, costLimit, gasLimit, true))
  {
    forall n | n in kept
      ensures n > lowest <==> Stranded(m, costLimit, gasLimit, n)
    {
      if Stranded(m, costLimit, gasLimit, n) {
        var k :| k in m && k < n && Over(m[k], costLimit, gasLimit);
        assert k in Unpayable(m, costLimit, gasLimit);
      }
    }
    KeptComplement(kept, drop, Invalidated(m, costLimit, gasLimit, true));
  }

  lemma KeptComplement(m: Items, drop: Tx -> bool, gone: Items)
    requires Keyed(m) && gone == map n | n in m && drop(m[n]) :: m[n]
    ensures TxSet(m) - TxSet(Kept(m, drop, {})) == TxSet(gone)
  {
    TxSetMembers(m);
    TxSetMembers(gone);
    TxSetMembers(Kept(m, drop, {}));
  }

  /** The least nonce among the removed transactions is the least over a limit. */
  lemma LowestRemoved(m: Items, removed: seq<Tx>, lowest: Nonce, costLimit: int, gasLimit: nat)
    requires Keyed(m) && multiset(removed) == multiset(TxSet(Unpayable(m, costLimit, gasLimit)))
    requires forall i :: 0 <= i < |removed| ==> lowest <= removed[i].nonce
    requires exists i :: 0 <= i < |removed| && removed[i].nonce == lowest
    ensures lowest in Unpayable(m, costLimit, gasLimit)
    ensures forall n :: n in Unpayable(m, costLimit, gasLimit) ==> lowest <= n
  {
    var gone := Unpayable(m, costLimit, gasLimit);
    forall t ensures t in removed <==> t in TxSet(gone) {
      assert t in removed <==> t in multiset(removed);
    }
    var i :| 0 <= i < |removed| && removed[i].nonce == lowest;
    assert removed[i] in removed;
    forall n | n in gone ensures lowest <= n {
      assert gone[n] in removed;
    }
  }

  /** With nothing over a limit, strict and loose lists keep the same. */
  lemma NothingUnpayable(m: Items, costLimit: int, gasLimit: nat)
    requires multiset(TxSet(Unpayable(m, costLimit, gasLimit))) == multiset{}
    ensures Payable(m, costLimit, gasLimit, true) == Payable(m, costLimit, gasLimit, false)
    ensures TxSet(Invalidated(m, costLimit, gasLimit, true)) == {}
  {
    var gone := Unpayable(m, costLimit, gasLimit);
    forall t ensures t !in TxSet(gone) {
      assert t in multiset(TxSet(gone)) <==> t in TxSet(gone);
    }
    NoTxs(gone);
    assert forall n :: n in m && Over(m[n], costLimit, gasLimit) ==> n in gone;
  }

  lemma NoTxs(m: Items)
    ensures TxSet(m) == {} ==> m == map[]
  {
    assert forall n :: n in m ==> m[n] in TxSet(m);
  }

  /** Removing a nonce and all past it leaves what lies below. */
  lemma RemovesPast(m: Items, drop: Tx -> bool, n: Nonce, costcap: int, gascap: nat)
    requires Keyed(m) && (forall t :: drop(t) <==> t.nonce > n) && CapsHold(m, costcap, gascap)
    ensures Kept(m - {n}, drop, {}) == Below(m, n)
    ensures TxSet(m - {n}) - TxSet(Below(m, n)) == TxSet(Above(m, n))
    ensures CapsHold(Below(m, n), costcap, gascap) && CapsHold(m - {n}, costcap, gascap)
  {
    KeptComplement(m - {n}, drop, Above(m, n));
  }

  class TxList {
    const strict: bool
    const txs: TxSortedMap
    var costcap: int
    var gascap: nat

    ghost predicate Valid()
      reads this, txs
    {
      txs.Valid() && CapsHold(txs.items, costcap, gascap)
    }

    constructor (strict: bool)
      ensures Valid() && fresh(txs) && txs.items == map[] && this.strict == strict
    {
      this.strict := strict;
      txs := new TxSortedMap();
      costcap := 0;
      gascap := 0;
    }

    method Overlaps(tx: Tx) returns (b: bool)
      ensures b <==> tx.nonce in txs.items
    {
      var prev := txs.Get(tx.nonce);
      b := prev.Some?;
    }

    method Add(tx: Tx, priceBump: nat) returns (inserted: bool, replaced: Option<Tx>)
      requires Valid()
      modifies this, txs
      ensures Valid()
      ensures inserted <==>
              (tx.nonce in old(txs.items) ==>
                 var prev := old(txs.items)[tx.nonce];
                 prev.price < tx.price && prev.price * (100 + priceBump) < 100 * (tx.price + 1))
      ensures txs.items == if inserted then old(txs.items)[tx.nonce := tx] else old(txs.items)
      ensures replaced == if inserted && tx.nonce in old(txs.items) then Some(old(txs.items)[tx.nonce]) else None
    {
      hide Indexes, Keyed, Flattens;
      var prev := txs.Get(tx.nonce);
      if prev.Some? {
        var threshold := prev.value.price * (100 + priceBump) / 100;
        if prev.value.price >= tx.price || threshold > tx.price {
          return false, None;
        }
      }
      txs.Put(tx);
      if costcap < tx.cost {
        costcap := tx.cost;
      }
      if gascap < tx.gas {
        gascap := tx.gas;
      }
      return true, prev;
    }

    method Forward(threshold: Nonce) returns (removed: seq<Tx>)
      requires Valid()
      modifies txs
      ensures Valid() && txs.items == AtLeast(old(txs.items), threshold)
      ensures Flattens(removed, Below(old(txs.items), threshold))
    {
      removed := txs.Forward(threshold);
    }

    /** The cached caps may skip the scan, but the outcome is that of the plain scan. */
    method Filter(costLimit: int, gasLimit: nat) returns (removed: seq<Tx>, invalids: seq<Tx>)
      requires Valid()
      modifies this, txs
      ensures Valid() && txs.items == Payable(old(txs.items), costLimit, gasLimit, strict)
      ensures WithinLimits(txs.items, old(txs.items), costLimit, gasLimit, strict)
      ensures multiset(removed) == multiset(TxSet(Unpayable(old(txs.items), costLimit, gasLimit)))
      ensures multiset(invalids) == multiset(TxSet(Invalidated(old(txs.items), costLimit, gasLimit, strict)))
    {
      hide Indexes, Keyed, Flattens, CapsHold, Kept, Payable, Unpayable, Invalidated, TxSet, WithinLimits;
      removed, invalids := [], [];
      PayableIff(txs.items, costLimit, gasLimit, strict);
      if costcap <= costLimit && gascap <= gasLimit {
        CapsSuffice(txs.items, costcap, gascap, costLimit, gasLimit, strict);
        return;
      }
      costcap := costLimit;
      gascap := gasLimit;
      var over := (t: Tx) => Over(t, costLimit, gasLimit);
      DropsUnpayable(txs.items, over, costLimit, gasLimit);
      removed := txs.Filter(over);
      if strict && |removed| > 0 {
        var lowest := LowestNonce(removed);
        LowestRemoved(old(txs.items), removed, lowest, costLimit, gasLimit);
        var past := (t: Tx) => t.nonce > lowest;
        DropsInvalidated(old(txs.items), txs.items, past, lowest, costLimit, gasLimit);
        invalids := txs.Filter(past);
      } else if strict {
        NothingUnpayable(old(txs.items), costLimit, gasLimit);
      }
    }

    static method LowestNonce(removed: seq<Tx>) returns (lowest: Nonce)
      requires |removed| > 0
      ensures forall i :: 0 <= i < |removed| ==> lowest <= removed[i].nonce
      ensures exists i :: 0 <= i < |removed| && removed[i].nonce == lowest
    {
      lowest := removed[0].nonce;
      for i := 1 to |removed|
        invariant forall j :: 0 <= j < i ==> lowest <= removed[j].nonce
        invariant exists j :: 0 <= j < i && removed[j].nonce == lowest
      {
        if lowest > removed[i].nonce {
          lowest := removed[i].nonce;
        }
      }
    }

    method Cap(threshold: nat) returns (drops: seq<Tx>)
      requires Valid()
      modifies txs
      ensures Valid() && IsCapped(txs.items, old(txs.items), threshold)
      ensures forall t :: t in drops <==> t in TxSet(old(txs.items)) - TxSet(txs.items)
      ensures forall i, j :: 0 <= i < j < |drops| ==> drops[i].nonce > drops[j].nonce
    {
      drops := txs.Cap(threshold);
    }

    /** In strict mode everything past the removed nonce is invalidated with it. */
    method Remove(tx: Tx) returns (found: bool, invalids: seq<Tx>)
      requires Valid()
      modifies txs
      ensures Valid()
      ensures found <==> tx.nonce in old(txs.items)
      ensures txs.items == if strict && found then Below(old(txs.items), tx.nonce) else old(txs.items) - {tx.nonce}
      ensures multiset(invalids) == if strict && found then multiset(TxSet(Above(old(txs.items), tx.nonce)))
                else multiset{}
    {
      hide Indexes, Keyed, Flattens, CapsHold, Kept, TxSet, Below, Above;
      invalids := [];
      var past := (t: Tx) => t.nonce > tx.nonce;
      RemovesPast(txs.items, past, tx.nonce, costcap, gascap);
      found := txs.Remove(tx.nonce);
      if found && strict {
        invalids := txs.Filter(past);
      }
    }

    method Ready(start: Nonce) returns (ready: seq<Tx>)
      requires Valid()
      modifies txs
      ensures Valid() && txs.items == old(txs.items) - ReadyPart(old(txs.items), start).Keys
      ensures Flattens(ready, ReadyPart(old(txs.items), start))
    {
      ready := txs.Ready(start);
    }

    method Flatten() returns (flat: seq<Tx>)
      requires Valid()
      modifies txs
      ensures Valid() && txs.items == old(txs.items)
      ensures Flattens(flat, txs.items)
    {
      flat := txs.Flatten();
    }
  }
}

/**
 Binary min-heaps over sequences: the sift-up and sift-down steps of Go's container/heap,
 which metrics/sample.go copies, as functions, and the heap operations built from them.
 Elements are compared by a real-valued key, so one module serves nonces, prices and weights.
 */
module Heaps {

  function Swap<T>(s: seq<T>, i: nat, j: nat): (r: seq<T>)
    requires i < |s| && j < |s|
    ensures |r| == |s|
    ensures multiset(r) == multiset(s)
  {
    s[i := s[j]][j := s[i]]
  }

  /** The parent index; Go's division truncates, so the root is its own parent. */
  function Parent(i: nat): nat {
    if i == 0 then 0 else (i - 1) / 2
  }

  /** The edge from index c up to its parent is in order. */
  ghost predicate Edge<T>(s: seq<T>, c: nat, key: T -> real)
    requires c < |s|
  {
    key(s[Parent(c)]) <= key(s[c])
  }

  /** Every edge inside the first n elements is in order. */
  ghost predicate IsHeap<T>(s: seq<T>, n: nat, key: T -> real)
    requires n <= |s|
  {
    forall c: nat :: c < n ==> Edge(s, c, key)
  }

  /** The edges below parents lo and up are in order. */
  ghost predicate OrderedFrom<T>(s: seq<T>, lo: nat, n: nat, key: T -> real)
    requires n <= |s|
  {
    forall c: nat :: 0 < c < n && lo <= Parent(c) ==> Edge(s, c, key)
  }

  /** In order from lo, but for the edges around i; what sits above i fits what sits below it. */
  ghost predicate LooseAt<T>(s: seq<T>, i: nat, lo: nat, n: nat, key: T -> real)
    requires i < n <= |s|
  {
    && (forall c: nat :: 0 < c < n && lo <= Parent(c) && c != i && Parent(c) != i ==> Edge(s, c, key))
    && (forall c: nat :: 0 < c < n && Parent(c) == i && 0 < i && lo <= Parent(i) ==> key(s[Parent(i)]) <= key(s[c]))
  }

  /** The root of a heap is a least element. */
  lemma {:induction false} RootIsLeast<T>(s: seq<T>, n: nat, key: T -> real, i: nat)
    requires i < n <= |s| && IsHeap(s, n, key)
    ensures key(s[0]) <= key(s[i])
  {
    if i > 0 {
      assert Edge(s, i, key);
      RootIsLeast(s, n, key, Parent(i));
    }
  }

  /** Moves the element at j towards the root while it is below its parent. */
  function SiftUp<T>(s: seq<T>, j: nat, key: T -> real): (r: seq<T>)
    requires j < |s|
    ensures |r| == |s| && multiset(r) == multiset(s)
    ensures forall k :: j < k < |s| ==> r[k] == s[k]
    decreases j
  {
    var i := Parent(j);
    if i == j || !(key(s[j]) < key(s[i])) then s
    else SiftUp(Swap(s, i, j), i, key)
  }

  lemma {:induction false} SiftUpRestores<T>(s: seq<T>, j: nat, n: nat, key: T -> real)
    requires j < n <= |s|
    requires LooseAt(s, j, 0, n, key)
    requires forall c: nat :: 0 < c < n && Parent(c) == j ==> Edge(s, c, key)
    ensures IsHeap(SiftUp(s, j, key), n, key)
    decreases j
  {
    var i := Parent(j);
    if i == j || !(key(s[j]) < key(s[i])) {
      assert forall c: nat :: c < n && c > 0 ==> Edge(s, c, key);
      assert Edge(s, 0, key);
    } else {
      RiseOnce(s, j, n, key);
      SiftUpRestores(Swap(s, i, j), i, n, key);
    }
  }

  /** One step of rising leaves the sequence loose one level further up, and nowhere else. */
  lemma RiseOnce<T>(s: seq<T>, j: nat, n: nat, key: T -> real)
    requires 0 < j < n <= |s| && key(s[j]) < key(s[Parent(j)])
    requires LooseAt(s, j, 0, n, key)
    requires forall c: nat :: 0 < c < n && Parent(c) == j ==> Edge(s, c, key)
    ensures var t := Swap(s, Parent(j), j);
            LooseAt(t, Parent(j), 0, n, key) && forall c: nat :: 0 < c < n && Parent(c) == Parent(j) ==> Edge(t, c, key)
  {
    var i := Parent(j);
    var t := Swap(s, i, j);
    forall c: nat | 0 < c < n && c != i
      ensures Edge(t, c, key)
    {
      assert c != j && Parent(c) != j ==> Edge(s, c, key);
      if Parent(c) == j { assert Edge(s, c, key); }
    }
    forall c: nat | 0 < c < n && Parent(c) == i && 0 < i
      ensures key(t[Parent(i)]) <= key(t[c])
    {
      assert Edge(s, i, key);
      if c != j { assert Edge(s, c, key); }
    }
  }

  /** The child of i that a sift-down compares with: the right one unless the left is less. */
  function Child<T>(s: seq<T>, i: nat, n: nat, key: T -> real): (j: nat)
    requires 2 * i + 1 < n <= |s|
    ensures i < j < n && Parent(j) == i
    ensures forall c: nat :: 0 < c < n && Parent(c) == i ==> key(s[j]) <= key(s[c])
  {
    if 2 * i + 2 < n && !(key(s[2 * i + 1]) < key(s[2 * i + 2])) then 2 * i + 2 else 2 * i + 1
  }

  /** Whether a sift-down at i moves anything. */
  predicate Sinks<T>(s: seq<T>, i: nat, n: nat, key: T -> real)
    requires i < n <= |s|
  {
    2 * i + 1 < n && key(s[Child(s, i, n, key)]) < key(s[i])
  }

  /** Moves the element at i towards the leaves of the first n elements. */
  function SiftDown<T>(s: seq<T>, i: nat, n: nat, key: T -> real): (r: seq<T>)
    requires i < n <= |s|
    ensures |r| == |s| && multiset(r) == multiset(s)
    ensures forall k :: n <= k < |s| ==> r[k] == s[k]
    decreases n - i
  {
    if !Sinks(s, i, n, key) then s
    else
      var j := Child(s, i, n, key);
      SiftDown(Swap(s, i, j), j, n, key)
  }

  /** After a sift-down every edge is in order, but perhaps the one above i if nothing moved. */
  lemma {:induction false} SiftDownRestores<T>(s: seq<T>, i: nat, lo: nat, n: nat, key: T -> real)
    requires i < n <= |s|
    requires LooseAt(s, i, lo, n, key)
    ensures var r := SiftDown(s, i, n, key);
            forall c: nat :: 0 < c < n && lo <= Parent(c) && (c != i || Sinks(s, i, n, key)) ==> Edge(r, c, key)
    decreases n - i
  {
    if Sinks(s, i, n, key) {
      var j := Child(s, i, n, key);
      var t := Swap(s, i, j);
      SinkOnce(s, i, lo, n, key);
      SiftDownRestores(t, j, lo, n, key);
      SiftDownAbove(t, j, n, key);
      var r := SiftDown(t, j, n, key);
      forall c: nat | 0 < c < n && lo <= Parent(c)
        ensures Edge(r, c, key)
      {
        if c == j {
          SiftDownReplaces(t, j, n, key);
        }
      }
    } else {
      forall c: nat | 0 < c < n && lo <= Parent(c) && c != i
        ensures Edge(s, c, key)
      {
      }
    }
  }

  /** One step of sinking leaves the sequence loose one level further down. */
  lemma SinkOnce<T>(s: seq<T>, i: nat, lo: nat, n: nat, key: T -> real)
    requires i < n <= |s|
    requires LooseAt(s, i, lo, n, key)
    requires Sinks(s, i, n, key)
    ensures var j := Child(s, i, n, key); LooseAt(Swap(s, i, j), j, lo, n, key)
  {
    var j := Child(s, i, n, key);
    var t := Swap(s, i, j);
    forall c: nat | 0 < c < n && lo <= Parent(c) && c != j && Parent(c) != j
      ensures Edge(t, c, key)
    {
      if c != i && Parent(c) != i { assert Edge(s, c, key); }
    }
    forall c: nat | 0 < c < n && Parent(c) == j && 0 < j && lo <= Parent(j)
      ensures key(t[Parent(j)]) <= key(t[c])
    {
      assert Edge(s, c, key);
    }
  }

  /** Sinking from j leaves everything before j as it was. */
  lemma {:induction false} SiftDownAbove<T>(s: seq<T>, j: nat, n: nat, key: T -> real)
    requires j < n <= |s|
    ensures forall k :: 0 <= k < j ==> SiftDown(s, j, n, key)[k] == s[k]
    decreases n - j
  {
    if Sinks(s, j, n, key) {
      SiftDownAbove(Swap(s, j, Child(s, j, n, key)), Child(s, j, n, key), n, key);
    }
  }

  /** After sinking, index j holds the old element or the least child of it. */
  lemma SiftDownReplaces<T>(s: seq<T>, j: nat, n: nat, key: T -> real)
    requires j < n <= |s|
    ensures var r := SiftDown(s, j, n, key);
            r[j] == if Sinks(s, j, n, key) then s[Child(s, j, n, key)] else s[j]
  {
    if Sinks(s, j, n, key) {
      SiftDownAbove(Swap(s, j, Child(s, j, n, key)), Child(s, j, n, key), n, key);
    }
  }

  // ---- The operations of container/heap ----

  /** heap.Push */
  function Push<T>(s: seq<T>, x: T, key: T -> real): (r: seq<T>)
    requires IsHeap(s, |s|, key)
    ensures |r| == |s| + 1 && multiset(r) == multiset(s) + multiset{x}
    ensures IsHeap(r, |r|, key)
  {
    PushIsHeap(s, x, key);
    SiftUp(s + [x], |s|, key)
  }

  lemma PushIsHeap<T>(s: seq<T>, x: T, key: T -> real)
    requires IsHeap(s, |s|, key)
    ensures IsHeap(SiftUp(s + [x], |s|, key), |s| + 1, key)
  {
    var t := s + [x];
    forall c: nat | 0 < c < |t| && c != |s|
      ensures Edge(t, c, key) && Parent(c) != |s|
    {
      assert Edge(s, c, key);
    }
    SiftUpRestores(t, |s|, |t|, key);
  }

  /** heap.Pop: what is left of the heap; the popped element is s[0]. */
  function Pop<T>(s: seq<T>, key: T -> real): (r: seq<T>)
    requires |s| > 0 && IsHeap(s, |s|, key)
    ensures |r| == |s| - 1 && multiset(s) == multiset(r) + multiset{s[0]}
    ensures IsHeap(r, |r|, key)
    ensures forall i :: 0 <= i < |r| ==> key(s[0]) <= key(r[i])
  {
    RemoveLeavesAtLeastRoot(s, 0, key);
    Remove(s, 0, key)
  }

  /** The repair of heap.Remove at i: sink, or rise if nothing sank. */
  function Settle<T>(t: seq<T>, i: nat, n: nat, key: T -> real): (u: seq<T>)
    requires i < n <= |t|
    ensures |u| == |t| && multiset(u) == multiset(t)
    ensures forall k :: n <= k < |t| ==> u[k] == t[k]
  {
    if Sinks(t, i, n, key) then SiftDown(t, i, n, key) else SiftUp(t, i, key)
  }

  /** Sinking at i, when it moves something, restores a heap that is loose only at i. */
  lemma SinkingRestores<T>(t: seq<T>, i: nat, n: nat, key: T -> real)
    requires i < n <= |t| && LooseAt(t, i, 0, n, key) && Sinks(t, i, n, key)
    ensures IsHeap(SiftDown(t, i, n, key), n, key)
  {
    SiftDownRestores(t, i, 0, n, key);
    var u := SiftDown(t, i, n, key);
    assert Edge(u, 0, key);
    assert forall c: nat :: c < n ==> c == 0 || Edge(u, c, key);
  }

  /** When nothing sinks at i, rising restores it. */
  lemma RisingRestores<T>(t: seq<T>, i: nat, n: nat, key: T -> real)
    requires i < n <= |t| && LooseAt(t, i, 0, n, key) && !Sinks(t, i, n, key)
    ensures IsHeap(SiftUp(t, i, key), n, key)
  {
    forall c: nat | 0 < c < n && Parent(c) == i
      ensures Edge(t, c, key)
    {
      assert 2 * i + 1 < n;
      assert key(t[Child(t, i, n, key)]) <= key(t[c]);
    }
    SiftUpRestores(t, i, n, key);
  }

  lemma SettleRestores<T>(t: seq<T>, i: nat, n: nat, key: T -> real)
    requires i < n <= |t| && LooseAt(t, i, 0, n, key)
    ensures IsHeap(Settle(t, i, n, key), n, key)
  {
    if Sinks(t, i, n, key) {
      SinkingRestores(t, i, n, key);
    } else {
      RisingRestores(t, i, n, key);
    }
  }

  /** A heap over a prefix is a heap when cut to that prefix. */
  lemma CutIsHeap<T>(s: seq<T>, n: nat, key: T -> real)
    requires n <= |s| && IsHeap(s, n, key)
    ensures IsHeap(s[..n], n, key)
  {
    forall c: nat | c < n ensures Edge(s[..n], c, key) {
      assert Edge(s, c, key);
    }
  }

  /** Index i swapped to the end, the rest repaired, the end cut off. */
  function Removed<T>(s: seq<T>, i: nat, key: T -> real): (r: seq<T>)
    requires i < |s|
    ensures |r| == |s| - 1
  {
    var n := |s| - 1;
    if i == n then s[..n] else Settle(Swap(s, i, n), i, n, key)[..n]
  }

  /** heap.Remove at index i. */
  function Remove<T>(s: seq<T>, i: nat, key: T -> real): (r: seq<T>)
    requires i < |s| && IsHeap(s, |s|, key)
    ensures |r| == |s| - 1 && multiset(s) == multiset(r) + multiset{s[i]}
    ensures IsHeap(r, |r|, key)
  {
    RemovedIsHeap(s, i, key);
    Removed(s, i, key)
  }

  lemma RemovedIsHeap<T>(s: seq<T>, i: nat, key: T -> real)
    requires i < |s| && IsHeap(s, |s|, key)
    ensures var r := Removed(s, i, key);
            IsHeap(r, |s| - 1, key) && multiset(s) == multiset(r) + multiset{s[i]}
  {
    hide Settle;
    if i == |s| - 1 {
      CutIsHeap(s, i, key);
      CutLast(s);
    } else {
      RemoveRepairs(s, i, key);
    }
  }

  lemma CutLast<T>(s: seq<T>)
    requires |s| > 0
    ensures multiset(s) == multiset(s[..|s| - 1]) + multiset{s[|s| - 1]}
  {
    assert s == s[..|s| - 1] + [s[|s| - 1]];
  }

  lemma RemoveRepairs<T>(s: seq<T>, i: nat, key: T -> real)
    requires i < |s| - 1 && IsHeap(s, |s|, key)
    ensures var n := |s| - 1;
            var u := Settle(Swap(s, i, n), i, n, key);
            IsHeap(u[..n], n, key) && multiset(s) == multiset(u[..n]) + multiset{s[i]}
  {
    hide Settle, IsHeap, LooseAt;
    var n := |s| - 1;
    var u := Settle(Swap(s, i, n), i, n, key);
    RemoveLoose(s, i, key);
    SettleRestores(Swap(s, i, n), i, n, key);
    CutIsHeap(u, n, key);
    CutLast(u);
  }

  lemma RemoveLoose<T>(s: seq<T>, i: nat, key: T -> real)
    requires i < |s| - 1 && IsHeap(s, |s|, key)
    ensures LooseAt(Swap(s, i, |s| - 1), i, 0, |s| - 1, key)
  {
    var n := |s| - 1;
    var t := Swap(s, i, n);
    forall c: nat | 0 < c < n && c != i && Parent(c) != i
      ensures Edge(t, c, key)
    {
      assert Edge(s, c, key);
    }
    forall c: nat | 0 < c < n && Parent(c) == i && 0 < i
      ensures key(t[Parent(i)]) <= key(t[c])
    {
      assert Edge(s, c, key);
      assert Edge(s, i, key);
    }
  }

  /** Nothing left after a removal is below the old root. */
  lemma RemoveLeavesAtLeastRoot<T>(s: seq<T>, i: nat, key: T -> real)
    requires i < |s| && IsHeap(s, |s|, key)
    ensures var r := Remove(s, i, key);
            forall k :: 0 <= k < |r| ==> key(s[0]) <= key(r[k])
  {
    var r := Remove(s, i, key);
    forall k | 0 <= k < |r|
      ensures key(s[0]) <= key(r[k])
    {
      assert r[k] in multiset(r);
      assert r[k] in multiset(s);
      var m :| 0 <= m < |s| && s[m] == r[k];
      RootIsLeast(s, |s|, key, m);
    }
  }

  /** heap.Init on an arbitrary sequence, from the last parent down to the root. */
  function Init<T>(s: seq<T>, key: T -> real): (r: seq<T>)
    ensures |r| == |s| && multiset(r) == multiset(s)
    ensures IsHeap(r, |r|, key)
  {
    assert OrderedFrom(s, |s| / 2, |s|, key);
    InitFrom(s, |s| / 2, key)
  }

  /** Sinks the indices below lo, highest first. */
  function InitFrom<T>(s: seq<T>, lo: nat, key: T -> real): (r: seq<T>)
    requires lo <= |s| / 2
    requires OrderedFrom(s, lo, |s|, key)
    ensures |r| == |s| && multiset(r) == multiset(s)
    ensures IsHeap(r, |r|, key)
    decreases lo
  {
    if lo == 0 then
      assert forall c: nat :: c < |s| ==> c == 0 || Edge(s, c, key);
      s
    else
      InitStep(s, lo, key);
      InitFrom(SiftDown(s, lo - 1, |s|, key), lo - 1, key)
  }

  lemma InitStep<T>(s: seq<T>, lo: nat, key: T -> real)
    requires 0 < lo <= |s| / 2
    requires OrderedFrom(s, lo, |s|, key)
    ensures OrderedFrom(SiftDown(s, lo - 1, |s|, key), lo - 1, |s|, key)
  {
    SiftDownRestores(s, lo - 1, lo - 1, |s|, key);
  }
}

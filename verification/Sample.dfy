/**
 metrics/sample.go: the exponentially decaying sample, a reservoir kept as a min-heap of weights
 in a fixed array. Weights are reals; the clock and the random source are the weights and the
 decay factors that come in.
 */
module Samples {
  import opened Wrappers
  import Heaps

  datatype Entry = Entry(k: real, v: int)

  function Weight(e: Entry): real {
    e.k
  }

  // ---- Rescaling ----

  function Scale(e: Entry, f: real): Entry {
    e.(k := e.k * f)
  }

  function Scaled(s: seq<Entry>, f: real): seq<Entry> {
    seq(|s|, i requires 0 <= i < |s| => Scale(s[i], f))
  }

  lemma ScaleOrder(a: real, b: real, f: real)
    requires f > 0.0
    ensures a * f <= b * f <==> a <= b
  {
    if a < b {
      assert (b - a) * f > 0.0;
    } else if b < a {
      assert (a - b) * f > 0.0;
    }
  }

  lemma ScaleInjective(x: Entry, y: Entry, f: real)
    requires f > 0.0
    ensures Scale(x, f) == Scale(y, f) <==> x == y
  {
    ScaleOrder(x.k, y.k, f);
    ScaleOrder(y.k, x.k, f);
  }

  lemma ScaleOnto(y: Entry, f: real) returns (x: Entry)
    requires f > 0.0
    ensures Scale(x, f) == y
  {
    x := Entry(y.k / f, y.v);
  }

  lemma {:induction false} ScaledCount(s: seq<Entry>, f: real, x: Entry)
    requires f > 0.0
    ensures multiset(Scaled(s, f))[Scale(x, f)] == multiset(s)[x]
  {
    if s != [] {
      var t, e := s[..|s| - 1], s[|s| - 1];
      ScaledCount(t, f, x);
      ScaleInjective(x, e, f);
      assert s == t + [e] && Scaled(s, f) == Scaled(t, f) + [Scale(e, f)];
    }
  }

  lemma ScaledIsHeap(s: seq<Entry>, f: real)
    requires f > 0.0 && Heaps.IsHeap(s, |s|, Weight)
    ensures Heaps.IsHeap(Scaled(s, f), |s|, Weight)
  {
    forall c: nat | c < |s|
      ensures Heaps.Edge(Scaled(s, f), c, Weight)
    {
      assert Heaps.Edge(s, c, Weight);
      ScaleOrder(s[Heaps.Parent(c)].k, s[c].k, f);
    }
  }

  /** Re-pushing the elements of a heap in order moves none of them. */
  lemma PushInPlace(s: seq<Entry>, i: nat)
    requires i < |s| && Heaps.IsHeap(s, |s|, Weight)
    ensures Heaps.IsHeap(s[..i], i, Weight)
    ensures Heaps.Push(s[..i], s[i], Weight) == s[..i + 1]
  {
    Heaps.CutIsHeap(s, i, Weight);
    assert s[..i] + [s[i]] == s[..i + 1];
    assert Heaps.Edge(s, i, Weight);
  }

  // ---- The sample as a value ----

  /** What one update makes of the reservoir: room is made first, then the entry goes in, then weights decay. */
  function Updated(s: seq<Entry>, size: nat, e: Entry, decay: Option<real>): (r: seq<Entry>)
    requires 0 < size && |s| <= size && Heaps.IsHeap(s, |s|, Weight)
    requires decay.Some? ==> decay.value > 0.0
    ensures Heaps.IsHeap(r, |r|, Weight)
    ensures |r| == if |s| < size then |s| + 1 else size
  {
    var room := if |s| == size then Heaps.Pop(s, Weight) else s;
    var pushed := Heaps.Push(room, e, Weight);
    match decay
    case None => pushed
    case Some(f) => ScaledIsHeap(pushed, f); Scaled(pushed, f)
  }

  // ---- The heap in its array ----

  lemma UpStep(s: seq<Entry>, j: nat)
    requires j < |s|
    ensures var i := Heaps.Parent(j);
            Heaps.SiftUp(s, j, Weight) == if i == j || !(s[j].k < s[i].k) then s
                                          else Heaps.SiftUp(Heaps.Swap(s, i, j), i, Weight)
  {
  }

  lemma DownStep(s: seq<Entry>, i: nat, m: nat)
    requires i < m <= |s|
    ensures 2 * i + 1 < m ==>
              var j := if 2 * i + 2 < m && !(s[2 * i + 1].k < s[2 * i + 2].k) then 2 * i + 2 else 2 * i + 1;
              Heaps.SiftDown(s, i, m, Weight) == if !(s[j].k < s[i].k) then s
                                                 else Heaps.SiftDown(Heaps.Swap(s, i, j), j, m, Weight)
    ensures m <= 2 * i + 1 ==> Heaps.SiftDown(s, i, m, Weight) == s
  {
  }

  /** The capacity is the length of the array; the slice of the source is the first n entries. */
  class SampleHeap {
    const s: array<Entry>
    var n: nat

    ghost predicate Valid()
      reads this, s
    {
      n <= s.Length && Heaps.IsHeap(s[..n], n, Weight)
    }

    constructor (reservoirSize: nat)
      ensures Valid() && fresh(s) && s.Length == reservoirSize && n == 0
    {
      s := new Entry[reservoirSize](_ => Entry(0.0, 0));
      n := 0;
    }

    method Clear()
      modifies `n
      ensures n == 0
    {
      n := 0;
    }

    method SwapAt(i: nat, j: nat)
      requires i < n <= s.Length && j < n
      modifies s
      ensures s[..n] == Heaps.Swap(old(s[..n]), i, j)
      ensures s[n..] == old(s[n..])
    {
      s[i], s[j] := s[j], s[i];
    }

    method Up(j0: nat)
      requires j0 < n <= s.Length
      modifies s
      ensures s[..n] == Heaps.SiftUp(old(s[..n]), j0, Weight)
      ensures s[n..] == old(s[n..])
    {
      hide Heaps.SiftUp, Heaps.Swap;
      var j: nat := j0;
      while true
        invariant j < n
        invariant Heaps.SiftUp(s[..n], j, Weight) == Heaps.SiftUp(old(s[..n]), j0, Weight)
        invariant s[n..] == old(s[n..])
        decreases j
      {
        UpStep(s[..n], j);
        var i: nat := if j == 0 then 0 else (j - 1) / 2;
        if i == j || !(s[j].k < s[i].k) {
          break;
        }
        SwapAt(i, j);
        j := i;
      }
    }

    method Down(i0: nat, m: nat)
      requires i0 <= m <= n <= s.Length
      modifies s
      ensures s[..n] == if i0 < m then Heaps.SiftDown(old(s[..n]), i0, m, Weight) else old(s[..n])
      ensures s[n..] == old(s[n..])
    {
      hide Heaps.SiftDown, Heaps.Child, Heaps.Sinks, Heaps.Swap;
      if i0 == m {
        return;
      }
      var i := i0;
      while true
        invariant i < m
        invariant Heaps.SiftDown(s[..n], i, m, Weight) == Heaps.SiftDown(old(s[..n]), i0, m, Weight)
        invariant s[n..] == old(s[n..])
        decreases m - i
      {
        DownStep(s[..n], i, m);
        var j1 := 2 * i + 1;
        if j1 >= m {
          break;
        }
        var j := j1;
        if j1 + 1 < m && !(s[j1].k < s[j1 + 1].k) {
          j := j1 + 1;
        }
        if !(s[j].k < s[i].k) {
          break;
        }
        SwapAt(i, j);
        i := j;
      }
    }

    method Push(e: Entry)
      requires Valid() && n < s.Length
      modifies this, s
      ensures Valid() && n == old(n) + 1
      ensures s[..n] == Heaps.Push(old(s[..n]), e, Weight)
      ensures s[n..] == old(s[n + 1..])
    {
      hide Heaps.SiftUp, Heaps.IsHeap;
      ghost var before := s[..n];
      s[n] := e;
      n := n + 1;
      assert s[..n] == before + [e];
      Up(n - 1);
      assert s[..n] == Heaps.Push(before, e, Weight);
    }

    /** Returns an entry of least weight. */
    method Pop() returns (e: Entry)
      requires Valid() && n > 0
      modifies this, s
      ensures Valid() && n == old(n) - 1
      ensures e == old(s[0]) && s[..n] == Heaps.Pop(old(s[..n]), Weight)
    {
      hide Heaps.SiftDown, Heaps.Child, Heaps.Sinks, Heaps.IsHeap, Heaps.Pop, Heaps.Remove, Heaps.Swap;
      ghost var before := s[..n];
      var m := n - 1;
      SwapAt(0, m);
      Down(0, m);
      ghost var settled := s[..n];
      PopDown(before);
      e := s[n - 1];
      n := n - 1;
      assert s[..n] == settled[..m] == Heaps.Pop(before, Weight);
    }

    /**
     The weights of all entries decay in place: each is read from the array that the earlier
     ones are being pushed back into. Every entry keeps its index.
     */
    method Rescale(f: real)
      requires Valid() && f > 0.0
      modifies this, s
      ensures Valid() && n == old(n) && s[..n] == Scaled(old(s[..n]), f)
      ensures forall i :: 0 <= i < n ==> s[i].k == old(s[i]).k * f && s[i].v == old(s[i]).v
    {
      hide Heaps.Push;
      ghost var target := Scaled(s[..n], f);
      ScaledIsHeap(s[..n], f);
      var m := n;
      Clear();
      for i := 0 to m
        invariant n == i && Valid()
        invariant s[..i] == target[..i]
        invariant s[i..] == old(s[i..])
      {
        PushInPlace(target, i);
        var e := s[i];
        Push(Scale(e, f));
      }
      assert forall i :: 0 <= i < n ==> s[..n][i] == target[i];
    }
  }

  /** Swapping the root to the end and sinking what took its place is a pop. */
  lemma PopDown(s: seq<Entry>)
    requires |s| > 0 && Heaps.IsHeap(s, |s|, Weight)
    ensures var m := |s| - 1;
            var t := Heaps.Swap(s, 0, m);
            var u := if 0 < m then Heaps.SiftDown(t, 0, m, Weight) else t;
            u[..m] == Heaps.Pop(s, Weight) && u[m] == s[0]
  {
  }

  class ExpDecaySample {
    const reservoirSize: nat
    const values: SampleHeap
    var count: nat

    ghost predicate Valid()
      reads this, values, values.s
    {
      0 < reservoirSize == values.s.Length && values.Valid()
    }

    constructor (reservoirSize: nat)
      requires 0 < reservoirSize
      ensures Valid() && fresh(values) && fresh(values.s) && this.reservoirSize == reservoirSize
      ensures count == 0 && values.n == 0
    {
      this.reservoirSize := reservoirSize;
      values := new SampleHeap(reservoirSize);
      count := 0;
    }

    method Update(e: Entry, decay: Option<real>)
      requires Valid() && (decay.Some? ==> decay.value > 0.0)
      modifies this, values, values.s
      ensures Valid() && count == old(count) + 1
      ensures values.s[..values.n] == Updated(old(values.s[..values.n]), reservoirSize, e, decay)
    {
      count := count + 1;
      if values.n == reservoirSize {
        var _ := values.Pop();
      }
      values.Push(e);
      if decay.Some? {
        values.Rescale(decay.value);
      }
    }
  }

  // ---- What the reservoir keeps ----

  /** The entries kept are among those seen, and none that was dropped weighs more than one kept. */
  ghost predicate Selects(kept: seq<Entry>, seen: multiset<Entry>) {
    && multiset(kept) <= seen
    && forall d, i :: d in seen - multiset(kept) && 0 <= i < |kept| ==> d.k <= kept[i].k
  }

  /** The same, said of multisets. */
  ghost predicate Heaviest(kept: multiset<Entry>, dropped: multiset<Entry>) {
    forall d, x :: d in dropped && x in kept ==> d.k <= x.k
  }

  lemma SelectsHeaviest(kept: seq<Entry>, seen: multiset<Entry>, dropped: multiset<Entry>)
    requires seen == multiset(kept) + dropped
    ensures Selects(kept, seen) <==> Heaviest(multiset(kept), dropped)
  {
    assert seen - multiset(kept) == dropped;
    if Selects(kept, seen) {
      forall d, x | d in dropped && x in multiset(kept)
        ensures d.k <= x.k
      {
        var i :| 0 <= i < |kept| && kept[i] == x;
      }
    }
    if Heaviest(multiset(kept), dropped) {
      assert forall i :: 0 <= i < |kept| ==> kept[i] in multiset(kept);
    }
  }

  /** Exchanging a lightest entry for a new one keeps the heaviest exactly if the new one weighs as much. */
  lemma ExchangeHeaviest(kept: multiset<Entry>, dropped: multiset<Entry>, least: Entry, e: Entry)
    requires Heaviest(kept, dropped) && least in kept && forall x :: x in kept ==> least.k <= x.k
    ensures Heaviest(kept - multiset{least} + multiset{e}, dropped + multiset{least}) <==> least.k <= e.k
  {
    var kept', dropped' := kept - multiset{least} + multiset{e}, dropped + multiset{least};
    if Heaviest(kept', dropped') {
      assert least in dropped' && e in kept';
    }
    if least.k <= e.k {
      forall d, x | d in dropped' && x in kept'
        ensures d.k <= x.k
      {
        assert x == e || x in kept;
        assert d == least || d in dropped;
      }
    }
  }

  /**
   Room is made before the new entry is weighed. So an update keeps the reservoir a selection of
   the heaviest entries exactly if there was room, or the new entry weighs at least as much as
   the lightest one kept.
   */
  lemma UpdateSelectsIff(s: seq<Entry>, seen: multiset<Entry>, size: nat, e: Entry)
    requires 0 < size && |s| <= size && Heaps.IsHeap(s, |s|, Weight)
    requires Selects(s, seen) && (|s| < size ==> seen == multiset(s))
    ensures Selects(Updated(s, size, e, None), seen + multiset{e}) <==> |s| < size || s[0].k <= e.k
  {
    hide Heaps.IsHeap, Selects, Updated, Heaviest;
    var r := Updated(s, size, e, None);
    var dropped := seen - multiset(s);
    UpdatedContents(s, size, e);
    if |s| < size {
      AddBoth(seen, multiset(s), e);
      SelectsHeaviest(r, seen + multiset{e}, multiset{});
      HeaviestOfAll(multiset(r));
    } else {
      SelectsIncludes(s, seen);
      SelectsHeaviest(s, seen, dropped);
      RootLightest(s);
      ExchangeHeaviest(multiset(s), dropped, s[0], e);
      Exchange(seen, multiset(s), dropped, s[0], e);
      SelectsHeaviest(r, seen + multiset{e}, dropped + multiset{s[0]});
    }
  }

  /** What an update leaves in the reservoir: a lightest entry makes room if it is full. */
  lemma UpdatedContents(s: seq<Entry>, size: nat, e: Entry)
    requires 0 < size && |s| <= size && Heaps.IsHeap(s, |s|, Weight)
    ensures multiset(Updated(s, size, e, None)) == if |s| < size then multiset(s) + multiset{e}
                                                   else multiset(s) - multiset{s[0]} + multiset{e}
  {
    hide Heaps.Pop, Heaps.Push, Heaps.IsHeap;
  }

  lemma AddBoth(seen: multiset<Entry>, kept: multiset<Entry>, e: Entry)
    requires seen == kept
    ensures seen + multiset{e} == kept + multiset{e} + multiset{}
  {
  }

  lemma Exchange(seen: multiset<Entry>, kept: multiset<Entry>, dropped: multiset<Entry>, least: Entry, e: Entry)
    requires seen == kept + dropped && least in kept
    ensures seen + multiset{e} == kept - multiset{least} + multiset{e} + (dropped + multiset{least})
  {
  }

  lemma HeaviestOfAll(kept: multiset<Entry>)
    ensures Heaviest(kept, multiset{})
  {
  }

  lemma SelectsIncludes(kept: seq<Entry>, seen: multiset<Entry>)
    requires Selects(kept, seen)
    ensures seen == multiset(kept) + (seen - multiset(kept))
  {
  }

  lemma RootLightest(s: seq<Entry>)
    requires |s| > 0 && Heaps.IsHeap(s, |s|, Weight)
    ensures s[0] in multiset(s) && forall x :: x in multiset(s) ==> s[0].k <= x.k
  {
    forall x | x in multiset(s)
      ensures s[0].k <= x.k
    {
      var i :| 0 <= i < |s| && s[i] == x;
      Heaps.RootIsLeast(s, |s|, Weight, i);
    }
  }

  // ---- Whole runs ----

  lemma ScaledIncluded(kept: seq<Entry>, seen: seq<Entry>, f: real)
    requires f > 0.0
    ensures multiset(Scaled(kept, f)) <= multiset(Scaled(seen, f)) <==> multiset(kept) <= multiset(seen)
  {
    var kept', seen' := Scaled(kept, f), Scaled(seen, f);
    forall x | multiset(kept') <= multiset(seen')
      ensures multiset(kept)[x] <= multiset(seen)[x]
    {
      ScaledCount(kept, f, x);
      ScaledCount(seen, f, x);
      assert multiset(kept')[Scale(x, f)] <= multiset(seen')[Scale(x, f)];
    }
    forall y | multiset(kept) <= multiset(seen)
      ensures multiset(kept')[y] <= multiset(seen')[y]
    {
      var x := ScaleOnto(y, f);
      ScaledCount(kept, f, x);
      ScaledCount(seen, f, x);
      assert multiset(kept)[x] <= multiset(seen)[x];
    }
  }

  lemma ScaledDropped(kept: seq<Entry>, seen: seq<Entry>, f: real, d: Entry)
    requires f > 0.0
    ensures Scale(d, f) in multiset(Scaled(seen, f)) - multiset(Scaled(kept, f))
            <==> d in multiset(seen) - multiset(kept)
  {
    ScaledCount(kept, f, d);
    ScaledCount(seen, f, d);
  }

  lemma ScaledOrder(kept: seq<Entry>, f: real, d: Entry, i: nat)
    requires f > 0.0 && i < |kept|
    ensures |Scaled(kept, f)| == |kept|
    ensures Scale(d, f).k <= Scaled(kept, f)[i].k <==> d.k <= kept[i].k
  {
    ScaleOrder(d.k, kept[i].k, f);
  }

  lemma ScaledSelection(kept: seq<Entry>, seen: seq<Entry>, f: real)
    requires f > 0.0 && Selects(kept, multiset(seen))
    ensures Selects(Scaled(kept, f), multiset(Scaled(seen, f)))
  {
    hide Scale, Scaled;
    var kept', seen' := Scaled(kept, f), Scaled(seen, f);
    ScaledIncluded(kept, seen, f);
    forall y: Entry, i | y in multiset(seen') - multiset(kept') && 0 <= i < |kept'|
      ensures y.k <= kept'[i].k
    {
      var d := ScaleOnto(y, f);
      ScaledLength(kept, f);
      ScaledDropped(kept, seen, f, d);
      ScaledOrder(kept, f, d, i);
    }
  }

  lemma ScaledLength(s: seq<Entry>, f: real)
    ensures |Scaled(s, f)| == |s|
  {
  }

  lemma UnscaledSelection(kept: seq<Entry>, seen: seq<Entry>, f: real)
    requires f > 0.0 && Selects(Scaled(kept, f), multiset(Scaled(seen, f)))
    ensures Selects(kept, multiset(seen))
  {
    hide Scale, Scaled;
    ScaledIncluded(kept, seen, f);
    forall d, i | d in multiset(seen) - multiset(kept) && 0 <= i < |kept|
      ensures d.k <= kept[i].k
    {
      ScaledDropped(kept, seen, f, d);
      ScaledOrder(kept, f, d, i);
    }
  }

  /** Decay by a positive factor does not change what is a selection. */
  lemma RescaleSelects(kept: seq<Entry>, seen: seq<Entry>, f: real)
    requires f > 0.0
    ensures Selects(Scaled(kept, f), multiset(Scaled(seen, f))) <==> Selects(kept, multiset(seen))
  {
    hide Selects, Scaled;
    if Selects(kept, multiset(seen)) {
      ScaledSelection(kept, seen, f);
    }
    if Selects(Scaled(kept, f), multiset(Scaled(seen, f))) {
      UnscaledSelection(kept, seen, f);
    }
  }

  datatype Update = Update(e: Entry, decay: Option<real>)

  ghost predicate Decaying(us: seq<Update>) {
    forall i :: 0 <= i < |us| && us[i].decay.Some? ==> us[i].decay.value > 0.0
  }

  /** The reservoir after a run of updates from empty. */
  function Kept(us: seq<Update>, size: nat): (s: seq<Entry>)
    requires Decaying(us) && 0 < size
    ensures Heaps.IsHeap(s, |s|, Weight)
    ensures |s| == if |us| < size then |us| else size
  {
    if us == [] then []
    else
      var n := |us| - 1;
      Updated(Kept(us[..n], size), size, us[n].e, us[n].decay)
  }

  /** Every entry of the run, at the weight it has by the end of it. */
  ghost function Seen(us: seq<Update>): (all: seq<Entry>)
    ensures |all| == |us|
  {
    if us == [] then []
    else
      var n := |us| - 1;
      var all := Seen(us[..n]) + [us[n].e];
      if us[n].decay.Some? then Scaled(all, us[n].decay.value) else all
  }

  /** A step of a run, from a selection. */
  lemma StepSelectsIff(s: seq<Entry>, seen: seq<Entry>, size: nat, u: Update)
    requires 0 < size && |s| <= size && Heaps.IsHeap(s, |s|, Weight)
    requires u.decay.Some? ==> u.decay.value > 0.0
    requires Selects(s, multiset(seen)) && (|s| < size ==> multiset(seen) == multiset(s))
    ensures var all := seen + [u.e];
            var seen' := if u.decay.Some? then Scaled(all, u.decay.value) else all;
            Selects(Updated(s, size, u.e, u.decay), multiset(seen')) <==> |s| < size || s[0].k <= u.e.k
  {
    hide Selects, Heaps.IsHeap, Heaps.Pop, Heaps.Push;
    var all := seen + [u.e];
    assert multiset(all) == multiset(seen) + multiset{u.e};
    UpdateSelectsIff(s, multiset(seen), size, u.e);
    if u.decay.Some? {
      RescaleSelects(Updated(s, size, u.e, None), all, u.decay.value);
    }
  }

  /** While the reservoir is not full, it holds everything seen. */
  lemma {:induction false} KeepsAll(us: seq<Update>, size: nat)
    requires Decaying(us) && 0 < size && |us| <= size
    ensures multiset(Kept(us, size)) == multiset(Seen(us))
  {
    hide Heaps.Pop, Heaps.Push, Heaps.IsHeap, Scaled;
    if us != [] {
      var n := |us| - 1;
      var u, s := us[n], Kept(us[..n], size);
      KeepsAll(us[..n], size);
      UpdatedContents(s, size, u.e);
      var all := Seen(us[..n]) + [u.e];
      assert multiset(all) == multiset(Updated(s, size, u.e, None));
      if u.decay.Some? {
        ScaledSame(all, Updated(s, size, u.e, None), u.decay.value);
      }
    }
  }

  lemma ScaledSame(s: seq<Entry>, t: seq<Entry>, f: real)
    requires f > 0.0 && multiset(s) == multiset(t)
    ensures multiset(Scaled(s, f)) == multiset(Scaled(t, f))
  {
    ScaledIncluded(s, t, f);
    ScaledIncluded(t, s, f);
  }

  /** Step n of the run finds room, or an entry no lighter than the lightest it evicts. */
  ghost predicate Worthy(us: seq<Update>, size: nat, n: nat)
    requires Decaying(us) && 0 < size && n < |us|
  {
    n < size || Kept(us[..n], size)[0].k <= us[n].e.k
  }

  /** The reservoir after n updates is a selection of the heaviest entries seen. */
  ghost predicate SelectsAt(us: seq<Update>, size: nat, n: nat)
    requires Decaying(us) && 0 < size && n <= |us|
  {
    Selects(Kept(us[..n], size), multiset(Seen(us[..n])))
  }

  lemma RunStep(us: seq<Update>, size: nat, n: nat)
    requires Decaying(us) && 0 < size && n < |us| && SelectsAt(us, size, n)
    ensures SelectsAt(us, size, n + 1) <==> Worthy(us, size, n)
  {
    hide Selects, Heaps.IsHeap, Updated, Scaled;
    assert us[..n + 1][..n] == us[..n];
    if n < size {
      KeepsAll(us[..n], size);
    }
    StepSelectsIff(Kept(us[..n], size), Seen(us[..n]), size, us[n]);
  }

  /** Over a whole run: a selection of the heaviest throughout, exactly if every update was worthy. */
  lemma {:induction false} RunSelectsIff(us: seq<Update>, size: nat, n: nat)
    requires Decaying(us) && 0 < size && n <= |us|
    ensures (forall i: nat :: i <= n ==> SelectsAt(us, size, i)) <==> (forall i: nat :: i < n ==> Worthy(us, size, i))
  {
    hide SelectsAt, Worthy;
    if n == 0 {
      EmptySelects(us, size);
    } else {
      RunSelectsIff(us, size, n - 1);
      if SelectsAt(us, size, n - 1) {
        RunStep(us, size, n - 1);
      }
    }
  }

  lemma EmptySelects(us: seq<Update>, size: nat)
    requires Decaying(us) && 0 < size
    ensures SelectsAt(us, size, 0)
  {
  }

  /** The newest entry is always kept, whatever it weighs. */
  lemma NewestKept(us: seq<Update>, size: nat)
    requires Decaying(us) && 0 < size && us != []
    ensures Seen(us)[|us| - 1] in multiset(Kept(us, size))
  {
    hide Heaps.Pop, Heaps.Push, Heaps.IsHeap;
    var n := |us| - 1;
    var s, u := Kept(us[..n], size), us[n];
    UpdatedContents(s, size, u.e);
    assert u.e in multiset(Updated(s, size, u.e, None));
    if u.decay.Some? {
      ScaledCount(Updated(s, size, u.e, None), u.decay.value, u.e);
    }
  }

  /** A reservoir of one entry drops the heavier of two when the lighter comes second. */
  lemma LighterReplacesHeavier()
    ensures var us := [Update(Entry(4.0, 7), None), Update(Entry(2.0, 8), None)];
            Decaying(us) && !SelectsAt(us, 1, 2)
  {
    hide Heaps.IsHeap, Selects, Updated;
    var first := [Update(Entry(4.0, 7), None)];
    var us := first + [Update(Entry(2.0, 8), None)];
    assert us == [Update(Entry(4.0, 7), None), Update(Entry(2.0, 8), None)];
    assert us[..1] == first;
    KeepsAll(first, 1);
    assert Seen(first) == [Entry(4.0, 7)] by {
      assert first[..0] == [];
    }
    assert Kept(first, 1)[0] in multiset(Kept(first, 1));
    RunSelectsIff(us, 1, 1);
    assert Worthy(us, 1, 0);
    RunStep(us, 1, 1);
  }
}

/** core/headerchain.go: writing headers, the number index and total difficulties. */
module HeaderChains {
  import opened Wrappers
  import opened Chains

  datatype Status = UnknownAncestor | Canonical | Side

  const TD_CACHE_LIMIT := 1024

  // ---- The two loops of a re-routing, on values ----

  /** The index while the entries from n on have been rewritten to the ancestry of b. */
  ghost predicate Backfilled(canon: map<nat, Block>, b: Block, was: Block, n: nat) {
    && (forall k: nat :: n < k < Number(b) ==> k in canon && canon[k] == Ancestor(b, k))
    && (forall k: nat :: k <= n ==> (k in canon <==> k <= Number(was)))
    && (forall k: nat :: k <= n && k <= Number(was) ==> canon[k] == Ancestor(was, k))
    && (forall k: nat :: k in canon ==> k <= Number(b))
  }

  /** The index with the entries above b cut off, down to i. */
  ghost predicate Cut(canon: map<nat, Block>, b: Block, was: Block, i: nat) {
    && Number(b) < i
    && (forall k: nat :: k in canon <==> k <= Number(was) && (k <= Number(b) || i <= k))
    && (forall k: nat :: k in canon ==> canon[k] == Ancestor(was, k))
  }

  lemma CutStart(canon: map<nat, Block>, b: Block, was: Block)
    requires Indexes(canon, was)
    ensures Cut(canon, b, was, Number(b) + 1)
  {
  }

  lemma CutStep(canon: map<nat, Block>, b: Block, was: Block, i: nat)
    requires Cut(canon, b, was, i) && i in canon
    ensures Cut(canon - {i}, b, was, i + 1) && i <= Number(was)
  {
  }

  lemma CutDone(canon: map<nat, Block>, b: Block, was: Block, i: nat)
    requires Cut(canon, b, was, i) && i !in canon && b.Child?
    ensures Backfilled(canon, b, was, Number(b) - 1) && b.parent == Ancestor(b, Number(b) - 1)
  {
    hide Ancestor;
    ParentBelow(b);
  }

  lemma ParentBelow(b: Block)
    requires b.Child?
    ensures Number(b) > 0 && b.parent == Ancestor(b, Number(b) - 1)
  {
    assert Ancestor(b.parent, Number(b.parent)) == b.parent;
  }

  /** A mismatch is never at the genesis, so the walk has a parent to go to. */
  lemma BackfillStep(stored: set<Block>, genesis: Block, canon: map<nat, Block>, b: Block, was: Block, n: nat)
    requires Rooted(stored, genesis) && b in stored && was in stored && n < Number(b)
    requires Backfilled(canon, b, was, n) && !(n in canon && canon[n] == Ancestor(b, n))
    ensures n > 0 && Ancestor(b, n) in stored && Ancestor(b, n).Child? && Ancestor(b, n).parent == Ancestor(b, n - 1)
    ensures Backfilled(canon[n := Ancestor(b, n)], b, was, n - 1)
  {
    hide Ancestor, Rooted;
    AncestorStored(stored, genesis, b, 0);
    AncestorStored(stored, genesis, was, 0);
    AncestorStored(stored, genesis, b, n);
    assert n > 0;
    ParentIsAncestor(b, n);
  }

  /** Where the index agrees with b's ancestry, it agrees all the way down: the common ancestor. */
  lemma BackfillDone(canon: map<nat, Block>, b: Block, was: Block, n: nat)
    requires n < Number(b) && Backfilled(canon, b, was, n) && n in canon && canon[n] == Ancestor(b, n)
    ensures Indexes(canon[Number(b) := b], b)
  {
    forall k: nat | k <= n
      ensures k in canon && canon[k] == Ancestor(b, k)
    {
      AncestorOfAncestor(was, n, k);
      AncestorOfAncestor(b, n, k);
    }
  }

  /** Every stored header, and no other, has its total difficulty recorded. */
  ghost predicate Weighed(headers: set<Block>, td: map<Block, int>) {
    td.Keys == headers && forall h :: h in headers ==> td[h] == TotalDifficulty(h)
  }

  ghost predicate Heaviest(headers: set<Block>, b: Block) {
    forall h :: h in headers ==> TotalDifficulty(h) <= TotalDifficulty(b)
  }

  /** Storing a header on a stored parent. */
  lemma Stored(headers: set<Block>, genesis: Block, td: map<Block, int>, h: Block)
    requires Rooted(headers, genesis) && Weighed(headers, td) && h.Child? && h.parent in headers
    ensures Rooted(headers + {h}, genesis)
    ensures h.parent in td && td[h.parent] + h.difficulty == TotalDifficulty(h)
    ensures Weighed(headers + {h}, td[h := TotalDifficulty(h)])
  {
  }

  lemma HeaviestWith(headers: set<Block>, was: Block, h: Block)
    requires Heaviest(headers, was)
    ensures TotalDifficulty(h) <= TotalDifficulty(was) ==> Heaviest(headers + {h}, was)
    ensures TotalDifficulty(h) >= TotalDifficulty(was) ==> Heaviest(headers + {h}, h)
  {
  }

  lemma WeightOf(headers: set<Block>, td: map<Block, int>, h: Block)
    requires Weighed(headers, td)
    ensures h in td <==> h in headers
    ensures h in headers ==> td[h] == TotalDifficulty(h)
  {
  }

  class HeaderChain {
    const genesis: Block
    var headers: set<Block>
    var td: map<Block, int>
    var tdCache: map<Block, int>
    var canon: map<nat, Block>
    var current: Block

    /** The cache holds some of the stored totals. */
    ghost predicate CacheAgrees()
      reads this
    {
      forall h :: h in tdCache ==> h in td && td[h] == tdCache[h]
    }

    /**
     The stored headers are a tree on the genesis with their total difficulties; the number
     index is the ancestry of the current header; no stored header is heavier.
     */
    ghost predicate Valid()
      reads this
    {
      && Rooted(headers, genesis) && current in headers
      && Weighed(headers, td) && CacheAgrees()
      && Indexes(canon, current)
      && Heaviest(headers, current)
    }

    constructor (genesis: Block)
      requires genesis.Root?
      ensures Valid() && current == genesis && headers == {genesis} && this.genesis == genesis
    {
      this.genesis := genesis;
      headers, td, tdCache := {genesis}, map[genesis := genesis.difficulty], map[];
      canon, current := map[0 := genesis], genesis;
    }

    /** Caches a total; a full cache gives up some entry. */
    method CacheTd(h: Block, total: int)
      requires CacheAgrees() && h in td && td[h] == total
      modifies this`tdCache
      ensures CacheAgrees()
    {
      if |tdCache| >= TD_CACHE_LIMIT {
        var oldest :| oldest in tdCache;
        tdCache := tdCache - {oldest};
      }
      tdCache := tdCache[h := total];
    }

    method GetTd(h: Block) returns (total: Option<int>)
      requires CacheAgrees()
      modifies this`tdCache
      ensures CacheAgrees() && total == if h in td then Some(td[h]) else None
    {
      if h in tdCache {
        return Some(tdCache[h]);
      }
      if h !in td {
        return None;
      }
      CacheTd(h, td[h]);
      return Some(td[h]);
    }

    method WriteTd(h: Block, total: int)
      requires CacheAgrees()
      modifies this`td, this`tdCache
      ensures CacheAgrees() && td == old(td)[h := total]
    {
      td := td[h := total];
      tdCache := tdCache - {h};
      CacheTd(h, total);
    }

    /** Points the number index at the ancestry of a stored header. */
    method Reroute(h: Block)
      requires Rooted(headers, genesis) && h in headers && h.Child? && current in headers && Indexes(canon, current)
      modifies this`canon, this`current
      ensures Indexes(canon, h) && current == h
    {
      hide Indexes, Cut, Backfilled, Rooted, Ancestor;
      var i: nat := Number(h) + 1;
      CutStart(canon, h, current);
      while i in canon
        invariant Cut(canon, h, current, i) && current == old(current)
        decreases Number(current) + 1 - i
      {
        CutStep(canon, h, current, i);
        canon := canon - {i};
        i := i + 1;
      }
      CutDone(canon, h, current, i);
      var head, n := h.parent, Number(h) - 1;
      while !(n in canon && canon[n] == head)
        invariant 0 <= n < Number(h) && head == Ancestor(h, n)
        invariant Backfilled(canon, h, current, n) && current == old(current)
        decreases n
      {
        BackfillStep(headers, genesis, canon, h, current, n);
        canon := canon[n := head];
        head, n := head.parent, n - 1;
      }
      BackfillDone(canon, h, current, n);
      canon := canon[Number(h) := h];
      current := h;
    }

    /** Stores a header whose parent is known; the heavier chain, or either of two equal ones, is current. */
    method WriteHeader(h: Block, coin: bool) returns (status: Status)
      requires Valid()
      modifies this
      ensures Valid()
      ensures status.UnknownAncestor? <==> h.Root? || h.parent !in old(headers)
      ensures headers == if status.UnknownAncestor? then old(headers) else old(headers) + {h}
      ensures status.Canonical? <==> (h.Child? && h.parent in old(headers)
                && (TotalDifficulty(h) > TotalDifficulty(old(current))
                    || (TotalDifficulty(h) == TotalDifficulty(old(current)) && coin)))
      ensures current == if status.Canonical? then h else old(current)
    {
      hide Indexes, Rooted, Weighed, Heaviest, TotalDifficulty;
      if h.Root? {
        return UnknownAncestor;
      }
      WeightOf(headers, td, h.parent);
      WeightOf(headers, td, current);
      var parentTd := GetTd(h.parent);
      if parentTd.None? {
        return UnknownAncestor;
      }
      Stored(headers, genesis, td, h);
      HeaviestWith(headers, current, h);
      var localTd := GetTd(current);
      var externTd := h.difficulty + parentTd.value;
      WriteTd(h, externTd);
      headers := headers + {h};
      if externTd > localTd.value || (externTd == localTd.value && coin) {
        Reroute(h);
        return Canonical;
      }
      return Side;
    }
  }

  /** The headers that a run of writes stores: those whose parent is stored by then. */
  ghost function Accepted(genesis: Block, writes: seq<(Block, bool)>): set<Block> {
    if writes == [] then {genesis}
    else
      var before, h := Accepted(genesis, writes[..|writes| - 1]), writes[|writes| - 1].0;
      if h.Child? && h.parent in before then before + {h} else before
  }

  /** Any sequence of writes from the genesis keeps the chain valid, whatever the coin flips. */
  method Run(genesis: Block, writes: seq<(Block, bool)>) returns (hc: HeaderChain)
    requires genesis.Root?
    ensures fresh(hc) && hc.Valid() && hc.genesis == genesis && hc.headers == Accepted(genesis, writes)
  {
    hc := new HeaderChain(genesis);
    for i := 0 to |writes|
      invariant fresh(hc) && hc.Valid() && hc.genesis == genesis && hc.headers == Accepted(genesis, writes[..i])
    {
      assert writes[..i + 1][..i] == writes[..i];
      var status := hc.WriteHeader(writes[i].0, writes[i].1);
    }
    assert writes[..|writes|] == writes;
  }
}

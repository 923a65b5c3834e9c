/**
 core/blockchain.go: making a block the head. `reorg` walks the old and the new branch down to
 their common ancestor, re-inserts the new branch and fixes the transaction lookup entries.
 */
module BlockChains {
  import opened Chains

  // ---- Transactions of a chain ----

  function TxsOf(b: Block): set<TxId> {
    if b.Root? then {} else set t | t in b.txs
  }

  /** The transactions of b's ancestry above height n. */
  ghost function TxsAbove(b: Block, n: nat): set<TxId> {
    if Number(b) <= n then {} else TxsAbove(b.parent, n) + TxsOf(b)
  }

  /** Where each of those transactions is found: the entries WriteTxLookupEntries stores, lowest block first. */
  ghost function LookupAbove(b: Block, n: nat): map<TxId, Block> {
    if Number(b) <= n then map[] else LookupAbove(b.parent, n) + Entries(b)
  }

  function Entries(b: Block): map<TxId, Block> {
    map t | t in TxsOf(b) :: b
  }

  /** No transaction occurs in two blocks of b's ancestry. */
  ghost predicate NoRepeat(b: Block) {
    b.Child? ==> NoRepeat(b.parent) && TxsOf(b) !! TxsAbove(b.parent, 0)
  }

  /** A chain's transactions are those of an ancestor and those above the ancestor. */
  lemma {:induction false} SplitTxs(b: Block, n: nat)
    requires n <= Number(b)
    ensures TxsAbove(b, 0) == TxsAbove(Ancestor(b, n), 0) + TxsAbove(b, n)
  {
    if n < Number(b) {
      SplitTxs(b.parent, n);
    }
  }

  /** Without repeats, the two parts are disjoint. */
  lemma {:induction false} SplitNoRepeat(b: Block, n: nat)
    requires n <= Number(b) && NoRepeat(b)
    ensures TxsAbove(Ancestor(b, n), 0) !! TxsAbove(b, n)
  {
    if n < Number(b) {
      SplitNoRepeat(b.parent, n);
      SplitTxs(b.parent, n);
    }
  }

  lemma {:induction false} SplitLookup(b: Block, n: nat)
    requires n <= Number(b)
    ensures LookupAbove(b, 0) == LookupAbove(Ancestor(b, n), 0) + LookupAbove(b, n)
  {
    hide Entries;
    if n < Number(b) {
      SplitLookup(b.parent, n);
      MapAssociates(LookupAbove(Ancestor(b, n), 0), LookupAbove(b.parent, n), Entries(b));
    }
  }

  lemma MapAssociates(a: map<TxId, Block>, b: map<TxId, Block>, c: map<TxId, Block>)
    ensures a + b + c == a + (b + c)
  {
  }

  lemma {:induction false} LookupKeys(b: Block, n: nat)
    ensures LookupAbove(b, n).Keys == TxsAbove(b, n)
  {
    if Number(b) > n {
      LookupKeys(b.parent, n);
    }
  }

  // ---- Common ancestors ----

  ghost predicate IsAncestor(a: Block, b: Block) {
    Number(a) <= Number(b) && Ancestor(b, Number(a)) == a
  }

  /** c is an ancestor of both, and every other common ancestor is an ancestor of c. */
  ghost predicate Deepest(c: Block, a: Block, b: Block) {
    && IsAncestor(c, a) && IsAncestor(c, b)
    && forall d :: IsAncestor(d, a) && IsAncestor(d, b) ==> Number(d) <= Number(c)
  }

  /** Walking both branches down together until they meet finds the deepest common ancestor. */
  lemma MeetIsDeepest(a: Block, b: Block, n: nat)
    requires n <= Number(a) && n <= Number(b) && Ancestor(a, n) == Ancestor(b, n)
    requires forall k: nat :: n < k && k <= Number(a) && k <= Number(b) ==> Ancestor(a, k) != Ancestor(b, k)
    ensures Deepest(Ancestor(a, n), a, b)
  {
  }

  // ---- Re-inserting a branch ----

  /** The index up to height n holds the ancestry of b. */
  ghost predicate IndexedTo(canon: map<nat, Block>, b: Block, n: nat) {
    n <= Number(b) && forall k: nat :: k <= n ==> k in canon && canon[k] == Ancestor(b, k)
  }

  lemma SameBelow(canon: map<nat, Block>, a: Block, b: Block, n: nat)
    requires IndexedTo(canon, a, Number(a)) && n <= Number(a) && n <= Number(b) && Ancestor(a, n) == Ancestor(b, n)
    ensures IndexedTo(canon, b, n)
  {
    forall k: nat | k <= n
      ensures k in canon && canon[k] == Ancestor(b, k)
    {
      AncestorOfAncestor(a, n, k);
      AncestorOfAncestor(b, n, k);
    }
  }

  lemma InsertStep(canon: map<nat, Block>, b: Block, n: nat)
    requires IndexedTo(canon, b, n) && n < Number(b)
    ensures IndexedTo(canon[n + 1 := Ancestor(b, n + 1)], b, n + 1)
  {
  }

  /** Writing one more block's entries. */
  lemma {:induction false} LookupStep(b: Block, c: nat, n: nat)
    requires c <= n < Number(b)
    ensures LookupAbove(Ancestor(b, n), c) + Entries(Ancestor(b, n + 1)) == LookupAbove(Ancestor(b, n + 1), c)
    ensures TxsAbove(Ancestor(b, n), c) + TxsOf(Ancestor(b, n + 1)) == TxsAbove(Ancestor(b, n + 1), c)
  {
    ParentIsAncestor(b, n + 1);
  }

  /**
   Overwriting with the new branch's entries and deleting those only on the old branch turns
   the lookup of the old chain into that of the new one.
   */
  lemma LookupSwitch(a: Block, b: Block, n: nat)
    requires NoRepeat(a) && NoRepeat(b) && n <= Number(a) && n <= Number(b) && Ancestor(a, n) == Ancestor(b, n)
    ensures LookupAbove(a, 0) + LookupAbove(b, n) - (TxsAbove(a, n) - TxsAbove(b, n)) == LookupAbove(b, 0)
  {
    hide LookupAbove, TxsAbove, NoRepeat, Ancestor;
    SplitLookup(a, n);
    SplitLookup(b, n);
    SplitNoRepeat(a, n);
    SplitNoRepeat(b, n);
    LookupKeys(a, n);
    LookupKeys(b, n);
    LookupKeys(Ancestor(a, n), 0);
    MapSwitch(LookupAbove(Ancestor(a, n), 0), LookupAbove(a, n), LookupAbove(b, n));
  }

  lemma MapSwitch(common: map<TxId, Block>, a: map<TxId, Block>, b: map<TxId, Block>)
    requires common.Keys !! a.Keys && common.Keys !! b.Keys
    ensures common + a + b - (a.Keys - b.Keys) == common + b
  {
  }

  // ---- The two walks of reorg ----

  /** The old branch walked down to `at`, with the transactions left behind. */
  ghost predicate OldWalk(head: Block, at: Block, deleted: set<TxId>) {
    IsAncestor(at, head) && deleted == TxsAbove(head, Number(at))
  }

  /** The new branch walked down to `at`, with the blocks left behind, highest first. */
  ghost predicate NewWalk(head: Block, at: Block, chain: seq<Block>) {
    && IsAncestor(at, head) && |chain| == Number(head) - Number(at)
    && forall i :: 0 <= i < |chain| ==> chain[i] == Ancestor(head, Number(head) - i)
  }

  lemma {:induction false} OldWalkStart(head: Block)
    ensures OldWalk(head, head, {}) && NewWalk(head, head, [])
  {
  }

  lemma OldWalkStep(head: Block, at: Block, deleted: set<TxId>)
    requires OldWalk(head, at, deleted) && at.Child?
    ensures OldWalk(head, at.parent, deleted + TxsOf(at))
  {
    ParentIsAncestor(head, Number(at));
    TxsDown(head, Number(at));
  }

  lemma NewWalkStep(head: Block, at: Block, chain: seq<Block>)
    requires NewWalk(head, at, chain) && at.Child?
    ensures NewWalk(head, at.parent, chain + [at])
  {
    ParentIsAncestor(head, Number(at));
  }

  /** Branches that have not met above height n. */
  ghost predicate ApartAbove(a: Block, b: Block, n: nat) {
    forall k: nat :: n < k && k <= Number(a) && k <= Number(b) ==> Ancestor(a, k) != Ancestor(b, k)
  }

  lemma ApartStep(a: Block, b: Block, x: Block, y: Block)
    requires IsAncestor(x, a) && IsAncestor(y, b) && Number(x) == Number(y) > 0 && x != y && ApartAbove(a, b, Number(x))
    ensures ApartAbove(a, b, Number(x) - 1)
  {
  }

  /** A stored block above the genesis has a stored parent; at height 0 both branches are at the genesis. */
  lemma WalkStored(stored: set<Block>, genesis: Block, head: Block, at: Block)
    requires Rooted(stored, genesis) && head in stored && IsAncestor(at, head)
    ensures at in stored && (Number(at) > 0 ==> at.Child? && at.parent in stored) && (Number(at) == 0 ==> at == genesis)
  {
    AncestorStored(stored, genesis, head, Number(at));
    AncestorStored(stored, genesis, head, 0);
    if Number(at) > 0 { ParentIsAncestor(head, Number(at)); }
  }

  lemma {:induction false} TxsDown(b: Block, n: nat)
    requires 0 < n <= Number(b)
    ensures TxsAbove(b, n - 1) == TxsAbove(b, n) + TxsOf(Ancestor(b, n))
  {
    if n < Number(b) {
      TxsDown(b.parent, n);
    } else {
      assert TxsAbove(b.parent, n - 1) == {};
    }
  }

  /** The lookup with the entries of b's branch above c, up to height n, put in. */
  ghost predicate Reinserted(lookup: map<TxId, Block>, added: set<TxId>, was: map<TxId, Block>, b: Block, c: nat,
                             n: nat) {
    c <= n <= Number(b) && lookup == was + LookupAbove(Ancestor(b, n), c) && added == TxsAbove(Ancestor(b, n), c)
  }

  lemma ReinsertStart(was: map<TxId, Block>, b: Block, c: nat)
    requires c <= Number(b)
    ensures Reinserted(was, {}, was, b, c, c)
  {
  }

  lemma ReinsertStep(lookup: map<TxId, Block>, added: set<TxId>, was: map<TxId, Block>, b: Block, c: nat, n: nat)
    requires Reinserted(lookup, added, was, b, c, n) && n < Number(b)
    ensures var x := Ancestor(b, n + 1);
            Reinserted(lookup + Entries(x), added + TxsOf(x), was, b, c, n + 1)
  {
    hide LookupAbove, TxsAbove, Entries, TxsOf;
    var x := Ancestor(b, n + 1);
    LookupStep(b, c, n);
    MapAssociates(was, LookupAbove(Ancestor(b, n), c), Entries(x));
  }

  lemma ReinsertDone(lookup: map<TxId, Block>, added: set<TxId>, was: map<TxId, Block>, b: Block, c: nat)
    requires Reinserted(lookup, added, was, b, c, Number(b))
    ensures lookup == was + LookupAbove(b, c) && added == TxsAbove(b, c)
  {
  }

  lemma WalkFacts(oldHead: Block, oldAt: Block, deleted: set<TxId>, newHead: Block, newAt: Block, chain: seq<Block>)
    requires OldWalk(oldHead, oldAt, deleted) && NewWalk(newHead, newAt, chain)
    ensures IsAncestor(oldAt, oldHead) && IsAncestor(newAt, newHead)
    ensures Number(oldAt) <= Number(oldHead) && Number(newAt) <= Number(newHead)
  {
  }

  lemma ApartStart(a: Block, b: Block, n: nat)
    requires n == Number(a) || n == Number(b)
    ensures ApartAbove(a, b, n)
  {
  }

  /** Where the walks meet. */
  lemma WalksMet(oldHead: Block, newHead: Block, at: Block, deleted: set<TxId>, chain: seq<Block>, canon: map<nat,
                 Block>)
    requires OldWalk(oldHead, at, deleted) && NewWalk(newHead, at, chain) && ApartAbove(oldHead, newHead, Number(at))
    ensures Deepest(at, oldHead, newHead) && deleted == TxsAbove(oldHead, Number(at))
    ensures IndexedTo(canon, oldHead, Number(oldHead)) ==> IndexedTo(canon, newHead, Number(at))
  {
    MeetIsDeepest(oldHead, newHead, Number(at));
    if IndexedTo(canon, oldHead, Number(oldHead)) {
      SameBelow(canon, oldHead, newHead, Number(at));
    }
  }

  lemma WalkedAt(head: Block, at: Block, chain: seq<Block>, i: nat)
    requires NewWalk(head, at, chain) && i < |chain|
    ensures |chain| == Number(head) - Number(at)
    ensures chain[i] == Ancestor(head, Number(head) - i) && Number(chain[i]) == Number(head) - i
  {
    hide Ancestor, Number;
  }

  lemma HeadIsFirst(head: Block, at: Block, chain: seq<Block>)
    requires NewWalk(head, at, chain) && |chain| > 0
    ensures chain[0] == head
  {
  }

  lemma WalkedLength(head: Block, at: Block, chain: seq<Block>)
    requires NewWalk(head, at, chain)
    ensures Number(at) <= Number(head) && |chain| == Number(head) - Number(at)
  {
  }

  class BlockChain {
    const genesis: Block
    var blocks: set<Block>
    var states: set<Block>
    var canon: map<nat, Block>
    var lookup: map<TxId, Block>
    var current: Block

    ghost predicate Stored()
      reads this
    {
      Rooted(blocks, genesis) && current in blocks
    }

    /** Stored blocks form a tree, and up to the head the number index is the head's ancestry. */
    ghost predicate Valid()
      reads this
    {
      Stored() && IndexedTo(canon, current, Number(current))
    }

    ghost function Snap(): Snapshot
      reads this
    {
      Snapshot(blocks, states, canon, lookup, current)
    }

    /** The lookup entries are exactly those of the head's chain, which repeats no transaction. */
    ghost predicate LookupExact()
      reads this
    {
      NoRepeat(current) && lookup == LookupAbove(current, 0)
    }

    constructor (genesis: Block)
      requires genesis.Root?
      ensures Valid() && LookupExact() && current == genesis && this.genesis == genesis
      ensures Snap() == Snapshot({genesis}, {genesis}, map[0 := genesis], map[], genesis)
    {
      this.genesis := genesis;
      blocks, states, canon, lookup, current := {genesis}, {genesis}, map[0 := genesis], map[], genesis;
    }

    /** insert: the block becomes the head and owns its number. */
    method Insert(b: Block)
      modifies this`canon, this`current
      ensures canon == old(canon)[Number(b) := b] && current == b
    {
      canon := canon[Number(b) := b];
      current := b;
    }

    /** A block's stored parent. */
    predicate HasParent(b: Block)
      reads this
    {
      b.Child? && b.parent in blocks
    }

    /** Inserts the collected blocks, lowest first, and deletes the lookup entries only the old branch had. */
    method Reinsert(newHead: Block, newChain: seq<Block>, deleted: set<TxId>, ghost common: Block)
      requires NewWalk(newHead, common, newChain)
      modifies this`canon, this`lookup, this`current
      ensures IndexedTo(old(canon), newHead, Number(common)) ==> IndexedTo(canon, newHead, Number(newHead))
      ensures lookup == old(lookup) + LookupAbove(newHead, Number(common)) - (deleted - TxsAbove(newHead,
                Number(common)))
      ensures current == if newChain == [] then old(current) else newHead
    {
      hide NewWalk, IndexedTo, Reinserted, LookupAbove, TxsAbove, Ancestor;
      var added: set<TxId> := {};
      ghost var c := Number(common);
      WalkedLength(newHead, common, newChain);
      ReinsertStart(lookup, newHead, c);
      ghost var n := c;
      for i := |newChain| downto 0
        invariant n == c + |newChain| - i && Reinserted(lookup, added, old(lookup), newHead, c, n)
        invariant IndexedTo(old(canon), newHead, c) ==> IndexedTo(canon, newHead, n)
        invariant current == if i == |newChain| then old(current) else newChain[i]
      {
        WalkedAt(newHead, common, newChain, i);
        ReinsertStep(lookup, added, old(lookup), newHead, c, n);
        if IndexedTo(old(canon), newHead, c) {
          InsertStep(canon, newHead, n);
        }
        Insert(newChain[i]);
        lookup := lookup + Entries(newChain[i]);
        added := added + TxsOf(newChain[i]);
        n := n + 1;
      }
      ReinsertDone(lookup, added, old(lookup), newHead, c);
      if |newChain| > 0 { HeadIsFirst(newHead, common, newChain); }
      lookup := lookup - (deleted - added);
    }

    /**
     Switches from the chain of oldHead to that of newHead. It finds their deepest common
     ancestor, and fails only if a block is missing from the store.
     */
    method Reorg(oldHead: Block, newHead: Block) returns (ok: bool, ghost common: Block)
      modifies this`canon, this`lookup, this`current
      ensures Rooted(blocks, genesis) && oldHead in blocks && newHead in blocks ==> ok
      ensures !ok ==> canon == old(canon) && lookup == old(lookup) && current == old(current)
      ensures ok ==> Deepest(common, oldHead, newHead)
      ensures ok && IndexedTo(old(canon), oldHead, Number(oldHead)) ==> IndexedTo(canon, newHead, Number(newHead))
      ensures ok ==> lookup == old(lookup) + LookupAbove(newHead, Number(common))
                               - (TxsAbove(oldHead, Number(common)) - TxsAbove(newHead, Number(common)))
    {
      hide OldWalk, NewWalk, ApartAbove, Rooted, Deepest, IndexedTo, Reinserted, LookupAbove, TxsAbove, Ancestor,
           IsAncestor;
      var oldBlock, newBlock := oldHead, newHead;
      var deleted: set<TxId> := {};
      var newChain: seq<Block> := [];
      common := oldHead;
      OldWalkStart(oldHead);
      OldWalkStart(newHead);
      WalkFacts(oldHead, oldBlock, deleted, newHead, newBlock, newChain);
      if Number(oldBlock) > Number(newBlock) {
        while Number(oldBlock) != Number(newBlock)
          invariant OldWalk(oldHead, oldBlock, deleted) && Number(newBlock) <= Number(oldBlock)
          invariant canon == old(canon) && lookup == old(lookup) && current == old(current)
          decreases Number(oldBlock)
        {
          WalkFacts(oldHead, oldBlock, deleted, newHead, newBlock, newChain);
          if Rooted(blocks, genesis) && oldHead in blocks { WalkStored(blocks, genesis, oldHead, oldBlock); }
          if !HasParent(oldBlock) { return false, oldHead; }
          OldWalkStep(oldHead, oldBlock, deleted);
          deleted := deleted + TxsOf(oldBlock);
          oldBlock := oldBlock.parent;
        }
      } else {
        while Number(newBlock) != Number(oldBlock)
          invariant NewWalk(newHead, newBlock, newChain) && Number(oldBlock) <= Number(newBlock)
          invariant canon == old(canon) && lookup == old(lookup) && current == old(current)
          decreases Number(newBlock)
        {
          WalkFacts(oldHead, oldBlock, deleted, newHead, newBlock, newChain);
          if Rooted(blocks, genesis) && newHead in blocks { WalkStored(blocks, genesis, newHead, newBlock); }
          if !HasParent(newBlock) { return false, oldHead; }
          NewWalkStep(newHead, newBlock, newChain);
          newChain := newChain + [newBlock];
          newBlock := newBlock.parent;
        }
      }
      ApartStart(oldHead, newHead, Number(oldBlock));
      while oldBlock != newBlock
        invariant OldWalk(oldHead, oldBlock, deleted) && NewWalk(newHead, newBlock, newChain)
        invariant Number(oldBlock) == Number(newBlock) && ApartAbove(oldHead, newHead, Number(oldBlock))
        invariant canon == old(canon) && lookup == old(lookup) && current == old(current)
        decreases Number(oldBlock)
      {
        WalkFacts(oldHead, oldBlock, deleted, newHead, newBlock, newChain);
        if Rooted(blocks, genesis) && oldHead in blocks && newHead in blocks {
          WalkStored(blocks, genesis, oldHead, oldBlock);
          WalkStored(blocks, genesis, newHead, newBlock);
        }
        if !HasParent(oldBlock) || !HasParent(newBlock) { return false, oldHead; }
        OldWalkStep(oldHead, oldBlock, deleted);
        NewWalkStep(newHead, newBlock, newChain);
        ApartStep(oldHead, newHead, oldBlock, newBlock);
        newChain := newChain + [newBlock];
        deleted := deleted + TxsOf(oldBlock);
        oldBlock, newBlock := oldBlock.parent, newBlock.parent;
      }
      common := oldBlock;
      WalksMet(oldHead, newHead, oldBlock, deleted, newChain, canon);
      Reinsert(newHead, newChain, deleted, common);
      ok := true;
    }

    /**
     The canonical path of writeBlockWithState: stores a block on a known parent and makes it the
     head, after a reorganisation if its parent is not the head.
     */
    method WriteNew(b: Block) returns (ok: bool)
      requires Stored()
      modifies this`blocks, this`states, this`canon, this`lookup, this`current
      ensures Stored() && (ok <==> b.Child? && b.parent in old(blocks))
      ensures !ok ==> Snap() == old(Snap())
      ensures ok ==> current == b && blocks == old(blocks) + {b} && states == old(states) + {b}
      ensures ok && old(Valid()) ==> Valid()
      ensures ok && old(LookupExact()) && NoRepeat(b) ==> LookupExact()
    {
      hide IndexedTo, LookupAbove, TxsAbove, Ancestor, Deepest, NoRepeat, Entries;
      if !HasParent(b) {
        return false;
      }
      blocks, states := blocks + {b}, states + {b};
      if b.parent != current {
        ghost var common;
        ok, common := Reorg(current, b);
        if old(LookupExact()) && NoRepeat(b) {
          SwitchLookup(old(current), b, common);
        }
      }
      if old(Valid()) {
        HeadIndexed(canon, b);
      }
      HeadLookup(b);
      lookup := lookup + Entries(b);
      Insert(b);
      return true;
    }

    /**
     writeBlockWithState: a block that is stored with its state only becomes the head, without a
     reorganisation. That keeps the index exactly if the index below the block already is its
     ancestry, and the lookup exactly if neither branch has transactions above the common ancestor.
     */
    method WriteBlock(b: Block) returns (ok: bool)
      requires Stored()
      modifies this`blocks, this`states, this`canon, this`lookup, this`current
      ensures Stored() && Wrote(old(Snap()), b, ok, Snap())
      ensures !ok ==> Snap() == old(Snap()) && !Refreshes(old(Snap()), b)
      ensures old(Valid()) ==> (Valid() <==> (Refreshes(old(Snap()), b) ==> OnIndex(old(canon), b)))
      ensures ok && old(LookupExact()) && NoRepeat(b) ==>
                (LookupExact() <==> (Refreshes(old(Snap()), b) ==> NothingBetween(old(current), b)))
    {
      hide IndexedTo, LookupAbove, TxsAbove, Ancestor, NoRepeat, Entries, NothingBetween, OnIndex, Rooted;
      if b in blocks && b in states {
        RefreshIndexIff(canon, b);
        if old(LookupExact()) && NoRepeat(b) {
          RefreshLookupIff(blocks, genesis, current, b);
        }
        Insert(b);
        return true;
      }
      ok := WriteNew(b);
    }

    /** The node drops a state it no longer needs. */
    method Prune(b: Block)
      modifies this`states
      ensures states == old(states) - {b}
    {
      states := states - {b};
    }
  }

  lemma SwitchLookup(a: Block, b: Block, common: Block)
    requires Deepest(common, a, b) && NoRepeat(a) && NoRepeat(b)
    ensures var n := Number(common);
            LookupAbove(a, 0) + LookupAbove(b, n) - (TxsAbove(a, n) - TxsAbove(b, n)) == LookupAbove(b, 0)
  {
    LookupSwitch(a, b, Number(common));
  }

  lemma HeadIndexed(canon: map<nat, Block>, b: Block)
    requires b.Child?
    requires IndexedTo(canon, b.parent, Number(b.parent)) || IndexedTo(canon, b, Number(b))
    ensures IndexedTo(canon[Number(b) := b], b, Number(b))
  {
  }

  /** The head's own entries come last, and writing them twice changes nothing. */
  lemma HeadLookup(b: Block)
    requires b.Child?
    ensures LookupAbove(b.parent, 0) + Entries(b) == LookupAbove(b, 0)
    ensures LookupAbove(b, 0) + Entries(b) == LookupAbove(b, 0)
  {
  }

  // ---- Writing a block again ----

  /** The chain at one moment. */
  datatype Snapshot = Snapshot(blocks: set<Block>, states: set<Block>, canon: map<nat, Block>, lookup: map<TxId, Block>,
                               current: Block)

  /** The block is stored with its state, so that it is not written again. */
  ghost predicate Refreshes(c: Snapshot, b: Block) {
    b in c.blocks && b in c.states
  }

  /** What a write does to head, blocks and states. */
  ghost predicate Wrote(c: Snapshot, b: Block, ok: bool, d: Snapshot) {
    if Refreshes(c, b) then ok && d == c.(canon := c.canon[Number(b) := b], current := b)
    else
      && (ok <==> b.Child? && b.parent in c.blocks)
      && if ok then d.current == b && d.blocks == c.blocks + {b} && d.states == c.states + {b} else d == c
  }

  /** The index below b is b's ancestry. */
  ghost predicate OnIndex(canon: map<nat, Block>, b: Block) {
    b.Child? ==> IndexedTo(canon, b.parent, Number(b.parent))
  }

  lemma RefreshIndexIff(canon: map<nat, Block>, b: Block)
    ensures IndexedTo(canon[Number(b) := b], b, Number(b)) <==> OnIndex(canon, b)
  {
    var canon' := canon[Number(b) := b];
    if b.Child? {
      forall k: nat | k < Number(b) ensures Ancestor(b, k) == Ancestor(b.parent, k) {
      }
      if IndexedTo(canon', b, Number(b)) {
        forall k: nat | k <= Number(b.parent) ensures k in canon && canon[k] == Ancestor(b.parent, k) {
          assert k in canon' && canon'[k] == Ancestor(b, k);
        }
      }
      if OnIndex(canon, b) {
        forall k: nat | k <= Number(b) ensures k in canon' && canon'[k] == Ancestor(b, k) {
          if k < Number(b) {
            assert k in canon && canon[k] == Ancestor(b.parent, k);
          }
        }
      }
    }
  }

  /** For a block no more than one above the head, one look at the index decides. */
  lemma OnIndexIff(canon: map<nat, Block>, head: Block, b: Block)
    requires IndexedTo(canon, head, Number(head)) && b.Child? && Number(b.parent) <= Number(head)
    ensures OnIndex(canon, b) <==> canon[Number(b.parent)] == b.parent
  {
    var n := Number(b.parent);
    assert Ancestor(b.parent, n) == b.parent;
    if canon[n] == b.parent {
      SameBelow(canon, head, b.parent, n);
    }
  }

  /**
   For instance: with two branches on a genesis and the second one the head, writing the first
   branch's head again leaves the second branch's block below it in the index.
   */
  lemma RefreshOffIndex(g: Block, a1: Block, a2: Block, b1: Block, b2: Block)
    requires g.Root? && a1.Child? && a1.parent == g && b1.Child? && b1.parent == g && a1 != b1
    requires a2.Child? && a2.parent == a1 && b2.Child? && b2.parent == b1
    ensures var canon := map[0 := g, 1 := b1, 2 := b2];
            IndexedTo(canon, b2, 2) && !OnIndex(canon, a2) && !IndexedTo(canon[2 := a2], a2, 2)
  {
    var canon := map[0 := g, 1 := b1, 2 := b2];
    assert Number(g) == 0;
    assert Number(a1) == 1 && Number(b1) == 1;
    assert Number(a2) == 2 && Number(b2) == 2;
    assert Ancestor(b1, 0) == g;
    assert Ancestor(b2, 0) == g && Ancestor(b2, 1) == b1;
    assert Ancestor(a1, 1) == a1 && canon[1] != a1;
    assert !OnIndex(canon, a2);
    RefreshIndexIff(canon, a2);
  }

  /** Two branches with no transactions above any common ancestor of theirs. */
  ghost predicate NothingBetween(a: Block, b: Block) {
    forall c :: Deepest(c, a, b) ==> TxsAbove(a, Number(c)) == {} && TxsAbove(b, Number(c)) == {}
  }

  /** An entry points to a block of the chain, above the given height. */
  lemma {:induction false} LookupBlock(b: Block, n: nat, t: TxId)
    requires t in LookupAbove(b, n)
    ensures IsAncestor(LookupAbove(b, n)[t], b) && Number(LookupAbove(b, n)[t]) > n
  {
    if t in TxsOf(b) {
      assert LookupAbove(b, n)[t] == b;
    } else {
      LookupBlock(b.parent, n, t);
    }
  }

  /** Block n of b's ancestry lists the transaction. */
  ghost predicate ListsAt(b: Block, n: nat, t: TxId) {
    n <= Number(b) && Ancestor(b, n).Child? && t in Ancestor(b, n).txs
  }

  /** The lookup of a chain knows exactly the transactions its blocks list, and finds each in one that lists it. */
  lemma {:induction false} LookupMeaning(b: Block, t: TxId)
    ensures t in LookupAbove(b, 0) <==> exists n: nat :: ListsAt(b, n, t)
    ensures t in LookupAbove(b, 0) ==>
              var x := LookupAbove(b, 0)[t];
              IsAncestor(x, b) && x.Child? && t in x.txs
  {
    if b.Child? {
      LookupMeaning(b.parent, t);
      assert forall n: nat :: n < Number(b) ==> Ancestor(b, n) == Ancestor(b.parent, n);
      if t in b.txs {
        assert ListsAt(b, Number(b), t);
      } else if t in LookupAbove(b.parent, 0) {
        var n: nat :| ListsAt(b.parent, n, t);
        assert ListsAt(b, n, t);
      } else {
        forall n: nat | ListsAt(b, n, t) ensures ListsAt(b.parent, n, t) {
        }
      }
    }
  }

  lemma BranchEntry(a: Block, b: Block, c: Block, t: TxId)
    requires Deepest(c, a, b) && NoRepeat(a) && LookupAbove(a, 0) == LookupAbove(b, 0)
    ensures t !in TxsAbove(a, Number(c))
  {
    hide LookupAbove, TxsAbove, Ancestor, NoRepeat;
    var n := Number(c);
    LookupKeys(a, n);
    LookupKeys(a, 0);
    LookupKeys(b, 0);
    SplitLookup(a, n);
    if t in LookupAbove(a, n) {
      LookupBlock(a, n, t);
      assert t in LookupAbove(b, 0);
      LookupBlock(b, 0, t);
    }
  }

  /** The lookup of one branch is that of the other exactly if neither has transactions of its own. */
  lemma SameLookupIff(a: Block, b: Block, c: Block)
    requires Deepest(c, a, b) && NoRepeat(a) && NoRepeat(b)
    ensures LookupAbove(a, 0) == LookupAbove(b, 0) <==> TxsAbove(a, Number(c)) == {} && TxsAbove(b, Number(c)) == {}
  {
    hide LookupAbove, TxsAbove, Ancestor, NoRepeat, Deepest;
    var n := Number(c);
    if LookupAbove(a, 0) == LookupAbove(b, 0) {
      forall t ensures t !in TxsAbove(a, n) && t !in TxsAbove(b, n) {
        BranchEntry(a, b, c, t);
        DeepestSwaps(c, a, b);
        BranchEntry(b, a, c, t);
      }
    }
    if TxsAbove(a, n) == {} && TxsAbove(b, n) == {} {
      DeepestAncestor(c, a, b);
      NoEntries(a, c);
      NoEntries(b, c);
    }
  }

  lemma DeepestSwaps(c: Block, a: Block, b: Block)
    requires Deepest(c, a, b)
    ensures Deepest(c, b, a)
  {
  }

  lemma DeepestAncestor(c: Block, a: Block, b: Block)
    requires Deepest(c, a, b)
    ensures IsAncestor(c, a) && IsAncestor(c, b)
  {
  }

  lemma NoEntries(a: Block, c: Block)
    requires IsAncestor(c, a) && TxsAbove(a, Number(c)) == {}
    ensures LookupAbove(a, 0) == LookupAbove(c, 0)
  {
    SplitLookup(a, Number(c));
    LookupKeys(a, Number(c));
    assert LookupAbove(a, Number(c)) == map[];
  }

  lemma {:induction false} FindDeepest(a: Block, b: Block, n: nat) returns (c: Block)
    requires n <= Number(a) && n <= Number(b) && Ancestor(a, 0) == Ancestor(b, 0)
    requires forall k: nat :: n < k && k <= Number(a) && k <= Number(b) ==> Ancestor(a, k) != Ancestor(b, k)
    ensures Deepest(c, a, b)
  {
    hide Ancestor, Deepest;
    if Ancestor(a, n) == Ancestor(b, n) {
      MeetIsDeepest(a, b, n);
      c := Ancestor(a, n);
    } else {
      c := FindDeepest(a, b, n - 1);
    }
  }

  lemma DeepestUnique(c: Block, d: Block, a: Block, b: Block)
    requires Deepest(c, a, b) && Deepest(d, a, b)
    ensures c == d
  {
    hide Ancestor;
  }

  lemma RefreshLookupIff(blocks: set<Block>, genesis: Block, a: Block, b: Block)
    requires Rooted(blocks, genesis) && a in blocks && b in blocks && NoRepeat(a) && NoRepeat(b)
    ensures LookupAbove(a, 0) == LookupAbove(b, 0) <==> NothingBetween(a, b)
  {
    hide LookupAbove, TxsAbove, Ancestor, NoRepeat, Deepest, Rooted;
    AncestorStored(blocks, genesis, a, 0);
    AncestorStored(blocks, genesis, b, 0);
    var c := FindDeepest(a, b, if Number(a) < Number(b) then Number(a) else Number(b));
    SameLookupIff(a, b, c);
    forall d | Deepest(d, a, b) ensures d == c {
      DeepestUnique(c, d, a, b);
    }
  }

  // ---- Whole runs ----

  datatype Operation = Write(b: Block) | Prune(b: Block)

  ghost predicate ValidAt(c: Snapshot, genesis: Block) {
    Rooted(c.blocks, genesis) && c.current in c.blocks && IndexedTo(c.canon, c.current, Number(c.current))
  }

  ghost predicate ExactAt(c: Snapshot) {
    NoRepeat(c.current) && c.lookup == LookupAbove(c.current, 0)
  }

  ghost predicate Follows(c: Snapshot, op: Operation, d: Snapshot) {
    match op
    case Write(b) => Wrote(c, b, true, d) || Wrote(c, b, false, d)
    case Prune(b) => d == c.(states := c.states - {b})
  }

  /** The operation does not make a stored block the head over an index that is not its ancestry. */
  ghost predicate KeepsIndex(c: Snapshot, op: Operation) {
    op.Write? && Refreshes(c, op.b) ==> OnIndex(c.canon, op.b)
  }

  /** Nor one across transactions that the lookup would have to gain or lose. */
  ghost predicate KeepsLookup(c: Snapshot, op: Operation) {
    op.Write? && Refreshes(c, op.b) ==> NothingBetween(c.current, op.b)
  }

  ghost predicate AllValid(trace: seq<Snapshot>, genesis: Block) {
    forall i :: 0 <= i < |trace| ==> ValidAt(trace[i], genesis)
  }

  ghost predicate AllExact(trace: seq<Snapshot>) {
    forall i :: 0 <= i < |trace| ==> ExactAt(trace[i])
  }

  ghost predicate IndexKept(trace: seq<Snapshot>, ops: seq<Operation>, n: nat)
    requires n <= |ops| && n <= |trace|
  {
    forall i :: 0 <= i < n ==> KeepsIndex(trace[i], ops[i])
  }

  ghost predicate LookupKept(trace: seq<Snapshot>, ops: seq<Operation>, n: nat)
    requires n <= |ops| && n <= |trace|
  {
    forall i :: 0 <= i < n ==> KeepsLookup(trace[i], ops[i])
  }

  lemma ValidOneMore(trace: seq<Snapshot>, ops: seq<Operation>, n: nat, d: Snapshot, genesis: Block)
    requires n < |ops| && |trace| == n + 1 && (AllValid(trace, genesis) <==> IndexKept(trace, ops, n))
    requires ValidAt(trace[n], genesis) ==> (ValidAt(d, genesis) <==> KeepsIndex(trace[n], ops[n]))
    ensures AllValid(trace + [d], genesis) <==> IndexKept(trace + [d], ops, n + 1)
  {
    hide ValidAt, KeepsIndex;
    var t := trace + [d];
    assert forall i :: 0 <= i <= n ==> t[i] == trace[i];
    assert AllValid(t, genesis) <==> AllValid(trace, genesis) && ValidAt(t[n + 1], genesis);
    assert IndexKept(t, ops, n + 1) <==> IndexKept(trace, ops, n) && KeepsIndex(t[n], ops[n]);
  }

  lemma ExactOneMore(trace: seq<Snapshot>, ops: seq<Operation>, n: nat, d: Snapshot)
    requires n < |ops| && |trace| == n + 1 && (AllExact(trace) <==> LookupKept(trace, ops, n))
    requires ExactAt(trace[n]) ==> (ExactAt(d) <==> KeepsLookup(trace[n], ops[n]))
    ensures AllExact(trace + [d]) <==> LookupKept(trace + [d], ops, n + 1)
  {
    hide ExactAt, KeepsLookup;
    var t := trace + [d];
    assert forall i :: 0 <= i <= n ==> t[i] == trace[i];
    assert AllExact(t) <==> AllExact(trace) && ExactAt(t[n + 1]);
    assert LookupKept(t, ops, n + 1) <==> LookupKept(trace, ops, n) && KeepsLookup(t[n], ops[n]);
  }

  ghost predicate NoneRepeats(ops: seq<Operation>) {
    forall i :: 0 <= i < |ops| && ops[i].Write? ==> NoRepeat(ops[i].b)
  }

  /**
   Over any run of writes and pruned states from the genesis: the index is that of the head
   throughout if and only if no stored block is made the head off the index, and while no chain
   repeats a transaction, the lookup if and only if none is across transactions.
   */
  method Run(genesis: Block, ops: seq<Operation>) returns (bc: BlockChain, ghost trace: seq<Snapshot>)
    requires genesis.Root?
    ensures fresh(bc) && bc.genesis == genesis && |trace| == |ops| + 1 && trace[|ops|] == bc.Snap()
    ensures trace[0] == Snapshot({genesis}, {genesis}, map[0 := genesis], map[], genesis)
    ensures forall i :: 0 <= i < |ops| ==> Follows(trace[i], ops[i], trace[i + 1])
    ensures AllValid(trace, genesis) <==> IndexKept(trace, ops, |ops|)
    ensures NoneRepeats(ops) ==> (AllExact(trace) <==> LookupKept(trace, ops, |ops|))
  {
    hide IndexedTo, LookupAbove, NoRepeat, OnIndex, NothingBetween, Wrote, Rooted, AllValid, AllExact, IndexKept,
         LookupKept;
    bc := new BlockChain(genesis);
    trace := [bc.Snap()];
    RunStart(trace, ops, genesis);
    for i := 0 to |ops|
      invariant fresh(bc) && bc.genesis == genesis && bc.Stored() && |trace| == i + 1 && trace[i] == bc.Snap()
      invariant trace[0] == Snapshot({genesis}, {genesis}, map[0 := genesis], map[], genesis)
      invariant forall j :: 0 <= j < i ==> Follows(trace[j], ops[j], trace[j + 1])
      invariant AllValid(trace, genesis) <==> IndexKept(trace, ops, i)
      invariant NoneRepeats(ops) ==> (AllExact(trace) <==> LookupKept(trace, ops, i))
    {
      match ops[i] {
        case Write(b) => var ok := bc.WriteBlock(b);
        case Prune(b) => bc.Prune(b);
      }
      ValidOneMore(trace, ops, i, bc.Snap(), genesis);
      if NoneRepeats(ops) {
        ExactOneMore(trace, ops, i, bc.Snap());
      }
      trace := trace + [bc.Snap()];
    }
  }

  lemma RunStart(trace: seq<Snapshot>, ops: seq<Operation>, genesis: Block)
    requires |trace| == 1 && ValidAt(trace[0], genesis) && ExactAt(trace[0])
    ensures AllValid(trace, genesis) && IndexKept(trace, ops, 0) && AllExact(trace) && LookupKept(trace, ops, 0)
  {
  }
}

/**
 The tree of blocks and headers. A block's hash commits to its parent's hash and so to its
 whole ancestry; a block is therefore modelled by its ancestry, and equality of hashes by
 equality of values. A header is a block whose transactions are not looked at.
 */
module Chains {

  type TxId = nat

  datatype Block =
    | Root(id: nat, difficulty: int)
    | Child(parent: Block, difficulty: int, txs: seq<TxId>, salt: nat)

  function Number(b: Block): nat {
    if b.Root? then 0 else Number(b.parent) + 1
  }

  /** The ancestor of b, or b itself, at height n. */
  function Ancestor(b: Block, n: nat): (a: Block)
    requires n <= Number(b)
    ensures Number(a) == n
  {
    if n == Number(b) then b else Ancestor(b.parent, n)
  }

  lemma {:induction false} AncestorOfAncestor(b: Block, n: nat, k: nat)
    requires k <= n <= Number(b)
    ensures Ancestor(Ancestor(b, n), k) == Ancestor(b, k)
  {
    if n < Number(b) {
      AncestorOfAncestor(b.parent, n, k);
    }
  }

  /** The parent of an ancestor is the ancestor one lower. */
  lemma ParentIsAncestor(b: Block, n: nat)
    requires 0 < n <= Number(b)
    ensures Ancestor(b, n).Child? && Ancestor(b, n).parent == Ancestor(b, n - 1)
  {
    AncestorOfAncestor(b, n, n - 1);
  }

  /** The sum of difficulties from the root to b. */
  function TotalDifficulty(b: Block): int {
    if b.Root? then b.difficulty else TotalDifficulty(b.parent) + b.difficulty
  }

  /** Every stored block but the genesis has its parent stored. */
  ghost predicate Rooted(stored: set<Block>, genesis: Block) {
    genesis.Root? && genesis in stored
    && forall b :: b in stored && b != genesis ==> b.Child? && b.parent in stored
  }

  lemma {:induction false} AncestorStored(stored: set<Block>, genesis: Block, b: Block, n: nat)
    requires Rooted(stored, genesis) && b in stored && n <= Number(b)
    ensures Ancestor(b, n) in stored
    ensures n == 0 ==> Ancestor(b, n) == genesis
  {
    if n < Number(b) {
      AncestorStored(stored, genesis, b.parent, n);
    }
  }

  /** The number index holds exactly the ancestry of b and nothing above. */
  ghost predicate Indexes(canon: map<nat, Block>, b: Block) {
    && (forall n: nat :: n in canon <==> n <= Number(b))
    && (forall n: nat :: n <= Number(b) ==> canon[n] == Ancestor(b, n))
  }
}

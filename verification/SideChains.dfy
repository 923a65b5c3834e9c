/**
 core/chains_info.go: the pending side chains and their settlement. At each height every pending
 chain is kept, launched or expired; deposits move between the accounts' balances, their chain
 balances and their side-chain deposits.
 */
module SideChains {
  import opened Sums
  import opened Wrappers
  import TxItems

  type Address = TxItems.Address

  const OFFICIAL_MINIMUM_DEPOSIT: int := 1_000_000_000_000_000_000_000_000

  datatype ChainId = ChainId(name: string)

  /** The places of the state that hold money. */
  datatype Pot =
    | Balance(owner: Address)
    | ChainBalance(owner: Address)
    | SideChainDeposit(owner: Address, chain: ChainId)

  datatype Validator = Validator(address: Address, deposit: int)

  datatype ChainInfo = ChainInfo(id: ChainId, owner: Address, minValidators: nat, minDeposit: int,
                                 start: int, end: int, joined: seq<Validator>)

  /** An entry of the pending index; the chain's data may change later without it. */
  datatype IndexEntry = IndexEntry(id: ChainId, start: int, end: int)

  // ---- Deposits ----

  function Deposits(joined: seq<Validator>): int {
    if joined == [] then 0 else Deposits(joined[..|joined| - 1]) + joined[|joined| - 1].deposit
  }

  method TotalDeposit(joined: seq<Validator>) returns (sum: int)
    ensures sum == Deposits(joined)
  {
    sum := 0;
    for i := 0 to |joined|
      invariant sum == Deposits(joined[..i])
    {
      assert joined[..i + 1][..i] == joined[..i];
      sum := sum + joined[i].deposit;
    }
    assert joined[..|joined|] == joined;
  }

  /** What one address has deposited. */
  ghost function DepositOf(joined: seq<Validator>, a: Address): int {
    if joined == [] then 0
    else
      var last := joined[|joined| - 1];
      DepositOf(joined[..|joined| - 1], a) + if last.address == a then last.deposit else 0
  }

  // ---- Transfers ----

  datatype Transfer = Transfer(from: Pot, to: Pot, amount: int)

  /** What a list of transfers adds to a pot, less what it takes out. */
  ghost function Flow(ts: seq<Transfer>, p: Pot): int {
    if ts == [] then 0
    else
      var t := ts[|ts| - 1];
      Flow(ts[..|ts| - 1], p) + (if t.to == p then t.amount else 0) - (if t.from == p then t.amount else 0)
  }

  lemma {:induction false} FlowConcat(ts: seq<Transfer>, us: seq<Transfer>, p: Pot)
    ensures Flow(ts + us, p) == Flow(ts, p) + Flow(us, p)
  {
    if us == [] {
      assert ts + us == ts;
    } else {
      var u := us[|us| - 1];
      FlowConcat(ts, us[..|us| - 1], p);
      assert (ts + us)[..|ts + us| - 1] == ts + us[..|us| - 1];
    }
  }

  /** The money in the state database. */
  class Ledger {
    var pots: map<Pot, int>

    constructor (pots: map<Pot, int>)
      ensures this.pots == pots
    {
      this.pots := pots;
    }

    function Amount(p: Pot): int
      reads this
    {
      if p in pots then pots[p] else 0
    }

    ghost function Wealth(): int
      reads this
    {
      Sum(pots)
    }

    method Add(p: Pot, amount: int)
      modifies this
      ensures Wealth() == old(Wealth()) + amount
      ensures forall q :: Amount(q) == old(Amount(q)) + if q == p then amount else 0
    {
      SumUpdate(pots, p, Amount(p) + amount);
      pots := pots[p := Amount(p) + amount];
    }

    /** Paid out of one pot and into another; the order of the two does not matter. */
    method Move(t: Transfer)
      modifies this
      ensures Wealth() == old(Wealth())
      ensures forall q :: Amount(q) == old(Amount(q)) + Flow([t], q)
    {
      Add(t.from, -t.amount);
      Add(t.to, t.amount);
      assert [t][..0] == [];
    }
  }

  // ---- The fate of a pending chain ----

  datatype Fate = Kept | Launched | Expired

  type Pending = map<ChainId, ChainInfo>

  predicate Launchable(c: ChainInfo) {
    |c.joined| >= c.minValidators && Deposits(c.joined) >= c.minDeposit
  }

  /** Not started; past its end; or in its window and either complete or not. */
  function FateOf(e: IndexEntry, height: int, pending: Pending): Fate
    requires e.id in pending
  {
    if height < e.start then Kept
    else if e.end < height then Expired
    else if Launchable(pending[e.id]) then Launched
    else Kept
  }

  /** Deposits go back to the validators and the official minimum to the owner. */
  ghost function Refunds(c: ChainInfo, id: ChainId): seq<Transfer> {
    Returned(c.joined, id) + [Transfer(ChainBalance(c.owner), Balance(c.owner), OFFICIAL_MINIMUM_DEPOSIT)]
  }

  ghost function Returned(joined: seq<Validator>, id: ChainId): seq<Transfer> {
    seq(|joined|, i requires 0 <= i < |joined| =>
      Transfer(SideChainDeposit(joined[i].address, id), Balance(joined[i].address), joined[i].deposit))
  }

  /** Deposits go to the owner's chain balance. */
  ghost function Handover(joined: seq<Validator>, id: ChainId, owner: Address): seq<Transfer> {
    seq(|joined|, i requires 0 <= i < |joined| =>
      Transfer(SideChainDeposit(joined[i].address, id), ChainBalance(owner), joined[i].deposit))
  }

  ghost function Due(e: IndexEntry, height: int, pending: Pending): seq<Transfer>
    requires e.id in pending
  {
    match FateOf(e, height, pending)
    case Kept => []
    case Launched => Handover(pending[e.id].joined, e.id, pending[e.id].owner)
    case Expired => Refunds(pending[e.id], e.id)
  }

  // ---- The pending index ----

  ghost predicate Indexed(index: seq<IndexEntry>, pending: Pending) {
    forall i :: 0 <= i < |index| ==> index[i].id in pending
  }

  ghost predicate Distinct(index: seq<IndexEntry>) {
    forall i, j :: 0 <= i < j < |index| ==> index[i].id != index[j].id
  }

  /** The entries of one fate, in the order of the index. */
  ghost function With(fate: Fate, index: seq<IndexEntry>, height: int, pending: Pending): seq<IndexEntry>
    requires Indexed(index, pending)
  {
    if index == [] then []
    else
      var n := |index| - 1;
      With(fate, index[..n], height, pending) + if FateOf(index[n], height, pending) == fate then [index[n]] else []
  }

  ghost function Ids(index: seq<IndexEntry>): seq<ChainId> {
    seq(|index|, i requires 0 <= i < |index| => index[i].id)
  }

  ghost function AllDue(index: seq<IndexEntry>, height: int, pending: Pending): seq<Transfer>
    requires Indexed(index, pending)
  {
    if index == [] then []
    else AllDue(index[..|index| - 1], height, pending) + Due(index[|index| - 1], height, pending)
  }

  /** One more entry of the index. */
  lemma OneMore(index: seq<IndexEntry>, i: nat, height: int, pending: Pending)
    requires i < |index| && Indexed(index, pending)
    ensures forall fate :: With(fate, index[..i + 1], height, pending)
                           == With(fate, index[..i], height, pending)
                              + if FateOf(index[i], height, pending) == fate then [index[i]] else []
    ensures AllDue(index[..i + 1], height, pending)
              == AllDue(index[..i], height, pending) + Due(index[i], height, pending)
  {
    assert index[..i + 1][..i] == index[..i];
  }

  /**
   Deleted are exactly the chains that have started and whose end is below the height, launched
   exactly those in their window with enough validators and deposits.
   */
  ghost predicate Decided(index: seq<IndexEntry>, height: int, pending: Pending, ready: seq<ChainId>,
                          deleted: seq<ChainId>)
    requires Indexed(index, pending)
  {
    forall i :: 0 <= i < |index| ==>
      var e, c := index[i], pending[index[i].id];
      && (e.id in deleted <==> e.start <= height && e.end < height)
      && (e.id in ready <==>
          e.start <= height <= e.end && |c.joined| >= c.minValidators && Deposits(c.joined) >= c.minDeposit)
  }

  class ChainDb {
    var index: seq<IndexEntry>
    var pending: Pending

    /** Every index entry has its data, and no chain is indexed twice. */
    ghost predicate Valid()
      reads this
    {
      Indexed(index, pending) && Distinct(index)
    }

    constructor ()
      ensures Valid() && index == [] && pending == map[]
    {
      index, pending := [], map[];
    }

    /** Stores a chain's data and, for a new chain, its index entry. */
    method StorePending(c: ChainInfo, create: bool)
      requires Valid()
      modifies this
      ensures Valid() && pending == old(pending)[c.id := c]
      ensures index == if create && c.id !in Ids(old(index)) then old(index) + [IndexEntry(c.id, c.start, c.end)]
                       else old(index)
    {
      pending := pending[c.id := c];
      if create {
        for i := 0 to |index|
          invariant forall j :: 0 <= j < i ==> index[j].id != c.id
        {
          if index[i].id == c.id {
            assert Ids(index)[i] == c.id;
            return;
          }
        }
        index := index + [IndexEntry(c.id, c.start, c.end)];
      }
    }

    /** Deletes a chain's data; the index keeps its data exactly if the chain is no longer indexed. */
    method DeletePending(id: ChainId)
      modifies `pending
      ensures pending == old(pending) - {id}
      ensures old(Valid()) ==> (Valid() <==> id !in Ids(index))
    {
      assert forall i :: 0 <= i < |index| ==> index[i].id == Ids(index)[i];
      pending := pending - {id};
    }

    method PayRefunds(state: Ledger, id: ChainId)
      requires id in pending
      modifies state
      ensures state.Wealth() == old(state.Wealth())
      ensures forall p :: state.Amount(p) == old(state.Amount(p)) + Flow(Refunds(pending[id], id), p)
    {
      var c := pending[id];
      ghost var due := Returned(c.joined, id);
      for i := 0 to |c.joined|
        invariant state.Wealth() == old(state.Wealth())
        invariant forall p :: state.Amount(p) == old(state.Amount(p)) + Flow(due[..i], p)
      {
        var v := c.joined[i];
        state.Move(Transfer(SideChainDeposit(v.address, id), Balance(v.address), v.deposit));
        NextFlow(due, i);
      }
      var last := Transfer(ChainBalance(c.owner), Balance(c.owner), OFFICIAL_MINIMUM_DEPOSIT);
      state.Move(last);
      assert due[..|due|] == due;
      forall p ensures Flow(due + [last], p) == Flow(due, p) + Flow([last], p) {
        FlowConcat(due, [last], p);
      }
    }

    method PayHandover(state: Ledger, id: ChainId)
      requires id in pending
      modifies state
      ensures state.Wealth() == old(state.Wealth())
      ensures forall p :: state.Amount(p)
                          == old(state.Amount(p)) + Flow(Handover(pending[id].joined, id, pending[id].owner), p)
    {
      var c := pending[id];
      ghost var due := Handover(c.joined, id, c.owner);
      for i := 0 to |c.joined|
        invariant state.Wealth() == old(state.Wealth())
        invariant forall p :: state.Amount(p) == old(state.Amount(p)) + Flow(due[..i], p)
      {
        var v := c.joined[i];
        state.Move(Transfer(SideChainDeposit(v.address, id), ChainBalance(c.owner), v.deposit));
        NextFlow(due, i);
      }
      assert due[..|due|] == due;
    }

    /** Decides one entry and moves its money. */
    method SettleEntry(v: IndexEntry, height: int, state: Ledger) returns (fate: Fate)
      requires v.id in pending
      modifies state
      ensures fate == FateOf(v, height, pending)
      ensures state.Wealth() == old(state.Wealth())
      ensures forall p :: state.Amount(p) == old(state.Amount(p)) + Flow(Due(v, height, pending), p)
    {
      fate := Kept;
      if v.start > height {
        return;
      } else if v.end < height {
        PayRefunds(state, v.id);
        return Expired;
      } else {
        var c := pending[v.id];
        var total := TotalDeposit(c.joined);
        if |c.joined| >= c.minValidators && total >= c.minDeposit {
          PayHandover(state, v.id);
          return Launched;
        }
      }
    }

    /**
     Settles every pending chain at a height. The kept entries are gathered in the array that is
     being read. The index itself is rewritten later, from the result.
     */
    method GetSideChainForLaunch(height: int, state: Ledger)
      returns (ready: seq<ChainId>, newIndex: Option<seq<IndexEntry>>, deleted: seq<ChainId>)
      requires Valid()
      modifies state
      ensures ready == Ids(With(Launched, index, height, pending))
      ensures deleted == Ids(With(Expired, index, height, pending))
      ensures var kept := With(Kept, index, height, pending);
              newIndex == if |kept| == |index| then None else Some(kept)
      ensures Decided(index, height, pending, ready, deleted)
      ensures state.Wealth() == old(state.Wealth())
      ensures forall p :: state.Amount(p) == old(state.Amount(p)) + Flow(AllDue(index, height, pending), p)
    {
      hide Distinct, With, AllDue, Flow, Due, FateOf, Decided, Ledger.Amount, Ledger.Wealth;
      SettleStart(height, pending);
      FatesTell(index, height, pending);
      ready, newIndex, deleted := [], None, [];
      if |index| == 0 {
        return;
      }
      var idx := new IndexEntry[|index|](i requires 0 <= i < |index| reads this => index[i]);
      assert idx[..] == index;
      var w := 0;
      for i := 0 to |index|
        invariant w <= i && fresh(idx) && idx.Length == |index|
        invariant idx[..w] == With(Kept, index[..i], height, pending)
        invariant forall k :: i <= k < |index| ==> idx[k] == index[k]
        invariant ready == Ids(With(Launched, index[..i], height, pending))
        invariant deleted == Ids(With(Expired, index[..i], height, pending))
        invariant state.Wealth() == old(state.Wealth())
        invariant forall p :: state.Amount(p) == old(state.Amount(p)) + Flow(AllDue(index[..i], height, pending), p)
      {
        var v := idx[i];
        assert v == index[i];
        OneMore(index, i, height, pending);
        MoreFlow(AllDue(index[..i], height, pending), Due(v, height, pending));
        var fate := SettleEntry(v, height, state);
        match fate
        case Kept =>
          idx[w] := v;
          w := w + 1;
        case Launched =>
          ready := ready + [v.id];
        case Expired =>
          deleted := deleted + [v.id];
      }
      assert index[..|index|] == index;
      if w != |index| {
        newIndex := Some(idx[..w]);
      }
    }

    /** Applies the result of a settlement to the database. */
    method ProcessPostPendingData(newIndex: Option<seq<IndexEntry>>, deleted: seq<ChainId>)
      modifies this
      ensures pending == old(pending) - set id | id in deleted
      ensures index == if newIndex.Some? then newIndex.value else old(index)
    {
      for i := 0 to |deleted|
        invariant index == old(index)
        invariant pending == old(pending) - set id | id in deleted[..i]
      {
        assert deleted[..i + 1] == deleted[..i] + [deleted[i]];
        pending := pending - {deleted[i]};
      }
      assert deleted[..|deleted|] == deleted;
      if newIndex.Some? {
        index := newIndex.value;
      }
    }

    /**
     A settlement and its posting, no chain being created in between: exactly the kept entries
     stay indexed, and nothing is left for the height that was settled.
     */
    method SettleAndPost(height: int, state: Ledger) returns (ready: seq<ChainId>)
      requires Valid()
      modifies this, state
      ensures Valid() && index == With(Kept, old(index), height, old(pending))
      ensures ready == Ids(With(Launched, old(index), height, old(pending)))
      ensures forall id :: id in pending
                <==> id in old(pending) && id !in Ids(With(Expired, old(index), height, old(pending)))
      ensures forall fate :: With(fate, index, height, pending) == if fate == Kept then index else []
      ensures forall i :: 0 <= i < |index| ==> height < index[i].start || height <= index[i].end
      ensures state.Wealth() == old(state.Wealth())
    {
      hide Distinct, With, AllDue, Flow, Indexed;
      var newIndex, deleted;
      ready, newIndex, deleted := GetSideChainForLaunch(height, state);
      KeptStay(index, height, pending, deleted);
      if newIndex.None? {
        AllKept(index, height, pending);
      }
      ProcessPostPendingData(newIndex, deleted);
      NoneExpired(index, height, pending);
    }
  }

  lemma SettleStart(height: int, pending: Pending)
    ensures forall fate :: With(fate, [], height, pending) == []
    ensures AllDue([], height, pending) == []
    ensures forall p :: Flow([], p) == 0
  {
  }

  lemma MoreFlow(ts: seq<Transfer>, us: seq<Transfer>)
    ensures forall p :: Flow(ts + us, p) == Flow(ts, p) + Flow(us, p)
  {
    forall p ensures Flow(ts + us, p) == Flow(ts, p) + Flow(us, p) {
      FlowConcat(ts, us, p);
    }
  }

  lemma NextFlow(ts: seq<Transfer>, i: nat)
    requires i < |ts|
    ensures forall p :: Flow(ts[..i + 1], p) == Flow(ts[..i], p) + Flow([ts[i]], p)
  {
    forall p ensures Flow(ts[..i + 1], p) == Flow(ts[..i], p) + Flow([ts[i]], p) {
      FlowConcat(ts[..i], [ts[i]], p);
      assert ts[..i + 1] == ts[..i] + [ts[i]];
    }
  }

  // ---- Each entry has one fate ----

  lemma {:induction false} WithMember(fate: Fate, index: seq<IndexEntry>, height: int, pending: Pending, e: IndexEntry)
    requires Indexed(index, pending)
    ensures e in With(fate, index, height, pending) <==>
            exists i :: 0 <= i < |index| && index[i] == e && FateOf(index[i], height, pending) == fate
  {
    if index != [] {
      var n := |index| - 1;
      WithMember(fate, index[..n], height, pending, e);
      assert forall i :: 0 <= i < n ==> index[..n][i] == index[i];
    }
  }

  /** The share of one fate in an entry. */
  ghost function Own(fate: Fate, of: Fate, e: IndexEntry): multiset<IndexEntry> {
    if of == fate then multiset{e} else multiset{}
  }

  lemma WithLast(fate: Fate, index: seq<IndexEntry>, height: int, pending: Pending)
    requires Indexed(index, pending) && index != []
    ensures var n := |index| - 1;
            multiset(With(fate, index, height, pending))
            == multiset(With(fate, index[..n], height, pending)) + Own(fate, FateOf(index[n], height, pending),
                index[n])
  {
    hide FateOf;
  }

  lemma OneShare(a: multiset<IndexEntry>, b: multiset<IndexEntry>, c: multiset<IndexEntry>, of: Fate, e: IndexEntry)
    ensures (a + Own(Kept, of, e)) + (b + Own(Launched, of, e)) + (c + Own(Expired, of, e)) == a + b + c + multiset{e}
  {
  }

  /** Kept, launched or expired: together the whole index, and no entry in two of them. */
  lemma {:induction false} FatesPartition(index: seq<IndexEntry>, height: int, pending: Pending)
    requires Indexed(index, pending)
    ensures multiset(With(Kept, index, height, pending)) + multiset(With(Launched, index, height, pending))
            + multiset(With(Expired, index, height, pending)) == multiset(index)
  {
    hide FateOf, Own, With;
    if index == [] {
      SettleStart(height, pending);
    } else {
      var n := |index| - 1;
      var front, e := index[..n], index[n];
      FatesPartition(front, height, pending);
      WithLast(Kept, index, height, pending);
      WithLast(Launched, index, height, pending);
      WithLast(Expired, index, height, pending);
      OneShare(multiset(With(Kept, front, height, pending)), multiset(With(Launched, front, height, pending)),
               multiset(With(Expired, front, height, pending)), FateOf(e, height, pending), e);
      assert index == front + [e];
    }
  }

  lemma {:induction false} WithDistinct(fate: Fate, index: seq<IndexEntry>, height: int, pending: Pending)
    requires Indexed(index, pending) && Distinct(index)
    ensures Distinct(With(fate, index, height, pending))
  {
    if index != [] {
      var n := |index| - 1;
      var front := With(fate, index[..n], height, pending);
      WithDistinct(fate, index[..n], height, pending);
      forall k | 0 <= k < |front|
        ensures front[k].id != index[n].id
      {
        WithMember(fate, index[..n], height, pending, front[k]);
      }
    }
  }

  lemma {:induction false} WithLength(fate: Fate, index: seq<IndexEntry>, height: int, pending: Pending)
    requires Indexed(index, pending)
    ensures |With(fate, index, height, pending)| <= |index|
    ensures |With(fate, index, height, pending)| == |index| ==> With(fate, index, height, pending) == index
  {
    if index != [] {
      var n := |index| - 1;
      WithLength(fate, index[..n], height, pending);
      assert index == index[..n] + [index[n]];
    }
  }

  /** An index that loses no entry is its own kept part. */
  lemma AllKept(index: seq<IndexEntry>, height: int, pending: Pending)
    requires Indexed(index, pending) && |With(Kept, index, height, pending)| == |index|
    ensures With(Kept, index, height, pending) == index
  {
    WithLength(Kept, index, height, pending);
  }

  /** Entries that are all kept stay so under any data that agrees on them. */
  lemma {:induction false} Settled(index: seq<IndexEntry>, height: int, pending: Pending)
    requires Indexed(index, pending)
    requires forall i :: 0 <= i < |index| ==> FateOf(index[i], height, pending) == Kept
    ensures forall fate :: With(fate, index, height, pending) == if fate == Kept then index else []
  {
    if index != [] {
      var n := |index| - 1;
      Settled(index[..n], height, pending);
      assert index == index[..n] + [index[n]];
    }
  }

  lemma KeptEntry(index: seq<IndexEntry>, height: int, pending: Pending, e: IndexEntry)
    requires Indexed(index, pending) && Distinct(index) && e in With(Kept, index, height, pending)
    ensures e.id in pending && FateOf(e, height, pending) == Kept
    ensures e.id !in Ids(With(Expired, index, height, pending))
  {
    hide With;
    WithMember(Kept, index, height, pending, e);
    var expired := With(Expired, index, height, pending);
    forall k | 0 <= k < |expired|
      ensures expired[k].id != e.id
    {
      WithMember(Expired, index, height, pending, expired[k]);
    }
  }

  /** After posting, the kept entries are a valid index, and settling again does nothing. */
  lemma KeptStay(index: seq<IndexEntry>, height: int, pending: Pending, deleted: seq<ChainId>)
    requires Indexed(index, pending) && Distinct(index)
    requires deleted == Ids(With(Expired, index, height, pending))
    ensures var kept := With(Kept, index, height, pending);
            var left := pending - set id | id in deleted;
            && Indexed(kept, left) && Distinct(kept)
            && forall fate :: With(fate, kept, height, left) == if fate == Kept then kept else []
  {
    hide With, FateOf;
    var kept := With(Kept, index, height, pending);
    var left := pending - set id | id in deleted;
    WithDistinct(Kept, index, height, pending);
    forall i | 0 <= i < |kept|
      ensures kept[i].id in left && FateOf(kept[i], height, left) == Kept
    {
      KeptEntry(index, height, pending, kept[i]);
      SameFate(kept[i], height, pending, left);
    }
    Settled(kept, height, left);
  }

  lemma SameFate(e: IndexEntry, height: int, pending: Pending, left: Pending)
    requires e.id in pending && e.id in left && pending[e.id] == left[e.id]
    ensures FateOf(e, height, pending) == FateOf(e, height, left)
  {
  }

  /** Which entries are deleted and which are launched, by their window, their validators and their deposits. */
  lemma FateTells(index: seq<IndexEntry>, height: int, pending: Pending, i: nat)
    requires Indexed(index, pending) && Distinct(index) && i < |index|
    ensures index[i].id in Ids(With(Expired, index, height, pending)) <==>
            index[i].start <= height && index[i].end < height
    ensures index[i].id in Ids(With(Launched, index, height, pending)) <==>
            && index[i].start <= height <= index[i].end
            && |pending[index[i].id].joined| >= pending[index[i].id].minValidators
            && Deposits(pending[index[i].id].joined) >= pending[index[i].id].minDeposit
  {
    hide With;
    HasFate(Expired, index, height, pending, i);
    HasFate(Launched, index, height, pending, i);
  }

  lemma FatesTell(index: seq<IndexEntry>, height: int, pending: Pending)
    requires Indexed(index, pending) && Distinct(index)
    ensures Decided(index, height, pending, Ids(With(Launched, index, height, pending)),
                    Ids(With(Expired, index, height, pending)))
  {
    hide With, Ids, Distinct;
    forall i | 0 <= i < |index|
      ensures index[i].id in Ids(With(Expired, index, height, pending)) <==>
              index[i].start <= height && index[i].end < height
      ensures index[i].id in Ids(With(Launched, index, height, pending)) <==>
              && index[i].start <= height <= index[i].end
              && |pending[index[i].id].joined| >= pending[index[i].id].minValidators
              && Deposits(pending[index[i].id].joined) >= pending[index[i].id].minDeposit
    {
      FateTells(index, height, pending, i);
    }
  }

  lemma HasFate(fate: Fate, index: seq<IndexEntry>, height: int, pending: Pending, i: nat)
    requires Indexed(index, pending) && Distinct(index) && i < |index|
    ensures index[i].id in Ids(With(fate, index, height, pending)) <==> FateOf(index[i], height, pending) == fate
  {
    hide With, FateOf;
    var found, ids := With(fate, index, height, pending), Ids(With(fate, index, height, pending));
    WithMember(fate, index, height, pending, index[i]);
    if index[i] in found {
      var k :| 0 <= k < |found| && found[k] == index[i];
      assert ids[k] == index[i].id;
    }
    if index[i].id in ids {
      var k :| 0 <= k < |ids| && ids[k] == index[i].id;
      WithMember(fate, index, height, pending, found[k]);
    }
  }

  lemma NoneExpired(index: seq<IndexEntry>, height: int, pending: Pending)
    requires Indexed(index, pending) && Distinct(index) && With(Expired, index, height, pending) == []
    ensures forall i :: 0 <= i < |index| ==> height < index[i].start || height <= index[i].end
  {
    forall i | 0 <= i < |index|
      ensures height < index[i].start || height <= index[i].end
    {
      FateTells(index, height, pending, i);
    }
  }

  // ---- Where the money goes ----

  lemma {:induction false} ReturnedFlow(joined: seq<Validator>, id: ChainId, p: Pot)
    ensures Flow(Returned(joined, id), p) ==
            match p
            case Balance(a) => DepositOf(joined, a)
            case ChainBalance(_) => 0
            case SideChainDeposit(a, chain) => if chain == id then -DepositOf(joined, a) else 0
  {
    if joined != [] {
      var n := |joined| - 1;
      ReturnedFlow(joined[..n], id, p);
      assert Returned(joined, id)[..n] == Returned(joined[..n], id);
    }
  }

  lemma {:induction false} HandoverFlow(joined: seq<Validator>, id: ChainId, owner: Address, p: Pot)
    ensures Flow(Handover(joined, id, owner), p) ==
            match p
            case Balance(_) => 0
            case ChainBalance(a) => if a == owner then Deposits(joined) else 0
            case SideChainDeposit(a, chain) => if chain == id then -DepositOf(joined, a) else 0
  {
    if joined != [] {
      var n := |joined| - 1;
      HandoverFlow(joined[..n], id, owner, p);
      assert Handover(joined, id, owner)[..n] == Handover(joined[..n], id, owner);
    }
  }

  /** A launch raises the owner's chain balance by the deposits, so by the required minimum at least. */
  lemma LaunchFunds(e: IndexEntry, height: int, pending: Pending)
    requires e.id in pending && FateOf(e, height, pending) == Launched
    ensures Flow(Due(e, height, pending), ChainBalance(pending[e.id].owner)) == Deposits(pending[e.id].joined)
    ensures Flow(Due(e, height, pending), ChainBalance(pending[e.id].owner)) >= pending[e.id].minDeposit
  {
    var c := pending[e.id];
    HandoverFlow(c.joined, e.id, c.owner, ChainBalance(c.owner));
  }

  /** An expiry returns the deposits, and moves the official minimum back from the owner's chain balance. */
  lemma ExpiryFlow(e: IndexEntry, height: int, pending: Pending, p: Pot)
    requires e.id in pending && FateOf(e, height, pending) == Expired
    ensures var c := pending[e.id];
            Flow(Due(e, height, pending), p) ==
            match p
            case Balance(a) =>
              DepositOf(c.joined, a) + if a == c.owner then 1_000_000 * 1_000_000_000_000_000_000 else 0
            case ChainBalance(a) => if a == c.owner then -(1_000_000 * 1_000_000_000_000_000_000) else 0
            case SideChainDeposit(a, chain) => if chain == e.id then -DepositOf(c.joined, a) else 0
  {
    var c := pending[e.id];
    var last := Transfer(ChainBalance(c.owner), Balance(c.owner), OFFICIAL_MINIMUM_DEPOSIT);
    ReturnedFlow(c.joined, e.id, p);
    FlowConcat(Returned(c.joined, e.id), [last], p);
    assert [last][..0] == [];
  }

  /** What settling one entry takes out of an account's deposit on a chain. */
  lemma DueDeposit(e: IndexEntry, height: int, pending: Pending, a: Address, id: ChainId)
    requires e.id in pending
    ensures Flow(Due(e, height, pending), SideChainDeposit(a, id)) ==
            if e.id == id && FateOf(e, height, pending) != Kept then -DepositOf(pending[id].joined, a) else 0
  {
    var c, p := pending[e.id], SideChainDeposit(a, id);
    match FateOf(e, height, pending)
    case Kept =>
    case Launched =>
      HandoverFlow(c.joined, e.id, c.owner, p);
    case Expired =>
      var last := Transfer(ChainBalance(c.owner), Balance(c.owner), OFFICIAL_MINIMUM_DEPOSIT);
      ReturnedFlow(c.joined, e.id, p);
      FlowConcat(Returned(c.joined, e.id), [last], p);
      assert [last][..0] == [];
  }

  /** Some entry of the index launches or expires the chain. */
  ghost predicate Leaves(index: seq<IndexEntry>, height: int, pending: Pending, id: ChainId)
    requires Indexed(index, pending)
  {
    exists i :: 0 <= i < |index| && index[i].id == id && FateOf(index[i], height, pending) != Kept
  }

  /**
   A settlement releases, of every account and every chain, exactly the deposits recorded for a
   chain that leaves the index, once, and touches no other deposit.
   */
  lemma {:induction false} DepositsReleased(index: seq<IndexEntry>, height: int, pending: Pending, a: Address,
                                            id: ChainId)
    requires Indexed(index, pending) && Distinct(index)
    ensures Flow(AllDue(index, height, pending), SideChainDeposit(a, id)) ==
            if Leaves(index, height, pending, id) then -DepositOf(pending[id].joined, a) else 0
  {
    hide FateOf, Due, Flow;
    if index == [] {
      SettleStart(height, pending);
    } else {
      var n := |index| - 1;
      var p := SideChainDeposit(a, id);
      DepositsReleased(index[..n], height, pending, a, id);
      DueDeposit(index[n], height, pending, a, id);
      FlowConcat(AllDue(index[..n], height, pending), Due(index[n], height, pending), p);
      LeavesLast(index, height, pending, id);
    }
  }

  lemma LeavesLast(index: seq<IndexEntry>, height: int, pending: Pending, id: ChainId)
    requires Indexed(index, pending) && Distinct(index) && index != []
    ensures var n := |index| - 1;
            && (Leaves(index, height, pending, id) <==>
                Leaves(index[..n], height, pending, id)
                || (index[n].id == id && FateOf(index[n], height, pending) != Kept))
            && (Leaves(index[..n], height, pending, id) ==> index[n].id != id)
  {
    hide FateOf;
    var n := |index| - 1;
    assert forall i :: 0 <= i < n ==> index[..n][i] == index[i];
  }
}

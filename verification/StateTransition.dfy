/**
 core/gaspool.go, core/state_transition.go, core/state_transition1.go, core/state_processor.go,
 core/state_processor1.go and SetReceiptsData of core/blockchain.go: gas and money over a block.
 The virtual machine and the chain-contract callbacks are function values under a contract: they
 leave no more gas than they are given and keep the total of all balances.
 */
module StateTransitions {
  import opened Sums
  import opened Wrappers
  import TxItems

  type Address = TxItems.Address

  const MAX_UINT64: nat := 0xFFFF_FFFF_FFFF_FFFF
  const TX_GAS: nat := 21000
  const TX_GAS_CONTRACT_CREATION: nat := 53000
  const TX_DATA_ZERO_GAS: nat := 4
  const TX_DATA_NON_ZERO_GAS: nat := 68

  /** The part of the state a transaction's accounting reads and writes. */
  datatype World = World(balances: map<Address, int>, nonces: map<Address, nat>, refund: nat) {
    function BalanceOf(a: Address): int {
      if a in balances then balances[a] else 0
    }

    function NonceOf(a: Address): nat {
      if a in nonces then nonces[a] else 0
    }

    ghost function Wealth(): int {
      Sum(balances)
    }

    function Credit(a: Address, amount: int): World {
      this.(balances := balances[a := BalanceOf(a) + amount])
    }

    function Bump(a: Address): World {
      this.(nonces := nonces[a := NonceOf(a) + 1])
    }

    lemma CreditWealth(a: Address, amount: int)
      ensures Credit(a, amount).Wealth() == Wealth() + amount
    {
      SumUpdate(balances, a, BalanceOf(a) + amount);
    }
  }

  datatype VmError = NoError | InsufficientBalance | OtherError

  datatype VmOutcome = VmOutcome(world: World, gasLeft: nat, err: VmError)

  /** A call or a contract creation, run on a state with some gas. */
  type Vm = (World, nat) -> VmOutcome

  /** A chain-contract callback: the state after it, or none if it fails. */
  type Callback = World -> Option<World>

  ghost predicate VmContract(vm: Vm) {
    forall w: World, g: nat :: vm(w, g).gasLeft <= g && vm(w, g).world.Wealth() == w.Wealth()
  }

  ghost predicate CallbackContract(cb: Callback) {
    forall w: World :: cb(w).Some? ==> cb(w).value.Wealth() == w.Wealth()
  }

  datatype Message = Message(from: Address, creation: bool, nonce: nat, checkNonce: bool, gas: nat, price: int,
                             value: int, data: seq<nat>)

  datatype TxError = NonceTooHigh | NonceTooLow | InsufficientBalanceForGas | GasLimitReached | OutOfGas
                   | InsufficientFunds | UnknownFunction | NotAllowedInMainChain | NotAllowedInSideChain
                   | CallbackFailed

  // ---- Intrinsic gas ----

  function NonZeros(data: seq<nat>): (n: nat)
    ensures n <= |data|
  {
    if data == [] then 0 else NonZeros(data[..|data| - 1]) + if data[|data| - 1] != 0 then 1 else 0
  }

  /** What a message costs before it runs, in unbounded arithmetic. */
  function IntrinsicCost(data: seq<nat>, creation: bool, homestead: bool): nat {
    (if creation && homestead then TX_GAS_CONTRACT_CREATION else TX_GAS)
    + NonZeros(data) * TX_DATA_NON_ZERO_GAS + (|data| - NonZeros(data)) * TX_DATA_ZERO_GAS
  }

  /** The price of the bytes, one by one. */
  function ByteCost(data: seq<nat>): nat {
    if data == [] then 0 else (if data[0] == 0 then 4 else 68) + ByteCost(data[1..])
  }

  lemma {:induction false} ByteCostLast(data: seq<nat>, b: nat)
    ensures ByteCost(data + [b]) == ByteCost(data) + if b == 0 then 4 else 68
  {
    if data == [] {
      assert data + [b] == [b] && [b][1..] == [];
    } else {
      ByteCostLast(data[1..], b);
      assert (data + [b])[1..] == data[1..] + [b];
    }
  }

  /** 21000, or 53000 for a creation, and for each byte 4 if it is zero and 68 if not. */
  lemma {:induction false} CostIsSum(data: seq<nat>, creation: bool, homestead: bool)
    ensures IntrinsicCost(data, creation, homestead) ==
            (if creation && homestead then 53000 else 21000) + ByteCost(data)
    decreases |data|
  {
    if data != [] {
      var most, b := data[..|data| - 1], data[|data| - 1];
      CostIsSum(most, creation, homestead);
      ByteCostLast(most, b);
      assert data == most + [b];
    }
  }

  /** The 64-bit checks refuse exactly the costs that do not fit. */
  method IntrinsicGas(data: seq<nat>, creation: bool, homestead: bool) returns (r: Option<nat>)
    ensures r == if IntrinsicCost(data, creation, homestead) <= MAX_UINT64
                 then Some(IntrinsicCost(data, creation, homestead)) else None
  {
    var gas := if creation && homestead then TX_GAS_CONTRACT_CREATION else TX_GAS;
    if |data| > 0 {
      var nz: nat := 0;
      for i := 0 to |data|
        invariant nz == NonZeros(data[..i])
      {
        assert data[..i + 1][..i] == data[..i];
        if data[i] != 0 {
          nz := nz + 1;
        }
      }
      assert data[..|data|] == data;
      if (MAX_UINT64 - gas) / TX_DATA_NON_ZERO_GAS < nz {
        return None;
      }
      gas := gas + nz * TX_DATA_NON_ZERO_GAS;
      var z := |data| - nz;
      if (MAX_UINT64 - gas) / TX_DATA_ZERO_GAS < z {
        return None;
      }
      gas := gas + z * TX_DATA_ZERO_GAS;
    }
    return Some(gas);
  }

  // ---- The gas pool and the state ----

  class GasPool {
    var gas: nat

    constructor (gas: nat)
      ensures this.gas == gas
    {
      this.gas := gas;
    }

    /** Panics above 64 bits; that this does not happen is an obligation of every caller. */
    method AddGas(amount: nat)
      requires gas + amount <= MAX_UINT64
      modifies this
      ensures gas == old(gas) + amount
    {
      gas := gas + amount;
    }

    method SubGas(amount: nat) returns (ok: bool)
      modifies this
      ensures ok <==> amount <= old(gas)
      ensures gas == if ok then old(gas) - amount else old(gas)
    {
      ok := gas >= amount;
      if ok {
        gas := gas - amount;
      }
    }
  }

  class StateDB {
    var world: World

    constructor (world: World)
      ensures this.world == world
    {
      this.world := world;
    }

    method AddBalance(a: Address, amount: int)
      modifies this
      ensures world == old(world).Credit(a, amount)
      ensures world.Wealth() == old(world).Wealth() + amount
    {
      world.CreditWealth(a, amount);
      world := world.Credit(a, amount);
    }
  }

  lemma PriceSplits(total: nat, used: nat, price: int)
    requires used <= total
    ensures total * price == used * price + (total - used) * price
  {
    assert total == used + (total - used);
  }

  // ---- One message ----

  /** The first of the checks before execution that a message fails, in the order they are made. */
  function Refusal(w: World, pool: nat, msg: Message, cost: nat): Option<TxError> {
    if msg.checkNonce && w.NonceOf(msg.from) < msg.nonce then Some(NonceTooHigh)
    else if msg.checkNonce && w.NonceOf(msg.from) > msg.nonce then Some(NonceTooLow)
    else if w.BalanceOf(msg.from) < msg.gas * msg.price then Some(InsufficientBalanceForGas)
    else if pool < msg.gas then Some(GasLimitReached)
    else if msg.gas < cost || cost > MAX_UINT64 then Some(OutOfGas)
    else None
  }

  /** The cost only matters once every other check has passed. */
  lemma RefusalSplits(w: World, pool: nat, msg: Message, cost: nat)
    ensures Refusal(w, pool, msg, cost) ==
            match Refusal(w, pool, msg, 0)
            case Some(e) => Some(e)
            case None => if msg.gas < cost || cost > MAX_UINT64 then Some(OutOfGas) else None
    ensures Refusal(w, pool, msg, 0).None? ==> msg.gas <= pool
    ensures Refusal(w, pool, msg, cost).None? ==> cost <= msg.gas
  {
  }

  /** The state the virtual machine starts from: the whole gas limit paid, the nonce taken. */
  function Charged(w: World, msg: Message): World {
    var paid := w.Credit(msg.from, -(msg.gas * msg.price));
    if msg.creation then paid else paid.Bump(msg.from)
  }

  ghost function CostOf(msg: Message, homestead: bool): nat {
    IntrinsicCost(msg.data, msg.creation, homestead)
  }

  /** What the virtual machine returns for a message on a state. */
  ghost function ExecutionOf(msg: Message, vm: Vm, homestead: bool, w: World): VmOutcome
    requires CostOf(msg, homestead) <= msg.gas
  {
    vm(Charged(w, msg), msg.gas - CostOf(msg, homestead))
  }

  /** Why a message is not applied: the first check it fails, or a transfer the machine cannot make. */
  ghost function Failure(msg: Message, vm: Vm, homestead: bool, w: World, pool: nat): Option<TxError> {
    var refusal := Refusal(w, pool, msg, CostOf(msg, homestead));
    if refusal.Some? then refusal
    else if ExecutionOf(msg, vm, homestead, w).err == InsufficientBalance then Some(InsufficientFunds)
    else None
  }

  /** The state once what is left of the gas is paid back. */
  ghost function Repaid(msg: Message, vm: Vm, homestead: bool, w: World, usedGas: nat): World
    requires CostOf(msg, homestead) <= msg.gas
  {
    ExecutionOf(msg, vm, homestead, w).world.Credit(msg.from, (msg.gas - usedGas) * msg.price)
  }

  /** Gas used once the refund is given back: as much of it as is no more than half of the gas spent. */
  function AfterRefund(spent: nat, refund: nat): (used: nat)
    ensures used <= spent <= 2 * used && spent - used <= refund
    ensures spent - used < refund ==> spent < 2 * (spent - used + 1)
  {
    spent - if spent / 2 > refund then refund else spent / 2
  }

  datatype Applied = Applied(usedGas: nat, usedMoney: int, failed: bool)

  class StateTransition {
    const gp: GasPool
    const state: StateDB
    const msg: Message
    const vm: Vm
    const homestead: bool
    var gas: nat
    var initialGas: nat

    constructor (gp: GasPool, state: StateDB, msg: Message, vm: Vm, homestead: bool)
      ensures this.gp == gp && this.state == state && this.msg == msg && this.vm == vm && this.homestead == homestead
      ensures gas == 0 && initialGas == 0
    {
      this.gp, this.state, this.msg, this.vm, this.homestead := gp, state, msg, vm, homestead;
      gas, initialGas := 0, 0;
    }

    ghost function Cost(): nat {
      CostOf(msg, homestead)
    }

    method UseGas(amount: nat) returns (ok: bool)
      modifies this`gas
      ensures ok <==> amount <= old(gas)
      ensures gas == if ok then old(gas) - amount else old(gas)
    {
      ok := gas >= amount;
      if ok {
        gas := gas - amount;
      }
    }

    /** Prepays the whole gas limit; a refused purchase changes nothing. */
    method BuyGas() returns (r: Result<(), TxError>)
      requires gas == 0
      modifies this, gp, state
      ensures r.Ok? <==> msg.gas * msg.price <= old(state.world).BalanceOf(msg.from) && msg.gas <= old(gp.gas)
      ensures r.Ok? ==> gas == initialGas == msg.gas && gp.gas == old(gp.gas) - msg.gas
      ensures r.Ok? ==> state.world == old(state.world).Credit(msg.from, -(msg.gas * msg.price))
      ensures r.Err? ==> gp.gas == old(gp.gas) && state.world == old(state.world)
      ensures r.Err? ==> r.error == if old(state.world).BalanceOf(msg.from) < msg.gas * msg.price
                                    then InsufficientBalanceForGas else GasLimitReached
    {
      var mgval := msg.gas * msg.price;
      if state.world.BalanceOf(msg.from) < mgval {
        return Err(InsufficientBalanceForGas);
      }
      var ok := gp.SubGas(msg.gas);
      if !ok {
        return Err(GasLimitReached);
      }
      gas := gas + msg.gas;
      initialGas := msg.gas;
      state.AddBalance(msg.from, -mgval);
      return Ok(());
    }

    method PreCheck() returns (r: Result<(), TxError>)
      requires gas == 0
      modifies this, gp, state
      ensures r.Ok? <==> Refusal(old(state.world), old(gp.gas), msg, 0).None?
      ensures r.Ok? ==> gas == initialGas == msg.gas && gp.gas == old(gp.gas) - msg.gas
      ensures r.Ok? ==> state.world == old(state.world).Credit(msg.from, -(msg.gas * msg.price))
      ensures r.Err? ==> gp.gas == old(gp.gas) && state.world == old(state.world)
      ensures r.Err? ==> Some(r.error) == Refusal(old(state.world), old(gp.gas), msg, 0)
    {
      if msg.checkNonce {
        var nonce := state.world.NonceOf(msg.from);
        if nonce < msg.nonce {
          return Err(NonceTooHigh);
        } else if nonce > msg.nonce {
          return Err(NonceTooLow);
        }
      }
      r := BuyGas();
    }

    /** Returns the refund and what is left to the sender and to the pool. */
    method RefundGas()
      requires gas <= initialGas && gp.gas + initialGas <= MAX_UINT64
      modifies this`gas, gp, state
      ensures gas == initialGas - AfterRefund(initialGas - old(gas), old(state.world).refund)
      ensures gp.gas == old(gp.gas) + gas
      ensures state.world == old(state.world).Credit(msg.from, gas * msg.price)
      ensures state.world.Wealth() == old(state.world).Wealth() + gas * msg.price
    {
      var refund := (initialGas - gas) / 2;
      if refund > state.world.refund {
        refund := state.world.refund;
      }
      gas := gas + refund;
      state.AddBalance(msg.from, gas * msg.price);
      gp.AddGas(gas);
    }

    /**
     The message is applied exactly if no check refuses it and the machine can make the transfer.
     The pool then loses exactly the gas used, and the total of all balances exactly its price.
     */
    method TransitionDbEx() returns (r: Result<Applied, TxError>)
      requires gas == 0 && VmContract(vm) && gp.gas <= MAX_UINT64
      modifies this, gp, state
      ensures r.Err? <==> Failure(msg, vm, homestead, old(state.world), old(gp.gas)).Some?
      ensures r.Err? ==> Some(r.error) == Failure(msg, vm, homestead, old(state.world), old(gp.gas))
      ensures r.Ok? ==>
                && Cost() <= msg.gas <= old(gp.gas)
                && r.value.usedGas <= msg.gas && Cost() <= 2 * r.value.usedGas
                && state.world == Repaid(msg, vm, homestead, old(state.world), r.value.usedGas)
                && var out := ExecutionOf(msg, vm, homestead, old(state.world));
                   && r.value.failed == (out.err != NoError)
                   && r.value.usedGas == AfterRefund(msg.gas - out.gasLeft, out.world.refund)
      ensures r.Ok? ==> gp.gas + r.value.usedGas == old(gp.gas)
      ensures r.Ok? ==> r.value.usedMoney == r.value.usedGas * msg.price
      ensures r.Ok? ==> state.world.Wealth() + r.value.usedMoney == old(state.world).Wealth()
    {
      hide IntrinsicCost, Sum, World.Credit, AfterRefund, Refusal, VmContract;
      RefusalSplits(state.world, gp.gas, msg, Cost());
      state.world.CreditWealth(msg.from, -(msg.gas * msg.price));
      var pre := PreCheck();
      if pre.Err? {
        return Err(pre.error);
      }
      var intrinsic := IntrinsicGas(msg.data, msg.creation, homestead);
      if intrinsic.None? {
        return Err(OutOfGas);
      }
      var ok := UseGas(intrinsic.value);
      if !ok {
        return Err(OutOfGas);
      }
      if !msg.creation {
        state.world := state.world.Bump(msg.from);
      }
      VmKeeps(vm, state.world, gas);
      var out := vm(state.world, gas);
      state.world, gas := out.world, out.gasLeft;
      if out.err == InsufficientBalance {
        return Err(InsufficientFunds);
      }
      RefundGas();
      PriceSplits(msg.gas, initialGas - gas, msg.price);
      return Ok(Applied(initialGas - gas, (initialGas - gas) * msg.price, out.err != NoError));
    }

    /** The older form pays the fee to the coinbase, so the total of all balances is unchanged. */
    method TransitionDb(coinbase: Address) returns (r: Result<Applied, TxError>)
      requires gas == 0 && VmContract(vm) && gp.gas <= MAX_UINT64
      modifies this, gp, state
      ensures r.Err? <==> Failure(msg, vm, homestead, old(state.world), old(gp.gas)).Some?
      ensures r.Err? ==> Some(r.error) == Failure(msg, vm, homestead, old(state.world), old(gp.gas))
      ensures r.Ok? ==> r.value.usedGas <= msg.gas && gp.gas + r.value.usedGas == old(gp.gas)
      ensures r.Ok? ==> Cost() <= msg.gas
      ensures r.Ok? ==> state.world == Repaid(msg, vm, homestead, old(state.world), r.value.usedGas)
                                       .Credit(coinbase, r.value.usedGas * msg.price)
      ensures r.Ok? ==> state.world.Wealth() == old(state.world).Wealth()
    {
      hide IntrinsicCost, Sum, Refusal, AfterRefund, Failure, Repaid, World.Credit;
      r := TransitionDbEx();
      if r.Ok? {
        state.AddBalance(coinbase, r.value.usedMoney);
      }
    }
  }

  // ---- One transaction ----

  datatype ChainFunction = ChainFunction(requiredGas: nat, inMainChain: bool, inSideChain: bool)

  /**
   A transaction to the virtual machine, or to the chain contract: the function its data names,
   if any, and the callback registered for it, if any.
   */
  datatype Transaction =
    | ToVm(msg: Message, vm: Vm)
    | ToContract(msg: Message, target: Option<ChainFunction>, callback: Option<Callback>)

  ghost predicate TxContract(tx: Transaction) {
    match tx
    case ToVm(_, vm) => VmContract(vm)
    case ToContract(_, _, callback) => callback.Some? ==> CallbackContract(callback.value)
  }

  /** Where in the chain a receipt or a log belongs; hashes are opaque numbers. */
  datatype Place = Place(txHash: nat, blockHash: nat, blockNumber: nat, txIndex: nat)

  datatype Log = Log(index: nat, place: Place)

  /** `contract` is the address of a contract that the transaction creates. */
  datatype Receipt = Receipt(cumulativeGasUsed: nat, gasUsed: nat, failed: bool, place: Place,
                             contract: Option<Address>, logs: seq<Log>)

  /** The address of a contract, from its creator and the creator's nonce. */
  type Creator = (Address, nat) -> Address

  datatype Config = Config(mainChain: bool, homestead: bool, createAddress: Creator)

  /** A chain-contract transaction refused before anything changes, in the order the checks are made. */
  ghost function ContractRefusal(mainChain: bool, tx: Transaction, w: World, pool: nat): Option<TxError>
    requires tx.ToContract?
  {
    if tx.target.None? then Some(UnknownFunction)
    else if mainChain && !tx.target.value.inMainChain then Some(NotAllowedInMainChain)
    else if !mainChain && !tx.target.value.inSideChain then Some(NotAllowedInSideChain)
    else Refusal(w, pool, tx.msg, 0)
  }

  /** The state after the callback, run once the whole gas limit is paid; none if it fails. */
  ghost function Called(tx: Transaction, w: World): Option<World>
    requires tx.ToContract?
  {
    var paid := w.Credit(tx.msg.from, -(tx.msg.gas * tx.msg.price));
    if tx.callback.None? then Some(paid) else tx.callback.value(paid)
  }

  /** Why a chain-contract transaction is not applied. */
  ghost function ContractFailure(mainChain: bool, tx: Transaction, w: World, pool: nat): Option<TxError>
    requires tx.ToContract?
  {
    var refusal := ContractRefusal(mainChain, tx, w, pool);
    if refusal.Some? then refusal
    else if tx.target.Some? && tx.msg.gas < tx.target.value.requiredGas then Some(OutOfGas)
    else if w.BalanceOf(tx.msg.from) - tx.msg.gas * tx.msg.price < tx.msg.value then Some(InsufficientFunds)
    else if Called(tx, w).None? then Some(CallbackFailed)
    else None
  }

  /** Why a transaction is not applied, if it is not. */
  ghost function FailureOf(config: Config, tx: Transaction, w: World, pool: nat): Option<TxError> {
    match tx
    case ToVm(msg, vm) => Failure(msg, vm, config.homestead, w, pool)
    case ToContract(_, _, _) => ContractFailure(config.mainChain, tx, w, pool)
  }

  /** The balances of w with something more on one account. */
  ghost predicate Differs(w': World, w: World, a: Address, amount: int) {
    forall b :: w'.BalanceOf(b) == w.BalanceOf(b) + if b == a then amount else 0
  }

  lemma CreditDiffers(w: World, a: Address, amount: int)
    ensures Differs(w.Credit(a, amount), w, a, amount)
  {
  }

  lemma SameNonces(w: World, a: Address, amount: int)
    ensures w.Credit(a, amount).nonces == w.nonces
  {
  }

  lemma CallbackKeeps(cb: Callback, w: World)
    requires CallbackContract(cb) && cb(w).Some?
    ensures cb(w).value.Wealth() == w.Wealth()
  {
  }

  lemma VmKeeps(vm: Vm, w: World, gas: nat)
    requires VmContract(vm)
    ensures vm(w, gas).gasLeft <= gas && vm(w, gas).world.Wealth() == w.Wealth()
  {
  }

  /** Refund counter and nonces are no part of the balances. */
  lemma DiffersStill(w': World, w: World, a: Address, amount: int)
    requires Differs(w', w, a, amount)
    ensures Differs(w'.(refund := 0), w, a, amount) && Differs(w'.(refund := 0).Bump(a), w, a, amount)
  {
  }

  /**
   What a transaction does: the state is the machine's or the callback's, but for the price of the
   unused gas, which goes back to the sender, and the receipt tells of the execution.
   */
  ghost predicate Effect(config: Config, tx: Transaction, w: World, w': World, receipt: Receipt) {
    var msg := tx.msg;
    && w'.refund == 0
    && match tx
       case ToVm(_, vm) =>
         && CostOf(msg, config.homestead) <= msg.gas
         && var out := ExecutionOf(msg, vm, config.homestead, w);
            && out.gasLeft <= msg.gas
            && receipt.gasUsed == AfterRefund(msg.gas - out.gasLeft, out.world.refund)
            && receipt.failed == (out.err != NoError)
            && receipt.contract == (if msg.creation then Some(config.createAddress(msg.from, msg.nonce)) else None)
            && Differs(w', out.world, msg.from, (msg.gas - receipt.gasUsed) * msg.price)
            && w'.nonces == out.world.nonces
       case ToContract(_, target, _) =>
         && target.Some? && receipt.gasUsed == target.value.requiredGas && !receipt.failed && receipt.contract.None?
         && Called(tx, w).Some?
         && Differs(w', Called(tx, w).value, msg.from, (msg.gas - receipt.gasUsed) * msg.price)
         && w'.nonces == Called(tx, w).value.Bump(msg.from).nonces
  }

  /** A chain function without a callback costs its sender the required gas and the nonce, and nobody else anything. */
  lemma NoCallbackCosts(config: Config, tx: Transaction, w: World, w': World, receipt: Receipt)
    requires Effect(config, tx, w, w', receipt) && tx.ToContract? && tx.callback.None?
    ensures Differs(w', w, tx.msg.from, -(tx.target.value.requiredGas * tx.msg.price))
    ensures forall a :: w'.NonceOf(a) == w.NonceOf(a) + if a == tx.msg.from then 1 else 0
  {
    var msg := tx.msg;
    CreditDiffers(w, msg.from, -(msg.gas * msg.price));
    PriceRepaid(msg.gas, receipt.gasUsed, msg.price);
  }

  lemma PriceRepaid(total: int, used: int, price: int)
    ensures total * price - (total - used) * price == used * price
  {
    assert (total - used) * price == total * price - used * price;
  }

  /** The machine leaves the state as it is, uses no gas and gives no refund. */
  ghost predicate Inert(vm: Vm) {
    forall w: World, g: nat :: vm(w, g) == VmOutcome(w.(refund := 0), g, NoError)
  }

  /** A message on which the machine does nothing costs its sender exactly the intrinsic gas, and takes the nonce. */
  lemma InertCosts(config: Config, tx: Transaction, w: World, w': World, receipt: Receipt, a: Address)
    requires Effect(config, tx, w, w', receipt) && tx.ToVm? && Inert(tx.vm)
    ensures receipt.gasUsed == (if tx.msg.creation && config.homestead then 53000 else 21000) + ByteCost(tx.msg.data)
    ensures w'.BalanceOf(a) == w.BalanceOf(a) - if a == tx.msg.from then receipt.gasUsed * tx.msg.price else 0
    ensures w'.NonceOf(a) == w.NonceOf(a) + if a == tx.msg.from && !tx.msg.creation then 1 else 0
  {
    hide IntrinsicCost, Inert;
    var msg := tx.msg;
    CostIsSum(msg.data, msg.creation, config.homestead);
    InertRuns(tx.vm, Charged(w, msg), msg.gas - CostOf(msg, config.homestead));
    assert receipt.gasUsed == CostOf(msg, config.homestead);
    ChargedCosts(w, msg, a);
    PriceRepaid(msg.gas, receipt.gasUsed, msg.price);
  }

  lemma InertRuns(vm: Vm, w: World, gas: nat)
    requires Inert(vm)
    ensures vm(w, gas) == VmOutcome(w.(refund := 0), gas, NoError)
  {
  }

  lemma ChargedCosts(w: World, msg: Message, a: Address)
    ensures Charged(w, msg).BalanceOf(a) == w.BalanceOf(a) - if a == msg.from then msg.gas * msg.price else 0
    ensures Charged(w, msg).NonceOf(a) == w.NonceOf(a) + if a == msg.from && !msg.creation then 1 else 0
  {
  }

  /** The running totals that a block's transactions share. */
  class BlockContext {
    const config: Config
    const gp: GasPool
    const state: StateDB
    var usedGas: nat
    var totalUsedMoney: int

    constructor (config: Config, gasLimit: nat, state: StateDB)
      requires gasLimit <= MAX_UINT64
      ensures this.config == config && this.state == state && fresh(gp)
      ensures gp.gas == gasLimit && usedGas == 0 && totalUsedMoney == 0
    {
      this.config, this.state := config, state;
      gp := new GasPool(gasLimit);
      usedGas, totalUsedMoney := 0, 0;
    }

    ghost predicate Valid()
      reads this, gp
    {
      usedGas + gp.gas <= MAX_UINT64
    }

    /** What applying a transaction owes the block: its gas and its fee, each counted once. */
    twostate predicate Settles(tx: Transaction, receipt: Receipt)
      reads this, gp, state
    {
      && receipt.gasUsed <= tx.msg.gas
      && gp.gas + receipt.gasUsed == old(gp.gas)
      && usedGas == old(usedGas) + receipt.gasUsed == receipt.cumulativeGasUsed
      && totalUsedMoney == old(totalUsedMoney) + receipt.gasUsed * tx.msg.price
      && state.world.Wealth() + receipt.gasUsed * tx.msg.price == old(state.world).Wealth()
    }

    method ApplyToVm(tx: Transaction, place: Place, logs: seq<Log>) returns (r: Result<Receipt, TxError>)
      requires Valid() && tx.ToVm? && TxContract(tx)
      modifies this, gp, state
      ensures r.Ok? ==> Valid() && Settles(tx, r.value)
      ensures r.Ok? ==> r.value.logs == logs && r.value.place == place
      ensures r.Err? <==> Failure(tx.msg, tx.vm, config.homestead, old(state.world), old(gp.gas)).Some?
      ensures r.Err? ==> Some(r.error) == Failure(tx.msg, tx.vm, config.homestead, old(state.world), old(gp.gas))
      ensures r.Ok? ==> Effect(config, tx, old(state.world), state.world, r.value)
    {
      hide Sum, Refusal, IntrinsicCost, AfterRefund, Failure, World.Credit, Differs, VmContract;
      var st := new StateTransition(gp, state, tx.msg, tx.vm, config.homestead);
      var applied := st.TransitionDbEx();
      if applied.Err? {
        return Err(applied.error);
      }
      ghost var out := ExecutionOf(tx.msg, tx.vm, config.homestead, old(state.world));
      VmKeeps(tx.vm, Charged(old(state.world), tx.msg), tx.msg.gas - CostOf(tx.msg, config.homestead));
      CreditDiffers(out.world, tx.msg.from, (tx.msg.gas - applied.value.usedGas) * tx.msg.price);
      SameNonces(out.world, tx.msg.from, (tx.msg.gas - applied.value.usedGas) * tx.msg.price);
      DiffersStill(state.world, out.world, tx.msg.from, (tx.msg.gas - applied.value.usedGas) * tx.msg.price);
      state.world := state.world.(refund := 0);
      usedGas := usedGas + applied.value.usedGas;
      totalUsedMoney := totalUsedMoney + applied.value.usedMoney;
      var contract := if tx.msg.creation then Some(config.createAddress(tx.msg.from, tx.msg.nonce)) else None;
      return Ok(Receipt(usedGas, applied.value.usedGas, applied.value.failed, place, contract, logs));
    }

    /** The checks before a chain function runs, and the payment of its whole gas limit. */
    method Prepay(tx: Transaction) returns (r: Result<(), TxError>)
      requires tx.ToContract?
      modifies gp, state
      ensures r == match ContractRefusal(config.mainChain, tx, old(state.world), old(gp.gas)) {
                     case Some(e) => Err(e)
                     case None => Ok(())
                   }
      ensures r.Ok? ==> tx.target.Some? && gp.gas + tx.msg.gas == old(gp.gas)
      ensures r.Ok? ==> state.world == old(state.world).Credit(tx.msg.from, -(tx.msg.gas * tx.msg.price))
      ensures r.Ok? ==> state.world.BalanceOf(tx.msg.from)
                        == old(state.world).BalanceOf(tx.msg.from) - tx.msg.gas * tx.msg.price
      ensures r.Err? ==> state.world == old(state.world) && gp.gas == old(gp.gas)
    {
      hide Sum;
      var msg := tx.msg;
      if tx.target.None? {
        return Err(UnknownFunction);
      }
      if config.mainChain && !tx.target.value.inMainChain {
        return Err(NotAllowedInMainChain);
      } else if !config.mainChain && !tx.target.value.inSideChain {
        return Err(NotAllowedInSideChain);
      }
      if msg.checkNonce {
        var nonce := state.world.NonceOf(msg.from);
        if nonce < msg.nonce {
          return Err(NonceTooHigh);
        } else if nonce > msg.nonce {
          return Err(NonceTooLow);
        }
      }
      var gasValue := msg.gas * msg.price;
      if state.world.BalanceOf(msg.from) < gasValue {
        return Err(InsufficientBalanceForGas);
      }
      var ok := gp.SubGas(msg.gas);
      if !ok {
        return Err(GasLimitReached);
      }
      state.AddBalance(msg.from, -gasValue);
      return Ok(());
    }

    method ApplyToContract(tx: Transaction, place: Place, logs: seq<Log>) returns (r: Result<Receipt, TxError>)
      requires Valid() && tx.ToContract? && TxContract(tx)
      modifies this, gp, state
      ensures r.Ok? ==> Valid() && Settles(tx, r.value)
      ensures r.Ok? ==> r.value.logs == logs && r.value.place == place
      ensures r.Err? <==> ContractFailure(config.mainChain, tx, old(state.world), old(gp.gas)).Some?
      ensures r.Err? ==> Some(r.error) == ContractFailure(config.mainChain, tx, old(state.world), old(gp.gas))
      ensures r.Ok? ==> Effect(config, tx, old(state.world), state.world, r.value)
      ensures r.Ok? && tx.callback.None? ==>
                && tx.target.Some?
                && Differs(state.world, old(state.world), tx.msg.from, -(tx.target.value.requiredGas * tx.msg.price))
      ensures ContractRefusal(config.mainChain, tx, old(state.world), old(gp.gas)).Some? ==>
                state.world == old(state.world) && gp.gas == old(gp.gas)
    {
      hide Sum, Refusal, Differs, ContractRefusal, World.Credit, World.BalanceOf, CallbackContract;
      state.world.CreditWealth(tx.msg.from, -(tx.msg.gas * tx.msg.price));
      var prepaid := Prepay(tx);
      if prepaid.Err? {
        return Err(prepaid.error);
      }
      var msg := tx.msg;
      var gas := tx.target.value.requiredGas;
      if msg.gas < gas {
        return Err(OutOfGas);
      }
      if state.world.BalanceOf(msg.from) < msg.value {
        return Err(InsufficientFunds);
      }
      if tx.callback.Some? {
        var cb := tx.callback.value;
        var after := cb(state.world);
        if after.None? {
          return Err(CallbackFailed);
        }
        CallbackKeeps(cb, state.world);
        state.world := after.value;
      }
      PriceSplits(msg.gas, gas, msg.price);
      ghost var called := state.world;
      CreditDiffers(called, msg.from, (msg.gas - gas) * msg.price);
      SameNonces(called, msg.from, (msg.gas - gas) * msg.price);
      state.AddBalance(msg.from, (msg.gas - gas) * msg.price);
      gp.AddGas(msg.gas - gas);
      usedGas := usedGas + gas;
      totalUsedMoney := totalUsedMoney + gas * msg.price;
      DiffersStill(state.world, called, msg.from, (msg.gas - gas) * msg.price);
      state.world := state.world.(refund := 0).Bump(msg.from);
      r := Ok(Receipt(usedGas, gas, false, place, None, logs));
      if tx.callback.None? {
        NoCallbackCosts(config, tx, old(state.world), state.world, r.value);
      }
    }

    method ApplyTransactionEx(tx: Transaction, place: Place, logs: seq<Log>) returns (r: Result<Receipt, TxError>)
      requires Valid() && TxContract(tx)
      modifies this, gp, state
      ensures r.Ok? ==> Valid() && Settles(tx, r.value)
      ensures r.Ok? ==> r.value.logs == logs && r.value.place == place
      ensures r.Err? <==> FailureOf(config, tx, old(state.world), old(gp.gas)).Some?
      ensures r.Err? ==> Some(r.error) == FailureOf(config, tx, old(state.world), old(gp.gas))
      ensures r.Ok? ==> Effect(config, tx, old(state.world), state.world, r.value)
    {
      hide Sum, ContractFailure, Failure, Effect;
      match tx
      case ToVm(_, _) =>
        r := ApplyToVm(tx, place, logs);
      case ToContract(_, _, _) =>
        r := ApplyToContract(tx, place, logs);
    }
  }

  // ---- A block ----

  /** Gas used by the first n receipts. */
  ghost function GasOf(receipts: seq<Receipt>): nat {
    if receipts == [] then 0 else GasOf(receipts[..|receipts| - 1]) + receipts[|receipts| - 1].gasUsed
  }

  /** What the senders of the block's transactions pay for gas. */
  ghost function FeesOf(txs: seq<Transaction>, receipts: seq<Receipt>): int
    requires |txs| == |receipts|
  {
    if txs == [] then 0
    else
      var n := |txs| - 1;
      FeesOf(txs[..n], receipts[..n]) + receipts[n].gasUsed * txs[n].msg.price
  }

  /** Every receipt's cumulative gas is the gas of all the receipts up to it. */
  ghost predicate Cumulative(receipts: seq<Receipt>) {
    forall i :: 0 <= i < |receipts| ==> receipts[i].cumulativeGasUsed == GasOf(receipts[..i + 1])
  }

  lemma CumulativeSnoc(receipts: seq<Receipt>, r: Receipt)
    requires Cumulative(receipts) && r.cumulativeGasUsed == GasOf(receipts) + r.gasUsed
    ensures Cumulative(receipts + [r]) && GasOf(receipts + [r]) == r.cumulativeGasUsed
  {
    var all := receipts + [r];
    assert all[..|receipts|] == receipts;
    forall i | 0 <= i < |all|
      ensures all[i].cumulativeGasUsed == GasOf(all[..i + 1])
    {
      if i < |receipts| {
        assert all[..i + 1] == receipts[..i + 1];
      } else {
        assert all[..i + 1] == all;
      }
    }
  }

  lemma FeesSnoc(txs: seq<Transaction>, i: nat, receipts: seq<Receipt>, r: Receipt)
    requires i < |txs| && |receipts| == i
    ensures FeesOf(txs[..i + 1], receipts + [r]) == FeesOf(txs[..i], receipts) + r.gasUsed * txs[i].msg.price
  {
    assert txs[..i + 1][..i] == txs[..i] && (receipts + [r])[..i] == receipts;
  }

  datatype Processed = Processed(receipts: seq<Receipt>, usedGas: nat, usedMoney: int)

  /** The states between the transactions applied so far, each the effect of one, with its receipt as it should be. */
  ghost predicate Applies(config: Config, gasLimit: nat, txs: seq<Transaction>, places: seq<Place>,
                          logs: seq<seq<Log>>, worlds: seq<World>, receipts: seq<Receipt>)
    requires |logs| == |places| == |txs|
  {
    && |worlds| == |receipts| + 1 <= |txs| + 1
    && forall i :: 0 <= i < |receipts| ==>
         AppliedAt(config, gasLimit - GasOf(receipts[..i]), txs[i], places[i], logs[i], worlds[i], worlds[i + 1],
                   receipts[i])
  }

  /** One transaction of a block, with so much of the block's gas left. */
  ghost predicate AppliedAt(config: Config, gasLeft: int, tx: Transaction, place: Place, logs: seq<Log>, w: World,
                            w': World, receipt: Receipt)
  {
    && gasLeft >= 0 && FailureOf(config, tx, w, gasLeft).None? && Effect(config, tx, w, w', receipt)
    && receipt.place == place && receipt.logs == logs
  }

  lemma AppliesSnoc(config: Config, gasLimit: nat, txs: seq<Transaction>, places: seq<Place>, logs: seq<seq<Log>>,
                    worlds: seq<World>, receipts: seq<Receipt>, w: World, r: Receipt)
    requires |logs| == |places| == |txs| && |receipts| < |txs|
    requires Applies(config, gasLimit, txs, places, logs, worlds, receipts)
    requires AppliedAt(config, gasLimit - GasOf(receipts), txs[|receipts|], places[|receipts|], logs[|receipts|],
                       worlds[|receipts|], w, r)
    ensures Applies(config, gasLimit, txs, places, logs, worlds + [w], receipts + [r])
  {
    hide GasOf, AppliedAt;
    var n, all, trace := |receipts|, receipts + [r], worlds + [w];
    forall i | 0 <= i < |all|
      ensures AppliedAt(config, gasLimit - GasOf(all[..i]), txs[i], places[i], logs[i], trace[i], trace[i + 1], all[i])
    {
      assert all[..i] == receipts[..i] && receipts[..n] == receipts;
    }
  }

  /**
   A block's transactions, applied in order. The block is accepted exactly if none fails on the
   state and the gas the earlier ones left; each state is the effect of its transaction. Gas used
   and gas left make up the limit, so neither counter leaves 64 bits, and no money appears or
   vanishes besides the fees counted.
   */
  method Process(config: Config, gasLimit: nat, state: StateDB, txs: seq<Transaction>, places: seq<Place>,
                 logs: seq<seq<Log>>)
    returns (r: Result<Processed, TxError>, gasLeft: nat, ghost worlds: seq<World>, ghost done: seq<Receipt>)
    requires gasLimit <= MAX_UINT64 && |logs| == |places| == |txs|
    requires forall i :: 0 <= i < |txs| ==> TxContract(txs[i])
    modifies state
    ensures Applies(config, gasLimit, txs, places, logs, worlds, done) && worlds[0] == old(state.world)
    ensures if r.Ok? then |done| == |txs| && r.value.receipts == done && state.world == worlds[|txs|]
            else |done| < |txs| && GasOf(done) <= gasLimit
                 && Some(r.error) == FailureOf(config, txs[|done|], worlds[|done|], gasLimit - GasOf(done))
    ensures r.Ok? ==> |r.value.receipts| == |txs| && Cumulative(r.value.receipts)
    ensures r.Ok? ==> forall i :: 0 <= i < |txs| ==> r.value.receipts[i].gasUsed <= txs[i].msg.gas
    ensures r.Ok? ==> r.value.usedGas == GasOf(r.value.receipts) && r.value.usedGas + gasLeft == gasLimit
    ensures r.Ok? ==> r.value.usedMoney == FeesOf(txs, r.value.receipts)
    ensures r.Ok? ==> state.world.Wealth() + r.value.usedMoney == old(state.world).Wealth()
  {
    hide Sum, GasOf, FeesOf, Cumulative, TxContract, Applies, FailureOf, Effect;
    var block := new BlockContext(config, gasLimit, state);
    var receipts: seq<Receipt> := [];
    gasLeft, worlds, done := gasLimit, [state.world], [];
    BlockStart();
    NothingApplied(config, gasLimit, txs, places, logs, state.world);
    for i := 0 to |txs|
      invariant block.state == state && block.config == config && block.Valid()
      invariant |receipts| == i && Cumulative(receipts)
      invariant |worlds| == i + 1 && worlds[0] == old(state.world) && worlds[i] == state.world && done == receipts
      invariant Applies(config, gasLimit, txs, places, logs, worlds, receipts)
      invariant block.usedGas == GasOf(receipts) && block.usedGas + block.gp.gas == gasLimit
      invariant forall j :: 0 <= j < i ==> receipts[j].gasUsed <= txs[j].msg.gas
      invariant block.totalUsedMoney == FeesOf(txs[..i], receipts)
      invariant state.world.Wealth() + block.totalUsedMoney == old(state.world).Wealth()
    {
      var applied := block.ApplyTransactionEx(txs[i], places[i], logs[i]);
      if applied.Err? {
        return Err(applied.error), block.gp.gas, worlds, done;
      }
      CumulativeSnoc(receipts, applied.value);
      FeesSnoc(txs, i, receipts, applied.value);
      AppliesSnoc(config, gasLimit, txs, places, logs, worlds, receipts, state.world, applied.value);
      receipts := receipts + [applied.value];
      worlds, done := worlds + [state.world], receipts;
    }
    assert txs[..|txs|] == txs;
    return Ok(Processed(receipts, block.usedGas, block.totalUsedMoney)), block.gp.gas, worlds, done;
  }

  lemma NothingApplied(config: Config, gasLimit: nat, txs: seq<Transaction>, places: seq<Place>, logs: seq<seq<Log>>,
                       w: World)
    requires |logs| == |places| == |txs|
    ensures Applies(config, gasLimit, txs, places, logs, [w], [])
  {
  }

  lemma BlockStart()
    ensures GasOf([]) == 0 && Cumulative([]) && FeesOf([], []) == 0
  {
  }

  // ---- Deriving receipt fields ----

  /** Subtraction of unsigned 64-bit numbers. */
  function Minus64(a: nat, b: nat): nat {
    (a - b) % (MAX_UINT64 + 1)
  }

  lemma Minus64Exact(a: nat, b: nat)
    requires b <= a <= MAX_UINT64
    ensures Minus64(a, b) == a - b
  {
  }

  /** The gas of receipt j, read off the cumulative counts. */
  function GasBetween(receipts: seq<Receipt>, j: nat): nat
    requires j < |receipts|
  {
    if j == 0 then receipts[0].cumulativeGasUsed
    else Minus64(receipts[j].cumulativeGasUsed, receipts[j - 1].cumulativeGasUsed)
  }

  /** Logs of the first j receipts. */
  ghost function LogsBefore(receipts: seq<Receipt>, j: nat): nat
    requires j <= |receipts|
  {
    if j == 0 then 0 else LogsBefore(receipts, j - 1) + |receipts[j - 1].logs|
  }

  /** What a block knows of one of its transactions. */
  datatype BlockTx = BlockTx(hash: nat, creates: bool, from: Address, nonce: nat)

  datatype BlockInfo = BlockInfo(hash: nat, number: nat, txs: seq<BlockTx>)

  function PlaceOf(block: BlockInfo, j: nat): Place
    requires j < |block.txs|
  {
    Place(block.txs[j].hash, block.hash, block.number, j)
  }

  /**
   Receipt j with its fields derived: its place, its gas, its contract, and its logs numbered on from
   the earlier ones.
   */
  ghost predicate Derived(block: BlockInfo, create: Creator, before: seq<Receipt>, j: nat, r: Receipt)
    requires j < |before| == |block.txs|
  {
    && r.cumulativeGasUsed == before[j].cumulativeGasUsed && r.failed == before[j].failed
    && r.gasUsed == GasBetween(before, j) && r.place == PlaceOf(block, j)
    && r.contract == (if block.txs[j].creates then Some(create(block.txs[j].from, block.txs[j].nonce))
          else before[j].contract)
    && Numbered(r.logs, before[j].logs, LogsBefore(before, j), r.place)
  }

  ghost predicate Numbered(logs: seq<Log>, before: seq<Log>, first: nat, place: Place) {
    |logs| == |before| && forall k :: 0 <= k < |logs| ==> logs[k] == Log(first + k, place)
  }

  lemma DerivedOne(block: BlockInfo, create: Creator, before: seq<Receipt>, j: nat, gas: nat,
                   contract: Option<Address>, logs: seq<Log>)
    requires j < |before| == |block.txs| && gas == GasBetween(before, j)
    requires Numbered(logs, before[j].logs, LogsBefore(before, j), PlaceOf(block, j))
    requires contract == if block.txs[j].creates then Some(create(block.txs[j].from, block.txs[j].nonce))
               else before[j].contract
    ensures Derived(block, create, before, j,
                    before[j].(place := PlaceOf(block, j), contract := contract, gasUsed := gas, logs := logs))
  {
  }

  method NumberLogs(before: seq<Log>, first: nat, place: Place) returns (logs: seq<Log>, next: nat)
    ensures Numbered(logs, before, first, place) && next == first + |before|
  {
    logs, next := before, first;
    for k := 0 to |before|
      invariant |logs| == |before| && next == first + k
      invariant forall i :: 0 <= i < k ==> logs[i] == Log(first + i, place)
    {
      logs := logs[k := Log(next, place)];
      next := next + 1;
    }
  }

  method SetReceiptsData(block: BlockInfo, create: Creator, receipts: array<Receipt>) returns (ok: bool)
    modifies receipts
    ensures ok <==> |block.txs| == receipts.Length
    ensures ok ==> forall j :: 0 <= j < receipts.Length ==> Derived(block, create, old(receipts[..]), j, receipts[j])
    ensures !ok ==> receipts[..] == old(receipts[..])
  {
    hide Numbered, Minus64, Derived;
    if |block.txs| != receipts.Length {
      return false;
    }
    ghost var before := receipts[..];
    var logIndex: nat := 0;
    for j := 0 to receipts.Length
      invariant logIndex == LogsBefore(before, j)
      invariant forall i :: 0 <= i < j ==> Derived(block, create, before, i, receipts[i])
      invariant forall i :: j <= i < receipts.Length ==> receipts[i] == before[i]
      invariant forall i :: 0 <= i < j ==> receipts[i].cumulativeGasUsed == before[i].cumulativeGasUsed
    {
      var tx := block.txs[j];
      var contract := if tx.creates then Some(create(tx.from, tx.nonce)) else receipts[j].contract;
      var gas := receipts[j].cumulativeGasUsed;
      if j > 0 {
        gas := Minus64(receipts[j].cumulativeGasUsed, receipts[j - 1].cumulativeGasUsed);
      }
      var logs;
      logs, logIndex := NumberLogs(receipts[j].logs, logIndex, PlaceOf(block, j));
      DerivedOne(block, create, before, j, gas, contract, logs);
      receipts[j] := receipts[j].(place := PlaceOf(block, j), contract := contract, gasUsed := gas, logs := logs);
    }
    return true;
  }

  lemma {:induction false} GasGrows(receipts: seq<Receipt>, n: nat)
    requires n <= |receipts|
    ensures GasOf(receipts[..n]) <= GasOf(receipts)
  {
    if n < |receipts| {
      var m := |receipts| - 1;
      GasGrows(receipts[..m], n);
      assert receipts[..m][..n] == receipts[..n];
    } else {
      assert receipts[..n] == receipts;
    }
  }

  /** Of receipts as a block leaves them, the cumulative counts alone give back every gas used. */
  lemma GasRecovered(receipts: seq<Receipt>, stored: seq<Receipt>, j: nat)
    requires Cumulative(receipts) && GasOf(receipts) <= MAX_UINT64 && j < |receipts| == |stored|
    requires forall i :: 0 <= i < |stored| ==> stored[i].cumulativeGasUsed == receipts[i].cumulativeGasUsed
    ensures GasBetween(stored, j) == receipts[j].gasUsed
  {
    hide Minus64;
    assert receipts[..j + 1][..j] == receipts[..j];
    GasGrows(receipts, j + 1);
    if j == 0 {
      assert receipts[..0] == [];
    } else {
      assert receipts[j - 1].cumulativeGasUsed == GasOf(receipts[..j]);
      Minus64Exact(receipts[j].cumulativeGasUsed, receipts[j - 1].cumulativeGasUsed);
    }
  }

  /** After derivation the logs of a block are numbered without gap or repeat. */
  lemma {:induction false} LogNumber(block: BlockInfo, create: Creator, before: seq<Receipt>, derived: seq<Receipt>,
                                     number: nat)
    returns (j: nat, k: nat)
    requires |derived| == |before| == |block.txs| && number < LogsBefore(before, |before|)
    requires forall i :: 0 <= i < |before| ==> Derived(block, create, before, i, derived[i])
    ensures j < |derived| && k < |derived[j].logs| && derived[j].logs[k] == Log(number, PlaceOf(block, j))
  {
    j := 0;
    while number >= LogsBefore(before, j + 1)
      invariant j < |before| && LogsBefore(before, j) <= number
      decreases |before| - j
    {
      j := j + 1;
    }
    k := number - LogsBefore(before, j);
    assert Derived(block, create, before, j, derived[j]);
  }
}

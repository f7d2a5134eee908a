/**
 * The Ethereum-side submission of a bridge transfer in the swap frontend,
 * `useHandleEthSubmit` (frontend/src/features/swap/hooks/eth/use-handle-eth-submit.ts).
 *
 * Submitting plans the work (mint wrapped ETH first? approve the bridge
 * contract first?), estimates its cost, checks the account can pay, sends
 * mint?, approve? and the transfer strictly in that order, then waits for
 * the first `FeePaid` event of the bridging-payment contract.
 *
 * Amounts are JavaScript `bigint`s: unbounded integers. The wallet, the
 * chain and the event subscription are parameters: an estimate or a
 * transaction either resolves or rejects, and the first event either
 * arrives or never does.
 */
module EthSubmit {
  import opened Wrappers

  /** `TRANSFER_GAS_LIMIT_FALLBACK`: 21000 gas times 10. */
  const TransferGasLimitFallback: int := 21000 * 10

  /** The hook's arguments; `undefined` is None. */
  datatype HookInputs = HookInputs(
    ftAddress: Option<string>,
    fee: Option<int>,
    allowance: Option<int>,
    ftBalance: Option<int>,
    accountBalance: Option<int>)

  /** The calls that can reject. */
  datatype Call = MintGasEstimate | ApproveGasEstimate | TransferGasEstimate | FeesEstimate | MintTx | ApproveTx | TransferTx

  /**
   * The environment: the wrapped-ETH contract address and the answers of
   * the wallet and chain. An estimate is None when its promise rejects;
   * `accepts` says whether a sent transaction resolves.
   */
  datatype Env = Env(
    wrappedEthAddress: string,
    mintGasLimit: int -> Option<int>,      // mint.getGasLimit(valueToMint)
    approveGasLimit: int -> Option<int>,   // approve.getGasLimit(amount)
    transferGasLimit: int -> Option<int>,  // estimateGas of `requestBridging(ftAddress, amount, account)`
    maxFeePerGas: Option<int>,             // estimateFeesPerGas
    accepts: Call -> bool)

  datatype SubmitError =
    | FtAddressNotDefined        // 'Fungible token address is not defined'
    | FeeNotDefined              // 'Fee is not defined'
    | AllowanceNotDefined        // 'Allowance is not defined'
    | FtBalanceNotFound          // 'FT balance is not found'
    | AccountBalanceNotDefined   // 'Account balance is not defined'
    | InsufficientAccountBalance(symbol: string, required: int)
    | Rejected(call: Call)
    | FeePaidWatchFailed

  /** What `validateBalance` returns, with the fee per gas it estimated. */
  datatype Plan = Plan(
    valueToMint: int,
    isMintRequired: bool,
    isApproveRequired: bool,
    mintGasLimit: int,
    approveGasLimit: int,
    transferGasLimit: Option<int>,
    maxFeePerGas: int)

  /** `!ftAddress` is false: the address is neither undefined nor empty. */
  predicate AddressSet(ftAddress: Option<string>) {
    ftAddress.Some? && ftAddress.value != []
  }

  /** Every input `validateBalance` insists on is there. */
  predicate Defined(inputs: HookInputs) {
    && AddressSet(inputs.ftAddress)
    && inputs.fee.Some? && inputs.allowance.Some? && inputs.ftBalance.Some? && inputs.accountBalance.Some?
  }

  /** `transferGasLimit || TRANSFER_GAS_LIMIT_FALLBACK`: both undefined and 0n are falsy. */
  function GasOrFallback(transferGasLimit: Option<int>): (r: int)
    ensures transferGasLimit.Some? && transferGasLimit.value != 0 ==> r == transferGasLimit.value
    ensures transferGasLimit.None? || transferGasLimit.value == 0 ==> r == TransferGasLimitFallback
  {
    if transferGasLimit.None? || transferGasLimit.value == 0 then TransferGasLimitFallback else transferGasLimit.value
  }

  /** `balanceToWithdraw`: the value to mint, all gas at the maximum fee per gas, and the bridge fee. */
  function RequiredTotal(plan: Plan, fee: int): int {
    plan.valueToMint
      + (plan.mintGasLimit + plan.approveGasLimit + GasOrFallback(plan.transferGasLimit)) * plan.maxFeePerGas
      + fee
  }

  /** A mint of wrapped ETH is needed: the token is wrapped ETH and the amount exceeds the token balance. */
  predicate MintRequired(inputs: HookInputs, env: Env, amount: int)
    requires Defined(inputs)
  {
    inputs.ftAddress.value == env.wrappedEthAddress && amount > inputs.ftBalance.value
  }

  /** The mint gas estimate is requested and rejects. */
  predicate MintEstimateFails(inputs: HookInputs, env: Env, amount: int)
    requires Defined(inputs)
  {
    MintRequired(inputs, env, amount) && env.mintGasLimit(amount - inputs.ftBalance.value).None?
  }

  /** The approve gas estimate is requested and rejects. */
  predicate ApproveEstimateFails(inputs: HookInputs, env: Env, amount: int)
    requires Defined(inputs)
  {
    amount > inputs.allowance.value && env.approveGasLimit(amount).None?
  }

  /** The transfer is simulated (no approval pending) and the simulation rejects. */
  predicate TransferEstimateFails(inputs: HookInputs, env: Env, amount: int)
    requires Defined(inputs)
  {
    amount <= inputs.allowance.value && env.transferGasLimit(amount).None?
  }

  /**
   * Lines 49-73 of `validateBalance`: the undefined checks, then the plan
   * and its gas estimates, each awaited in turn. Estimates that are not
   * needed are not requested.
   */
  function PlanCosts(inputs: HookInputs, env: Env, amount: int): (r: Result<Plan, SubmitError>)
    ensures !AddressSet(inputs.ftAddress) ==> r == Err(FtAddressNotDefined)
    ensures AddressSet(inputs.ftAddress) && inputs.fee.None? ==> r == Err(FeeNotDefined)
    ensures AddressSet(inputs.ftAddress) && inputs.fee.Some? && inputs.allowance.None? ==> r == Err(AllowanceNotDefined)
    ensures AddressSet(inputs.ftAddress) && inputs.fee.Some? && inputs.allowance.Some? && inputs.ftBalance.None? ==>
      r == Err(FtBalanceNotFound)
    ensures (AddressSet(inputs.ftAddress) && inputs.fee.Some? && inputs.allowance.Some? && inputs.ftBalance.Some?
             && inputs.accountBalance.None?) ==> r == Err(AccountBalanceNotDefined)
    ensures Defined(inputs) ==>
      && (r == Err(Rejected(MintGasEstimate)) <==> MintEstimateFails(inputs, env, amount))
      && (r == Err(Rejected(ApproveGasEstimate)) <==>
            !MintEstimateFails(inputs, env, amount) && ApproveEstimateFails(inputs, env, amount))
      && (r == Err(Rejected(TransferGasEstimate)) <==>
            !MintEstimateFails(inputs, env, amount) && !ApproveEstimateFails(inputs, env, amount)
            && TransferEstimateFails(inputs, env, amount))
      && (r == Err(Rejected(FeesEstimate)) <==>
            !MintEstimateFails(inputs, env, amount) && !ApproveEstimateFails(inputs, env, amount)
            && !TransferEstimateFails(inputs, env, amount) && env.maxFeePerGas.None?)
      && (r.Ok? || r.error.Rejected?)
    ensures r.Ok? ==> Defined(inputs)
    ensures r.Ok? ==> var p := r.value;
      && (p.isMintRequired <==> MintRequired(inputs, env, amount))
      && p.valueToMint == (if p.isMintRequired then amount - inputs.ftBalance.value else 0)
      && (p.isMintRequired ==> env.mintGasLimit(p.valueToMint) == Some(p.mintGasLimit))
      && (!p.isMintRequired ==> p.mintGasLimit == 0)
      && (p.isApproveRequired <==> amount > inputs.allowance.value)
      && (p.isApproveRequired ==> env.approveGasLimit(amount) == Some(p.approveGasLimit))
      && (!p.isApproveRequired ==> p.approveGasLimit == 0)
      && (p.isApproveRequired ==> p.transferGasLimit.None?)
      && (!p.isApproveRequired ==> p.transferGasLimit == env.transferGasLimit(amount) && p.transferGasLimit.Some?)
      && env.maxFeePerGas == Some(p.maxFeePerGas)
  {
    if !AddressSet(inputs.ftAddress) then Err(FtAddressNotDefined)
    else if inputs.fee.None? then Err(FeeNotDefined)
    else if inputs.allowance.None? then Err(AllowanceNotDefined)
    else if inputs.ftBalance.None? then Err(FtBalanceNotFound)
    else if inputs.accountBalance.None? then Err(AccountBalanceNotDefined)
    else
      var ftBalance := inputs.ftBalance.value;
      var isMintRequired := inputs.ftAddress.value == env.wrappedEthAddress && amount > ftBalance;
      var valueToMint := if isMintRequired then amount - ftBalance else 0;
      var mintGasLimit := if isMintRequired then env.mintGasLimit(valueToMint) else Some(0);
      if mintGasLimit.None? then Err(Rejected(MintGasEstimate))
      else
        var isApproveRequired := amount > inputs.allowance.value;
        var approveGasLimit := if isApproveRequired then env.approveGasLimit(amount) else Some(0);
        if approveGasLimit.None? then Err(Rejected(ApproveGasEstimate))
        else
          var transferEstimate := if isApproveRequired then None else env.transferGasLimit(amount);
          if !isApproveRequired && transferEstimate.None? then Err(Rejected(TransferGasEstimate))
          else if env.maxFeePerGas.None? then Err(Rejected(FeesEstimate))
          else
            Ok(Plan(valueToMint, isMintRequired, isApproveRequired, mintGasLimit.value, approveGasLimit.value,
                    transferEstimate, env.maxFeePerGas.value))
  }

  /**
   * `validateBalance`: the plan, refused with the required total when that
   * total is strictly above the account balance.
   */
  function ValidateBalance(inputs: HookInputs, env: Env, amount: int): (r: Result<Plan, SubmitError>)
    ensures r.Ok? <==> (PlanCosts(inputs, env, amount).Ok?
                    && RequiredTotal(PlanCosts(inputs, env, amount).value, inputs.fee.value) <= inputs.accountBalance.value)
    ensures r.Ok? ==> r == PlanCosts(inputs, env, amount)
    ensures PlanCosts(inputs, env, amount).Err? ==> r == PlanCosts(inputs, env, amount)
    ensures r.Err? && r.error.InsufficientAccountBalance? ==>
      && r.error == InsufficientAccountBalance("ETH", RequiredTotal(PlanCosts(inputs, env, amount).value, inputs.fee.value))
      && r.error.required > inputs.accountBalance.value
  {
    match PlanCosts(inputs, env, amount)
    case Err(e) => Err(e)
    case Ok(plan) =>
      var balanceToWithdraw := RequiredTotal(plan, inputs.fee.value);
      if balanceToWithdraw > inputs.accountBalance.value then Err(InsufficientAccountBalance("ETH", balanceToWithdraw))
      else Ok(plan)
  }

  /**
   * The balance check in the environment's own numbers: once every needed
   * estimate has answered, the plan is accepted iff the value to mint, all
   * estimated gas at the estimated maximum fee per gas, and the bridge fee
   * fit in the account balance.
   */
  lemma AcceptedIffAffordable(inputs: HookInputs, env: Env, amount: int)
    requires Defined(inputs)
    requires !MintEstimateFails(inputs, env, amount) && !ApproveEstimateFails(inputs, env, amount)
    requires !TransferEstimateFails(inputs, env, amount) && env.maxFeePerGas.Some?
    ensures var isMintRequired := MintRequired(inputs, env, amount);
      var isApproveRequired := amount > inputs.allowance.value;
      var valueToMint := if isMintRequired then amount - inputs.ftBalance.value else 0;
      var mintGas := if isMintRequired then env.mintGasLimit(valueToMint).value else 0;
      var approveGas := if isApproveRequired then env.approveGasLimit(amount).value else 0;
      var transferGas := if isApproveRequired then None else env.transferGasLimit(amount);
      ValidateBalance(inputs, env, amount).Ok? <==>
        valueToMint + (mintGas + approveGas + GasOrFallback(transferGas)) * env.maxFeePerGas.value + inputs.fee.value
          <= inputs.accountBalance.value
  {
  }

  // ----- properties of the validation ------------------------------------------

  /** A missing input is refused before any estimate is requested: the answer does not depend on the environment. */
  lemma UndefinedInputFailsFirst(inputs: HookInputs, env1: Env, env2: Env, amount: int)
    requires !Defined(inputs)
    ensures ValidateBalance(inputs, env1, amount).Err?
    ensures ValidateBalance(inputs, env1, amount) == ValidateBalance(inputs, env2, amount)
    ensures ValidateBalance(inputs, env1, amount).error in
      {FtAddressNotDefined, FeeNotDefined, AllowanceNotDefined, FtBalanceNotFound, AccountBalanceNotDefined}
  {
  }

  /** The mint estimate is requested only when a mint is required. */
  lemma MintEstimateOnlyWhenRequired(inputs: HookInputs, env: Env, other: int -> Option<int>, amount: int)
    requires Defined(inputs)
    requires !(inputs.ftAddress.value == env.wrappedEthAddress && amount > inputs.ftBalance.value)
    ensures ValidateBalance(inputs, env, amount) == ValidateBalance(inputs, env.(mintGasLimit := other), amount)
  {
  }

  /** The approve estimate is requested only when the allowance is below the amount. */
  lemma ApproveEstimateOnlyWhenRequired(inputs: HookInputs, env: Env, other: int -> Option<int>, amount: int)
    requires Defined(inputs) && amount <= inputs.allowance.value
    ensures ValidateBalance(inputs, env, amount) == ValidateBalance(inputs, env.(approveGasLimit := other), amount)
  {
  }

  /** The transfer is simulated only when no approval is pending; otherwise the fallback is charged. */
  lemma TransferEstimateOnlyWithoutApproval(inputs: HookInputs, env: Env, other: int -> Option<int>, amount: int)
    requires Defined(inputs) && amount > inputs.allowance.value
    ensures ValidateBalance(inputs, env, amount) == ValidateBalance(inputs, env.(transferGasLimit := other), amount)
    ensures PlanCosts(inputs, env, amount).Ok? ==>
      GasOrFallback(PlanCosts(inputs, env, amount).value.transferGasLimit) == TransferGasLimitFallback
  {
  }

  /**
   * A transfer estimate of 0n is checked as the fallback, exactly as an
   * estimate of 210000 would be, while the plan keeps the 0 it will send.
   */
  lemma ZeroEstimateChecksFallback(inputs: HookInputs, env: Env, amount: int)
    requires env.transferGasLimit(amount) == Some(0)
    ensures var fallback := env.(transferGasLimit := _ => Some(TransferGasLimitFallback));
      ValidateBalance(inputs, env, amount).Ok? == ValidateBalance(inputs, fallback, amount).Ok?
    ensures PlanCosts(inputs, env, amount).Ok? && !PlanCosts(inputs, env, amount).value.isApproveRequired ==>
      PlanCosts(inputs, env, amount).value.transferGasLimit == Some(0)
  {
  }

  /** A larger balance never turns an accepted plan into a refusal; a total equal to the balance passes. */
  lemma MoreBalanceStillPasses(inputs: HookInputs, env: Env, amount: int, balance: int)
    requires ValidateBalance(inputs, env, amount).Ok? && balance >= inputs.accountBalance.value
    ensures ValidateBalance(inputs.(accountBalance := Some(balance)), env, amount).Ok?
  {
    assert PlanCosts(inputs.(accountBalance := Some(balance)), env, amount) == PlanCosts(inputs, env, amount);
  }

  /** The refusal carries the full total, which is exactly the smallest balance that would pass. */
  lemma InsufficientCarriesThreshold(inputs: HookInputs, env: Env, amount: int)
    requires ValidateBalance(inputs, env, amount).Err? && ValidateBalance(inputs, env, amount).error.InsufficientAccountBalance?
    ensures var t := ValidateBalance(inputs, env, amount).error.required;
      && ValidateBalance(inputs.(accountBalance := Some(t)), env, amount).Ok?
      && !ValidateBalance(inputs.(accountBalance := Some(t - 1)), env, amount).Ok?
  {
    var t := ValidateBalance(inputs, env, amount).error.required;
    assert PlanCosts(inputs.(accountBalance := Some(t)), env, amount) == PlanCosts(inputs, env, amount);
    assert PlanCosts(inputs.(accountBalance := Some(t - 1)), env, amount) == PlanCosts(inputs, env, amount);
  }

  // ----- submission ----------------------------------------------------------------

  /** The effects of `onSubmit`, in the order they happen. */
  datatype Step =
    | OpenModal(amount: int, receiver: string)
    | SendMint(value: int, gas: int)
    | ResetMint
    | SendApprove(amount: int, gas: int)
    | ResetApprove
    | SendTransfer(amount: int, receiver: string, value: int, gasLimit: Option<int>)
    | SubscribeFeePaid
    | UnsubscribeFeePaid

  datatype WatchEvent = FeePaidLogs | WatchError

  datatype Outcome = Settled | Failed(error: SubmitError) | Waiting

  /**
   * Everything a submission does when nothing rejects: open the modal, mint
   * or reset, approve the whole amount or reset, send the transfer with the
   * simulated gas limit (undefined when an approval was needed), subscribe
   * to `FeePaid`, and unsubscribe on the first event.
   */
  function Script(plan: Plan, amount: int, account: string, fee: int): (r: seq<Step>)
    ensures |r| == 6
  {
    [OpenModal(amount, account)]
      + (if plan.isMintRequired then [SendMint(plan.valueToMint, plan.mintGasLimit)] else [ResetMint])
      + (if plan.isApproveRequired then [SendApprove(amount, plan.approveGasLimit)] else [ResetApprove])
      + [SendTransfer(amount, account, fee, plan.transferGasLimit), SubscribeFeePaid, UnsubscribeFeePaid]
  }

  /**
   * Mint, approve and transfer occupy slots 1, 2 and 3 of the script, in
   * that order, with the planned values and gas limits, and the approval is
   * for the full amount; the `FeePaid` subscription and its release come
   * last.
   */
  lemma ScriptOrder(plan: Plan, amount: int, account: string, fee: int)
    ensures var s := Script(plan, amount, account, fee);
      && s[0] == OpenModal(amount, account)
      && (s[1].SendMint? <==> plan.isMintRequired) && (s[1].SendMint? || s[1] == ResetMint)
      && (s[1].SendMint? ==> s[1] == SendMint(plan.valueToMint, plan.mintGasLimit))
      && (s[2].SendApprove? <==> plan.isApproveRequired) && (s[2].SendApprove? || s[2] == ResetApprove)
      && (s[2].SendApprove? ==> s[2] == SendApprove(amount, plan.approveGasLimit))
      && s[3] == SendTransfer(amount, account, fee, plan.transferGasLimit)
      && s[4] == SubscribeFeePaid && s[5] == UnsubscribeFeePaid
      && forall i :: 0 <= i < |s| && i != 3 ==> !s[i].SendTransfer?
  {
  }

  /** Which transaction, if any, is the first to reject. */
  function FirstRejection(plan: Plan, env: Env): Option<Call> {
    if plan.isMintRequired && !env.accepts(MintTx) then Some(MintTx)
    else if plan.isApproveRequired && !env.accepts(ApproveTx) then Some(ApproveTx)
    else None
  }

  /**
   * `onSubmit`: validates, opens the modal, then awaits mint? and approve?
   * and sends the transfer; once the transfer resolves, subscribes a
   * `FeePaid` watcher and waits for its first event. Any rejection stops
   * everything after it. `firstEvent` is the watcher's first event, None
   * when it never comes (there is no timeout).
   */
  method OnSubmit(inputs: HookInputs, env: Env, amount: int, account: string, firstEvent: Option<WatchEvent>)
    returns (log: seq<Step>, outcome: Outcome)
    ensures ValidateBalance(inputs, env, amount).Err? ==>
      log == [] && outcome == Failed(ValidateBalance(inputs, env, amount).error)
    ensures ValidateBalance(inputs, env, amount).Ok? ==>
      var plan := ValidateBalance(inputs, env, amount).value;
      var script := Script(plan, amount, account, inputs.fee.value);
      && 2 <= |log| <= |script| && log == script[..|log|]
      && (FirstRejection(plan, env).Some? ==>
            outcome == Failed(Rejected(FirstRejection(plan, env).value))
            && log[|log| - 1] == script[if FirstRejection(plan, env) == Some(MintTx) then 1 else 2])
      && (FirstRejection(plan, env).None? && inputs.fee.value == 0 ==> outcome == Failed(FeeNotDefined) && |log| == 3)
      && (FirstRejection(plan, env).None? && inputs.fee.value != 0 ==>
            if !env.accepts(TransferTx) then outcome == Failed(Rejected(TransferTx)) && |log| == 4
            else if firstEvent.None? then outcome == Waiting && |log| == 5
            else |log| == 6 && outcome == (if firstEvent.value == FeePaidLogs then Settled else Failed(FeePaidWatchFailed)))
  {
    var validated := ValidateBalance(inputs, env, amount);
    if validated.Err? {
      return [], Failed(validated.error);
    }
    var plan := validated.value;
    var fee := inputs.fee.value;
    ghost var script := Script(plan, amount, account, fee);

    log := [OpenModal(amount, account)];

    if plan.isMintRequired {
      log := log + [SendMint(plan.valueToMint, plan.mintGasLimit)];
      if !env.accepts(MintTx) {
        return log, Failed(Rejected(MintTx));
      }
    } else {
      log := log + [ResetMint];
    }

    if plan.isApproveRequired {
      log := log + [SendApprove(amount, plan.approveGasLimit)];
      if !env.accepts(ApproveTx) {
        return log, Failed(Rejected(ApproveTx));
      }
    } else {
      log := log + [ResetApprove];
    }
    assert log == script[..3];

    // `transfer`: the address was checked by the validation; `!fee` also refuses 0n.
    if fee == 0 {
      return log, Failed(FeeNotDefined);
    }
    log := log + [SendTransfer(amount, account, fee, plan.transferGasLimit)];
    if !env.accepts(TransferTx) {
      return log, Failed(Rejected(TransferTx));
    }

    var watcher := new FeePaidWatcher();
    log := log + [SubscribeFeePaid];
    if firstEvent.None? {
      return log, Waiting;
    }
    watcher.Deliver(firstEvent.value);
    log := log + [UnsubscribeFeePaid];
    assert log == script;
    outcome := if watcher.state == Resolved then Settled else Failed(FeePaidWatchFailed);
  }

  // ----- the FeePaid watcher ----------------------------------------------------------

  datatype WatchState = Pending | Resolved | RejectedBy(event: WatchEvent)

  /** The state of the watch promise after a sequence of callbacks: the first one decides, and nothing decides until one comes. */
  function Settle(events: seq<WatchEvent>): (r: WatchState)
    ensures r == Pending <==> events == []
  {
    if events == [] then Pending
    else if events[0] == FeePaidLogs then Resolved
    else RejectedBy(events[0])
  }

  /** A settled promise stays settled: later callbacks change nothing. */
  lemma {:induction false} SettleOnce(events: seq<WatchEvent>, later: seq<WatchEvent>)
    requires events != []
    ensures Settle(events + later) == Settle(events)
  {
    assert (events + later)[0] == events[0];
  }

  /**
   * `watch`: subscribes to `FeePaid` on creation; the first callback
   * (`onLogs` or `onError`) unsubscribes and settles the promise.
   */
  class FeePaidWatcher {
    var subscribed: bool
    var state: WatchState
    ghost var delivered: seq<WatchEvent>

    ghost predicate Valid()
      reads this
    {
      state == Settle(delivered) && (subscribed <==> state == Pending)
    }

    constructor()
      ensures Valid() && subscribed && delivered == []
    {
      subscribed := true;
      state := Pending;
      delivered := [];
    }

    /** A callback of the subscription. */
    method Deliver(event: WatchEvent)
      requires Valid()
      modifies this
      ensures Valid()
      ensures delivered == old(delivered) + [event]
      ensures old(subscribed) ==> !subscribed && state == (if event == FeePaidLogs then Resolved else RejectedBy(event))
      ensures !old(subscribed) ==> state == old(state) && !subscribed
    {
      if subscribed {
        subscribed := false;
        state := if event == FeePaidLogs then Resolved else RejectedBy(event);
      } else {
        SettleOnce(delivered, [event]);
      }
      delivered := delivered + [event];
    }
  }
}

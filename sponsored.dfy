/**
 * The call-list construction of `sendSponsoredTransaction`: each transaction of
 * a loaded configuration becomes a `(target, value, data)` triple, pushed onto
 * `calls` in configuration order; the first transaction that throws aborts the
 * whole batch.
 */
module Sponsored {
  import opened Wrappers
  import opened Hex
  import opened Json
  import opened Amounts
  import opened Abi
  import ConfigManager

  /**
   * One entry of `calls`. The target and the data are whatever the transaction
   * held (`None` for `undefined`); they are only checked when the list is packed.
   */
  datatype Call = Call(target: Option<Json>, value: int, data: Json)

  /** Why a transaction could not be turned into a call. */
  datatype Failure =
    | NullTransaction           // reading a property of `null` throws a TypeError
    | ValueNotString            // `tx.value.startsWith` on a non-string throws a TypeError
    | BadNativeAmount           // `getBigInt` or `parseEther` refused the value
    | MissingContract           // the explicit throw for a transfer without `contract`
    | BadTokenAmount            // `getBigInt` refused `rawValue` or `value`
    | TransferEncoding          // `encodeFunctionData("transfer", ...)` threw
    | DisplayUnits              // `formatUnits(rawAmount, tx.decimals)` refused the decimals
    | BadAbi                    // `new ethers.Interface(abi)` threw
    | ArgsNotArray              // `tx.args.map` on a non-array throws a TypeError
    | NoFunction(argIndex: nat) // `getFunction` found nothing, so reading `inputs` threw
    | NoParameter(argIndex: nat) // `inputs[argIndex]` is undefined, so reading `type` threw
    | BadArgAmount(argIndex: nat) // `getBigInt` or `parseUnits` refused the argument
    | CallEncoding              // `encodeFunctionData(tx.function, ...)` threw

  /** A failure and the index of the transaction it happened at. */
  datatype EncodeError = EncodeError(index: nat, failure: Failure)

  /** The largest integer a JavaScript number holds exactly, 2^53 - 1: ethers refuses larger ones. */
  const MaxSafeInteger: int := 0x1f_ffff_ffff_ffff

  /** ethers' `getBigInt` on a JSON value: an integer number in the safe range, or a string `GetBigInt` reads. */
  function BigNumberish(v: Option<Json>): (r: Option<int>)
    ensures v.Some? && v.value.JStr? ==> r == GetBigInt(v.value.s)
    ensures v.None? ==> r.None?
  {
    match v
    case Some(JStr(s)) => GetBigInt(s)
    case Some(JNum(n)) =>
      if n == n.Floor as real && -MaxSafeInteger <= n.Floor <= MaxSafeInteger then Some(n.Floor) else None
    case _ => None
  }

  /** ethers' unit names, whose decimals are three times their position. */
  const UnitNames: seq<string> := ["wei", "kwei", "mwei", "gwei", "szabo", "finney", "ether"]

  /** The `unit` argument of `parseUnits`: a unit name, or an integer number of decimals up to 80. */
  function UnitDecimals(unit: Json): (r: Option<nat>)
    ensures unit.JNum? && unit.n == unit.n.Floor as real && 0 <= unit.n.Floor <= 80 ==> r == Some(unit.n.Floor)
    ensures unit.JStr? ==> (r.Some? <==> unit.s in UnitNames)
    ensures r.Some? ==> r.value <= 80
  {
    match unit
    case JStr(s) =>
      if s in UnitNames then
        var k :| 0 <= k < |UnitNames| && UnitNames[k] == s;
        Some(3 * k)
      else None
    case JNum(n) => if n == n.Floor as real && 0 <= n.Floor <= 80 then Some(n.Floor) else None
    case _ => None
  }

  /** The amount a numeric `uint256` argument becomes when no `rawAmount` applies. */
  function ScaledArg(tx: Json, arg: string): Option<int>
  {
    if TruthyAt(tx, "decimals") then
      match UnitDecimals(Get(tx, "decimals").value)
      case Some(d) => ParseUnits(arg, d)
      case None => None
    else ParseUnits(arg, 18)
  }

  /** The guard of the conversion: a string that does not start with `0x` and that `parseFloat` reads as a number. */
  predicate IsNumericString(arg: Json)
  {
    arg.JStr? && !StartsWith(arg.s, "0x") && ParsesAsFloat(arg.s)
  }

  /** One step of `tx.args.map`: convert a numeric string at a `uint256` parameter, pass anything else through. */
  function ProcessArg(tx: Json, abi: Json, coder: AbiCoder, arg: Json, argIndex: nat): (r: Result<Arg, Failure>)
    ensures !IsNumericString(arg) ==> r == Ok(Plain(arg))
    ensures r.Err? ==> r.error in {NoFunction(argIndex), NoParameter(argIndex), BadArgAmount(argIndex)}
  {
    if IsNumericString(arg) then
      match coder.inputTypes(abi, Get(tx, "function"))
      case None => Err(NoFunction(argIndex))
      case Some(types) =>
        if argIndex >= |types| then Err(NoParameter(argIndex))
        else if types[argIndex] == "uint256" || types[argIndex] == "uint" then
          var amount := if TruthyAt(tx, "rawAmount") && argIndex == 1 then BigNumberish(Get(tx, "rawAmount"))
                        else ScaledArg(tx, arg.s);
          match amount
          case Some(n) => Ok(Big(n))
          case None => Err(BadArgAmount(argIndex))
        else Ok(Plain(arg))
    else Ok(Plain(arg))
  }

  /** An `Array.map` with a callback that may throw, over the items from position `from` on: the first throw wins. */
  function MapArgs<C>(step: (C, Json, nat) -> Result<Arg, Failure>, ctx: C, args: seq<Json>, from: nat)
    : (r: Result<seq<Arg>, Failure>)
    requires from <= |args|
    decreases |args| - from
    ensures r.Ok? ==> |r.value| == |args| - from
  {
    if from == |args| then Ok([])
    else match step(ctx, args[from], from)
      case Err(f) => Err(f)
      case Ok(a) =>
        match MapArgs(step, ctx, args, from + 1)
        case Err(f) => Err(f)
        case Ok(rest) => Ok([a] + rest)
  }

  /** On success each mapped item is its own item's image, in order. */
  lemma {:induction false} MapArgsOk<C>(step: (C, Json, nat) -> Result<Arg, Failure>, ctx: C, args: seq<Json>, from: nat)
    requires from <= |args|
    decreases |args| - from
    ensures var r := MapArgs(step, ctx, args, from);
      r.Ok? ==> forall k | 0 <= k < |r.value| :: step(ctx, args[from + k], from + k) == Ok(r.value[k])
  {
    var r := MapArgs(step, ctx, args, from);
    if from < |args| && r.Ok? {
      MapArgsOk(step, ctx, args, from + 1);
      var rest := MapArgs(step, ctx, args, from + 1).value;
      assert r.value == [step(ctx, args[from], from).value] + rest;
      forall k | 0 < k < |r.value|
        ensures step(ctx, args[from + k], from + k) == Ok(r.value[k])
      {
        assert r.value[k] == rest[k - 1];
        assert from + k == (from + 1) + (k - 1);
      }
    }
  }

  /** A failure of the mapping is the failure of the first failing item at or after `from`. */
  lemma {:induction false} MapArgsErr<C>(step: (C, Json, nat) -> Result<Arg, Failure>, ctx: C, args: seq<Json>, from: nat)
    requires from <= |args|
    decreases |args| - from
    ensures var r := MapArgs(step, ctx, args, from);
      r.Err? ==> exists k | from <= k < |args| ::
        step(ctx, args[k], k) == Err(r.error) && forall j | from <= j < k :: step(ctx, args[j], j).Ok?
  {
    var r := MapArgs(step, ctx, args, from);
    if from < |args| && step(ctx, args[from], from).Ok? && r.Err? {
      MapArgsErr(step, ctx, args, from + 1);
      var k :| from + 1 <= k < |args| &&
        step(ctx, args[k], k) == Err(r.error) && forall j | from + 1 <= j < k :: step(ctx, args[j], j).Ok?;
      assert forall j | from <= j < k :: step(ctx, args[j], j).Ok?;
    }
  }

  /** The callback of `tx.args.map`, with the transaction, its ABI and the coder as context. */
  function ArgStep(ctx: (Json, Json, AbiCoder), arg: Json, argIndex: nat): Result<Arg, Failure>
  {
    ProcessArg(ctx.0, ctx.1, ctx.2, arg, argIndex)
  }

  /** `tx.args.map(...)` over the arguments from position `from` on, throwing at the first failing one. */
  function ProcessArgs(tx: Json, abi: Json, coder: AbiCoder, args: seq<Json>, from: nat): (r: Result<seq<Arg>, Failure>)
    requires from <= |args|
    ensures r.Ok? ==> |r.value| == |args| - from
  {
    MapArgs(ArgStep, (tx, abi, coder), args, from)
  }

  /** On success each mapped argument is its own argument's conversion, in order. */
  lemma ProcessArgsOk(tx: Json, abi: Json, coder: AbiCoder, args: seq<Json>, from: nat)
    requires from <= |args|
    ensures var r := ProcessArgs(tx, abi, coder, args, from);
      r.Ok? ==> forall k | 0 <= k < |r.value| :: ProcessArg(tx, abi, coder, args[from + k], from + k) == Ok(r.value[k])
  {
    MapArgsOk(ArgStep, (tx, abi, coder), args, from);
  }

  /** A failure of the mapping is the failure of the first failing argument at or after `from`. */
  lemma ProcessArgsErr(tx: Json, abi: Json, coder: AbiCoder, args: seq<Json>, from: nat)
    requires from <= |args|
    ensures var r := ProcessArgs(tx, abi, coder, args, from);
      r.Err? ==> exists k | from <= k < |args| ::
        ProcessArg(tx, abi, coder, args[k], k) == Err(r.error) &&
        forall j | from <= j < k :: ProcessArg(tx, abi, coder, args[j], j).Ok?
  {
    MapArgsErr(ArgStep, (tx, abi, coder), args, from);
  }

  /**
   * The listing of a token transfer formats its `rawValue` with `formatUnits(rawAmount, tx.decimals)`
   * when `decimals` is truthy; `formatUnits` takes the same units as `parseUnits` and throws on others.
   */
  predicate RefusedDisplayDecimals(tx: Json)
  {
    TruthyAt(tx, "decimals") && UnitDecimals(Get(tx, "decimals").value).None?
  }

  /** The `type` fields the `forEach` recognises. */
  const KindTypes: set<Option<Json>> :=
    {Some(JStr("ETH_TRANSFER")), Some(JStr("ERC20_TRANSFER")), Some(JStr("CONTRACT_CALL")), Some(JStr("RAW_CALL"))}

  /**
   * The body of the `forEach`: the call a transaction contributes, `None` for an unrecognised `type`.
   * A native transfer sends its value to `to` with empty data; every other call goes to `contract` with value 0.
   */
  function EncodeTransaction(tx: Json, coder: AbiCoder): (r: Result<Option<Call>, Failure>)
    ensures r == Ok(None) <==> !tx.JNull? && Get(tx, "type") !in KindTypes
    ensures r.Ok? && r.value.Some? && Get(tx, "type") == Some(JStr("ETH_TRANSFER")) ==>
      r.value.value.target == Get(tx, "to") && r.value.value.data == JStr("0x")
    ensures r.Ok? && r.value.Some? && Get(tx, "type") != Some(JStr("ETH_TRANSFER")) ==>
      r.value.value.target == Get(tx, "contract") && r.value.value.value == 0
  {
    if tx.JNull? then Err(NullTransaction)
    else
      var ty := Get(tx, "type");
      if ty == Some(JStr("ETH_TRANSFER")) then
        if !IsStringAt(tx, "value") then Err(ValueNotString)
        else
          var v := Get(tx, "value").value.s;
          var amount := if StartsWith(v, "0x") then GetBigInt(v) else ParseUnits(v, 18);
          match amount
          case None => Err(BadNativeAmount)
          case Some(a) => Ok(Some(Call(Get(tx, "to"), a, JStr("0x"))))
      else if ty == Some(JStr("ERC20_TRANSFER")) then
        if !TruthyAt(tx, "contract") then Err(MissingContract)
        else
          var amount := if TruthyAt(tx, "rawValue") then BigNumberish(Get(tx, "rawValue")) else BigNumberish(Get(tx, "value"));
          match amount
          case None => Err(BadTokenAmount)
          case Some(a) =>
            match Get(tx, "to")
            case None => Err(TransferEncoding)
            case Some(to) =>
              match TransferCalldata(to, a)
              case None => Err(TransferEncoding)
              case Some(calldata) =>
                if TruthyAt(tx, "rawValue") && RefusedDisplayDecimals(tx) then Err(DisplayUnits)
                else Ok(Some(Call(Get(tx, "contract"), 0, JStr(calldata))))
      else if ty == Some(JStr("CONTRACT_CALL")) then
        var abi := if TruthyAt(tx, "abi") then Get(tx, "abi").value else JArr([]);
        if !coder.parses(abi) then Err(BadAbi)
        else if !(Get(tx, "args").Some? && Get(tx, "args").value.JArr?) then Err(ArgsNotArray)
        else
          match ProcessArgs(tx, abi, coder, Get(tx, "args").value.items, 0)
          case Err(f) => Err(f)
          case Ok(args) =>
            match coder.encode(abi, Get(tx, "function"), args)
            case None => Err(CallEncoding)
            case Some(calldata) => Ok(Some(Call(Get(tx, "contract"), 0, JStr(calldata))))
      else if ty == Some(JStr("RAW_CALL")) then
        Ok(Some(Call(Get(tx, "contract"), 0, if TruthyAt(tx, "data") then Get(tx, "data").value else JStr("0x"))))
      else Ok(None)
  }

  /** The `calls` array after the first `n` transactions: the reference the loop is proved against. */
  function EncodePrefix(txs: seq<Json>, coder: AbiCoder, n: nat): Result<seq<Call>, EncodeError>
    requires n <= |txs|
  {
    if n == 0 then Ok([])
    else match EncodePrefix(txs, coder, n - 1)
      case Err(e) => Err(e)
      case Ok(calls) =>
        match EncodeTransaction(txs[n - 1], coder)
        case Err(f) => Err(EncodeError(n - 1, f))
        case Ok(None) => Ok(calls)
        case Ok(Some(c)) => Ok(calls + [c])
  }

  /** The `forEach` of `sendSponsoredTransaction`, pushing onto `calls` and rethrowing the first error. */
  method BuildCalls(txs: seq<Json>, coder: AbiCoder) returns (r: Result<seq<Call>, EncodeError>)
    ensures r == EncodePrefix(txs, coder, |txs|)
  {
    var calls: seq<Call> := [];
    var i := 0;
    while i < |txs|
      invariant 0 <= i <= |txs|
      invariant EncodePrefix(txs, coder, i) == Ok(calls)
    {
      match EncodeTransaction(txs[i], coder) {
        case Err(f) =>
          ErrorPersists(txs, coder, i + 1, |txs|);
          return Err(EncodeError(i, f));
        case Ok(None) =>
        case Ok(Some(c)) =>
          calls := calls + [c];
      }
      i := i + 1;
    }
    return Ok(calls);
  }

  // ------------------------------------------------------------ properties of the call list

  /** Once a transaction throws, the error is the batch's result. */
  lemma {:induction false} ErrorPersists(txs: seq<Json>, coder: AbiCoder, m: nat, n: nat)
    requires m <= n <= |txs|
    requires EncodePrefix(txs, coder, m).Err?
    ensures EncodePrefix(txs, coder, n) == EncodePrefix(txs, coder, m)
    decreases n - m
  {
    if m < n {
      ErrorPersists(txs, coder, m + 1, n);
    }
  }

  /** Later transactions never change earlier calls: every prefix's list is a prefix of the whole list. */
  lemma {:induction false} PrefixStable(txs: seq<Json>, coder: AbiCoder, m: nat, n: nat)
    requires m <= n <= |txs|
    requires EncodePrefix(txs, coder, n).Ok?
    ensures EncodePrefix(txs, coder, m).Ok?
    ensures EncodePrefix(txs, coder, m).value <= EncodePrefix(txs, coder, n).value
    decreases n - m
  {
    if m < n {
      PrefixStable(txs, coder, m, n - 1);
    }
  }

  /** The number of transactions among the first `n` whose `type` is one of the four kinds. */
  function CountRecognised(txs: seq<Json>, n: nat): nat
    requires n <= |txs|
  {
    if n == 0 then 0
    else CountRecognised(txs, n - 1) + (if Get(txs[n - 1], "type").Some? && ConfigManager.KindOf(Get(txs[n - 1], "type").value).Some? then 1 else 0)
  }

  /** A call per recognised transaction, no more and no fewer, whenever no transaction throws. */
  lemma {:induction false} OneCallPerRecognised(txs: seq<Json>, coder: AbiCoder, n: nat)
    requires n <= |txs|
    requires EncodePrefix(txs, coder, n).Ok?
    ensures |EncodePrefix(txs, coder, n).value| == CountRecognised(txs, n)
  {
    if n > 0 {
      OneCallPerRecognised(txs, coder, n - 1);
      var tx := txs[n - 1];
      var ty := Get(tx, "type");
      if ty.Some? && ConfigManager.KindOf(ty.value).Some? {
        assert EncodeTransaction(tx, coder).Ok? && EncodeTransaction(tx, coder).value.Some?;
      } else {
        assert EncodeTransaction(tx, coder) == Ok(None);
      }
    }
  }

  /** The `k`-th call comes from the `k`-th recognised transaction: the call a transaction contributes sits after those of the transactions before it. */
  lemma CallOfTransaction(txs: seq<Json>, coder: AbiCoder, n: nat)
    requires n < |txs|
    requires EncodePrefix(txs, coder, n + 1).Ok?
    requires EncodeTransaction(txs[n], coder).Ok? && EncodeTransaction(txs[n], coder).value.Some?
    ensures EncodePrefix(txs, coder, n + 1).value ==
            EncodePrefix(txs, coder, n).value + [EncodeTransaction(txs[n], coder).value.value]
  {
  }

  /** A validated configuration yields exactly one call per transaction, if it encodes at all. */
  lemma ValidatedGivesOneCallEach(config: Json, coder: AbiCoder)
    requires ConfigManager.WellFormedConfig(config)
    requires EncodePrefix(Get(config, "transactions").value.items, coder, |Get(config, "transactions").value.items|).Ok?
    ensures |EncodePrefix(Get(config, "transactions").value.items, coder, |Get(config, "transactions").value.items|).value| ==
            |Get(config, "transactions").value.items|
  {
    var txs := Get(config, "transactions").value.items;
    OneCallPerRecognised(txs, coder, |txs|);
    AllRecognised(txs, |txs|);
  }

  lemma {:induction false} AllRecognised(txs: seq<Json>, n: nat)
    requires n <= |txs|
    requires forall i | 0 <= i < |txs| :: ConfigManager.WellFormedTransaction(txs[i])
    ensures CountRecognised(txs, n) == n
  {
    if n > 0 {
      AllRecognised(txs, n - 1);
      assert ConfigManager.WellFormedTransaction(txs[n - 1]);
    }
  }

  /** A transfer without a truthy `contract` aborts the batch with an error that names its index. */
  lemma MissingContractNamesIndex(txs: seq<Json>, coder: AbiCoder, n: nat)
    requires n < |txs|
    requires EncodePrefix(txs, coder, n).Ok?
    requires Get(txs[n], "type") == Some(JStr("ERC20_TRANSFER")) && !TruthyAt(txs[n], "contract")
    ensures EncodePrefix(txs, coder, |txs|) == Err(EncodeError(n, MissingContract))
  {
    ErrorPersists(txs, coder, n + 1, |txs|);
  }

  // ------------------------------------------------------------ what each validated kind becomes

  /**
   * A validated native transfer becomes `(to, v, "0x")`: `v` is the hexadecimal
   * value, or the decimal value scaled exactly by 10^18 when at most 18 fraction
   * digits are non-zero and the scaled value is below 2^511 (parseEther refuses the rest).
   */
  lemma NativeTransferCall(tx: Json, coder: AbiCoder)
    requires ConfigManager.WellFormedAs(tx, ConfigManager.EthTransfer)
    ensures var v := Get(tx, "value").value.s;
      if IsHexQuantity(v) then
        EncodeTransaction(tx, coder) == Ok(Some(Call(Get(tx, "to"), HexValue(v[2..]), JStr("0x"))))
      else
        var n := ParseNumeral(v).value;
        if |n.frac| > 18 && !AllZeros(n.frac[18..]) then EncodeTransaction(tx, coder) == Err(BadNativeAmount)
        else if Scale(n, 18) >= FixedWidthLimit then EncodeTransaction(tx, coder) == Err(BadNativeAmount)
        else EncodeTransaction(tx, coder) == Ok(Some(Call(Get(tx, "to"), Scale(n, 18), JStr("0x"))))
  {
    var v := Get(tx, "value").value.s;
    if IsHexQuantity(v) {
      GetBigIntOfHex(v);
    } else {
      NumeralHasNoHexPrefix(v);
      ParseUnitsOfNumeral(v, 18);
    }
  }

  /**
   * A validated token transfer becomes `(contract, 0, transfer(to, rawValue))`, unless the amount
   * is out of `uint256` range or the listing's `formatUnits` refuses its `decimals`.
   */
  lemma TokenTransferCall(tx: Json, coder: AbiCoder)
    requires ConfigManager.WellFormedAs(tx, ConfigManager.Erc20Transfer)
    ensures var raw := HexValue(Get(tx, "rawValue").value.s[2..]);
      EncodeTransaction(tx, coder) ==
        if raw > MaxUint256 then Err(TransferEncoding)
        else if RefusedDisplayDecimals(tx) then Err(DisplayUnits)
        else Ok(Some(Call(Get(tx, "contract"), 0, JStr(TransferCalldata(Get(tx, "to").value, raw).value))))
  {
    GetBigIntOfHex(Get(tx, "rawValue").value.s);
  }

  /** A validated raw call becomes `(contract, 0, data)` with its data verbatim. */
  lemma RawCallIsVerbatim(tx: Json, coder: AbiCoder)
    requires ConfigManager.WellFormedAs(tx, ConfigManager.RawCall)
    ensures EncodeTransaction(tx, coder) == Ok(Some(Call(Get(tx, "contract"), 0, Get(tx, "data").value)))
  {
  }

  /** Arguments that are not numeric strings are passed on unchanged, in the same number and order. */
  lemma {:induction false} NonNumericArgsPassThrough(tx: Json, abi: Json, coder: AbiCoder, args: seq<Json>, from: nat)
    requires from <= |args|
    requires forall i | from <= i < |args| :: !IsNumericString(args[i])
    ensures ProcessArgs(tx, abi, coder, args, from).Ok?
    ensures forall k | 0 <= k < |args| - from :: ProcessArgs(tx, abi, coder, args, from).value[k] == Plain(args[from + k])
    decreases |args| - from
  {
    if from < |args| {
      NonNumericArgsPassThrough(tx, abi, coder, args, from + 1);
    }
  }

  /** A `decimals` of 0 is falsy, so a numeric `uint256` argument is then scaled by 10^18, not 10^0. */
  lemma ZeroDecimalsFallBackToEther(tx: Json, arg: string)
    requires Get(tx, "decimals") == Some(JNum(0.0))
    ensures ScaledArg(tx, arg) == ParseUnits(arg, 18)
  {
  }

  /** With `decimals` a unit count, a numeric `uint256` argument is scaled by that many digits. */
  lemma DecimalsScaleArg(tx: Json, arg: string, d: nat)
    requires 0 < d <= 80 && Get(tx, "decimals") == Some(JNum(d as real))
    ensures ScaledArg(tx, arg) == ParseUnits(arg, d)
  {
  }

  /** The second argument takes a truthy `rawAmount` in place of its own text, whatever that text says. */
  lemma RawAmountOverridesSecondArg(tx: Json, abi: Json, coder: AbiCoder, arg: Json, types: seq<string>)
    requires IsNumericString(arg)
    requires coder.inputTypes(abi, Get(tx, "function")) == Some(types) && |types| > 1 && types[1] == "uint256"
    requires TruthyAt(tx, "rawAmount") && BigNumberish(Get(tx, "rawAmount")).Some?
    ensures ProcessArg(tx, abi, coder, arg, 1) == Ok(Big(BigNumberish(Get(tx, "rawAmount")).value))
  {
  }
}

/**
 * The batch-configuration validator of `ConfigManager` (`validateConfig`,
 * `validateTransaction`, `validateGasSettings`, `isValidAddress`): a total
 * function from a parsed JSON configuration to acceptance, or to the first
 * error, naming the offending transaction's index.
 *
 * Each check is a function that mirrors the source's sequence of throws; each
 * is proved equal to an independent, declarative statement of what a
 * well-formed configuration is (the `WellFormed...` predicates).
 */
module ConfigManager {
  import opened Wrappers
  import opened Hex
  import opened Json
  import Amounts

  /** The four transaction kinds, by the value of their `type` field. */
  datatype Kind = EthTransfer | Erc20Transfer | ContractCall | RawCall

  function KindName(k: Kind): string
  {
    match k
    case EthTransfer => "ETH_TRANSFER"
    case Erc20Transfer => "ERC20_TRANSFER"
    case ContractCall => "CONTRACT_CALL"
    case RawCall => "RAW_CALL"
  }

  /** The `switch (txType)` dispatch: `===` against the four string literals. */
  function KindOf(ty: Json): (k: Option<Kind>)
    ensures k.Some? ==> ty == JStr(KindName(k.value))
    ensures k.None? ==> forall kind: Kind :: ty != JStr(KindName(kind))
  {
    if ty == JStr("ETH_TRANSFER") then Some(EthTransfer)
    else if ty == JStr("ERC20_TRANSFER") then Some(Erc20Transfer)
    else if ty == JStr("CONTRACT_CALL") then Some(ContractCall)
    else if ty == JStr("RAW_CALL") then Some(RawCall)
    else None
  }

  /** What a rejection says: which rule failed. */
  datatype Reason =
    | NullConfig            // the configuration is `null`: reading a property of it throws a TypeError
    | MissingTransactions   // `transactions` is missing or falsy
    | NotNonEmptyArray      // `transactions` is not an array, or is empty
    | NullTransaction       // the transaction is `null`: reading `type` throws a TypeError
    | MissingType
    | MissingValue
    | MissingData
    | ValueNotString
    | BadValue              // the kind's rule for `value`
    | MissingRawValue
    | BadRawValue
    | UnknownType
    | BadData
    | MissingTo
    | MissingContract
    | BadTo
    | BadContract
    | GasSettingsNotObject
    | BadGasLimit
    | BadGasPrice

  /** A rejection of the whole configuration, or of the transaction at `index`. */
  datatype ConfigError = TopLevel(reason: Reason) | AtTransaction(index: nat, reason: Reason)

  /** `isValidAddress`: a string of `0x` and forty hexadecimal digits. */
  predicate IsValidAddress(v: Json) { v.JStr? && IsAddress(v.s) }

  /** The native amount grammar: `^0x[0-9a-fA-F]+$` or `^\d+(\.\d+)?$`. */
  predicate IsNativeAmount(s: string) { IsHexQuantity(s) || Amounts.IsDecimalNumeral(s) }

  function StringAt(tx: Json, key: string): string
    requires IsStringAt(tx, key)
  {
    Get(tx, key).value.s
  }

  // ------------------------------------------------------------ the checks, as the source runs them

  /** The per-kind rule for `value`, and for `ERC20_TRANSFER` its `rawValue`. */
  function CheckValue(kind: Kind, tx: Json): Outcome<Reason>
    requires IsStringAt(tx, "value")
  {
    var v := StringAt(tx, "value");
    match kind
    case EthTransfer => if IsNativeAmount(v) then Pass else Fail(BadValue)
    case Erc20Transfer =>
      if v != "0" then Fail(BadValue)
      else if !TruthyAt(tx, "rawValue") then Fail(MissingRawValue)
      else if !(IsStringAt(tx, "rawValue") && IsHexQuantity(StringAt(tx, "rawValue"))) then Fail(BadRawValue)
      else Pass
    case ContractCall => if v != "0" then Fail(BadValue) else Pass
    case RawCall => if v != "0" then Fail(BadValue) else Pass
  }

  /** The per-kind address fields: presence first, then format, in the source's order. */
  function CheckAddresses(kind: Kind, tx: Json): Outcome<Reason>
  {
    match kind
    case EthTransfer =>
      if !Has(tx, "to") then Fail(MissingTo)
      else if !IsValidAddress(Get(tx, "to").value) then Fail(BadTo)
      else Pass
    case Erc20Transfer =>
      if !Has(tx, "to") then Fail(MissingTo)
      else if !Has(tx, "contract") then Fail(MissingContract)
      else if !IsValidAddress(Get(tx, "to").value) then Fail(BadTo)
      else if !IsValidAddress(Get(tx, "contract").value) then Fail(BadContract)
      else Pass
    case ContractCall =>
      if !Has(tx, "contract") then Fail(MissingContract)
      else if !IsValidAddress(Get(tx, "contract").value) then Fail(BadContract)
      else Pass
    case RawCall =>
      if !Has(tx, "contract") then Fail(MissingContract)
      else if !IsValidAddress(Get(tx, "contract").value) then Fail(BadContract)
      else Pass
  }

  /** `validateTransaction(transaction, index)`. */
  function ValidateTransaction(tx: Json, index: nat): (r: Outcome<ConfigError>)
    ensures r.Pass? <==> WellFormedTransaction(tx)
    ensures r.Fail? ==> r.error.AtTransaction? && r.error.index == index
  {
    if tx.JNull? then Fail(AtTransaction(index, NullTransaction))
    else if !TruthyAt(tx, "type") then Fail(AtTransaction(index, MissingType))
    else if !Has(tx, "value") then Fail(AtTransaction(index, MissingValue))
    else if !Has(tx, "data") then Fail(AtTransaction(index, MissingData))
    else if !IsStringAt(tx, "value") then Fail(AtTransaction(index, ValueNotString))
    else match KindOf(Get(tx, "type").value)
      case None => Fail(AtTransaction(index, UnknownType))
      case Some(kind) =>
        match CheckValue(kind, tx)
        case Fail(reason) => Fail(AtTransaction(index, reason))
        case Pass =>
          if !(IsStringAt(tx, "data") && IsHexData(StringAt(tx, "data"))) then Fail(AtTransaction(index, BadData))
          else match CheckAddresses(kind, tx)
            case Fail(reason) => Fail(AtTransaction(index, reason))
            case Pass => Pass
  }

  /** `validateGasSettings(gasSettings)`, called only for a truthy value. */
  function ValidateGasSettings(g: Json): (r: Outcome<Reason>)
    ensures r.Pass? <==> WellFormedGasSettings(g)
  {
    if !IsObject(g) then Fail(GasSettingsNotObject)
    else if TruthyAt(g, "gasLimit") && !(Get(g, "gasLimit").value.JNum? && Get(g, "gasLimit").value.n > 0.0) then
      Fail(BadGasLimit)
    else if TruthyAt(g, "gasPrice") && !(IsStringAt(g, "gasPrice") && IsHexQuantity(StringAt(g, "gasPrice"))) then
      Fail(BadGasPrice)
    else Pass
  }

  /** The `forEach` over the transactions from position `from` on, stopping at the first throw. */
  function ValidateTransactions(txs: seq<Json>, from: nat): (r: Outcome<ConfigError>)
    requires from <= |txs|
    decreases |txs| - from
  {
    if from == |txs| then Pass
    else match ValidateTransaction(txs[from], from)
      case Fail(e) => Fail(e)
      case Pass => ValidateTransactions(txs, from + 1)
  }

  /** A batch passes exactly when every transaction from `from` on is well formed. */
  lemma {:induction false} AllTransactionsChecked(txs: seq<Json>, from: nat)
    requires from <= |txs|
    decreases |txs| - from
    ensures ValidateTransactions(txs, from).Pass? <==> forall i | from <= i < |txs| :: WellFormedTransaction(txs[i])
  {
    if from < |txs| {
      if ValidateTransaction(txs[from], from).Pass? {
        AllTransactionsChecked(txs, from + 1);
      } else {
        assert !WellFormedTransaction(txs[from]);
      }
    }
  }

  /** A failing batch reports the first malformed transaction, with that transaction's own failure. */
  lemma {:induction false} FirstFailureReported(txs: seq<Json>, from: nat)
    requires from <= |txs|
    decreases |txs| - from
    ensures var r := ValidateTransactions(txs, from);
      r.Fail? ==>
        r.error.AtTransaction? && from <= r.error.index < |txs| &&
        (forall i | from <= i < r.error.index :: WellFormedTransaction(txs[i])) &&
        r == ValidateTransaction(txs[r.error.index], r.error.index)
  {
    if from < |txs| && ValidateTransaction(txs[from], from).Pass? {
      FirstFailureReported(txs, from + 1);
    }
  }

  /** `validateConfig(config)`. */
  function ValidateConfig(config: Json): (r: Outcome<ConfigError>)
    ensures r.Pass? <==> WellFormedConfig(config)
    ensures r.Fail? && r.error.AtTransaction? ==>
      Get(config, "transactions").Some? && Get(config, "transactions").value.JArr?
    ensures r.Fail? && r.error.AtTransaction? &&
            Get(config, "transactions").Some? && Get(config, "transactions").value.JArr? ==>
      var txs := Get(config, "transactions").value.items;
      r.error.index < |txs| &&
      (forall i | 0 <= i < r.error.index :: WellFormedTransaction(txs[i])) &&
      !WellFormedTransaction(txs[r.error.index]) &&
      r == ValidateTransaction(txs[r.error.index], r.error.index)
  {
    if config.JNull? then Fail(TopLevel(NullConfig))
    else if !TruthyAt(config, "transactions") then Fail(TopLevel(MissingTransactions))
    else
      var t := Get(config, "transactions").value;
      if !t.JArr? || |t.items| == 0 then Fail(TopLevel(NotNonEmptyArray))
      else
        AllTransactionsChecked(t.items, 0);
        FirstFailureReported(t.items, 0);
        match ValidateTransactions(t.items, 0)
        case Fail(e) => Fail(e)
        case Pass =>
          if TruthyAt(config, "gasSettings") then
            match ValidateGasSettings(Get(config, "gasSettings").value)
            case Fail(reason) => Fail(TopLevel(reason))
            case Pass => Pass
          else Pass
  }

  // ------------------------------------------------------------ the declarative reference

  /** The `value` rule of each kind: the decimal-or-hex grammar for native transfers, the exact string "0" otherwise. */
  predicate ValueRule(kind: Kind, v: string)
  {
    if kind == EthTransfer then IsNativeAmount(v) else v == "0"
  }

  predicate NeedsTo(kind: Kind) { kind == EthTransfer || kind == Erc20Transfer }

  predicate NeedsContract(kind: Kind) { kind != EthTransfer }

  predicate AddressAt(tx: Json, key: string) { Get(tx, key).Some? && IsValidAddress(Get(tx, key).value) }

  /** A transaction of the given kind: the field table of the batch format. */
  predicate WellFormedAs(tx: Json, kind: Kind)
  {
    Get(tx, "type") == Some(JStr(KindName(kind))) &&
    IsStringAt(tx, "value") && ValueRule(kind, StringAt(tx, "value")) &&
    IsStringAt(tx, "data") && IsHexData(StringAt(tx, "data")) &&
    (kind == Erc20Transfer ==> IsStringAt(tx, "rawValue") && IsHexQuantity(StringAt(tx, "rawValue"))) &&
    (NeedsTo(kind) ==> AddressAt(tx, "to")) &&
    (NeedsContract(kind) ==> AddressAt(tx, "contract"))
  }

  predicate WellFormedTransaction(tx: Json)
  {
    WellFormedAs(tx, EthTransfer) || WellFormedAs(tx, Erc20Transfer) ||
    WellFormedAs(tx, ContractCall) || WellFormedAs(tx, RawCall)
  }

  /** Gas settings: an object whose truthy `gasLimit` is a positive number and whose truthy `gasPrice` is hex. */
  predicate WellFormedGasSettings(g: Json)
  {
    IsObject(g) &&
    (TruthyAt(g, "gasLimit") ==> Get(g, "gasLimit").value.JNum? && Get(g, "gasLimit").value.n > 0.0) &&
    (TruthyAt(g, "gasPrice") ==> IsStringAt(g, "gasPrice") && IsHexQuantity(StringAt(g, "gasPrice")))
  }

  /** A non-empty array of well-formed transactions, and well-formed gas settings when they are truthy. */
  predicate WellFormedConfig(config: Json)
  {
    Get(config, "transactions").Some? &&
    Get(config, "transactions").value.JArr? &&
    |Get(config, "transactions").value.items| > 0 &&
    (forall i | 0 <= i < |Get(config, "transactions").value.items| ::
       WellFormedTransaction(Get(config, "transactions").value.items[i])) &&
    (TruthyAt(config, "gasSettings") ==> WellFormedGasSettings(Get(config, "gasSettings").value))
  }

  // ------------------------------------------------------------ properties

  /** The configuration-level rejections, each with its reason. */
  lemma RejectsWithoutTransactions(config: Json)
    requires !config.JNull?
    ensures !TruthyAt(config, "transactions") ==> ValidateConfig(config) == Fail(TopLevel(MissingTransactions))
    ensures TruthyAt(config, "transactions") &&
            (!Get(config, "transactions").value.JArr? || Get(config, "transactions").value.items == []) ==>
            ValidateConfig(config) == Fail(TopLevel(NotNonEmptyArray))
  {
  }

  /** The checks every kind shares come first and in this order: `type`, then `value`, then `data`, then `value`'s type. */
  lemma UniformChecksFirst(tx: Json, index: nat)
    requires !tx.JNull?
    ensures !TruthyAt(tx, "type") ==> ValidateTransaction(tx, index) == Fail(AtTransaction(index, MissingType))
    ensures TruthyAt(tx, "type") && !Has(tx, "value") ==>
      ValidateTransaction(tx, index) == Fail(AtTransaction(index, MissingValue))
    ensures TruthyAt(tx, "type") && Has(tx, "value") && !Has(tx, "data") ==>
      ValidateTransaction(tx, index) == Fail(AtTransaction(index, MissingData))
    ensures TruthyAt(tx, "type") && Has(tx, "value") && Has(tx, "data") && !IsStringAt(tx, "value") ==>
      ValidateTransaction(tx, index) == Fail(AtTransaction(index, ValueNotString))
    ensures TruthyAt(tx, "type") && Has(tx, "value") && Has(tx, "data") && IsStringAt(tx, "value") &&
            KindOf(Get(tx, "type").value).None? ==>
      ValidateTransaction(tx, index) == Fail(AtTransaction(index, UnknownType))
  {
  }

  /** A native transfer's `value` passes exactly when it is hex or a plain decimal numeral. */
  lemma NativeValueRule(tx: Json, index: nat)
    requires Get(tx, "type") == Some(JStr("ETH_TRANSFER"))
    requires Has(tx, "data") && IsStringAt(tx, "value")
    ensures ValidateTransaction(tx, index) == Fail(AtTransaction(index, BadValue)) <==>
            !IsNativeAmount(StringAt(tx, "value"))
  {
  }

  /**
   * For every other kind any `value` but the exact string "0" is rejected: the rule
   * is string equality, so "0.0" and "0x0" fail too.
   */
  lemma NonNativeValueMustBeZero(tx: Json, index: nat, kind: Kind)
    requires kind != EthTransfer
    requires Get(tx, "type") == Some(JStr(KindName(kind)))
    requires Has(tx, "data") && IsStringAt(tx, "value") && StringAt(tx, "value") != "0"
    ensures ValidateTransaction(tx, index) == Fail(AtTransaction(index, BadValue))
  {
  }

  /** A configuration whose first transaction is malformed is rejected at index 0, whatever follows. */
  lemma FirstTransactionDecides(config: Json)
    requires Get(config, "transactions").Some? && Get(config, "transactions").value.JArr?
    requires |Get(config, "transactions").value.items| > 0
    requires !WellFormedTransaction(Get(config, "transactions").value.items[0])
    ensures ValidateConfig(config).Fail? && ValidateConfig(config).error.AtTransaction?
    ensures ValidateConfig(config).error.index == 0
  {
  }

  /** `gasLimit` must be positive but need not be an integer. */
  lemma GasLimitIntegralityUnchecked()
    ensures ValidateGasSettings(JObj(map["gasLimit" := JNum(1.5)])) == Pass
    ensures ValidateGasSettings(JObj(map["gasLimit" := JNum(-1.0)])) == Fail(BadGasLimit)
    ensures ValidateGasSettings(JObj(map["gasPrice" := JStr("0x")])) == Fail(BadGasPrice)
  {
  }
}

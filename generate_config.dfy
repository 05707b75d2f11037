/**
 * The interactive configuration generator, with its prompts taken away: each
 * builder receives the (trimmed) answers it would have read and either rejects
 * one of them or returns the record it appends to `transactions`. The records
 * are the JSON objects `ConfigManager` validates and `Sponsored` encodes, and
 * the lemmas at the end follow a built record through both.
 */
module GenerateConfig {
  import opened Wrappers
  import opened Hex
  import opened Json
  import opened Amounts
  import opened MaxAmount
  import Abi
  import ConfigManager
  import Sponsored

  // ------------------------------------------------------------ input checks

  /** `isValidAddress`: `^0x[a-fA-F0-9]{40}$`. */
  predicate IsValidAddress(s: string) { IsAddress(s) }

  /** The generator's address rule, character by character, and its agreement with the validator's. */
  lemma AddressRule(s: string)
    ensures IsValidAddress(s) <==>
      |s| == 42 && s[0] == '0' && s[1] == 'x' && forall i | 2 <= i < 42 :: IsHexDigit(s[i])
    ensures IsValidAddress(s) <==> ConfigManager.IsValidAddress(JStr(s))
  {
    if |s| == 42 && s[0] == '0' && s[1] == 'x' {
      assert s[..2] == "0x";
      assert forall i | 2 <= i < 42 :: s[i] == s[2..][i - 2];
    }
  }

  /**
   * `isValidNumber` as the source writes it: `parseFloat` reads a number, and it
   * is not negative. `parseFloat` stops at the first character it cannot use, so
   * `"1e3"`, `"2 ETH"` and `"Infinity"` all pass.
   */
  predicate IsValidNumberAsWritten(s: string) { ParsesAsNonNegativeFloat(s) }

  /** `isValidNumber` as the rest of the tool reads a native amount: hexadecimal, or a plain decimal numeral. */
  predicate IsValidNumber(s: string) { ConfigManager.IsNativeAmount(s) }

  /** The corrected rule only narrows the written one: every amount it admits, `parseFloat` admits too. */
  lemma ValidNumberIsAcceptedAsWritten(s: string)
    requires IsValidNumber(s)
    ensures IsValidNumberAsWritten(s)
  {
    if IsDecimalNumeral(s) {
      NumeralParsesAsFloat(s);
    } else {
      assert s[..2] == "0x" && s[0] == '0';
      DigitStartParses(s);
    }
  }

  /** An exponent form passes the written rule but is no native amount. */
  lemma ExponentFormSlipsThrough()
    ensures IsValidNumberAsWritten("1e3")
    ensures !IsValidNumber("1e3")
  {
    var s := "1e3";
    assert TrimStart(s) == s;
    assert s[..2] != "0x" by { assert s[..2][1] == 'e'; }
    assert !AllDigits(s) by { assert !IsDigit(s[1]); }
    assert IndexOf(s, '.') == 3 by { IndexOfAbsent(s, '.'); }
  }

  /** Why a builder refused its input; each is one of the source's `throw`s. */
  datatype BuildError =
    | BadTo               // the recipient address
    | BadValue            // the native amount
    | BadContract         // the token or target contract address
    | BadSpender          // the approved spender address
    | BadAmount           // the token amount
    | BadDecimals         // the decimals answer
    | DataNotHexPrefixed  // raw data without `0x`
    | BadData             // raw data with a non-hexadecimal character

  /**
   * The decimals answer: empty means 18; otherwise `parseInt` must give a number
   * from 0 to 18. `parseInt` reads a prefix, so `"6.5"` means 6 and `"0x10"` 16.
   */
  function DecimalsInput(s: string): (r: Result<nat, BuildError>)
    ensures s == [] ==> r == Ok(18)
    ensures s != [] ==> (r.Ok? <==> ParseInt(s).Some? && 0 <= ParseInt(s).value <= 18)
    ensures r.Ok? ==> r.value <= 18
    ensures r.Ok? && s != [] ==> ParseInt(s) == Some(r.value as int)
    ensures r.Err? ==> r.error == BadDecimals
  {
    if s == [] then Ok(18)
    else match ParseInt(s)
      case None => Err(BadDecimals)
      case Some(d) => if d < 0 || d > 18 then Err(BadDecimals) else Ok(d)
  }

  /** A plain string of digits is taken at its value when it is at most 18, and refused otherwise. */
  lemma DecimalsOfDigits(s: string)
    requires |s| > 0 && AllDigits(s)
    ensures DecimalsInput(s) == if DecimalValue(s) <= 18 then Ok(DecimalValue(s)) else Err(BadDecimals)
  {
    ParseIntOfDigits(s);
  }

  /** `parseInt` reads only a prefix: a fractional answer is cut at its point. */
  lemma DecimalsCutAtPoint(s: string)
    requires s == "6.5"
    ensures DecimalsInput(s) == Ok(6)
  {
    assert s[1..] == ".5" && !IsDigit(s[1]);
    assert DigitPrefix(s[1..]) == [];
    assert DigitPrefix(s) == "6";
    assert s[..2] != "0x" && s[..2] != "0X" by { assert s[..2][1] == '.'; }
    assert DecimalValue("6") == 6;
  }

  /** A negative answer is read as a number and refused by the range check, a non-numeric one as `NaN`. */
  lemma DecimalsRefused(minus: string, letter: string)
    requires minus == "-1" && letter == "x"
    ensures ParseInt(minus) == Some(-1) && DecimalsInput(minus) == Err(BadDecimals)
    ensures ParseInt(letter) == None && DecimalsInput(letter) == Err(BadDecimals)
  {
    assert minus[1..] == "1";
    assert DigitPrefix("1") == "1";
    assert DecimalValue("1") == 1;
    assert DigitPrefix(letter) == [];
  }

  // ------------------------------------------------------------ amount conversion

  /**
   * The amount in the token's smallest unit, `"0x"` and lowercase hexadecimal:
   * the numeral times 10^d, truncated, computed exactly on its digits.
   */
  function MinorUnits(value: string, d: nat): (r: string)
    requires IsDecimalNumeral(value)
    ensures IsHexQuantity(r) && HexValue(r[2..]) == Scale(ParseNumeral(value).value, d)
    ensures forall i | 2 <= i < |r| :: !('A' <= r[i] <= 'F')
  {
    var h := ToHex(Scale(ParseNumeral(value).value, d));
    HexValueOfToHex(Scale(ParseNumeral(value).value, d));
    NoUpperHex(Scale(ParseNumeral(value).value, d));
    assert ("0x" + h)[2..] == h;
    "0x" + h
  }

  lemma {:induction false} NoUpperHex(n: nat)
    ensures forall i | 0 <= i < |ToHex(n)| :: !('A' <= ToHex(n)[i] <= 'F')
  {
    if n >= 16 {
      NoUpperHex(n / 16);
    }
  }

  /**
   * The converted amount is floor(amount × 10^d): with the amount written as
   * Digits / 10^|frac|, the result `m` is the one integer with
   * m × 10^|frac| ≤ Digits × 10^d < (m + 1) × 10^|frac|, and it is exact when
   * the amount has at most d fraction digits.
   */
  lemma MinorUnitsIsFloor(value: string, d: nat)
    requires IsDecimalNumeral(value)
    ensures var n := ParseNumeral(value).value;
      var m := HexValue(MinorUnits(value, d)[2..]);
      m * Pow(10, |n.frac|) <= Digits(n) * Pow(10, d) < (m + 1) * Pow(10, |n.frac|)
    ensures var n := ParseNumeral(value).value;
      |n.frac| <= d ==> HexValue(MinorUnits(value, d)[2..]) * Pow(10, |n.frac|) == Digits(n) * Pow(10, d)
  {
    var n := ParseNumeral(value).value;
    ScaleIsFloor(n, d);
    if |n.frac| <= d {
      ScaleShortFraction(n, d);
    }
  }

  /** 1.5 tokens of 18 decimals are 0x14d1120d7b160000 units. */
  lemma OnePointFiveTokens(value: string, d: nat)
    requires value == "1.5" && d == 18
    ensures IsDecimalNumeral(value) && MinorUnits(value, d) == "0x" + "14d1120d7b160000"
  {
    var n := Numeral("1", "5");
    assert Text(n) == "1.5";
    ParseNumeralOfText(n);
    OnePointFiveDigits(n);
    ScaleOneFractionDigit(n, d, 15);
    Pow10Of18();
    assert Pow(10, 18) == 10 * Pow(10, 17);
    HexOnePointFive(Scale(n, d), 0x14d1);
  }

  lemma OnePointFiveDigits(n: Numeral)
    requires n == Numeral("1", "5")
    ensures WellFormed(n) && |n.frac| == 1 && Digits(n) == 15
  {
    assert n.whole + n.frac == "15";
    assert "15"[..1] == "1" && "1"[..0] == "";
  }

  /** A numeral with one fraction digit and digits D, scaled by 10^d for d >= 1, is D × 10^(d-1). */
  lemma ScaleOneFractionDigit(n: Numeral, d: nat, digits: nat)
    requires WellFormed(n) && |n.frac| == 1 && Digits(n) == digits && d >= 1
    ensures Scale(n, d) == digits * Pow(10, d - 1)
  {
    ScaleShortFraction(n, d);
    assert Pow(10, |n.frac|) == 10;
    assert Pow(10, d) == 10 * Pow(10, d - 1);
    CancelTen(Scale(n, d), digits, Pow(10, d - 1));
  }

  lemma CancelTen(s: nat, x: nat, p: nat)
    requires s * 10 == x * (10 * p)
    ensures s == x * p
  {
    assert x * (10 * p) == (x * p) * 10;
  }

  lemma HexOnePointFive(n: nat, b: nat)
    requires b == 0x14d1 && n == ((b * 0x10000 + 0x120d) * 0x10000 + 0x7b16) * 0x10000
    ensures ToHex(n) == "14d1120d7b160000"
  {
    var q, t := b, "14d1";
    LeadingHex(q);
    HexStep120d(q, t); q, t := q * 0x10000 + 0x120d, t + "120d";
    HexStep7b16(q, t); q, t := q * 0x10000 + 0x7b16, t + "7b16";
    HexStep0000(q, t); q, t := q * 0x10000, t + "0000";
    assert t == "14d1120d7b160000";
  }

  lemma LeadingHex(b: nat)
    requires b == 0x14d1
    ensures ToHex(b) == "14d1"
  {
    assert Pow(16, 3) == 0x1000 && Pow(16, 4) == 0x10000;
    ToHexPadded(b, 4);
    PaddedHex4(b);
  }

  lemma HexStep120d(q: nat, t: string)
    requires q > 0 && ToHex(q) == t
    ensures ToHex(q * 0x10000 + 0x120d) == t + "120d"
  {
    HexDigits120d(0x120d);
    HexGroup(q, 0x120d, t, "120d");
  }

  lemma HexStep7b16(q: nat, t: string)
    requires q > 0 && ToHex(q) == t
    ensures ToHex(q * 0x10000 + 0x7b16) == t + "7b16"
  {
    HexDigits7b16(0x7b16);
    HexGroup(q, 0x7b16, t, "7b16");
  }

  lemma HexStep0000(q: nat, t: string)
    requires q > 0 && ToHex(q) == t
    ensures ToHex(q * 0x10000) == t + "0000"
  {
    HexDigits0000(0);
    HexGroup(q, 0, t, "0000");
  }

  lemma HexDigits120d(r: nat) requires r == 0x120d ensures PaddedHex(r, 4) == "120d" { PaddedHex4(r); }
  lemma HexDigits7b16(r: nat) requires r == 0x7b16 ensures PaddedHex(r, 4) == "7b16" { PaddedHex4(r); }
  lemma HexDigits0000(r: nat) requires r == 0 ensures PaddedHex(r, 4) == "0000" { PaddedHex4(r); }

  /** 10.52 tokens of 6 decimals are 0xa085c0 units. */
  lemma TenPointFiftyTwoTokens(value: string, d: nat)
    requires value == "10.52" && d == 6
    ensures IsDecimalNumeral(value) && MinorUnits(value, d) == "0x" + "a085c0"
  {
    var n := Numeral("10", "52");
    assert Text(n) == "10.52";
    ParseNumeralOfText(n);
    ScaleTenPointFiftyTwo(n, d);
    HexTenPointFiftyTwo(Scale(n, d), 0xa0);
  }

  lemma ScaleTenPointFiftyTwo(n: Numeral, d: nat)
    requires n == Numeral("10", "52") && d == 6
    ensures WellFormed(n) && Scale(n, d) == 1052 * 10_000
  {
    ScaleShortFraction(n, d);
    TenFiftyTwoDigits(n);
    assert Pow(10, 2) == 100 && Pow(10, 6) == 1_000_000;
  }

  lemma TenFiftyTwoDigits(n: Numeral)
    requires n == Numeral("10", "52")
    ensures WellFormed(n) && Digits(n) == 1052
  {
    assert n.whole + n.frac == "1052";
    assert "1052"[..3] == "105" && "105"[..2] == "10" && "10"[..1] == "1" && "1"[..0] == "";
  }

  /** Appending four hexadecimal digits: the rendering of q * 16^4 + r is q's followed by r's four digits. */
  lemma HexGroup(q: nat, r: nat, tq: string, tr: string)
    requires q > 0 && r < 0x10000 && ToHex(q) == tq && PaddedHex(r, 4) == tr
    ensures ToHex(q * 0x10000 + r) == tq + tr
  {
    assert Pow(16, 4) == 0x10000;
    ToHexShift(q, r, 4);
  }

  lemma HexDigits85c0(r: nat) requires r == 0x85c0 ensures PaddedHex(r, 4) == "85c0" { PaddedHex4(r); }

  lemma HexTenPointFiftyTwo(n: nat, b: nat)
    requires b == 0xa0 && n == b * 0x10000 + 0x85c0
    ensures ToHex(n) == "a085c0"
  {
    assert ToHex(b) == "a0";
    HexDigits85c0(0x85c0);
    HexGroup(b, 0x85c0, "a0", "85c0");
  }

  // ------------------------------------------------------------ the records

  /** The `id` of a record: its kind's prefix followed by the `Date.now()` reading, in decimal. */
  function Id(prefix: string, now: nat): Json { JStr(prefix + ToDecimal(now)) }

  function EthRecord(to: string, value: string, now: nat): Json
  {
    JObj(map[
      "id" := Id("eth_transfer_", now),
      "type" := JStr("ETH_TRANSFER"),
      "to" := JStr(to),
      "value" := JStr(value),
      "data" := JStr("0x")])
  }

  /** `getETHTransferConfig` with `isValidNumber` as written: the amount is kept as typed. */
  function EthTransferRecordAsWritten(to: string, value: string, now: nat): (r: Result<Json, BuildError>)
    ensures r.Ok? <==> IsValidAddress(to) && IsValidNumberAsWritten(value)
    ensures r.Ok? ==> r.value == EthRecord(to, value, now)
    ensures !IsValidAddress(to) ==> r == Err(BadTo)
  {
    if !IsValidAddress(to) then Err(BadTo)
    else if !IsValidNumberAsWritten(value) then Err(BadValue)
    else Ok(EthRecord(to, value, now))
  }

  /** `getETHTransferConfig`, with the amount rule the validator applies to a native transfer. */
  function EthTransferRecord(to: string, value: string, now: nat): (r: Result<Json, BuildError>)
    ensures r.Ok? <==> IsValidAddress(to) && IsValidNumber(value)
    ensures r.Ok? ==> r.value == EthRecord(to, value, now)
    ensures !IsValidAddress(to) ==> r == Err(BadTo)
    ensures IsValidAddress(to) && !IsValidNumber(value) ==> r == Err(BadValue)
  {
    if !IsValidAddress(to) then Err(BadTo)
    else if !IsValidNumber(value) then Err(BadValue)
    else Ok(EthRecord(to, value, now))
  }

  function Erc20Record(contract: string, to: string, rawValue: string, d: nat, now: nat): Json
  {
    JObj(map[
      "id" := Id("erc20_transfer_", now),
      "type" := JStr("ERC20_TRANSFER"),
      "contract" := JStr(contract),
      "to" := JStr(to),
      "value" := JStr("0"),
      "rawValue" := JStr(rawValue),
      "decimals" := JNum(d as real),
      "data" := JStr("0xa9059cbb")])
  }

  /** `getERC20TransferConfig`: the checks run on the contract, the recipient, the amount and then the decimals. */
  function Erc20TransferRecord(contract: string, to: string, value: string, decimals: string, now: nat)
    : (r: Result<Json, BuildError>)
    ensures r.Ok? <==> IsValidAddress(contract) && IsValidAddress(to) && IsDecimalNumeral(value) &&
                       DecimalsInput(decimals).Ok?
    ensures !IsValidAddress(contract) ==> r == Err(BadContract)
    ensures IsValidAddress(contract) && !IsValidAddress(to) ==> r == Err(BadTo)
    ensures IsValidAddress(contract) && IsValidAddress(to) && !IsDecimalNumeral(value) ==> r == Err(BadAmount)
    ensures (IsValidAddress(contract) && IsValidAddress(to) && IsDecimalNumeral(value) &&
             DecimalsInput(decimals).Err?) ==> r == Err(BadDecimals)
    ensures r.Ok? ==>
      var d := DecimalsInput(decimals).value;
      r.value == Erc20Record(contract, to, MinorUnits(value, d), d, now)
  {
    if !IsValidAddress(contract) then Err(BadContract)
    else if !IsValidAddress(to) then Err(BadTo)
    else if !IsDecimalNumeral(value) then Err(BadAmount)
    else match DecimalsInput(decimals)
      case Err(e) => Err(e)
      case Ok(d) => Ok(Erc20Record(contract, to, MinorUnits(value, d), d, now))
  }

  /** The human-readable ABI the approve record carries. */
  const ApproveAbi: Json := JArr([JStr("function approve(address spender, uint256 amount) external returns (bool)")])

  /** The approved amount as typed: empty means unlimited. */
  function FinalAmount(amount: string): (f: string)
    ensures amount == [] || IsDecimalNumeral(amount) ==> IsDecimalNumeral(f)
  {
    UnlimitedIsNumeral();
    if amount == [] then MaxAmountText else amount
  }

  /** The `rawAmount` of an approval: 2^256 - 1 read directly for the unlimited text, the converted amount otherwise. */
  function RawAmount(finalAmount: string, d: nat): (r: string)
    requires IsDecimalNumeral(finalAmount)
    ensures IsHexQuantity(r)
  {
    MaxAmountValue();
    if finalAmount == MaxAmountText then BigIntHex(finalAmount) else MinorUnits(finalAmount, d)
  }

  /** `"0x" + BigInt(text).toString(16)` for a string of decimal digits. */
  function BigIntHex(text: string): (r: string)
    requires AllDigits(text)
    ensures IsHexQuantity(r) && HexValue(r[2..]) == DecimalValue(text)
  {
    HexValueOfToHex(DecimalValue(text));
    "0x" + ToHex(DecimalValue(text))
  }

  /** The unlimited `rawAmount` is `0x` and sixty-four `f`s, which reads back as 2^256 - 1. */
  lemma UnlimitedRawAmountValue(finalAmount: string)
    requires finalAmount == MaxAmountText
    ensures AllDigits(finalAmount) && BigIntHex(finalAmount) == "0x" + Repeat('f', 64)
    ensures HexValue(BigIntHex(finalAmount)[2..]) == MaxUint256
  {
    MaxAmountValue();
    MaxUint256Hex();
  }

  function ApproveRecord(contract: string, spender: string, finalAmount: string, rawAmount: string, d: nat, now: nat): Json
  {
    JObj(map[
      "id" := Id("erc20_approve_", now),
      "type" := JStr("CONTRACT_CALL"),
      "contract" := JStr(contract),
      "function" := JStr("approve"),
      "args" := JArr([JStr(spender), JStr(finalAmount)]),
      "amount" := JStr(finalAmount),
      "rawAmount" := JStr(rawAmount),
      "decimals" := JNum(d as real),
      "value" := JStr("0"),
      "data" := JStr("0x095ea7b3"),
      "abi" := ApproveAbi])
  }

  /** `getERC20ApproveConfig`: an empty amount approves without limit; any other must be a numeral. */
  function Erc20ApproveRecord(contract: string, spender: string, amount: string, decimals: string, now: nat)
    : (r: Result<Json, BuildError>)
    ensures r.Ok? <==> IsValidAddress(contract) && IsValidAddress(spender) &&
                       (amount == [] || IsDecimalNumeral(amount)) && DecimalsInput(decimals).Ok?
    ensures !IsValidAddress(contract) ==> r == Err(BadContract)
    ensures IsValidAddress(contract) && !IsValidAddress(spender) ==> r == Err(BadSpender)
    ensures IsValidAddress(contract) && IsValidAddress(spender) && amount != [] && !IsDecimalNumeral(amount) ==>
            r == Err(BadAmount)
    ensures IsValidAddress(contract) && IsValidAddress(spender) && (amount == [] || IsDecimalNumeral(amount)) && DecimalsInput(decimals).Err? ==> r == Err(BadDecimals)
    ensures r.Ok? ==>
      var d := DecimalsInput(decimals).value;
      r.value == ApproveRecord(contract, spender, FinalAmount(amount), RawAmount(FinalAmount(amount), d), d, now)
  {
    if !IsValidAddress(contract) then Err(BadContract)
    else if !IsValidAddress(spender) then Err(BadSpender)
    else if amount != [] && !IsDecimalNumeral(amount) then Err(BadAmount)
    else
      var finalAmount := FinalAmount(amount);
      match DecimalsInput(decimals)
      case Err(e) => Err(e)
      case Ok(d) => Ok(ApproveRecord(contract, spender, finalAmount, RawAmount(finalAmount, d), d, now))
  }

  lemma UnlimitedIsNumeral()
    ensures IsDecimalNumeral(MaxAmountText)
  {
    MaxAmountValue();
    ParseNumeralOfText(Numeral(MaxAmountText, []));
  }

  /** `getRawCallConfig`: the data must start with `0x` and then hold only hexadecimal digits. */
  function RawCallRecord(contract: string, data: string, now: nat): (r: Result<Json, BuildError>)
    ensures r.Ok? <==> IsValidAddress(contract) && IsHexData(data)
    ensures !IsValidAddress(contract) ==> r == Err(BadContract)
    ensures IsValidAddress(contract) && !StartsWith(data, "0x") ==> r == Err(DataNotHexPrefixed)
    ensures IsValidAddress(contract) && StartsWith(data, "0x") && !IsHexData(data) ==> r == Err(BadData)
    ensures r.Ok? ==> Get(r.value, "data") == Some(JStr(data)) && Get(r.value, "value") == Some(JStr("0"))
  {
    if !IsValidAddress(contract) then Err(BadContract)
    else if !StartsWith(data, "0x") then Err(DataNotHexPrefixed)
    else if !IsHexData(data) then Err(BadData)
    else
      Ok(JObj(map[
        "id" := Id("raw_call_", now),
        "type" := JStr("RAW_CALL"),
        "contract" := JStr(contract),
        "data" := JStr(data),
        "value" := JStr("0")]))
  }

  // ------------------------------------------------------------ built records pass the validator

  /** A native transfer record built with the corrected rule passes `validateTransaction`, keeping `to` and `value` as given. */
  lemma EthRecordValidates(to: string, value: string, now: nat, index: nat)
    requires EthTransferRecord(to, value, now).Ok?
    ensures var rec := EthTransferRecord(to, value, now).value;
      ConfigManager.WellFormedAs(rec, ConfigManager.EthTransfer) &&
      ConfigManager.ValidateTransaction(rec, index) == Pass &&
      Get(rec, "to") == Some(JStr(to)) && Get(rec, "value") == Some(JStr(value)) && Get(rec, "data") == Some(JStr("0x"))
  {
    assert IsHexData("0x") by { assert "0x"[..2] == "0x"; }
  }

  /**
   * With `isValidNumber` as written, the generator writes native transfers the
   * validator then refuses: `"1e3"` builds a record whose `value` fails.
   */
  lemma AsWrittenEthRecordIsRejected(to: string, now: nat, index: nat)
    requires IsValidAddress(to)
    ensures EthTransferRecordAsWritten(to, "1e3", now).Ok?
    ensures ConfigManager.ValidateTransaction(EthTransferRecordAsWritten(to, "1e3", now).value, index) ==
            Fail(ConfigManager.AtTransaction(index, ConfigManager.BadValue))
    ensures EthTransferRecord(to, "1e3", now) == Err(BadValue)
  {
    ExponentFormSlipsThrough();
    var rec := EthRecord(to, "1e3", now);
    assert Get(rec, "type") == Some(JStr("ETH_TRANSFER"));
    ConfigManager.NativeValueRule(rec, index);
  }

  /** Where the corrected rule accepts, it builds the very record the written one does. */
  lemma CorrectedEthRecordAgrees(to: string, value: string, now: nat)
    requires EthTransferRecord(to, value, now).Ok?
    ensures EthTransferRecordAsWritten(to, value, now) == EthTransferRecord(to, value, now)
  {
    ValidNumberIsAcceptedAsWritten(value);
  }

  /** A token transfer record passes the validator, carrying `value` "0", the transfer selector and the converted amount. */
  lemma Erc20RecordValidates(contract: string, to: string, value: string, decimals: string, now: nat, index: nat)
    requires Erc20TransferRecord(contract, to, value, decimals, now).Ok?
    ensures var rec := Erc20TransferRecord(contract, to, value, decimals, now).value;
      var d := DecimalsInput(decimals).value;
      ConfigManager.WellFormedAs(rec, ConfigManager.Erc20Transfer) &&
      ConfigManager.ValidateTransaction(rec, index) == Pass &&
      Get(rec, "value") == Some(JStr("0")) && Get(rec, "data") == Some(JStr("0xa9059cbb")) &&
      Get(rec, "rawValue") == Some(JStr(MinorUnits(value, d))) &&
      Get(rec, "decimals") == Some(JNum(d as real))
  {
    var d := DecimalsInput(decimals).value;
    Erc20Shape(contract, to, MinorUnits(value, d), d, now);
  }

  lemma Erc20Shape(contract: string, to: string, rawValue: string, d: nat, now: nat)
    requires IsValidAddress(contract) && IsValidAddress(to) && IsHexQuantity(rawValue)
    ensures var rec := Erc20Record(contract, to, rawValue, d, now);
      ConfigManager.WellFormedAs(rec, ConfigManager.Erc20Transfer) &&
      Get(rec, "value") == Some(JStr("0")) && Get(rec, "data") == Some(JStr("0xa9059cbb")) &&
      Get(rec, "rawValue") == Some(JStr(rawValue)) && Get(rec, "decimals") == Some(JNum(d as real)) &&
      Get(rec, "to") == Some(JStr(to)) && Get(rec, "contract") == Some(JStr(contract))
  {
    assert IsHexData("0xa9059cbb") by { assert "0xa9059cbb"[..2] == "0x"; }
  }

  /** An approve record passes the validator as a `CONTRACT_CALL` with `value` "0" and the approve selector. */
  lemma ApproveRecordValidates(contract: string, spender: string, amount: string, decimals: string, now: nat, index: nat)
    requires Erc20ApproveRecord(contract, spender, amount, decimals, now).Ok?
    ensures var rec := Erc20ApproveRecord(contract, spender, amount, decimals, now).value;
      ConfigManager.WellFormedAs(rec, ConfigManager.ContractCall) &&
      ConfigManager.ValidateTransaction(rec, index) == Pass &&
      Get(rec, "function") == Some(JStr("approve")) &&
      Get(rec, "args") == Some(JArr([JStr(spender), JStr(FinalAmount(amount))])) &&
      Get(rec, "value") == Some(JStr("0")) && Get(rec, "data") == Some(JStr("0x095ea7b3"))
  {
    var d := DecimalsInput(decimals).value;
    ApproveShape(contract, spender, FinalAmount(amount), RawAmount(FinalAmount(amount), d), d, now);
  }

  lemma ApproveShape(contract: string, spender: string, finalAmount: string, rawAmount: string, d: nat, now: nat)
    requires IsValidAddress(contract)
    ensures var rec := ApproveRecord(contract, spender, finalAmount, rawAmount, d, now);
      ConfigManager.WellFormedAs(rec, ConfigManager.ContractCall) &&
      Get(rec, "function") == Some(JStr("approve")) &&
      Get(rec, "args") == Some(JArr([JStr(spender), JStr(finalAmount)])) &&
      Get(rec, "value") == Some(JStr("0")) && Get(rec, "data") == Some(JStr("0x095ea7b3"))
  {
    assert IsHexData("0x095ea7b3") by { assert "0x095ea7b3"[..2] == "0x"; }
  }

  /** A raw call record passes the validator. */
  lemma RawRecordValidates(contract: string, data: string, now: nat, index: nat)
    requires RawCallRecord(contract, data, now).Ok?
    ensures ConfigManager.WellFormedAs(RawCallRecord(contract, data, now).value, ConfigManager.RawCall)
    ensures ConfigManager.ValidateTransaction(RawCallRecord(contract, data, now).value, index) == Pass
  {
  }

  /**
   * An empty approve amount approves without limit, whatever the decimals: the
   * record's second argument is the decimal text of 2^256 - 1 and its `rawAmount`
   * is `0x` and sixty-four `f`s.
   */
  lemma UnlimitedApproval(contract: string, spender: string, decimals: string, now: nat)
    requires IsValidAddress(contract) && IsValidAddress(spender) && DecimalsInput(decimals).Ok?
    ensures Erc20ApproveRecord(contract, spender, "", decimals, now).Ok?
    ensures var rec := Erc20ApproveRecord(contract, spender, "", decimals, now).value;
      Get(rec, "args") == Some(JArr([JStr(spender), JStr(MaxAmountText)])) &&
      Get(rec, "rawAmount") == Some(JStr("0x" + Repeat('f', 64)))
  {
    var d := DecimalsInput(decimals).value;
    var f := FinalAmount("");
    UnlimitedRawAmountValue(f);
    assert RawAmount(f, d) == BigIntHex(f);
    ApproveFields(contract, spender, f, RawAmount(f, d), d, now);
  }

  lemma ApproveFields(contract: string, spender: string, finalAmount: string, rawAmount: string, d: nat, now: nat)
    ensures var rec := ApproveRecord(contract, spender, finalAmount, rawAmount, d, now);
      Get(rec, "args") == Some(JArr([JStr(spender), JStr(finalAmount)])) &&
      Get(rec, "rawAmount") == Some(JStr(rawAmount)) &&
      Get(rec, "decimals") == Some(JNum(d as real)) &&
      Get(rec, "abi") == Some(ApproveAbi) &&
      Get(rec, "function") == Some(JStr("approve"))
  {
  }

  /** Any other approved amount is converted like a transfer amount. */
  lemma ScaledApproval(contract: string, spender: string, amount: string, decimals: string, now: nat)
    requires Erc20ApproveRecord(contract, spender, amount, decimals, now).Ok?
    requires amount != [] && amount != MaxAmountText
    ensures Get(Erc20ApproveRecord(contract, spender, amount, decimals, now).value, "rawAmount") ==
            Some(JStr(MinorUnits(amount, DecimalsInput(decimals).value)))
  {
  }

  // ------------------------------------------------------------ built records through the call encoder

  /** The number of token units an approval record stands for. */
  function ApprovedUnits(finalAmount: string, d: nat): (n: nat)
    requires IsDecimalNumeral(finalAmount)
    ensures n == HexValue(RawAmount(finalAmount, d)[2..])
  {
    if finalAmount == MaxAmountText then
      UnlimitedRawAmountValue(finalAmount);
      MaxUint256
    else Scale(ParseNumeral(finalAmount).value, d)
  }

  /** A token transfer record becomes `(contract, 0, transfer(to, units))`, provided the units fit in `uint256`. */
  lemma Erc20RecordCall(contract: string, to: string, value: string, decimals: string, now: nat, coder: Abi.AbiCoder)
    requires Erc20TransferRecord(contract, to, value, decimals, now).Ok?
    ensures var units := Scale(ParseNumeral(value).value, DecimalsInput(decimals).value);
      Sponsored.EncodeTransaction(Erc20TransferRecord(contract, to, value, decimals, now).value, coder) ==
        if units <= MaxUint256 then
          Ok(Some(Sponsored.Call(Some(JStr(contract)), 0, JStr(Abi.TransferCalldata(JStr(to), units).value))))
        else Err(Sponsored.TransferEncoding)
  {
    var d := DecimalsInput(decimals).value;
    Erc20Call(contract, to, MinorUnits(value, d), d, now, coder);
  }

  lemma Erc20Call(contract: string, to: string, rawValue: string, d: nat, now: nat, coder: Abi.AbiCoder)
    requires IsValidAddress(contract) && IsValidAddress(to) && IsHexQuantity(rawValue)
    ensures var units := HexValue(rawValue[2..]);
      Sponsored.EncodeTransaction(Erc20Record(contract, to, rawValue, d, now), coder) ==
        if units > MaxUint256 then Err(Sponsored.TransferEncoding)
        else if d > 80 then Err(Sponsored.DisplayUnits)
        else Ok(Some(Sponsored.Call(Some(JStr(contract)), 0, JStr(Abi.TransferCalldata(JStr(to), units).value))))
  {
    var rec := Erc20Record(contract, to, rawValue, d, now);
    Erc20Shape(contract, to, rawValue, d, now);
    assert (d as real).Floor == d;
    assert Sponsored.RefusedDisplayDecimals(rec) <==> d > 80;
    Sponsored.TokenTransferCall(rec, coder);
  }

  /**
   * An approve record, given an ABI coder that reads `approve` as `(address,
   * uint256)`, is encoded from the spender passed through and the `rawAmount`
   * units in place of the typed amount.
   */
  lemma ApproveRecordCall(contract: string, spender: string, amount: string, decimals: string, now: nat,
                          coder: Abi.AbiCoder)
    requires Erc20ApproveRecord(contract, spender, amount, decimals, now).Ok?
    requires coder.parses(ApproveAbi)
    requires coder.inputTypes(ApproveAbi, Some(JStr("approve"))) == Some(["address", "uint256"])
    ensures var units := ApprovedUnits(FinalAmount(amount), DecimalsInput(decimals).value);
      var args := [Abi.Plain(JStr(spender)), Abi.Big(units)];
      Sponsored.EncodeTransaction(Erc20ApproveRecord(contract, spender, amount, decimals, now).value, coder) ==
        match coder.encode(ApproveAbi, Some(JStr("approve")), args)
        case None => Err(Sponsored.CallEncoding)
        case Some(calldata) => Ok(Some(Sponsored.Call(Some(JStr(contract)), 0, JStr(calldata))))
  {
    var d := DecimalsInput(decimals).value;
    var finalAmount := FinalAmount(amount);
    ApproveCall(contract, spender, finalAmount, RawAmount(finalAmount, d), d, now, coder);
  }

  lemma ApproveCall(contract: string, spender: string, finalAmount: string, rawAmount: string, d: nat, now: nat,
                    coder: Abi.AbiCoder)
    requires IsValidAddress(contract) && IsValidAddress(spender) && IsDecimalNumeral(finalAmount)
    requires IsHexQuantity(rawAmount)
    requires coder.parses(ApproveAbi)
    requires coder.inputTypes(ApproveAbi, Some(JStr("approve"))) == Some(["address", "uint256"])
    ensures var args := [Abi.Plain(JStr(spender)), Abi.Big(HexValue(rawAmount[2..]))];
      Sponsored.EncodeTransaction(ApproveRecord(contract, spender, finalAmount, rawAmount, d, now), coder) ==
        match coder.encode(ApproveAbi, Some(JStr("approve")), args)
        case None => Err(Sponsored.CallEncoding)
        case Some(calldata) => Ok(Some(Sponsored.Call(Some(JStr(contract)), 0, JStr(calldata))))
  {
    var rec := ApproveRecord(contract, spender, finalAmount, rawAmount, d, now);
    ApproveShape(contract, spender, finalAmount, rawAmount, d, now);
    ApproveFields(contract, spender, finalAmount, rawAmount, d, now);
    assert TruthyAt(rec, "abi");
    assert Get(rec, "contract") == Some(JStr(contract));
    ApproveArgs(rec, spender, finalAmount, rawAmount, coder);
  }

  /** The approve arguments: the spender passes through, the amount is replaced by the `rawAmount` units. */
  lemma ApproveArgs(rec: Json, spender: string, finalAmount: string, rawAmount: string, coder: Abi.AbiCoder)
    requires IsValidAddress(spender) && IsDecimalNumeral(finalAmount) && IsHexQuantity(rawAmount)
    requires Get(rec, "function") == Some(JStr("approve")) && Get(rec, "rawAmount") == Some(JStr(rawAmount))
    requires coder.inputTypes(ApproveAbi, Some(JStr("approve"))) == Some(["address", "uint256"])
    ensures Sponsored.ProcessArgs(rec, ApproveAbi, coder, [JStr(spender), JStr(finalAmount)], 0) ==
            Ok([Abi.Plain(JStr(spender)), Abi.Big(HexValue(rawAmount[2..]))])
  {
    var items := [JStr(spender), JStr(finalAmount)];
    var big := Abi.Big(HexValue(rawAmount[2..]));
    SpenderArg(rec, spender, coder);
    AmountArg(rec, finalAmount, rawAmount, coder);
    assert items[0] == JStr(spender) && items[1] == JStr(finalAmount);
    assert Sponsored.ProcessArgs(rec, ApproveAbi, coder, items, 2) == Ok([]);
    assert Sponsored.ProcessArgs(rec, ApproveAbi, coder, items, 1) == Ok([big] + []);
    assert [big] + [] == [big];
    assert [Abi.Plain(JStr(spender))] + [big] == [Abi.Plain(JStr(spender)), big];
  }

  lemma SpenderArg(rec: Json, spender: string, coder: Abi.AbiCoder)
    requires IsValidAddress(spender)
    ensures Sponsored.ProcessArg(rec, ApproveAbi, coder, JStr(spender), 0) == Ok(Abi.Plain(JStr(spender)))
  {
    assert spender[..2] == "0x";
  }

  lemma AmountArg(rec: Json, finalAmount: string, rawAmount: string, coder: Abi.AbiCoder)
    requires IsDecimalNumeral(finalAmount) && IsHexQuantity(rawAmount)
    requires Get(rec, "function") == Some(JStr("approve")) && Get(rec, "rawAmount") == Some(JStr(rawAmount))
    requires coder.inputTypes(ApproveAbi, Some(JStr("approve"))) == Some(["address", "uint256"])
    ensures Sponsored.ProcessArg(rec, ApproveAbi, coder, JStr(finalAmount), 1) == Ok(Abi.Big(HexValue(rawAmount[2..])))
  {
    NumeralHasNoHexPrefix(finalAmount);
    NumeralParsesAsFloat(finalAmount);
    assert Sponsored.IsNumericString(JStr(finalAmount));
    GetBigIntOfHex(rawAmount);
    assert TruthyAt(rec, "rawAmount") by { assert rawAmount[0] == '0'; }
  }

  /** A raw call record becomes `(contract, 0, data)` with the data exactly as typed. */
  lemma RawRecordCall(contract: string, data: string, now: nat, coder: Abi.AbiCoder)
    requires RawCallRecord(contract, data, now).Ok?
    ensures Sponsored.EncodeTransaction(RawCallRecord(contract, data, now).value, coder) ==
            Ok(Some(Sponsored.Call(Some(JStr(contract)), 0, JStr(data))))
  {
    Sponsored.RawCallIsVerbatim(RawCallRecord(contract, data, now).value, coder);
  }

  // ------------------------------------------------------------ getTransactionDescription

  /**
   * Template interpolation `${v}` of a JSON value. Integral numbers below 10^21
   * in magnitude print as plain decimals; other numbers use `numberText`, the
   * shortest-round-trip rendering of JavaScript left abstract.
   */
  function Show(v: Json, numberText: real -> string): string
    decreases v, 1
  {
    match v
    case JNull => "null"
    case JBool(b) => if b then "true" else "false"
    case JNum(n) => ShowNumber(n, numberText)
    case JStr(s) => s
    case JArr(items) => Join(items, numberText)
    case JObj(_) => "[object Object]"
  }

  /** `Array.prototype.toString`: the elements joined by commas, `null` elements as empty text. */
  function Join(items: seq<Json>, numberText: real -> string): string
    decreases items, 0
  {
    if items == [] then []
    else
      var head := if items[0].JNull? then [] else Show(items[0], numberText);
      if |items| == 1 then head else head + "," + Join(items[1..], numberText)
  }

  /** Integers below 10^21 in magnitude are the numbers JavaScript prints as plain decimals. */
  const PlainIntegerLimit: nat := 1_000_000_000_000_000_000_000

  function ShowNumber(n: real, numberText: real -> string): (s: string)
    ensures n == n.Floor as real && 0.0 <= n < 1_000_000_000_000_000_000_000.0 ==> s == ToDecimal(n.Floor)
  {
    if n == n.Floor as real && -1_000_000_000_000_000_000_000.0 < n < 1_000_000_000_000_000_000_000.0 then
      if n < 0.0 then "-" + ToDecimal(-n.Floor) else ToDecimal(n.Floor)
    else numberText(n)
  }

  /** `${v}` of a property read, where `undefined` prints as such. */
  function Interpolate(v: Option<Json>, numberText: real -> string): string
  {
    match v
    case None => "undefined"
    case Some(j) => Show(j, numberText)
  }

  /** `v.slice(0, 10)`: defined on strings and arrays; `None` where the call throws. */
  function Slice10(v: Option<Json>): (r: Option<Json>)
    ensures r.Some? <==> v.Some? && (v.value.JStr? || v.value.JArr?)
    ensures v.Some? && v.value.JStr? ==>
      r.value.JStr? && r.value.s <= v.value.s && |r.value.s| == if |v.value.s| < 10 then |v.value.s| else 10
  {
    match v
    case Some(JStr(s)) => Some(JStr(s[..if |s| < 10 then |s| else 10]))
    case Some(JArr(items)) => Some(JArr(items[..if |items| < 10 then |items| else 10]))
    case _ => None
  }

  /** `v[i]` on a value other than `null` and `undefined`; `None` is `undefined`. */
  function Element(v: Json, i: nat): Option<Json>
  {
    match v
    case JArr(items) => if i < |items| then Some(items[i]) else None
    case JStr(s) => if i < |s| then Some(JStr([s[i]])) else None
    case JObj(_) => Get(v, ToDecimal(i))
    case _ => None
  }

  /**
   * `getTransactionDescription(tx)`. `None` is a `TypeError`: a `null` record, or
   * an address or argument list missing where the template reads it.
   */
  function Describe(tx: Json, numberText: real -> string): (r: Option<string>)
    ensures r.None? ==>
      (tx.JNull? || Get(tx, "type") in {Some(JStr("ETH_TRANSFER")), Some(JStr("ERC20_TRANSFER")), Some(JStr("CONTRACT_CALL"))})
    ensures !tx.JNull? && Get(tx, "type") == Some(JStr("RAW_CALL")) ==> r == Some("执行原始调用数据")
    ensures !tx.JNull? && ConfigManager.KindOf(if Get(tx, "type").Some? then Get(tx, "type").value else JNull).None? ==>
      r == Some("未知交易类型")
  {
    if tx.JNull? then None
    else
      var ty := Get(tx, "type");
      if ty == Some(JStr("ETH_TRANSFER")) then
        match Slice10(Get(tx, "to"))
        case None => None
        case Some(to) => Some("向" + Show(to, numberText) + "...转账" + Interpolate(Get(tx, "value"), numberText) + " ETH")
      else if ty == Some(JStr("ERC20_TRANSFER")) then
        match Slice10(Get(tx, "to"))
        case None => None
        case Some(to) =>
          Some("转账" + Interpolate(Get(tx, "value"), numberText) + " 代币给" + Show(to, numberText) + "... (" +
               Interpolate(Get(tx, "decimals"), numberText) + "位小数)")
      else if ty == Some(JStr("CONTRACT_CALL")) then
        if Get(tx, "function") == Some(JStr("approve")) then
          match Get(tx, "args")
          case None => None
          case Some(args) =>
            if args.JNull? then None
            else
              var first := Element(args, 0);
              if first.Some? && first.value.JNull? then None
              else match Slice10(first)
                case None => None
                case Some(spender) =>
                  Some("授权" + Interpolate(Element(args, 1), numberText) + " 代币给" + Show(spender, numberText) + "... (" +
                       Interpolate(Get(tx, "decimals"), numberText) + "位小数)")
        else Some("调用" + Interpolate(Get(tx, "function"), numberText) + "函数")
      else if ty == Some(JStr("RAW_CALL")) then Some("执行原始调用数据")
      else Some("未知交易类型")
  }

  /** The description of a native transfer record names the first ten characters of `to` and the amount. */
  lemma DescribeEthRecord(to: string, value: string, now: nat, numberText: real -> string)
    requires EthTransferRecord(to, value, now).Ok?
    ensures Describe(EthTransferRecord(to, value, now).value, numberText) == Some("向" + to[..10] + "...转账" + value + " ETH")
  {
  }

  /** The description of a token transfer record names the recipient, the amount written as "0", and the decimals. */
  lemma DescribeErc20Record(contract: string, to: string, value: string, decimals: string, now: nat,
                            numberText: real -> string)
    requires Erc20TransferRecord(contract, to, value, decimals, now).Ok?
    ensures Describe(Erc20TransferRecord(contract, to, value, decimals, now).value, numberText) ==
      Some("转账" + "0" + " 代币给" + to[..10] + "... (" + ToDecimal(DecimalsInput(decimals).value) + "位小数)")
  {
    var d := DecimalsInput(decimals).value;
    DescribeErc20Shape(contract, to, MinorUnits(value, d), d, now, numberText);
  }

  lemma DescribeErc20Shape(contract: string, to: string, rawValue: string, d: nat, now: nat, numberText: real -> string)
    requires |to| >= 10 && d < PlainIntegerLimit
    ensures Describe(Erc20Record(contract, to, rawValue, d, now), numberText) ==
      Some("转账" + "0" + " 代币给" + to[..10] + "... (" + ToDecimal(d) + "位小数)")
  {
    var rec := Erc20Record(contract, to, rawValue, d, now);
    assert Get(rec, "type") == Some(JStr("ERC20_TRANSFER"));
    assert Get(rec, "to") == Some(JStr(to));
    assert Interpolate(Get(rec, "value"), numberText) == "0";
    ShowDecimals(d, numberText);
    assert Interpolate(Get(rec, "decimals"), numberText) == ToDecimal(d);
  }

  /** A decimals count interpolates as its decimal digits. */
  lemma ShowDecimals(d: nat, numberText: real -> string)
    requires d < PlainIntegerLimit
    ensures Interpolate(Some(JNum(d as real)), numberText) == ToDecimal(d)
  {
    assert (d as real).Floor == d;
  }

  /** The description of an approve record names the typed (or unlimited) amount, the spender and the decimals. */
  lemma DescribeApproveRecord(contract: string, spender: string, amount: string, decimals: string, now: nat,
                              numberText: real -> string)
    requires Erc20ApproveRecord(contract, spender, amount, decimals, now).Ok?
    ensures Describe(Erc20ApproveRecord(contract, spender, amount, decimals, now).value, numberText) ==
      Some("授权" + FinalAmount(amount) + " 代币给" + spender[..10] + "... (" + ToDecimal(DecimalsInput(decimals).value) + "位小数)")
  {
    var d := DecimalsInput(decimals).value;
    var finalAmount := FinalAmount(amount);
    DescribeApproveShape(contract, spender, finalAmount, RawAmount(finalAmount, d), d, now, numberText);
  }

  lemma DescribeApproveShape(contract: string, spender: string, finalAmount: string, rawAmount: string, d: nat, now: nat,
                             numberText: real -> string)
    requires |spender| >= 10 && d < PlainIntegerLimit
    ensures Describe(ApproveRecord(contract, spender, finalAmount, rawAmount, d, now), numberText) ==
      Some("授权" + finalAmount + " 代币给" + spender[..10] + "... (" + ToDecimal(d) + "位小数)")
  {
    var rec := ApproveRecord(contract, spender, finalAmount, rawAmount, d, now);
    ApproveFields(contract, spender, finalAmount, rawAmount, d, now);
    assert Get(rec, "type") == Some(JStr("CONTRACT_CALL"));
    DescribeApproveCall(rec, spender, finalAmount, d, numberText);
  }

  /** Any `approve` call record with two string arguments and a decimals count is described by those three. */
  lemma DescribeApproveCall(rec: Json, spender: string, finalAmount: string, d: nat, numberText: real -> string)
    requires |spender| >= 10 && d < PlainIntegerLimit
    requires Get(rec, "type") == Some(JStr("CONTRACT_CALL")) && Get(rec, "function") == Some(JStr("approve"))
    requires Get(rec, "args") == Some(JArr([JStr(spender), JStr(finalAmount)]))
    requires Get(rec, "decimals") == Some(JNum(d as real))
    ensures Describe(rec, numberText) ==
      Some("授权" + finalAmount + " 代币给" + spender[..10] + "... (" + ToDecimal(d) + "位小数)")
  {
    var args := JArr([JStr(spender), JStr(finalAmount)]);
    assert Element(args, 0) == Some(JStr(spender));
    assert Element(args, 1) == Some(JStr(finalAmount));
    assert Slice10(Element(args, 0)) == Some(JStr(spender[..10]));
    ShowDecimals(d, numberText);
  }

  /** A raw call record is described without reference to its fields. */
  lemma DescribeRawRecord(contract: string, data: string, now: nat, numberText: real -> string)
    requires RawCallRecord(contract, data, now).Ok?
    ensures Describe(RawCallRecord(contract, data, now).value, numberText) == Some("执行原始调用数据")
  {
  }
}

# EIP-7702 sponsored batch tool: batch preparation, modelled in Dafny

The tool lets a sponsor pay for a batch of calls that an EIP-7702-delegated
account (an EOA) executes. Before anything reaches the network, the batch goes
through three stages, and this project models all three.

1. **The batch-configuration validator** (`ConfigManager` in
   `lib/config-manager.js`). It takes a parsed JSON configuration and either
   accepts it or throws the first error, naming the failing transaction's
   index. The transaction kinds are `ETH_TRANSFER`, `ERC20_TRANSFER`,
   `CONTRACT_CALL` and `RAW_CALL`. The model is a total function
   (`ConfigManager.ValidateConfig`) that mirrors the source's sequence of
   throws. Each check is proved equal to an independent, declarative
   description of a well-formed configuration (`WellFormedConfig`,
   `WellFormedAs`).
2. **The call-list builder and the signing preimage** (`src/sponsored.js`).
   - The `forEach` of `sendSponsoredTransaction` turns each transaction into a
     `(target, value, data)` triple and pushes it onto `calls`. It is a method
     with a loop (`Sponsored.BuildCalls`), proved against a reference function
     over prefixes of the list.
   - The loop of `createSignatureForCalls` hex-concatenates the calls in
     Solidity's non-standard packed mode (`abi.encodePacked`). It is
     `Digest.EncodeCalls`. The preimage is the 32-byte nonce followed by the
     packed calls. keccak256 and the EOA's signing are function parameters.
   - Two pure helpers are modelled as well: the EIP-7702 delegation-designator
     parse of `checkDelegationStatus` (code `0xef0100 ‖ address`), and
     `getChainName`.
3. **The configuration generator's record builders** (`src/generate-config.js`).
   With the prompts removed, each builder is a function from the (trimmed)
   answers to either a rejection or the record it writes. The model includes:
   - the address and number checks;
   - the decimals default (18) and its range (0..18);
   - the exact decimal-to-minor-unit conversion to `0x` lowercase hex;
   - the unlimited-approval amount 2^256 - 1;
   - the fixed transfer and approve record shapes;
   - `getTransactionDescription`.

   The lemmas follow each built record through the validator and the encoder.
   Two worked values are proved: "1.5" with 18 decimals is
   `0x14d1120d7b160000`, and "10.52" with 6 decimals is `0xa085c0`
   (10,520,000 units).

Modules, one per file:
- `Wrappers`: `Option`, `Result`, `Outcome`.
- `Json`: JSON values, property reads and JavaScript truthiness.
- `Hex`: character classes, decimal and hex numerals, big-endian bytes.
- `Amounts`: the numeral grammar, exact scaling, and models of ethers'
  `parseUnits`/`getBigInt` and JavaScript's `parseInt`/`parseFloat` acceptance.
- `Abi`: the `(address, uint256)` calldata, and an abstract `AbiCoder` for
  every other function.
- `ConfigManager`, `Sponsored`, `Digest`, `Chain`, `GenerateConfig`: the
  source's own units.
- `MaxAmount`: the proof that the generator's 78-digit constant is 2^256 - 1.

Integers are unbounded; `uint256` range checks are written out explicitly.
Strings are `seq<char>`, and bytes are the subset type `byte` of the integers 0 to 255.

## Model

| member | source | states |
|---|---|---|
| ConfigManager.ValidateConfig | lib/config-manager.js:47-70 | accepts exactly the well-formed configurations; a per-transaction rejection names an index whose transaction is malformed, every earlier one is well formed, and the error is that transaction's own |
| ConfigManager.WellFormedConfig | lib/config-manager.js:47-70 | the declarative reference for a valid configuration (no contract of its own): `ValidateConfig` passes exactly on it |
| ConfigManager.RejectsWithoutTransactions | lib/config-manager.js:48-59 | a missing or falsy `transactions` is rejected as missing; one that is not an array, or is empty, is rejected as not a non-empty array |
| ConfigManager.AllTransactionsChecked | lib/config-manager.js:62-64 | the `forEach` passes iff every transaction from the start index on is well formed |
| ConfigManager.FirstFailureReported | lib/config-manager.js:62-64 | a failing batch reports the first malformed transaction's index, with the error `validateTransaction` gives for it |
| ConfigManager.FirstTransactionDecides | lib/config-manager.js:62-64 | a malformed first transaction makes the configuration fail at index 0, whatever follows |
| ConfigManager.ValidateTransaction | lib/config-manager.js:77-191 | passes iff the transaction is well formed for one of the four kinds; every failure carries the index it was called with |
| ConfigManager.WellFormedAs | lib/config-manager.js:77-191 | the declarative reference for a valid transaction of each kind (no contract of its own): `ValidateTransaction` passes exactly when it holds for some kind, and the builders' records are proved to meet it |
| ConfigManager.KindOf | lib/config-manager.js:100-137 | the `switch` recognises a kind exactly when `type` is that kind's string, and recognises none otherwise |
| ConfigManager.UniformChecksFirst | lib/config-manager.js:79-137 | the shared checks come in source order, each with its own reason: missing `type`, missing `value`, missing `data`, non-string `value`, then an unknown `type` |
| ConfigManager.NativeValueRule | lib/config-manager.js:101-106 | an `ETH_TRANSFER` value is rejected iff it matches neither `^0x[0-9a-fA-F]+$` nor `^\d+(\.\d+)?$` |
| ConfigManager.NonNativeValueMustBeZero | lib/config-manager.js:108-133 | for the other three kinds any value but the exact string "0" is rejected, so "0.0" and "0x0" are too |
| ConfigManager.ValidateGasSettings | lib/config-manager.js:197-211 | passes iff the settings are an object whose truthy `gasLimit` is a positive number and whose truthy `gasPrice` is a hex quantity |
| ConfigManager.GasLimitIntegralityUnchecked | lib/config-manager.js:203-209 | `gasLimit` 1.5 passes, -1 fails, and a `gasPrice` of bare "0x" fails |
| GenerateConfig.AddressRule | src/generate-config.js:35-37 | the generator's address test is `0x` followed by exactly 40 hex characters, and agrees with the validator's `isValidAddress` |
| GenerateConfig.IsValidAddress | src/generate-config.js:35-37 | the generator's address check (no contract of its own); `AddressRule` pins it to `0x` and 40 hex characters, the validator's rule |
| GenerateConfig.IsValidNumberAsWritten | src/generate-config.js:42-44 | `isValidNumber` as written (no contract of its own): the leading part reads as a non-negative `parseFloat` number; `ValidNumberIsAcceptedAsWritten`, `ExponentFormSlipsThrough` and `Amounts.DigitStartParses` pin it |
| GenerateConfig.ValidNumberIsAcceptedAsWritten | src/generate-config.js:42-44 | every amount the corrected rule admits is also admitted by the written `parseFloat` rule |
| GenerateConfig.ExponentFormSlipsThrough | src/generate-config.js:42-44 | "1e3" passes the written rule but is not a native amount |
| GenerateConfig.EthTransferRecordAsWritten | src/generate-config.js:95-119 | with `isValidNumber` as written, a record is built iff the address is valid and `parseFloat` reads a non-negative number; it keeps `to` and `value` as typed |
| GenerateConfig.EthTransferRecord | src/generate-config.js:95-119 | with the corrected amount rule, a record is built iff the address and the amount are valid; otherwise the address error comes first, then the amount error |
| GenerateConfig.AsWrittenEthRecordIsRejected | src/generate-config.js:105-118 | the written rule builds a record for "1e3" that `validateTransaction` rejects for its value; the corrected rule refuses it |
| GenerateConfig.CorrectedEthRecordAgrees | src/generate-config.js:105-118 | where the corrected rule accepts, it builds the same record as the written one |
| GenerateConfig.EthRecordValidates | src/generate-config.js:112-118 | a native transfer record passes the validator and carries `to` and `value` as given and `data` "0x" |
| GenerateConfig.DecimalsInput | src/generate-config.js:144-148 | an empty answer means 18; otherwise the answer is accepted iff `parseInt` reads a number from 0 to 18, which is its value |
| GenerateConfig.DecimalsOfDigits | src/generate-config.js:145-148 | a string of digits is taken at its value when at most 18 and refused otherwise |
| GenerateConfig.DecimalsCutAtPoint | src/generate-config.js:145 | `parseInt` reads a prefix: "6.5" means 6 decimals |
| GenerateConfig.DecimalsRefused | src/generate-config.js:145-148 | "-1" parses to -1 and is refused by the range check; "x" is NaN and refused |
| GenerateConfig.MinorUnits | src/generate-config.js:151-154 | the raw value is `0x` and lowercase hex digits whose value is the numeral scaled by 10^d and truncated |
| GenerateConfig.MinorUnitsIsFloor | src/generate-config.js:151-154 | the raw value m is floor(amount × 10^d): m × 10^f ≤ Digits × 10^d < (m+1) × 10^f, with equality when the amount has at most d fraction digits |
| GenerateConfig.OnePointFiveTokens | src/generate-config.js:151-154 | "1.5" with 18 decimals converts to `0x14d1120d7b160000` |
| GenerateConfig.TenPointFiftyTwoTokens | src/generate-config.js:151-154 | "10.52" with 6 decimals converts to `0xa085c0` |
| GenerateConfig.Erc20TransferRecord | src/generate-config.js:124-169 | a record is built iff the contract, the recipient, the amount and the decimals are all valid; each failure reports the first failing check, in source order; the record holds the converted amount |
| GenerateConfig.Erc20RecordValidates | src/generate-config.js:159-168 | a token transfer record passes the validator with `value` "0", `data` "0xa9059cbb", the converted `rawValue` and the decimals |
| GenerateConfig.Erc20Shape | src/generate-config.js:159-168 | for any valid addresses and hex raw value, the record's fields hold exactly those values and make a well-formed `ERC20_TRANSFER` |
| GenerateConfig.FinalAmount | src/generate-config.js:190-199 | whether the typed amount is empty or a numeral, the final amount is a plain numeral |
| GenerateConfig.RawAmount | src/generate-config.js:207-220 | the approve `rawAmount` is always `0x` followed by at least one hex digit |
| GenerateConfig.BigIntHex | src/generate-config.js:211 | `"0x" + BigInt(t).toString(16)` is a hex quantity with the same value as the digit string t |
| GenerateConfig.UnlimitedRawAmountValue | src/generate-config.js:209-211 | the unlimited amount's `rawAmount` is `0x` followed by sixty-four `f`s, with value 2^256 - 1 |
| GenerateConfig.UnlimitedIsNumeral | src/generate-config.js:194 | the unlimited text is a plain decimal numeral |
| MaxAmount.MaxAmountValue | src/generate-config.js:194 | the 78-digit constant is the decimal rendering of 2^256 - 1 and reads back as that number |
| GenerateConfig.Erc20ApproveRecord | src/generate-config.js:174-237 | a record is built iff both addresses are valid, the amount is empty or a numeral, and the decimals are valid; the failures are reported in source order; the record holds `FinalAmount` and `RawAmount` |
| GenerateConfig.UnlimitedApproval | src/generate-config.js:192-211 | an empty amount approves without limit, whatever the decimals: `args[1]` is the text of 2^256 - 1 and `rawAmount` is `0x` followed by 64 `f`s |
| GenerateConfig.ScaledApproval | src/generate-config.js:213-219 | any other amount's `rawAmount` is the converted amount |
| GenerateConfig.ApprovedUnits | src/generate-config.js:207-220 | the units an approval stands for are the value of its `rawAmount` |
| GenerateConfig.ApproveRecordValidates | src/generate-config.js:222-236 | an approve record passes the validator as a `CONTRACT_CALL` with `function` "approve", `args` [spender, finalAmount], `value` "0" and `data` "0x095ea7b3" |
| GenerateConfig.ApproveShape | src/generate-config.js:222-236 | for any contract address, the approve record has that shape, whatever its amount fields |
| GenerateConfig.ApproveFields | src/generate-config.js:222-236 | the approve record holds the given `args`, `rawAmount`, `decimals`, the approve ABI and `function` "approve" |
| GenerateConfig.RawCallRecord | src/generate-config.js:242-273 | a record is built iff the contract is valid and the data matches `^0x[a-fA-F0-9]*$`; data without `0x` and data with other characters fail separately; the record carries the data verbatim with `value` "0" |
| GenerateConfig.RawRecordValidates | src/generate-config.js:266-272 | a raw call record passes the validator |
| GenerateConfig.Describe | src/generate-config.js:49-65 | `RAW_CALL` records and records of an unknown kind get their fixed texts; a description can fail only for a null record or for a transfer or call record |
| GenerateConfig.DescribeEthRecord | src/generate-config.js:52 | a native transfer record is described by the first ten characters of `to` and the typed value |
| GenerateConfig.DescribeErc20Record | src/generate-config.js:54 | a token transfer record is described by the value "0", the first ten characters of `to` and its decimals |
| GenerateConfig.DescribeApproveRecord | src/generate-config.js:56-57 | an approve record is described by the typed amount (or the unlimited text), the spender's first ten characters and its decimals |
| GenerateConfig.DescribeApproveCall | src/generate-config.js:56-57 | any `approve` call record with two string arguments and an integral decimals count below 10^21 (the numbers JavaScript prints plainly) is described by those three |
| GenerateConfig.DescribeRawRecord | src/generate-config.js:60-61 | a raw call record is described by the fixed raw-call text |
| GenerateConfig.ShowDecimals | src/generate-config.js:54 | a decimals count below 10^21 interpolates as its decimal digits |
| Sponsored.BuildCalls | src/sponsored.js:191-287 | the loop returns the reference encoding of the whole list: the calls in order, or the first failing transaction's index and failure |
| Sponsored.EncodeTransaction | src/sponsored.js:195-281 | the `forEach` body adds no call exactly when the record is not null and its `type` is none of the four kinds; a native transfer's call goes to `to` with data `0x`, every other call goes to `contract` with value 0 (the per-kind lemmas below give the full calls) |
| Sponsored.ErrorPersists | src/sponsored.js:283-286 | once a transaction throws, the batch's result is that error |
| Sponsored.PrefixStable | src/sponsored.js:187-287 | later transactions never change earlier calls: each prefix's call list is a prefix of the whole list |
| Sponsored.OneCallPerRecognised | src/sponsored.js:191-287 | when nothing throws, there is exactly one call per transaction whose type is one of the four kinds |
| Sponsored.CallOfTransaction | src/sponsored.js:191-287 | a transaction's call is appended after the calls of the transactions before it |
| Sponsored.AllRecognised | src/sponsored.js:195-281 | in a list of well-formed transactions every transaction is of a recognised kind |
| Sponsored.ValidatedGivesOneCallEach | src/sponsored.js:191-287 | a validated configuration that encodes yields exactly one call per transaction |
| Sponsored.MissingContractNamesIndex | src/sponsored.js:211-213 | a token transfer without a truthy `contract` aborts the batch with an error naming its index |
| Sponsored.NativeTransferCall | src/sponsored.js:197-205 | a validated native transfer becomes `(to, v, "0x")`: v is the hex value, or the decimal value scaled exactly by 10^18; `parseEther` refuses a non-zero digit past the 18th, and a scaled value of 2^511 or more as an overflow |
| Sponsored.TokenTransferCall | src/sponsored.js:209-237 | a validated token transfer becomes `(contract, 0, transfer(to, rawValue))`; it throws when the amount exceeds `uint256`, or when `decimals` is truthy but not a unit `formatUnits` accepts in the listing at lines 226-227 |
| Sponsored.RawCallIsVerbatim | src/sponsored.js:274-277 | a validated raw call becomes `(contract, 0, data)` with the data verbatim |
| Sponsored.BigNumberish | src/sponsored.js:217 | `getBigInt` of a string field is `GetBigInt` of its text; a missing field is refused |
| Sponsored.UnitDecimals | src/sponsored.js:257 | an integral numeric `decimals` from 0 to 80 is that many digits; a string is accepted iff it is one of ethers' unit names; whatever is accepted is at most 80 |
| Sponsored.ProcessArg | src/sponsored.js:243-265 | anything but a numeric string that does not start with `0x` passes through unchanged; the only failures are no function, no parameter, or a bad amount at that argument |
| Sponsored.MapArgsOk | src/sponsored.js:243-265 | when a map with a throwing callback succeeds, each result is the callback's value on its own item and index, in order |
| Sponsored.MapArgsErr | src/sponsored.js:243-265 | a failing map fails with the callback's error at the first item whose callback throws; every item before it succeeds |
| Sponsored.ProcessArgsOk | src/sponsored.js:243-265 | when the argument pass succeeds, each converted argument is its own argument's conversion, in order |
| Sponsored.ProcessArgsErr | src/sponsored.js:243-265 | a failing argument pass fails with the error of the first argument whose conversion throws; every argument before it converts |
| Sponsored.NonNumericArgsPassThrough | src/sponsored.js:243-265 | arguments that are not numeric strings pass through unchanged, with the same count and order |
| Sponsored.RawAmountOverridesSecondArg | src/sponsored.js:249-252 | a numeric string at a `uint256` second parameter is replaced by the value of a truthy `rawAmount`, whatever the string says |
| Sponsored.ZeroDecimalsFallBackToEther | src/sponsored.js:256-260 | a `decimals` of 0 is falsy, so the argument is scaled by 10^18 |
| Sponsored.DecimalsScaleArg | src/sponsored.js:256-257 | a positive integer `decimals` scales the argument by that many digits |
| GenerateConfig.Erc20RecordCall | src/sponsored.js:209-237 | a built token transfer record becomes `(contract, 0, transfer(to, units))` with the converted units, or throws when they exceed `uint256`; its decimals (at most 18) never trouble `formatUnits` |
| GenerateConfig.Erc20Call | src/sponsored.js:209-237 | for any token transfer record with valid addresses, a hex raw value and decimals d: the transfer call, unless the units exceed `uint256` or d exceeds the 80 decimals `formatUnits` allows |
| GenerateConfig.ApproveRecordCall | src/sponsored.js:238-269 | a built approve record, given a coder that reads `approve` as `(address, uint256)`, is encoded from the spender unchanged and the `rawAmount` units in place of the typed amount |
| GenerateConfig.ApproveCall | src/sponsored.js:238-269 | the same for any approve record with valid addresses, a numeral amount and a hex `rawAmount` |
| GenerateConfig.ApproveArgs | src/sponsored.js:243-265 | the approve arguments become [spender unchanged, `rawAmount` units] |
| GenerateConfig.SpenderArg | src/sponsored.js:244-264 | a `0x` address argument is passed through |
| GenerateConfig.AmountArg | src/sponsored.js:249-252 | the numeric amount at index 1 becomes the `rawAmount` units |
| GenerateConfig.RawRecordCall | src/sponsored.js:274-277 | a built raw call record becomes `(contract, 0, data)` with the data as typed |
| Abi.EncodeAddressUint | src/sponsored.js:214-218 | `(address, uint256)` calldata exists iff the address is `0x` and 40 hex digits and the amount is in `uint256` range |
| Abi.TransferCalldata | src/sponsored.js:214-218 | `transfer(to, amount)` calldata exists iff `to` is an address and the amount is in range, and it decodes back to the transfer selector, the address bytes and the amount |
| Abi.ApproveCalldata | src/generate-config.js:222-236 | `approve(spender, amount)` calldata, selector `0x095ea7b3` of line 232: it exists iff the spender is an address and the amount is in range, and it decodes back to its parts |
| Abi.UintWord | src/sponsored.js:218 | a `uint256` word exists iff the value is in range; it is 32 bytes whose big-endian value is the integer |
| Abi.AddressWord | src/sponsored.js:218 | an address word is 32 bytes ending in the twenty address bytes; read big-endian it has the address's value, below 2^160, so it is the address as a left-padded `uint160` |
| Abi.DecodeOfEncode | src/sponsored.js:214-218 | decoding transfer-shaped calldata recovers its selector, address bytes and amount |
| Abi.EncodeAddressUintInjective | src/sponsored.js:218 | equal calldata for one selector means the same address and the same amount |
| Abi.TransferIsNotApprove | src/sponsored.js:214-218 | transfer calldata never equals approve calldata, and it is 68 bytes long |
| Digest.PackCall | src/sponsored.js:158-160 | a call packs iff its target is an address, its value is in `uint256` range and its data is even-length hex; the packing is 52 bytes plus the data |
| Digest.PackCallLayout | src/sponsored.js:158-160 | the packed call is the 20 address bytes, then the 32-byte big-endian value, then the data bytes |
| Digest.EncodeCalls | src/sponsored.js:155-161 | the loop's `encodedCalls` exists iff every call packs, and is then `0x` followed by the hex of the concatenated packings |
| Digest.PackCalls | src/sponsored.js:155-161 | the concatenated packing exists exactly when every call packs |
| Digest.Preimage | src/sponsored.js:164-166 | the preimage exists exactly when the nonce is in `uint256` range and every call packs, and it is 32 bytes longer than the packed calls |
| Digest.Signature | src/sponsored.js:164-169 | a signature is produced exactly when the nonce is in `uint256` range and every call packs |
| Digest.CreateSignatureForCalls | src/sponsored.js:151-173 | the method returns the signature of the personal message that holds the keccak digest of the preimage |
| Digest.PackStep | src/sponsored.js:156-161 | packing one more call appends its bytes |
| Digest.PackFailurePersists | src/sponsored.js:156-161 | one call that does not pack makes the whole list fail to pack |
| Digest.PrefixPacks | src/sponsored.js:156-161 | every prefix of a list that packs also packs |
| Digest.PackCallsAppend | src/sponsored.js:156-161 | packing two lists joined together gives the two packings joined together |
| Digest.PackedLength | src/sponsored.js:156-161 | the packed list is Σ(52 + \|data_i\|) bytes long |
| Digest.PreimageLayout | src/sponsored.js:164-166 | the preimage is 32 + Σ(52 + \|data_i\|) bytes: the nonce's 32 big-endian bytes, then the packed calls |
| Digest.SingleCallPreimage | src/sponsored.js:164-166 | the preimage of one call is be32(nonce) ‖ addr20(to) ‖ be32(value) ‖ data |
| Digest.NonceBinds | src/sponsored.js:165 | equal preimages were built with the same nonce |
| Digest.PackCallInjective | src/sponsored.js:158-160 | equal packings of two calls mean the same target, value and data |
| Digest.PackCallsInjective | src/sponsored.js:156-161 | given the length of each call's data, the packed list determines every call, in order |
| Digest.PackingIsAmbiguous | src/sponsored.js:156-161 | without the data lengths the packing is ambiguous: a call whose data is an address and a value word packs the same as that call with empty data followed by a second call |
| Digest.PersonalMessageOfDigest | src/sponsored.js:169 | the signed message for a 32-byte digest is 60 bytes: the EIP-191 prefix, the length "32", then the digest |
| Chain.Designator | src/sponsored.js:124-127 | a delegation designator starts with `0xef0100` and is six characters longer than the address |
| Chain.DelegatedAddress | src/sponsored.js:119-136 | the delegate read off the code is `0x`-prefixed and six characters shorter than the code |
| Chain.DelegationRoundTrip | src/sponsored.js:119-136 | code names an address as its delegate iff the code is that address's designator |
| Chain.DesignatorNamesAddress | src/sponsored.js:125-132 | the designator of a 20-byte address is 48 characters long and names that address |
| Chain.NoDelegation | src/sponsored.js:119-136 | code "0x" and code without the prefix name no delegate; the bare prefix names "0x", because the rest is not checked |
| Chain.ChainName | src/sponsored.js:64-103 | every chain id gets a non-empty name |
| Chain.TableNamesAreNotFallbacks | src/sponsored.js:65-100 | no table name looks like the `Unknown Chain (…)` fallback |
| Chain.ChainNameRoundTrip | src/sponsored.js:102 | an unknown id can be read back from its fallback name; a known id's name is never a fallback |
| Chain.FallbackNamesAreDistinct | src/sponsored.js:102 | an unknown id's fallback name differs from the name of every other id |
| Amounts.ParseNumeral | lib/config-manager.js:103 | a string accepted by `^\d+(\.\d+)?$` is the text of a well-formed numeral |
| Amounts.ParseNumeralOfText | lib/config-manager.js:103 | every well-formed numeral is accepted and read back unchanged |
| Amounts.ScaleIsFloor | src/generate-config.js:151-153 | scaling a numeral by 10^d is the floor of its value times 10^d |
| Amounts.Scale | src/generate-config.js:151-153 | the exact conversion of a numeral to minor units (no contract of its own); `ScaleIsFloor` pins it to floor(value × 10^d) |
| Amounts.ParseUnitsOfNumeral | src/sponsored.js:203 | on plain numerals, `parseUnits(s, d)` is the exact scaled value; it fails when a non-zero digit lies past the d-th, or when the scaled value is 2^511 or more (the signed 512-bit overflow of `FixedNumber.fromString`) |
| Amounts.ParseUnits | src/sponsored.js:256-260 | ethers' `parseUnits` on strings (no contract of its own); `ParseUnitsOfNumeral` gives its value on every numeral, including the refusal of extra non-zero digits and of values outside the signed 512-bit range |
| Amounts.GetBigIntOfHex | src/sponsored.js:200 | `getBigInt` of a `0x` hex quantity is the value of its digits |
| Amounts.PlusSignAccepted | src/sponsored.js:252 | `getBigInt("+5")` is 5: `BigInt` takes a `+` sign before decimal digits |
| Amounts.GetBigInt | src/sponsored.js:217 | ethers' `getBigInt` on strings (no contract of its own); `GetBigIntOfHex` and `PlusSignAccepted` pin its hex and signed-decimal readings |
| Amounts.NumeralHasNoHexPrefix | src/sponsored.js:198 | a plain numeral never starts with `0x`, so it takes the decimal branch |
| Amounts.ParseIntOfDigits | src/generate-config.js:145 | `parseInt` of a string of digits is their value |
| Amounts.ParseInt | src/generate-config.js:145 | JavaScript's `parseInt` without a radix (no contract of its own); `ParseIntOfDigits`, `GenerateConfig.DecimalsCutAtPoint` and `GenerateConfig.DecimalsRefused` pin it |
| Amounts.NumeralParsesAsFloat | src/generate-config.js:140 | every plain numeral passes the `parseFloat` test as a non-negative number |
| Amounts.DigitStartParses | src/generate-config.js:43 | every string that starts with a digit passes the `parseFloat` test as a non-negative number |
| Hex.HexValueOfToHex | src/generate-config.js:154 | `toString(16)` reads back as the number it renders |
| Hex.DecimalValueOfToDecimal | src/sponsored.js:102 | the decimal rendering of a number reads back as that number |
| Hex.MaxUint256Hex | src/generate-config.js:211 | 2^256 - 1 renders in hex as sixty-four `f`s |
| Hex.FromBigEndianOfBigEndian | src/sponsored.js:159 | the 32-byte big-endian word of an in-range value decodes to that value |
| Hex.HexToBytesOfBytesToHex | src/sponsored.js:158-160 | hex rendering of bytes reads back as those bytes |

## Left out

- I/O: the readline prompts and their trimming, file loading and saving, console output and chalk are not modelled. So are the RPC calls (`getCode`, `nonce()`, `execute`, `wait`). The builders receive the answers as parameters; `checkDelegationStatus` receives the code.
- `src/delegate.js` is not part of this model: it is RPC calls and environment checks.
- Cryptography: keccak256 and the EOA's signing are function parameters of `Digest.Signature`, modelled only as functions. Nothing is proved about them.
- General ABI encoding: only `transfer(address,uint256)` and `approve(address,uint256)` calldata are concrete. `ethers.Interface` is an abstract `AbiCoder` with three parts: whether an ABI parses, a function's parameter types, and an encoding that may fail.
- Floating point: the generator's `Math.floor(parseFloat(v) * 10**d)` is modelled as the exact floor of the decimal value times 10^d, so float rounding is not reproduced.
- GenerateConfig.Erc20TransferRecord: accepts only plain numerals `^\d+(\.\d+)?$` as the amount, where the source's `parseFloat` test also admits forms such as "1e3" or "2 tokens". The float conversion of those forms is not modelled.
- GenerateConfig.Erc20TransferRecord: does not model the float overflow at `src/generate-config.js:153`. When `parseFloat(value) * 10**d` overflows to `Infinity` (an amount of "1" followed by 309 zeros, or by 300 zeros with 18 decimals), `BigInt(Math.floor(...))` throws a RangeError. The model builds a record there, because it computes the exact product.
- GenerateConfig.Erc20ApproveRecord: the non-empty amount is restricted to plain numerals in the same way and for the same reason.
- GenerateConfig.Erc20ApproveRecord: the same float overflow, at `src/generate-config.js:217`. For an amount whose float product is `Infinity`, the source throws a RangeError, and the model builds a record.
- GenerateConfig.IsValidNumberAsWritten: does not model float underflow. A negative amount too small for a double, such as "-1e-400", is read by `parseFloat` as `-0`, which the source's `>= 0` accepts. The model rejects it, because its mantissa is not zero. Only a zero mantissa counts as `-0` here.
- GenerateConfig.EthTransferRecordAsWritten: the same underflow gap. With an amount such as "-1e-400", the source builds a record and the model reports an invalid amount.
- Sponsored.IsNumericString: the `isNaN(parseFloat(arg))` test is modelled by its prefix grammar (white space, sign, digits or `Infinity`), not by float parsing.
- JSON numbers are exact reals. `Show` renders only integral numbers below 10^21 concretely; the text of any other number is a parameter (`numberText`).
- String slicing is on characters, not UTF-16 code units.
- The EIP-55 checksum of mixed-case addresses is not modelled, because it is computed with keccak256, which is abstract here. The validator (`lib/config-manager.js:218-221`) and the generator (`src/generate-config.js:35-37`) check only the character classes. ethers' `getAddress`, however, refuses a mixed-case address whose casing is not its checksum, both in the address coder of `encodeFunctionData` (`src/sponsored.js:218`) and in `solidityPacked` (`src/sponsored.js:159`). The members below therefore promise success for such an address where the source throws.
- Abi.EncodeAddressUint: calldata exists for every `0x` address of 40 hex digits, including a mixed-case one with a wrong checksum that ethers refuses.
- Digest.PackCall: a mixed-case target with a wrong checksum packs here, while `solidityPacked` refuses it.
- Sponsored.TokenTransferCall: promises the transfer call for a mixed-case `to` with a wrong checksum, which `encodeFunctionData` refuses.
- GenerateConfig.Erc20RecordCall: the builder accepts a mixed-case `to` with a wrong checksum, and the encoder then throws, which this contract does not show.
- GenerateConfig.Erc20Call: the same checksum gap as Erc20RecordCall, for any token transfer record.
- Abi.TransferCalldata: calldata exists for every `0x` address of 40 hex digits. That includes a mixed-case `to` with a wrong checksum, which ethers refuses.
- Abi.ApproveCalldata: the same checksum gap for the spender. A mixed-case spender with a wrong checksum gets calldata here, and ethers refuses it.
- Abi.IsAddressArg: ethers' `getAddress` also accepts other forms: 40 hex digits without `0x`, and ICAP `XE…` addresses. The model refuses these, and so does `Digest.TargetBytes`. In the same way, `getBytes` accepts `0X` as well as `0x`, and the model's `Digest.DataOf` accepts only `0x`. In the program, `loadConfig` validates the configuration before anything is encoded (`lib/config-manager.js:31`), and the validator admits only a lowercase `0x` followed by hex digits. So these forms cannot reach the encoder. The encoder's contracts on raw JSON do not cover them.
- `BigInt` is modelled on `0x`/`0X` hex, decimal digits with an optional `+` sign, and the empty string. Surrounding white space and the `0b`/`0o` forms are not accepted.
- Odd-length hex data makes packing fail. This is `getBytes`'s refusal, and is where a malformed target or data first throws in the source; the encoder carries such fields unchanged up to that point.
- The `ethers` normalisation of the `uint` alias and fragments other than the two fixed shapes are left to the abstract coder.
- `generateConfig`: its `while` loop, the retry recursion of `getTransactionConfig` and the menu are interactive I/O and are not modelled.
- `Date.now()` in the record ids is a parameter `now`.
- `formatUnits` in the token-transfer listing (`src/sponsored.js:226-227`): only whether it throws is modelled. It accepts the same units as `parseUnits` (`Sponsored.RefusedDisplayDecimals`); the text it renders is not modelled.
- Sponsored.UnitDecimals: the model refuses negative or non-integral numeric `decimals`; ethers' own handling of those values is not modelled.

## Findings

| source | as written | input that shows it | evidently intended | confidence | as-written member | corrected member |
|---|---|---|---|---|---|---|
| src/generate-config.js:42-44 (used at 105-108) | `isValidNumber` accepts any string whose leading part `parseFloat` reads as a non-negative number, and the native transfer record keeps the string as typed | the amount "1e3": the builder writes `value: "1e3"`, which `validateTransaction` then rejects, since `ETH_TRANSFER` values must be hex or `^\d+(\.\d+)?$` | accept exactly the native amounts the validator accepts | not executed | GenerateConfig.AsWrittenEthRecordIsRejected | GenerateConfig.EthRecordValidates |

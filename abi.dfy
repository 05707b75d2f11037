/**
 * Calldata in the Solidity contract ABI ("Function Selector and Argument
 * Encoding"): a four-byte selector followed by one 32-byte word per static
 * argument. Only the two shapes the tool builds itself are concrete here,
 * `transfer(address,uint256)` and `approve(address,uint256)`; every other
 * function goes through an abstract `AbiCoder`.
 */
module Abi {
  import opened Wrappers
  import opened Hex
  import opened Json

  /** The first four bytes of keccak256("transfer(address,uint256)"). */
  const TransferSelector: seq<byte> := [0xa9, 0x05, 0x9c, 0xbb]

  /** The first four bytes of keccak256("approve(address,uint256)"). */
  const ApproveSelector: seq<byte> := [0x09, 0x5e, 0xa7, 0xb3]

  function Zeros(n: nat): (z: seq<byte>)
    ensures |z| == n && forall i | 0 <= i < n :: z[i] == 0
  {
    if n == 0 then [] else Zeros(n - 1) + [0]
  }

  /**
   * An `address` argument: the twenty address bytes left-padded with twelve zero bytes,
   * so the word, read as a big-endian number, is the address as a `uint160`.
   */
  function AddressWord(a: seq<byte>): (w: seq<byte>)
    requires |a| == 20
    ensures |w| == 32 && w[..12] == Zeros(12) && w[12..] == a
    ensures FromBigEndian(w) == FromBigEndian(a) < Pow(256, 20)
  {
    ZerosAreZero(12);
    LeadingZeros(Zeros(12), a);
    FromBigEndianBound(a);
    Zeros(12) + a
  }

  lemma {:induction false} ZerosAreZero(n: nat)
    ensures FromBigEndian(Zeros(n)) == 0
  {
    if n > 0 {
      ZerosAreZero(n - 1);
      assert Zeros(n)[..n - 1] == Zeros(n - 1);
    }
  }

  /** Leading zero bytes do not change a big-endian value. */
  lemma {:induction false} LeadingZeros(z: seq<byte>, a: seq<byte>)
    requires FromBigEndian(z) == 0
    ensures FromBigEndian(z + a) == FromBigEndian(a)
    decreases |a|
  {
    if a == [] {
      assert z + a == z;
    } else {
      var c := z + a;
      assert c[..|c| - 1] == z + a[..|a| - 1];
      LeadingZeros(z, a[..|a| - 1]);
    }
  }

  /** A `uint256` argument: 32 bytes big-endian, for values in range; anything else makes the coder throw. */
  function UintWord(v: int): (r: Option<seq<byte>>)
    ensures r.Some? <==> 0 <= v <= MaxUint256
    ensures r.Some? ==> |r.value| == 32 && FromBigEndian(r.value) == v
  {
    if 0 <= v <= MaxUint256 then
      Uint256Bound();
      FromBigEndianOfBigEndian(v, 32);
      Some(BigEndian(v, 32))
    else None
  }

  /** The value an address argument takes: a string of `0x` and forty hex digits. */
  predicate IsAddressArg(a: Json) { a.JStr? && IsAddress(a.s) }

  /** `encodeFunctionData` for a function of shape `(address, uint256)` with the given selector, in `0x`-hex. */
  function EncodeAddressUint(selector: seq<byte>, to: Json, amount: int): (r: Option<string>)
    ensures r.Some? <==> IsAddressArg(to) && 0 <= amount <= MaxUint256
  {
    if IsAddressArg(to) && 0 <= amount <= MaxUint256 then
      Some(HexData(selector + AddressWord(AddressBytes(to.s).value) + UintWord(amount).value))
    else None
  }

  /** `transfer(to, amount)` of an ERC-20 token. */
  function TransferCalldata(to: Json, amount: int): (r: Option<string>)
    ensures r.Some? <==> IsAddressArg(to) && 0 <= amount <= MaxUint256
    ensures r.Some? ==> DecodeAddressUint(r.value) == Some(Decoded(TransferSelector, AddressBytes(to.s).value, amount))
  {
    var r := EncodeAddressUint(TransferSelector, to, amount);
    if r.Some? then DecodeOfEncode(TransferSelector, to, amount); r else r
  }

  /** `approve(spender, amount)` of an ERC-20 token. */
  function ApproveCalldata(spender: Json, amount: int): (r: Option<string>)
    ensures r.Some? <==> IsAddressArg(spender) && 0 <= amount <= MaxUint256
    ensures r.Some? ==> DecodeAddressUint(r.value) == Some(Decoded(ApproveSelector, AddressBytes(spender.s).value, amount))
  {
    var r := EncodeAddressUint(ApproveSelector, spender, amount);
    if r.Some? then DecodeOfEncode(ApproveSelector, spender, amount); r else r
  }

  /** The three parts of `(address, uint256)` calldata. */
  datatype Decoded = Decoded(selector: seq<byte>, address: seq<byte>, amount: nat)

  /** Reads `(address, uint256)` calldata back: 68 bytes whose address word has twelve zero bytes of padding. */
  function DecodeAddressUint(data: string): (r: Option<Decoded>)
    ensures r.Some? ==> |r.value.selector| == 4 && |r.value.address| == 20 && r.value.amount <= MaxUint256
  {
    match DataBytes(data)
    case None => None
    case Some(b) =>
      if |b| == 68 && b[4..16] == Zeros(12) then
        Uint256Bound();
        FromBigEndianBound(b[36..]);
        Some(Decoded(b[..4], b[16..36], FromBigEndian(b[36..])))
      else None
  }

  /** Decoding recovers the selector, the address bytes and the amount that were encoded. */
  lemma DecodeOfEncode(selector: seq<byte>, to: Json, amount: int)
    requires |selector| == 4
    requires IsAddressArg(to) && 0 <= amount <= MaxUint256
    ensures EncodeAddressUint(selector, to, amount).Some?
    ensures DecodeAddressUint(EncodeAddressUint(selector, to, amount).value) ==
            Some(Decoded(selector, AddressBytes(to.s).value, amount))
  {
    var a := AddressBytes(to.s).value;
    var w := UintWord(amount).value;
    var b := selector + AddressWord(a) + w;
    DataBytesOfHexData(b);
    assert b[4..16] == Zeros(12);
    assert b[..4] == selector;
    assert b[16..36] == a;
    assert b[36..] == w;
  }

  /** Equal calldata for one selector means the same address and the same amount. */
  lemma EncodeAddressUintInjective(selector: seq<byte>, a: Json, x: int, b: Json, y: int)
    requires |selector| == 4
    requires EncodeAddressUint(selector, a, x).Some?
    requires EncodeAddressUint(selector, a, x) == EncodeAddressUint(selector, b, y)
    ensures AddressBytes(a.s) == AddressBytes(b.s) && x == y
  {
    DecodeOfEncode(selector, a, x);
    DecodeOfEncode(selector, b, y);
  }

  /** A transfer's calldata is never an approval's, and both are 4 + 32 + 32 bytes long. */
  lemma TransferIsNotApprove(to: Json, x: int, spender: Json, y: int)
    requires TransferCalldata(to, x).Some? && ApproveCalldata(spender, y).Some?
    ensures TransferCalldata(to, x) != ApproveCalldata(spender, y)
    ensures DataBytes(TransferCalldata(to, x).value).Some? && |DataBytes(TransferCalldata(to, x).value).value| == 68
  {
    DecodeOfEncode(TransferSelector, to, x);
    DecodeOfEncode(ApproveSelector, spender, y);
    assert TransferSelector[0] != ApproveSelector[0];
  }

  /** An argument of `encodeFunctionData` of an arbitrary fragment: a JSON value passed through, or a converted integer. */
  datatype Arg = Plain(j: Json) | Big(n: int)

  /**
   * The part of `ethers.Interface` the tool relies on for `CONTRACT_CALL`, left
   * abstract: whether an ABI parses, the parameter types of the function named
   * (`None` when `getFunction` finds none or throws), and the calldata
   * `encodeFunctionData` returns (`None` when it throws).
   */
  datatype AbiCoder = AbiCoder(
    parses: Json -> bool,
    inputTypes: (Json, Option<Json>) -> Option<seq<string>>,
    encode: (Json, Option<Json>, seq<Arg>) -> Option<string>)
}

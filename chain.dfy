/**
 * Two pure helpers of the batch sender: recognising an EIP-7702 delegation
 * designator in an account's code (`checkDelegationStatus`) and naming a chain
 * by its id (`getChainName`).
 */
module Chain {
  import opened Wrappers
  import opened Hex

  /** The code prefix of a delegation designator, as `getCode` reports it in hex: the bytes `0xef 0x01 0x00`. */
  const DesignatorPrefix: string := "0xef0100"

  /** The code EIP-7702 ("Delegation designation") installs in an account delegating to `address`. */
  function Designator(address: string): (code: string)
    requires StartsWith(address, "0x")
    ensures StartsWith(code, DesignatorPrefix) && |code| == |address| + 6
  {
    DesignatorPrefix + address[2..]
  }

  /**
   * The address an account delegates to, read off its code: none for empty code
   * (`0x`), the rest of the code after the designator prefix, and none for any
   * other code.
   */
  function DelegatedAddress(code: string): (r: Option<string>)
    ensures r.Some? ==> StartsWith(r.value, "0x") && |r.value| + 6 == |code|
  {
    if code == "0x" then None
    else if StartsWith(code, DesignatorPrefix) then Some("0x" + code[8..])
    else None
  }

  /** The parse inverts the designator: the code names `address` exactly when it is `address`'s designator. */
  lemma DelegationRoundTrip(code: string, address: string)
    requires StartsWith(address, "0x")
    ensures DelegatedAddress(code) == Some(address) <==> code == Designator(address)
  {
    if code == Designator(address) {
      assert code[8..] == address[2..];
      assert address == "0x" + address[2..];
    }
    if DelegatedAddress(code) == Some(address) {
      assert address[2..] == code[8..];
      assert code == code[..8] + code[8..];
    }
  }

  /** A delegating account's code names a 20-byte address, which the parse returns. */
  lemma DesignatorNamesAddress(address: string)
    requires IsAddress(address)
    ensures DelegatedAddress(Designator(address)) == Some(address)
    ensures |Designator(address)| == 48
  {
    DelegationRoundTrip(Designator(address), address);
  }

  /** Empty code and code without the prefix name no delegate; the rest of the code after the prefix is not checked. */
  lemma NoDelegation(code: string)
    ensures DelegatedAddress("0x") == None
    ensures !StartsWith(code, DesignatorPrefix) ==> DelegatedAddress(code) == None
    ensures DelegatedAddress(DesignatorPrefix) == Some("0x")
  {
    assert DesignatorPrefix[..8] == DesignatorPrefix && DesignatorPrefix[8..] == [];
    assert "0x" + DesignatorPrefix[8..] == "0x";
  }

  /** The chains the tool knows by name. */
  const ChainNames: map<nat, string> := map[
    1 := "Ethereum",
    10 := "Optimism",
    137 := "Polygon",
    42161 := "Arbitrum One",
    8453 := "Base",
    59144 := "Linea",
    130 := "Unichain",
    81457 := "blast",
    534352 := "Scroll",
    5000 := "Mantle",
    169 := "Manta",
    100 := "Gnosis",
    5545 := "Duckchain",
    324 := "ZkSync Era",
    43114 := "Avalanche-C",
    56 := "BNB Chain",
    196 := "X layer",
    146 := "Sonic",
    1868 := "Soneium",
    2741 := "Abstract",
    143 := "monad",
    80094 := "Berachain",
    4200 := "Merlin chain",
    200901 := "Bitlayer",
    60808 := "BOB",
    43111 := "Hemi",
    1501 := "BEVM",
    223 := "Bsquared",
    11155111 := "Sepolia Testnet",
    421614 := "Arbitrum Sepolia",
    84532 := "Base sepolia",
    97 := "BNB Chain Testnet",
    10143 := "Monad Testnet",
    1337 := "Local Network"
  ]

  const UnknownPrefix: string := "Unknown Chain ("

  /** `getChainName(chainId)`: the table's name, or `Unknown Chain (<id>)` with the id in decimal. */
  function ChainName(id: nat): (name: string)
    ensures |name| > 0
  {
    if id in ChainNames then ChainNames[id] else UnknownPrefix + ToDecimal(id) + ")"
  }

  /** Reads the id back out of an `Unknown Chain (<id>)` name. */
  function UnknownChainId(name: string): Option<nat>
  {
    if |name| > |UnknownPrefix| + 1 && StartsWith(name, UnknownPrefix) && name[|name| - 1] == ')'
       && AllDigits(name[|UnknownPrefix|..|name| - 1])
    then Some(DecimalValue(name[|UnknownPrefix|..|name| - 1]))
    else None
  }

  /** No name in the table looks like the fallback. */
  lemma TableNamesAreNotFallbacks()
    ensures forall id | id in ChainNames :: !StartsWith(ChainNames[id], UnknownPrefix)
  {
    forall id | id in ChainNames ensures !StartsWith(ChainNames[id], UnknownPrefix) {
      var name := ChainNames[id];
      assert |name| < 15 || name[0] != 'U';
    }
  }

  /** An unknown id is recoverable from its name, and a known id's name is never a fallback name. */
  lemma ChainNameRoundTrip(id: nat)
    ensures UnknownChainId(ChainName(id)) == if id in ChainNames then None else Some(id)
  {
    if id in ChainNames {
      TableNamesAreNotFallbacks();
    } else {
      var name := ChainName(id);
      assert name[|UnknownPrefix|..|name| - 1] == ToDecimal(id);
      DecimalValueOfToDecimal(id);
    }
  }

  /** Distinct ids outside the table get distinct names, and none of them collides with a table name. */
  lemma FallbackNamesAreDistinct(a: nat, b: nat)
    requires a !in ChainNames && a != b
    ensures ChainName(a) != ChainName(b)
  {
    ChainNameRoundTrip(a);
    ChainNameRoundTrip(b);
  }
}

/**
 * The signing preimage of `createSignatureForCalls`: the calls packed in
 * Solidity's non-standard packed mode (`abi.encodePacked`: an address as its 20
 * bytes, a `uint256` as 32 big-endian bytes, `bytes` as they are, with no
 * padding and no length prefixes), after the 32-byte nonce; its keccak256
 * digest, signed as an EIP-191 personal message. Hashing and signing are
 * parameters.
 */
module Digest {
  import opened Wrappers
  import opened Hex
  import opened Json
  import opened Abi
  import opened Sponsored

  /** The 20 address bytes of a call's target, when it is an address string. */
  function TargetBytes(c: Call): Option<seq<byte>>
  {
    if c.target.Some? && IsAddressArg(c.target.value) then AddressBytes(c.target.value.s) else None
  }

  /** The bytes of a call's data, when it is even-length `0x` hex (`getBytes` throws otherwise). */
  function DataOf(c: Call): Option<seq<byte>>
  {
    if c.data.JStr? then DataBytes(c.data.s) else None
  }

  /** `solidityPacked(["address", "uint256", "bytes"], [to, value, data])`. */
  function PackCall(c: Call): (r: Option<seq<byte>>)
    ensures r.Some? <==> TargetBytes(c).Some? && UintWord(c.value).Some? && DataOf(c).Some?
    ensures r.Some? ==> |r.value| == 52 + |DataOf(c).value|
  {
    match (TargetBytes(c), UintWord(c.value), DataOf(c))
    case (Some(a), Some(w), Some(d)) => Some(a + w + d)
    case _ => None
  }

  /** The packed call is `addr20(to) ‖ be32(value) ‖ data`. */
  lemma PackCallLayout(c: Call)
    requires PackCall(c).Some?
    ensures PackCall(c).value[..20] == TargetBytes(c).value
    ensures FromBigEndian(PackCall(c).value[20..52]) == c.value
    ensures PackCall(c).value[52..] == DataOf(c).value
  {
    var a, w, d := TargetBytes(c).value, UintWord(c.value).value, DataOf(c).value;
    assert PackCall(c).value == a + w + d;
    assert (a + w + d)[20..52] == w;
    assert (a + w + d)[52..] == d;
  }

  /** The packings `pack` gives the calls, concatenated in order; `None` when any of them is `None`. */
  function PackWith(pack: Call -> Option<seq<byte>>, calls: seq<Call>): Option<seq<byte>>
  {
    if calls == [] then Some([])
    else match (PackWith(pack, calls[..|calls| - 1]), pack(calls[|calls| - 1]))
      case (Some(p), Some(q)) => Some(p + q)
      case _ => None
  }

  /** The packed calls, concatenated in order; `None` when any of them does not pack. */
  function PackCalls(calls: seq<Call>): (r: Option<seq<byte>>)
    ensures r.Some? <==> forall i | 0 <= i < |calls| :: PackCall(calls[i]).Some?
  {
    PackWithAll(PackCall, calls);
    PackWith(PackCall, calls)
  }

  /** A list packs exactly when each of its calls does. */
  lemma {:induction false} PackWithAll(pack: Call -> Option<seq<byte>>, calls: seq<Call>)
    ensures PackWith(pack, calls).Some? <==> forall i | 0 <= i < |calls| :: pack(calls[i]).Some?
  {
    if calls != [] {
      var init := calls[..|calls| - 1];
      PackWithAll(pack, init);
      assert forall i | 0 <= i < |init| :: init[i] == calls[i];
    }
  }

  /** The number of packed bytes a list of calls takes: 52 per call plus its data. */
  function PackedSize(calls: seq<Call>): nat
  {
    if calls == [] then 0
    else
      var last := DataOf(calls[|calls| - 1]);
      PackedSize(calls[..|calls| - 1]) + 52 + (if last.Some? then |last.value| else 0)
  }

  /** The `for` loop of `createSignatureForCalls`: `encodedCalls` grows by each packed call, without its `0x`. */
  method EncodeCalls(calls: seq<Call>) returns (r: Option<string>)
    ensures r.Some? <==> PackCalls(calls).Some?
    ensures r.Some? ==> r.value == HexData(PackCalls(calls).value)
  {
    var encoded := "0x";
    for i := 0 to |calls|
      invariant PackCalls(calls[..i]).Some?
      invariant encoded == HexData(PackCalls(calls[..i]).value)
    {
      match PackCall(calls[i]) {
        case None =>
          PackFailurePersists(calls, i + 1);
          return None;
        case Some(p) =>
          PackStep(calls, i);
          HexDataAppend(PackCalls(calls[..i]).value, p);
          encoded := encoded + HexData(p)[2..];
      }
    }
    assert calls[..|calls|] == calls;
    return Some(encoded);
  }

  /** `solidityPacked(["uint256", "bytes"], [contractNonce, encodedCalls])`: the bytes the digest hashes. */
  function Preimage(calls: seq<Call>, nonce: int): (r: Option<seq<byte>>)
    ensures r.Some? <==> 0 <= nonce <= MaxUint256 && PackCalls(calls).Some?
    ensures r.Some? ==> |r.value| == 32 + |PackCalls(calls).value|
  {
    match (UintWord(nonce), PackCalls(calls))
    case (Some(w), Some(p)) => Some(w + p)
    case _ => None
  }

  /** The prefix of an EIP-191 (version `0x45`) personal message, as ASCII bytes. */
  const PersonalPrefix: seq<byte> :=
    [0x19] + [0x45, 0x74, 0x68, 0x65, 0x72, 0x65, 0x75, 0x6d, 0x20,
              0x53, 0x69, 0x67, 0x6e, 0x65, 0x64, 0x20,
              0x4d, 0x65, 0x73, 0x73, 0x61, 0x67, 0x65, 0x3a, 0x0a]

  /** ASCII bytes of a run of decimal digits. */
  function DigitBytes(s: string): (b: seq<byte>)
    requires AllDigits(s)
    ensures |b| == |s|
  {
    if s == [] then [] else [0x30 + DigitValue(s[0])] + DigitBytes(s[1..])
  }

  /** What `signMessage` hashes: the prefix, the message length in decimal, then the message. */
  function PersonalMessage(m: seq<byte>): seq<byte>
  {
    PersonalPrefix + DigitBytes(ToDecimal(|m|)) + m
  }

  /**
   * `createSignatureForCalls(calls, contractNonce)`: the EOA's signature of the
   * personal message holding the 32-byte digest of the preimage. `keccak` is
   * keccak256 and `signDigest` signs a hash with the EOA's key.
   */
  function Signature(calls: seq<Call>, nonce: int, keccak: seq<byte> -> seq<byte>, signDigest: seq<byte> -> string)
    : (r: Option<string>)
    ensures r.Some? <==> 0 <= nonce <= MaxUint256 && forall i | 0 <= i < |calls| :: PackCall(calls[i]).Some?
  {
    match Preimage(calls, nonce)
    case Some(pre) => Some(signDigest(keccak(PersonalMessage(keccak(pre)))))
    case None => None
  }

  /** The whole of `createSignatureForCalls`, with its loop. */
  method CreateSignatureForCalls(calls: seq<Call>, nonce: int, keccak: seq<byte> -> seq<byte>, signDigest: seq<byte> -> string)
    returns (r: Option<string>)
    ensures r == Signature(calls, nonce, keccak, signDigest)
  {
    var encoded := EncodeCalls(calls);
    if encoded.None? {
      return None;
    }
    DataBytesOfHexData(PackCalls(calls).value);
    var packed := DataBytes(encoded.value).value;
    var word := UintWord(nonce);
    if word.None? {
      return None;
    }
    var digest := keccak(word.value + packed);
    return Some(signDigest(keccak(PersonalMessage(digest))));
  }

  // ------------------------------------------------------------ helper facts

  lemma {:induction false} BytesToHexAppend(a: seq<byte>, b: seq<byte>)
    ensures BytesToHex(a + b) == BytesToHex(a) + BytesToHex(b)
  {
    if a != [] {
      var head := [LowerHexDigit(a[0] / 16), LowerHexDigit(a[0] % 16)];
      assert (a + b)[0] == a[0];
      assert (a + b)[1..] == a[1..] + b;
      BytesToHexAppend(a[1..], b);
      assert BytesToHex(a + b) == head + (BytesToHex(a[1..]) + BytesToHex(b));
      assert BytesToHex(a) == head + BytesToHex(a[1..]);
    } else {
      assert a + b == b;
    }
  }

  lemma HexDataAppend(a: seq<byte>, b: seq<byte>)
    ensures HexData(a + b) == HexData(a) + HexData(b)[2..]
  {
    BytesToHexAppend(a, b);
    assert HexData(b)[2..] == BytesToHex(b);
  }

  /** Packing one more call appends its bytes. */
  lemma PackStep(calls: seq<Call>, i: nat)
    requires i < |calls|
    ensures PackCalls(calls[..i + 1]) ==
      match (PackCalls(calls[..i]), PackCall(calls[i]))
      case (Some(p), Some(q)) => Some(p + q)
      case _ => None
  {
    assert calls[..i + 1][..i] == calls[..i];
    assert calls[..i + 1][i] == calls[i];
    PackWithUnfold(PackCall, calls[..i + 1]);
  }

  lemma PackFailurePersists(calls: seq<Call>, n: nat)
    requires 0 < n <= |calls|
    requires PackCall(calls[n - 1]).None?
    ensures PackCalls(calls).None?
  {
    PrefixPacks(calls, n);
    PackStep(calls, n - 1);
  }

  /** Every prefix of a list that packs packs too. */
  lemma PrefixPacks(calls: seq<Call>, n: nat)
    requires n <= |calls|
    ensures PackCalls(calls).Some? ==> PackCalls(calls[..n]).Some?
  {
    PackWithPrefix(PackCall, calls, n);
  }

  // ------------------------------------------------------------ concatenation, for any packing of single calls

  /** One step of the concatenation: the last call's bytes follow the rest's. */
  lemma PackWithUnfold(pack: Call -> Option<seq<byte>>, s: seq<Call>)
    requires s != []
    ensures PackWith(pack, s).Some? <==> PackWith(pack, s[..|s| - 1]).Some? && pack(s[|s| - 1]).Some?
    ensures PackWith(pack, s).Some? ==> PackWith(pack, s).value == PackWith(pack, s[..|s| - 1]).value + pack(s[|s| - 1]).value
  {
  }

  lemma {:induction false} PackWithPrefix(pack: Call -> Option<seq<byte>>, calls: seq<Call>, n: nat)
    requires n <= |calls|
    ensures PackWith(pack, calls).Some? ==> PackWith(pack, calls[..n]).Some?
    decreases |calls|
  {
    if n < |calls| {
      PackWithUnfold(pack, calls);
      PackWithPrefix(pack, calls[..|calls| - 1], n);
      assert calls[..|calls| - 1][..n] == calls[..n];
    } else {
      assert calls[..n] == calls;
    }
  }

  /** A list packs only if each of its calls does. */
  lemma {:induction false} EachPacks(pack: Call -> Option<seq<byte>>, calls: seq<Call>)
    requires PackWith(pack, calls).Some?
    ensures forall i | 0 <= i < |calls| :: pack(calls[i]).Some?
  {
    if calls != [] {
      var k := |calls| - 1;
      PackWithUnfold(pack, calls);
      EachPacks(pack, calls[..k]);
      assert forall i | 0 <= i < k :: calls[..k][i] == calls[i];
    }
  }

  lemma {:induction false} PackWithAppend(pack: Call -> Option<seq<byte>>, a: seq<Call>, b: seq<Call>)
    ensures PackWith(pack, a + b).Some? <==> PackWith(pack, a).Some? && PackWith(pack, b).Some?
    ensures PackWith(pack, a + b).Some? ==> PackWith(pack, a + b).value == PackWith(pack, a).value + PackWith(pack, b).value
    decreases |b|
  {
    if b == [] {
      assert a + b == a;
    } else {
      var b', last := b[..|b| - 1], b[|b| - 1];
      var ab := a + b;
      assert ab[..|ab| - 1] == a + b';
      assert ab[|ab| - 1] == last;
      PackWithAppend(pack, a, b');
      PackWithUnfold(pack, ab);
      PackWithUnfold(pack, b);
      if PackWith(pack, a + b').Some? && pack(last).Some? {
        var pa, pb, q := PackWith(pack, a).value, PackWith(pack, b').value, pack(last).value;
        assert pa + pb + q == pa + (pb + q);
      }
    }
  }

  /** Two concatenations with equally long tails are equal only part by part. */
  lemma CancelAppend(pa: seq<byte>, qa: seq<byte>, pb: seq<byte>, qb: seq<byte>)
    requires |qa| == |qb| && pa + qa == pb + qb
    ensures pa == pb && qa == qb
  {
    assert (pa + qa)[|pa|..] == qa && (pb + qb)[|pb|..] == qb;
    assert (pa + qa)[..|pa|] == pa && (pb + qb)[..|pb|] == pb;
  }

  /** Given the length of every part, the concatenation determines the parts. */
  lemma {:induction false} PackWithInjective(pack: Call -> Option<seq<byte>>, a: seq<Call>, b: seq<Call>)
    requires |a| == |b|
    requires PackWith(pack, a).Some? && PackWith(pack, a) == PackWith(pack, b)
    requires forall i | 0 <= i < |a| :: pack(a[i]).Some? && pack(b[i]).Some? && |pack(a[i]).value| == |pack(b[i]).value|
    ensures forall i | 0 <= i < |a| :: pack(a[i]) == pack(b[i])
  {
    if a != [] {
      var k := |a| - 1;
      PackWithUnfold(pack, a);
      PackWithUnfold(pack, b);
      CancelAppend(PackWith(pack, a[..k]).value, pack(a[k]).value, PackWith(pack, b[..k]).value, pack(b[k]).value);
      assert forall i | 0 <= i < k :: a[..k][i] == a[i] && b[..k][i] == b[i];
      PackWithInjective(pack, a[..k], b[..k]);
      assert forall i | 0 <= i < k :: pack(a[i]) == pack(b[i]) by {
        forall i | 0 <= i < k ensures pack(a[i]) == pack(b[i]) {
          assert a[..k][i] == a[i] && b[..k][i] == b[i];
        }
      }
    }
  }

  // ------------------------------------------------------------ properties of the preimage

  /** Packing distributes over concatenation: the packed list is the packed calls one after another. */
  lemma PackCallsAppend(a: seq<Call>, b: seq<Call>)
    ensures PackCalls(a + b).Some? <==> PackCalls(a).Some? && PackCalls(b).Some?
    ensures PackCalls(a + b).Some? ==> PackCalls(a + b).value == PackCalls(a).value + PackCalls(b).value
  {
    PackWithAppend(PackCall, a, b);
  }

  /** The packed list is `Σ (52 + |data_i|)` bytes long. */
  lemma {:induction false} PackedLength(calls: seq<Call>)
    requires PackCalls(calls).Some?
    ensures |PackCalls(calls).value| == PackedSize(calls)
  {
    if calls != [] {
      PackedLength(calls[..|calls| - 1]);
    }
  }

  /** The preimage is the 32-byte nonce followed by the packed calls: `32 + Σ (52 + |data_i|)` bytes. */
  lemma PreimageLayout(calls: seq<Call>, nonce: int)
    requires Preimage(calls, nonce).Some?
    ensures |Preimage(calls, nonce).value| == 32 + PackedSize(calls)
    ensures FromBigEndian(Preimage(calls, nonce).value[..32]) == nonce
    ensures Preimage(calls, nonce).value[32..] == PackCalls(calls).value
  {
    PackedLength(calls);
    var w, p := UintWord(nonce).value, PackCalls(calls).value;
    assert Preimage(calls, nonce).value == w + p;
    assert (w + p)[..32] == w;
    assert (w + p)[32..] == p;
  }

  /** The preimage of one call: `be32(nonce) ‖ addr20(to) ‖ be32(value) ‖ data`. */
  lemma SingleCallPreimage(c: Call, nonce: int)
    requires Preimage([c], nonce).Some?
    ensures Preimage([c], nonce).value == UintWord(nonce).value + TargetBytes(c).value + UintWord(c.value).value + DataOf(c).value
  {
    OnePacks(c);
    assert PackCall(c).value == TargetBytes(c).value + UintWord(c.value).value + DataOf(c).value;
  }

  lemma OnePacks(c: Call)
    ensures PackCalls([c]) == PackCall(c)
  {
    assert [c][..0] == [];
    PackWithUnfold(PackCall, [c]);
    if PackCall(c).Some? {
      assert [] + PackCall(c).value == PackCall(c).value;
    }
  }

  /** Two preimages that are equal were built with the same nonce. */
  lemma NonceBinds(a: seq<Call>, m: int, b: seq<Call>, n: int)
    requires Preimage(a, m).Some? && Preimage(a, m) == Preimage(b, n)
    ensures m == n
  {
    PreimageLayout(a, m);
    PreimageLayout(b, n);
  }

  /** Two calls whose data is equally long pack equally only if they agree on target, value and data. */
  lemma PackCallInjective(c: Call, d: Call)
    requires PackCall(c).Some? && PackCall(c) == PackCall(d)
    ensures TargetBytes(c) == TargetBytes(d) && c.value == d.value && DataOf(c) == DataOf(d)
  {
    PackCallLayout(c);
    PackCallLayout(d);
  }

  /**
   * Given how long each call's data is, the packed list determines every call:
   * target, value and data, in order.
   */
  lemma PackCallsInjective(a: seq<Call>, b: seq<Call>)
    requires |a| == |b|
    requires PackCalls(a).Some? && PackCalls(a) == PackCalls(b)
    requires forall i | 0 <= i < |a| :: DataOf(a[i]).Some? && DataOf(b[i]).Some? && |DataOf(a[i]).value| == |DataOf(b[i]).value|
    ensures forall i | 0 <= i < |a| ::
      TargetBytes(a[i]) == TargetBytes(b[i]) && a[i].value == b[i].value && DataOf(a[i]) == DataOf(b[i])
  {
    EachPacks(PackCall, a);
    EachPacks(PackCall, b);
    PackWithInjective(PackCall, a, b);
    forall i | 0 <= i < |a|
      ensures TargetBytes(a[i]) == TargetBytes(b[i]) && a[i].value == b[i].value && DataOf(a[i]) == DataOf(b[i])
    {
      PackCallInjective(a[i], b[i]);
    }
  }

  /**
   * Without the data lengths the packed list is ambiguous: one call whose data
   * is another target's address and a value word packs exactly like that call
   * with empty data followed by a second call.
   */
  lemma PackingIsAmbiguous(ta: string, v: int, tb: string, w: int)
    requires IsAddress(ta) && IsAddress(tb) && 0 <= v <= MaxUint256 && 0 <= w <= MaxUint256
    ensures var merged := [Call(Some(JStr(ta)), v, JStr(HexData(AddressBytes(tb).value + UintWord(w).value)))];
            var split := [Call(Some(JStr(ta)), v, JStr("0x")), Call(Some(JStr(tb)), w, JStr("0x"))];
            merged != split && PackCalls(merged).Some? && PackCalls(merged) == PackCalls(split)
  {
    var inner := AddressBytes(tb).value + UintWord(w).value;
    var c := Call(Some(JStr(ta)), v, JStr(HexData(inner)));
    var c1 := Call(Some(JStr(ta)), v, JStr("0x"));
    var c2 := Call(Some(JStr(tb)), w, JStr("0x"));
    DataBytesOfHexData(inner);
    DataBytesOfHexData([]);
    assert HexData([]) == "0x";
    OnePacks(c);
    OnePacks(c1);
    assert [c1, c2][..1] == [c1];
    assert PackCalls([c1, c2]) == Some(PackCall(c1).value + PackCall(c2).value);
    assert PackCall(c).value == AddressBytes(ta).value + UintWord(v).value + inner;
    assert PackCall(c1).value == AddressBytes(ta).value + UintWord(v).value;
    assert PackCall(c2).value == inner;
    assert [c] != [c1, c2];
  }

  /** A 32-byte digest makes a 60-byte personal message: 28 bytes of prefix and length "32", then the digest. */
  lemma PersonalMessageOfDigest(m: seq<byte>)
    requires |m| == 32
    ensures |PersonalMessage(m)| == 60
    ensures PersonalMessage(m)[..28] == PersonalPrefix + [0x33, 0x32]
    ensures PersonalMessage(m)[28..] == m
  {
    assert ToDecimal(3) == ['3'];
    assert ToDecimal(32) == ToDecimal(3) + ['2'];
    assert DigitBytes(['2']) == [0x32];
    assert DigitBytes(['3', '2']) == [0x33] + DigitBytes(['2']);
    var prefix := PersonalPrefix + DigitBytes(ToDecimal(|m|));
    assert |prefix| == 28;
    assert PersonalMessage(m) == prefix + m;
  }
}

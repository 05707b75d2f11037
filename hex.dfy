/**
 * Character classes, hexadecimal and decimal numerals, bytes and big-endian words:
 * the primitives under every address, amount and calldata check of the tool.
 * The regular expressions of the source (`^0x[0-9a-fA-F]{40}$` and friends) are
 * stated here as predicates over `seq<char>`.
 */
module Hex {
  import opened Wrappers

  type byte = b: int | 0 <= b < 256

  predicate IsDigit(c: char) { '0' <= c <= '9' }

  predicate IsHexDigit(c: char) { IsDigit(c) || 'a' <= c <= 'f' || 'A' <= c <= 'F' }

  predicate AllDigits(s: string) { forall i | 0 <= i < |s| :: IsDigit(s[i]) }

  predicate AllHex(s: string) { forall i | 0 <= i < |s| :: IsHexDigit(s[i]) }

  predicate StartsWith(s: string, prefix: string) { |prefix| <= |s| && s[..|prefix|] == prefix }

  /** `^0x[0-9a-fA-F]*$`: a `0x`-prefixed string of hexadecimal digits, possibly empty. */
  predicate IsHexData(s: string) { StartsWith(s, "0x") && AllHex(s[2..]) }

  /** `^0x[0-9a-fA-F]+$`: a `0x`-prefixed string of at least one hexadecimal digit. */
  predicate IsHexQuantity(s: string) { IsHexData(s) && |s| > 2 }

  /** `^0x[0-9a-fA-F]{40}$`: a 20-byte address in hexadecimal, either case. */
  predicate IsAddress(s: string) { IsHexData(s) && |s| == 42 }

  function Pow(base: nat, e: nat): (r: nat)
    ensures base > 0 ==> r > 0
  {
    if e == 0 then 1 else base * Pow(base, e - 1)
  }

  /** 2^256 - 1, the largest `uint256` (see `Uint256Bound`). */
  const MaxUint256: nat := 0xffff_ffff_ffff_ffff_ffff_ffff_ffff_ffff_ffff_ffff_ffff_ffff_ffff_ffff_ffff_ffff

  function DigitValue(c: char): (v: nat)
    requires IsDigit(c)
    ensures v < 10
  {
    c as int - '0' as int
  }

  function HexDigitValue(c: char): (v: nat)
    requires IsHexDigit(c)
    ensures v < 16
    ensures IsDigit(c) ==> v == DigitValue(c)
  {
    if IsDigit(c) then DigitValue(c)
    else if 'a' <= c <= 'f' then c as int - 'a' as int + 10
    else c as int - 'A' as int + 10
  }

  function DecimalDigit(v: nat): (c: char)
    requires v < 10
    ensures IsDigit(c) && DigitValue(c) == v
  {
    ('0' as int + v) as char
  }

  function LowerHexDigit(v: nat): (c: char)
    requires v < 16
    ensures IsHexDigit(c) && HexDigitValue(c) == v
    ensures !('A' <= c <= 'F')
  {
    if v < 10 then ('0' as int + v) as char else ('a' as int + v - 10) as char
  }

  function Repeat(c: char, n: nat): (s: string)
    ensures |s| == n && forall i | 0 <= i < n :: s[i] == c
  {
    if n == 0 then [] else Repeat(c, n - 1) + [c]
  }

  /** The number denoted by a string of decimal digits, most significant first (the empty string denotes 0). */
  function DecimalValue(s: string): nat
    requires AllDigits(s)
  {
    if s == [] then 0 else DecimalValue(s[..|s| - 1]) * 10 + DigitValue(s[|s| - 1])
  }

  /** The number denoted by a string of hexadecimal digits of either case, most significant first. */
  function HexValue(s: string): nat
    requires AllHex(s)
  {
    if s == [] then 0 else HexValue(s[..|s| - 1]) * 16 + HexDigitValue(s[|s| - 1])
  }

  /** JavaScript's `n.toString()` for a non-negative integer: decimal digits without leading zeros. */
  function ToDecimal(n: nat): (s: string)
    ensures |s| > 0 && AllDigits(s)
  {
    if n < 10 then [DecimalDigit(n)] else ToDecimal(n / 10) + [DecimalDigit(n % 10)]
  }

  /** JavaScript's `n.toString(16)` for a non-negative integer: lowercase hexadecimal without leading zeros. */
  function ToHex(n: nat): (s: string)
    ensures |s| > 0 && AllHex(s)
  {
    if n < 16 then [LowerHexDigit(n)] else ToHex(n / 16) + [LowerHexDigit(n % 16)]
  }

  lemma {:induction false} DecimalValueOfToDecimal(n: nat)
    ensures DecimalValue(ToDecimal(n)) == n
  {
    if n >= 10 {
      var s := ToDecimal(n / 10) + [DecimalDigit(n % 10)];
      assert s[..|s| - 1] == ToDecimal(n / 10);
      DecimalValueOfToDecimal(n / 10);
    }
  }

  lemma {:induction false} HexValueOfToHex(n: nat)
    ensures HexValue(ToHex(n)) == n
  {
    if n >= 16 {
      var s := ToHex(n / 16) + [LowerHexDigit(n % 16)];
      assert s[..|s| - 1] == ToHex(n / 16);
      HexValueOfToHex(n / 16);
    }
  }

  /** Distinct numbers have distinct decimal renderings. */
  lemma ToDecimalInjective(a: nat, b: nat)
    requires ToDecimal(a) == ToDecimal(b)
    ensures a == b
  {
    DecimalValueOfToDecimal(a);
    DecimalValueOfToDecimal(b);
  }

  lemma AllDigitsAppend(a: string, b: string)
    requires AllDigits(a) && AllDigits(b)
    ensures AllDigits(a + b)
  {
    forall i | 0 <= i < |a + b| ensures IsDigit((a + b)[i]) {
      if i < |a| { assert (a + b)[i] == a[i]; } else { assert (a + b)[i] == b[i - |a|]; }
    }
  }

  lemma {:induction false} DecimalValueAppend(a: string, b: string)
    requires AllDigits(a) && AllDigits(b)
    ensures AllDigits(a + b)
    ensures DecimalValue(a + b) == DecimalValue(a) * Pow(10, |b|) + DecimalValue(b)
  {
    AllDigitsAppend(a, b);
    if b == [] {
      assert a + b == a;
    } else {
      var b' := b[..|b| - 1];
      var d := DigitValue(b[|b| - 1]);
      assert (a + b)[..|a + b| - 1] == a + b';
      assert (a + b)[|a + b| - 1] == b[|b| - 1];
      DecimalValueAppend(a, b');
      var x, y, p := DecimalValue(a), DecimalValue(b'), Pow(10, |b'|);
      assert DecimalValue(a + b) == (x * p + y) * 10 + d;
      assert Pow(10, |b|) == p * 10;
      assert DecimalValue(b) == y * 10 + d;
      Regroup(x, y, p, d);
    }
  }

  lemma Regroup(x: int, y: int, p: int, d: int)
    ensures (x * p + y) * 10 + d == x * (p * 10) + (y * 10 + d)
  {
  }

  lemma {:induction false} DecimalValueBound(s: string)
    requires AllDigits(s)
    ensures DecimalValue(s) < Pow(10, |s|)
  {
    if s != [] {
      DecimalValueBound(s[..|s| - 1]);
    }
  }

  lemma {:induction false} DecimalValueOfZeros(n: nat)
    ensures AllDigits(Repeat('0', n)) && DecimalValue(Repeat('0', n)) == 0
  {
    if n > 0 {
      assert Repeat('0', n)[..n - 1] == Repeat('0', n - 1);
      DecimalValueOfZeros(n - 1);
    }
  }

  /** `ToHex` renders 16^k - 1 as k lowercase `f` digits. */
  lemma {:induction false} ToHexOfAllOnes(k: nat)
    requires k > 0
    ensures ToHex(Pow(16, k) - 1) == Repeat('f', k)
  {
    if k > 1 {
      var n := Pow(16, k) - 1;
      assert Pow(16, k) == 16 * Pow(16, k - 1);
      assert n / 16 == Pow(16, k - 1) - 1 && n % 16 == 15;
      ToHexOfAllOnes(k - 1);
    }
  }

  lemma {:induction false} PowMultiply(b: nat, m: nat, n: nat)
    ensures Pow(b, m * n) == Pow(Pow(b, m), n)
  {
    if n > 0 {
      PowMultiply(b, m, n - 1);
      PowAdd(b, m, m * (n - 1));
      assert m * n == m + m * (n - 1);
    }
  }

  lemma MulAssoc(x: nat, y: nat, z: nat)
    ensures x * (y * z) == (x * y) * z
  {
  }

  lemma {:induction false} PowAdd(b: nat, m: nat, n: nat)
    ensures Pow(b, m + n) == Pow(b, m) * Pow(b, n)
  {
    if m > 0 {
      PowAdd(b, m - 1, n);
      assert Pow(b, m + n) == b * Pow(b, (m - 1) + n);
      MulAssoc(b, Pow(b, m - 1), Pow(b, n));
    }
  }

  /** 2^256, written as 256^32 and as 16^64, is one more than `MaxUint256`. */
  lemma Uint256Bound()
    ensures Pow(2, 256) == MaxUint256 + 1
    ensures Pow(256, 32) == MaxUint256 + 1
    ensures Pow(16, 64) == MaxUint256 + 1
  {
    assert Pow(2, 8) == 0x100;
    PowAdd(2, 8, 8);
    assert Pow(2, 16) == 0x1_0000;
    PowAdd(2, 16, 16);
    assert Pow(2, 32) == 0x1_0000_0000;
    PowAdd(2, 32, 32);
    assert Pow(2, 64) == 0x1_0000_0000_0000_0000;
    PowAdd(2, 64, 64);
    assert Pow(2, 128) == 0x1_0000_0000_0000_0000_0000_0000_0000_0000;
    PowAdd(2, 128, 128);
    PowMultiply(2, 8, 32);
    assert Pow(2, 4) == 16;
    PowMultiply(2, 4, 64);
  }

  /** 10^18, the number of wei in one ether. */
  lemma Pow10Of18()
    ensures Pow(10, 18) == 1_000_000_000_000_000_000
  {
    assert Pow(10, 6) == 1_000_000;
    PowAdd(10, 6, 6);
    PowAdd(10, 12, 6);
  }

  /** The unlimited-approval amount 2^256 - 1 is, in hexadecimal, sixty-four `f` digits. */
  lemma MaxUint256Hex()
    ensures ToHex(MaxUint256) == Repeat('f', 64)
  {
    Uint256Bound();
    ToHexOfAllOnes(64);
  }

  /** The low `k` decimal digits of `r`, with leading zeros. */
  function Padded(r: nat, k: nat): (s: string)
    ensures |s| == k && AllDigits(s)
  {
    if k == 0 then [] else Padded(r / 10, k - 1) + [DecimalDigit(r % 10)]
  }

  /** The low `k` hexadecimal digits of `r`, lowercase, with leading zeros. */
  function PaddedHex(r: nat, k: nat): (s: string)
    ensures |s| == k && AllHex(s)
  {
    if k == 0 then [] else PaddedHex(r / 16, k - 1) + [LowerHexDigit(r % 16)]
  }

  /** The four low hexadecimal digits of `r`, one by one. */
  lemma PaddedHex4(r: nat)
    ensures PaddedHex(r, 4) ==
      [LowerHexDigit(r / 16 / 16 / 16 % 16), LowerHexDigit(r / 16 / 16 % 16), LowerHexDigit(r / 16 % 16), LowerHexDigit(r % 16)]
  {
    var r1 := r / 16;
    var r2 := r1 / 16;
    var r3 := r2 / 16;
    assert PaddedHex(r3, 1) == [LowerHexDigit(r3 % 16)];
    assert PaddedHex(r2, 2) == [LowerHexDigit(r3 % 16), LowerHexDigit(r2 % 16)];
    assert PaddedHex(r1, 3) == [LowerHexDigit(r3 % 16), LowerHexDigit(r2 % 16), LowerHexDigit(r1 % 16)];
  }

  /** The six low decimal digits of `r`, one by one. */
  lemma Padded6(r: nat)
    ensures Padded(r, 6) ==
      [DecimalDigit(r / 10 / 10 / 10 / 10 / 10 % 10), DecimalDigit(r / 10 / 10 / 10 / 10 % 10),
       DecimalDigit(r / 10 / 10 / 10 % 10), DecimalDigit(r / 10 / 10 % 10), DecimalDigit(r / 10 % 10), DecimalDigit(r % 10)]
  {
    var r1 := r / 10;
    var r2 := r1 / 10;
    var r3 := r2 / 10;
    var r4 := r3 / 10;
    var r5 := r4 / 10;
    assert Padded(r5, 1) == [DecimalDigit(r5 % 10)];
    assert Padded(r4, 2) == [DecimalDigit(r5 % 10), DecimalDigit(r4 % 10)];
    assert Padded(r3, 3) == [DecimalDigit(r5 % 10), DecimalDigit(r4 % 10), DecimalDigit(r3 % 10)];
    assert Padded(r2, 4) == [DecimalDigit(r5 % 10), DecimalDigit(r4 % 10), DecimalDigit(r3 % 10), DecimalDigit(r2 % 10)];
    assert Padded(r1, 5) ==
      [DecimalDigit(r5 % 10), DecimalDigit(r4 % 10), DecimalDigit(r3 % 10), DecimalDigit(r2 % 10), DecimalDigit(r1 % 10)];
  }

  lemma DivBounds(q: nat, p: nat, b: nat)
    requires b > 0 && p > 0 && b * p <= q < b * (b * p)
    ensures p <= q / b < b * p
  {
    var d, m := q / b, q % b;
    assert q == d * b + m && m < b;
    if d < p {
      MulLe(d + 1, p, b);
    }
    if d >= b * p {
      MulLe(b * p, d, b);
    }
  }

  lemma MulLe(x: nat, y: nat, b: nat)
    requires x <= y
    ensures x * b <= y * b
  {
  }

  /** A number of exactly k decimal digits renders as its k low digits. */
  lemma {:induction false} ToDecimalPadded(q: nat, k: nat)
    requires k >= 1 && Pow(10, k - 1) <= q < Pow(10, k)
    ensures ToDecimal(q) == Padded(q, k)
  {
    if k > 1 {
      assert Pow(10, k) == 10 * Pow(10, k - 1);
      assert Pow(10, k - 1) == 10 * Pow(10, k - 2);
      DivBounds(q, Pow(10, k - 2), 10);
      ToDecimalPadded(q / 10, k - 1);
    }
  }

  /** A number of exactly k hexadecimal digits renders as its k low digits. */
  lemma {:induction false} ToHexPadded(q: nat, k: nat)
    requires k >= 1 && Pow(16, k - 1) <= q < Pow(16, k)
    ensures ToHex(q) == PaddedHex(q, k)
  {
    if k > 1 {
      assert Pow(16, k) == 16 * Pow(16, k - 1);
      assert Pow(16, k - 1) == 16 * Pow(16, k - 2);
      DivBounds(q, Pow(16, k - 2), 16);
      ToHexPadded(q / 16, k - 1);
    }
  }

  /** Splitting `q · b^k + r` at its last digit in base `b`. */
  lemma ShiftStep(q: nat, r: nat, p: nat, b: nat)
    requires b == 10 || b == 16
    requires q > 0 && p > 0 && r < b * p
    ensures r / b < p
    ensures q * (b * p) + r == (q * p + r / b) * b + r % b
    ensures (q * p + r / b) * b + r % b >= b
    ensures ((q * p + r / b) * b + r % b) / b == q * p + r / b
    ensures ((q * p + r / b) * b + r % b) % b == r % b
  {
    var a := q * p + r / b;
    assert q * (b * p) == (q * p) * b;
    assert r == (r / b) * b + r % b;
    assert q * p >= 1;
  }

  /** The decimal text of `q · 10^k + r` is the text of `q` followed by the `k` low digits of `r`. */
  lemma {:induction false} ToDecimalShift(q: nat, r: nat, k: nat)
    requires q > 0 && r < Pow(10, k)
    ensures ToDecimal(q * Pow(10, k) + r) == ToDecimal(q) + Padded(r, k)
  {
    if k > 0 {
      var p := Pow(10, k - 1);
      ShiftStep(q, r, p, 10);
      ToDecimalShift(q, r / 10, k - 1);
      var n := q * Pow(10, k) + r;
      assert n >= 10 && n / 10 == q * p + r / 10 && n % 10 == r % 10;
      assert ToDecimal(n) == ToDecimal(n / 10) + [DecimalDigit(n % 10)];
    }
  }

  /** The hexadecimal text of `q · 16^k + r` is the text of `q` followed by the `k` low digits of `r`. */
  lemma {:induction false} ToHexShift(q: nat, r: nat, k: nat)
    requires q > 0 && r < Pow(16, k)
    ensures ToHex(q * Pow(16, k) + r) == ToHex(q) + PaddedHex(r, k)
  {
    if k > 0 {
      var p := Pow(16, k - 1);
      ShiftStep(q, r, p, 16);
      ToHexShift(q, r / 16, k - 1);
      var n := q * Pow(16, k) + r;
      assert n >= 16 && n / 16 == q * p + r / 16 && n % 16 == r % 16;
      assert ToHex(n) == ToHex(n / 16) + [LowerHexDigit(n % 16)];
    }
  }

  // ---------------------------------------------------------------- bytes

  /** The low `width` bytes of `n`, most significant first (Solidity's fixed-width big-endian integer). */
  function BigEndian(n: nat, width: nat): (r: seq<byte>)
    ensures |r| == width
  {
    if width == 0 then [] else BigEndian(n / 256, width - 1) + [n % 256]
  }

  /** The number a big-endian byte string denotes. */
  function FromBigEndian(s: seq<byte>): nat
  {
    if s == [] then 0 else FromBigEndian(s[..|s| - 1]) * 256 + s[|s| - 1]
  }

  lemma {:induction false} FromBigEndianBound(s: seq<byte>)
    ensures FromBigEndian(s) < Pow(256, |s|)
  {
    if s != [] {
      FromBigEndianBound(s[..|s| - 1]);
    }
  }

  /** Decoding inverts encoding for every number that fits the width. */
  lemma {:induction false} FromBigEndianOfBigEndian(n: nat, width: nat)
    requires n < Pow(256, width)
    ensures FromBigEndian(BigEndian(n, width)) == n
  {
    if width > 0 {
      var r := BigEndian(n / 256, width - 1) + [n % 256];
      assert r[..|r| - 1] == BigEndian(n / 256, width - 1);
      assert n / 256 < Pow(256, width - 1);
      FromBigEndianOfBigEndian(n / 256, width - 1);
    }
  }

  /** Encoding inverts decoding: every byte string is the encoding of the number it denotes. */
  lemma {:induction false} BigEndianOfFromBigEndian(s: seq<byte>)
    ensures BigEndian(FromBigEndian(s), |s|) == s
  {
    if s != [] {
      var p := s[..|s| - 1];
      var n := FromBigEndian(s);
      assert n / 256 == FromBigEndian(p) && n % 256 == s[|s| - 1];
      BigEndianOfFromBigEndian(p);
      assert s == p + [s[|s| - 1]];
    }
  }

  /** Two numbers below 256^width with the same encoding are equal. */
  lemma BigEndianInjective(a: nat, b: nat, width: nat)
    requires a < Pow(256, width) && b < Pow(256, width)
    requires BigEndian(a, width) == BigEndian(b, width)
    ensures a == b
  {
    FromBigEndianOfBigEndian(a, width);
    FromBigEndianOfBigEndian(b, width);
  }

  /**
   * The bytes a string of hexadecimal digit pairs denotes; `None` when the number
   * of digits is odd (ethers' `getBytes`, which refuses odd-length hex).
   */
  function HexToBytes(s: string): (r: Option<seq<byte>>)
    requires AllHex(s)
    ensures r.Some? <==> |s| % 2 == 0
    ensures r.Some? ==> 2 * |r.value| == |s|
  {
    if |s| == 0 then Some([])
    else if |s| == 1 then None
    else match HexToBytes(s[2..])
      case None => None
      case Some(rest) => Some([HexDigitValue(s[0]) * 16 + HexDigitValue(s[1])] + rest)
  }

  /** Lowercase hexadecimal, two digits per byte, without a prefix. */
  function BytesToHex(b: seq<byte>): (s: string)
    ensures |s| == 2 * |b| && AllHex(s)
  {
    if b == [] then [] else [LowerHexDigit(b[0] / 16), LowerHexDigit(b[0] % 16)] + BytesToHex(b[1..])
  }

  lemma {:induction false} HexToBytesOfBytesToHex(b: seq<byte>)
    ensures HexToBytes(BytesToHex(b)) == Some(b)
  {
    if b != [] {
      var s := BytesToHex(b);
      assert s[2..] == BytesToHex(b[1..]);
      HexToBytesOfBytesToHex(b[1..]);
      assert [b[0]] + b[1..] == b;
    }
  }

  /** ethers' `getBytes` on a string: the bytes of `0x`-prefixed, even-length hexadecimal data. */
  function DataBytes(s: string): (r: Option<seq<byte>>)
    ensures r.Some? <==> IsHexData(s) && |s| % 2 == 0
    ensures r.Some? ==> 2 + 2 * |r.value| == |s|
  {
    if IsHexData(s) then HexToBytes(s[2..]) else None
  }

  /** `0x` followed by the lowercase hexadecimal of `b`: the form ethers returns encoded calldata in. */
  function HexData(b: seq<byte>): (s: string)
    ensures IsHexData(s) && |s| == 2 + 2 * |b|
  {
    assert ("0x" + BytesToHex(b))[2..] == BytesToHex(b);
    "0x" + BytesToHex(b)
  }

  lemma DataBytesOfHexData(b: seq<byte>)
    ensures DataBytes(HexData(b)) == Some(b)
  {
    assert HexData(b)[2..] == BytesToHex(b);
    HexToBytesOfBytesToHex(b);
  }

  /** The 20 bytes of an address string; `None` unless it is `0x` and forty hexadecimal digits. */
  function AddressBytes(s: string): (r: Option<seq<byte>>)
    ensures r.Some? <==> IsAddress(s)
    ensures r.Some? ==> |r.value| == 20
  {
    if IsAddress(s) then HexToBytes(s[2..]) else None
  }
}

/**
 * Amounts: the decimal-numeral grammar of human-entered quantities, their exact
 * scaling to minor units, and the number parsers the tool relies on (ethers'
 * `parseUnits` and `getBigInt`, JavaScript's `parseInt`, and the acceptance test
 * `!isNaN(parseFloat(s))`), all on strings and unbounded integers.
 */
module Amounts {
  import opened Wrappers
  import opened Hex

  /** The first index of `c` in `s`, or `|s|` when `c` does not occur. */
  function IndexOf(s: string, c: char): (k: nat)
    ensures k <= |s|
    ensures k < |s| ==> s[k] == c
    ensures forall j | 0 <= j < k :: s[j] != c
  {
    if s == [] then 0 else if s[0] == c then 0 else 1 + IndexOf(s[1..], c)
  }

  /** The longest prefix of `s` made of decimal digits. */
  function DigitPrefix(s: string): (p: string)
    ensures |p| <= |s| && p == s[..|p|] && AllDigits(p)
    ensures |p| < |s| ==> !IsDigit(s[|p|])
  {
    if s == [] || !IsDigit(s[0]) then [] else [s[0]] + DigitPrefix(s[1..])
  }

  /** The longest prefix of `s` made of hexadecimal digits. */
  function HexPrefix(s: string): (p: string)
    ensures |p| <= |s| && p == s[..|p|] && AllHex(p)
    ensures |p| < |s| ==> !IsHexDigit(s[|p|])
  {
    if s == [] || !IsHexDigit(s[0]) then [] else [s[0]] + HexPrefix(s[1..])
  }

  predicate AllZeros(s: string) { forall i | 0 <= i < |s| :: s[i] == '0' }

  // ------------------------------------------------------------ numerals

  /** A decimal numeral split at its point: the digits before it and the digits after it (`""` when there is no point). */
  datatype Numeral = Numeral(whole: string, frac: string)

  predicate WellFormed(n: Numeral) { |n.whole| > 0 && AllDigits(n.whole) && AllDigits(n.frac) }

  /** The text of a numeral: its whole digits, then a point and the fraction digits when there are any. */
  function Text(n: Numeral): string
  {
    if n.frac == [] then n.whole else n.whole + "." + n.frac
  }

  /** `^\d+(\.\d+)?$`: one or more digits, optionally followed by a point and one or more digits. */
  function ParseNumeral(s: string): (r: Option<Numeral>)
    ensures r.Some? ==> WellFormed(r.value) && Text(r.value) == s
  {
    var k := IndexOf(s, '.');
    if k == |s| then
      if |s| > 0 && AllDigits(s) then Some(Numeral(s, [])) else None
    else if 0 < k && AllDigits(s[..k]) && k + 1 < |s| && AllDigits(s[k + 1..]) then
      assert s == s[..k] + "." + s[k + 1..];
      Some(Numeral(s[..k], s[k + 1..]))
    else None
  }

  predicate IsDecimalNumeral(s: string) { ParseNumeral(s).Some? }

  /** Every well-formed numeral is accepted, and read back unchanged: the grammar is exactly `^\d+(\.\d+)?$`. */
  lemma ParseNumeralOfText(n: Numeral)
    requires WellFormed(n)
    ensures ParseNumeral(Text(n)) == Some(n)
  {
    var s := Text(n);
    if n.frac == [] {
      assert forall j | 0 <= j < |s| :: s[j] != '.' by {
        forall j | 0 <= j < |s| ensures s[j] != '.' { assert IsDigit(s[j]); }
      }
      IndexOfAbsent(s, '.');
    } else {
      var w := |n.whole|;
      assert s[w] == '.';
      assert forall j | 0 <= j < w :: s[j] != '.' by {
        forall j | 0 <= j < w ensures s[j] != '.' { assert s[j] == n.whole[j]; assert IsDigit(n.whole[j]); }
      }
      IndexOfFirst(s, '.', w);
      assert s[..w] == n.whole;
      assert s[w + 1..] == n.frac;
    }
  }

  lemma IndexOfAbsent(s: string, c: char)
    requires forall j | 0 <= j < |s| :: s[j] != c
    ensures IndexOf(s, c) == |s|
  {
  }

  lemma IndexOfFirst(s: string, c: char, k: nat)
    requires k < |s| && s[k] == c
    requires forall j | 0 <= j < k :: s[j] != c
    ensures IndexOf(s, c) == k
  {
  }

  /** The first `d` fraction digits, padded on the right with zeros when there are fewer. */
  function FracDigits(frac: string, d: nat): (r: string)
    requires AllDigits(frac)
    ensures |r| == d && AllDigits(r)
  {
    if |frac| >= d then frac[..d] else
      DecimalValueOfZeros(d - |frac|);
      AllDigitsAppend(frac, Repeat('0', d - |frac|));
      frac + Repeat('0', d - |frac|)
  }

  /** The numeral scaled by 10^d and truncated to an integer, computed on its digits. */
  function Scale(n: Numeral, d: nat): nat
    requires WellFormed(n)
  {
    AllDigitsAppend(n.whole, FracDigits(n.frac, d));
    DecimalValue(n.whole + FracDigits(n.frac, d))
  }

  /** The numerator of a numeral over 10^|frac|: the number its digits denote with the point removed. */
  function Digits(n: Numeral): nat
    requires WellFormed(n)
  {
    AllDigitsAppend(n.whole, n.frac);
    DecimalValue(n.whole + n.frac)
  }

  /**
   * `Scale` is the floor of the numeral's value times 10^d. With the value written
   * as Digits(n) / 10^|frac|, the floor S is the one integer with
   * S * 10^|frac| <= Digits(n) * 10^d < (S + 1) * 10^|frac|.
   */
  lemma ScaleIsFloor(n: Numeral, d: nat)
    requires WellFormed(n)
    ensures Scale(n, d) * Pow(10, |n.frac|) <= Digits(n) * Pow(10, d) < (Scale(n, d) + 1) * Pow(10, |n.frac|)
  {
    if |n.frac| <= d {
      ScaleShortFraction(n, d);
    } else {
      ScaleLongFraction(n, d);
    }
  }

  lemma ScaleShortFraction(n: Numeral, d: nat)
    requires WellFormed(n) && |n.frac| <= d
    ensures Scale(n, d) * Pow(10, |n.frac|) == Digits(n) * Pow(10, d)
  {
    var L := |n.frac|;
    var z := Repeat('0', d - L);
    var W, F := DecimalValue(n.whole), DecimalValue(n.frac);
    assert Digits(n) == W * Pow(10, L) + F by {
      DecimalValueAppend(n.whole, n.frac);
    }
    assert DecimalValue(n.frac + z) == F * Pow(10, d - L) by {
      DecimalValueOfZeros(d - L);
      DecimalValueAppend(n.frac, z);
    }
    assert Scale(n, d) == W * Pow(10, d) + F * Pow(10, d - L) by {
      assert FracDigits(n.frac, d) == n.frac + z;
      DecimalValueAppend(n.whole, n.frac + z);
    }
    PowAdd(10, L, d - L);
    ExactWhenShort(W, F, Pow(10, L), Pow(10, d - L), Scale(n, d));
  }

  lemma ScaleLongFraction(n: Numeral, d: nat)
    requires WellFormed(n) && |n.frac| > d
    ensures Scale(n, d) * Pow(10, |n.frac|) <= Digits(n) * Pow(10, d) < (Scale(n, d) + 1) * Pow(10, |n.frac|)
  {
    var L := |n.frac|;
    SplitFraction(n.frac, d);
    var W, A, B := DecimalValue(n.whole), DecimalValue(n.frac[..d]), DecimalValue(n.frac[d..]);
    var pD, pE, pL := Pow(10, d), Pow(10, L - d), Pow(10, L);
    PowAdd(10, d, L - d);
    DigitsValue(n);
    ScaleOfLong(n, d);
    FloorWhenLong(W, A, B, pD, pE, pL, Digits(n), Scale(n, d));
  }

  lemma DigitsValue(n: Numeral)
    requires WellFormed(n)
    ensures Digits(n) == DecimalValue(n.whole) * Pow(10, |n.frac|) + DecimalValue(n.frac)
  {
    DecimalValueAppend(n.whole, n.frac);
  }

  lemma ScaleOfLong(n: Numeral, d: nat)
    requires WellFormed(n) && |n.frac| > d
    ensures AllDigits(n.frac[..d])
    ensures Scale(n, d) == DecimalValue(n.whole) * Pow(10, d) + DecimalValue(n.frac[..d])
  {
    SplitFraction(n.frac, d);
    assert FracDigits(n.frac, d) == n.frac[..d];
    DecimalValueAppend(n.whole, n.frac[..d]);
  }

  /** Cutting a fraction after d digits: its value is the kept digits shifted past the dropped ones, plus the dropped ones. */
  lemma SplitFraction(frac: string, d: nat)
    requires AllDigits(frac) && d < |frac|
    ensures AllDigits(frac[..d]) && AllDigits(frac[d..])
    ensures DecimalValue(frac) == DecimalValue(frac[..d]) * Pow(10, |frac| - d) + DecimalValue(frac[d..])
    ensures DecimalValue(frac[d..]) < Pow(10, |frac| - d)
  {
    assert frac == frac[..d] + frac[d..];
    AllDigitsAppend(frac[..d], frac[d..]);
    DecimalValueAppend(frac[..d], frac[d..]);
    DecimalValueBound(frac[d..]);
  }

  lemma ExactWhenShort(W: nat, F: nat, pL: nat, pR: nat, S: nat)
    requires pL > 0 && pR > 0
    requires S == W * (pL * pR) + F * pR
    ensures S * pL == (W * pL + F) * (pL * pR)
  {
    assert S == (W * pL + F) * pR;
    assert S * pL == (W * pL + F) * (pL * pR);
  }

  lemma FloorWhenLong(W: nat, A: nat, B: nat, pD: nat, pE: nat, pL: nat, N: nat, S: nat)
    requires pD > 0 && pE > 0 && B < pE && pL == pD * pE
    requires S == W * pD + A && N == W * pL + (A * pE + B)
    ensures S * pL <= N * pD < (S + 1) * pL
  {
    assert N == S * pE + B;
    assert N * pD == S * pE * pD + B * pD;
    assert B * pD < pE * pD;
  }

  /** A decimal numeral never starts with `0x`: its second character is a digit or the point. */
  lemma NumeralHasNoHexPrefix(s: string)
    requires IsDecimalNumeral(s)
    ensures !StartsWith(s, "0x")
  {
    var n := ParseNumeral(s).value;
    if |s| >= 2 {
      if |n.whole| >= 2 {
        assert s[1] == n.whole[1] && IsDigit(n.whole[1]);
      } else {
        assert n.frac != [] && s[1] == '.';
      }
    }
  }

  // ------------------------------------------------------------ ethers parsers

  /**
   * ethers' `parseUnits(s, d)`; `parseEther(s)` is `parseUnits(s, 18)`. The string
   * must match `^(-?)([0-9]*)\.?([0-9]*)$` with at least one digit, and every
   * fraction digit past the `d`-th must be `0`; the result is the exact s × 10^d, and it
   * must fit the signed 512-bit `FixedNumber` that `parseUnits` builds.
   */
  function ParseUnits(s: string, d: nat): Option<int>
  {
    var neg := StartsWith(s, "-");
    var body := if neg then s[1..] else s;
    var k := IndexOf(body, '.');
    var whole := body[..k];
    var frac := if k < |body| then body[k + 1..] else [];
    if !AllDigits(whole) || !AllDigits(frac) || |whole| + |frac| == 0 then None
    else if |frac| > d && !AllZeros(frac[d..]) then None
    else
      AllDigitsAppend(whole, FracDigits(frac, d));
      var m: int := DecimalValue(whole + FracDigits(frac, d));
      var v := if neg then -m else m;
      if -(FixedWidthLimit as int) <= v < FixedWidthLimit then Some(v) else None
  }

  /** 2^511: `FixedNumber.fromString` with width 512 refuses values outside [-2^511, 2^511) as an overflow. */
  const FixedWidthLimit: nat := Pow(2, 511)

  /**
   * On the numerals of `^\d+(\.\d+)?$`, `parseUnits` is `Scale` when no non-zero
   * digit lies past the `d`-th fraction digit and the scaled value is below 2^511,
   * and otherwise fails.
   */
  lemma ParseUnitsOfNumeral(s: string, d: nat)
    requires IsDecimalNumeral(s)
    ensures var n := ParseNumeral(s).value;
      ParseUnits(s, d) ==
        if |n.frac| > d && !AllZeros(n.frac[d..]) then None
        else if Scale(n, d) >= FixedWidthLimit then None
        else Some(Scale(n, d))
  {
    var n := ParseNumeral(s).value;
    var k := IndexOf(s, '.');
    if n.frac != [] {
      assert s[0] == n.whole[0] && IsDigit(n.whole[0]);
    } else {
      assert IsDigit(s[0]);
    }
    assert !StartsWith(s, "-");
    if k < |s| {
      assert s[..k] == n.whole && s[k + 1..] == n.frac;
    } else {
      assert s[..k] == n.whole && n.frac == [];
    }
  }

  /**
   * The value of a literal that JavaScript's `BigInt` accepts here: `0x`/`0X` hexadecimal,
   * decimal digits with an optional `+` sign, or `""` (zero).
   */
  function BigIntLiteral(s: string): Option<nat>
  {
    if |s| > 2 && (s[..2] == "0x" || s[..2] == "0X") && AllHex(s[2..]) then Some(HexValue(s[2..]))
    else if AllDigits(s) then Some(DecimalValue(s))
    else if |s| > 1 && s[0] == '+' && AllDigits(s[1..]) then Some(DecimalValue(s[1..]))
    else None
  }

  /** `BigInt("+5")` is 5: a plus sign before decimal digits is accepted. */
  lemma PlusSignAccepted(s: string)
    requires s == "+5"
    ensures GetBigInt(s) == Some(5)
  {
    var t := s[1..];
    assert t == "5" && !IsDigit(s[0]) && !(s[..2] == "0x" || s[..2] == "0X");
    assert t[..0] == [];
    assert DecimalValue(t) == 5;
  }

  /**
   * ethers' `getBigInt` on a string: the empty string is refused, a single leading
   * `-` negates the literal after it, anything else is read by `BigInt`.
   */
  function GetBigInt(s: string): Option<int>
  {
    if s == [] then None
    else if s[0] == '-' && (|s| == 1 || s[1] != '-') then
      match BigIntLiteral(s[1..])
      case Some(v) => Some(-(v as int))
      case None => None
    else match BigIntLiteral(s)
      case Some(v) => Some(v)
      case None => None
  }

  /** A `0x` hexadecimal quantity reads as the number its digits denote. */
  lemma GetBigIntOfHex(s: string)
    requires IsHexQuantity(s)
    ensures GetBigInt(s) == Some(HexValue(s[2..]))
  {
    assert s[0] == '0';
  }

  // ------------------------------------------------------------ JavaScript parsers

  /**
   * JavaScript's `parseInt(s)` without a radix, on a string without leading white
   * space (the tool trims its input): an optional sign, then a `0x`/`0X` prefix
   * and the longest run of hexadecimal digits, or the longest run of decimal
   * digits. `None` stands for `NaN`, the result when that run is empty.
   */
  function ParseInt(s: string): (r: Option<int>)
  {
    var neg := |s| > 0 && s[0] == '-';
    var unsigned := if |s| > 0 && (s[0] == '-' || s[0] == '+') then s[1..] else s;
    var hex := |unsigned| >= 2 && (unsigned[..2] == "0x" || unsigned[..2] == "0X");
    var run := if hex then HexPrefix(unsigned[2..]) else DigitPrefix(unsigned);
    if run == [] then None
    else
      var m: int := if hex then HexValue(run) else DecimalValue(run);
      Some(if neg then -m else m)
  }

  /** For a string of decimal digits `parseInt` is the number they denote. */
  lemma ParseIntOfDigits(s: string)
    requires |s| > 0 && AllDigits(s)
    ensures ParseInt(s) == Some(DecimalValue(s))
  {
    DigitPrefixOfDigits(s);
    assert IsDigit(s[0]);
    assert s[0] != '-' && s[0] != '+';
    if |s| >= 2 {
      assert IsDigit(s[1]);
      assert s[..2] != "0x" && s[..2] != "0X" by { assert s[..2][1] == s[1]; }
    }
  }

  lemma {:induction false} DigitPrefixOfDigits(s: string)
    requires AllDigits(s)
    ensures DigitPrefix(s) == s
  {
    if s != [] {
      DigitPrefixOfDigits(s[1..]);
    }
  }

  /** The characters `parseFloat` skips before a number (the white space and line terminators of JavaScript). */
  predicate IsJsWhiteSpace(c: char)
  {
    c in {' ', '\t', '\n', '\U{000B}', '\U{000C}', '\r', '\U{00A0}', '\U{1680}', '\U{2028}', '\U{2029}',
          '\U{202F}', '\U{205F}', '\U{3000}', '\U{FEFF}'}
    || '\U{2000}' <= c <= '\U{200A}'
  }

  function TrimStart(s: string): (t: string)
    ensures |t| <= |s| && t == s[|s| - |t|..]
    ensures t == [] || !IsJsWhiteSpace(t[0])
  {
    if s != [] && IsJsWhiteSpace(s[0]) then TrimStart(s[1..]) else s
  }

  /** The unsigned part of a float literal: `Infinity`, a digit, or a point followed by a digit. */
  predicate StartsUnsignedFloat(u: string)
  {
    StartsWith(u, "Infinity") || (|u| > 0 && IsDigit(u[0])) || (|u| > 1 && u[0] == '.' && IsDigit(u[1]))
  }

  /**
   * `!isNaN(parseFloat(s))`: after leading white space and an optional sign, the
   * string begins with a number (`parseFloat` ignores whatever follows it).
   */
  predicate ParsesAsFloat(s: string)
  {
    var t := TrimStart(s);
    StartsUnsignedFloat(t) || (|t| > 0 && (t[0] == '+' || t[0] == '-') && StartsUnsignedFloat(t[1..]))
  }

  /** The mantissa that `parseFloat` reads from the unsigned part `u` denotes zero. */
  predicate MantissaIsZero(u: string)
  {
    var w := DigitPrefix(u);
    var rest := u[|w|..];
    var f := if |rest| > 0 && rest[0] == '.' then DigitPrefix(rest[1..]) else [];
    !StartsWith(u, "Infinity") && AllZeros(w) && AllZeros(f)
  }

  /**
   * `!isNaN(parseFloat(s)) && parseFloat(s) >= 0`: the string begins with a number
   * that is not negative, where `-0` (a minus sign before a zero mantissa) counts
   * as not negative, as it does in JavaScript.
   */
  predicate ParsesAsNonNegativeFloat(s: string)
  {
    var t := TrimStart(s);
    ParsesAsFloat(s) && (|t| == 0 || t[0] != '-' || MantissaIsZero(t[1..]))
  }

  /** Every numeral of `^\d+(\.\d+)?$` passes the `parseFloat` test as a non-negative number. */
  lemma NumeralParsesAsFloat(s: string)
    requires IsDecimalNumeral(s)
    ensures ParsesAsNonNegativeFloat(s)
  {
    var n := ParseNumeral(s).value;
    assert s[0] == n.whole[0];
    DigitStartParses(s);
  }

  lemma DigitStartParses(s: string)
    requires |s| > 0 && IsDigit(s[0])
    ensures ParsesAsNonNegativeFloat(s)
  {
    assert !IsJsWhiteSpace(s[0]);
    assert TrimStart(s) == s;
    assert StartsUnsignedFloat(s);
  }
}

/**
 * The decimal text of 2^256 - 1 that the configuration generator writes for an
 * unlimited approval, and the proof that it denotes that number: the text is
 * rebuilt six digits at a time from `ToDecimal`, each step a lemma of its own so
 * that every literal the solver evaluates stays small.
 */
module MaxAmount {
  import opened Hex

  /** The unlimited-approval amount as the generator writes it. */
  const MaxAmountText: string :=
    "115792" + "089237" + "316195" + "423570" + "985008" + "687907" + "853269" + "984665" + "640564" + "039457" + "584007" + "913129" + "639935"

  /** The text is the decimal rendering of 2^256 - 1, and reads back as that number. */
  lemma MaxAmountValue()
    ensures ToDecimal(MaxUint256) == MaxAmountText
    ensures AllDigits(MaxAmountText) && DecimalValue(MaxAmountText) == MaxUint256
  {
    RenderMax(MaxUint256, 115792);
    DecimalValueOfToDecimal(MaxUint256);
  }

  /** Appending six digits: the rendering of q * 10^6 + r is q's rendering followed by r's six digits. */
  lemma DecimalGroup(q: nat, r: nat, tq: string, tr: string)
    requires q > 0 && r < 1000000 && ToDecimal(q) == tq && Padded(r, 6) == tr
    ensures ToDecimal(q * 1000000 + r) == tq + tr
  {
    assert Pow(10, 6) == 1000000;
    ToDecimalShift(q, r, 6);
  }

  /** The rendering of 2^256 - 1, built six digits at a time from its leading 115792. */
  lemma RenderMax(n: nat, b: nat)
    requires n == MaxUint256 && b == 115792
    ensures ToDecimal(n) == MaxAmountText
  {
    var q, t := b, "115792";
    Leading(q);
    Prefix1(q, t); q, t := q * 1000000 + 89237, t + "089237";
    Prefix2(q, t); q, t := q * 1000000 + 316195, t + "316195";
    Prefix3(q, t); q, t := q * 1000000 + 423570, t + "423570";
    Prefix4(q, t); q, t := q * 1000000 + 985008, t + "985008";
    Prefix5(q, t); q, t := q * 1000000 + 687907, t + "687907";
    Prefix6(q, t); q, t := q * 1000000 + 853269, t + "853269";
    Prefix7(q, t); q, t := q * 1000000 + 984665, t + "984665";
    Prefix8(q, t); q, t := q * 1000000 + 640564, t + "640564";
    Prefix9(q, t); q, t := q * 1000000 + 39457, t + "039457";
    Prefix10(q, t); q, t := q * 1000000 + 584007, t + "584007";
    Prefix11(q, t); q, t := q * 1000000 + 913129, t + "913129";
    Prefix12(q, t); q, t := q * 1000000 + 639935, t + "639935";
    assert q == n;
  }

  lemma Leading(q: nat)
    requires q == 115792
    ensures ToDecimal(q) == "115792"
  {
    assert Pow(10, 5) == 100000 && Pow(10, 6) == 1000000;
    ToDecimalPadded(q, 6);
    Padded6(q);
  }

  lemma Prefix1(q: nat, t: string)
    requires q > 0 && ToDecimal(q) == t
    ensures ToDecimal(q * 1000000 + 89237) == t + "089237"
  {
    Group1(89237);
    DecimalGroup(q, 89237, t, "089237");
  }

  lemma Prefix2(q: nat, t: string)
    requires q > 0 && ToDecimal(q) == t
    ensures ToDecimal(q * 1000000 + 316195) == t + "316195"
  {
    Group2(316195);
    DecimalGroup(q, 316195, t, "316195");
  }

  lemma Prefix3(q: nat, t: string)
    requires q > 0 && ToDecimal(q) == t
    ensures ToDecimal(q * 1000000 + 423570) == t + "423570"
  {
    Group3(423570);
    DecimalGroup(q, 423570, t, "423570");
  }

  lemma Prefix4(q: nat, t: string)
    requires q > 0 && ToDecimal(q) == t
    ensures ToDecimal(q * 1000000 + 985008) == t + "985008"
  {
    Group4(985008);
    DecimalGroup(q, 985008, t, "985008");
  }

  lemma Prefix5(q: nat, t: string)
    requires q > 0 && ToDecimal(q) == t
    ensures ToDecimal(q * 1000000 + 687907) == t + "687907"
  {
    Group5(687907);
    DecimalGroup(q, 687907, t, "687907");
  }

  lemma Prefix6(q: nat, t: string)
    requires q > 0 && ToDecimal(q) == t
    ensures ToDecimal(q * 1000000 + 853269) == t + "853269"
  {
    Group6(853269);
    DecimalGroup(q, 853269, t, "853269");
  }

  lemma Prefix7(q: nat, t: string)
    requires q > 0 && ToDecimal(q) == t
    ensures ToDecimal(q * 1000000 + 984665) == t + "984665"
  {
    Group7(984665);
    DecimalGroup(q, 984665, t, "984665");
  }

  lemma Prefix8(q: nat, t: string)
    requires q > 0 && ToDecimal(q) == t
    ensures ToDecimal(q * 1000000 + 640564) == t + "640564"
  {
    Group8(640564);
    DecimalGroup(q, 640564, t, "640564");
  }

  lemma Prefix9(q: nat, t: string)
    requires q > 0 && ToDecimal(q) == t
    ensures ToDecimal(q * 1000000 + 39457) == t + "039457"
  {
    Group9(39457);
    DecimalGroup(q, 39457, t, "039457");
  }

  lemma Prefix10(q: nat, t: string)
    requires q > 0 && ToDecimal(q) == t
    ensures ToDecimal(q * 1000000 + 584007) == t + "584007"
  {
    Group10(584007);
    DecimalGroup(q, 584007, t, "584007");
  }

  lemma Prefix11(q: nat, t: string)
    requires q > 0 && ToDecimal(q) == t
    ensures ToDecimal(q * 1000000 + 913129) == t + "913129"
  {
    Group11(913129);
    DecimalGroup(q, 913129, t, "913129");
  }

  lemma Prefix12(q: nat, t: string)
    requires q > 0 && ToDecimal(q) == t
    ensures ToDecimal(q * 1000000 + 639935) == t + "639935"
  {
    Group12(639935);
    DecimalGroup(q, 639935, t, "639935");
  }

  /** The six-digit groups after the leading one, with their leading zeros. */
  lemma Group1(r: nat) requires r == 89237 ensures Padded(r, 6) == "089237" { Padded6(r); }
  lemma Group2(r: nat) requires r == 316195 ensures Padded(r, 6) == "316195" { Padded6(r); }
  lemma Group3(r: nat) requires r == 423570 ensures Padded(r, 6) == "423570" { Padded6(r); }
  lemma Group4(r: nat) requires r == 985008 ensures Padded(r, 6) == "985008" { Padded6(r); }
  lemma Group5(r: nat) requires r == 687907 ensures Padded(r, 6) == "687907" { Padded6(r); }
  lemma Group6(r: nat) requires r == 853269 ensures Padded(r, 6) == "853269" { Padded6(r); }
  lemma Group7(r: nat) requires r == 984665 ensures Padded(r, 6) == "984665" { Padded6(r); }
  lemma Group8(r: nat) requires r == 640564 ensures Padded(r, 6) == "640564" { Padded6(r); }
  lemma Group9(r: nat) requires r == 39457 ensures Padded(r, 6) == "039457" { Padded6(r); }
  lemma Group10(r: nat) requires r == 584007 ensures Padded(r, 6) == "584007" { Padded6(r); }
  lemma Group11(r: nat) requires r == 913129 ensures Padded(r, 6) == "913129" { Padded6(r); }
  lemma Group12(r: nat) requires r == 639935 ensures Padded(r, 6) == "639935" { Padded6(r); }
}

/** Decimals as text (grug/math/src/dec.rs). */
module MathDecimalText {
  import opened Wrappers
  import opened MathWords
  import opened MathText

  datatype ParseError =
    | BadWhole
    | TooBig
    | BadFraction
    | NegativeFraction
    | TooManyDigits
    | TooManyDots
    | Panicked

  /** Division that rounds toward zero. */
  function Quotient(x: int, y: nat): int
    requires y > 0
  {
    if x >= 0 then Div(x, y) else 0 - Div(-x, y)
  }

  /** The remainder that goes with it, of the sign of the dividend. */
  function Remainder(x: int, y: nat): int
    requires y > 0
  {
    if x >= 0 then Mod(x, y) else 0 - Mod(-x, y)
  }

  function Abs(x: int): nat {
    if x < 0 then -x else x
  }

  // ---- printing ----

  /** The digits after the dot, without the last zeros. */
  function FractionText(places: nat, fraction: nat): string {
    TrimZeros(PadLeft(PrintNat(fraction), places))
  }

  /** The sign and then the magnitude: its whole part, and the other digits if there are any. */
  function DecimalText(places: nat, raw: int): string {
    var unit := Pow(10, places);
    var n := Abs(raw);
    (if raw < 0 then "-" else "") + PrintNat(Div(n, unit)) +
    if Mod(n, unit) == 0 then "" else "." + FractionText(places, Mod(n, unit))
  }

  /** Writes the minimum twice if there are no decimal places, and otherwise what it should. */
  method Format(w: Word, places: nat, raw: int) returns (f: string)
    requires IsDecimal(w, places) && w.Holds(raw)
    ensures f == if places == 0 && raw == w.min < 0 then PrintInt(raw) + PrintInt(raw) else DecimalText(places, raw)
  {
    var unit := Pow(10, places);
    var whole := Quotient(raw, unit);
    var fraction := Remainder(raw, unit);
    f := "";
    WholeIsMinimumIff(w, places, raw);
    if whole == w.min && whole < 0 {
      f := f + PrintInt(whole);
    }
    if fraction == 0 {
      f := f + PrintInt(whole);
    } else {
      var digits := PadLeft(PrintNat(Abs(fraction)), places);
      if whole < 0 || fraction < 0 {
        f := f + "-";
      }
      f := f + PrintNat(Abs(whole));
      f := f + ".";
      f := f + TrimZeros(digits);
    }
    WholeAndFraction(raw, unit);
  }

  lemma WholeAndFraction(raw: int, unit: nat)
    requires unit > 0
    ensures Abs(Quotient(raw, unit)) == Div(Abs(raw), unit) && Abs(Remainder(raw, unit)) == Mod(Abs(raw), unit)
    ensures Quotient(raw, unit) < 0 || Remainder(raw, unit) < 0 <==> raw < 0
    ensures Quotient(raw, unit) < 0 ==> raw < 0
    ensures Remainder(raw, unit) == 0 && raw < 0 ==> Quotient(raw, unit) < 0
    ensures Quotient(raw, unit) * unit + Remainder(raw, unit) == raw
  {
    if raw < 0 {
      assert Div(-raw, unit) * unit + Mod(-raw, unit) == -raw;
      assert Quotient(raw, unit) * unit == -(Div(-raw, unit) * unit);
    }
  }

  lemma WholeIsMinimumIff(w: Word, places: nat, raw: int)
    requires IsDecimal(w, places) && w.Holds(raw)
    ensures Quotient(raw, Pow(10, places)) == w.min < 0 <==> places == 0 && raw == w.min < 0
  {
    var unit := Pow(10, places);
    if places == 0 {
      assert unit == 1;
    } else if w.min < 0 && raw < 0 {
      PowGrows(10, 1, places);
      assert Pow(10, 1) == 10 * Pow(10, 0);
      var q := Div(-raw, unit);
      MulKeepsOrder(10, unit, q);
    }
  }

  // ---- parsing ----

  /** A value in units of the last of the decimal places. */
  function ToAtomics(value: int, places: nat): int {
    value * Pow(10, places)
  }

  /** What the text stands for, if it stands for anything. */
  function FromStr(w: Word, places: nat, input: string): Result<int, ParseError> {
    var parts := SplitAtDots(input);
    var whole := ParseInt(w, parts[0]);
    if whole.None? then Err(BadWhole)
    else if !w.Holds(ToAtomics(whole.value, places)) then Err(TooBig)
    else if |parts| == 1 then Ok(ToAtomics(whole.value, places))
    else
      var raw := WithFraction(w, places, ToAtomics(whole.value, places), parts[1], "-" <= input);
      if raw.Ok? && |parts| > 2 then Err(TooManyDots) else raw
  }

  function WithFraction(w: Word, places: nat, atomics: int, part: string, negative: bool): Result<int, ParseError> {
    var fraction := ParseInt(w, part);
    if fraction.None? then Err(BadFraction)
    else if fraction.value < 0 then Err(NegativeFraction)
    else
      var length := |part| % 0x1_0000_0000;
      if length > places then Err(TooManyDigits)
      else
        var scaled := ToAtomics(fraction.value, places - length);
        var raw := if negative then atomics - scaled else atomics + scaled;
        if !w.Holds(scaled) then Err(Panicked)
        else if !w.Holds(raw) then Err(TooBig)
        else Ok(raw)
  }

  // ---- round trip ----

  lemma PrintedHasNoDot(s: string)
    requires AllDigits(s)
    ensures '.' !in s && '.' !in "-" + s && (s != "" ==> s[0] != '-' && s[0] != '+')
  {
    assert forall i | 0 <= i < |s| :: IsDigit(s[i]);
  }

  /** The digits printed after the dot are as many as the places allow, and worth the fraction. */
  lemma FractionDigits(places: nat, fraction: nat)
    requires 0 < fraction < Pow(10, places)
    ensures AreFractionDigits(places, fraction, FractionText(places, fraction))
  {
    assert places > 0 by { assert Pow(10, 0) == 1; }
    PrintedLength(fraction, places);
    PrintedValue(fraction);
    PaddedValue(PrintNat(fraction), places);
    TrimmedDigits(places, fraction, PadLeft(PrintNat(fraction), places));
  }

  lemma TrimmedDigits(places: nat, fraction: nat, padded: string)
    requires AllDigits(padded) && |padded| == places && ValueOf(padded) == fraction > 0
    ensures AreFractionDigits(places, fraction, TrimZeros(padded))
  {
    TrimmedValue(padded);
    if TrimZeros(padded) == "" {
      ShiftedZero(places);
      assert false;
    }
  }

  predicate AreFractionDigits(places: nat, fraction: nat, digits: string) {
    && digits != "" && AllDigits(digits) && |digits| <= places
    && fraction == Shifted(ValueOf(digits), places - |digits|)
  }

  /** Parsing what is printed gives back every value of the type. */
  lemma TextReadsBack(w: Word, places: nat, raw: int)
    requires IsDecimal(w, places) && places < 0x1_0000_0000
    requires w.Holds(raw)
    ensures FromStr(w, places, DecimalText(places, raw)) == Ok(raw)
  {
    var unit := Pow(10, places);
    var n := Abs(raw);
    var whole, fraction := Div(n, unit), Mod(n, unit);
    var head := (if raw < 0 then "-" else "") + PrintNat(whole);
    MagnitudeFits(w, n, whole, fraction, unit, raw < 0);
    HeadReadsBack(w, whole, raw < 0);
    TextInParts(places, raw);
    if fraction == 0 {
      WholeReadsBack(w, places, head, Signed(raw < 0, whole));
    } else {
      FractionDigits(places, fraction);
      BothPartsReadBack(w, places, head, Signed(raw < 0, whole), fraction, FractionText(places, fraction), raw < 0);
    }
  }

  lemma TextInParts(places: nat, raw: int)
    ensures var whole, fraction := Div(Abs(raw), Pow(10, places)), Mod(Abs(raw), Pow(10, places));
            var head := (if raw < 0 then "-" else "") + PrintNat(whole);
            DecimalText(places, raw) == if fraction == 0 then head else head + "." + FractionText(places, fraction)
  {
    var whole, fraction := Div(Abs(raw), Pow(10, places)), Mod(Abs(raw), Pow(10, places));
    var head := (if raw < 0 then "-" else "") + PrintNat(whole);
    assert head + "" == head;
    assert head + ("." + FractionText(places, fraction)) == head + "." + FractionText(places, fraction);
  }

  lemma WholeReadsBack(w: Word, places: nat, head: string, whole: int)
    requires SplitAtDots(head) == [head] && ParseInt(w, head) == Some(whole)
    requires w.Holds(ToAtomics(whole, places))
    ensures FromStr(w, places, head) == Ok(ToAtomics(whole, places))
  {
  }

  lemma BothPartsReadBack(
    w: Word, places: nat, head: string, whole: int, fraction: nat, digits: string, negative: bool)
    requires IsDecimal(w, places) && places < 0x1_0000_0000
    requires ParseInt(w, head) == Some(whole) && '.' !in head
    requires head != "" && (head[0] == '-' <==> negative)
    requires AreFractionDigits(places, fraction, digits)
    requires w.Holds(ToAtomics(whole, places))
    requires w.Holds(ToAtomics(whole, places) + Signed(negative, fraction))
    ensures FromStr(w, places, head + "." + digits) == Ok(ToAtomics(whole, places) + Signed(negative, fraction))
  {
    PrintedHasNoDot(digits);
    BothPartsAreRead(w, places, head, digits, negative);
    FractionIsRead(w, places, ToAtomics(whole, places), digits, negative);
  }

  lemma HeadReadsBack(w: Word, whole: nat, negative: bool)
    requires negative ==> w.min < 0
    requires w.Holds(Signed(negative, whole))
    ensures var head := (if negative then "-" else "") + PrintNat(whole);
            && ParseInt(w, head) == Some(Signed(negative, whole))
            && '.' !in head && SplitAtDots(head) == [head]
            && (head[0] == '-' <==> negative)
  {
    var head := (if negative then "-" else "") + PrintNat(whole);
    ParsePrinted(w, whole, negative);
    PrintedHasNoDot(PrintNat(whole));
    assert "" + PrintNat(whole) == PrintNat(whole);
    SplitWithoutDots(head);
  }

  lemma MagnitudeFits(w: Word, n: nat, whole: nat, fraction: nat, unit: nat, negative: bool)
    requires w.IsMachineWord() && unit > 0 && w.Holds(unit)
    requires n == unit * whole + fraction && fraction < unit && w.Holds(Signed(negative, n))
    ensures Signed(negative, whole) * unit == Signed(negative, n) - Signed(negative, fraction)
    ensures w.Holds(Signed(negative, whole)) && w.Holds(Signed(negative, whole) * unit) && w.Holds(fraction)
    ensures negative && n > 0 ==> w.min < 0
  {
    MulKeepsOrder(1, unit, whole);
    assert (0 - whole) * unit == 0 - whole * unit;
  }

  /** What is actually printed reads back except where the minimum is printed twice. */
  lemma PrintedReadsBackIff(w: Word, places: nat, raw: int, printed: string)
    requires IsDecimal(w, places) && places < 0x1_0000_0000
    requires w.Holds(raw)
    requires printed
      == if places == 0 && raw == w.min < 0 then PrintInt(raw) + PrintInt(raw) else DecimalText(places, raw)
    ensures FromStr(w, places, printed) == Ok(raw) <==> !(places == 0 && raw == w.min < 0)
  {
    if places == 0 && raw == w.min < 0 {
      TwicePrintedIsRefused(w, -raw, printed);
    } else {
      TextReadsBack(w, places, raw);
    }
  }

  lemma TwicePrintedIsRefused(w: Word, n: nat, printed: string)
    requires w.min < 0 && printed == ("-" + PrintNat(n)) + ("-" + PrintNat(n))
    ensures FromStr(w, 0, printed) == Err(BadWhole)
  {
    var digits := PrintNat(n);
    PrintedHasNoDot(digits);
    SplitWithoutDots(printed);
    MinusInside(w, digits, printed);
  }

  lemma MinusInside(w: Word, digits: string, text: string)
    requires w.min < 0 && AllDigits(digits) && text == ("-" + digits) + ("-" + digits)
    ensures ParseInt(w, text) == None
  {
    var tail := text[1..];
    assert SplitSign(true, text) == (true, tail);
    assert tail[|digits|] == '-' && !IsDigit(tail[|digits|]);
  }

  // ---- the parts of a text ----

  /** The text around its only dot, when the whole part can be read. */
  lemma BothPartsAreRead(w: Word, places: nat, head: string, fraction: string, negative: bool)
    requires head != "" && '.' !in head && (head[0] == '-' <==> negative)
    requires '.' !in fraction
    ensures var whole := ParseInt(w, head);
            FromStr(w, places, head + "." + fraction)
            == if whole.None? then Err(BadWhole)
               else if !w.Holds(ToAtomics(whole.value, places)) then Err(TooBig)
               else WithFraction(w, places, ToAtomics(whole.value, places), fraction, negative)
  {
    SplitAtFirstDot(head, fraction);
    SplitWithoutDots(fraction);
    assert (head + "." + fraction)[0] == head[0];
  }

  lemma FractionIsRead(w: Word, places: nat, atomics: int, fraction: string, negative: bool)
    requires IsDecimal(w, places) && places < 0x1_0000_0000
    requires fraction != "" && AllDigits(fraction) && |fraction| <= places
    ensures var raw := atomics + Signed(negative, Shifted(ValueOf(fraction), places - |fraction|));
            WithFraction(w, places, atomics, fraction, negative) == if w.Holds(raw) then Ok(raw) else Err(TooBig)
  {
    var n := ValueOf(fraction);
    ShiftedIsBounded(fraction, places);
    ShiftedGrows(n, places - |fraction|);
    ShiftedIsProduct(n, places - |fraction|);
    PlainDigitsAreRead(w, fraction);
    FractionIsAdded(w, places, atomics, fraction, n, Shifted(n, places - |fraction|), negative);
  }

  lemma PlainDigitsAreRead(w: Word, digits: string)
    requires digits != "" && AllDigits(digits) && w.min <= ValueOf(digits) <= w.max
    ensures ParseInt(w, digits) == Some(ValueOf(digits))
  {
    ParseSigned(w, digits, false);
    assert "" + digits == digits;
  }

  lemma FractionIsAdded(
    w: Word, places: nat, atomics: int, part: string, n: nat, scaled: nat, negative: bool)
    requires |part| <= places < 0x1_0000_0000
    requires ParseInt(w, part) == Some(n) && scaled == n * Pow(10, places - |part|) && w.Holds(scaled)
    ensures var raw := atomics + Signed(negative, scaled);
            WithFraction(w, places, atomics, part, negative) == if w.Holds(raw) then Ok(raw) else Err(TooBig)
  {
  }

  lemma WholeFits(w: Word, unit: nat, negative: bool, whole: nat, scaled: nat)
    requires w.IsMachineWord() && unit > 0
    ensures Signed(negative, whole) * unit == Signed(negative, whole * unit)
    ensures w.Holds(Signed(negative, whole * unit + scaled)) ==>
              w.Holds(Signed(negative, whole)) && w.Holds(Signed(negative, whole * unit))
  {
    MulKeepsOrder(1, unit, whole);
    assert (0 - whole) * unit == 0 - whole * unit;
  }

  /** A part after the dot that is longer than the places is refused, even if it is all zeros. */
  lemma TooManyDigitsAreRefused(w: Word, places: nat, head: string, part: string)
    requires '.' !in head && '.' !in part
    requires places < |part| % 0x1_0000_0000
    ensures FromStr(w, places, head + "." + part).Err?
  {
    SplitAtFirstDot(head, part);
    SplitWithoutDots(part);
  }

  /** A plus after the dot is accepted, and counts as a digit that is zero. */
  lemma PlusIsReadAsZero(w: Word, places: nat, head: string, digits: string)
    requires w.IsMachineWord() && head != "" && '.' !in head && AllDigits(digits) && digits != ""
    ensures FromStr(w, places, head + "." + ("+" + digits)) == FromStr(w, places, head + "." + ("0" + digits))
  {
    ZeroInFront(digits);
    PlusAndZero(w, digits, "+" + digits, "0" + digits);
    PrintedHasNoDot(digits);
    BothPartsAreRead(w, places, head, "+" + digits, head[0] == '-');
    BothPartsAreRead(w, places, head, "0" + digits, head[0] == '-');
    var whole := ParseInt(w, head);
    if whole.Some? {
      SameFraction(w, places, ToAtomics(whole.value, places), "+" + digits, "0" + digits, head[0] == '-');
    }
  }

  lemma SameFraction(w: Word, places: nat, atomics: int, part: string, other: string, negative: bool)
    requires ParseInt(w, part) == ParseInt(w, other) && |part| == |other|
    ensures WithFraction(w, places, atomics, part, negative) == WithFraction(w, places, atomics, other, negative)
  {
  }

  lemma ZeroInFront(digits: string)
    requires AllDigits(digits)
    ensures AllDigits("0" + digits) && ValueOf("0" + digits) == ValueOf(digits)
  {
    ConcatValue("0", digits);
    ShiftedZero(|digits|);
    assert ValueOf("0") == 0;
  }

  lemma PlusAndZero(w: Word, digits: string, plus: string, zero: string)
    requires digits != "" && AllDigits(digits) && plus == "+" + digits && zero == "0" + digits
    requires AllDigits(zero) && ValueOf(zero) == ValueOf(digits)
    ensures ParseInt(w, plus) == ParseInt(w, zero)
  {
    assert plus[1..] == digits;
    ParseSigned(w, zero, false);
    assert "" + zero == zero;
  }

  /** Texts that are empty, start with a dot, or have two dots are refused. */
  lemma MalformedTextIsRefused(w: Word, places: nat, head: string, middle: string, tail: string)
    requires '.' !in head && '.' !in middle
    ensures FromStr(w, places, "").Err? && FromStr(w, places, "." + tail).Err?
    ensures FromStr(w, places, head + "." + middle + "." + tail).Err?
  {
    assert SplitAtDots("")[0] == "" && ParseInt(w, "") == None;
    assert "" + "." + tail == "." + tail;
    SplitAtFirstDot("", tail);
    assert head + "." + middle + "." + tail == head + "." + (middle + "." + tail);
    SplitAtFirstDot(head, middle + "." + tail);
    SplitAtFirstDot(middle, tail);
  }

  lemma {:induction false} PartsAreShorter(s: string, i: nat)
    requires i < |SplitAtDots(s)|
    ensures |SplitAtDots(s)[i]| <= |s|
  {
    if s == "" {
    } else {
      var rest := SplitAtDots(s[1..]);
      if s[0] == '.' {
        if i > 0 { PartsAreShorter(s[1..], i - 1); }
      } else {
        PartsAreShorter(s[1..], i);
      }
    }
  }

  /** The product that is assumed not to overflow does only for a part whose length 32 bits cannot count. */
  lemma PanicsOnlyOnLongText(w: Word, places: nat, input: string)
    requires IsDecimal(w, places)
    ensures FromStr(w, places, input) == Err(Panicked) ==> places > 0 && |input| >= 0x1_0000_0000
  {
    var parts := SplitAtDots(input);
    if |parts| > 1 {
      PartsAreShorter(input, 1);
      FractionDoesNotPanic(w, places, parts[1]);
    }
  }

  lemma FractionDoesNotPanic(w: Word, places: nat, part: string)
    requires IsDecimal(w, places)
    ensures ParseInt(w, part).Some? && ParseInt(w, part).value >= 0 && |part| <= places ==>
              w.Holds(ParseInt(w, part).value * Pow(10, places - |part|))
    ensures places == 0 && ParseInt(w, part).Some? ==> w.Holds(ToAtomics(ParseInt(w, part).value, 0))
  {
    if part != "" && |part| <= places && ParseInt(w, part).Some? && ParseInt(w, part).value >= 0 {
      var digits := if AllDigits(part) then part else part[1..];
      assert AllDigits(digits) && ParseInt(w, part).value == ValueOf(digits);
      ShiftedIsBounded(digits, places - |part| + |digits|);
      ShiftedIsProduct(ValueOf(digits), places - |part|);
      PowGrows(10, places - |part| + |digits|, places);
    }
  }

  /** The largest number after so many zeros that the length of all of it is a multiple of 2^32. */
  function LongFraction(w: Word): string
    requires w.IsMachineWord()
  {
    PadLeft(PrintNat(w.max), 0x1_0000_0000 * |PrintNat(w.max)|)
  }

  lemma LongFractionIsRead(w: Word)
    requires w.IsMachineWord()
    ensures |LongFraction(w)| % 0x1_0000_0000 == 0 && '.' !in LongFraction(w)
    ensures ParseInt(w, LongFraction(w)) == Some(w.max)
  {
    var part := LongFraction(w);
    PrintedValue(w.max);
    PaddedValue(PrintNat(w.max), 0x1_0000_0000 * |PrintNat(w.max)|);
    PrintedHasNoDot(part);
    assert ValueOf("") == 0 && ValueOf(part) == w.max;
    PlainDigitsAreRead(w, part);
  }

  lemma ZeroIsRead(w: Word)
    requires w.IsMachineWord()
    ensures ParseInt(w, "0") == Some(0)
  {
    assert ValueOf("0") == 0 && AllDigits("0");
    PlainDigitsAreRead(w, "0");
  }

  lemma TenTimesTooMuch(w: Word, places: nat)
    requires w.IsMachineWord() && places > 0
    ensures ToAtomics(w.max, places) > w.max
  {
    PowGrows(10, 1, places);
    assert Pow(10, 1) == 10 * Pow(10, 0);
    MulKeepsOrder(10, Pow(10, places), w.max);
  }

  lemma LongTextPanics(w: Word, places: nat)
    requires IsDecimal(w, places) && places > 0
    ensures FromStr(w, places, "0" + "." + LongFraction(w)) == Err(Panicked)
  {
    LongFractionIsRead(w);
    ZeroIsRead(w);
    TenTimesTooMuch(w, places);
    BothPartsAreRead(w, places, "0", LongFraction(w), false);
    assert ToAtomics(0, places) == 0;
  }

  /** Some text panics if and only if the type has decimal places. */
  lemma SomeTextPanicsIff(w: Word, places: nat)
    requires IsDecimal(w, places)
    ensures (exists input :: FromStr(w, places, input) == Err(Panicked)) <==> places > 0
  {
    if places > 0 {
      LongTextPanics(w, places);
    }
    forall input | FromStr(w, places, input) == Err(Panicked)
      ensures places > 0
    {
      PanicsOnlyOnLongText(w, places, input);
    }
  }
}

/** Exactly which texts are read as decimals, and as which (grug/math/src/dec.rs). */
module MathDecimalGrammar {
  import opened Wrappers
  import opened MathWords
  import opened MathText
  import opened MathDecimalText

  const LENGTHS: nat := 0x1_0000_0000

  predicate IsSign(signed: bool, sign: string) {
    sign == "" || sign == "+" || (sign == "-" && signed)
  }

  /** The parts of a text. The mark is a sign after the dot. */
  datatype Shape = Shape(sign: string, whole: string, dot: bool, mark: string, fraction: string) {
    function Head(): string {
      sign + whole
    }

    function Text(): string {
      if dot then Head() + "." + (mark + fraction) else Head()
    }

    /** Digits on both sides of the dot if there is one; only zeros may follow a minus there. */
    predicate WellFormed(signed: bool) {
      && IsSign(signed, sign) && whole != "" && AllDigits(whole) && AllDigits(fraction)
      && (if dot then IsSign(signed, mark) && fraction != "" else mark == "" && fraction == "")
      && (mark == "-" ==> ValueOf(fraction) == 0)
    }

    /** How many places the part after the dot takes up: its length, mark included, as 32 bits. */
    function Length(): nat {
      (|mark| + |fraction|) % LENGTHS
    }

    function Scaled(places: nat): nat
      requires AllDigits(fraction) && Length() <= places
    {
      Shifted(ValueOf(fraction), places - Length())
    }

    function Value(places: nat): int
      requires AllDigits(whole) && AllDigits(fraction) && Length() <= places
    {
      Signed(sign == "-", ToAtomics(ValueOf(whole), places) + Scaled(places))
    }

    /** The type holds the value, and nothing on the way to it overflows. */
    predicate Fits(w: Word, places: nat)
      requires AllDigits(whole) && AllDigits(fraction) && Length() <= places
    {
      w.Holds(ValueOf(fraction)) && w.Holds(Scaled(places)) && w.Holds(Value(places))
    }
  }

  predicate Accepted(w: Word, places: nat, s: Shape) {
    s.WellFormed(w.min < 0) && s.Length() <= places && s.Fits(w, places)
  }

  lemma FractionFits(w: Word, places: nat, s: Shape)
    requires IsDecimal(w, places) && s.WellFormed(w.min < 0) && s.Length() <= places
    requires |s.mark| + |s.fraction| < LENGTHS
    ensures w.Holds(ValueOf(s.fraction)) && w.Holds(s.Scaled(places))
  {
    var n := places - s.Length();
    ShiftedIsBounded(s.fraction, places - |s.mark|);
    assert places - |s.mark| - |s.fraction| == n;
    PowGrows(10, places - |s.mark|, places);
    ShiftedGrows(ValueOf(s.fraction), n);
  }

  /** Nothing but the value itself can fail to fit if the part after the dot is not longer than 32 bits can count. */
  lemma FitsIffValueFits(w: Word, places: nat, s: Shape)
    requires IsDecimal(w, places) && s.WellFormed(w.min < 0) && s.Length() <= places
    requires |s.mark| + |s.fraction| < LENGTHS
    ensures s.Fits(w, places) <==> w.Holds(s.Value(places))
  {
    FractionFits(w, places, s);
  }

  // ---- what has the shape is read ----

  lemma SignedDigits(w: Word, sign: string, digits: string)
    requires IsSign(w.min < 0, sign) && digits != "" && AllDigits(digits)
    ensures ParseInt(w, sign + digits) == ParseDigits(w, digits, sign == "-")
    ensures '.' !in sign + digits && ((sign + digits)[0] == '-' <==> sign == "-")
  {
    DigitsHaveNoSign(digits);
    PrintedHasNoDot(digits);
    if sign == "" {
      assert sign + digits == digits;
    } else {
      assert (sign + digits)[0] == sign[0] && (sign + digits)[1..] == digits;
    }
  }

  lemma ReadsFraction(w: Word, places: nat, s: Shape, atomics: int, negative: bool)
    requires s.dot && s.WellFormed(w.min < 0) && s.Length() <= places && w.min <= 0
    requires w.Holds(ValueOf(s.fraction)) && w.Holds(s.Scaled(places))
    ensures var raw := atomics + Signed(negative, s.Scaled(places));
            WithFraction(w, places, atomics, s.mark + s.fraction, negative)
            == if w.Holds(raw) then Ok(raw) else Err(TooBig)
  {
    SignedDigits(w, s.mark, s.fraction);
    ShiftedIsProduct(ValueOf(s.fraction), places - s.Length());
    assert ParseInt(w, s.mark + s.fraction) == Some(ValueOf(s.fraction));
  }

  /** The whole part in units of the last place, with the sign before or after. */
  lemma SignedWhole(w: Word, places: nat, negative: bool, whole: nat, scaled: nat)
    requires w.IsMachineWord()
    ensures var atomics := ToAtomics(Signed(negative, whole), places);
            && atomics + Signed(negative, scaled) == Signed(negative, ToAtomics(whole, places) + scaled)
            && (w.Holds(Signed(negative, ToAtomics(whole, places) + scaled)) ==>
                  w.Holds(Signed(negative, whole)) && w.Holds(atomics))
  {
    WholeFits(w, Pow(10, places), negative, whole, scaled);
  }

  lemma ShapeWithoutDotIsRead(w: Word, places: nat, s: Shape)
    requires IsDecimal(w, places) && s.WellFormed(w.min < 0) && !s.dot && s.Length() <= places
    ensures var r := FromStr(w, places, s.Text());
            if w.Holds(s.Value(places)) then r == Ok(s.Value(places)) else r.Err?
  {
    var negative := s.sign == "-";
    SignedDigits(w, s.sign, s.whole);
    ShiftedZero(places);
    SignedWhole(w, places, negative, ValueOf(s.whole), 0);
    SplitWithoutDots(s.Head());
    if w.Holds(s.Value(places)) {
      WholeReadsBack(w, places, s.Head(), Signed(negative, ValueOf(s.whole)));
    }
  }

  /** The text around its only dot, in terms of the number before it. */
  lemma PartsAreRead(
    w: Word, places: nat, head: string, part: string, negative: bool, whole: int, atomics: int)
    requires head != "" && '.' !in head && (head[0] == '-' <==> negative) && '.' !in part
    requires ParseInt(w, head) == if w.Holds(whole) then Some(whole) else None
    requires atomics == ToAtomics(whole, places)
    ensures FromStr(w, places, head + "." + part)
         == if !w.Holds(whole) then Err(BadWhole)
            else if !w.Holds(atomics) then Err(TooBig)
            else WithFraction(w, places, atomics, part, negative)
  {
    BothPartsAreRead(w, places, head, part, negative);
  }

  /** If the value fits, so does the number before the dot. */
  lemma WholeIsNoObstacle(
    w: Word, whole: int, atomics: int, raw: int, fraction: Result<int, ParseError>, r: Result<int, ParseError>)
    requires fraction == if w.Holds(raw) then Ok(raw) else Err(TooBig)
    requires w.Holds(raw) ==> w.Holds(whole) && w.Holds(atomics)
    requires r == if !w.Holds(whole) then Err(BadWhole) else if !w.Holds(atomics) then Err(TooBig) else fraction
    ensures if w.Holds(raw) then r == Ok(raw) else r.Err?
  {
  }

  lemma ShapeWithDotIsRead(w: Word, places: nat, s: Shape)
    requires IsDecimal(w, places) && s.WellFormed(w.min < 0) && s.dot && s.Length() <= places
    requires w.Holds(ValueOf(s.fraction)) && w.Holds(s.Scaled(places))
    ensures var r := FromStr(w, places, s.Text());
            if w.Holds(s.Value(places)) then r == Ok(s.Value(places)) else r.Err?
  {
    var negative := s.sign == "-";
    var whole := Signed(negative, ValueOf(s.whole));
    var atomics := ToAtomics(whole, places);
    SignedDigits(w, s.sign, s.whole);
    SignedDigits(w, s.mark, s.fraction);
    SignedWhole(w, places, negative, ValueOf(s.whole), s.Scaled(places));
    PartsAreRead(w, places, s.Head(), s.mark + s.fraction, negative, whole, atomics);
    ReadsFraction(w, places, s, atomics, negative);
    WholeIsNoObstacle(
      w, whole, atomics, s.Value(places), WithFraction(w, places, atomics, s.mark + s.fraction, negative),
      FromStr(w, places, s.Text()));
  }

  lemma ShapeIsRead(w: Word, places: nat, s: Shape)
    requires IsDecimal(w, places) && Accepted(w, places, s)
    ensures FromStr(w, places, s.Text()) == Ok(s.Value(places))
  {
    if s.dot {
      ShapeWithDotIsRead(w, places, s);
    } else {
      ShapeWithoutDotIsRead(w, places, s);
    }
  }

  /** Nothing is rounded: a text of the shape is read as exactly its value, or refused if the type cannot hold that. */
  lemma ParsingIsExact(w: Word, places: nat, s: Shape)
    requires IsDecimal(w, places) && s.WellFormed(w.min < 0) && s.Length() <= places
    requires |s.mark| + |s.fraction| < LENGTHS
    ensures var r := FromStr(w, places, s.Text());
            if w.Holds(s.Value(places)) then r == Ok(s.Value(places)) else r.Err?
  {
    FractionFits(w, places, s);
    if s.dot {
      ShapeWithDotIsRead(w, places, s);
    } else {
      ShapeWithoutDotIsRead(w, places, s);
    }
  }

  // ---- what is read has the shape ----

  lemma {:induction false} SplitJoins(text: string)
    ensures |SplitAtDots(text)| == 1 ==> text == SplitAtDots(text)[0]
    ensures |SplitAtDots(text)| > 1 ==>
      |text| > |SplitAtDots(text)[0]| && text[..|SplitAtDots(text)[0]|] == SplitAtDots(text)[0]
      && text[|SplitAtDots(text)[0]|] == '.'
      && SplitAtDots(text[|SplitAtDots(text)[0]| + 1..]) == SplitAtDots(text)[1..]
  {
    if text == "" {
    } else {
      SplitJoins(text[1..]);
      assert text == [text[0]] + text[1..];
      var n := |SplitAtDots(text)[0]|;
      if text[0] != '.' && |SplitAtDots(text)| > 1 {
        assert text[n + 1..] == text[1..][n..];
      }
    }
  }

  /** A text with one dot is its two parts around it. */
  lemma TwoPartsJoin(text: string)
    requires |SplitAtDots(text)| == 2
    ensures text == SplitAtDots(text)[0] + "." + SplitAtDots(text)[1]
  {
    var n := |SplitAtDots(text)[0]|;
    SplitJoins(text);
    SplitJoins(text[n + 1..]);
    assert text == text[..n] + "." + text[n + 1..];
  }

  lemma SplitHasSign(signed: bool, s: string) returns (sign: string, digits: string)
    ensures IsSign(signed, sign) && s == sign + digits && SplitSign(signed, s) == (sign == "-", digits)
  {
    if s != "" && ((s[0] == '-' && signed) || s[0] == '+') {
      sign, digits := [s[0]], s[1..];
    } else {
      sign, digits := "", s;
    }
  }

  lemma ParsedHasSign(w: Word, s: string) returns (sign: string, digits: string)
    requires ParseInt(w, s).Some?
    ensures IsSign(w.min < 0, sign) && digits != "" && AllDigits(digits) && s == sign + digits
    ensures ParseInt(w, s) == Some(Signed(sign == "-", ValueOf(digits)))
  {
    sign, digits := SplitHasSign(w.min < 0, s);
  }

  lemma FractionHasShape(w: Word, places: nat, atomics: int, part: string, negative: bool)
    returns (mark: string, fraction: string)
    requires WithFraction(w, places, atomics, part, negative).Ok? && w.min <= 0
    ensures IsSign(w.min < 0, mark) && fraction != "" && AllDigits(fraction) && part == mark + fraction
    ensures mark == "-" ==> ValueOf(fraction) == 0
    ensures |part| % LENGTHS <= places && w.Holds(ValueOf(fraction))
    ensures var scaled := Shifted(ValueOf(fraction), places - |part| % LENGTHS);
            && w.Holds(scaled)
            && WithFraction(w, places, atomics, part, negative) == Ok(atomics + Signed(negative, scaled))
  {
    mark, fraction := ParsedHasSign(w, part);
    ShiftedIsProduct(ValueOf(fraction), places - |part| % LENGTHS);
  }

  lemma WholeHasShape(w: Word, places: nat, text: string) returns (s: Shape)
    requires IsDecimal(w, places) && FromStr(w, places, text).Ok? && |SplitAtDots(text)| == 1
    ensures Accepted(w, places, s) && s.Text() == text && FromStr(w, places, text) == Ok(s.Value(places))
  {
    SplitJoins(text);
    var sign, whole := ParsedHasSign(w, text);
    s := Shape(sign, whole, false, "", "");
    assert FromStr(w, places, text) == Ok(ToAtomics(Signed(sign == "-", ValueOf(whole)), places));
    WholeFitsShape(w, places, s);
  }

  lemma WholeFitsShape(w: Word, places: nat, s: Shape)
    requires w.IsMachineWord() && IsSign(w.min < 0, s.sign) && s.whole != "" && AllDigits(s.whole)
    requires !s.dot && s.mark == "" && s.fraction == ""
    requires w.Holds(ToAtomics(Signed(s.sign == "-", ValueOf(s.whole)), places))
    ensures Accepted(w, places, s) && s.Value(places) == ToAtomics(Signed(s.sign == "-", ValueOf(s.whole)), places)
  {
    ShiftedZero(places);
    assert s.Length() == 0 && s.Scaled(places) == 0;
    SignedWhole(w, places, s.sign == "-", ValueOf(s.whole), 0);
  }

  lemma PartsHaveShape(w: Word, places: nat, head: string, part: string) returns (s: Shape)
    requires IsDecimal(w, places) && '.' !in head && '.' !in part
    requires FromStr(w, places, head + "." + part).Ok?
    ensures Accepted(w, places, s) && s.Text() == head + "." + part
    ensures FromStr(w, places, head + "." + part) == Ok(s.Value(places))
  {
    assert ParseInt(w, "") == None;
    SplitAtFirstDot(head, part);
    SplitWithoutDots(part);
    var sign, whole := ParsedHasSign(w, head);
    SignedDigits(w, sign, whole);
    BothPartsAreRead(w, places, head, part, sign == "-");
    s := ShapeOfParts(w, places, sign, whole, part);
  }

  lemma ShapeOfParts(w: Word, places: nat, sign: string, whole: string, part: string) returns (s: Shape)
    requires w.IsMachineWord() && IsSign(w.min < 0, sign) && whole != "" && AllDigits(whole)
    requires WithFraction(w, places, ToAtomics(Signed(sign == "-", ValueOf(whole)), places), part, sign == "-").Ok?
    ensures Accepted(w, places, s) && s.dot && s.sign == sign && s.whole == whole && s.mark + s.fraction == part
    ensures WithFraction(w, places, ToAtomics(Signed(sign == "-", ValueOf(whole)), places), part, sign == "-")
         == Ok(s.Value(places))
  {
    var negative := sign == "-";
    var atomics := ToAtomics(Signed(negative, ValueOf(whole)), places);
    var mark, fraction := FractionHasShape(w, places, atomics, part, negative);
    s := Shape(sign, whole, true, mark, fraction);
    SignedWhole(w, places, negative, ValueOf(whole), s.Scaled(places));
    ReadFits(w, places, atomics, part, negative);
  }

  lemma ReadFits(w: Word, places: nat, atomics: int, part: string, negative: bool)
    ensures WithFraction(w, places, atomics, part, negative).Ok? ==>
      w.Holds(WithFraction(w, places, atomics, part, negative).value)
  {
  }

  lemma {:induction false} PartsHaveNoDots(text: string, i: nat)
    requires i < |SplitAtDots(text)|
    ensures '.' !in SplitAtDots(text)[i]
  {
    if text == "" {
    } else if text[0] == '.' {
      if i > 0 { PartsHaveNoDots(text[1..], i - 1); }
    } else {
      PartsHaveNoDots(text[1..], i);
    }
  }

  lemma ReadHasShape(w: Word, places: nat, text: string) returns (s: Shape)
    requires IsDecimal(w, places) && FromStr(w, places, text).Ok?
    ensures Accepted(w, places, s) && s.Text() == text && FromStr(w, places, text) == Ok(s.Value(places))
  {
    if |SplitAtDots(text)| == 1 {
      s := WholeHasShape(w, places, text);
    } else {
      TwoPartsJoin(text);
      PartsHaveNoDots(text, 0);
      PartsHaveNoDots(text, 1);
      s := PartsHaveShape(w, places, SplitAtDots(text)[0], SplitAtDots(text)[1]);
    }
  }

  /** A text is read as a value if and only if it has the shape of that value and the value fits. */
  lemma AcceptedIff(w: Word, places: nat, text: string, x: int)
    requires IsDecimal(w, places)
    ensures FromStr(w, places, text) == Ok(x) <==>
      exists s: Shape :: Accepted(w, places, s) && s.Text() == text && s.Value(places) == x
  {
    if FromStr(w, places, text) == Ok(x) {
      var s := ReadHasShape(w, places, text);
    }
    forall s: Shape | Accepted(w, places, s) && s.Text() == text && s.Value(places) == x
      ensures FromStr(w, places, text) == Ok(x)
    {
      ShapeIsRead(w, places, s);
    }
  }

  // ---- the printed text ----

  /** No digit too many: no zero in front of the whole part or behind the fraction, and no sign but a needed minus. */
  predicate IsCanonical(s: Shape) {
    && (s.whole == "0" || (s.whole != "" && s.whole[0] != '0'))
    && (s.dot ==> s.fraction != "" && s.fraction[|s.fraction| - 1] != '0')
    && (s.sign == "" || s.sign == "-") && s.mark == ""
  }

  lemma {:induction false} PrintedHasNoLeadingZero(n: nat)
    ensures PrintNat(n) == "0" || PrintNat(n)[0] != '0'
    ensures n > 0 ==> PrintNat(n)[0] != '0'
  {
    if n < 10 {
    } else {
      PrintedHasNoLeadingZero(n / 10);
    }
  }

  lemma FractionTextIsTrimmed(places: nat, fraction: nat)
    requires 0 < fraction < Pow(10, places)
    ensures var text := FractionText(places, fraction);
            text != "" && AllDigits(text) && text[|text| - 1] != '0'
  {
    FractionDigits(places, fraction);
    PaddedValue(PrintNat(fraction), places);
    TrimmedValue(PadLeft(PrintNat(fraction), places));
  }

  /** Of the texts that are read as a decimal, the one printed is that without anything superfluous. */
  lemma PrintedIsCanonical(places: nat, raw: int) returns (s: Shape)
    ensures s.Text() == DecimalText(places, raw) && s.WellFormed(true) && IsCanonical(s)
    ensures s.sign == "-" <==> raw < 0
    ensures s.dot <==> Mod(Abs(raw), Pow(10, places)) != 0
  {
    var whole, fraction := Div(Abs(raw), Pow(10, places)), Mod(Abs(raw), Pow(10, places));
    var sign := if raw < 0 then "-" else "";
    PrintedHasNoLeadingZero(whole);
    TextInParts(places, raw);
    if fraction == 0 {
      s := Shape(sign, PrintNat(whole), false, "", "");
    } else {
      FractionTextIsTrimmed(places, fraction);
      s := Shape(sign, PrintNat(whole), true, "", FractionText(places, fraction));
      assert "" + s.fraction == s.fraction;
    }
  }

  // ---- signs after the dot ----

  /** What the digits are worth if the mark is not counted among them. */
  function Written(s: Shape, places: nat): int
    requires AllDigits(s.whole) && AllDigits(s.fraction) && |s.fraction| <= places
  {
    Signed(s.sign == "-", ToAtomics(ValueOf(s.whole), places) + Shifted(ValueOf(s.fraction), places - |s.fraction|))
  }

  /** The value is the one written if and only if there is no sign after the dot, or only zeros follow it. */
  lemma ReadAsWrittenIff(w: Word, places: nat, s: Shape)
    requires s.WellFormed(w.min < 0) && |s.mark| + |s.fraction| < LENGTHS && s.Length() <= places
    ensures s.Value(places) == Written(s, places) <==> s.mark == "" || ValueOf(s.fraction) == 0
  {
    var n := places - s.Length();
    if s.mark == "" {
      assert s.Length() == |s.fraction|;
    } else {
      assert Shifted(ValueOf(s.fraction), n + 1) == 10 * Shifted(ValueOf(s.fraction), n);
      ShiftedGrows(ValueOf(s.fraction), n);
      ShiftedZero(n);
    }
  }

  lemma {:induction false} ZeroHasOnlyZeros(digits: string)
    requires AllDigits(digits) && ValueOf(digits) == 0
    ensures forall i | 0 <= i < |digits| :: digits[i] == '0'
  {
    if digits == "" {
    } else {
      ZeroHasOnlyZeros(digits[..|digits| - 1]);
    }
  }

  /** In accepted text only digits follow the dot, unless a sign does; after a minus, on a signed type, only zeros. */
  lemma DigitsAfterDotIff(w: Word, places: nat, head: string, part: string)
    requires IsDecimal(w, places) && '.' !in head && '.' !in part
    requires FromStr(w, places, head + "." + part).Ok?
    ensures head != "" && part != ""
    ensures AllDigits(part) <==> part[0] != '+' && part[0] != '-'
    ensures part[0] == '-' ==> w.min < 0 && forall i | 1 <= i < |part| :: part[i] == '0'
  {
    SplitAtFirstDot(head, part);
    SplitWithoutDots(part);
    assert ParseInt(w, "") == None;
    BothPartsAreRead(w, places, head, part, head[0] == '-');
    var mark, fraction :=
      FractionHasShape(w, places, ToAtomics(ParseInt(w, head).value, places), part, head[0] == '-');
    DigitsHaveNoSign(fraction);
    if mark == "" {
      assert part == fraction;
    } else {
      assert part[0] == mark[0] && !IsDigit(part[0]);
      if mark == "-" {
        ZeroHasOnlyZeros(fraction);
      }
    }
  }

  lemma OneDigit(s: string)
    requires |s| == 1 && IsDigit(s[0])
    ensures AllDigits(s) && ValueOf(s) == DigitValue(s[0])
  {
    assert ValueOf(s[..0]) == 0;
  }

  /** A one, and after the dot a mark and one digit. */
  lemma MarkedDigit(w: Word, places: nat, s: Shape)
    requires IsDecimal(w, places) && places >= 2
    requires s.sign == "" && s.whole == "1" && s.dot && s.mark != "" && |s.fraction| == 1 && IsDigit(s.fraction[0])
    requires s.WellFormed(w.min < 0)
    requires w.Holds(ToAtomics(100 + DigitValue(s.fraction[0]), places - 2))
    ensures FromStr(w, places, s.Text()) == Ok(ToAtomics(100 + DigitValue(s.fraction[0]), places - 2))
  {
    OneDigit(s.whole);
    OneDigit(s.fraction);
    ShiftedIsProduct(DigitValue(s.fraction[0]), places - 2);
    Hundreds(places, DigitValue(s.fraction[0]));
    FitsIffValueFits(w, places, s);
    ShapeIsRead(w, places, s);
  }

  lemma Hundreds(places: nat, d: nat)
    requires places >= 2
    ensures Pow(10, places) + ToAtomics(d, places - 2) == ToAtomics(100 + d, places - 2)
  {
    assert Pow(10, places) == 10 * Pow(10, places - 1);
  }

  /** 1.+5 is read as 1.05. */
  lemma PlusExample(w: Word, places: nat)
    requires IsDecimal(w, places) && places >= 2
    requires w.Holds(ToAtomics(105, places - 2))
    ensures FromStr(w, places, "1.+5") == Ok(ToAtomics(105, places - 2))
  {
    MarkedDigit(w, places, Shape("", "1", true, "+", "5"));
    assert Shape("", "1", true, "+", "5").Text() == "1.+5";
  }

  /** On a signed type 1.-0 is read as 1. */
  lemma MinusExample(w: Word, places: nat)
    requires IsDecimal(w, places) && places >= 2 && w.min < 0
    ensures FromStr(w, places, "1.-0") == Ok(Pow(10, places))
  {
    var s := Shape("", "1", true, "-", "0");
    OneDigit(s.fraction);
    Hundreds(places, 0);
    MarkedDigit(w, places, s);
    assert s.Text() == "1.-0";
  }
}

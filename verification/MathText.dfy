/** Integers as decimal digits, the way the language's own formatter and parser treat them. */
module MathText {
  import opened Wrappers
  import opened MathWords

  predicate IsDigit(c: char) {
    '0' <= c <= '9'
  }

  predicate AllDigits(s: string) {
    forall i | 0 <= i < |s| :: IsDigit(s[i])
  }

  function DigitValue(c: char): nat
    requires IsDigit(c)
  {
    (c - '0') as nat
  }

  function ValueOf(s: string): nat
    requires AllDigits(s)
  {
    if s == "" then 0 else 10 * ValueOf(s[..|s| - 1]) + DigitValue(s[|s| - 1])
  }

  function PrintNat(n: nat): (s: string)
    ensures s != "" && AllDigits(s)
  {
    var last := [('0' as int + n % 10) as char];
    if n < 10 then last else PrintNat(n / 10) + last
  }

  function Signed(negative: bool, n: nat): int {
    if negative then 0 - n else n
  }

  function PrintInt(x: int): string {
    if x < 0 then "-" + PrintNat(-x) else PrintNat(x)
  }

  /** A sign is allowed, a minus only if the type is signed. */
  function SplitSign(signed: bool, s: string): (bool, string) {
    if s != "" && s[0] == '-' && signed then (true, s[1..])
    else if s != "" && s[0] == '+' then (false, s[1..])
    else (false, s)
  }

  /** At least one digit is needed. */
  function ParseInt(w: Word, s: string): (x: Option<int>)
    ensures x.Some? ==> w.Holds(x.value)
  {
    var (negative, digits) := SplitSign(w.min < 0, s);
    ParseDigits(w, digits, negative)
  }

  function ParseDigits(w: Word, s: string, negative: bool): (x: Option<int>)
    ensures x.Some? ==> w.Holds(x.value)
  {
    if s == "" || !AllDigits(s) then None
    else
      var x := Signed(negative, ValueOf(s));
      if w.Holds(x) then Some(x) else None
  }

  lemma {:induction false} PrintedValue(n: nat)
    ensures ValueOf(PrintNat(n)) == n
  {
    var s := PrintNat(n);
    if n >= 10 {
      PrintedValue(n / 10);
      assert s[..|s| - 1] == PrintNat(n / 10);
    }
  }

  lemma {:induction false} PrintedLength(n: nat, places: nat)
    requires n < Pow(10, places) && places > 0
    ensures |PrintNat(n)| <= places
  {
    if n < 10 {
    } else {
      assert Pow(10, places) == 10 * Pow(10, places - 1);
      assert places > 1 by { assert Pow(10, 0) == 1; }
      PrintedLength(n / 10, places - 1);
    }
  }

  lemma DigitsHaveNoSign(s: string)
    requires AllDigits(s) && s != ""
    ensures s[0] != '-' && s[0] != '+'
  {
    assert IsDigit(s[0]);
  }

  lemma SignIsSplit(signed: bool, digits: string, negative: bool)
    requires digits != "" && digits[0] != '-' && digits[0] != '+'
    requires negative ==> signed
    ensures SplitSign(signed, (if negative then "-" else "") + digits) == (negative, digits)
  {
    if negative {
      assert ("-" + digits)[1..] == digits;
    } else {
      assert "" + digits == digits;
    }
  }

  lemma ParseSigned(w: Word, digits: string, negative: bool)
    requires digits != "" && AllDigits(digits)
    requires negative ==> w.min < 0
    ensures ParseInt(w, (if negative then "-" else "") + digits) == ParseDigits(w, digits, negative)
  {
    DigitsHaveNoSign(digits);
    SignIsSplit(w.min < 0, digits, negative);
  }

  lemma ParsePrinted(w: Word, n: nat, negative: bool)
    requires negative ==> w.min < 0
    requires w.Holds(Signed(negative, n))
    ensures ParseInt(w, (if negative then "-" else "") + PrintNat(n)) == Some(Signed(negative, n))
  {
    PrintedValue(n);
    ParseSigned(w, PrintNat(n), negative);
  }

  function Zeros(n: nat): (s: string)
    ensures |s| == n && AllDigits(s)
  {
    if n == 0 then "" else Zeros(n - 1) + "0"
  }

  lemma {:induction false} ZerosAreWorthless(n: nat)
    ensures ValueOf(Zeros(n)) == 0
  {
    if n == 0 {
    } else {
      ZerosAreWorthless(n - 1);
      assert Zeros(n)[..n - 1] == Zeros(n - 1);
    }
  }

  /** The value followed by `n` zeros. */
  function Shifted(value: nat, n: nat): nat {
    if n == 0 then value else 10 * Shifted(value, n - 1)
  }

  lemma {:induction false} ShiftedIsProduct(value: nat, n: nat)
    ensures Shifted(value, n) == value * Pow(10, n)
  {
    if n == 0 {
    } else {
      ShiftedIsProduct(value, n - 1);
      MulAssociates(value, 10, Pow(10, n - 1));
      MulAssociates(10, value, Pow(10, n - 1));
    }
  }

  lemma {:induction false} ShiftedZero(n: nat)
    ensures Shifted(0, n) == 0
  {
    if n == 0 {
    } else {
      ShiftedZero(n - 1);
    }
  }

  lemma {:induction false} ShiftedGrows(value: nat, n: nat)
    ensures Shifted(value, n) >= value
  {
    if n == 0 {
    } else {
      ShiftedGrows(value, n - 1);
    }
  }

  lemma {:induction false} ShiftedAdds(x: nat, y: nat, n: nat)
    ensures Shifted(x + y, n) == Shifted(x, n) + Shifted(y, n)
  {
    if n == 0 {
    } else {
      ShiftedAdds(x, y, n - 1);
    }
  }

  lemma {:induction false} ConcatValue(s: string, t: string)
    requires AllDigits(s) && AllDigits(t)
    ensures AllDigits(s + t) && ValueOf(s + t) == Shifted(ValueOf(s), |t|) + ValueOf(t)
    decreases |t|
  {
    if t == "" {
      assert s + t == s;
    } else {
      var u := t[..|t| - 1];
      ConcatValue(s, u);
      assert (s + t)[..|s + t| - 1] == s + u;
    }
  }

  lemma {:induction false} ShiftedPower(m: nat, n: nat)
    ensures Shifted(Pow(10, m), n) == Pow(10, m + n)
  {
    if n == 0 {
    } else {
      ShiftedPower(m, n - 1);
    }
  }

  lemma {:induction false} ValueIsBounded(s: string)
    requires AllDigits(s)
    ensures ValueOf(s) < Pow(10, |s|)
  {
    if s == "" {
    } else {
      ValueIsBounded(s[..|s| - 1]);
    }
  }

  lemma ShiftedIsBounded(s: string, places: nat)
    requires AllDigits(s) && |s| <= places
    ensures Shifted(ValueOf(s), places - |s|) < Pow(10, places)
  {
    var n := places - |s|;
    ValueIsBounded(s);
    ShiftedPower(|s|, n);
    var gap := Pow(10, |s|) - ValueOf(s);
    ShiftedAdds(ValueOf(s), gap, n);
    ShiftedGrows(gap, n);
  }

  /** Filled up with zeros on the left. */
  function PadLeft(s: string, width: nat): string {
    if |s| >= width then s else Zeros(width - |s|) + s
  }

  lemma PaddedValue(s: string, width: nat)
    requires AllDigits(s)
    ensures AllDigits(PadLeft(s, width)) && ValueOf(PadLeft(s, width)) == ValueOf(s)
    ensures |s| <= width ==> |PadLeft(s, width)| == width
  {
    if |s| < width {
      ConcatValue(Zeros(width - |s|), s);
      ZerosAreWorthless(width - |s|);
      ShiftedZero(|s|);
    }
  }

  function TrimZeros(s: string): (t: string)
    ensures |t| <= |s|
  {
    if s != "" && s[|s| - 1] == '0' then TrimZeros(s[..|s| - 1]) else s
  }

  lemma {:induction false} TrimmedValue(s: string)
    requires AllDigits(s)
    ensures var t := TrimZeros(s);
            && AllDigits(t)
            && ValueOf(s) == Shifted(ValueOf(t), |s| - |t|)
            && (t != "" ==> t[|t| - 1] != '0')
  {
    if s != "" && s[|s| - 1] == '0' {
      var u := s[..|s| - 1];
      TrimmedValue(u);
    }
  }

  /** The pieces of a text between its dots. */
  function SplitAtDots(s: string): (parts: seq<string>)
    ensures |parts| >= 1
  {
    if s == "" then [""]
    else
      var rest := SplitAtDots(s[1..]);
      if s[0] == '.' then [""] + rest else [[s[0]] + rest[0]] + rest[1..]
  }

  lemma {:induction false} SplitWithoutDots(s: string)
    requires '.' !in s
    ensures SplitAtDots(s) == [s]
  {
    if s == "" {
    } else {
      SplitWithoutDots(s[1..]);
      assert [s[0]] + s[1..] == s;
    }
  }

  lemma {:induction false} SplitAtFirstDot(s: string, t: string)
    requires '.' !in s
    ensures SplitAtDots(s + "." + t) == [s] + SplitAtDots(t)
  {
    var whole := s + "." + t;
    if s == "" {
      assert whole[1..] == t;
    } else {
      assert whole[1..] == s[1..] + "." + t;
      SplitAtFirstDot(s[1..], t);
      assert [s[0]] + s[1..] == s;
    }
  }
}

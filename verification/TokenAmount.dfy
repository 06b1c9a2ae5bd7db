/** Printing token amounts as decimal numbers without losing a digit. */
module TokenAmounts {
  import opened Options

  /** x multiplied n times by ten. */
  function Scale10(x: nat, n: nat): (r: nat)
    decreases n
  {
    if n == 0 then x else 10 * Scale10(x, n - 1)
  }

  lemma {:induction false} Scale10Inside(x: nat, n: nat)
    ensures Scale10(10 * x, n) == Scale10(x, n + 1)
    decreases n
  {
    if n > 0 {
      Scale10Inside(x, n - 1);
    }
  }

  // ---------------------------------------------------------------------------
  // Digits

  function Digit(d: nat): (c: char)
    requires d < 10
    ensures '0' <= c <= '9'
  {
    '0' + d as char
  }

  predicate IsDigit(c: char) {
    '0' <= c <= '9'
  }

  /** A number in decimal, without leading zeros. */
  function Digits(n: nat): (s: string)
    ensures |s| >= 1 && forall i: nat :: i < |s| ==> IsDigit(s[i])
  {
    if n < 10 then [Digit(n)] else Digits(n / 10) + [Digit(n % 10)]
  }

  /** The last w decimal digits of a number. */
  function LastDigits(n: nat, w: nat): (s: string)
    ensures |s| == w && forall i: nat :: i < |s| ==> IsDigit(s[i])
    decreases w
  {
    if w == 0 then "" else LastDigits(n / 10, w - 1) + [Digit(n % 10)]
  }

  /** A number without its last w decimal digits. */
  function DropDigits(n: nat, w: nat): (r: nat)
    decreases w
  {
    if w == 0 then n else DropDigits(n / 10, w - 1)
  }

  function Zeros(n: nat): (s: string)
    ensures |s| == n
  {
    if n == 0 then "" else "0" + Zeros(n - 1)
  }

  /** A number in decimal, padded on the left with zeros to width w. */
  function Padded(n: nat, w: nat): (s: string)
    ensures |s| >= w && |s| >= 1
  {
    Zeros(if |Digits(n)| < w then w - |Digits(n)| else 0) + Digits(n)
  }

  lemma {:induction false} ZerosEnd(n: nat)
    ensures Zeros(n + 1) == Zeros(n) + "0"
  {
    if n > 0 {
      ZerosEnd(n - 1);
    }
  }

  lemma PaddedStep(n: nat, w: nat)
    requires w >= 1
    ensures Padded(n, w + 1) == Padded(n / 10, w) + [Digit(n % 10)]
  {
    if n < 10 {
      ZerosEnd(w - 1);
    }
  }

  /** Padding to one digit more than w splits into the integer digits and exactly w more. */
  lemma {:induction false} PaddedSplit(n: nat, w: nat)
    ensures Padded(n, w + 1) == Digits(DropDigits(n, w)) + LastDigits(n, w)
    decreases w
  {
    if w > 0 {
      PaddedStep(n, w);
      PaddedSplit(n / 10, w - 1);
    }
  }

  // ---------------------------------------------------------------------------
  // Reading back

  predicate AllDigits(s: string) {
    forall i: nat :: i < |s| ==> IsDigit(s[i])
  }

  function NatValue(s: string): (r: nat)
    requires AllDigits(s)
  {
    if s == "" then 0 else 10 * NatValue(s[..|s| - 1]) + (s[|s| - 1] - '0') as nat
  }

  /** The position of the decimal point, or the length of the string if there is none. */
  function PointAt(s: string): (p: nat)
    ensures p <= |s| && (p < |s| ==> s[p] == '.') && '.' !in s[..p]
  {
    if s == "" || s[0] == '.' then 0
    else
      assert s == [s[0]] + s[1..];
      1 + PointAt(s[1..])
  }

  /** The amount that a decimal number with at most `decimals` fractional digits stands for. */
  function ReadBack(s: string, decimals: nat): (r: Option<nat>) {
    var p := PointAt(s);
    var integer, fraction := s[..p], if p < |s| then s[p + 1..] else "";
    if AllDigits(integer) && AllDigits(fraction) && integer != "" && |fraction| <= decimals
    then Some(Scale10(NatValue(integer), decimals) + Scale10(NatValue(fraction), decimals - |fraction|))
    else None
  }

  lemma {:induction false} DigitsValue(n: nat)
    ensures NatValue(Digits(n)) == n
  {
    if n >= 10 {
      DigitsValue(n / 10);
      var s := Digits(n);
      assert s[..|s| - 1] == Digits(n / 10);
    }
  }

  /** Splitting off digits loses nothing. */
  lemma {:induction false} SplitValue(n: nat, w: nat)
    ensures n == Scale10(DropDigits(n, w), w) + NatValue(LastDigits(n, w))
    decreases w
  {
    if w > 0 {
      SplitValue(n / 10, w - 1);
      var s := LastDigits(n, w);
      assert s[..|s| - 1] == LastDigits(n / 10, w - 1);
    }
  }

  lemma {:induction false} PointAfter(integer: string, rest: string)
    requires '.' !in integer
    ensures PointAt(integer + "." + rest) == |integer|
  {
    var s := integer + "." + rest;
    if integer != "" {
      assert s[1..] == integer[1..] + "." + rest;
      PointAfter(integer[1..], rest);
    }
  }

  lemma NoPoint(s: string)
    requires '.' !in s
    ensures PointAt(s) == |s|
  {
  }

  /** What a string made of an integer, a point and a fraction stands for. */
  lemma ReadParts(integer: string, fraction: string, decimals: nat)
    requires AllDigits(integer) && AllDigits(fraction) && integer != "" && |fraction| <= decimals
    ensures ReadBack(integer + "." + fraction, decimals)
         == Some(Scale10(NatValue(integer), decimals) + Scale10(NatValue(fraction), decimals - |fraction|))
    ensures fraction == "" ==> ReadBack(integer, decimals) == ReadBack(integer + "." + fraction, decimals)
  {
    var s := integer + "." + fraction;
    assert '.' !in integer;
    PointAfter(integer, fraction);
    NoPoint(integer);
    assert s[..|integer|] == integer && s[|integer| + 1..] == fraction;
    assert integer[..|integer|] == integer;
  }

  // ---------------------------------------------------------------------------
  // Printing

  /** The amount in units of 10^-decimals as a decimal number: integer part, point, all decimals. */
  function RealNumber(amount: nat, decimals: nat): (s: string) {
    if decimals > 0 then Digits(DropDigits(amount, decimals)) + "." + LastDigits(amount, decimals)
    else Digits(amount)
  }

  /** There is no zero in front of another digit. */
  ghost predicate NoLeadingZero(s: string) {
    s != "" && (s[0] == '0' ==> |s| == 1 || s[1] == '.')
  }

  /** Digits, and behind a point exactly `decimals` more; no point if there are none. */
  ghost predicate Plain(s: string, decimals: nat) {
    && NoLeadingZero(s)
    && (decimals == 0 ==> AllDigits(s))
    && (decimals > 0 ==>
          var p := |s| - decimals - 1;
          p >= 1 && AllDigits(s[..p]) && s[p] == '.' && AllDigits(s[p + 1..]))
  }

  /** Digits, and behind a point at most `decimals` more, the last of them not zero; no point if there are none. */
  ghost predicate PlainTrimmed(s: string, decimals: nat) {
    && NoLeadingZero(s)
    && (AllDigits(s)
        || var p := PointAt(s);
           && 1 <= p < |s| - 1 && |s| - p - 1 <= decimals && s[|s| - 1] != '0'
           && AllDigits(s[..p]) && AllDigits(s[p + 1..]))
  }

  /** Pads with zeros and inserts the point `decimals` places from the end. */
  method RealNumberString(amount: nat, decimals: nat) returns (s: string)
    ensures s == RealNumber(amount, decimals)
    ensures Plain(s, decimals) && ReadBack(s, decimals) == Some(amount)
  {
    hide ReadBack, Plain;
    PrintedExactly(amount, decimals);
    PrintedPlain(amount, decimals);
    if decimals > 0 {
      s := Padded(amount, decimals + 1);
      PaddedSplit(amount, decimals);
      var at := |s| - decimals;
      s := s[..at] + "." + s[at..];
    } else {
      s := Digits(amount);
    }
  }

  /** Reading a printed amount back gives the amount. */
  lemma PrintedExactly(amount: nat, decimals: nat)
    ensures ReadBack(RealNumber(amount, decimals), decimals) == Some(amount)
  {
    hide ReadBack, Digits, LastDigits, DropDigits;
    if decimals > 0 {
      ReadParts(Digits(DropDigits(amount, decimals)), LastDigits(amount, decimals), decimals);
      DigitsValue(DropDigits(amount, decimals));
      SplitValue(amount, decimals);
    } else {
      ReadParts(Digits(amount), "", 0);
      DigitsValue(amount);
    }
  }

  /** The string without the trailing occurrences of a character. */
  function TrimEnd(s: string, c: char): (r: string)
    ensures r <= s && (r != "" ==> r[|r| - 1] != c)
  {
    if s != "" && s[|s| - 1] == c then TrimEnd(s[..|s| - 1], c) else s
  }

  /** The integer part, and a point and the fraction without trailing zeros if anything is left of it. */
  function RealNumberTrimmed(amount: nat, decimals: nat): (s: string) {
    var integer := Digits(DropDigits(amount, decimals));
    var fraction := TrimEnd(LastDigits(amount, decimals), '0');
    if fraction == "" then integer else integer + "." + fraction
  }

  method TrimEndMatches(s: string, c: char) returns (r: string)
    ensures r == TrimEnd(s, c)
  {
    r := s;
    while r != "" && r[|r| - 1] == c
      invariant TrimEnd(r, c) == TrimEnd(s, c)
      decreases |r|
    {
      r := r[..|r| - 1];
    }
  }

  method RealNumberStringTrimmed(amount: nat, decimals: nat) returns (s: string)
    ensures s == RealNumberTrimmed(amount, decimals)
    ensures PlainTrimmed(s, decimals) && ReadBack(s, decimals) == Some(amount)
    ensures s != "" && s[|s| - 1] != '.' && ('.' in s ==> s[|s| - 1] != '0')
  {
    hide ReadBack, RealNumberTrimmed, RealNumber, Plain, PlainTrimmed;
    TrimmedPlain(amount, decimals);
    s := RealNumberString(amount, decimals);
    TrimmedTwice(amount, decimals);
    TrimmedExactly(amount, decimals);
    if decimals > 0 {
      var zerosTrimmed := TrimEndMatches(s, '0');
      s := TrimEndMatches(zerosTrimmed, '.');
    }
  }

  /** Trimming zeros behind a point stops at the point and keeps the value. */
  lemma {:induction false} TrimFraction(integer: string, fraction: string, decimals: nat) returns (rest: string)
    requires AllDigits(integer) && AllDigits(fraction) && integer != "" && |fraction| <= decimals
    ensures TrimEnd(integer + "." + fraction, '0') == integer + "." + rest && rest == TrimEnd(fraction, '0')
    ensures AllDigits(rest) && |rest| <= decimals && (rest != "" ==> rest[|rest| - 1] != '0')
    ensures ReadBack(integer + "." + rest, decimals) == ReadBack(integer + "." + fraction, decimals)
    decreases |fraction|
  {
    hide ReadBack;
    var s := integer + "." + fraction;
    if fraction != "" && fraction[|fraction| - 1] == '0' {
      var shorter := fraction[..|fraction| - 1];
      assert s[..|s| - 1] == integer + "." + shorter;
      rest := TrimFraction(integer, shorter, decimals);
      ReadParts(integer, fraction, decimals);
      ReadParts(integer, shorter, decimals);
      Scale10Inside(NatValue(shorter), decimals - |fraction|);
    } else {
      rest := fraction;
      assert s[|s| - 1] == if fraction == "" then '.' else fraction[|fraction| - 1];
    }
  }

  /** Trimming zeros and then the point from the printed form gives the trimmed form. */
  lemma TrimmedTwice(amount: nat, decimals: nat)
    ensures RealNumberTrimmed(amount, decimals)
         == if decimals > 0 then TrimEnd(TrimEnd(RealNumber(amount, decimals), '0'), '.') else RealNumber(amount, decimals)
  {
    hide ReadBack, Digits;
    if decimals > 0 {
      var integer := Digits(DropDigits(amount, decimals));
      var rest := TrimFraction(integer, LastDigits(amount, decimals), decimals);
      var t := integer + "." + rest;
      if rest == "" {
        assert t[..|t| - 1] == integer && t[|t| - 1] == '.';
        assert IsDigit(integer[|integer| - 1]);
        assert TrimEnd(integer, '.') == integer;
      } else {
        assert t[|t| - 1] == rest[|rest| - 1];
      }
    }
  }

  /**
    The trimmed form still stands for the amount, and it ends neither in a point nor in a zero
    behind a point.
   */
  lemma TrimmedExactly(amount: nat, decimals: nat)
    ensures var s := RealNumberTrimmed(amount, decimals);
            && ReadBack(s, decimals) == Some(amount)
            && s != "" && s[|s| - 1] != '.'
            && ('.' in s ==> s[|s| - 1] != '0')
  {
    assert DropDigits(amount, 0) == amount;
    hide ReadBack, Digits, LastDigits, DropDigits;
    PrintedExactly(amount, decimals);
    var integer := Digits(DropDigits(amount, decimals));
    var rest := TrimFraction(integer, LastDigits(amount, decimals), decimals);
    ReadParts(integer, rest, decimals);
    ReadParts(integer, LastDigits(amount, decimals), decimals);
    assert IsDigit(integer[|integer| - 1]);
  }

  // ---------------------------------------------------------------------------
  // The printed form is the only one

  lemma {:induction false} DigitsPlain(n: nat)
    ensures Digits(n)[0] == '0' ==> n == 0 && |Digits(n)| == 1
  {
    if n >= 10 {
      DigitsPlain(n / 10);
    }
  }

  lemma PrintedPlain(amount: nat, decimals: nat)
    ensures Plain(RealNumber(amount, decimals), decimals)
  {
    hide Digits, LastDigits;
    if decimals > 0 {
      var integer, fraction := Digits(DropDigits(amount, decimals)), LastDigits(amount, decimals);
      DigitsPlain(DropDigits(amount, decimals));
      var s := integer + "." + fraction;
      assert s[..|integer|] == integer && s[|integer| + 1..] == fraction;
    } else {
      DigitsPlain(amount);
    }
  }

  lemma TrimmedPlain(amount: nat, decimals: nat)
    ensures PlainTrimmed(RealNumberTrimmed(amount, decimals), decimals)
  {
    hide Digits, LastDigits, TrimEnd;
    var integer, fraction := Digits(DropDigits(amount, decimals)), TrimEnd(LastDigits(amount, decimals), '0');
    DigitsPlain(DropDigits(amount, decimals));
    if fraction != "" {
      var s := integer + "." + fraction;
      assert '.' !in integer;
      PointAfter(integer, fraction);
      assert s[..|integer|] == integer && s[|integer| + 1..] == fraction;
    }
  }

  lemma {:induction false} ValuePositive(s: string)
    requires AllDigits(s) && s != "" && s[0] != '0'
    ensures NatValue(s) >= 1
  {
    if |s| > 1 {
      ValuePositive(s[..|s| - 1]);
    }
  }

  lemma LastDigit(s: string) returns (t: string, d: nat)
    requires AllDigits(s) && s != ""
    ensures d < 10 && s == t + [Digit(d)] && AllDigits(t) && NatValue(s) == 10 * NatValue(t) + d
  {
    var c := s[|s| - 1];
    t, d := s[..|s| - 1], (c - '0') as nat;
    assert Digit(d) == c;
  }

  lemma DigitsStep(n: nat, d: nat)
    requires d < 10
    ensures Digits(d) == [Digit(d)] && (n >= 1 ==> Digits(10 * n + d) == Digits(n) + [Digit(d)])
  {
    assert (10 * n + d) / 10 == n && (10 * n + d) % 10 == d;
  }

  /** A string of digits without leading zeros is the decimal form of its value. */
  lemma {:induction false} DigitsUnique(s: string)
    requires AllDigits(s) && s != "" && (s[0] == '0' ==> |s| == 1)
    ensures s == Digits(NatValue(s))
    decreases |s|
  {
    hide Digits, NatValue, Digit;
    var t, d := LastDigit(s);
    DigitsStep(NatValue(t), d);
    if t == "" {
      NoDigits();
    } else {
      DigitsUnique(t);
      ValuePositive(t);
    }
  }

  lemma NoDigits()
    ensures NatValue("") == 0
  {
  }

  /** The last w digits of a number are the digits that were put there, and the rest is the rest. */
  lemma {:induction false} SplitUnique(integer: nat, fraction: string)
    requires AllDigits(fraction)
    ensures var n := Scale10(integer, |fraction|) + NatValue(fraction);
            DropDigits(n, |fraction|) == integer && LastDigits(n, |fraction|) == fraction
    decreases |fraction|
  {
    if fraction != "" {
      hide NatValue, Digit;
      var t, d := LastDigit(fraction);
      SplitUnique(integer, t);
      var n := Scale10(integer, |fraction|) + NatValue(fraction);
      assert n / 10 == Scale10(integer, |t|) + NatValue(t) && n % 10 == d;
    }
  }

  /** A number made of an integer and all decimals prints as just those. */
  lemma PrintedParts(integer: string, fraction: string)
    requires AllDigits(integer) && integer != "" && (integer[0] == '0' ==> |integer| == 1) && AllDigits(fraction)
    ensures var amount := Scale10(NatValue(integer), |fraction|) + NatValue(fraction);
            RealNumber(amount, |fraction|) == if fraction == "" then integer else integer + "." + fraction
  {
    hide *;
    SplitUnique(NatValue(integer), fraction);
    DigitsUnique(integer);
    RealNumberIs(Scale10(NatValue(integer), |fraction|) + NatValue(fraction), integer, fraction);
  }

  lemma RealNumberIs(amount: nat, integer: string, fraction: string)
    requires integer == Digits(DropDigits(amount, |fraction|)) && fraction == LastDigits(amount, |fraction|)
    ensures RealNumber(amount, |fraction|) == if fraction == "" then integer else integer + "." + fraction
  {
    hide Digits, LastDigits;
  }

  /** With its read-back and its form a printed amount is determined. */
  lemma PrintedUnique(s: string, amount: nat, decimals: nat)
    requires Plain(s, decimals) && ReadBack(s, decimals) == Some(amount)
    ensures s == RealNumber(amount, decimals)
  {
    hide ReadBack, Digits, LastDigits, NatValue, DropDigits, RealNumber;
    var p := if decimals > 0 then |s| - decimals - 1 else |s|;
    var integer, fraction := s[..p], if decimals > 0 then s[p + 1..] else "";
    assert s == if fraction == "" then integer else integer + "." + fraction;
    ReadParts(integer, fraction, decimals);
    PrintedParts(integer, fraction);
  }

  lemma AppendZero(s: string)
    requires AllDigits(s)
    ensures AllDigits(s + "0") && NatValue(s + "0") == 10 * NatValue(s) && TrimEnd(s + "0", '0') == TrimEnd(s, '0')
  {
    var t := s + "0";
    assert t[|t| - 1] == '0' && t[..|t| - 1] == s;
  }

  lemma {:induction false} ZerosTrimmed(s: string, n: nat)
    requires AllDigits(s) && (s == "" || s[|s| - 1] != '0')
    ensures AllDigits(s + Zeros(n)) && TrimEnd(s + Zeros(n), '0') == s && NatValue(s + Zeros(n)) == Scale10(NatValue(s), n)
  {
    if n == 0 {
      assert s + Zeros(0) == s;
    } else {
      hide Zeros, NatValue, TrimEnd, AllDigits;
      ZerosTrimmed(s, n - 1);
      ZerosEnd(n - 1);
      assert s + Zeros(n) == s + Zeros(n - 1) + "0";
      AppendZero(s + Zeros(n - 1));
    }
  }

  /** A number made of an integer and a fraction without trailing zeros prints trimmed as just those. */
  lemma TrimmedParts(integer: string, fraction: string, decimals: nat)
    requires AllDigits(integer) && integer != "" && (integer[0] == '0' ==> |integer| == 1)
    requires AllDigits(fraction) && |fraction| <= decimals && (fraction == "" || fraction[|fraction| - 1] != '0')
    ensures var amount := Scale10(NatValue(integer), decimals) + Scale10(NatValue(fraction), decimals - |fraction|);
            RealNumberTrimmed(amount, decimals) == if fraction == "" then integer else integer + "." + fraction
  {
    hide Digits, LastDigits, NatValue, DropDigits, TrimEnd;
    ZerosTrimmed(fraction, decimals - |fraction|);
    SplitUnique(NatValue(integer), fraction + Zeros(decimals - |fraction|));
    DigitsUnique(integer);
  }

  /** The same of the trimmed form. */
  lemma TrimmedUnique(s: string, amount: nat, decimals: nat)
    requires PlainTrimmed(s, decimals) && ReadBack(s, decimals) == Some(amount)
    ensures s == RealNumberTrimmed(amount, decimals)
  {
    hide ReadBack, Digits, LastDigits, NatValue, DropDigits, RealNumberTrimmed, PointAt;
    if AllDigits(s) {
      ReadParts(s, "", decimals);
      TrimmedParts(s, "", decimals);
    } else {
      var p := PointAt(s);
      var integer, fraction := s[..p], s[p + 1..];
      assert s == integer + "." + fraction;
      ReadParts(integer, fraction, decimals);
      TrimmedParts(integer, fraction, decimals);
    }
  }

  /** Two amounts that print alike are equal, in either form. */
  lemma PrintingInjective(a: nat, b: nat, decimals: nat)
    requires RealNumber(a, decimals) == RealNumber(b, decimals) || RealNumberTrimmed(a, decimals) == RealNumberTrimmed(b, decimals)
    ensures a == b
  {
    PrintedExactly(a, decimals);
    PrintedExactly(b, decimals);
    TrimmedExactly(a, decimals);
    TrimmedExactly(b, decimals);
  }
}

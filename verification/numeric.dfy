/** PHP 8's loose comparison of two strings: when both are numeric strings
    they are compared as numbers, otherwise byte for byte. A numeric string
    is optional whitespace, an optional sign, a decimal mantissa with at
    least one digit, an optional exponent, and optional whitespace. Numbers
    are compared here by their exact decimal value. */
module Numeric {
  import opened Results
  import opened Text

  /** The whitespace a numeric string may carry at either end. */
  predicate IsNumericSpace(c: char)
  {
    c == ' ' || c == '\t' || c == '\n' || c == '\r' || c as int == 0x0B || c as int == 0x0C
  }

  predicate AllNumericSpace(t: string)
  {
    forall i :: 0 <= i < |t| ==> IsNumericSpace(t[i])
  }

  /** r is the slice of s from a on, and everything around it is whitespace. */
  predicate Middle(s: string, r: string, a: int)
  {
    && 0 <= a <= |s| - |r|
    && r == s[a..a + |r|]
    && AllNumericSpace(s[..a])
    && AllNumericSpace(s[a + |r|..])
  }

  /** s without its leading and trailing whitespace. */
  function StripSpaces(s: string): (r: string)
    ensures |r| <= |s|
    ensures |r| > 0 ==> !IsNumericSpace(r[0]) && !IsNumericSpace(r[|r| - 1])
    ensures |s| == 0 || (!IsNumericSpace(s[0]) && !IsNumericSpace(s[|s| - 1])) ==> r == s
    decreases |s|
  {
    if |s| > 0 && IsNumericSpace(s[0]) then StripSpaces(s[1..])
    else if |s| > 0 && IsNumericSpace(s[|s| - 1]) then StripSpaces(s[..|s| - 1])
    else s
  }

  /** Stripping removes only whitespace, and only at the ends: what is left
      is a slice of s with nothing but whitespace on either side. */
  lemma {:induction false} StripSpacesMiddle(s: string)
    ensures exists a :: Middle(s, StripSpaces(s), a)
    decreases |s|
  {
    var r := StripSpaces(s);
    if |s| > 0 && IsNumericSpace(s[0]) {
      StripSpacesMiddle(s[1..]);
      MiddleFront(s, r);
    } else if |s| > 0 && IsNumericSpace(s[|s| - 1]) {
      StripSpacesMiddle(s[..|s| - 1]);
      MiddleBack(s, s[..|s| - 1], r);
    } else {
      assert Middle(s, s, 0);
    }
  }

  /** A middle of s minus a leading space is a middle of s. */
  lemma MiddleFront(s: string, r: string)
    requires |s| > 0 && IsNumericSpace(s[0])
    requires exists a :: Middle(s[1..], r, a)
    ensures exists a :: Middle(s, r, a)
  {
    var a :| Middle(s[1..], r, a);
    assert s[1..][a..a + |r|] == s[a + 1..a + 1 + |r|];
    assert s[..a + 1] == [s[0]] + s[1..][..a];
    assert s[a + 1 + |r|..] == s[1..][a + |r|..];
    assert Middle(s, r, a + 1);
  }

  /** A middle of s minus a trailing space is a middle of s. */
  lemma MiddleBack(s: string, t: string, r: string)
    requires |s| > 0 && IsNumericSpace(s[|s| - 1]) && t == s[..|s| - 1]
    requires exists a :: Middle(t, r, a)
    ensures exists a :: Middle(s, r, a)
  {
    var a :| Middle(t, r, a);
    assert t[a..a + |r|] == s[a..a + |r|];
    assert s[..a] == t[..a];
    assert s[a + |r|..] == t[a + |r|..] + [s[|s| - 1]];
    assert Middle(s, r, a);
  }

  /** The length of the run of decimal digits at the start of s. */
  function DigitRun(s: string): (n: nat)
    ensures n <= |s|
    ensures forall i :: 0 <= i < n ==> IsDigit(s[i])
    ensures n < |s| ==> !IsDigit(s[n])
  {
    if |s| == 0 || !IsDigit(s[0]) then 0 else 1 + DigitRun(s[1..])
  }

  /** A parsed numeric string: the value is (-1 if negative) * digits *
      10^(exponent - fracLen), where the last fracLen digits came after the
      decimal point. */
  datatype Decimal = Decimal(negative: bool, digits: string, fracLen: nat, exponent: int)

  predicate WellFormed(d: Decimal)
  {
    && |d.digits| > 0
    && (forall i :: 0 <= i < |d.digits| ==> IsDigit(d.digits[i]))
    && d.fracLen <= |d.digits|
  }

  /** s without a leading sign. */
  function Unsigned(s: string): string
  {
    if |s| > 0 && (s[0] == '+' || s[0] == '-') then s[1..] else s
  }

  /** The digits after an 'e' or 'E': read exactly when they are an optional
      sign followed by at least one digit; the value has the digits as its
      size and is negative only after a minus sign. */
  function ParseExponent(s: string): (r: Option<int>)
    ensures r.Some? <==> |Unsigned(s)| > 0 && forall i :: 0 <= i < |Unsigned(s)| ==> IsDigit(Unsigned(s)[i])
    ensures r.Some? ==> (if r.value < 0 then -r.value else r.value) == DecimalValue(Unsigned(s))
    ensures r.Some? && r.value < 0 ==> s[0] == '-'
    ensures r.Some? && s[0] == '-' ==> r.value <= 0
  {
    var body := Unsigned(s);
    if |body| == 0 || DigitRun(body) != |body| then None
    else if s[0] == '-' then Some(0 - DecimalValue(body) as int)
    else Some(DecimalValue(body) as int)
  }

  /** The mantissa at the start of u: digits, optionally a point and more
      digits, at least one digit in all. Gives the digits without the point,
      how many followed the point, and what is left of u. */
  function ParseMantissa(u: string): (r: Option<(string, nat, string)>)
    ensures r.Some? ==> |r.value.0| > 0 && r.value.1 <= |r.value.0|
    ensures r.Some? ==> forall k :: 0 <= k < |r.value.0| ==> IsDigit(r.value.0[k])
  {
    var i := DigitRun(u);
    if i < |u| && u[i] == '.' then
      var after := u[i + 1..];
      var f := DigitRun(after);
      if i + f == 0 then None
      else
        var digits := u[..i] + after[..f];
        assert forall k :: 0 <= k < |digits| ==> IsDigit(digits[k]) by {
          forall k | 0 <= k < |digits|
            ensures IsDigit(digits[k])
          {
            if k >= i {
              assert digits[k] == after[k - i];
            }
          }
        }
        Some((digits, f, after[f..]))
    else if i == 0 then None
    else Some((u[..i], 0, u[i..]))
  }

  /** The numeric reading of s, or None when s is not a numeric string. */
  function ParseNumeric(s: string): (r: Option<Decimal>)
    ensures r.Some? ==> WellFormed(r.value)
  {
    var t := StripSpaces(s);
    var signed := |t| > 0 && (t[0] == '+' || t[0] == '-');
    var negative := signed && t[0] == '-';
    var mantissa := ParseMantissa(if signed then t[1..] else t);
    if mantissa.None? then None
    else
      var (digits, fracLen, tail) := mantissa.value;
      if |tail| == 0 then Some(Decimal(negative, digits, fracLen, 0))
      else if tail[0] != 'e' && tail[0] != 'E' then None
      else
        var e := ParseExponent(tail[1..]);
        if e.None? then None else Some(Decimal(negative, digits, fracLen, e.value))
  }

  /** One way of writing d back: sign, integer digits, point, fraction
      digits, and the exponent after an 'e'. */
  function Render(d: Decimal): (r: string)
    requires WellFormed(d)
    ensures |r| > 0 && IsDigit(r[|r| - 1])
  {
    var cut := |d.digits| - d.fracLen;
    (if d.negative then "-" else "") + d.digits[..cut] + "." + d.digits[cut..] + "e" + IntToDecimal(d.exponent)
  }

  /** A run of digits followed by a non-digit (or nothing) is read whole. */
  lemma {:induction false} DigitRunPrefix(a: string, b: string)
    requires forall k :: 0 <= k < |a| ==> IsDigit(a[k])
    requires |b| > 0 ==> !IsDigit(b[0])
    ensures DigitRun(a + b) == |a|
  {
    if |a| > 0 {
      assert (a + b)[1..] == a[1..] + b;
      DigitRunPrefix(a[1..], b);
    }
  }

  /** An exponent written by IntToDecimal is read back as itself. */
  lemma ExponentRoundTrip(e: int)
    ensures ParseExponent(IntToDecimal(e)) == Some(e)
  {
    var s := IntToDecimal(e);
    if e < 0 {
      var u := NatToDecimal(-e);
      assert s == "-" + u && Unsigned(s) == u;
      DecimalRoundTrip(-e);
      DigitRunPrefix(u, "");
      assert u + "" == u;
    } else {
      assert s == NatToDecimal(e) && Unsigned(s) == s;
      DecimalRoundTrip(e);
      DigitRunPrefix(s, "");
      assert s + "" == s;
    }
  }

  /** A mantissa written with its point is read back, digits and all. */
  lemma MantissaRoundTrip(intD: string, fracD: string, tail: string)
    requires forall k :: 0 <= k < |intD| ==> IsDigit(intD[k])
    requires forall k :: 0 <= k < |fracD| ==> IsDigit(fracD[k])
    requires |intD| + |fracD| > 0
    requires |tail| > 0 ==> !IsDigit(tail[0])
    ensures ParseMantissa(intD + "." + fracD + tail) == Some((intD + fracD, |fracD|, tail))
  {
    var u := intD + "." + fracD + tail;
    assert u == intD + ("." + fracD + tail);
    DigitRunPrefix(intD, "." + fracD + tail);
    assert u[|intD|] == '.';
    var after := u[|intD| + 1..];
    assert after == fracD + tail;
    DigitRunPrefix(fracD, tail);
    assert after[..|fracD|] == fracD;
    assert after[|fracD|..] == tail;
  }

  /** Render's output carries no whitespace at either end. */
  lemma RenderUnpadded(d: Decimal)
    requires WellFormed(d)
    ensures StripSpaces(Render(d)) == Render(d)
    ensures Render(d)[0] == '-' <==> d.negative
    ensures Render(d)[0] != '+'
  {
    var r := Render(d);
    var cut := |d.digits| - d.fracLen;
    if d.negative {
      assert r[0] == '-';
    } else if cut > 0 {
      assert r[0] == d.digits[0];
    } else {
      assert r[0] == '.';
    }
  }

  /** ParseNumeric on a string already known to split into a sign, a
      mantissa and an exponent. */
  lemma ParseNumericParts(s: string, negative: bool, digits: string, fracLen: nat, tail: string, e: int)
    requires StripSpaces(s) == s && |s| > 0
    requires (s[0] == '-' <==> negative) && s[0] != '+'
    requires ParseMantissa(if negative then s[1..] else s) == Some((digits, fracLen, tail))
    requires |tail| > 0 && tail[0] == 'e' && ParseExponent(tail[1..]) == Some(e)
    ensures ParseNumeric(s) == Some(Decimal(negative, digits, fracLen, e))
  {
  }

  /** After its sign, Render's output starts with a mantissa that reads
      back as d's digits. */
  lemma RenderMantissa(d: Decimal)
    requires WellFormed(d)
    ensures var r := Render(d);
            ParseMantissa(if d.negative then r[1..] else r) == Some((d.digits, d.fracLen, "e" + IntToDecimal(d.exponent)))
  {
    var cut := |d.digits| - d.fracLen;
    var intD := d.digits[..cut];
    var fracD := d.digits[cut..];
    var tail := "e" + IntToDecimal(d.exponent);
    RenderUnsigned(d, intD + "." + fracD + tail);
    assert intD + fracD == d.digits;
    MantissaRoundTrip(intD, fracD, tail);
  }

  /** Render's output after its sign. */
  lemma RenderUnsigned(d: Decimal, u: string)
    requires WellFormed(d)
    requires var cut := |d.digits| - d.fracLen;
             u == d.digits[..cut] + "." + d.digits[cut..] + "e" + IntToDecimal(d.exponent)
    ensures (if d.negative then Render(d)[1..] else Render(d)) == u
  {
    if d.negative {
      assert Render(d) == "-" + u;
    }
  }

  /** ParseNumeric on an unsigned mantissa with no exponent. */
  lemma ParseNumericPlain(s: string, digits: string, fracLen: nat)
    requires StripSpaces(s) == s && |s| > 0 && IsDigit(s[0])
    requires ParseMantissa(s) == Some((digits, fracLen, ""))
    ensures ParseNumeric(s) == Some(Decimal(false, digits, fracLen, 0))
  {
  }

  /** Whatever Render writes, ParseNumeric reads back unchanged. */
  lemma RenderRoundTrip(d: Decimal)
    requires WellFormed(d)
    ensures ParseNumeric(Render(d)) == Some(d)
  {
    var ex := IntToDecimal(d.exponent);
    var tail := "e" + ex;
    var r := Render(d);
    RenderUnpadded(d);
    RenderMantissa(d);
    assert ParseExponent(tail[1..]) == Some(d.exponent) by {
      assert tail[1..] == ex;
      ExponentRoundTrip(d.exponent);
    }
    ParseNumericParts(r, d.negative, d.digits, d.fracLen, tail, d.exponent);
  }

  function Pow10(n: nat): (r: nat)
    ensures r >= 1
  {
    if n == 0 then 1 else 10 * Pow10(n - 1)
  }

  /** The digits as a signed integer, before scaling. */
  function SignedDigits(d: Decimal): int
    requires WellFormed(d)
  {
    if d.negative then 0 - DecimalValue(d.digits) as int else DecimalValue(d.digits) as int
  }

  /** The power of ten the digits are scaled by. */
  function Scale(d: Decimal): int
  {
    d.exponent - d.fracLen
  }

  /** Equal values: both sides scaled to the smaller power of ten. */
  predicate SameValue(a: Decimal, b: Decimal)
    requires WellFormed(a) && WellFormed(b)
  {
    var k := if Scale(a) <= Scale(b) then Scale(a) else Scale(b);
    SignedDigits(a) * Pow10(Scale(a) - k) == SignedDigits(b) * Pow10(Scale(b) - k)
  }

  /** `a == b` between two PHP strings: equal strings are always loosely
      equal, and unless both are numeric the comparison is exact. */
  function LooseEquals(a: string, b: string): (r: bool)
    ensures a == b ==> r
    ensures ParseNumeric(a).None? || ParseNumeric(b).None? ==> (r <==> a == b)
  {
    var pa := ParseNumeric(a);
    var pb := ParseNumeric(b);
    if pa.Some? && pb.Some? then SameValue(pa.value, pb.value) else a == b
  }

  /** in_array($x, $xs) without the strict flag: it includes exact
      membership, and is exact membership when x is not numeric. */
  function LooselyIn(x: string, xs: seq<string>): (r: bool)
    ensures x in xs ==> r
    ensures ParseNumeric(x).None? ==> (r <==> x in xs)
  {
    exists i :: 0 <= i < |xs| && LooseEquals(x, xs[i])
  }

  /** Loose comparison never separates a string from itself. */
  lemma LooseEqualsReflexive(a: string)
    ensures LooseEquals(a, a)
  {
  }

  /** Loose membership includes exact membership. */
  lemma ExactIsLoose(x: string, xs: seq<string>)
    requires x in xs
    ensures LooselyIn(x, xs)
  {
    var i :| 0 <= i < |xs| && xs[i] == x;
    LooseEqualsReflexive(x);
  }
}

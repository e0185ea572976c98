/** Which strings PHP 8 treats as numeric, stated as a grammar, and the proof
    that Numeric.ParseNumeric reads exactly those strings:

      WHITESPACE* [+-]? (LNUM | DNUM) ([eE] [+-]? LNUM)? WHITESPACE*

    where LNUM is [0-9]+ and DNUM is ([0-9]* "." [0-9]+) | ([0-9]+ "." [0-9]*). */
module NumericStrings {
  import opened Results
  import opened Text
  import opened Numeric

  predicate AllDigits(t: string)
  {
    forall i :: 0 <= i < |t| ==> IsDigit(t[i])
  }

  /** LNUM: one or more digits. */
  predicate IsLnum(t: string)
  {
    |t| > 0 && AllDigits(t)
  }

  /** DNUM: digits, one point, digits, with at least one digit in all. */
  predicate IsDnum(t: string)
  {
    exists k :: 0 <= k < |t| && t[k] == '.' && AllDigits(t[..k]) && AllDigits(t[k + 1..]) && |t| > 1
  }

  predicate IsMantissaText(t: string)
  {
    IsLnum(t) || IsDnum(t)
  }

  /** [eE] [+-]? LNUM */
  predicate IsExponentPart(t: string)
  {
    |t| > 0 && (t[0] == 'e' || t[0] == 'E') && IsLnum(Unsigned(t[1..]))
  }

  /** A mantissa, then optionally an exponent part. */
  predicate IsUnsignedNumber(u: string)
  {
    exists j :: 0 <= j <= |u| && IsMantissaText(u[..j]) && (j == |u| || IsExponentPart(u[j..]))
  }

  /** An optional sign, then an unsigned number. */
  predicate IsNumber(t: string)
  {
    || IsUnsignedNumber(t)
    || (|t| > 0 && (t[0] == '+' || t[0] == '-') && IsUnsignedNumber(t[1..]))
  }

  /** s[a..b] is a number and only whitespace lies around it. */
  predicate NumberBetween(s: string, a: int, b: int)
  {
    0 <= a <= b <= |s| && AllNumericSpace(s[..a]) && AllNumericSpace(s[b..]) && IsNumber(s[a..b])
  }

  /** A number with any amount of whitespace on either side. */
  predicate IsNumericString(s: string)
  {
    exists a, b :: 0 <= a <= b <= |s| && NumberBetween(s, a, b)
  }

  // ---------------------------------------------------------------- the mantissa

  /** What ParseMantissa reads is a mantissa, and it stops before a digit. */
  lemma MantissaShape(u: string)
    requires ParseMantissa(u).Some?
    ensures var tail := ParseMantissa(u).value.2;
            && |tail| <= |u|
            && u[|u| - |tail|..] == tail
            && IsMantissaText(u[..|u| - |tail|])
            && (|tail| > 0 ==> !IsDigit(tail[0]))
  {
    var i := DigitRun(u);
    if i < |u| && u[i] == '.' {
      var after := u[i + 1..];
      var f := DigitRun(after);
      var j := i + 1 + f;
      var m := u[..j];
      assert after[f..] == u[j..];
      assert m[..i] == u[..i];
      assert m[i + 1..] == after[..f];
      assert m[i] == '.';
      assert IsDnum(m);
    } else {
      assert IsLnum(u[..i]);
    }
  }

  /** A mantissa followed by nothing or by an exponent marker is read whole. */
  lemma MantissaRead(m: string, tail: string)
    requires IsMantissaText(m)
    requires |tail| > 0 ==> tail[0] == 'e' || tail[0] == 'E'
    ensures ParseMantissa(m + tail).Some?
    ensures ParseMantissa(m + tail).value.2 == tail
  {
    if IsLnum(m) {
      LnumRead(m, tail);
    } else {
      var k :| 0 <= k < |m| && m[k] == '.' && AllDigits(m[..k]) && AllDigits(m[k + 1..]) && |m| > 1;
      assert m == m[..k] + "." + m[k + 1..];
      MantissaRoundTrip(m[..k], m[k + 1..], tail);
    }
  }

  /** Digits followed by nothing or by an exponent marker are read whole. */
  lemma LnumRead(m: string, tail: string)
    requires IsLnum(m)
    requires |tail| > 0 ==> tail[0] == 'e' || tail[0] == 'E'
    ensures ParseMantissa(m + tail) == Some((m, 0, tail))
  {
    var u := m + tail;
    DigitRunPrefix(m, tail);
    assert u[..|m|] == m;
    assert u[|m|..] == tail;
    assert |tail| > 0 ==> u[|m|] == tail[0];
  }

  /** A mantissa begins with a digit or the point. */
  lemma MantissaStart(m: string)
    requires IsMantissaText(m)
    ensures |m| > 0 && (IsDigit(m[0]) || m[0] == '.')
    ensures m[0] == '.' ==> |m| > 1 && IsDigit(m[1])
  {
    if !IsLnum(m) {
      var k :| 0 <= k < |m| && m[k] == '.' && AllDigits(m[..k]) && AllDigits(m[k + 1..]) && |m| > 1;
      if k > 0 {
        assert m[..k][0] == m[0];
      } else {
        assert m[k + 1..][0] == m[1];
      }
    }
  }

  /** A mantissa ends with a digit or the point. */
  lemma MantissaEnd(m: string)
    requires IsMantissaText(m)
    ensures |m| > 0 && (IsDigit(m[|m| - 1]) || m[|m| - 1] == '.')
  {
    MantissaStart(m);
    if !IsLnum(m) {
      var k :| 0 <= k < |m| && m[k] == '.' && AllDigits(m[..k]) && AllDigits(m[k + 1..]) && |m| > 1;
      if k < |m| - 1 {
        assert m[k + 1..][|m| - k - 2] == m[|m| - 1];
      }
    }
  }

  /** ParseMantissa reads exactly when u begins with a mantissa. */
  lemma ParseMantissaIff(u: string)
    ensures ParseMantissa(u).Some? <==> exists j :: 0 < j <= |u| && IsMantissaText(u[..j])
  {
    if ParseMantissa(u).Some? {
      MantissaShape(u);
      var j := |u| - |ParseMantissa(u).value.2|;
      MantissaStart(u[..j]);
      assert 0 < j <= |u| && IsMantissaText(u[..j]);
    } else if exists j :: 0 < j <= |u| && IsMantissaText(u[..j]) {
      var j :| 0 < j <= |u| && IsMantissaText(u[..j]);
      MantissaStart(u[..j]);
      assert false;
    }
  }

  // ---------------------------------------------------------------- the number

  /** What ParseNumeric asks of the unsigned part of its input. */
  predicate ReadsUnsigned(u: string)
  {
    var r := ParseMantissa(u);
    && r.Some?
    && (|r.value.2| == 0
        || ((r.value.2[0] == 'e' || r.value.2[0] == 'E') && ParseExponent(r.value.2[1..]).Some?))
  }

  /** ParseNumeric reads s exactly when the unsigned part of its stripped
      form is read. */
  lemma ParseNumericUnfold(s: string)
    ensures ParseNumeric(s).Some? <==> ReadsUnsigned(Unsigned(StripSpaces(s)))
  {
    var t := StripSpaces(s);
    var signed := |t| > 0 && (t[0] == '+' || t[0] == '-');
    assert (if signed then t[1..] else t) == Unsigned(t);
  }

  lemma ReadsUnsignedSound(u: string)
    requires ReadsUnsigned(u)
    ensures IsUnsignedNumber(u)
  {
    MantissaShape(u);
    var tail := ParseMantissa(u).value.2;
    var j := |u| - |tail|;
    assert u[..j] == u[..j] && u[j..] == tail;
    if |tail| > 0 {
      assert tail[1..] == u[j..][1..];
      assert IsExponentPart(u[j..]);
    }
    assert 0 <= j <= |u| && IsMantissaText(u[..j]) && (j == |u| || IsExponentPart(u[j..]));
  }

  lemma ReadsUnsignedComplete(u: string)
    requires IsUnsignedNumber(u)
    ensures ReadsUnsigned(u)
  {
    var j :| 0 <= j <= |u| && IsMantissaText(u[..j]) && (j == |u| || IsExponentPart(u[j..]));
    var m := u[..j];
    var tail := u[j..];
    assert u == m + tail;
    MantissaRead(m, tail);
  }

  /** An unsigned number begins with a digit or the point, and ends with a
      digit or the point. */
  lemma UnsignedNumberEnds(u: string)
    requires IsUnsignedNumber(u)
    ensures |u| > 0 && (IsDigit(u[0]) || u[0] == '.')
    ensures IsDigit(u[|u| - 1]) || u[|u| - 1] == '.'
  {
    var j :| 0 <= j <= |u| && IsMantissaText(u[..j]) && (j == |u| || IsExponentPart(u[j..]));
    MantissaStart(u[..j]);
    assert u[..j][0] == u[0];
    if j == |u| {
      MantissaEnd(u[..j]);
      assert u[..j] == u;
    } else {
      var x := u[j..][1..];
      assert |Unsigned(x)| > 0 && AllDigits(Unsigned(x));
      assert Unsigned(x)[|Unsigned(x)| - 1] == u[|u| - 1];
    }
  }

  /** The sign is optional, and an unsigned number never starts with one. */
  lemma NumberIsSignedUnsigned(t: string)
    ensures IsNumber(t) <==> IsUnsignedNumber(Unsigned(t))
  {
    if IsUnsignedNumber(t) {
      UnsignedNumberEnds(t);
    }
  }

  /** A number has no whitespace at either end. */
  lemma NumberEnds(t: string)
    requires IsNumber(t)
    ensures |t| > 0 && !IsNumericSpace(t[0]) && !IsNumericSpace(t[|t| - 1])
  {
    NumberIsSignedUnsigned(t);
    var u := Unsigned(t);
    UnsignedNumberEnds(u);
    assert u[|u| - 1] == t[|t| - 1];
  }

  // ---------------------------------------------------------------- whitespace

  /** s[a..b] has no whitespace at either end, and only whitespace lies
      around it. */
  predicate Framed(s: string, a: int, b: int)
  {
    && 0 <= a < b <= |s|
    && !IsNumericSpace(s[a]) && !IsNumericSpace(s[b - 1])
    && AllNumericSpace(s[..a]) && AllNumericSpace(s[b..])
  }

  lemma FramedFront(s: string, a: int, b: int)
    requires Framed(s, a, b) && IsNumericSpace(s[0])
    ensures a > 0 && Framed(s[1..], a - 1, b - 1) && s[1..][a - 1..b - 1] == s[a..b]
  {
    assert a > 0;
    assert s[1..][..a - 1] == s[1..a];
    assert s[1..][b - 1..] == s[b..];
  }

  lemma FramedBack(s: string, a: int, b: int)
    requires Framed(s, a, b) && IsNumericSpace(s[|s| - 1])
    ensures b < |s| && Framed(s[..|s| - 1], a, b) && s[..|s| - 1][a..b] == s[a..b]
  {
    assert b < |s|;
    var t := s[..|s| - 1];
    assert t[..a] == s[..a];
    assert t[b..] == s[b..|s| - 1];
  }

  lemma FramedWhole(s: string, a: int, b: int)
    requires Framed(s, a, b) && !IsNumericSpace(s[0]) && !IsNumericSpace(s[|s| - 1])
    ensures s[a..b] == s
  {
    assert a == 0;
    assert b == |s|;
  }

  /** Text with no whitespace at either end, surrounded only by whitespace,
      is what stripping leaves. */
  lemma {:induction false} StripFinds(s: string, a: int, b: int)
    requires Framed(s, a, b)
    ensures StripSpaces(s) == s[a..b]
    decreases |s|
  {
    if IsNumericSpace(s[0]) {
      FramedFront(s, a, b);
      StripFinds(s[1..], a - 1, b - 1);
    } else if IsNumericSpace(s[|s| - 1]) {
      FramedBack(s, a, b);
      StripFinds(s[..|s| - 1], a, b);
    } else {
      FramedWhole(s, a, b);
    }
  }

  lemma StrippedNumberIsNumeric(s: string)
    requires IsNumber(StripSpaces(s))
    ensures IsNumericString(s)
  {
    var t := StripSpaces(s);
    StripSpacesMiddle(s);
    var a :| Middle(s, t, a);
    var b := a + |t|;
    assert s[a..b] == t;
    assert 0 <= a <= b <= |s| && NumberBetween(s, a, b);
  }

  lemma NumericIsStrippedNumber(s: string)
    requires IsNumericString(s)
    ensures IsNumber(StripSpaces(s))
  {
    var a, b :| 0 <= a <= b <= |s| && NumberBetween(s, a, b);
    NumberFramed(s, a, b);
    StripFinds(s, a, b);
  }

  lemma NumberFramed(s: string, a: int, b: int)
    requires NumberBetween(s, a, b)
    ensures Framed(s, a, b)
  {
    var w := s[a..b];
    NumberEnds(w);
    assert w[0] == s[a] && w[|w| - 1] == s[b - 1];
  }

  /** A numeric string is a number once its whitespace is stripped. */
  lemma NumericStringStripped(s: string)
    ensures IsNumericString(s) <==> IsNumber(StripSpaces(s))
  {
    if IsNumber(StripSpaces(s)) {
      StrippedNumberIsNumeric(s);
    }
    if IsNumericString(s) {
      NumericIsStrippedNumber(s);
    }
  }

  // ---------------------------------------------------------------- the reader

  /** ParseNumeric reads exactly the numeric strings. */
  lemma ParseNumericIff(s: string)
    ensures ParseNumeric(s).Some? <==> IsNumericString(s)
  {
    var t := StripSpaces(s);
    ParseNumericUnfold(s);
    NumericStringStripped(s);
    NumberIsSignedUnsigned(t);
    if ReadsUnsigned(Unsigned(t)) {
      ReadsUnsignedSound(Unsigned(t));
    }
    if IsUnsignedNumber(Unsigned(t)) {
      ReadsUnsignedComplete(Unsigned(t));
    }
  }

  /** PHP 8's string `==` in the terms of the grammar: two numeric strings
      are compared by value, any other pair byte for byte. */
  lemma LooseEqualsNumericStrings(a: string, b: string)
    ensures IsNumericString(a) && IsNumericString(b) ==>
              && ParseNumeric(a).Some? && ParseNumeric(b).Some?
              && (LooseEquals(a, b) <==> SameValue(ParseNumeric(a).value, ParseNumeric(b).value))
    ensures !(IsNumericString(a) && IsNumericString(b)) ==> (LooseEquals(a, b) <==> a == b)
  {
    ParseNumericIff(a);
    ParseNumericIff(b);
  }

  // ---------------------------------------------------------------- the value

  /** The position of the first point in m, or |m| when there is none. */
  function PointIndex(m: string): (k: nat)
    ensures k <= |m|
    ensures k < |m| ==> m[k] == '.'
    ensures forall i :: 0 <= i < k ==> m[i] != '.'
  {
    if |m| == 0 || m[0] == '.' then 0 else 1 + PointIndex(m[1..])
  }

  /** The digits of a mantissa with its point taken out. */
  function MantissaDigits(m: string): string
  {
    var k := PointIndex(m);
    if k == |m| then m else m[..k] + m[k + 1..]
  }

  /** How many digits of a mantissa follow its point. */
  function MantissaFracLen(m: string): nat
  {
    var k := PointIndex(m);
    if k == |m| then 0 else |m| - k - 1
  }

  /** The value of an exponent part: its digits, negated after a minus
      sign; 0 when there is no exponent part. */
  function ExponentValue(e: string): int
    requires e == "" || IsExponentPart(e)
  {
    if e == "" then 0
    else
      var x := Unsigned(e[1..]);
      if e[1] == '-' then 0 - DecimalValue(x) as int else DecimalValue(x) as int
  }

  /** A run of digits has no point. */
  lemma PointIndexDigits(m: string)
    requires AllDigits(m)
    ensures PointIndex(m) == |m|
  {
  }

  /** A point after a run of digits is the first point. */
  lemma PointIndexAt(m: string, k: int)
    requires 0 <= k < |m| && m[k] == '.' && AllDigits(m[..k])
    ensures PointIndex(m) == k
  {
    assert forall i :: 0 <= i < k ==> m[..k][i] == m[i];
  }

  /** The mantissa reader gives a mantissa's digits and fraction length. */
  lemma MantissaValueRead(m: string, tail: string)
    requires IsMantissaText(m)
    requires |tail| > 0 ==> tail[0] == 'e' || tail[0] == 'E'
    ensures ParseMantissa(m + tail) == Some((MantissaDigits(m), MantissaFracLen(m), tail))
  {
    if IsLnum(m) {
      PointIndexDigits(m);
      LnumRead(m, tail);
    } else {
      var k :| 0 <= k < |m| && m[k] == '.' && AllDigits(m[..k]) && AllDigits(m[k + 1..]) && |m| > 1;
      DnumValueRead(m, k, tail);
    }
  }

  /** A mantissa with its point at k gives its digits and fraction length. */
  lemma DnumValueRead(m: string, k: int, tail: string)
    requires 0 <= k < |m| && m[k] == '.' && AllDigits(m[..k]) && AllDigits(m[k + 1..]) && |m| > 1
    requires |tail| > 0 ==> tail[0] == 'e' || tail[0] == 'E'
    ensures ParseMantissa(m + tail) == Some((MantissaDigits(m), MantissaFracLen(m), tail))
  {
    PointIndexAt(m, k);
    assert m == m[..k] + "." + m[k + 1..];
    MantissaRoundTrip(m[..k], m[k + 1..], tail);
  }

  /** The exponent reader gives an exponent part's value. */
  lemma ExponentValueRead(e: string)
    requires IsExponentPart(e)
    ensures ParseExponent(e[1..]) == Some(ExponentValue(e))
  {
    assert e[1..][0] == e[1];
  }

  /** Sign, mantissa and exponent part together carry no whitespace at
      either end. */
  lemma NumberTextEnds(sg: string, m: string, e: string)
    requires sg == "" || sg == "+" || sg == "-"
    requires IsMantissaText(m)
    requires e == "" || IsExponentPart(e)
    ensures var t := sg + m + e;
            |t| > 0 && !IsNumericSpace(t[0]) && !IsNumericSpace(t[|t| - 1])
  {
    var t := sg + m + e;
    MantissaStart(m);
    MantissaEnd(m);
    if sg == "" {
      assert t[0] == m[0];
    }
    if e == "" {
      assert t[|t| - 1] == m[|m| - 1];
    } else {
      var x := Unsigned(e[1..]);
      assert x[|x| - 1] == e[|e| - 1] == t[|t| - 1];
    }
  }

  /** Text with no whitespace at either end is what stripping leaves of it
      with whitespace around. */
  lemma StripAround(s: string, w1: string, t: string, w2: string)
    requires s == w1 + t + w2
    requires AllNumericSpace(w1) && AllNumericSpace(w2)
    requires |t| > 0 && !IsNumericSpace(t[0]) && !IsNumericSpace(t[|t| - 1])
    ensures StripSpaces(s) == t
  {
    var a := |w1|;
    var b := |w1| + |t|;
    assert s[..a] == w1 && s[a..b] == t && s[b..] == w2;
    assert s[a] == t[0] && s[b - 1] == t[|t| - 1];
    StripFinds(s, a, b);
  }

  /** ParseNumeric assembles its reading from the sign, the mantissa
      reader's result and the exponent reader's result. */
  lemma ParseNumericAssembles(s: string, t: string, negative: bool, digits: string, fracLen: nat, tail: string, e: int)
    requires StripSpaces(s) == t
    requires negative <==> |t| > 0 && t[0] == '-'
    requires ParseMantissa(Unsigned(t)) == Some((digits, fracLen, tail))
    requires tail == "" ==> e == 0
    requires tail != "" ==> (tail[0] == 'e' || tail[0] == 'E') && ParseExponent(tail[1..]) == Some(e)
    ensures ParseNumeric(s) == Some(Decimal(negative, digits, fracLen, e))
  {
    var signed := |t| > 0 && (t[0] == '+' || t[0] == '-');
    assert (if signed then t[1..] else t) == Unsigned(t);
  }

  /** After its optional sign, a number is its mantissa and exponent part. */
  lemma SignSplits(sg: string, m: string, e: string)
    requires sg == "" || sg == "+" || sg == "-"
    requires IsMantissaText(m)
    ensures var t := sg + m + e;
            && Unsigned(t) == m + e
            && (sg == "-" <==> |t| > 0 && t[0] == '-')
  {
    MantissaStart(m);
    var t := sg + m + e;
    if sg == "" {
      assert t == m + e;
    } else {
      assert t[0] == sg[0] && t[1..] == m + e;
    }
  }

  /** The value ParseNumeric reads from any numeric string: whitespace, a
      sign, a mantissa, an exponent part and whitespace give the sign, the
      mantissa's digits and fraction length, and the exponent's value. */
  lemma ParseNumericValue(s: string, w1: string, sg: string, m: string, e: string, w2: string)
    requires s == w1 + sg + m + e + w2
    requires AllNumericSpace(w1) && AllNumericSpace(w2)
    requires sg == "" || sg == "+" || sg == "-"
    requires IsMantissaText(m)
    requires e == "" || IsExponentPart(e)
    ensures ParseNumeric(s) == Some(Decimal(sg == "-", MantissaDigits(m), MantissaFracLen(m), ExponentValue(e)))
  {
    var t := sg + m + e;
    NumberTextEnds(sg, m, e);
    assert s == w1 + t + w2;
    StripAround(s, w1, t, w2);
    ParseStrippedValue(s, sg, m, e);
  }

  /** The value read from s when stripping s leaves a sign, a mantissa and
      an exponent part. */
  lemma ParseStrippedValue(s: string, sg: string, m: string, e: string)
    requires StripSpaces(s) == sg + m + e
    requires sg == "" || sg == "+" || sg == "-"
    requires IsMantissaText(m)
    requires e == "" || IsExponentPart(e)
    ensures ParseNumeric(s) == Some(Decimal(sg == "-", MantissaDigits(m), MantissaFracLen(m), ExponentValue(e)))
  {
    SignSplits(sg, m, e);
    MantissaValueRead(m, e);
    if e != "" {
      ExponentValueRead(e);
    }
    ParseNumericAssembles(s, sg + m + e, sg == "-", MantissaDigits(m), MantissaFracLen(m), e, ExponentValue(e));
  }

  /** A run of digits reads as itself with no fraction and no exponent. */
  lemma ParseLnum(d: string)
    requires IsLnum(d)
    ensures ParseNumeric(d) == Some(Decimal(false, d, 0, 0))
  {
    PointIndexDigits(d);
    assert d == "" + "" + d + "" + "";
    ParseNumericValue(d, "", "", d, "", "");
  }

  /** Digits, a point and digits, after whitespace, read as all the digits
      with those after the point as the fraction. */
  lemma ParseDotted(w: string, a: string, b: string)
    requires AllNumericSpace(w) && IsLnum(a) && AllDigits(b)
    ensures ParseNumeric(w + a + "." + b) == Some(Decimal(false, a + b, |b|, 0))
  {
    var m := a + "." + b;
    DottedMantissa(a, b);
    assert w + a + "." + b == w + "" + m + "" + "";
    ParseNumericValue(w + a + "." + b, w, "", m, "", "");
  }

  /** Digits, a point and digits form a mantissa whose digits are the two
      runs together. */
  lemma DottedMantissa(a: string, b: string)
    requires IsLnum(a) && AllDigits(b)
    ensures var m := a + "." + b;
            IsMantissaText(m) && MantissaDigits(m) == a + b && MantissaFracLen(m) == |b|
  {
    var m := a + "." + b;
    assert m[..|a|] == a && m[|a| + 1..] == b && m[|a|] == '.';
    assert IsDnum(m);
    PointIndexAt(m, |a|);
  }
}

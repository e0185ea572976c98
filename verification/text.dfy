/** The PHP string built-ins the message relies on: strtolower, trim with an
    explicit character list, implode, and the decimal rendering of an
    integer by a string cast. A PHP string is a byte string; here each
    character of a Dafny string stands for one byte. */
module Text {

  /** strtolower as of PHP 8.2: only the ASCII letters A-Z change. */
  function LowerChar(c: char): char
  {
    if 'A' <= c <= 'Z' then (c as int + 32) as char else c
  }

  function Lower(s: string): (r: string)
    ensures |r| == |s|
    ensures forall i :: 0 <= i < |s| ==> r[i] == LowerChar(s[i])
  {
    if |s| == 0 then "" else [LowerChar(s[0])] + Lower(s[1..])
  }

  lemma LowerIdempotent(s: string)
    ensures Lower(Lower(s)) == Lower(s)
  {
  }

  // ---------------------------------------------------------------- trim

  /** The characters stripped by trim($value, " \t"). */
  predicate IsBlank(c: char)
  {
    c == ' ' || c == '\t'
  }

  predicate AllBlank(s: string)
  {
    forall i :: 0 <= i < |s| ==> IsBlank(s[i])
  }

  /** Neither the first nor the last character is a blank. */
  predicate Unpadded(s: string)
  {
    |s| == 0 || (!IsBlank(s[0]) && !IsBlank(s[|s| - 1]))
  }

  /** The length of the longest all-blank prefix of s. */
  function LeadingBlanks(s: string): (n: nat)
    ensures n <= |s|
    ensures forall i :: 0 <= i < n ==> IsBlank(s[i])
    ensures n < |s| ==> !IsBlank(s[n])
  {
    if |s| == 0 || !IsBlank(s[0]) then 0 else 1 + LeadingBlanks(s[1..])
  }

  /** The length of the longest all-blank suffix of s. */
  function TrailingBlanks(s: string): (n: nat)
    ensures n <= |s|
    ensures forall i :: |s| - n <= i < |s| ==> IsBlank(s[i])
    ensures n < |s| ==> !IsBlank(s[|s| - 1 - n])
  {
    if |s| == 0 || !IsBlank(s[|s| - 1]) then 0 else 1 + TrailingBlanks(s[..|s| - 1])
  }

  /** trim($s, " \t"): s is the result surrounded by runs of blanks, and the
      result itself neither starts nor ends with a blank. */
  function Trim(s: string): (r: string)
    ensures Unpadded(r)
    ensures exists a :: 0 <= a <= |s| - |r| && r == s[a..a + |r|]
                         && AllBlank(s[..a]) && AllBlank(s[a + |r|..])
  {
    var a := LeadingBlanks(s);
    if a == |s| then
      assert AllBlank(s[..0]) && AllBlank(s[0..]);
      ""
    else
      var b := |s| - TrailingBlanks(s);
      assert a < b;
      assert AllBlank(s[..a]) && AllBlank(s[b..]);
      s[a..b]
  }

  /** Trimming only removes characters, so it keeps any per-character property. */
  lemma TrimKeeps(s: string, p: char -> bool)
    requires forall i :: 0 <= i < |s| ==> p(s[i])
    ensures forall i :: 0 <= i < |Trim(s)| ==> p(Trim(s)[i])
  {
    var a :| 0 <= a <= |s| - |Trim(s)| && Trim(s) == s[a..a + |Trim(s)|]
             && AllBlank(s[..a]) && AllBlank(s[a + |Trim(s)|..]);
    var r := Trim(s);
    assert forall i :: 0 <= i < |r| ==> r[i] == s[a + i];
  }

  /** Trimming a string that has no blank at either end changes nothing. */
  lemma TrimUnpadded(s: string)
    requires Unpadded(s)
    ensures Trim(s) == s
  {
  }

  // ---------------------------------------------------------------- implode

  /** The total length of the strings in xs. */
  function TotalLength(xs: seq<string>): nat
  {
    if |xs| == 0 then 0 else |xs[0]| + TotalLength(xs[1..])
  }

  /** implode(sep, xs): the elements in order, separated by sep. The result
      starts with the first element, ends with the last, and adds one
      separator between each two neighbours. */
  function Join(xs: seq<string>, sep: string): (r: string)
    ensures |xs| > 0 ==> xs[0] <= r
    ensures |xs| > 0 ==> |xs[|xs| - 1]| <= |r| && r[|r| - |xs[|xs| - 1]|..] == xs[|xs| - 1]
    ensures |xs| > 0 ==> |r| == TotalLength(xs) + (|xs| - 1) * |sep|
    ensures |xs| == 0 ==> r == ""
  {
    if |xs| == 0 then ""
    else if |xs| == 1 then xs[0]
    else xs[0] + sep + Join(xs[1..], sep)
  }

  /** Joining a concatenation joins the two halves with one separator. */
  lemma {:induction false} JoinConcat(xs: seq<string>, ys: seq<string>, sep: string)
    requires |xs| > 0 && |ys| > 0
    ensures Join(xs + ys, sep) == Join(xs, sep) + sep + Join(ys, sep)
  {
    if |xs| == 1 {
      assert (xs + ys)[1..] == ys;
    } else {
      assert (xs + ys)[1..] == xs[1..] + ys;
      JoinConcat(xs[1..], ys, sep);
    }
  }

  /** Every character of a join comes from an element or from a separator. */
  lemma {:induction false} JoinChars(xs: seq<string>, sep: string, p: char -> bool)
    requires forall i, k :: 0 <= i < |xs| && 0 <= k < |xs[i]| ==> p(xs[i][k])
    requires forall k :: 0 <= k < |sep| ==> p(sep[k])
    ensures forall k :: 0 <= k < |Join(xs, sep)| ==> p(Join(xs, sep)[k])
  {
    if |xs| > 1 {
      JoinChars(xs[1..], sep, p);
      var t := Join(xs[1..], sep);
      assert Join(xs, sep) == xs[0] + sep + t;
      forall k | 0 <= k < |Join(xs, sep)|
        ensures p(Join(xs, sep)[k])
      {
        if k < |xs[0]| {
        } else if k < |xs[0]| + |sep| {
          assert Join(xs, sep)[k] == sep[k - |xs[0]|];
        } else {
          assert Join(xs, sep)[k] == t[k - |xs[0]| - |sep|];
        }
      }
    }
  }

  // ---------------------------------------------------------------- (string) $int

  predicate IsDigit(c: char)
  {
    '0' <= c <= '9'
  }

  function DigitChar(d: nat): (c: char)
    requires d < 10
  {
    ('0' as int + d) as char
  }

  /** The decimal digits of n, most significant first, without leading zeros. */
  function NatToDecimal(n: nat): (r: string)
    ensures |r| > 0
    ensures forall i :: 0 <= i < |r| ==> IsDigit(r[i])
    ensures r[0] == '0' ==> n == 0 && |r| == 1
    decreases n
  {
    if n < 10 then [DigitChar(n)] else NatToDecimal(n / 10) + [DigitChar(n % 10)]
  }

  /** The number a string of decimal digits denotes. */
  function DecimalValue(s: string): nat
    requires forall i :: 0 <= i < |s| ==> IsDigit(s[i])
  {
    if |s| == 0 then 0
    else
      assert IsDigit(s[|s| - 1]);
      DecimalValue(s[..|s| - 1]) * 10 + (s[|s| - 1] as int - '0' as int)
  }

  lemma {:induction false} DecimalRoundTrip(n: nat)
    ensures DecimalValue(NatToDecimal(n)) == n
    decreases n
  {
    if n >= 10 {
      var r := NatToDecimal(n);
      assert r[..|r| - 1] == NatToDecimal(n / 10);
      DecimalRoundTrip(n / 10);
    }
  }

  /** (string) $i for a PHP integer: a minus sign exactly for a negative
      number, then at least one digit, with no leading zero except in "0". */
  function IntToDecimal(i: int): (r: string)
    ensures |r| > 0
    ensures forall k :: 0 <= k < |r| ==> IsDigit(r[k]) || (k == 0 && r[k] == '-')
    ensures r[0] == '-' <==> i < 0
    ensures r[0] == '-' ==> |r| > 1
    ensures var d := if i < 0 then r[1..] else r; d[0] == '0' ==> |d| == 1
  {
    if i < 0 then "-" + NatToDecimal(-i) else NatToDecimal(i)
  }

  /** Reads back what IntToDecimal writes. */
  function DecimalToInt(s: string): int
    requires forall k :: 0 <= k < |s| ==> IsDigit(s[k]) || (k == 0 && s[k] == '-')
  {
    if |s| > 0 && s[0] == '-' then 0 - DecimalValue(s[1..]) as int else DecimalValue(s) as int
  }

  /** Distinct integers render as distinct strings. */
  lemma IntToDecimalRoundTrip(i: int)
    ensures DecimalToInt(IntToDecimal(i)) == i
  {
    if i < 0 {
      assert IntToDecimal(i)[1..] == NatToDecimal(-i);
      DecimalRoundTrip(-i);
    } else {
      DecimalRoundTrip(i);
    }
  }
}

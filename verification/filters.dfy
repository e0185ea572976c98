/** The three input filters of the message: the header-name pattern, the
    header-value coercion and check, and the protocol-version whitelist.
    Each returns the filtered input or the error the message raises. */
module Filters {
  import opened Results
  import opened Text

  // ---------------------------------------------------------------- names

  /** The token characters of section 3.2.6 of RFC 7230. */
  predicate IsTChar(c: char)
  {
    || ('0' <= c <= '9')
    || ('A' <= c <= 'Z')
    || ('a' <= c <= 'z')
    || c in "!#$%&'*+-.^_`|~"
  }

  predicate IsToken(s: string)
  {
    |s| > 0 && forall i :: 0 <= i < |s| ==> IsTChar(s[i])
  }

  /** The names the header-name pattern accepts: a token, or a token followed
      by one final line feed, since the pattern's `$` anchor (no D modifier)
      also matches just before a line feed that ends the subject. */
  predicate IsHeaderName(s: string)
  {
    IsToken(s) || (|s| > 1 && s[|s| - 1] == '\n' && IsToken(s[..|s| - 1]))
  }

  /** A key of the header table: an accepted name already in lower case. */
  predicate IsHeaderKey(k: string)
  {
    IsHeaderName(k) && Lower(k) == k
  }

  /** The length of the longest run of token characters at the start of s. */
  function TokenRun(s: string): (n: nat)
    ensures n <= |s|
    ensures forall i :: 0 <= i < n ==> IsTChar(s[i])
    ensures n < |s| ==> !IsTChar(s[n])
  {
    if |s| == 0 || !IsTChar(s[0]) then 0 else 1 + TokenRun(s[1..])
  }

  /** The anchored match itself: `^`, a greedy run of one or more token
      characters, then `$` at the end or before a final line feed. Giving
      back characters of the run cannot help, as a token character never
      satisfies `$`. */
  predicate MatchesNamePattern(s: string)
  {
    var n := TokenRun(s);
    n > 0 && (n == |s| || (n == |s| - 1 && s[n] == '\n'))
  }

  lemma NamePatternMatchesHeaderNames(s: string)
    ensures MatchesNamePattern(s) <==> IsHeaderName(s)
  {
    var n := TokenRun(s);
    if IsToken(s) {
      assert n == |s|;
    } else if |s| > 1 && s[|s| - 1] == '\n' && IsToken(s[..|s| - 1]) {
      assert !IsTChar('\n');
      assert n == |s| - 1;
    }
  }

  /** Case mapping neither creates nor destroys token characters or line feeds. */
  lemma LowerKeepsHeaderName(s: string)
    ensures IsHeaderName(Lower(s)) <==> IsHeaderName(s)
    ensures IsHeaderKey(Lower(s)) <==> IsHeaderName(s)
  {
    LowerIdempotent(s);
    assert forall i :: 0 <= i < |s| ==> (IsTChar(Lower(s)[i]) <==> IsTChar(s[i]));
    if |s| > 1 {
      assert Lower(s)[..|s| - 1] == Lower(s[..|s| - 1]);
    }
  }

  /** filterHeaderName: an accepted name becomes its lower-cased key;
      anything else raises InvalidHeaderName with the name as given. */
  function FilterHeaderName(name: string): (r: Result<string>)
    ensures r.Ok? <==> IsHeaderName(name)
    ensures r.Ok? ==> IsHeaderKey(r.value) && r.value == Lower(name)
    ensures r.Err? ==> r.error == InvalidHeaderName(name)
  {
    NamePatternMatchesHeaderNames(name);
    LowerKeepsHeaderName(name);
    if MatchesNamePattern(name) then Ok(Lower(name)) else Err(InvalidHeaderName(name))
  }

  // ---------------------------------------------------------------- values

  /** One element of a header value as PHP sees it: a string, an integer,
      or a value of any other type, named as gettype() names it. */
  datatype Element = Str(s: string) | Int(i: int) | OtherType(typeName: string)

  /** A header value as passed in: one non-null value, a list of elements,
      or null. */
  datatype HeaderValue = Single(element: Element) | List(elements: seq<Element>) | Null

  /** The `(array)` cast applied before filtering: a list is kept, null
      becomes the empty array and any other value a one-element array. */
  function ToArray(v: HeaderValue): (r: seq<Element>)
    ensures |r| == 0 <==> v.Null? || v == List([])
    ensures v.List? ==> r == v.elements
    ensures v.Single? ==> r == [v.element]
  {
    match v
    case Single(e) => [e]
    case List(es) => es
    case Null => []
  }

  /** The characters a header value may contain: tab and 0x20 to 0x7E. */
  predicate IsFieldChar(c: char)
  {
    c == '\t' || (' ' <= c <= '~')
  }

  predicate IsFieldText(s: string)
  {
    forall i :: 0 <= i < |s| ==> IsFieldChar(s[i])
  }

  /** What the message stores for one value: legal characters only, and no
      blank at either end. */
  predicate IsFieldValue(s: string)
  {
    IsFieldText(s) && Unpadded(s)
  }

  /** Joining legal values with ", " gives legal text. */
  lemma JoinFieldText(xs: seq<string>)
    ensures (forall i :: 0 <= i < |xs| ==> IsFieldText(xs[i])) ==> IsFieldText(Join(xs, ", "))
  {
    if forall i :: 0 <= i < |xs| ==> IsFieldText(xs[i]) {
      JoinChars(xs, ", ", IsFieldChar);
    }
  }

  /** The string form of an element that is a string or a number. */
  function ElementText(e: Element): string
    requires !e.OtherType?
  {
    match e
    case Str(s) => s
    case Int(i) => IntToDecimal(i)
  }

  /** The per-element step of filterHeaderValue. */
  function FilterElement(e: Element): (r: Result<string>)
    ensures r.Ok? <==> !e.OtherType? && IsFieldText(ElementText(e))
    ensures e.OtherType? ==> r == Err(InvalidHeaderValueType(e.typeName))
    ensures !e.OtherType? && r.Err? ==> r.error == InvalidHeaderValue(ElementText(e))
    ensures r.Ok? ==> IsFieldValue(r.value) && r.value == Trim(ElementText(e))
  {
    if e.OtherType? then Err(InvalidHeaderValueType(e.typeName))
    else
      var text := ElementText(e);
      if !IsFieldText(text) then Err(InvalidHeaderValue(text))
      else
        TrimKeeps(text, IsFieldChar);
        Ok(Trim(text))
  }

  /** The elements filtered in order; the first element that fails decides
      the error, as the mapping stops at the first exception. */
  function FilterElements(es: seq<Element>): (r: Result<seq<string>>)
    ensures r.Ok? <==> forall i :: 0 <= i < |es| ==> FilterElement(es[i]).Ok?
    ensures r.Ok? ==> |r.value| == |es|
    ensures r.Ok? ==> forall i :: 0 <= i < |es| ==> r.value[i] == FilterElement(es[i]).value
    ensures r.Err? ==> r.error.InvalidHeaderValue? || r.error.InvalidHeaderValueType?
  {
    if |es| == 0 then Ok([])
    else
      var head :- FilterElement(es[0]);
      var tail :- FilterElements(es[1..]);
      Ok([head] + tail)
  }

  /** When filtering fails, the error is that of the first failing element. */
  lemma {:induction false} FilterElementsFirstError(es: seq<Element>)
    requires FilterElements(es).Err?
    ensures exists i :: 0 <= i < |es| && FilterElement(es[i]) == Err(FilterElements(es).error)
                        && forall j :: 0 <= j < i ==> FilterElement(es[j]).Ok?
  {
    if FilterElement(es[0]).Ok? {
      FilterElementsFirstError(es[1..]);
      var i :| 0 <= i < |es| - 1 && FilterElement(es[1..][i]) == Err(FilterElements(es[1..]).error)
               && forall j :: 0 <= j < i ==> FilterElement(es[1..][j]).Ok?;
      assert FilterElement(es[i + 1]) == Err(FilterElements(es).error);
      forall j | 0 <= j < i + 1
        ensures FilterElement(es[j]).Ok?
      {
        if j > 0 {
          assert es[j] == es[1..][j - 1];
        }
      }
    } else {
      assert FilterElement(es[0]) == Err(FilterElements(es).error);
    }
  }

  /** filterHeaderValue: cast to an array, refuse the empty array, then
      filter every element in order. */
  function FilterHeaderValue(v: HeaderValue): (r: Result<seq<string>>)
    ensures r == Err(EmptyHeaderValue) <==> |ToArray(v)| == 0
    ensures r.Ok? <==> |ToArray(v)| > 0 && forall i :: 0 <= i < |ToArray(v)| ==> FilterElement(ToArray(v)[i]).Ok?
    ensures r.Ok? ==> |r.value| == |ToArray(v)| > 0
    ensures r.Ok? ==> forall i :: 0 <= i < |r.value| ==> IsFieldValue(r.value[i])
    ensures r.Ok? ==> forall i :: 0 <= i < |r.value| ==> r.value[i] == FilterElement(ToArray(v)[i]).value
  {
    var es := ToArray(v);
    if |es| == 0 then Err(EmptyHeaderValue) else FilterElements(es)
  }

  // ---------------------------------------------------------------- version

  const ValidProtocols: seq<string> := ["1.0", "1.1", "2.0"]

  /** filterProtocolVersion: the version is returned unchanged when it is
      one of the three known versions and refused otherwise. */
  function FilterProtocolVersion(version: string): (r: Result<string>)
    ensures r.Ok? <==> version == "1.0" || version == "1.1" || version == "2.0"
    ensures r.Ok? ==> r.value == version
    ensures r.Err? ==> r.error == InvalidProtocolVersion(version)
  {
    if version in ValidProtocols then Ok(version) else Err(InvalidProtocolVersion(version))
  }
}

/** Properties that relate several message operations: the table invariant
    kept by every operation, what the constructor stores, and the interplay
    of withHeader, withAddedHeader and withoutHeader. */
module MessageLaws {
  import opened Results
  import opened Text
  import opened Filters
  import opened Messages

  // ---------------------------------------------------------------- filters

  /** A lone string is filtered into a one-element list: accepted exactly
      when its characters are legal, and then stored trimmed. */
  lemma SingleStringValue(s: string)
    ensures FilterHeaderValue(Single(Str(s))).Ok? <==> IsFieldText(s)
    ensures IsFieldText(s) ==> FilterHeaderValue(Single(Str(s))) == Ok([Trim(s)])
    ensures !IsFieldText(s) ==> FilterHeaderValue(Single(Str(s))) == Err(InvalidHeaderValue(s))
  {
    var r := FilterHeaderValue(Single(Str(s)));
    if IsFieldText(s) {
      assert r.value == [r.value[0]];
    } else {
      FilterElementsFirstError([Str(s)]);
    }
  }

  /** An integer is always accepted and stored as its decimal form. */
  lemma IntegerValue(i: int)
    ensures FilterHeaderValue(Single(Int(i))) == Ok([IntToDecimal(i)])
  {
    var d := IntToDecimal(i);
    assert IsFieldText(d);
    assert Unpadded(d);
    TrimUnpadded(d);
    var r := FilterHeaderValue(Single(Int(i)));
    assert r.value == [r.value[0]];
  }

  /** A filtered value list fails on its first bad element. */
  lemma FilterHeaderValueFirstError(v: HeaderValue)
    requires FilterHeaderValue(v).Err? && |ToArray(v)| > 0
    ensures exists i :: 0 <= i < |ToArray(v)| && FilterElement(ToArray(v)[i]) == Err(FilterHeaderValue(v).error)
                        && forall j :: 0 <= j < i ==> FilterElement(ToArray(v)[j]).Ok?
  {
    FilterElementsFirstError(ToArray(v));
  }

  /** The values a valid message stores pass the filter unchanged. */
  lemma {:induction false} StoredValuesRefilter(xs: seq<string>)
    requires |xs| > 0
    requires forall j :: 0 <= j < |xs| ==> IsFieldValue(xs[j])
    ensures FilterHeaderValue(List(AsElements(xs))) == Ok(xs)
  {
    var es := AsElements(xs);
    forall j | 0 <= j < |xs|
      ensures FilterElement(es[j]) == Ok(xs[j])
    {
      TrimUnpadded(xs[j]);
    }
    assert FilterHeaderValue(List(es)).value == xs;
  }

  /** The stored strings written back as a list of string elements. */
  function AsElements(xs: seq<string>): seq<Element>
  {
    seq(|xs|, j requires 0 <= j < |xs| => Str(xs[j]))
  }

  // ---------------------------------------------------------------- invariant

  /** withAddedHeader keeps the table invariant. */
  lemma WithAddedHeaderKeepsValid<B>(m: Message<B>, name: string, value: HeaderValue)
    requires Valid(m) && WithAddedHeader(m, name, value).Ok?
    ensures Valid(WithAddedHeader(m, name, value).value)
  {
    var key := Lower(name);
    if key in m.headers {
      var r := WithAddedHeader(m, name, value).value;
      var values := FilterHeaderValue(value).value;
      assert r.headers[key] == m.headers[key] + values;
      forall k, j | k in r.headers && 0 <= j < |r.headers[k]|
        ensures IsFieldValue(r.headers[k][j])
      {
        if k == key && j >= |m.headers[key]| {
          assert r.headers[k][j] == values[j - |m.headers[key]|];
        }
      }
    }
  }

  /** A name whose key is stored is an accepted name, so withAddedHeader,
      which only checks names it has not seen, accepts exactly what
      withHeader accepts; a refused name is reported in lower case. */
  lemma WithAddedHeaderAcceptance<B>(m: Message<B>, name: string, value: HeaderValue)
    requires Valid(m)
    ensures WithAddedHeader(m, name, value).Ok? <==> IsHeaderName(name) && FilterHeaderValue(value).Ok?
    ensures !IsHeaderName(name) ==> WithAddedHeader(m, name, value) == Err(InvalidHeaderName(Lower(name)))
  {
    LowerKeepsHeaderName(name);
    if HasHeader(m, name) {
      var key := Lower(name);
      ValidKeys(m, key);
    }
  }

  // ---------------------------------------------------------------- construction

  /** Pair i is the last pair whose name has the same key. */
  predicate IsLastFor(hs: seq<(string, HeaderValue)>, i: int)
    requires 0 <= i < |hs|
  {
    forall j :: i < j < |hs| ==> Lower(hs[j].0) != Lower(hs[i].0)
  }

  /** The last pair of a successful header loop was accepted by withHeader. */
  lemma WithHeadersLastAccepted<B>(m: Message<B>, hs: seq<(string, HeaderValue)>)
    requires WithHeaders(m, hs).Ok? && |hs| > 0
    ensures IsHeaderName(hs[|hs| - 1].0) && FilterHeaderValue(hs[|hs| - 1].1).Ok?
  {
    var n := |hs| - 1;
    assert WithHeader(WithHeaders(m, hs[..n]).value, hs[n].0, hs[n].1).Ok?;
  }

  /** The constructor's header loop succeeds only if every pair has an
      accepted name and an accepted value. */
  lemma {:induction false} WithHeadersAccepted<B>(m: Message<B>, hs: seq<(string, HeaderValue)>, i: nat)
    requires WithHeaders(m, hs).Ok? && i < |hs|
    ensures IsHeaderName(hs[i].0) && FilterHeaderValue(hs[i].1).Ok?
    decreases |hs|
  {
    var n := |hs| - 1;
    if i < n {
      var p := hs[..n];
      WithHeadersAccepted(m, p, i);
      assert p[i] == hs[i];
    } else {
      assert i == n;
      WithHeadersLastAccepted(m, hs);
    }
  }

  /** One more pair: a successful loop over hs is withHeader applied to
      the successful loop over all but the last pair. */
  lemma WithHeadersStep<B>(m: Message<B>, hs: seq<(string, HeaderValue)>)
    requires WithHeaders(m, hs).Ok? && |hs| > 0
    ensures WithHeaders(m, hs[..|hs| - 1]).Ok?
    ensures WithHeaders(m, hs)
            == WithHeader(WithHeaders(m, hs[..|hs| - 1]).value, hs[|hs| - 1].0, hs[|hs| - 1].1)
  {
  }

  /** withHeader as seen through any casing of its own name. */
  lemma WithHeaderSets<B>(m: Message<B>, name: string, value: HeaderValue, other: string)
    requires WithHeader(m, name, value).Ok? && Lower(other) == Lower(name)
    ensures GetHeader(WithHeader(m, name, value).value, other) == FilterHeaderValue(value).value
    ensures Lower(other) in WithHeader(m, name, value).value.names
    ensures WithHeader(m, name, value).value.names[Lower(other)] == name
  {
  }

  /** withHeader as seen through a name with another key. */
  lemma WithHeaderKeeps<B>(m: Message<B>, name: string, value: HeaderValue, other: string)
    requires WithHeader(m, name, value).Ok? && Lower(other) != Lower(name)
    ensures GetHeader(WithHeader(m, name, value).value, other) == GetHeader(m, other)
    ensures Lower(other) in m.names ==>
              (Lower(other) in WithHeader(m, name, value).value.names
               && WithHeader(m, name, value).value.names[Lower(other)] == m.names[Lower(other)])
  {
  }

  /** r holds what withHeader stores for the pair: its filtered values,
      found under any casing of its name, and the name as given. */
  predicate StoresPair<B>(r: Message<B>, pair: (string, HeaderValue))
  {
    && FilterHeaderValue(pair.1).Ok?
    && GetHeader(r, pair.0) == FilterHeaderValue(pair.1).value
    && Lower(pair.0) in r.names
    && r.names[Lower(pair.0)] == pair.0
  }

  /** The last pair of the loop decides its key's values and name. */
  lemma WithHeadersLastPairWins<B>(m: Message<B>, hs: seq<(string, HeaderValue)>)
    requires WithHeaders(m, hs).Ok? && |hs| > 0
    ensures StoresPair(WithHeaders(m, hs).value, hs[|hs| - 1])
  {
    var n := |hs| - 1;
    WithHeadersStep(m, hs);
    WithHeaderSets(WithHeaders(m, hs[..n]).value, hs[n].0, hs[n].1, hs[n].0);
  }

  /** A last pair with another key leaves what the loop stored before it. */
  lemma WithHeadersLaterPairKeeps<B>(m: Message<B>, hs: seq<(string, HeaderValue)>, pair: (string, HeaderValue))
    requires WithHeaders(m, hs).Ok? && |hs| > 0 && Lower(hs[|hs| - 1].0) != Lower(pair.0)
    requires WithHeaders(m, hs[..|hs| - 1]).Ok? && StoresPair(WithHeaders(m, hs[..|hs| - 1]).value, pair)
    ensures StoresPair(WithHeaders(m, hs).value, pair)
  {
    var n := |hs| - 1;
    WithHeadersStep(m, hs);
    WithHeaderKeeps(WithHeaders(m, hs[..n]).value, hs[n].0, hs[n].1, pair.0);
  }

  /** A last pair with another key leaves the lookup of a name as it was
      before that pair. */
  lemma WithHeadersLaterPairSkips<B>(m: Message<B>, hs: seq<(string, HeaderValue)>, other: string)
    requires WithHeaders(m, hs).Ok? && |hs| > 0 && Lower(hs[|hs| - 1].0) != Lower(other)
    ensures WithHeaders(m, hs[..|hs| - 1]).Ok?
    ensures GetHeader(WithHeaders(m, hs).value, other) == GetHeader(WithHeaders(m, hs[..|hs| - 1]).value, other)
  {
    var n := |hs| - 1;
    WithHeadersStep(m, hs);
    WithHeaderKeeps(WithHeaders(m, hs[..n]).value, hs[n].0, hs[n].1, other);
  }

  /** After the constructor's header loop, each key holds the values and
      the name of the last pair with that key. */
  lemma {:induction false} WithHeadersLastWins<B>(m: Message<B>, hs: seq<(string, HeaderValue)>, i: nat)
    requires WithHeaders(m, hs).Ok?
    requires i < |hs| && IsLastFor(hs, i)
    ensures StoresPair(WithHeaders(m, hs).value, hs[i])
    decreases |hs|, 1
  {
    if i < |hs| - 1 {
      WithHeadersLastWinsBefore(m, hs, i);
    } else {
      WithHeadersLastPairWins(m, hs);
    }
  }

  /** The same for a pair before the end: it is the last one for its key in
      the loop's prefix, and the final pair leaves it alone. */
  lemma {:induction false} WithHeadersLastWinsBefore<B>(m: Message<B>, hs: seq<(string, HeaderValue)>, i: nat)
    requires WithHeaders(m, hs).Ok?
    requires i < |hs| - 1 && IsLastFor(hs, i)
    ensures StoresPair(WithHeaders(m, hs).value, hs[i])
    decreases |hs|, 0
  {
    LastWinsPrefix(m, hs, i);
    WithHeadersLastWins(m, hs[..|hs| - 1], i);
    WithHeadersLaterPairKeeps(m, hs, hs[i]);
  }

  /** Before the end, the last pair for a key is the last one in the
      loop's prefix, which succeeded too. */
  lemma LastWinsPrefix<B>(m: Message<B>, hs: seq<(string, HeaderValue)>, i: nat)
    requires WithHeaders(m, hs).Ok? && i < |hs| - 1 && IsLastFor(hs, i)
    ensures WithHeaders(m, hs[..|hs| - 1]).Ok?
    ensures IsLastFor(hs[..|hs| - 1], i) && hs[..|hs| - 1][i] == hs[i]
    ensures Lower(hs[|hs| - 1].0) != Lower(hs[i].0)
  {
    WithHeadersStep(m, hs);
    IsLastForPrefix(hs, i);
  }

  /** The last pair for a key before the end stays the last one in the
      prefix, and the final pair has another key. */
  lemma IsLastForPrefix(hs: seq<(string, HeaderValue)>, i: nat)
    requires i < |hs| - 1 && IsLastFor(hs, i)
    ensures IsLastFor(hs[..|hs| - 1], i) && hs[..|hs| - 1][i] == hs[i]
    ensures Lower(hs[|hs| - 1].0) != Lower(hs[i].0)
  {
    var p := hs[..|hs| - 1];
    forall j | i < j < |p|
      ensures Lower(p[j].0) != Lower(p[i].0)
    {
      assert p[j] == hs[j];
    }
  }

  /** Every pair's name has a header after the constructor's header loop. */
  lemma {:induction false} WithHeadersHasNamed<B>(m: Message<B>, hs: seq<(string, HeaderValue)>, i: nat)
    requires WithHeaders(m, hs).Ok? && i < |hs|
    ensures HasHeader(WithHeaders(m, hs).value, hs[i].0)
    decreases |hs|
  {
    var n := |hs| - 1;
    var p := hs[..n];
    assert WithHeaders(m, hs) == WithHeader(WithHeaders(m, p).value, hs[n].0, hs[n].1);
    if i < n {
      WithHeadersHasNamed(m, p, i);
      assert p[i] == hs[i];
    } else {
      assert i == n;
    }
  }

  /** No pair of hs is for the key of other. */
  predicate NoPairFor(hs: seq<(string, HeaderValue)>, other: string)
  {
    forall i :: 0 <= i < |hs| ==> Lower(hs[i].0) != Lower(other)
  }

  /** What NoPairFor says of a list it says of all but its last pair, and of
      the last pair itself. */
  lemma NoPairForPrefix(hs: seq<(string, HeaderValue)>, other: string)
    requires NoPairFor(hs, other) && |hs| > 0
    ensures NoPairFor(hs[..|hs| - 1], other)
    ensures Lower(hs[|hs| - 1].0) != Lower(other)
  {
  }

  /** The constructor's header loop leaves every header that no pair names
      as it was. */
  lemma {:induction false} WithHeadersKeepsOthers<B>(m: Message<B>, hs: seq<(string, HeaderValue)>, other: string)
    requires WithHeaders(m, hs).Ok?
    requires NoPairFor(hs, other)
    ensures GetHeader(WithHeaders(m, hs).value, other) == GetHeader(m, other)
    decreases |hs|
  {
    if |hs| > 0 {
      NoPairForPrefix(hs, other);
      WithHeadersLaterPairSkips(m, hs, other);
      WithHeadersKeepsOthers(m, hs[..|hs| - 1], other);
    }
  }

  /** A message built with default options is empty, at version "1.1",
      with an empty string body. */
  lemma DefaultMessage<B>(fromString: string -> B)
    ensures NewMessage(Options(None, None, None), fromString) == Ok(Message("1.1", map[], map[], fromString("")))
  {
  }

  /** The constructor's tables are those its header loop builds from an
      empty message holding the body. */
  lemma NewMessageRunsLoop<B>(options: Options<B>, fromString: string -> B)
    requires NewMessage(options, fromString).Ok?
    ensures var body := OpenBody(options.body.GetOr(StringBody("")), fromString);
            && body.Ok?
            && var w := WithHeaders(Message("1.1", map[], map[], body.value), options.headers.GetOr([]));
            && w.Ok?
            && NewMessage(options, fromString).value.headers == w.value.headers
            && NewMessage(options, fromString).value.names == w.value.names
  {
  }

  /** What the constructor stores for a pair of the options: the values
      and the name of the last pair that has its key. */
  lemma NewMessageLastWins<B>(options: Options<B>, fromString: string -> B, i: nat)
    requires NewMessage(options, fromString).Ok?
    requires i < |options.headers.GetOr([])| && IsLastFor(options.headers.GetOr([]), i)
    ensures var pair := options.headers.GetOr([])[i];
            var r := NewMessage(options, fromString).value;
            && FilterHeaderValue(pair.1).Ok?
            && GetHeader(r, pair.0) == FilterHeaderValue(pair.1).value
            && Lower(pair.0) in r.names && r.names[Lower(pair.0)] == pair.0
  {
    NewMessageRunsLoop(options, fromString);
    var body := OpenBody(options.body.GetOr(StringBody("")), fromString).value;
    WithHeadersLastWins(Message("1.1", map[], map[], body), options.headers.GetOr([]), i);
  }

  /** The constructor stores the headers the options name and no others. */
  lemma NewMessageHasHeader<B>(options: Options<B>, fromString: string -> B, name: string)
    requires NewMessage(options, fromString).Ok?
    ensures var hs := options.headers.GetOr([]);
            HasHeader(NewMessage(options, fromString).value, name)
            <==> exists i :: 0 <= i < |hs| && Lower(hs[i].0) == Lower(name)
  {
    NewMessageRunsLoop(options, fromString);
    var hs := options.headers.GetOr([]);
    var body := OpenBody(options.body.GetOr(StringBody("")), fromString).value;
    var empty := Message("1.1", map[], map[], body);
    LoopHasHeader(empty, hs, name);
  }

  /** Run on a message without headers, the header loop leaves a header
      exactly for the names some pair gives, in any casing. */
  lemma LoopHasHeader<B>(m: Message<B>, hs: seq<(string, HeaderValue)>, name: string)
    requires Valid(m) && m.headers == map[] && WithHeaders(m, hs).Ok?
    ensures HasHeader(WithHeaders(m, hs).value, name)
            <==> exists i :: 0 <= i < |hs| && Lower(hs[i].0) == Lower(name)
  {
    if exists i :: 0 <= i < |hs| && Lower(hs[i].0) == Lower(name) {
      var i :| 0 <= i < |hs| && Lower(hs[i].0) == Lower(name);
      WithHeadersHasNamed(m, hs, i);
    } else {
      WithHeadersKeepsOthers(m, hs, name);
    }
  }

  // ---------------------------------------------------------------- with* together

  /** getHeaders after withHeader: the header is listed under the name just
      given, the casing it had before is gone, and every other header is
      listed as before. */
  lemma WithHeaderDisplayName<B>(m: Message<B>, name: string, value: HeaderValue)
    requires Valid(m) && WithHeader(m, name, value).Ok?
    ensures var before := GetHeaders(m);
            var after := GetHeaders(WithHeader(m, name, value).value);
            && name in after && after[name] == FilterHeaderValue(value).value
            && (forall d :: d in after && d != name ==> d in before && after[d] == before[d])
            && (forall d :: d in before && Lower(d) != Lower(name) ==> d in after && after[d] == before[d])
            && (forall d :: d in before && d != name ==> d !in after || Lower(d) != Lower(name))
  {
    var r := WithHeader(m, name, value).value;
    var before := GetHeaders(m);
    var after := GetHeaders(r);
    forall d | d in after && d != name
      ensures d in before && after[d] == before[d]
    {
      assert Lower(d) != Lower(name);
    }
  }

  /** After withHeader, the header's line is its filtered values joined by
      ", ", whatever casing the name is read back with. */
  lemma WithHeaderLine<B>(m: Message<B>, name: string, value: HeaderValue, other: string)
    requires WithHeader(m, name, value).Ok? && Lower(other) == Lower(name)
    ensures GetHeaderLine(WithHeader(m, name, value).value, other) == Join(FilterHeaderValue(value).value, ", ")
  {
    assert GetHeader(WithHeader(m, name, value).value, other) == FilterHeaderValue(value).value;
  }

  /** Setting two legal values under a legal name stores both, and the line
      shows them separated by ", ". */
  lemma PairLine<B>(m: Message<B>, name: string, a: string, b: string)
    requires IsHeaderName(name) && IsFieldValue(a) && IsFieldValue(b)
    ensures var r := WithHeader(m, name, List([Str(a), Str(b)]));
            && r.Ok?
            && GetHeader(r.value, name) == [a, b]
            && GetHeaderLine(r.value, name) == a + ", " + b
  {
    var xs := [a, b];
    StoredValuesRefilter(xs);
    assert AsElements(xs) == [Str(a), Str(b)];
    WithHeaderLine(m, name, List([Str(a), Str(b)]), name);
    assert xs[1..] == [b];
  }

  /** Appending to a header that withHeader just set gives the first list
      followed by the second, under the name given to withHeader. */
  lemma AppendAfterSet<B>(m: Message<B>, name: string, first: HeaderValue, second: HeaderValue)
    requires WithHeader(m, name, first).Ok?
    requires FilterHeaderValue(second).Ok?
    ensures var set1 := WithHeader(m, name, first).value;
            var r := WithAddedHeader(set1, name, second);
            && r.Ok?
            && GetHeader(r.value, name) == FilterHeaderValue(first).value + FilterHeaderValue(second).value
            && r.value.names[Lower(name)] == name
  {
  }

  /** Appending to a stored header extends its line by ", " and the joined
      new values. */
  lemma AppendExtendsLine<B>(m: Message<B>, name: string, value: HeaderValue)
    requires HasHeader(m, name) && |GetHeader(m, name)| > 0
    requires WithAddedHeader(m, name, value).Ok?
    ensures GetHeaderLine(WithAddedHeader(m, name, value).value, name)
            == GetHeaderLine(m, name) + ", " + Join(FilterHeaderValue(value).value, ", ")
  {
    JoinConcat(GetHeader(m, name), FilterHeaderValue(value).value, ", ");
  }

  /** Setting a header to the values and display name it already has
      gives back the same message. */
  lemma RewriteEntry<B>(m: Message<B>, key: string, display: string, xs: seq<string>)
    requires key in m.names && m.names[key] == display
    requires key in m.headers && m.headers[key] == xs
    requires IsHeaderName(display) && Lower(display) == key
    requires FilterHeaderValue(List(AsElements(xs))) == Ok(xs)
    ensures WithHeader(m, display, List(AsElements(xs))) == Ok(m)
  {
    assert m.names[key := display] == m.names;
    assert m.headers[key := xs] == m.headers;
  }

  /** Writing back the values a header already has, under its display name,
      gives back the same message. */
  lemma RewriteIsIdentity<B>(m: Message<B>, name: string)
    requires Valid(m) && HasHeader(m, name)
    ensures WithHeader(m, m.names[Lower(name)], List(AsElements(GetHeader(m, name)))) == Ok(m)
  {
    var key := Lower(name);
    var xs := m.headers[key];
    StoredValuesRefilter(xs);
    RewriteEntry(m, key, m.names[key], xs);
  }

  /** Removing a key just added to a map that lacked it gives the map back. */
  lemma RemoveAdded<K, V>(mm: map<K, V>, k: K, v: V)
    requires k !in mm
    ensures mm[k := v] - {k} == mm
  {
    assert forall j :: j in mm[k := v] - {k} <==> j in mm;
  }

  /** withoutHeader undoes withHeader on a key neither table has. */
  lemma WithoutUndoesEntry<B>(m: Message<B>, name: string, value: HeaderValue)
    requires Lower(name) !in m.names && Lower(name) !in m.headers
    requires WithHeader(m, name, value).Ok?
    ensures WithoutHeader(WithHeader(m, name, value).value, name) == m
  {
    var key := Lower(name);
    var values := FilterHeaderValue(value).value;
    assert FilterHeaderName(name) == Ok(key);
    var w := WithHeader(m, name, value).value;
    assert w == m.(names := m.names[key := name], headers := m.headers[key := values]);
    RemoveAdded(m.names, key, name);
    RemoveAdded(m.headers, key, values);
  }

  /** withoutHeader undoes withHeader on a header the message did not have. */
  lemma WithoutUndoesWithHeader<B>(m: Message<B>, name: string, value: HeaderValue)
    requires Valid(m) && !HasHeader(m, name) && WithHeader(m, name, value).Ok?
    ensures WithoutHeader(WithHeader(m, name, value).value, name) == m
  {
    assert Lower(name) !in m.names;
    WithoutUndoesEntry(m, name, value);
  }

  /** Removing a header that is not there changes nothing. */
  lemma WithoutAbsentHeader<B>(m: Message<B>, name: string)
    requires Valid(m) && !HasHeader(m, name)
    ensures WithoutHeader(m, name) == m
  {
    assert WithoutHeader(m, name).names == m.names;
    assert WithoutHeader(m, name).headers == m.headers;
  }

  /** Removing twice is removing once. */
  lemma WithoutHeaderIdempotent<B>(m: Message<B>, name: string)
    ensures WithoutHeader(WithoutHeader(m, name), name) == WithoutHeader(m, name)
  {
    var once := WithoutHeader(m, name);
    assert WithoutHeader(once, name).names == once.names;
    assert WithoutHeader(once, name).headers == once.headers;
  }
}

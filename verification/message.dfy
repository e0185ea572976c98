/** The immutable HTTP message: a protocol version, a header table with
    case-insensitive names, and an opaque body of type B. Every `with`
    operation returns a new message or an error; since messages are values,
    the receiver of an operation is never changed. */
module Messages {
  import opened Results
  import opened Text
  import opened Filters

  /** `names` maps each lower-cased key to the name to display for it;
      `headers` maps the same key to the header's values in order. */
  datatype Message<B> = Message(
    version: string,
    names: map<string, string>,
    headers: map<string, seq<string>>,
    body: B)

  /** What every constructed message satisfies: both tables have the same
      keys, each display name is an accepted name whose lower case is its
      key, each header has at least one stored value, and the version is a
      known one. */
  predicate Valid<B>(m: Message<B>)
  {
    ValidTables(m) && m.version in ValidProtocols
  }

  /** The part of Valid that concerns the two header tables. */
  predicate ValidTables<B>(m: Message<B>)
  {
    && m.names.Keys == m.headers.Keys
    && (forall k :: k in m.names ==> IsHeaderName(m.names[k]) && Lower(m.names[k]) == k)
    && (forall k :: k in m.headers ==> |m.headers[k]| > 0)
    && (forall k, j :: k in m.headers && 0 <= j < |m.headers[k]| ==> IsFieldValue(m.headers[k][j]))
  }

  /** Every key of a valid message is itself an accepted, lower-case name. */
  lemma ValidKeys<B>(m: Message<B>, k: string)
    requires ValidTables(m) && k in m.headers
    ensures IsHeaderKey(k)
  {
    LowerKeepsHeaderName(m.names[k]);
  }

  // ---------------------------------------------------------------- reading

  /** getHeader: the values stored under the lower-cased name, or none. */
  function GetHeader<B>(m: Message<B>, name: string): (r: seq<string>)
    ensures ValidTables(m) ==> (|r| > 0 <==> HasHeader(m, name))
    ensures ValidTables(m) ==> forall j :: 0 <= j < |r| ==> IsFieldValue(r[j])
  {
    var key := Lower(name);
    if key in m.headers then m.headers[key] else []
  }

  /** hasHeader: whether a header is stored under the lower-cased name. In
      a message with valid tables, that is whether some stored display name
      equals name up to ASCII case. */
  predicate HasHeader<B>(m: Message<B>, name: string)
    ensures ValidTables(m) ==> (HasHeader(m, name) <==> exists k :: k in m.names && Lower(m.names[k]) == Lower(name))
  {
    Lower(name) in m.headers
  }

  /** getHeaderLine: the values joined by a comma and a space. In a valid
      message the line is itself legal header-value text. */
  function GetHeaderLine<B>(m: Message<B>, name: string): (r: string)
    ensures !HasHeader(m, name) ==> r == ""
    ensures |GetHeader(m, name)| == 1 ==> r == GetHeader(m, name)[0]
    ensures ValidTables(m) ==> IsFieldText(r)
  {
    var values := GetHeader(m, name);
    JoinFieldText(values);
    Join(values, ", ")
  }

  /** getHeaders: every header under its display name. The display names
      are distinct, so no two headers collide, and each one looks up its own
      values. */
  function GetHeaders<B>(m: Message<B>): (r: map<string, seq<string>>)
    requires ValidTables(m)
    ensures forall k :: k in m.headers ==> m.names[k] in r && r[m.names[k]] == m.headers[k]
    ensures forall d :: d in r ==> HasHeader(m, d) && m.names[Lower(d)] == d && r[d] == GetHeader(m, d)
  {
    map k | k in m.headers :: m.names[k] := m.headers[k]
  }

  // ---------------------------------------------------------------- construction

  /** The body option of the constructor: a string, a stream, an object
      with a string form (here already rendered), or anything else. */
  datatype BodyInput<B> = StringBody(text: string) | StreamBody(stream: B) | StringableBody(text: string) | OtherBody(typeName: string)

  /** The options array of the constructor; a missing or null entry is None. */
  datatype Options<B> = Options(
    body: Option<BodyInput<B>>,
    headers: Option<seq<(string, HeaderValue)>>,
    protocolVersion: Option<string>)

  /** The body the constructor keeps; `fromString` stands for the stream
      factory, which is not part of this model. */
  function OpenBody<B>(input: BodyInput<B>, fromString: string -> B): (r: Result<B>)
    ensures r.Err? <==> input.OtherBody?
    ensures r.Err? ==> r.error == InvalidBodyType(input.typeName)
    ensures input.StreamBody? ==> r == Ok(input.stream)
    ensures input.StringBody? || input.StringableBody? ==> r == Ok(fromString(input.text))
  {
    match input
    case StringBody(text) => Ok(fromString(text))
    case StreamBody(stream) => Ok(stream)
    case StringableBody(text) => Ok(fromString(text))
    case OtherBody(typeName) => Err(InvalidBodyType(typeName))
  }

  /** withHeader accepts the pair: its name passes the pattern and its
      value passes the value filter. */
  predicate PairAccepted(pair: (string, HeaderValue))
  {
    IsHeaderName(pair.0) && FilterHeaderValue(pair.1).Ok?
  }

  predicate PairsAccepted(hs: seq<(string, HeaderValue)>)
  {
    forall i :: 0 <= i < |hs| ==> PairAccepted(hs[i])
  }

  /** The exception withHeader throws for a refused pair: the name is
      checked first, then the value. */
  function PairError(pair: (string, HeaderValue)): MessageError
    requires !PairAccepted(pair)
  {
    if !IsHeaderName(pair.0) then InvalidHeaderName(pair.0) else FilterHeaderValue(pair.1).error
  }

  /** i is where the first refused pair of hs stands, or the length of hs
      when none is refused: every pair before i is accepted, and the pair at
      i, if any, is refused. */
  predicate IsFirstRefused(hs: seq<(string, HeaderValue)>, i: nat)
  {
    && i <= |hs|
    && (i < |hs| <==> !PairsAccepted(hs))
    && (i < |hs| ==> !PairAccepted(hs[i]))
    && PairsAccepted(hs[..i])
  }

  /** The position of the first refused pair, or the length when every
      pair is accepted. */
  function FirstRefused(hs: seq<(string, HeaderValue)>): (i: nat)
    ensures IsFirstRefused(hs, i)
    decreases |hs|
  {
    if |hs| == 0 then
      assert hs[..0] == hs;
      0
    else if !PairAccepted(hs[0]) then
      assert hs[..0] == [];
      0
    else
      var i := FirstRefused(hs[1..]);
      FirstRefusedShift(hs, i);
      1 + i
  }

  /** The first refusal in the rest, one place further on in the whole. */
  lemma FirstRefusedShift(hs: seq<(string, HeaderValue)>, i: nat)
    requires 0 < |hs| && PairAccepted(hs[0]) && IsFirstRefused(hs[1..], i)
    ensures IsFirstRefused(hs, 1 + i)
  {
    PairsAcceptedFront(hs);
    PairsAcceptedFront(hs[..i + 1]);
    assert hs[..i + 1][1..] == hs[1..][..i];
    if i < |hs| - 1 {
      assert hs[1..][i] == hs[1 + i];
    }
  }

  /** A list of pairs is accepted when its first pair and the rest are. */
  lemma PairsAcceptedFront(hs: seq<(string, HeaderValue)>)
    requires |hs| > 0
    ensures PairsAccepted(hs) <==> PairAccepted(hs[0]) && PairsAccepted(hs[1..])
  {
    assert forall j :: 0 < j < |hs| ==> hs[1..][j - 1] == hs[j];
  }

  /** The constructor's header loop: each pair in turn is stored as
      withHeader would store it, and the first failure aborts. */
  function WithHeaders<B>(m: Message<B>, hs: seq<(string, HeaderValue)>): (r: Result<Message<B>>)
    ensures r.Ok? <==> PairsAccepted(hs)
    ensures Valid(m) && r.Ok? ==> Valid(r.value)
    ensures r.Ok? ==> r.value.version == m.version && r.value.body == m.body
    decreases |hs|
  {
    if |hs| == 0 then Ok(m)
    else
      var n := |hs| - 1;
      var prefix := WithHeaders(m, hs[..n]);
      PairsAcceptedSplit(hs);
      if prefix.Err? then prefix
      else WithHeader(prefix.value, hs[n].0, hs[n].1)
  }

  /** A failing header loop fails with the first refused pair's exception. */
  lemma {:induction false} WithHeadersFirstError<B>(m: Message<B>, hs: seq<(string, HeaderValue)>)
    ensures !PairsAccepted(hs) ==> WithHeaders(m, hs) == Err(PairError(hs[FirstRefused(hs)]))
    decreases |hs|
  {
    if !PairsAccepted(hs) {
      if FirstRefused(hs) < |hs| - 1 {
        FirstRefusedPrefix(hs);
        WithHeadersFirstError(m, hs[..|hs| - 1]);
        WithHeadersPrefixError(m, hs);
      } else {
        WithHeadersLastError(m, hs);
      }
    }
  }

  /** A first refusal before the last pair is the first refusal of the
      pairs without the last. */
  lemma FirstRefusedPrefix(hs: seq<(string, HeaderValue)>)
    requires !PairsAccepted(hs) && FirstRefused(hs) < |hs| - 1
    ensures !PairsAccepted(hs[..|hs| - 1])
    ensures FirstRefused(hs[..|hs| - 1]) == FirstRefused(hs)
    ensures hs[..|hs| - 1][FirstRefused(hs)] == hs[FirstRefused(hs)]
  {
    var i := FirstRefused(hs);
    var p := hs[..|hs| - 1];
    assert p[..i] == hs[..i] && p[i] == hs[i];
    FirstRefusedUnique(p, FirstRefused(p), i);
  }

  /** Once the loop has failed, a further pair changes nothing. */
  lemma WithHeadersPrefixError<B>(m: Message<B>, hs: seq<(string, HeaderValue)>)
    requires |hs| > 0 && WithHeaders(m, hs[..|hs| - 1]).Err?
    ensures WithHeaders(m, hs) == WithHeaders(m, hs[..|hs| - 1])
  {
  }

  /** When only the last pair is refused, its exception is the loop's. */
  lemma WithHeadersLastError<B>(m: Message<B>, hs: seq<(string, HeaderValue)>)
    requires !PairsAccepted(hs) && FirstRefused(hs) == |hs| - 1
    ensures WithHeaders(m, hs) == Err(PairError(hs[|hs| - 1]))
  {
    var n := |hs| - 1;
    assert hs[..n] == hs[..FirstRefused(hs)];
    var prefix := WithHeaders(m, hs[..n]);
    assert prefix.Ok?;
    assert WithHeaders(m, hs) == WithHeader(prefix.value, hs[n].0, hs[n].1);
  }

  /** Only one position is refused with every earlier pair accepted. */
  lemma FirstRefusedUnique(hs: seq<(string, HeaderValue)>, i: nat, j: nat)
    requires i < |hs| && !PairAccepted(hs[i]) && PairsAccepted(hs[..i])
    requires j < |hs| && !PairAccepted(hs[j]) && PairsAccepted(hs[..j])
    ensures i == j
  {
  }

  /** The pairs are accepted when all but the last are and the last is. */
  lemma PairsAcceptedSplit(hs: seq<(string, HeaderValue)>)
    requires |hs| > 0
    ensures PairsAccepted(hs) <==> PairsAccepted(hs[..|hs| - 1]) && PairAccepted(hs[|hs| - 1])
  {
    assert forall j :: 0 <= j < |hs| - 1 ==> hs[..|hs| - 1][j] == hs[j];
  }

  /** new Message($options): the body first, then the headers, then the
      protocol version, which defaults to "1.1". */
  function NewMessage<B>(options: Options<B>, fromString: string -> B): (r: Result<Message<B>>)
    ensures var hs := options.headers.GetOr([]);
            r.Ok? <==> && !(options.body.Some? && options.body.value.OtherBody?)
                       && PairsAccepted(hs)
                       && options.protocolVersion.GetOr("1.1") in ValidProtocols
    ensures r.Ok? ==> Valid(r.value)
    ensures r.Ok? ==> r.value.version == options.protocolVersion.GetOr("1.1")
    ensures r.Ok? ==> Ok(r.value.body) == OpenBody(options.body.GetOr(StringBody("")), fromString)
    ensures options.body.Some? && options.body.value.OtherBody? ==>
              r == Err(InvalidBodyType(options.body.value.typeName))
    ensures var hs := options.headers.GetOr([]);
            !(options.body.Some? && options.body.value.OtherBody?) && !PairsAccepted(hs) ==>
              r == Err(PairError(hs[FirstRefused(hs)]))
    ensures var v := options.protocolVersion.GetOr("1.1");
            !(options.body.Some? && options.body.value.OtherBody?) && PairsAccepted(options.headers.GetOr([]))
            && v !in ValidProtocols ==>
              r == Err(InvalidProtocolVersion(v))
  {
    var body := OpenBody(options.body.GetOr(StringBody("")), fromString);
    if body.Err? then Err(body.error)
    else
      var empty := Message("1.1", map[], map[], body.value);
      var hs := options.headers.GetOr([]);
      WithHeadersFirstError(empty, hs);
      var m := WithHeaders(empty, hs);
      if m.Err? then Err(m.error)
      else
        var version := FilterProtocolVersion(options.protocolVersion.GetOr("1.1"));
        if version.Err? then Err(version.error)
        else
          VersionKeepsTables(m.value, version.value);
          Ok(m.value.(version := version.value))
  }

  /** The header tables do not depend on the version. */
  lemma VersionKeepsTables<B>(m: Message<B>, v: string)
    requires ValidTables(m)
    ensures ValidTables(m.(version := v))
  {
  }

  // ---------------------------------------------------------------- with*

  /** withHeader: the entry for the lower-cased name is replaced wholesale,
      and the name as given now becomes its display name. A bad name is
      reported before a bad value. */
  function WithHeader<B>(m: Message<B>, name: string, value: HeaderValue): (r: Result<Message<B>>)
    ensures r.Ok? <==> IsHeaderName(name) && FilterHeaderValue(value).Ok?
    ensures !IsHeaderName(name) ==> r == Err(InvalidHeaderName(name))
    ensures IsHeaderName(name) && FilterHeaderValue(value).Err? ==> r == Err(FilterHeaderValue(value).error)
    ensures Valid(m) && r.Ok? ==> Valid(r.value)
    ensures r.Ok? ==> Lower(name) in r.value.names && r.value.names[Lower(name)] == name
    ensures r.Ok? ==> forall other {:trigger GetHeader(r.value, other)} {:trigger HasHeader(r.value, other)} :: Lower(other) == Lower(name) ==>
                        HasHeader(r.value, other) && GetHeader(r.value, other) == FilterHeaderValue(value).value
    ensures r.Ok? ==> forall other {:trigger GetHeader(r.value, other)} {:trigger HasHeader(r.value, other)} :: Lower(other) != Lower(name) ==>
                        HasHeader(r.value, other) == HasHeader(m, other) && GetHeader(r.value, other) == GetHeader(m, other)
    ensures r.Ok? ==> forall k :: k in m.names && k != Lower(name) ==> k in r.value.names && r.value.names[k] == m.names[k]
    ensures r.Ok? ==> r.value.version == m.version && r.value.body == m.body
  {
    var key := FilterHeaderName(name);
    var values := FilterHeaderValue(value);
    if key.Err? then Err(key.error)
    else if values.Err? then Err(values.error)
    else Ok(m.(names := m.names[key.value := name], headers := m.headers[key.value := values.value]))
  }

  /** withAddedHeader: on a stored header the new values follow the old ones
      and the display name is kept; otherwise it is withHeader under the
      lower-cased name, so the lower-cased name is what gets displayed. */
  function WithAddedHeader<B>(m: Message<B>, name: string, value: HeaderValue): (r: Result<Message<B>>)
    ensures HasHeader(m, name) ==> (r.Ok? <==> FilterHeaderValue(value).Ok?)
    ensures HasHeader(m, name) && FilterHeaderValue(value).Err? ==> r == Err(FilterHeaderValue(value).error)
    ensures HasHeader(m, name) && r.Ok? ==>
              && r.value.names == m.names
              && GetHeader(r.value, name) == GetHeader(m, name) + FilterHeaderValue(value).value
    ensures !HasHeader(m, name) ==> r == WithHeader(m, Lower(name), value)
    ensures !HasHeader(m, name) && r.Ok? ==> Lower(name) in r.value.names && r.value.names[Lower(name)] == Lower(name)
    ensures r.Ok? ==> forall other {:trigger GetHeader(r.value, other)} {:trigger HasHeader(r.value, other)} :: Lower(other) != Lower(name) ==>
                        HasHeader(r.value, other) == HasHeader(m, other) && GetHeader(r.value, other) == GetHeader(m, other)
    ensures r.Ok? ==> r.value.version == m.version && r.value.body == m.body
  {
    var key := Lower(name);
    LowerIdempotent(name);
    if key !in m.headers then WithHeader(m, key, value)
    else
      var values := FilterHeaderValue(value);
      if values.Err? then Err(values.error)
      else Ok(m.(headers := m.headers[key := m.headers[key] + values.value]))
  }

  /** withoutHeader: the entry for the lower-cased name disappears from
      both tables, whether or not it was there; nothing else changes. */
  function WithoutHeader<B>(m: Message<B>, name: string): (r: Message<B>)
    ensures forall other {:trigger HasHeader(r, other)} :: Lower(other) == Lower(name) ==> !HasHeader(r, other)
    ensures forall other {:trigger GetHeader(r, other)} {:trigger HasHeader(r, other)} :: Lower(other) != Lower(name) ==>
              HasHeader(r, other) == HasHeader(m, other) && GetHeader(r, other) == GetHeader(m, other)
    ensures forall k :: k in m.names && k != Lower(name) ==> k in r.names && r.names[k] == m.names[k]
    ensures Valid(m) ==> Valid(r)
    ensures r.version == m.version && r.body == m.body
  {
    var key := Lower(name);
    m.(names := m.names - {key}, headers := m.headers - {key})
  }

  /** withProtocolVersion: one of the known versions replaces the version
      and nothing else; any other string is refused. */
  function WithProtocolVersion<B>(m: Message<B>, version: string): (r: Result<Message<B>>)
    ensures r.Ok? <==> version in ValidProtocols
    ensures r.Err? ==> r.error == InvalidProtocolVersion(version)
    ensures r.Ok? ==> r.value.version == version
    ensures r.Ok? ==> r.value.names == m.names && r.value.headers == m.headers && r.value.body == m.body
    ensures Valid(m) && r.Ok? ==> Valid(r.value)
  {
    var v :- FilterProtocolVersion(version);
    Ok(m.(version := v))
  }

  /** withBody: the body is swapped; headers and version carry over. */
  function WithBody<B>(m: Message<B>, body: B): (r: Message<B>)
    ensures r.body == body
    ensures r.version == m.version && r.names == m.names && r.headers == m.headers
    ensures Valid(m) ==> Valid(r)
  {
    m.(body := body)
  }
}

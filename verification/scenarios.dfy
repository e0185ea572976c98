/** The message's documented behaviour on concrete inputs: the cases its
    test suite exercises, plus the line-feed allowance of the name pattern. */
module MessageScenarios {
  import opened Results
  import opened Text
  import opened Filters
  import opened Messages
  import opened MessageLaws

  /** A colon is not a token character, so "x:test" is refused. */
  lemma ColonNameRefused<B>(m: Message<B>)
    ensures WithHeader(m, "x:test", Single(Str("value"))) == Err(InvalidHeaderName("x:test"))
  {
    assert !IsTChar(':');
    assert "x:test"[1] == ':';
  }

  /** A name followed by one final line feed passes the pattern, and its
      key keeps the line feed. */
  lemma TrailingLineFeedAccepted()
    ensures FilterHeaderName("X-Test\n") == Ok("x-test\n")
  {
    assert IsToken("X-Test\n"[..6]);
    assert Lower("X-Test\n") == "x-test\n";
  }

  /** Two final line feeds are refused. */
  lemma DoubleLineFeedRefused()
    ensures FilterHeaderName("X-Test\n\n").Err?
  {
    var s := "X-Test\n\n";
    assert !IsTChar('\n');
    assert s[..7][6] == '\n';
    assert s[6] == '\n';
  }

  /** A line feed inside the name is refused. */
  lemma InnerLineFeedRefused()
    ensures FilterHeaderName("X\n-Test").Err?
  {
    var s := "X\n-Test";
    assert !IsTChar('\n');
    assert s[1] == '\n' && s[..6][1] == '\n';
  }

  /** A NUL byte is refused whether it is set or appended, on any message. */
  lemma NulValueRefused<B>(m: Message<B>)
    ensures WithHeader(m, "test", Single(Str("\0"))) == Err(InvalidHeaderValue("\0"))
    ensures WithAddedHeader(m, "test", Single(Str("\0"))) == Err(InvalidHeaderValue("\0"))
  {
    assert !IsFieldChar("\0"[0]);
    SingleStringValue("\0");
    TestIsName();
    LowerKeepsHeaderName("test");
  }

  /** The empty string is a legal value and is stored as [""]; the empty
      list is refused. */
  lemma EmptyStringAndEmptyList<B>(m: Message<B>)
    ensures WithHeader(m, "test", List([])) == Err(EmptyHeaderValue)
    ensures GetHeader(WithHeader(m, "test", Single(Str(""))).value, "test") == [""]
  {
    TestIsName();
    SingleStringValue("");
  }

  /** "X-Test" is a legal name, and its three casings share one key. */
  lemma CasingsAgree()
    ensures IsHeaderName("X-Test")
    ensures Lower("x-test") == Lower("X-Test") == Lower("X-TEST")
  {
    assert IsToken("X-Test");
  }

  /** The value "a" is stored as ["a"]. */
  lemma PlainA()
    ensures FilterHeaderValue(Single(Str("a"))) == Ok(["a"])
  {
    SingleStringValue("a");
    TrimUnpadded("a");
  }

  /** Headers set as "X-Test" are found under any casing and listed under
      the casing given. */
  lemma CaseInsensitiveLookup<B>(m: Message<B>)
    requires Valid(m)
    ensures var r := WithHeader(m, "X-Test", Single(Str("a")));
            && r.Ok?
            && GetHeader(r.value, "x-test") == ["a"]
            && HasHeader(r.value, "X-TEST")
            && "X-Test" in GetHeaders(r.value)
  {
    CasingsAgree();
    PlainA();
    WithHeaderDisplayName(m, "X-Test", Single(Str("a")));
  }

  /** "test", the name the test suite uses throughout, is a legal name. */
  lemma TestIsName()
    ensures IsHeaderName("test")
  {
    assert IsToken("test");
  }

  /** The value "value" is stored as ["value"]. */
  lemma PlainValue()
    ensures FilterHeaderValue(Single(Str("value"))) == Ok(["value"])
  {
    SingleStringValue("value");
    TrimUnpadded("value");
  }

  /** "value1" and "value2" are legal stored values. */
  lemma PlainValues()
    ensures IsFieldValue("value1") && IsFieldValue("value2")
  {
  }

  /** Two values are joined by ", " on one line. */
  lemma TwoValueLine<B>(m: Message<B>)
    ensures var r := WithHeader(m, "test", List([Str("value1"), Str("value2")]));
            && r.Ok?
            && GetHeader(r.value, "test") == ["value1", "value2"]
            && GetHeaderLine(r.value, "test") == "value1, value2"
  {
    TestIsName();
    PlainValues();
    assert "value1" + ", " + "value2" == "value1, value2";
    PairLine(m, "test", "value1", "value2");
  }

  /** The options of the constructor test: body "test", one header and
      version "2.0". */
  function ConstructorOptions<B>(): Options<B>
  {
    Options(Some(StringBody("test")), Some([("test", Single(Str("value")))]), Some("2.0"))
  }

  /** The constructor test: the message is built, the body is the stream of
      "test", the header reads back as ["value"] and the version is "2.0". */
  lemma TestConstructor<B>(fromString: string -> B)
    ensures var r := NewMessage(ConstructorOptions(), fromString);
            && r.Ok?
            && r.value.body == fromString("test")
            && GetHeader(r.value, "test") == ["value"]
            && r.value.version == "2.0"
  {
    var hs: seq<(string, HeaderValue)> := [("test", Single(Str("value")))];
    var empty := Message("1.1", map[], map[], fromString("test"));
    ConstructorHeaderLoop(empty);
    assert ConstructorOptions<B>().headers.GetOr([]) == hs;
    assert FilterProtocolVersion("2.0") == Ok("2.0");
    assert NewMessage(ConstructorOptions(), fromString) == Ok(WithHeaders(empty, hs).value.(version := "2.0"));
  }

  /** The header loop of the constructor test stores "value" under "test". */
  lemma ConstructorHeaderLoop<B>(empty: Message<B>)
    ensures var r := WithHeaders(empty, [("test", Single(Str("value")))]);
            r.Ok? && GetHeader(r.value, "test") == ["value"] && r.value.body == empty.body
  {
    var hs: seq<(string, HeaderValue)> := [("test", Single(Str("value")))];
    TestIsName();
    PlainValue();
    assert hs[..0] == [];
    WithHeaderSets(empty, "test", Single(Str("value")), "test");
    assert WithHeaders(empty, hs) == WithHeader(empty, "test", Single(Str("value")));
  }

  /** "2.0" is accepted and "2.1" refused, leaving the version to the caller's message. */
  lemma ProtocolVersions<B>(m: Message<B>)
    ensures WithProtocolVersion(m, "2.0") == Ok(m.(version := "2.0"))
    ensures WithProtocolVersion(m, "2.1") == Err(InvalidProtocolVersion("2.1"))
  {
  }
}

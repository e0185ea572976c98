/** The protocol-version check as the source writes it: in_array without
    its strict flag, so the version is compared to "1.0", "1.1" and "2.0"
    with PHP's loose `==`. Any numeric string of the same value passes and
    is then stored exactly as given. The rest of the model uses the strict
    check, Filters.FilterProtocolVersion. */
module LooseVersions {
  import opened Results
  import opened Text
  import opened Numeric
  import opened NumericStrings
  import opened Filters
  import opened Messages

  /** filterProtocolVersion with the loose membership test. */
  function FilterProtocolVersionAsWritten(version: string): (r: Result<string>)
    ensures r.Ok? <==> exists i :: 0 <= i < |ValidProtocols| && LooseEquals(version, ValidProtocols[i])
    ensures r.Ok? ==> r.value == version
    ensures r.Err? ==> r.error == InvalidProtocolVersion(version)
  {
    if LooselyIn(version, ValidProtocols) then Ok(version) else Err(InvalidProtocolVersion(version))
  }

  /** withProtocolVersion on top of the loose check. */
  function WithProtocolVersionAsWritten<B>(m: Message<B>, version: string): (r: Result<Message<B>>)
    ensures r.Ok? <==> FilterProtocolVersionAsWritten(version).Ok?
    ensures r.Ok? ==> r.value == m.(version := version)
  {
    var v := FilterProtocolVersionAsWritten(version);
    if v.Err? then Err(v.error) else Ok(m.(version := v.value))
  }

  /** The two checks agree on every version the strict one accepts, and the
      loose one refuses only versions the strict one refuses too. */
  lemma LooseExtendsStrict(version: string)
    ensures FilterProtocolVersion(version).Ok? ==> FilterProtocolVersionAsWritten(version) == FilterProtocolVersion(version)
    ensures FilterProtocolVersionAsWritten(version).Err? ==> FilterProtocolVersion(version) == FilterProtocolVersionAsWritten(version)
  {
    if version in ValidProtocols {
      ExactIsLoose(version, ValidProtocols);
    }
  }

  /** "1.10" reads as the digits 110 with two of them after the point. */
  lemma ParseOnePointOneZero()
    ensures ParseNumeric("1.10") == Some(Decimal(false, "110", 2, 0))
  {
    var s := "1.10";
    assert s == "1" + "." + "10" + "";
    assert IsDigit(s[0]) && IsDigit(s[3]);
    MantissaRoundTrip("1", "10", "");
    assert "1" + "10" == "110";
    ParseNumericPlain(s, "110", 2);
  }

  /** "1.1" reads as the digits 11 with one of them after the point. */
  lemma ParseOnePointOne()
    ensures ParseNumeric("1.1") == Some(Decimal(false, "11", 1, 0))
  {
    var s := "1.1";
    assert s == "1" + "." + "1" + "";
    assert IsDigit(s[0]) && IsDigit(s[2]);
    MantissaRoundTrip("1", "1", "");
    assert "1" + "1" == "11";
    ParseNumericPlain(s, "11", 1);
  }

  /** The digit strings of the two readings, as numbers. */
  lemma DigitValues()
    ensures DecimalValue("110") == 110 && DecimalValue("11") == 11
  {
    assert "110"[..2] == "11" && "11"[..1] == "1" && "1"[..0] == "";
  }

  /** "1.10" equals "1.1" under loose comparison. */
  lemma OnePointTenLooselyKnown()
    ensures LooseEquals("1.10", ValidProtocols[1])
  {
    ParseOnePointOneZero();
    ParseOnePointOne();
    DigitValues();
  }

  /** The source accepts "1.10", which the strict check refuses, and stores
      it verbatim: the message then carries a version outside the three
      known ones. */
  lemma LooseVersionBreaksValid<B>(m: Message<B>)
    ensures FilterProtocolVersion("1.10").Err?
    ensures FilterProtocolVersionAsWritten("1.10") == Ok("1.10")
    ensures WithProtocolVersionAsWritten(m, "1.10").Ok?
    ensures !Valid(WithProtocolVersionAsWritten(m, "1.10").value)
  {
    OnePointTenLooselyKnown();
    assert "1.10" != "1.0" && "1.10" != "1.1" && "1.10" != "2.0";
  }

  /** "2" and "2.0" read as 2 and as 20 tenths. */
  lemma ParseTwoAndTwoPointZero()
    ensures ParseNumeric("2") == Some(Decimal(false, "2", 0, 0))
    ensures ParseNumeric("2.0") == Some(Decimal(false, "20", 1, 0))
  {
    assert IsLnum("2") && AllDigits("0");
    ParseLnum("2");
    ParseDotted("", "2", "0");
    assert "" + "2" + "." + "0" == "2.0" && "2" + "0" == "20";
  }

  /** " 1.1" reads as 11 tenths, like "1.1": leading whitespace is allowed. */
  lemma ParseSpacedOnePointOne()
    ensures ParseNumeric(" 1.1") == Some(Decimal(false, "11", 1, 0))
  {
    assert AllNumericSpace(" ") && IsLnum("1") && AllDigits("1");
    ParseDotted(" ", "1", "1");
    assert " " + "1" + "." + "1" == " 1.1" && "1" + "1" == "11";
  }

  /** The digit strings of the readings of "2" and "2.0", as numbers. */
  lemma TwoDigitValues()
    ensures DecimalValue("2") == 2 && DecimalValue("20") == 20
  {
    assert "20"[..1] == "2" && "2"[..0] == "";
  }

  /** "2" equals "2.0" under loose comparison. */
  lemma TwoLooselyKnown()
    ensures LooseEquals("2", ValidProtocols[2])
  {
    assert ValidProtocols[2] == "2.0";
    ParseTwoAndTwoPointZero();
    TwoSameValue();
  }

  /** 2 and 20 tenths are the same number. */
  lemma TwoSameValue()
    ensures SameValue(Decimal(false, "2", 0, 0), Decimal(false, "20", 1, 0))
  {
    TwoDigitValues();
    assert Pow10(1) == 10;
  }

  /** " 1.1" equals "1.1" under loose comparison. */
  lemma SpacedOnePointOneLooselyKnown()
    ensures LooseEquals(" 1.1", ValidProtocols[1])
  {
    ParseSpacedOnePointOne();
    ParseOnePointOne();
  }

  /** The source also accepts "2", which the strict check refuses, and
      stores it as given. */
  lemma TwoAccepted()
    ensures FilterProtocolVersion("2").Err?
    ensures FilterProtocolVersionAsWritten("2") == Ok("2")
  {
    TwoLooselyKnown();
  }

  /** The source also accepts " 1.1", which the strict check refuses, and
      stores it with its leading space. */
  lemma SpacedOnePointOneAccepted()
    ensures FilterProtocolVersion(" 1.1").Err?
    ensures FilterProtocolVersionAsWritten(" 1.1") == Ok(" 1.1")
  {
    SpacedOnePointOneLooselyKnown();
  }
}

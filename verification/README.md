# FyreMessage: the immutable HTTP message, in Dafny

This project models `Fyre\Http\Message`, the PSR-7 HTTP message of the
FyreMessage package. A message holds three things:

- a protocol version;
- a header table that matches names case-insensitively but remembers the casing last used to set each header;
- a body stream.

The constructor takes an options array. `getHeader`, `getHeaderLine`,
`getHeaders`, `hasHeader`, `getProtocolVersion` and `getBody` read the
message. `withHeader`, `withAddedHeader`, `withoutHeader`,
`withProtocolVersion` and `withBody` return a modified copy. Every header
name and value that the constructor, `withHeader` or `withAddedHeader`
stores, and every protocol version, passes through one of three filters,
which raise a `MessageException` on bad input. The getters, `hasHeader` and
`withoutHeader` only lower-case the name they are given and never refuse it,
and `withAddedHeader` on a header already present filters only the value.

Layout (one module per file):

| file | module | what it holds |
|---|---|---|
| `results.dfy` | `Results` | `Option`, `Result`, and `MessageError`, one constructor per exception factory |
| `text.dfy` | `Text` | the PHP string built-ins used: `strtolower`, `trim($v, " \t")`, `implode`, `(string)$int` |
| `numeric.dfy` | `Numeric` | the reader of PHP 8 numeric strings and the loose `==` between two strings |
| `numeric_strings.dfy` | `NumericStrings` | the grammar of PHP 8 numeric strings, and the proof that the reader accepts exactly that grammar |
| `filters.dfy` | `Filters` | `filterHeaderName`, `filterHeaderValue`, `filterProtocolVersion` |
| `message.dfy` | `Messages` | the message value, its invariant `Valid`, the constructor, the getters and the `with*` operations |
| `laws.dfy` | `MessageLaws` | properties that tie several operations together |
| `scenarios.dfy` | `MessageScenarios` | the behaviour the package's test suite checks, on the same inputs |
| `versions.dfy` | `LooseVersions` | the protocol-version check as written, with loose `in_array` (see Findings) |

## How the model is set up

- **The message is a value.** `Message<B>` holds the version and two maps, both keyed by the lower-cased header name:
  - `names` holds the display name;
  - `headers` holds the list of values.

  Cloning followed by mutation becomes building a new value, so the receiver of a `with*` operation is unchanged by construction. `getProtocolVersion` and `getBody` are the fields `version` and `body`.
- **The body is opaque.** Its type is the parameter `B`. Turning a string into a stream is the function parameter `fromString` of `NewMessage`.
- **Errors are values.** Every exception becomes an `Err` holding the factory's arguments. The first check that fails decides the error, as in the source:
  - a bad name comes before a bad value;
  - the first bad element of a list decides the error;
  - in the constructor, the body comes first, then the headers in order, then the version.
- **Header values are data.** The possible PHP values of a header are modelled as follows:
  - `Single(e)` is one value.
  - `List(es)` is a list.
  - `Null` is null, which the `(array)` cast turns into the empty array.
  - Each element `e` is one of `Str`, `Int` or `OtherType(gettype)`.
- **The name pattern keeps the PCRE end-of-line quirk.** It is `/^[tchar]+$/` without the `D` modifier, so `$` also matches before a final line feed. `"X-Test\n"` is therefore accepted, and its key keeps the line feed. `IsHeaderName` states this, and `MatchesNamePattern` is proved equivalent to it.
- **The invariant.** `Valid` is what the constructor establishes and every operation keeps. Its first four items, about the header tables, are `ValidTables`:
  - the two tables have the same keys;
  - every display name passes the name filter and lower-cases to its key;
  - every header has at least one value;
  - every value is legal text with no blank at either end;
  - the version is one of "1.0", "1.1" and "2.0".

## Model

| member | source | states |
|---|---|---|
| Text.Lower | src/Message.php:93 | strtolower keeps the length and maps each character on its own, changing only A-Z |
| Text.LowerIdempotent | src/Message.php:160-163 | lower-casing twice is lower-casing once, so withAddedHeader's own strtolower before withHeader changes nothing |
| Text.LeadingBlanks | src/Message.php:288 | the counted prefix is all blanks and is followed by a non-blank (or the end) |
| Text.TrailingBlanks | src/Message.php:288 | the counted suffix is all blanks and is preceded by a non-blank (or the start) |
| Text.Trim | src/Message.php:288 | the result is a slice of the input flanked by blanks only, with no blank at either end |
| Text.TrimKeeps | src/Message.php:284-288 | any per-character property of the input holds of its trimmed form, so trimming never adds an illegal character |
| Text.TrimUnpadded | src/Message.php:288 | trimming text with no blank at either end returns it unchanged |
| Text.Join | src/Message.php:110 | implode starts with the first element and ends with the last, and its length is the elements' total plus one separator between each two neighbours; no elements give "" |
| Text.JoinConcat | src/Message.php:110 | imploding two non-empty lists joined end to end is imploding each and putting one separator between |
| Text.JoinChars | src/Message.php:110 | every character of an imploded line comes from an element or a separator |
| Text.NatToDecimal | src/Message.php:282 | the decimal form of a natural number is non-empty, all digits, and has no leading zero |
| Text.DecimalRoundTrip | src/Message.php:282 | reading back the decimal digits of n gives n |
| Text.IntToDecimal | src/Message.php:282 | `(string)$int` is a minus sign exactly for a negative integer, then at least one digit, with no leading zero except in "0" |
| Text.IntToDecimalRoundTrip | src/Message.php:282 | distinct integers render to distinct strings: the rendering reads back to the integer |
| Numeric.StripSpaces | src/Message.php:306 | the whitespace a PHP numeric string may carry is removed at both ends, and text without it is left as is |
| Numeric.StripSpacesMiddle | src/Message.php:306 | what stripping leaves is a slice of the input with only whitespace on either side, so nothing inside is removed |
| Numeric.DigitRun | src/Message.php:306 | the digits counted are digits and are followed by a non-digit (or the end) |
| Numeric.ParseExponent | src/Message.php:306 | an exponent is read exactly when it is an optional sign followed by at least one digit; its size is the digits' value and it is negative only after a minus sign |
| Numeric.ParseMantissa | src/Message.php:306 | a mantissa that is read yields at least one digit, all digits, with no more fraction digits than digits (which inputs are read is NumericStrings.ParseMantissaIff) |
| Numeric.ParseNumeric | src/Message.php:306 | a string that is read gives a well-formed decimal (which strings are read is NumericStrings.ParseNumericIff, and what value NumericStrings.ParseNumericValue) |
| Numeric.MantissaRoundTrip | src/Message.php:306 | a mantissa written with its point reads back with the same digits and fraction length |
| Numeric.ExponentRoundTrip | src/Message.php:306 | an exponent written in decimal reads back as itself |
| Numeric.RenderRoundTrip | src/Message.php:306 | ParseNumeric reads back every decimal that Render writes |
| Numeric.LooseEquals | src/Message.php:306 | loose `==` holds between equal strings, and is byte equality unless both strings are numeric |
| Numeric.LooselyIn | src/Message.php:306 | loose in_array accepts every string in the list, and accepts exactly those when the string is not numeric |
| Numeric.LooseEqualsReflexive | src/Message.php:306 | loose comparison never separates a string from itself |
| Numeric.ExactIsLoose | src/Message.php:306 | loose in_array accepts every string that is literally in the list |
| NumericStrings.MantissaShape | src/Message.php:306 | what the mantissa reader consumes is an LNUM or DNUM, and the rest of the input follows it and does not start with a digit |
| NumericStrings.MantissaRead | src/Message.php:306 | an LNUM or DNUM followed by nothing or by an exponent marker is consumed whole |
| NumericStrings.ParseMantissaIff | src/Message.php:306 | the mantissa reader succeeds exactly when the input begins with an LNUM or DNUM |
| NumericStrings.NumberIsSignedUnsigned | src/Message.php:306 | a number is an optional sign before an unsigned number, and an unsigned number never starts with a sign |
| NumericStrings.StripFinds | src/Message.php:306 | text with no whitespace at either end, with only whitespace around it, is exactly what stripping leaves |
| NumericStrings.NumericStringStripped | src/Message.php:306 | a string is numeric exactly when stripping its whitespace leaves a number |
| NumericStrings.ParseNumericIff | src/Message.php:306 | the reader accepts exactly the numeric strings: whitespace, an optional sign, LNUM or DNUM, an optional exponent, whitespace |
| NumericStrings.MantissaValueRead | src/Message.php:306 | the mantissa reader gives a mantissa's digits with the point taken out and the number of digits after the point |
| NumericStrings.ExponentValueRead | src/Message.php:306 | the exponent reader gives an exponent part's digits as a number, negated after a minus sign |
| NumericStrings.ParseNumericValue | src/Message.php:306 | every numeric string (whitespace, sign, mantissa, exponent part, whitespace) reads as its sign, the mantissa's digits and fraction length, and the exponent's value |
| NumericStrings.ParseLnum | src/Message.php:306 | a run of digits reads as itself, unsigned, with no fraction and no exponent |
| NumericStrings.ParseDotted | src/Message.php:306 | whitespace, digits, a point and digits read as all the digits, with those after the point as the fraction |
| NumericStrings.LooseEqualsNumericStrings | src/Message.php:306 | loose `==` compares two numeric strings by value and any other pair byte for byte |
| Filters.TokenRun | src/Message.php:253 | the token-character run is maximal: its characters are tchars and the next one is not |
| Filters.NamePatternMatchesHeaderNames | src/Message.php:253 | the anchored pattern matches exactly the tokens and the tokens followed by one final line feed |
| Filters.LowerKeepsHeaderName | src/Message.php:257 | a name is accepted exactly when its lower-cased form is, and then that form is a table key |
| Filters.FilterHeaderName | src/Message.php:251-258 | accepted exactly when the name matches the pattern; the key is the lower-cased name; a refusal carries the name as given |
| Filters.ToArray | src/Message.php:270 | the `(array)` cast keeps a list as it is, element for element and in order, turns one value into a one-element array, and is empty exactly for null and the empty list |
| Filters.JoinFieldText | src/Message.php:110 | imploding legal values with ", " gives legal text |
| Filters.FilterElement | src/Message.php:277-289 | a non-string, non-integer is a type error; a string with a character outside tab and 0x20-0x7E is refused as given; otherwise the trimmed text, which is legal and unpadded |
| Filters.FilterElements | src/Message.php:276-291 | succeeds exactly when every element does; keeps length and order; any error is a value or value-type error |
| Filters.FilterElementsFirstError | src/Message.php:276-291 | the error reported is that of the first failing element, and all elements before it pass |
| Filters.FilterHeaderValue | src/Message.php:268-294 | the empty array and only it is EmptyHeaderValue; otherwise it succeeds exactly when every element passes, giving one legal, unpadded value per element in order |
| Filters.FilterProtocolVersion | src/Message.php:304-311 | accepted exactly when the version is "1.0", "1.1" or "2.0", returned unchanged, and refused with the version otherwise |
| Messages.ValidKeys | src/Message.php:36-38 | every key of a valid message is an accepted, already lower-case name |
| Messages.HasHeader | src/Message.php:144-149 | when the tables are valid, a header is present exactly when some stored display name equals the name up to ASCII case |
| Messages.GetHeader | src/Message.php:91-96 | when the tables are valid the list is non-empty exactly when hasHeader holds, and every value is legal and unpadded |
| Messages.GetHeaderLine | src/Message.php:104-111 | "" for an absent header, the value itself for a single value, and legal text when the tables are valid |
| Messages.GetHeaders | src/Message.php:118-126 | given valid tables, each stored header appears under its display name with its values, and each listed name looks up its own values |
| Messages.OpenBody | src/Message.php:53-63 | a stream is kept, a string or Stringable becomes a stream of its text, anything else is InvalidBodyType with its type |
| Messages.FirstRefused | src/Message.php:65-70 | the position of the first pair withHeader refuses, with every earlier pair accepted; it is the length exactly when every pair is accepted |
| Messages.WithHeaders | src/Message.php:65-70 | the constructor's header loop succeeds exactly when every pair has an accepted name and value, and keeps the invariant, the version and the body |
| Messages.WithHeadersFirstError | src/Message.php:65-70 | a failing header loop throws the exception of the first refused pair: its bad name, or else its bad value |
| Messages.NewMessage | src/Message.php:47-73 | construction succeeds exactly when the body has an accepted type, every header pair is accepted and the version (default "1.1") is a known one; the errors come in source order: bad body type, then the first refused header pair, then the bad version; a built message is valid, with the option's version and the opened body option (default "") |
| Messages.WithHeader | src/Message.php:198-208 | succeeds exactly when name and value pass; a bad name is reported first; the key takes the filtered values and the name as given, every other header and display name is untouched, and the invariant holds |
| Messages.WithAddedHeader | src/Message.php:158-174 | on a present header the new values follow the old ones and the display name stays; on an absent one it is withHeader under the lower-cased name, so that name is displayed; other headers are untouched |
| Messages.WithoutHeader | src/Message.php:216-226 | no casing of the name finds a header afterwards, every other header and display name is kept, and the invariant holds |
| Messages.WithProtocolVersion | src/Message.php:234-241 | accepted exactly for the three known versions, which replace the version and nothing else |
| Messages.WithBody | src/Message.php:182-189 | the body is replaced and the version and both tables carry over |
| MessageLaws.SingleStringValue | src/Message.php:268-294 | a lone string is accepted exactly when its characters are legal, and is stored as the one-element list of its trimmed form |
| MessageLaws.IntegerValue | src/Message.php:278-288 | an integer is always accepted and is stored as its decimal form |
| MessageLaws.FilterHeaderValueFirstError | src/Message.php:276-291 | a refused non-empty value fails on its first bad element |
| MessageLaws.StoredValuesRefilter | src/Message.php:284-288 | values a valid message stores pass the filter again unchanged |
| MessageLaws.WithAddedHeaderKeepsValid | src/Message.php:158-174 | withAddedHeader keeps the table invariant |
| MessageLaws.WithAddedHeaderAcceptance | src/Message.php:158-164 | withAddedHeader succeeds exactly when name and value pass, and reports a bad name in lower case |
| MessageLaws.WithHeadersStep | src/Message.php:65-70 | the loop over n+1 pairs is withHeader of the last pair on the loop over the first n, which itself succeeded |
| MessageLaws.WithHeaderSets | src/Message.php:198-208 | withHeader makes any casing of the name read the filtered values and records the name as given |
| MessageLaws.WithHeaderKeeps | src/Message.php:198-208 | withHeader leaves the values and display name of every other key as they were |
| MessageLaws.WithHeadersLastPairWins | src/Message.php:65-70 | after the loop the last pair's key holds that pair's values and name |
| MessageLaws.WithHeadersLaterPairKeeps | src/Message.php:65-70 | a later pair with another key does not disturb what an earlier pair stored |
| MessageLaws.WithHeadersLaterPairSkips | src/Message.php:65-70 | a last pair with another key leaves the lookup of a name as it was before that pair |
| MessageLaws.WithHeadersLastAccepted | src/Message.php:65-70 | the last pair of a successful header loop has an accepted name and value |
| MessageLaws.WithHeadersAccepted | src/Message.php:65-70 | a successful header loop had every pair accepted |
| MessageLaws.WithHeadersLastWins | src/Message.php:65-70 | each key ends up with the values and the name of the last pair with that key |
| MessageLaws.WithHeadersLastWinsBefore | src/Message.php:65-70 | a pair before the end that is the last for its key still holds its values and name at the end, because the later pairs have other keys |
| MessageLaws.WithHeadersHasNamed | src/Message.php:65-70 | every pair's name has a header after the loop |
| MessageLaws.WithHeadersKeepsOthers | src/Message.php:65-70 | a header no pair names is left as it was |
| MessageLaws.DefaultMessage | src/Message.php:49-51 | with no options the message is empty, at version "1.1", with the stream of "" as its body |
| MessageLaws.NewMessageRunsLoop | src/Message.php:47-73 | a constructed message's tables are those the header loop builds on an empty message |
| MessageLaws.NewMessageLastWins | src/Message.php:65-70 | for each key of the options the constructor stores the last pair's values and name |
| MessageLaws.NewMessageHasHeader | src/Message.php:65-70 | a constructed message has a header exactly when some pair of the options has that name in some casing |
| MessageLaws.WithHeaderDisplayName | src/Message.php:198-208 | after withHeader, getHeaders lists the header under the name just given, drops any other casing of it, and lists every other header as before |
| MessageLaws.WithHeaderLine | src/Message.php:104-111 | after withHeader, the header's line under any casing is the filtered values joined by ", " |
| MessageLaws.PairLine | src/Message.php:104-111 | two legal values set under a legal name are stored in order and read back as "a, b" |
| MessageLaws.AppendAfterSet | src/Message.php:158-174 | appending after withHeader gives the first values followed by the second, under the name withHeader used |
| MessageLaws.AppendExtendsLine | src/Message.php:168-171 | appending extends the header line by ", " and the joined new values |
| MessageLaws.RewriteEntry | src/Message.php:198-208 | rewriting a stored key with its own display name and its own stored list leaves the message unchanged |
| MessageLaws.RewriteIsIdentity | src/Message.php:198-208 | setting a header to its own values under its own display name gives back the same message |
| MessageLaws.WithoutUndoesEntry | src/Message.php:216-226 | when neither table has the key, withoutHeader after withHeader gives the message back |
| MessageLaws.WithoutUndoesWithHeader | src/Message.php:216-226 | withoutHeader undoes withHeader of a header that was absent |
| MessageLaws.WithoutAbsentHeader | src/Message.php:216-226 | removing an absent header changes nothing |
| MessageLaws.WithoutHeaderIdempotent | src/Message.php:216-226 | removing twice is removing once |
| MessageScenarios.ColonNameRefused | tests/MessageTest.php:295-306 | "x:test" is refused as a header name, with that name |
| MessageScenarios.TrailingLineFeedAccepted | src/Message.php:253 | "X-Test\n" passes the name filter and its key keeps the line feed |
| MessageScenarios.DoubleLineFeedRefused | src/Message.php:253 | a name ending in two line feeds is refused |
| MessageScenarios.InnerLineFeedRefused | src/Message.php:253 | a line feed inside a name is refused |
| MessageScenarios.NulValueRefused | tests/MessageTest.php:308-319 | on any message, a NUL value is refused by withHeader and by withAddedHeader, carrying the value |
| MessageScenarios.EmptyStringAndEmptyList | tests/MessageTest.php:284-293 | "" is stored as [""] while the empty list is EmptyHeaderValue |
| MessageScenarios.TestConstructor | tests/MessageTest.php:15-48 | the options of the constructor test build a message whose body is the stream of "test", whose header "test" reads ["value"] and whose version is "2.0" |
| MessageScenarios.ConstructorHeaderLoop | tests/MessageTest.php:19-21 | the header loop of the constructor test stores ["value"] under "test" |
| MessageScenarios.CaseInsensitiveLookup | src/Message.php:91-95 | a header set as "X-Test" is found as "x-test" and "X-TEST" and listed as "X-Test" |
| MessageScenarios.TwoValueLine | tests/MessageTest.php:100-112 | ["value1", "value2"] is stored in order and its line is "value1, value2" |
| MessageScenarios.ProtocolVersions | tests/MessageTest.php:339-361 | "2.0" replaces the version and "2.1" is refused |
| LooseVersions.FilterProtocolVersionAsWritten | src/Message.php:304-311 | the check as written accepts a version exactly when it loosely equals one of the three known versions, and returns it unchanged |
| LooseVersions.WithProtocolVersionAsWritten | src/Message.php:234-241 | withProtocolVersion on the check as written stores the given string verbatim when it passes |
| LooseVersions.LooseExtendsStrict | src/Message.php:306 | the loose and strict checks agree wherever the strict one accepts, and the loose one refuses only what the strict one refuses |
| LooseVersions.OnePointTenLooselyKnown | src/Message.php:306 | "1.10" loosely equals "1.1" |
| LooseVersions.LooseVersionBreaksValid | src/Message.php:306-310 | "1.10" is refused by the strict check but accepted and stored as written, leaving a message outside the invariant |
| LooseVersions.ParseTwoAndTwoPointZero | src/Message.php:306 | "2" reads as 2 and "2.0" as 20 tenths |
| LooseVersions.ParseSpacedOnePointOne | src/Message.php:306 | " 1.1" reads as 11 tenths, its leading space allowed |
| LooseVersions.TwoLooselyKnown | src/Message.php:306 | "2" loosely equals "2.0" |
| LooseVersions.SpacedOnePointOneLooselyKnown | src/Message.php:306 | " 1.1" loosely equals "1.1" |
| LooseVersions.TwoAccepted | src/Message.php:304-311 | "2" is refused by the strict check but accepted and returned as given by the check as written |
| LooseVersions.SpacedOnePointOneAccepted | src/Message.php:304-311 | " 1.1" is refused by the strict check but accepted and returned with its space by the check as written |

## Findings

| source | as written | input that shows it | evidently intended | confidence | as-written member | corrected member |
|---|---|---|---|---|---|---|
| src/Message.php:306 | `in_array($version, VALID_PROTOCOLS)` has no strict flag, so PHP 8 compares two numeric strings by value | "1.10" is accepted, and getProtocolVersion then returns "1.10"; likewise "2" and " 1.1" (LooseVersions.TwoAccepted, LooseVersions.SpacedOnePointOneAccepted), and by the same rule every numeric string of value 1.0, 1.1 or 2.0 | only the exact strings "1.0", "1.1" and "2.0" are accepted | high; not executed | LooseVersions.LooseVersionBreaksValid | Filters.FilterProtocolVersion |

The rest of the model uses the strict check: `Messages.NewMessage` and
`Messages.WithProtocolVersion` both call `Filters.FilterProtocolVersion`.
As a result, every message they build is `Valid`.

## Left out

- Filters.FilterProtocolVersion: the source compares loosely and so also accepts numeric strings equal in value to a known version. The model uses the strict test (see Findings). The as-written test is `LooseVersions.FilterProtocolVersionAsWritten`.
- LooseVersions.FilterProtocolVersionAsWritten: numbers are compared by exact decimal value, not as IEEE doubles. Strings with more than about 17 significant digits that only round to 1.1 are therefore not accepted here. Integer strings that overflow to float are treated the same way.
- Messages.NewMessage: three things are not modelled:
  - header names that PHP turns into integer array keys ("123"), which make `filterHeaderName` throw a TypeError under strict types;
  - a `headers` option that is not an array. `foreach` over a scalar only warns and skips the loop, so PHP builds a message with no headers; an object is iterated over its properties;
  - a non-string `protocolVersion`, which `filterProtocolVersion(string $version)` rejects with a TypeError under strict types.

  The headers option is a sequence of name/value pairs.
- Messages.OpenBody: `Stream::createFromString` is not part of this model; it is the parameter `fromString`. A Stringable object is given as its already-rendered text.
- Messages.GetHeaders: the order in which PHP lists the headers is not modelled. The result is a map.
- Float header values, and objects passed directly as a header value, are not modelled. The `(array)` cast would expose an object's properties, and floats would need PHP's float-to-string rules. Elements are strings, integers, or another type named by `gettype`.
- String keys inside a header value array are not modelled: a value is a list. In the source they matter. `array_map` keeps string keys (src/Message.php:276), so the stored array keeps them. The spread in `withAddedHeader` (src/Message.php:168-171) then overwrites a stored value that has the same string key instead of appending. For example, `withHeader('x', ['k' => 'a'])` followed by `withAddedHeader('x', ['k' => 'b'])` stores `['k' => 'b']`, and 'a' is lost. The model always appends, which is what happens for list arrays and for integer keys.
- Integers are unbounded, not PHP's 64-bit `int`. The decimal rendering is the same for every value PHP can hold.
- PHP strings are byte strings. Each Dafny character stands for one byte. `strtolower` is the ASCII-only mapping of PHP 8.2 and later, not the locale-dependent one of earlier versions.
- Exception messages are not modelled. Each error keeps the argument its factory receives, not the text it builds.
- Object identity is not modelled: `assertNotSame` on the returned clone has no counterpart for values.

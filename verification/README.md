# Smart-plug log publisher, modelled in Dafny

This project models `ThriftPublisher`, the worker of a load-generation client. Each
worker replays one smart-plug log file as a stream of events toward a WSO2 data
receiver. A worker does the following:

- It resolves its endpoint from system properties and hard-coded defaults: transport
  type, receiver and secure ports, URLs and credentials.
- It opens a `DataPublisher` and reads the file line by line.
- It splits each line at commas and converts the first seven fields into a payload:
  long, long, float, int, string, string, string.
- It publishes one event per line and increments the process-wide counter
  `ThriftClient.COUNT`. It reports each multiple of 100000.
- It shuts the `DataPublisher` down when the whole file has been published.

The modules follow the program's structure:

- `JavaSplit` (`java_split.dfy`) models `String.split(",")`.
- `JavaNumbers` (`java_numbers.dfy`) models `Long.parseLong`, `Integer.parseInt`,
  `Integer.toString` and the wrap-around of Java `int` arithmetic.
- `LineCodec` (`line_codec.dfy`) is the line decoder, with a reference encoder as its
  inverse.
- `EndpointConfig` (`endpoint_config.dfy`) is `getProperty` and the endpoint resolution
  at the start of `publish`.
- `Publisher` (`publisher.dfy`) holds the publishing loop, `publish` and `run`.
  `ThriftPublisher` is a class whose fields are constant; its methods update the
  `DataPublisher` they drive (`DataSink`) and the shared counter (`Progress`), two classes
  whose methods update their own fields. `Replay` and `Milestones`
  are the specification functions of the loop.
- `Wrappers` (`wrappers.dfy`) holds `Option` and `Result`.

Behaviour of the code worth noting:

- A line is not required to have exactly seven fields. With fewer than seven, the first
  missing element is an `ArrayIndexOutOfBoundsException` (`MissingField`). The values of
  fields after the seventh are never read. An empty seventh field counts as missing only
  when no non-empty field follows it, because `split` drops only trailing empty fields.
- The elements of the payload array are converted left to right. The error reported is
  therefore that of the first element that is missing or does not parse.
- A missing data file is detected only after the `DataPublisher` has been constructed.
  That `DataPublisher` is never shut down.
- `shutdown` runs only when `publishLogEvents` returns normally. A line that does not
  decode leaves the `DataPublisher` open.
- Parse failures are runtime exceptions. `run` catches only the checked exceptions of
  `publish`, so a parse failure escapes `run` and ends the worker's thread.
- A decode failure is reported with the 1-based number of the line that failed
  (`LineFailure`). That number is the model's own bookkeeping: Java's
  `NumberFormatException` carries only the offending text, and
  `ArrayIndexOutOfBoundsException` carries only the index.

## Model

| member | source | states |
|---|---|---|
| JavaSplit.Split | publisher/src/main/java/ThriftPublisher.java:72 | `String.split(",")`: a line without a comma is its only field; a line with a comma never yields an empty last field |
| JavaSplit.SplitFieldsHaveNoSep | publisher/src/main/java/ThriftPublisher.java:72 | no field of a split holds a comma |
| JavaSplit.StripTrailingEmpty | publisher/src/main/java/ThriftPublisher.java:72 | split keeps a prefix of the pieces that is empty or ends in a non-empty piece, and drops only empty pieces |
| JavaSplit.SplitAllPiecesHaveNoSep | publisher/src/main/java/ThriftPublisher.java:72 | no piece of a split holds a comma |
| JavaSplit.SplitAllNoSep | publisher/src/main/java/ThriftPublisher.java:72 | a string without commas is its own only piece |
| JavaSplit.SplitAllCons | publisher/src/main/java/ThriftPublisher.java:72 | splitting `p,rest` gives `p` followed by the pieces of `rest` |
| JavaSplit.JoinSplitAll | publisher/src/main/java/ThriftPublisher.java:72 | joining the pieces of a string with commas gives the string back |
| JavaSplit.SplitAllJoin | publisher/src/main/java/ThriftPublisher.java:72 | splitting comma-free pieces joined with commas gives the pieces back |
| JavaSplit.SplitKeepsPrefix | publisher/src/main/java/ThriftPublisher.java:72 | every piece up to a non-empty one survives the removal of trailing empty pieces |
| JavaSplit.SplitAllAppend | publisher/src/main/java/ThriftPublisher.java:72 | splitting `a,b` gives the pieces of `a` followed by the pieces of `b` |
| JavaSplit.SplitExtends | publisher/src/main/java/ThriftPublisher.java:72 | a line with at least two fields, followed by a comma and any text, splits into its own fields followed by more |
| JavaSplit.SplitDropsTrailingEmpty | publisher/src/main/java/ThriftPublisher.java:72 | a trailing comma does not change the split of a line that already has a comma |
| JavaSplit.SplitAllAppendSep | publisher/src/main/java/ThriftPublisher.java:72 | appending a comma adds exactly one empty piece at the end |
| JavaNumbers.Wrap32 | publisher/src/main/java/ThriftPublisher.java:119 | the two's-complement wrap of an exact result differs from it by a multiple of 2^32 |
| JavaNumbers.Wrap32InRange | publisher/src/main/java/ThriftPublisher.java:119 | a result inside the int range is unchanged by the wrap |
| JavaNumbers.Wrap32AddOne | publisher/src/main/java/ThriftPublisher.java:81 | adding one to a wrapped value and wrapping again is one wrapped addition |
| JavaNumbers.JavaRem | publisher/src/main/java/ThriftPublisher.java:82 | Java's int `%` by a positive divisor: the mathematical remainder for a non-negative dividend, and a value in (-b, 0], never positive, for a negative one; `IsMilestone` tests it against zero |
| JavaNumbers.AddInt32 | publisher/src/main/java/ThriftPublisher.java:119 | Java's int `+`: the exact sum when it is in the int range, otherwise the sum moved by 2^32 |
| JavaNumbers.AddInt32Wraps | publisher/src/main/java/ThriftPublisher.java:119 | Java's int `+` (the sum, brought back by 2^32 when it leaves the range) is the two's-complement wrap of the exact sum |
| JavaNumbers.ParseDecimal | publisher/src/main/java/ThriftPublisher.java:74-75 | an accepted value lies in [lo, hi] |
| JavaNumbers.DigitsValueLeadingZeros | publisher/src/main/java/ThriftPublisher.java:74-75 | leading zeros do not change the value of a digit string |
| JavaNumbers.SkipZeros | publisher/src/main/java/ThriftPublisher.java:74-75 | the first digit after the leading zeros of a digit string: only zeros come before it, it always lies inside the string, and it is not a zero unless it is the last digit |
| JavaNumbers.NoLeadingZeroCanonical | publisher/src/main/java/ThriftPublisher.java:74-75 | a digit string without a leading zero is the shortest spelling of its value |
| JavaNumbers.DigitsCanonical | publisher/src/main/java/ThriftPublisher.java:74-75 | every digit string is zeros followed by the shortest digits of its value |
| JavaNumbers.ParseDecimalDigits | publisher/src/main/java/ThriftPublisher.java:74-75 | helper of `ParseDecimalAccepted`: unfolds what the parser checks; an accepted text is an optional sign and at least one digit, and its value is that of the digits, negated after `-` |
| JavaNumbers.ParseDecimalSigned | publisher/src/main/java/ThriftPublisher.java:74-75 | a sign followed by digits parses to their value, negated after `-`, exactly when that value is in range |
| JavaNumbers.ParseDecimalAccepted | publisher/src/main/java/ThriftPublisher.java:74-75 | every accepted text is an optional sign (`-` only for a value that is not positive, and always for a negative one), then digits only: leading zeros, then the shortest digits of the value's magnitude |
| JavaNumbers.ParseDecimalSpelled | publisher/src/main/java/ThriftPublisher.java:74-75 | conversely, a sign, zeros and the digits of n parse to n or -n exactly when that value is in range, and fail otherwise |
| JavaNumbers.ParseLong | publisher/src/main/java/ThriftPublisher.java:74 | `Long.parseLong` accepts only values in the long range |
| JavaNumbers.ParseInt | publisher/src/main/java/ThriftPublisher.java:75 | `Integer.parseInt`: the decimal grammar at the int bounds, so it accepts only int-range values, with the value the grammar gives |
| JavaNumbers.ParseIntIsParseLongInRange | publisher/src/main/java/ThriftPublisher.java:75 | `Integer.parseInt` accepts exactly the texts `Long.parseLong` reads as a value in the int range, with the same value |
| JavaNumbers.NatToDecimal | publisher/src/main/java/ThriftPublisher.java:121-122 | the decimal form of a natural number is a non-empty string of digits |
| JavaNumbers.NatToDecimalLeadingDigit | publisher/src/main/java/ThriftPublisher.java:121-122 | the decimal form of a natural number starts with `0` only for zero |
| JavaNumbers.ToDecimal | publisher/src/main/java/ThriftPublisher.java:121-122 | an int printed by string concatenation is digits, preceded by `-` exactly when negative, with no leading zero except for zero itself |
| JavaNumbers.DigitsValueOfNatToDecimal | publisher/src/main/java/ThriftPublisher.java:121-122 | the digits printed for n have the value n |
| JavaNumbers.ParseDecimalToDecimal | publisher/src/main/java/ThriftPublisher.java:74-75 | parsing a printed number gives it back exactly when it is in range, and fails otherwise |
| JavaNumbers.ParseLongToDecimal | publisher/src/main/java/ThriftPublisher.java:74 | `Long.parseLong` inverts printing for every long, and rejects every other number |
| JavaNumbers.ParseIntToDecimal | publisher/src/main/java/ThriftPublisher.java:75 | `Integer.parseInt` inverts printing for every int, and rejects every other number |
| JavaNumbers.ParseRejectsMalformed | publisher/src/main/java/ThriftPublisher.java:74-75 | the empty string, a lone sign, a leading blank and a trailing letter do not parse |
| LineCodec.Field | publisher/src/main/java/ThriftPublisher.java:73-77 | payload element k succeeds exactly when field k exists and its parser accepts it; its value is what that parser makes of the text; otherwise the error names k as missing or not a number |
| LineCodec.DecodeFrom | publisher/src/main/java/ThriftPublisher.java:73-77 | elements k..6 convert exactly when each exists and parses; each value denotes its field; a failure names the first element that is missing or unparsable, and all before it convert |
| LineCodec.Decode | publisher/src/main/java/ThriftPublisher.java:72-77 | a line decodes exactly when its split has at least seven fields and each of the first seven parses; the seven values denote those fields; a failure names the first bad element |
| LineCodec.DecimalHasNoSep | publisher/src/main/java/ThriftPublisher.java:72 | a printed number holds no comma |
| LineCodec.ColumnsHaveNoSep | publisher/src/main/java/ThriftPublisher.java:72 | no column of an encodable reading holds a comma |
| JavaSplit.SplitAllJoinThen | publisher/src/main/java/ThriftPublisher.java:72 | splitting joined columns followed by a comma and more text gives the columns, then the pieces of that text |
| LineCodec.FieldOfColumn | publisher/src/main/java/ThriftPublisher.java:74-76 | a column written for a reading converts back to the matching payload element |
| LineCodec.DecodeColumns | publisher/src/main/java/ThriftPublisher.java:73-77 | fields whose first seven are a reading's columns decode to that reading's payload |
| LineCodec.DecodeEncode | publisher/src/main/java/ThriftPublisher.java:72-77 | round trip: decoding the line written for an encodable reading gives its payload |
| LineCodec.DecodeFromAgrees | publisher/src/main/java/ThriftPublisher.java:73-77 | elements k..6 of the payload depend only on fields k..6: two field lists that agree there convert alike |
| LineCodec.DecodeIgnoresExtraFields | publisher/src/main/java/ThriftPublisher.java:72-77 | any line that decodes, followed by a comma and any text, decodes to the same payload |
| LineCodec.DecodeSixColumns | publisher/src/main/java/ThriftPublisher.java:73-76 | six valid fields fail with element 6 missing |
| LineCodec.DecodeRejectsEmptyLastField | publisher/src/main/java/ThriftPublisher.java:72-76 | six valid fields, the sixth non-empty, followed by a trailing comma fail with element 6 missing, because split drops the empty seventh field |
| LineCodec.DecodeRejectsSingleField | publisher/src/main/java/ThriftPublisher.java:72-74 | a line without commas fails at element 1 as missing when it is a long, and at element 0 as not a number otherwise |
| EndpointConfig.GetProperty | publisher/src/main/java/ThriftPublisher.java:98-104 | a property that is set and non-empty wins; an unset or empty one gives the default |
| EndpointConfig.Resolve | publisher/src/main/java/ThriftPublisher.java:114-124 | the transport type defaults to Thrift; the receiver port is 9611 for Binary and the given port otherwise; the secure port is receiver port + 100 in int arithmetic; the URLs default to tcp://host:receiverPort and ssl://host:securePort; the credentials default to admin |
| EndpointConfig.DecimalHasNoColon | publisher/src/main/java/ThriftPublisher.java:121-122 | a printed port holds no colon |
| EndpointConfig.LastIndexOfSplit | publisher/src/main/java/ThriftPublisher.java:121-122 | the last colon of host:digits is the one before the digits |
| EndpointConfig.AddressParts | publisher/src/main/java/ThriftPublisher.java:121-122 | in scheme://host:digits, the last colon ends the host and the digits follow it |
| EndpointConfig.AddressRoundTrip | publisher/src/main/java/ThriftPublisher.java:121-122 | an address built from a host and an int port reads back as that host and port |
| EndpointConfig.DefaultUrlNamesReceiver | publisher/src/main/java/ThriftPublisher.java:121 | unless overridden, the data URL is a tcp address of the host and the receiver port |
| EndpointConfig.DefaultAuthUrlNamesSecurePort | publisher/src/main/java/ThriftPublisher.java:122 | unless overridden, the authentication URL is an ssl address of the host and the secure port |
| EndpointConfig.SecurePortWraps | publisher/src/main/java/ThriftPublisher.java:119 | the secure port is the two's-complement wrap of receiver port + 100 |
| EndpointConfig.ResolveDefaults | publisher/src/main/java/ThriftPublisher.java:114-124 | with no properties set and a port that does not overflow when 100 is added: Thrift, the given port, port + 100, tcp://host:port, ssl://host:port+100, admin/admin |
| EndpointConfig.BinaryTransportPorts | publisher/src/main/java/ThriftPublisher.java:116-119 | the Binary transport uses ports 9611 and 9711 whatever port was given |
| Publisher.Replay | publisher/src/main/java/ThriftPublisher.java:69-80 | a file yields at most one event per line, one per line when nothing fails, and a failure names the line after the last event |
| Publisher.ReplayCharacterized | publisher/src/main/java/ThriftPublisher.java:69-80 | the events are those of the longest prefix of lines that all decode, in file order, each built from its line's payload; the failure names the first line that does not decode, with its error; there is no failure exactly when every line decodes |
| Publisher.ReplayStep | publisher/src/main/java/ThriftPublisher.java:69-80 | one more line adds its event, or becomes the failure |
| Publisher.ReplayStopsAtFailure | publisher/src/main/java/ThriftPublisher.java:72-77 | once a line has failed, the lines after it change nothing |
| Publisher.ReplayEventsShape | publisher/src/main/java/ThriftPublisher.java:73-79 | every event carries the given stream id, the single tag "electricityConsumption", no correlation data and seven payload elements |
| Publisher.IsMilestone | publisher/src/main/java/ThriftPublisher.java:82 | Java's remainder by 100000 is zero exactly for the multiples of 100000, negative ones included |
| Publisher.Advance | publisher/src/main/java/ThriftPublisher.java:81 | without overflow, n increments of the counter add n |
| Publisher.Milestones | publisher/src/main/java/ThriftPublisher.java:81-84 | n increments report at most n values, each a multiple of 100000 |
| Publisher.AdvanceWraps | publisher/src/main/java/ThriftPublisher.java:81 | n increments of the int counter add n with two's-complement wrap-around |
| Publisher.MilestonesCounted | publisher/src/main/java/ThriftPublisher.java:81-84 | without overflow, n increments from c report exactly the multiples of 100000 in (c, c+n], in increasing order, and (c+n)/100000 - c/100000 of them |
| Publisher.FirstMilestone | publisher/src/main/java/ThriftPublisher.java:81-84 | from zero, nothing is reported before the 100000th event, and exactly [100000] after it |
| Publisher.DataSink.constructor | publisher/src/main/java/ThriftPublisher.java:126 | a new DataPublisher holds the resolved endpoint, has published nothing and is open |
| Publisher.DataSink.Publish | publisher/src/main/java/ThriftPublisher.java:80 | publishing appends the event and leaves the shut-down state alone |
| Publisher.DataSink.Shutdown | publisher/src/main/java/ThriftPublisher.java:134 | shutting down keeps the published events |
| Publisher.Progress.constructor | publisher/src/main/java/ThriftClient.java:12 | the counter starts at zero with nothing reported |
| Publisher.Progress.Increment | publisher/src/main/java/ThriftPublisher.java:81-84 | the counter goes up by one in int arithmetic, and the new value is reported exactly when it is a multiple of 100000 |
| Publisher.ThriftPublisher.constructor | publisher/src/main/java/ThriftPublisher.java:27-31 | the worker keeps its host, port and data file |
| Publisher.ThriftPublisher.PublishLogEvents | publisher/src/main/java/ThriftPublisher.java:66-96 | a missing file throws FileNotFoundException and changes nothing; otherwise the published events are those of Replay, the counter advances once per event, the reports are the milestones crossed, and the first undecodable line is thrown |
| Publisher.ThriftPublisher.Publish | publisher/src/main/java/ThriftPublisher.java:106-135 | a constructor failure is thrown with no DataPublisher; otherwise the DataPublisher gets the resolved endpoint and the file's events; it is shut down exactly when nothing was thrown |
| Publisher.CaughtByRun | publisher/src/main/java/ThriftPublisher.java:37-48 | `run` catches the endpoint exceptions and FileNotFoundException, that is everything but a decode failure |
| Publisher.ThriftPublisher.Run | publisher/src/main/java/ThriftPublisher.java:33-50 | the checked exceptions are caught; only a decode failure escapes, and then the DataPublisher stays open |

## Left out

- The WSO2 data-bridge library: `DataPublisher` is a sink that records events and a
  shut-down flag. Asynchronous sending, queueing and per-call transport failures are not
  modelled.
- The exceptions of the `DataPublisher` constructor come from a parameter (`connect`),
  because the connection and authentication happen in the library.
- `DataBridgeCommonsUtils.generateStreamId`: the stream id is kept as the pair of stream
  name and version.
- `AgentHolder.setConfigPath` and `getDataAgentConfigPath` probe the file system for a
  configuration file and are not modelled.
- `Float.parseFloat` is a parameter (`isFloat`) that says which texts it accepts. The
  float element keeps its text, not a floating-point value.
- JavaNumbers.ParseDecimal: accepts only the ASCII digits `0`-`9`. Java also accepts other
  Unicode decimal digits.
- Reading the file through `Scanner` is not modelled. The file system is a map from path
  to lines, so line terminators, I/O errors that `Scanner` swallows, and `close` are out.
- The event timestamp (`System.currentTimeMillis`) is not modelled. At a milestone, the
  date and used memory that are printed are not modelled either; the report records the
  counter value.
- `Thread.sleep(2000)` before shutdown and its `InterruptedException` are not modelled.
- `printStackTrace` in `run` is not modelled. Only which exceptions are caught is.
- Concurrency: `COUNT` is a `volatile int` shared by every worker, and `COUNT++` is not
  atomic. The model updates one `Progress` object from one worker at a time, so lost
  updates and missed milestones under interleaving are not modelled.
- `defaultThriftPort` (7611) is declared but never used by the code.
- publisher/src/main/java/ThriftClient.java is not part of this model. It starts one
  worker per file; only its `COUNT` field is modelled.

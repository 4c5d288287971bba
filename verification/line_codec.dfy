/**
 * The per-line decoder of ThriftPublisher.publishLogEvents: a comma-separated line
 * becomes a seven-value payload (long, long, float, int, string, string, string).
 */
module LineCodec {
  import opened Wrappers
  import opened JavaSplit
  import opened JavaNumbers

  /** One payload element; the float of field 2 is kept as its text. */
  datatype Value = Long(l: int) | Float(token: string) | Int(i: int) | Text(s: string)

  /**
   * Why a line cannot be decoded: the split array has no element at `index`
   * (ArrayIndexOutOfBoundsException) or the element does not parse (NumberFormatException).
   */
  datatype DecodeError = MissingField(index: nat) | NotANumber(index: nat)

  const PAYLOAD_SIZE: nat := 7

  /** Whether the text of field k is accepted by the parser Java applies to that field. */
  predicate FieldOk(text: string, k: nat, isFloat: string -> bool) {
    if k < 2 then ParseLong(text).Some?
    else if k == 2 then isFloat(text)
    else if k == 3 then ParseInt(text).Some?
    else true
  }

  /** Element k of the split line exists and its parser accepts it. */
  predicate Convertible(f: seq<string>, k: nat, isFloat: string -> bool) {
    k < |f| && FieldOk(f[k], k, isFloat)
  }

  /** v is what the parser for field k makes of text. */
  predicate Denotes(v: Value, text: string, k: nat) {
    if k < 2 then v.Long? && ParseLong(text) == Some(v.l)
    else if k == 2 then v == Float(text)
    else if k == 3 then v.Int? && ParseInt(text) == Some(v.i)
    else v == Text(text)
  }

  /** separatedEntries[k] passed through the conversion of payload element k. */
  function Field(f: seq<string>, k: nat, isFloat: string -> bool): (r: Result<Value, DecodeError>)
    ensures r.Success? <==> Convertible(f, k, isFloat)
    ensures r.Success? ==> Denotes(r.value, f[k], k)
    ensures r.Failure? ==> r.error == if k < |f| then NotANumber(k) else MissingField(k)
  {
    if k >= |f| then Failure(MissingField(k))
    else if k < 2 then
      match ParseLong(f[k])
      case Some(x) => Success(Long(x))
      case None => Failure(NotANumber(k))
    else if k == 2 then
      if isFloat(f[k]) then Success(Float(f[k])) else Failure(NotANumber(k))
    else if k == 3 then
      match ParseInt(f[k])
      case Some(x) => Success(Int(x))
      case None => Failure(NotANumber(k))
    else Success(Text(f[k]))
  }

  /**
   * Payload elements k..6 of the split line f, converted left to right: the error
   * reported is that of the first element that is missing or does not parse.
   */
  function DecodeFrom(f: seq<string>, k: nat, isFloat: string -> bool): (r: Result<seq<Value>, DecodeError>)
    requires k <= PAYLOAD_SIZE
    decreases PAYLOAD_SIZE - k
    ensures r.Success? <==> forall j: nat :: k <= j < PAYLOAD_SIZE ==> Convertible(f, j, isFloat)
    ensures r.Success? ==>
      && |r.value| == PAYLOAD_SIZE - k
      && (k < PAYLOAD_SIZE ==> |f| >= PAYLOAD_SIZE)
      && forall i :: 0 <= i < |r.value| ==> Denotes(r.value[i], f[k + i], k + i)
    ensures r.Failure? ==>
      && k <= r.error.index < PAYLOAD_SIZE
      && (forall j: nat :: k <= j < r.error.index ==> Convertible(f, j, isFloat))
      && r.error == (if r.error.index < |f| then NotANumber(r.error.index) else MissingField(r.error.index))
      && (r.error.index < |f| ==> !FieldOk(f[r.error.index], r.error.index, isFloat))
  {
    if k == PAYLOAD_SIZE then Success([])
    else
      var head := Field(f, k, isFloat);
      if head.Failure? then
        Failure(head.error)
      else
        var rest := DecodeFrom(f, k + 1, isFloat);
        if rest.Failure? then Failure(rest.error)
        else
          var values := [head.value] + rest.value;
          assert forall i :: 1 <= i < |values| ==> values[i] == rest.value[i - 1];
          Success(values)
  }

  /**
   * Decodes one line: split at commas, then the seven payload elements in order;
   * the values of fields after the seventh are never read.
   */
  function Decode(line: string, isFloat: string -> bool): (r: Result<seq<Value>, DecodeError>)
    ensures var f := Split(line);
      r.Success? <==> forall k: nat :: k < PAYLOAD_SIZE ==> Convertible(f, k, isFloat)
    ensures var f := Split(line);
      r.Success? ==> |f| >= PAYLOAD_SIZE && |r.value| == PAYLOAD_SIZE && forall k: nat :: k < PAYLOAD_SIZE ==> Denotes(r.value[k], f[k], k)
    ensures var f := Split(line);
      r.Failure? ==>
        && r.error.index < PAYLOAD_SIZE
        && (forall j: nat :: j < r.error.index ==> Convertible(f, j, isFloat))
        && (r.error.MissingField? <==> r.error.index >= |f|)
        && (r.error.NotANumber? ==> !FieldOk(f[r.error.index], r.error.index, isFloat))
  {
    DecodeFrom(Split(line), 0, isFloat)
  }

  /** One record of a smart-plug log, as the columns of a well-formed line hold it. */
  datatype Reading = Reading(f0: int, f1: int, f2: string, f3: int, f4: string, f5: string, f6: string)

  /** A reading that can be written as a line the decoder reads back. */
  predicate Encodable(rec: Reading, isFloat: string -> bool) {
    && LONG_MIN <= rec.f0 <= LONG_MAX
    && LONG_MIN <= rec.f1 <= LONG_MAX
    && INT_MIN <= rec.f3 <= INT_MAX
    && isFloat(rec.f2)
    && SEP !in rec.f2 && SEP !in rec.f4 && SEP !in rec.f5 && SEP !in rec.f6
    && rec.f6 != ""
  }

  function Columns(rec: Reading): (cols: seq<string>)
    ensures |cols| == PAYLOAD_SIZE
  {
    [ToDecimal(rec.f0), ToDecimal(rec.f1), rec.f2, ToDecimal(rec.f3), rec.f4, rec.f5, rec.f6]
  }

  /** The reference writer of log lines: the seven columns joined by commas. */
  function Encode(rec: Reading): string {
    Join(Columns(rec))
  }

  function Payload(rec: Reading): (p: seq<Value>)
    ensures |p| == PAYLOAD_SIZE
  {
    [Long(rec.f0), Long(rec.f1), Float(rec.f2), Int(rec.f3), Text(rec.f4), Text(rec.f5), Text(rec.f6)]
  }

  lemma DecimalHasNoSep(n: int)
    ensures SEP !in ToDecimal(n)
  {
    var s := ToDecimal(n);
    assert forall k :: 0 <= k < |s| ==> s[k] != SEP;
  }

  lemma ColumnsHaveNoSep(rec: Reading, isFloat: string -> bool)
    requires Encodable(rec, isFloat)
    ensures forall k: nat :: k < PAYLOAD_SIZE ==> SEP !in Columns(rec)[k]
  {
    DecimalHasNoSep(rec.f0);
    DecimalHasNoSep(rec.f1);
    DecimalHasNoSep(rec.f3);
  }

  /** Field k of the columns of rec converts to element k of rec's payload. */
  lemma FieldOfColumn(f: seq<string>, rec: Reading, k: nat, isFloat: string -> bool)
    requires Encodable(rec, isFloat)
    requires k < PAYLOAD_SIZE && k < |f| && f[k] == Columns(rec)[k]
    ensures Field(f, k, isFloat) == Success(Payload(rec)[k])
  {
    if k == 0 {
      ParseLongToDecimal(rec.f0);
    } else if k == 1 {
      ParseLongToDecimal(rec.f1);
    } else if k == 3 {
      ParseIntToDecimal(rec.f3);
    }
  }

  /** Split fields whose first seven are the columns of rec decode to rec's payload from k on. */
  lemma {:induction false} DecodeColumns(f: seq<string>, rec: Reading, k: nat, isFloat: string -> bool)
    requires Encodable(rec, isFloat)
    requires k <= PAYLOAD_SIZE <= |f|
    requires forall j :: k <= j < PAYLOAD_SIZE ==> f[j] == Columns(rec)[j]
    ensures DecodeFrom(f, k, isFloat) == Success(Payload(rec)[k..])
    decreases PAYLOAD_SIZE - k
  {
    if k < PAYLOAD_SIZE {
      var p := Payload(rec);
      FieldOfColumn(f, rec, k, isFloat);
      assert Field(f, k, isFloat) == Success(p[k]);
      DecodeColumns(f, rec, k + 1, isFloat);
      assert DecodeFrom(f, k + 1, isFloat) == Success(p[k + 1..]);
      assert DecodeFrom(f, k, isFloat) == Success([p[k]] + p[k + 1..]);
      assert p[k..] == [p[k]] + p[k + 1..];
    }
  }

  /** Round trip: decoding the line written for a reading gives that reading's payload. */
  lemma DecodeEncode(rec: Reading, isFloat: string -> bool)
    requires Encodable(rec, isFloat)
    ensures Decode(Encode(rec), isFloat) == Success(Payload(rec))
  {
    var line := Encode(rec);
    ColumnsHaveNoSep(rec, isFloat);
    SplitAllJoin(Columns(rec));
    assert line[|ToDecimal(rec.f0)|] == SEP;
    SplitKeepsPrefix(line, 6);
    DecodeColumns(Split(line), rec, 0, isFloat);
  }

  /** Payload elements k..6 depend only on fields k..6, once both lists have seven fields. */
  lemma {:induction false} DecodeFromAgrees(f: seq<string>, g: seq<string>, k: nat, isFloat: string -> bool)
    requires k <= PAYLOAD_SIZE <= |f| && PAYLOAD_SIZE <= |g|
    requires forall j :: k <= j < PAYLOAD_SIZE ==> f[j] == g[j]
    ensures DecodeFrom(f, k, isFloat) == DecodeFrom(g, k, isFloat)
    decreases PAYLOAD_SIZE - k
  {
    if k < PAYLOAD_SIZE {
      assert Field(f, k, isFloat) == Field(g, k, isFloat) by {
        assert f[k] == g[k];
      }
      DecodeFromAgrees(f, g, k + 1, isFloat);
    }
  }

  /**
   * Text after a line that decodes, behind a comma, is never read: the longer line
   * decodes to the same payload, whatever the text holds.
   */
  lemma DecodeIgnoresExtraFields(line: string, rest: string, isFloat: string -> bool)
    requires Decode(line, isFloat).Success?
    ensures Decode(line + [SEP] + rest, isFloat) == Decode(line, isFloat)
  {
    var f := Split(line);
    assert |f| >= PAYLOAD_SIZE;
    SplitExtends(line, rest);
    var g := Split(line + [SEP] + rest);
    assert forall j :: 0 <= j < PAYLOAD_SIZE ==> f[j] == g[..|f|][j];
    DecodeFromAgrees(f, g, 0, isFloat);
  }

  /** Six split fields that are the first six columns of rec lack payload element 6. */
  lemma {:induction false} DecodeSixColumns(f: seq<string>, rec: Reading, k: nat, isFloat: string -> bool)
    requires Encodable(rec, isFloat)
    requires k < PAYLOAD_SIZE && |f| == PAYLOAD_SIZE - 1
    requires forall j :: k <= j < |f| ==> f[j] == Columns(rec)[j]
    ensures DecodeFrom(f, k, isFloat) == Failure(MissingField(PAYLOAD_SIZE - 1))
    decreases PAYLOAD_SIZE - k
  {
    if k < PAYLOAD_SIZE - 1 {
      FieldOfColumn(f, rec, k, isFloat);
      DecodeSixColumns(f, rec, k + 1, isFloat);
    }
  }

  /**
   * Six valid fields, the sixth non-empty, followed by a trailing comma are rejected:
   * split drops the empty seventh field, so element 6 of the payload is missing.
   */
  lemma DecodeRejectsEmptyLastField(rec: Reading, isFloat: string -> bool)
    requires Encodable(rec, isFloat) && rec.f5 != ""
    ensures Decode(Join(Columns(rec)[..6]) + [SEP], isFloat) == Failure(MissingField(6))
  {
    var parts := Columns(rec)[..6];
    var line := Join(parts) + [SEP];
    ColumnsHaveNoSep(rec, isFloat);
    SplitAllJoinThen(parts, "");
    assert line == Join(parts) + [SEP] + "";
    assert SplitAll(line) == parts + [""];
    assert line[|line| - 1] == SEP;
    SplitKeepsPrefix(line, 5);
    assert Split(line) == parts;
    DecodeSixColumns(parts, rec, 0, isFloat);
  }

  /** A line with no comma at all is one field: the second long is missing (or the first is bad). */
  lemma DecodeRejectsSingleField(line: string, isFloat: string -> bool)
    requires SEP !in line
    ensures Decode(line, isFloat) == Failure(if ParseLong(line).Some? then MissingField(1) else NotANumber(0))
  {
    assert Split(line) == [line];
  }
}

/**
 * ThriftPublisher: one worker that resolves its endpoint, opens a DataPublisher, replays
 * its data file line by line as events, counts them in the process-wide counter with a
 * report every 100000 events, and shuts the DataPublisher down when the file is done.
 */
module Publisher {
  import opened Wrappers
  import opened JavaNumbers
  import opened LineCodec
  import opened EndpointConfig

  const DATA_STREAM: string := "SmartPlugsDataStream"
  const VERSION: string := "1.0.0"
  const CATEGORY: string := "electricityConsumption"
  const MILESTONE: nat := 100000

  /** The stream id the transport library derives from a stream name and version, kept opaque. */
  datatype StreamId = StreamId(name: string, version: string)

  const SMART_PLUGS_STREAM: StreamId := StreamId(DATA_STREAM, VERSION)

  /** An event as handed to the DataPublisher; the arrival timestamp is not modelled. */
  datatype Event = Event(
    streamId: StreamId,
    metaData: seq<string>,
    correlationData: Option<seq<Value>>,
    payloadData: seq<Value>)

  /** A line decoder: Decode with a given Float.parseFloat acceptance, or any other. */
  type Decoder = string -> Result<seq<Value>, DecodeError>

  function LineDecoder(isFloat: string -> bool): Decoder {
    line => Decode(line, isFloat)
  }

  /** A line (numbered from 1) that could not be decoded, and why. */
  datatype LineFailure = LineFailure(line: nat, cause: DecodeError)

  /** The events a file yields, and the line that stopped it, if any. */
  datatype Replayed = Replayed(events: seq<Event>, failure: Option<LineFailure>)

  /**
   * What the publishing loop makes of a file: lines are decoded in order and each
   * yields one event, until the first line that does not decode stops everything.
   */
  function Replay(lines: seq<string>, streamId: StreamId, decode: Decoder): (r: Replayed)
    ensures |r.events| <= |lines|
    ensures r.failure.None? ==> |r.events| == |lines|
    ensures r.failure.Some? ==> r.failure.value.line == |r.events| + 1
  {
    if lines == [] then Replayed([], None)
    else
      var prev := Replay(lines[..|lines| - 1], streamId, decode);
      if prev.failure.Some? then prev
      else
        match decode(lines[|lines| - 1])
        case Failure(e) => Replayed(prev.events, Some(LineFailure(|lines|, e)))
        case Success(payload) => Replayed(prev.events + [Event(streamId, [CATEGORY], None, payload)], None)
  }

  /**
   * Replay in closed form: the events are those of the longest prefix of lines that
   * all decode, one per line and in file order; a failure names the first line that
   * does not decode, with its error; there is no failure exactly when every line decodes.
   */
  lemma {:induction false} ReplayCharacterized(lines: seq<string>, streamId: StreamId, decode: Decoder)
    ensures var r := Replay(lines, streamId, decode);
      && (forall j :: 0 <= j < |r.events| ==>
            decode(lines[j]).Success? && r.events[j] == Event(streamId, [CATEGORY], None, decode(lines[j]).value))
      && (r.failure.None? <==> forall j :: 0 <= j < |lines| ==> decode(lines[j]).Success?)
      && (r.failure.Some? ==>
            var n := |r.events|;
            n < |lines| && decode(lines[n]).Failure? && r.failure.value == LineFailure(n + 1, decode(lines[n]).error))
  {
    if lines != [] {
      var init := lines[..|lines| - 1];
      ReplayCharacterized(init, streamId, decode);
      assert forall j :: 0 <= j < |init| ==> init[j] == lines[j];
    }
  }

  /** One more line: a failure stays, otherwise the line adds its event or becomes the failure. */
  lemma ReplayStep(lines: seq<string>, i: nat, streamId: StreamId, decode: Decoder)
    requires 1 <= i <= |lines|
    requires Replay(lines[..i - 1], streamId, decode).failure.None?
    ensures var d := decode(lines[i - 1]);
      var prev := Replay(lines[..i - 1], streamId, decode).events;
      Replay(lines[..i], streamId, decode) ==
        if d.Failure? then Replayed(prev, Some(LineFailure(i, d.error)))
        else Replayed(prev + [Event(streamId, [CATEGORY], None, d.value)], None)
  {
    assert lines[..i][..i - 1] == lines[..i - 1];
  }

  /** Once a prefix of the file has failed, the rest of the file changes nothing. */
  lemma {:induction false} ReplayStopsAtFailure(lines: seq<string>, k: nat, streamId: StreamId, decode: Decoder)
    requires k <= |lines|
    requires Replay(lines[..k], streamId, decode).failure.Some?
    ensures Replay(lines, streamId, decode) == Replay(lines[..k], streamId, decode)
    decreases |lines| - k
  {
    if k < |lines| {
      assert lines[..k + 1][..k] == lines[..k];
      ReplayStopsAtFailure(lines, k + 1, streamId, decode);
    } else {
      assert lines[..k] == lines;
    }
  }

  /** Every event of a file carries the same stream id, the one category tag and no correlation data. */
  lemma ReplayEventsShape(lines: seq<string>, streamId: StreamId, isFloat: string -> bool)
    ensures forall ev :: ev in Replay(lines, streamId, LineDecoder(isFloat)).events ==>
      && ev.streamId == streamId
      && ev.metaData == ["electricityConsumption"]
      && ev.correlationData.None?
      && |ev.payloadData| == 7
  {
    ReplayCharacterized(lines, streamId, LineDecoder(isFloat));
  }

  /**
   * Whether the counter value just reached is reported: Java's remainder by 100000 is
   * zero, which happens exactly for the multiples of 100000, negative ones included.
   */
  function IsMilestone(count: int): (r: bool)
    ensures r <==> count % MILESTONE == 0
  {
    JavaRem(count, MILESTONE) == 0
  }

  /** The counter, a Java int, after n increments from start. */
  function Advance(start: Int32, n: nat): (r: Int32)
    ensures start + n <= INT_MAX ==> r == start + n
  {
    if n == 0 then start else AddInt32(Advance(start, n - 1), 1)
  }

  /** n increments add n with two's-complement wrap-around. */
  lemma {:induction false} AdvanceWraps(start: Int32, n: nat)
    ensures Advance(start, n) == Wrap32(start + n)
  {
    if n == 0 {
      Wrap32InRange(start);
    } else {
      AdvanceWraps(start, n - 1);
      AddInt32Wraps(Advance(start, n - 1), 1);
      Wrap32AddOne(start + (n - 1));
    }
  }

  /** The counter values reported while the counter is incremented n times from start. */
  function Milestones(start: Int32, n: nat): (ms: seq<Int32>)
    ensures |ms| <= n
    ensures forall k :: 0 <= k < |ms| ==> IsMilestone(ms[k])
  {
    if n == 0 then []
    else
      var reached := Advance(start, n);
      Milestones(start, n - 1) + (if IsMilestone(reached) then [reached] else [])
  }

  /**
   * Without overflow, counting n events from start reports exactly the multiples of
   * 100000 in (start, start + n], in increasing order: (start + n) / 100000 - start / 100000 of them.
   */
  lemma {:induction false} MilestonesCounted(start: Int32, n: nat)
    requires 0 <= start && start + n <= INT_MAX
    ensures var ms := Milestones(start, n);
      && |ms| == (start + n) / MILESTONE - start / MILESTONE
      && (forall k :: 0 <= k < |ms| ==> IsMilestone(ms[k]) && start < ms[k] <= start + n)
      && (forall k :: 0 < k < |ms| ==> ms[k - 1] < ms[k])
  {
    if n > 0 {
      MilestonesCounted(start, n - 1);
      var v := start + n;
      var q := (v - 1) / MILESTONE;
      assert v - 1 == q * MILESTONE + (v - 1) % MILESTONE;
      if (v - 1) % MILESTONE == MILESTONE - 1 {
        assert v == (q + 1) * MILESTONE;
        assert v / MILESTONE == q + 1;
      } else {
        assert v == q * MILESTONE + ((v - 1) % MILESTONE + 1);
        assert v / MILESTONE == q;
      }
    }
  }

  /** Starting from zero, the first report comes with the 100000th event and only then. */
  lemma FirstMilestone(n: nat)
    requires n <= INT_MAX
    ensures |Milestones(0, n)| == 0 <==> n < MILESTONE
    ensures n == MILESTONE ==> Milestones(0, n) == [MILESTONE as Int32]
  {
    MilestonesCounted(0, n);
  }

  /** The checked exceptions DataPublisher's constructor may throw. */
  datatype EndpointError =
    | AuthenticationError
    | AgentConfigurationError
    | TransportError
    | DataEndpointError
    | ConfigurationError

  /** An exception that leaves publish. */
  datatype Thrown =
    | EndpointFailure(kind: EndpointError)
    | FileNotFound(path: string)
    | DecodeFailure(failure: LineFailure)

  /** run catches the checked exceptions; the parse errors are runtime exceptions and escape. */
  function CaughtByRun(t: Thrown): (r: bool)
    ensures r <==> !t.DecodeFailure?
  {
    t.EndpointFailure? || t.FileNotFound?
  }

  /** The transport library's DataPublisher, seen as a sink of events that can be shut down. */
  class DataSink {
    const endpoint: Endpoint
    var published: seq<Event>
    var isShutdown: bool

    constructor (endpoint: Endpoint)
      ensures this.endpoint == endpoint && published == [] && !isShutdown
    {
      this.endpoint := endpoint;
      published := [];
      isShutdown := false;
    }

    method Publish(event: Event)
      modifies this
      ensures published == old(published) + [event] && isShutdown == old(isShutdown)
    {
      published := published + [event];
    }

    method Shutdown()
      modifies this
      ensures isShutdown && published == old(published)
    {
      isShutdown := true;
    }
  }

  /** ThriftClient.COUNT, shared by every publisher, with the counts printed at each milestone. */
  class Progress {
    var count: Int32
    var reports: seq<Int32>

    constructor ()
      ensures count == 0 && reports == []
    {
      count := 0;
      reports := [];
    }

    /** One more event: the counter is incremented, as a Java int, and reported at each multiple of 100000. */
    method Increment()
      modifies this
      ensures count == AddInt32(old(count), 1)
      ensures reports == old(reports) + (if IsMilestone(count) then [count] else [])
    {
      count := AddInt32(count, 1);
      if IsMilestone(count) {
        reports := reports + [count];
      }
    }
  }

  class ThriftPublisher {
    const host: string
    const port: Int32
    const dataFileLocation: string

    constructor (host: string, port: Int32, dataFileLocation: string)
      ensures this.host == host && this.port == port && this.dataFileLocation == dataFileLocation
    {
      this.host := host;
      this.port := port;
      this.dataFileLocation := dataFileLocation;
    }

    /**
     * publishLogEvents: the file's lines (files maps each readable path to its lines)
     * are decoded with decode (publish passes LineDecoder) and published in order; each
     * publication increments the counter and reports when it reaches a multiple of
     * 100000; the first line that does not decode ends the method with its exception.
     */
    method PublishLogEvents(sink: DataSink, progress: Progress, streamId: StreamId,
                            files: map<string, seq<string>>, dataFilePath: string,
                            decode: Decoder)
      returns (thrown: Option<Thrown>)
      modifies sink, progress
      ensures dataFilePath !in files ==>
        thrown == Some(FileNotFound(dataFilePath)) && unchanged(sink) && unchanged(progress)
      ensures dataFilePath in files ==>
        var r := Replay(files[dataFilePath], streamId, decode);
        && sink.published == old(sink.published) + r.events
        && sink.isShutdown == old(sink.isShutdown)
        && progress.count == Advance(old(progress.count), |r.events|)
        && progress.reports == old(progress.reports) + Milestones(old(progress.count), |r.events|)
        && thrown == if r.failure.Some? then Some(DecodeFailure(r.failure.value)) else None
    {
      if dataFilePath !in files {
        return Some(FileNotFound(dataFilePath));
      }
      var lines := files[dataFilePath];
      ghost var start := progress.count;
      ghost var before := progress.reports;
      var i: nat := 1;
      while i <= |lines|
        invariant 1 <= i <= |lines| + 1
        invariant Replay(lines[..i - 1], streamId, decode).failure.None?
        invariant sink.published == old(sink.published) + Replay(lines[..i - 1], streamId, decode).events
        invariant sink.isShutdown == old(sink.isShutdown)
        invariant progress.count == Advance(start, i - 1)
        invariant progress.reports == before + Milestones(start, i - 1)
      {
        var anEntry := lines[i - 1];
        ReplayStep(lines, i, streamId, decode);
        match decode(anEntry)
        case Failure(e) =>
          ReplayStopsAtFailure(lines, i, streamId, decode);
          assert |Replay(lines, streamId, decode).events| == i - 1;
          return Some(DecodeFailure(LineFailure(i, e)));
        case Success(payload) =>
          sink.Publish(Event(streamId, [CATEGORY], None, payload));
          progress.Increment();
          assert progress.count == Advance(start, i);
          assert progress.reports == before + Milestones(start, i);
          i := i + 1;
      }
      assert lines[..i - 1] == lines;
      return None;
    }

    /**
     * publish: resolve the endpoint, open the DataPublisher (connect says whether its
     * constructor throws), replay the file, and shut the DataPublisher down only when
     * the replay returned normally.
     */
    method Publish(progress: Progress, props: Properties, files: map<string, seq<string>>,
                   connect: Option<EndpointError>, isFloat: string -> bool)
      returns (thrown: Option<Thrown>, sink: DataSink?)
      modifies progress
      ensures connect.Some? ==>
        thrown == Some(EndpointFailure(connect.value)) && sink == null && unchanged(progress)
      ensures connect.None? ==>
        sink != null && fresh(sink) && sink.endpoint == Resolve(props, host, port)
      ensures connect.None? && dataFileLocation !in files ==>
        && thrown == Some(FileNotFound(dataFileLocation))
        && sink != null && sink.published == [] && !sink.isShutdown
        && unchanged(progress)
      ensures connect.None? && dataFileLocation in files ==>
        var r := Replay(files[dataFileLocation], SMART_PLUGS_STREAM, LineDecoder(isFloat));
        && sink != null
        && sink.published == r.events
        && (sink.isShutdown <==> r.failure.None?)
        && progress.count == Advance(old(progress.count), |r.events|)
        && progress.reports == old(progress.reports) + Milestones(old(progress.count), |r.events|)
        && thrown == if r.failure.Some? then Some(DecodeFailure(r.failure.value)) else None
      ensures sink != null ==> (sink.isShutdown <==> thrown.None?)
    {
      var endpoint := Resolve(props, host, port);
      if connect.Some? {
        return Some(EndpointFailure(connect.value)), null;
      }
      sink := new DataSink(endpoint);
      var streamId := SMART_PLUGS_STREAM;
      thrown := PublishLogEvents(sink, progress, streamId, files, dataFileLocation, LineDecoder(isFloat));
      if thrown.None? {
        sink.Shutdown();
      }
    }

    /**
     * run: publish, with the checked exceptions caught (and printed); what escapes is
     * a parse failure, which ends the worker's thread.
     */
    method Run(progress: Progress, props: Properties, files: map<string, seq<string>>,
               connect: Option<EndpointError>, isFloat: string -> bool)
      returns (escaped: Option<Thrown>, sink: DataSink?)
      modifies progress
      ensures connect.Some? ==> escaped.None? && sink == null && unchanged(progress)
      ensures connect.None? ==>
        sink != null && fresh(sink) && sink.endpoint == Resolve(props, host, port)
      ensures connect.None? && dataFileLocation !in files ==>
        escaped.None? && sink != null && sink.published == [] && !sink.isShutdown && unchanged(progress)
      ensures connect.None? && dataFileLocation in files ==>
        var r := Replay(files[dataFileLocation], SMART_PLUGS_STREAM, LineDecoder(isFloat));
        && sink != null
        && sink.published == r.events
        && (sink.isShutdown <==> r.failure.None?)
        && progress.count == Advance(old(progress.count), |r.events|)
        && progress.reports == old(progress.reports) + Milestones(old(progress.count), |r.events|)
        && escaped == if r.failure.Some? then Some(DecodeFailure(r.failure.value)) else None
      ensures escaped.Some? ==> escaped.value.DecodeFailure? && sink != null && !sink.isShutdown
    {
      var thrown;
      thrown, sink := Publish(progress, props, files, connect, isFloat);
      escaped := if thrown.Some? && !CaughtByRun(thrown.value) then thrown else None;
    }
  }
}

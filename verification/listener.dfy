/** One iteration of the serial listener loop as a pure step function:
    the listener state and one read of the serial port go in, the new
    state and the ordered effects of that iteration come out. */
module Listener {
  import opened Wrappers
  import opened Framing
  import opened Sink

  /** The observable effects of one loop iteration, in the order they occur. */
  datatype Event =
    | SetLatest(record: Record)                           // the shared "latest reading" is replaced
    | LogLine(record: Record)                             // one JSON line appended to the log file
    | Send(payload: map<string, Value>, delivery: Delivery) // one POST to the server, and how it ended
    | ParseFailure(raw: string)                           // the "Failed to parse JSON" report for a frame

  /** What the world supplies to one iteration besides the chunk: the
      formatted local time, whether the log file accepts the write, and
      the HTTP status of the POST (`None` when the request raises). */
  datatype Env = Env(time: string, logWritable: bool, response: Option<int>)

  /** One read of the serial port: the decoded chunk and its environment. */
  datatype Read = Read(chunk: string, env: Env)

  /** What survives from one iteration to the next: the accumulation buffer
      and the latest stamped record. */
  datatype State = State(buffer: string, latest: Record)

  /** The JSON parser: a record for text it accepts, `None` where it raises. */
  type Parser = string -> Option<Record>

  /** The listener before its first read. */
  const Initial: State := State("", map[])

  /** `a` is what is left of `b` after dropping some of its front. */
  ghost predicate IsSuffix(a: string, b: string)
  {
    |a| <= |b| && b[|b| - |a|..] == a
  }

  /** The number of frames an event sequence accounts for: every extracted
      frame ends in exactly one log line or exactly one failure report. */
  function Outcomes(events: seq<Event>): nat
  {
    if events == [] then 0
    else (if events[0].LogLine? || events[0].ParseFailure? then 1 else 0) + Outcomes(events[1..])
  }

  /** The two traces are the same except, possibly, for how each POST ended. */
  ghost predicate SameButDelivery(e1: seq<Event>, e2: seq<Event>)
  {
    && |e1| == |e2|
    && forall i :: 0 <= i < |e1| ==>
         if e1[i].Send? then e2[i].Send? && e2[i].payload == e1[i].payload else e2[i] == e1[i]
  }

  /** The effects of one extracted frame (the inner `try` of the loop). A
      parse failure is reported with the raw frame. A parsed record is
      stamped and stored as the latest reading, then logged, then its
      payload is sent; a log write that raises is caught by the same
      handler as a parse failure, after the latest reading was stored and
      before anything is sent. */
  function Handle(parse: Parser, st: State, frame: string, env: Env): (r: (State, seq<Event>))
    ensures r.0.buffer == st.buffer
    ensures Outcomes(r.1) == 1
    ensures r.0.latest != st.latest ==> parse(frame).Some?
    ensures parse(frame).None? <==> r.1 == [ParseFailure(frame)]
  {
    match parse(frame)
    case None => (st, [ParseFailure(frame)])
    case Some(rec) =>
      var stamped := Stamp(rec, env.time);
      var st' := st.(latest := stamped);
      if env.logWritable then
        var effects := [SetLatest(stamped), LogLine(stamped), Send(Payload(stamped), Classify(env.response))];
        assert Outcomes(effects[2..]) == 0;
        (st', effects)
      else
        var effects := [SetLatest(stamped), ParseFailure(frame)];
        assert effects[1..] == [ParseFailure(frame)] && Outcomes(effects[1..][1..]) == 0;
        (st', effects)
  }

  /** One iteration of the loop. An empty read does nothing. Otherwise the
      chunk is appended to the buffer and at most one frame is cut out of
      it; the buffer is truncated before the frame is handed to the parser. */
  function Step(parse: Parser, st: State, read: Read): (r: (State, seq<Event>))
    ensures read.chunk == [] ==> r == (st, [])
    ensures IsSuffix(r.0.buffer, st.buffer + read.chunk)
    ensures Outcomes(r.1) <= 1
  {
    if read.chunk == [] then (st, [])
    else
      var acc := st.buffer + read.chunk;
      match Extract(acc)
      case None => (st.(buffer := acc), [])
      case Some(c) =>
        assert acc[|acc| - |c.rest|..] == c.rest;
        Handle(parse, st.(buffer := c.rest), c.frame, read.env)
  }

  /** The listener run over a sequence of reads: the final state and the
      effects of every iteration, in order. */
  function Run(parse: Parser, st: State, input: seq<Read>): (r: (State, seq<Event>))
    decreases |input|
  {
    if input == [] then (st, [])
    else
      var first := Step(parse, st, input[0]);
      var others := Run(parse, first.0, input[1..]);
      (others.0, first.1 + others.1)
  }

  /** Everything the serial port delivered over a sequence of reads. */
  function Chunks(input: seq<Read>): string
    decreases |input|
  {
    if input == [] then [] else input[0].chunk + Chunks(input[1..])
  }

  /** The number of reads that returned something. */
  function NonEmpty(input: seq<Read>): nat
    decreases |input|
  {
    if input == [] then 0 else (if input[0].chunk == [] then 0 else 1) + NonEmpty(input[1..])
  }
}

/** A worked run of the listener: a valid frame, a malformed one and a
    second valid one arriving over three reads. */
module Scenario {
  import opened Wrappers
  import opened Framing
  import opened Sink
  import opened Listener
  import opened ListenerProperties

  const Co2Frame: string := "{\"co2\": 5}"
  const BadFrame: string := "{\"bad json}"
  const HumidityFrame: string := "{\"humidity\": 70}"

  /** The first read: noise, a valid object, more noise and a malformed one. */
  const First: string := "noise" + Co2Frame + "more" + BadFrame
  /** The second read: another valid object. */
  const Second: string := HumidityFrame
  /** The third read: a line ending. */
  const Third: string := "\n"

  /** The first read cuts the co2 object out of the noise and leaves the
      rest, malformed frame included, in the buffer. */
  lemma FirstRead(parse: Parser, co2: Record, env: Env)
    requires parse(Co2Frame) == Some(co2)
    requires env.logWritable
    ensures
      var r := Stamp(co2, env.time);
      Step(parse, Initial, Read(First, env)) ==
        (State("more" + BadFrame, r),
         [SetLatest(r), LogLine(r), Send(Payload(r), Classify(env.response))])
  {
    var c := Cut("noise", Co2Frame, "more" + BadFrame);
    assert Initial.buffer + First == c.prefix + c.frame + c.rest;
    ParsedFrameEffects(parse, Initial, Read(First, env), c, co2);
  }

  /** The second read completes the humidity object, but the malformed
      frame is first in line: it is reported and dropped, and the humidity
      object waits in the buffer. */
  lemma SecondRead(parse: Parser, latest: Record, env: Env)
    requires parse(BadFrame) == None
    ensures
      Step(parse, State("more" + BadFrame, latest), Read(Second, env)) ==
        (State(HumidityFrame, latest), [ParseFailure(BadFrame)])
  {
    var c := Cut("more", BadFrame, HumidityFrame);
    assert "more" + BadFrame + Second == c.prefix + c.frame + c.rest;
    FailedFrameIsDropped(parse, State("more" + BadFrame, latest), Read(Second, env), c, []);
  }

  /** The third read, a bare line ending, lets the waiting humidity object
      through. */
  lemma ThirdRead(parse: Parser, humidity: Record, latest: Record, env: Env)
    requires parse(HumidityFrame) == Some(humidity)
    requires env.logWritable
    ensures
      var r := Stamp(humidity, env.time);
      Step(parse, State(HumidityFrame, latest), Read(Third, env)) ==
        (State(Third, r),
         [SetLatest(r), LogLine(r), Send(Payload(r), Classify(env.response))])
  {
    var c := Cut("", HumidityFrame, Third);
    assert HumidityFrame + Third == c.prefix + c.frame + c.rest;
    ParsedFrameEffects(parse, State(HumidityFrame, latest), Read(Third, env), c, humidity);
  }

  /** A run of three reads is its three steps, in order. */
  lemma RunOfThree(parse: Parser, st: State, a: Read, b: Read, c: Read)
    ensures
      var s1 := Step(parse, st, a);
      var s2 := Step(parse, s1.0, b);
      var s3 := Step(parse, s2.0, c);
      Run(parse, st, [a, b, c]) == (s3.0, s1.1 + (s2.1 + s3.1))
  {
    var s1 := Step(parse, st, a);
    var s2 := Step(parse, s1.0, b);
    var s3 := Step(parse, s2.0, c);
    assert [c][1..] == [];
    assert Run(parse, s2.0, [c]) == (s3.0, s3.1 + []);
    assert s3.1 + [] == s3.1;
    assert [b, c][1..] == [c];
    assert Run(parse, s1.0, [b, c]) == (s3.0, s2.1 + s3.1);
    assert [a, b, c][1..] == [b, c];
  }

  /** The three reads together, with the co2 record's POST answered by 503:
      the failed delivery changes nothing that follows. */
  lemma NoiseBadFrameAndOutage(parse: Parser, co2: Record, humidity: Record, t1: string, t2: string, t3: string)
    requires parse(Co2Frame) == Some(co2)
    requires parse(BadFrame) == None
    requires parse(HumidityFrame) == Some(humidity)
    ensures
      var r1 := Stamp(co2, t1);
      var r3 := Stamp(humidity, t3);
      Run(parse, Initial, [Read(First, Env(t1, true, Some(503))),
                           Read(Second, Env(t2, true, Some(201))),
                           Read(Third, Env(t3, true, Some(200)))]) ==
        (State(Third, r3),
         [SetLatest(r1), LogLine(r1), Send(Payload(r1), Rejected(503))]
         + ([ParseFailure(BadFrame)]
            + [SetLatest(r3), LogLine(r3), Send(Payload(r3), Delivered(200))]))
  {
    var a, b, c := Read(First, Env(t1, true, Some(503))), Read(Second, Env(t2, true, Some(201))), Read(Third, Env(t3, true, Some(200)));
    var r1 := Stamp(co2, t1);
    FirstRead(parse, co2, a.env);
    SecondRead(parse, r1, b.env);
    ThirdRead(parse, humidity, r1, c.env);
    var r3 := Stamp(humidity, t3);
    RunOfThree(parse, Initial, a, b, c);
  }
}

/** Properties of the listener loop: what one read does to the buffer, the
    order of the effects of a frame, and what holds over many reads. */
module ListenerProperties {
  import opened Wrappers
  import opened Framing
  import opened Sink
  import opened Listener

  /** A read has effects exactly when the buffer with the chunk appended
      holds a `{` followed by a `}`; a read without effects keeps the whole
      chunk in the buffer and leaves the latest reading alone. */
  lemma EffectsIffFrame(parse: Parser, st: State, read: Read)
    requires read.chunk != []
    ensures Step(parse, st, read).1 != [] <==> HasFrame(st.buffer + read.chunk)
    ensures Step(parse, st, read).1 == [] ==> Step(parse, st, read).0 == st.(buffer := st.buffer + read.chunk)
  {
    ExtractsIffHasFrame(st.buffer + read.chunk);
  }

  /** The three ways a read extracts nothing: the buffer has no `}`, it has
      no `{`, or every `}` comes before its first `{`. In each the new
      buffer is the old one with the chunk appended, and nothing happens. */
  lemma NothingExtracted(parse: Parser, st: State, read: Read)
    requires
      var acc := st.buffer + read.chunk;
      || '}' !in acc
      || '{' !in acc
      || exists i :: 0 <= i < |acc| && acc[i] == '{' && '{' !in acc[..i] && '}' !in acc[i..]
    ensures Step(parse, st, read) == (st.(buffer := st.buffer + read.chunk), [])
  {
    var acc := st.buffer + read.chunk;
    if read.chunk != [] {
      EffectsIffFrame(parse, st, read);
    }
  }

  /** A read that completes a frame cuts the buffer at its first frame:
      the accumulated buffer is the frame-free prefix, the frame and the new
      buffer, in that order; the new buffer is strictly shorter than the
      accumulated one; and the effects account for that one frame only. */
  lemma StepCutsFirstFrame(parse: Parser, st: State, read: Read)
    requires read.chunk != [] && HasFrame(st.buffer + read.chunk)
    ensures
      var (s, e) := Step(parse, st, read);
      exists c ::
        && IsFirstCut(st.buffer + read.chunk, c)
        && s.buffer == c.rest
        && |s.buffer| < |st.buffer + read.chunk|
        && Outcomes(e) == 1
        && (e == [ParseFailure(c.frame)] <==> parse(c.frame).None?)
  {
    ExtractsIffHasFrame(st.buffer + read.chunk);
  }

  /** A frame that does not parse is dropped for good: the read yields one
      failure report and nothing else, the buffer keeps only what followed
      the frame, and every later buffer is made of that remainder and later
      input, so the same text is never handed to the parser again. */
  lemma FailedFrameIsDropped(parse: Parser, st: State, read: Read, c: Cut, later: seq<Read>)
    requires read.chunk != []
    requires IsFirstCut(st.buffer + read.chunk, c)
    requires parse(c.frame).None?
    ensures Step(parse, st, read) == (st.(buffer := c.rest), [ParseFailure(c.frame)])
    ensures IsSuffix(Run(parse, Step(parse, st, read).0, later).0.buffer, c.rest + Chunks(later))
  {
    ExtractIsFirstCut(st.buffer + read.chunk, c);
    RunBufferIsSuffix(parse, Step(parse, st, read).0, later);
  }

  /** A frame that parses has its effects in a fixed order: the stamped
      record becomes the latest reading, then it is logged as one line, then
      its payload is sent once. When the log write raises, the handler
      reports the frame after the latest reading was stored, and nothing is
      logged or sent. */
  lemma ParsedFrameEffects(parse: Parser, st: State, read: Read, c: Cut, rec: Record)
    requires read.chunk != []
    requires IsFirstCut(st.buffer + read.chunk, c)
    requires parse(c.frame) == Some(rec)
    ensures
      var (s, e) := Step(parse, st, read);
      var stamped := Stamp(rec, read.env.time);
      && s == State(c.rest, stamped)
      && (read.env.logWritable ==>
            e == [SetLatest(stamped), LogLine(stamped), Send(Payload(stamped), Classify(read.env.response))])
      && (!read.env.logWritable ==> e == [SetLatest(stamped), ParseFailure(c.frame)])
  {
    ExtractIsFirstCut(st.buffer + read.chunk, c);
  }

  /** The server's answer never changes the buffer, the latest reading or
      any other effect of the read: only the recorded delivery differs. */
  lemma DeliveryDoesNotMatter(parse: Parser, st: State, chunk: string, env1: Env, env2: Env)
    requires env1.time == env2.time && env1.logWritable == env2.logWritable
    ensures Step(parse, st, Read(chunk, env1)).0 == Step(parse, st, Read(chunk, env2)).0
    ensures SameButDelivery(Step(parse, st, Read(chunk, env1)).1, Step(parse, st, Read(chunk, env2)).1)
  {
    if chunk != [] {
      var acc := st.buffer + chunk;
      if Extract(acc).Some? {
        var c := Extract(acc).value;
        HandleDeliveryDoesNotMatter(parse, st.(buffer := c.rest), c.frame, env1, env2);
      }
    }
  }

  lemma HandleDeliveryDoesNotMatter(parse: Parser, st: State, frame: string, env1: Env, env2: Env)
    requires env1.time == env2.time && env1.logWritable == env2.logWritable
    ensures Handle(parse, st, frame, env1).0 == Handle(parse, st, frame, env2).0
    ensures SameButDelivery(Handle(parse, st, frame, env1).1, Handle(parse, st, frame, env2).1)
  {
  }

  /** Two input sequences that differ at most in the server's answers. */
  ghost predicate SameButResponses(in1: seq<Read>, in2: seq<Read>)
  {
    && |in1| == |in2|
    && forall i :: 0 <= i < |in1| ==>
         && in1[i].chunk == in2[i].chunk
         && in1[i].env.time == in2[i].env.time
         && in1[i].env.logWritable == in2[i].env.logWritable
  }

  /** Over any number of reads, failed or successful deliveries do not
      change how later records are handled: the final state is the same and
      the traces differ only in the recorded deliveries. */
  lemma {:induction false} RunDeliveryDoesNotMatter(parse: Parser, st: State, in1: seq<Read>, in2: seq<Read>)
    requires SameButResponses(in1, in2)
    ensures Run(parse, st, in1).0 == Run(parse, st, in2).0
    ensures SameButDelivery(Run(parse, st, in1).1, Run(parse, st, in2).1)
    decreases |in1|
  {
    if in1 != [] {
      DeliveryDoesNotMatter(parse, st, in1[0].chunk, in1[0].env, in2[0].env);
      assert in1[0] == Read(in1[0].chunk, in1[0].env);
      assert in2[0] == Read(in1[0].chunk, in2[0].env);
      var s1 := Step(parse, st, in1[0]).0;
      assert SameButResponses(in1[1..], in2[1..]);
      RunDeliveryDoesNotMatter(parse, s1, in1[1..], in2[1..]);
      SameButDeliveryConcat(Step(parse, st, in1[0]).1, Step(parse, st, in2[0]).1,
                            Run(parse, s1, in1[1..]).1, Run(parse, s1, in2[1..]).1);
    }
  }

  lemma SameButDeliveryConcat(a1: seq<Event>, a2: seq<Event>, b1: seq<Event>, b2: seq<Event>)
    requires SameButDelivery(a1, a2) && SameButDelivery(b1, b2)
    ensures SameButDelivery(a1 + b1, a2 + b2)
  {
    forall i | 0 <= i < |a1 + b1|
      ensures if (a1 + b1)[i].Send? then (a2 + b2)[i].Send? && (a2 + b2)[i].payload == (a1 + b1)[i].payload
              else (a2 + b2)[i] == (a1 + b1)[i]
    {
      if i >= |a1| {
        assert (a1 + b1)[i] == b1[i - |a1|] && (a2 + b2)[i] == b2[i - |a1|];
      }
    }
  }

  /** The buffer only ever holds a tail of what the listener received:
      whatever is dropped is dropped from the front. */
  lemma {:induction false} RunBufferIsSuffix(parse: Parser, st: State, input: seq<Read>)
    ensures IsSuffix(Run(parse, st, input).0.buffer, st.buffer + Chunks(input))
    decreases |input|
  {
    if input != [] {
      var first := Step(parse, st, input[0]);
      RunBufferIsSuffix(parse, first.0, input[1..]);
      SuffixChain(Run(parse, first.0, input[1..]).0.buffer, first.0.buffer,
                  st.buffer, input[0].chunk, Chunks(input[1..]));
    } else {
      assert st.buffer + Chunks(input) == st.buffer;
    }
  }

  /** The step of the induction above, on strings alone. */
  lemma SuffixChain(a: string, b: string, x: string, y: string, z: string)
    requires IsSuffix(a, b + z) && IsSuffix(b, x + y)
    ensures IsSuffix(a, x + (y + z))
  {
    SuffixAppend(b, x + y, z);
    SuffixTransitive(a, b + z, x + y + z);
    assert x + y + z == x + (y + z);
  }

  /** Appending the same text to both sides keeps a suffix a suffix. */
  lemma SuffixAppend(b: string, y: string, z: string)
    requires IsSuffix(b, y)
    ensures IsSuffix(b + z, y + z)
  {
    assert (y + z)[|y + z| - |b + z|..] == y[|y| - |b|..] + z;
  }

  /** A suffix of a suffix is a suffix. */
  lemma SuffixTransitive(a: string, b: string, c: string)
    requires IsSuffix(a, b) && IsSuffix(b, c)
    ensures IsSuffix(a, c)
  {
    assert c[|c| - |a|..] == c[|c| - |b|..][|b| - |a|..];
  }

  lemma {:induction false} OutcomesConcat(a: seq<Event>, b: seq<Event>)
    ensures Outcomes(a + b) == Outcomes(a) + Outcomes(b)
    decreases |a|
  {
    if a == [] {
      assert a + b == b;
    } else {
      assert (a + b)[0] == a[0] && (a + b)[1..] == a[1..] + b;
      OutcomesConcat(a[1..], b);
    }
  }

  /** At most one frame is handled per read, and none for an empty read:
      over any run, the frames accounted for never outnumber the reads that
      returned something. */
  lemma {:induction false} AtMostOneFramePerRead(parse: Parser, st: State, input: seq<Read>)
    ensures Outcomes(Run(parse, st, input).1) <= NonEmpty(input)
    decreases |input|
  {
    if input != [] {
      var first := Step(parse, st, input[0]);
      AtMostOneFramePerRead(parse, first.0, input[1..]);
      OutcomesConcat(first.1, Run(parse, first.0, input[1..]).1);
    }
  }

  /** Chunk boundaries inside a frame do not matter: a chunk that ends
      before the frame's closing `}` has no effect of its own, even when a
      stray `}` sits before the first `{`, and the next read then does
      exactly what one read of both chunks together does. */
  lemma SplitReadIsWholeRead(parse: Parser, st: State, a: string, b: string, env1: Env, env2: Env)
    requires !HasFrame(st.buffer + a)
    ensures Step(parse, st, Read(a, env1)).1 == []
    ensures Step(parse, Step(parse, st, Read(a, env1)).0, Read(b, env2)) == Step(parse, st, Read(a + b, env2))
  {
    if a == [] {
      assert a + b == b;
    } else {
      ExtractsIffHasFrame(st.buffer + a);
      assert st.buffer + a + b == st.buffer + (a + b);
    }
  }
}

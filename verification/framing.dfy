/** The frame extractor: how one candidate JSON frame is cut out of the
    accumulated serial buffer. */
module Framing {
  import opened Wrappers
  import opened Search

  /** A buffer cut into the text before the frame, the frame, and what is
      left behind in the buffer. */
  datatype Cut = Cut(prefix: string, frame: string, rest: string)

  /** The buffer holds a `{` with some `}` after it. */
  ghost predicate HasFrame(buf: string)
  {
    exists i, j :: 0 <= i < j < |buf| && buf[i] == '{' && buf[j] == '}'
  }

  /** The shape of a candidate frame: it opens with `{`, closes with `}`
      and holds no other `}`. */
  ghost predicate IsFrame(frame: string)
  {
    && |frame| >= 2
    && frame[0] == '{'
    && frame[|frame| - 1] == '}'
    && '}' !in frame[..|frame| - 1]
  }

  /** `c` cuts `buf` at its first frame: the pieces put back together give
      the buffer, nothing before the frame is a `{`, and the frame has the
      shape above. */
  ghost predicate IsFirstCut(buf: string, c: Cut)
  {
    && buf == c.prefix + c.frame + c.rest
    && '{' !in c.prefix
    && IsFrame(c.frame)
  }

  /** The cut of `buf` at a `{` with no `{` before it and the first `}`
      after it is its first cut. */
  lemma CutAt(buf: string, start: nat, end: nat)
    requires start < end < |buf|
    requires buf[start] == '{' && buf[end] == '}'
    requires forall j :: 0 <= j < start ==> buf[j] != '{'
    requires forall j :: start <= j < end ==> buf[j] != '}'
    ensures IsFirstCut(buf, Cut(buf[..start], buf[start..end + 1], buf[end + 1..]))
  {
    var c := Cut(buf[..start], buf[start..end + 1], buf[end + 1..]);
    assert buf == c.prefix + c.frame + c.rest;
    assert c.frame[..|c.frame| - 1] == buf[start..end];
  }

  /** The extraction rule of the listener applied to the accumulated
      buffer: when it holds a `}`, locate the first `{` and the first `}`
      at or after it; when both are found, cut the frame out. */
  function Extract(buf: string): (r: Option<Cut>)
    ensures r.Some? ==> IsFirstCut(buf, r.value)
    ensures r.Some? ==> |r.value.rest| < |buf|
  {
    if '}' !in buf then None
    else
      var start := Find(buf, '{', 0);
      var end := Find(buf, '}', start);
      if start != -1 && end != -1 then
        CutAt(buf, start, end);
        Some(Cut(buf[..start], buf[start..end + 1], buf[end + 1..]))
      else None
  }

  /** A frame is extracted exactly when the buffer holds a `{` followed
      somewhere by a `}`; with no `}` at all, with no `{`, or with every
      `}` before the first `{`, nothing is cut. */
  lemma ExtractsIffHasFrame(buf: string)
    ensures Extract(buf).Some? <==> HasFrame(buf)
  {
    if Extract(buf).Some? {
      FirstCutHasFrame(buf, Extract(buf).value);
    }
    if HasFrame(buf) {
      HasFrameIsExtracted(buf);
    }
  }

  lemma FirstCutHasFrame(buf: string, c: Cut)
    requires IsFirstCut(buf, c)
    ensures HasFrame(buf)
  {
    var i, j := |c.prefix|, |c.prefix| + |c.frame| - 1;
    assert buf[i] == c.frame[0];
    assert buf[j] == c.frame[|c.frame| - 1];
  }

  lemma HasFrameIsExtracted(buf: string)
    requires HasFrame(buf)
    ensures Extract(buf).Some?
  {
    var i, j :| 0 <= i < j < |buf| && buf[i] == '{' && buf[j] == '}';
    assert buf[j] in buf;
    var start := Find(buf, '{', 0);
    assert 0 <= start <= i;
    var end := Find(buf, '}', start);
    assert start <= end <= j;
  }

  /** There is only one way to cut a buffer at its first frame, so the cut
      `Extract` makes is determined by the buffer alone. */
  lemma {:induction false} FirstCutUnique(buf: string, c1: Cut, c2: Cut)
    requires IsFirstCut(buf, c1) && IsFirstCut(buf, c2)
    ensures c1 == c2
  {
    var p1, p2 := |c1.prefix|, |c2.prefix|;
    // Both prefixes end just before the first `{` of the buffer.
    assert buf[p1] == '{' && buf[p2] == '{';
    assert p1 == p2;
    assert c1.prefix == buf[..p1] == c2.prefix;
    // Both frames end at the first `}` after that `{`.
    var e1, e2 := p1 + |c1.frame| - 1, p2 + |c2.frame| - 1;
    assert buf[e1] == '}' && buf[e2] == '}';
    assert e1 == e2;
    assert c1.frame == buf[p1..e1 + 1] == c2.frame;
    assert c1.rest == buf[e1 + 1..] == c2.rest;
  }

  /** What `Extract` returns is characterised without reference to how it
      searches: `Some(c)` exactly for the unique first cut `c`, and `None`
      exactly when no first cut exists. */
  lemma ExtractIsFirstCut(buf: string, c: Cut)
    ensures Extract(buf) == Some(c) <==> IsFirstCut(buf, c)
  {
    if IsFirstCut(buf, c) {
      var i, j := |c.prefix|, |c.prefix| + |c.frame| - 1;
      assert buf[i] == c.frame[0];
      assert buf[j] == c.frame[|c.frame| - 1];
      assert HasFrame(buf);
      ExtractsIffHasFrame(buf);
      FirstCutUnique(buf, Extract(buf).value, c);
    }
  }
}

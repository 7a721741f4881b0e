/** The incremental parser refines the division of the whole stream into frames. */
module WebSocketRefinement {
  import opened Bytes
  import opened WebSocketFrames
  import opened WebSocketStream

  /** What the parser keeps from one frame to the next: the key of an earlier frame and the fragments. */
  datatype Link = Link(key: MaskingKey, total: seq<Byte>)

  /** The key in the parser once the header of a frame is complete. */
  function NextKey(rule: KeyRule, key: MaskingKey, f: Frame): MaskingKey {
    if f.key.Some? && (f.extended || rule.AsIntended?) then f.key.value else key
  }

  function Receive(rule: KeyRule, key: MaskingKey, f: Frame): Received {
    Received(f.fin, f.opcode, f.key.Some?, if f.key.Some? then Mask(f.payload, NextKey(rule, key, f)) else f.payload)
  }

  /** What a frame sequence gives to the outside, frame by frame. */
  function HandleFrame(rule: KeyRule, json: Json, link: Link, f: Frame): (Link, seq<Event>) {
    var (total, events) := Handle(json, link.total, Receive(rule, link.key, f));
    (Link(NextKey(rule, link.key, f), total), events)
  }

  function HandleFrames(rule: KeyRule, json: Json, link: Link, frames: seq<Frame>): (Link, seq<Event>)
    decreases |frames|
  {
    if frames == [] then (link, [])
    else
      var (next, events) := HandleFrame(rule, json, link, frames[0]);
      var (last, more) := HandleFrames(rule, json, next, frames[1..]);
      (last, events + more)
  }

  // The invariant

  /** The header fields of the parser say what the first two octets of the frame under way say. */
  predicate Fields(p: Parser, r: seq<Byte>)
    requires |r| >= 2
  {
    && p.fin == FinBit(r[0]) && p.opcode == OpcodeBits(r[0])
    && p.masked == MaskBit(r[1]) && p.len1 == LengthBits(r[1])
    && (p.len1 < 126 ==> p.payloadLen == Value(p.len1))
  }

  /** The key while a payload is being read. */
  function CurrentKey(rule: KeyRule, key: MaskingKey, r: seq<Byte>): MaskingKey
    requires HeaderComplete(r)
  {
    var h := HeaderLength(r[1]);
    if MaskBit(r[1]) && (ExtendedLength(r[1]) > 0 || rule.AsIntended?) then r[h - 4..h] else key
  }

  /** The parser has handled whole frames up to the link, and read the beginning r of the next. */
  predicate Matches(rule: KeyRule, p: Parser, r: seq<Byte>, link: Link) {
    && !FrameComplete(r)
    && p.total == link.total
    && (|r| >= 2 ==> Fields(p, r))
    && if HeaderComplete(r) then
         && p.mode == InPayload && p.buffer == r[HeaderLength(r[1])..]
         && p.payloadLen == PayloadLength(r) && p.key == CurrentKey(rule, link.key, r)
       else
         p.mode == InHeader && p.buffer == r && p.key == link.key
  }

  /** One octet either extends the frame under way, or completes it. */
  predicate Advances(rule: KeyRule, json: Json, p: Parser, r: seq<Byte>, link: Link, b: Byte) {
    var s := r + [b];
    var (q, events) := Step(rule, json, p, b);
    if FrameComplete(s) then
      && FrameLength(s) == |s|
      && var (next, delivered) := HandleFrame(rule, json, link, FirstFrame(s));
         events == delivered && Matches(rule, q, [], next)
    else
      events == [] && Matches(rule, q, s, link)
  }

  lemma StepMatches(rule: KeyRule, json: Json, p: Parser, r: seq<Byte>, link: Link, b: Byte)
    requires Matches(rule, p, r, link)
    ensures Advances(rule, json, p, r, link, b)
  {
    if |r| == 0 {
      FirstOctetAdvances(rule, json, p, r, link, b);
    } else if |r| == 1 {
      SecondOctetAdvances(rule, json, p, r, link, b);
    } else if HeaderComplete(r) {
      PayloadAdvances(rule, json, p, r, link, b);
    } else {
      HeaderAdvances(rule, json, p, r, link, b);
    }
  }

  lemma FirstOctetAdvances(rule: KeyRule, json: Json, p: Parser, r: seq<Byte>, link: Link, b: Byte)
    requires Matches(rule, p, r, link) && |r| == 0
    ensures Advances(rule, json, p, r, link, b)
  {
  }

  lemma SecondOctetAdvances(rule: KeyRule, json: Json, p: Parser, r: seq<Byte>, link: Link, b: Byte)
    requires Matches(rule, p, r, link) && |r| == 1
    ensures Advances(rule, json, p, r, link, b)
  {
    hide FinBit, OpcodeBits, MaskBit, LengthBits, Value, BigEndianValue, Handle, Mask;
    hide PayloadLength, CurrentKey, FirstTwo;
    var s := r + [b];
    assert s[0] == r[0] && s[1] == b;
    FirstTwoMatches(rule, json, p.(buffer := s), s, link);
  }

  lemma FirstTwoMatches(rule: KeyRule, json: Json, p: Parser, s: seq<Byte>, link: Link)
    requires |s| == 2 && p.mode == InHeader && p.buffer == s && p.key == link.key && p.total == link.total
    ensures var (q, events) := FirstTwo(json, p);
      if FrameComplete(s) then
        && FrameLength(s) == |s|
        && var (next, delivered) := HandleFrame(rule, json, link, FirstFrame(s));
           events == delivered && Matches(rule, q, [], next)
      else
        events == [] && Matches(rule, q, s, link)
  {
    hide FinBit, OpcodeBits, MaskBit, LengthBits, Value, BigEndianValue, Handle, Mask;
    LengthBitsRange(s[1]);
    assert s[2..] == [];
    if FrameComplete(s) {
      WholeFrame(rule, link.key, s);
    }
  }

  lemma LengthBitsRange(b: Byte)
    ensures LengthBits(b) < 126 || LengthBits(b) == 126 || LengthBits(b) == 127
  {
  }

  /** A frame that is all of a byte string. */
  lemma WholeFrame(rule: KeyRule, key: MaskingKey, s: seq<Byte>)
    requires FrameComplete(s) && FrameLength(s) == |s|
    ensures FirstFrame(s).payload == s[HeaderLength(s[1])..]
    ensures NextKey(rule, key, FirstFrame(s)) == CurrentKey(rule, key, s)
  {
    hide FinBit, OpcodeBits, MaskBit, ExtendedLength, PayloadLength;
    assert s[HeaderLength(s[1])..|s|] == s[HeaderLength(s[1])..];
  }

  lemma PayloadAdvances(rule: KeyRule, json: Json, p: Parser, r: seq<Byte>, link: Link, b: Byte)
    requires Matches(rule, p, r, link) && |r| >= 2 && HeaderComplete(r)
    ensures Advances(rule, json, p, r, link, b)
  {
    hide FinBit, OpcodeBits, MaskBit, LengthBits, Value, BigEndianValue, Handle, Mask, CurrentKey, PayloadLength;
    var s, h := r + [b], HeaderLength(r[1]);
    HeaderIsPrefix(r, [b]);
    assert s[0] == r[0] && s[1] == r[1];
    assert s[h..] == r[h..] + [b];
    if FrameComplete(s) {
      WholeFrame(rule, link.key, s);
    }
  }

  /** More octets behind a whole header do not change it. */
  lemma HeaderIsPrefix(r: seq<Byte>, more: seq<Byte>)
    requires HeaderComplete(r)
    ensures HeaderComplete(r + more) && PayloadLength(r + more) == PayloadLength(r)
    ensures forall rule, key :: CurrentKey(rule, key, r + more) == CurrentKey(rule, key, r)
  {
    hide MaskBit, LengthBits, Value, BigEndianValue;
    var n, h := ExtendedLength(r[1]), HeaderLength(r[1]);
    assert (r + more)[1] == r[1];
    SliceOfPrefix(r, more, 2, 2 + n);
    if MaskBit(r[1]) {
      SliceOfPrefix(r, more, h - 4, h);
    }
  }

  lemma HeaderAdvances(rule: KeyRule, json: Json, p: Parser, r: seq<Byte>, link: Link, b: Byte)
    requires Matches(rule, p, r, link) && |r| >= 2 && !HeaderComplete(r)
    ensures Advances(rule, json, p, r, link, b)
  {
    hide FinBit, OpcodeBits, MaskBit, LengthBits, Value, BigEndianValue, Handle, Mask;
    hide HeaderDone, CurrentKey, PayloadLength;
    var s := r + [b];
    assert s[0] == r[0] && s[1] == r[1];
    WaitsForHeader(p, r);
    if HeaderComplete(s) {
      assert |s| == HeaderLength(s[1]);
      HeaderDoneMatches(rule, json, p.(buffer := s), s, link);
    }
  }

  lemma WaitsForHeader(p: Parser, r: seq<Byte>)
    requires |r| >= 2 && Fields(p, r)
    ensures WaitFor(p.len1, p.masked) == HeaderLength(r[1])
  {
  }

  lemma HeaderDoneMatches(rule: KeyRule, json: Json, p: Parser, s: seq<Byte>, link: Link)
    requires |s| > 2 && |s| == HeaderLength(s[1]) && Fields(p, s)
    requires p.mode == InHeader && p.buffer == s && p.key == link.key && p.total == link.total
    requires |p.buffer| == WaitFor(p.len1, p.masked)
    ensures var (q, events) := HeaderDone(rule, json, p);
      if FrameComplete(s) then
        && FrameLength(s) == |s|
        && var (next, delivered) := HandleFrame(rule, json, link, FirstFrame(s));
           events == delivered && Matches(rule, q, [], next)
      else
        events == [] && Matches(rule, q, s, link)
  {
    hide FinBit, OpcodeBits, MaskBit, LengthBits, Value, BigEndianValue, Handle, Mask, PayloadLength, CurrentKey;
    HeaderDoneFields(rule, json, p, s);
    assert s[|s|..] == [];
    if FrameComplete(s) {
      WholeFrame(rule, link.key, s);
      EmptyMask(CurrentKey(rule, link.key, s));
    }
  }

  lemma EmptyMask(key: MaskingKey)
    ensures Mask([], key) == []
  {
  }

  lemma HeaderDoneFields(rule: KeyRule, json: Json, p: Parser, s: seq<Byte>)
    requires |s| > 2 && |s| == HeaderLength(s[1]) && Fields(p, s)
    requires p.mode == InHeader && p.buffer == s
    requires |p.buffer| == WaitFor(p.len1, p.masked)
    ensures HeaderDone(rule, json, p).0.payloadLen == PayloadLength(s)
    ensures HeaderDone(rule, json, p).0.key == CurrentKey(rule, p.key, s)
  {
    hide FinBit, OpcodeBits, MaskBit, Value, BigEndianValue, Handle;
    LengthBitsRange(s[1]);
    var n := ExtendedLength(s[1]);
    if MaskBit(s[1]) {
      assert CopyTo(p.key, s[2 + n..]) == s[2 + n..] == s[|s| - 4..|s|];
    }
  }

  // The theorem

  /** Fed any octets from any point of a stream, the parser gives to the outside exactly what the whole
      frames of the stream give, in order, and is left with the beginning of the next frame. */
  lemma {:induction false} FeedIsSplit(rule: KeyRule, json: Json, p: Parser, r: seq<Byte>, link: Link, s: seq<Byte>)
    requires Matches(rule, p, r, link)
    ensures var (frames, rest) := SplitFrames(r + s);
      var (last, delivered) := HandleFrames(rule, json, link, frames);
      var (q, events) := Feed(rule, json, p, s);
      events == delivered && Matches(rule, q, rest, last)
    decreases |s|
  {
    hide Step, FirstFrame, HandleFrame, Matches, FrameComplete, FrameLength;
    if s == [] {
      assert r + s == r;
      NotComplete(rule, p, r, link);
    } else {
      StepMatches(rule, json, p, r, link, s[0]);
      var (q, events) := Step(rule, json, p, s[0]);
      var front := r + [s[0]];
      assert r + s == front + s[1..];
      if FrameComplete(front) {
        var (next, delivered) := HandleFrame(rule, json, link, FirstFrame(front));
        FrameIsPrefix(front, s[1..]);
        assert (r + s)[|front|..] == s[1..];
        assert [] + s[1..] == s[1..];
        FeedIsSplit(rule, json, q, [], next, s[1..]);
        OneMore(rule, json, link, FirstFrame(front), SplitFrames(s[1..]).0);
      } else {
        FeedIsSplit(rule, json, q, front, link, s[1..]);
        assert [] + Feed(rule, json, q, s[1..]).1 == Feed(rule, json, q, s[1..]).1;
      }
    }
  }

  lemma NotComplete(rule: KeyRule, p: Parser, r: seq<Byte>, link: Link)
    requires Matches(rule, p, r, link)
    ensures !FrameComplete(r)
  {
  }

  lemma OneMore(rule: KeyRule, json: Json, link: Link, f: Frame, frames: seq<Frame>)
    ensures var (next, events) := HandleFrame(rule, json, link, f);
      HandleFrames(rule, json, link, [f] + frames)
      == (HandleFrames(rule, json, next, frames).0, events + HandleFrames(rule, json, next, frames).1)
  {
    hide HandleFrame;
    assert ([f] + frames)[1..] == frames;
  }

  const START: Link := Link(NO_KEY, [])

  lemma FreshMatches(rule: KeyRule)
    ensures Matches(rule, Fresh(), [], START)
  {
  }

  /** From a fresh parser: the events of a stream, and the fragments kept at its end, are those of its
      frames. */
  lemma StreamIsFrames(rule: KeyRule, json: Json, s: seq<Byte>)
    ensures var (p, events) := Feed(rule, json, Fresh(), s);
      var (last, delivered) := HandleFrames(rule, json, START, SplitFrames(s).0);
      events == delivered && p.total == last.total
  {
    FreshMatches(rule);
    FeedIsSplit(rule, json, Fresh(), [], START, s);
    assert [] + s == s;
  }
}

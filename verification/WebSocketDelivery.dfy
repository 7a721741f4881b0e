/** What the refinement gives for whole connections: bounds on the buffer, independence of the division
    into pieces, round trips, and the assembly of fragmented messages. */
module WebSocketDelivery {
  import opened Options
  import opened Bytes
  import opened WebSocketFrames
  import opened WebSocketStream
  import opened WebSocketRefinement

  // Bounds

  /** On every byte stream: in the header state the buffer is shorter than the header it waits for, which
      has at most fourteen octets, and a seven-bit length is only waited on in a masked frame; in the
      payload state the buffer is shorter than the payload.  So no comparison for equality is ever
      stepped over, and the state PARSE_ERROR is never entered. */
  lemma BufferBounds(rule: KeyRule, json: Json, s: seq<Byte>)
    ensures var p := Feed(rule, json, Fresh(), s).0;
      match p.mode
      case InHeader =>
        |p.buffer| < 2 || (|p.buffer| < WaitFor(p.len1, p.masked) <= 14 && (p.len1 == 126 || p.len1 == 127 || p.masked))
      case InPayload => |p.buffer| < p.payloadLen
      case ParseError => false
  {
    hide Feed, SplitFrames, HandleFrames, Value, BigEndianValue, FinBit, OpcodeBits, MaskBit;
    FreshMatches(rule);
    FeedIsSplit(rule, json, Fresh(), [], START, s);
    var r := SplitFrames([] + s).1;
    assert [] + s == s;
    if |r| >= 2 {
      LengthBitsRange(r[1]);
    }
  }

  // Division into pieces

  lemma {:induction false} FeedAppend(rule: KeyRule, json: Json, p: Parser, a: seq<Byte>, b: seq<Byte>)
    ensures var (q, events) := Feed(rule, json, p, a);
      Feed(rule, json, p, a + b) == (Feed(rule, json, q, b).0, events + Feed(rule, json, q, b).1)
    decreases |a|
  {
    hide Step;
    if a == [] {
      assert a + b == b;
      assert [] + Feed(rule, json, p, b).1 == Feed(rule, json, p, b).1;
    } else {
      assert (a + b)[0] == a[0] && (a + b)[1..] == a[1..] + b;
      var (q, events) := Step(rule, json, p, a[0]);
      FeedAppend(rule, json, q, a[1..], b);
      var (r, more) := Feed(rule, json, q, a[1..]);
      assert events + (more + Feed(rule, json, r, b).1) == events + more + Feed(rule, json, r, b).1;
    }
  }

  function FeedPieces(rule: KeyRule, json: Json, p: Parser, pieces: seq<seq<Byte>>): (Parser, seq<Event>)
    decreases |pieces|
  {
    if pieces == [] then (p, [])
    else
      var (q, events) := Feed(rule, json, p, pieces[0]);
      var (r, more) := FeedPieces(rule, json, q, pieces[1..]);
      (r, events + more)
  }

  /** Only the octets count, not how they were cut into pieces. */
  lemma {:induction false} PiecesDoNotMatter(rule: KeyRule, json: Json, p: Parser, pieces: seq<seq<Byte>>)
    ensures FeedPieces(rule, json, p, pieces) == Feed(rule, json, p, Flatten(pieces))
    decreases |pieces|
  {
    hide Step;
    if pieces != [] {
      FeedAppend(rule, json, p, pieces[0], Flatten(pieces[1..]));
      PiecesDoNotMatter(rule, json, Feed(rule, json, p, pieces[0]).0, pieces[1..]);
    }
  }

  // Frames and the handlers

  function HandleAll(json: Json, total: seq<Byte>, rs: seq<Received>): (seq<Byte>, seq<Event>)
    decreases |rs|
  {
    if rs == [] then (total, [])
    else
      var (next, events) := Handle(json, total, rs[0]);
      var (last, more) := HandleAll(json, next, rs[1..]);
      (last, events + more)
  }

  function ReceiveAll(rule: KeyRule, key: MaskingKey, frames: seq<Frame>): (rs: seq<Received>)
    ensures |rs| == |frames|
    decreases |frames|
  {
    if frames == [] then []
    else [Receive(rule, key, frames[0])] + ReceiveAll(rule, NextKey(rule, key, frames[0]), frames[1..])
  }

  lemma {:induction false} HandleReceived(rule: KeyRule, json: Json, link: Link, frames: seq<Frame>)
    ensures var (last, events) := HandleFrames(rule, json, link, frames);
      HandleAll(json, link.total, ReceiveAll(rule, link.key, frames)) == (last.total, events)
    decreases |frames|
  {
    hide Handle, Receive, NextKey;
    if frames != [] {
      var rs := ReceiveAll(rule, link.key, frames);
      assert rs[1..] == ReceiveAll(rule, NextKey(rule, link.key, frames[0]), frames[1..]);
      HandleReceived(rule, json, HandleFrame(rule, json, link, frames[0]).0, frames[1..]);
    }
  }

  // Server frames

  function ServerReceived(messages: seq<(Byte, seq<Byte>)>): seq<Received> {
    if messages == [] then []
    else [Received(true, messages[0].0, false, messages[0].1)] + ServerReceived(messages[1..])
  }

  lemma {:induction false} FinalFramesReceived(rule: KeyRule, key: MaskingKey, messages: seq<(Byte, seq<Byte>)>)
    ensures ReceiveAll(rule, key, FinalFrames(messages)) == ServerReceived(messages)
    decreases |messages|
  {
    if messages != [] {
      var frames := FinalFrames(messages);
      assert frames[1..] == FinalFrames(messages[1..]);
      FinalFramesReceived(rule, key, messages[1..]);
    }
  }

  /** Round trip: what encodeFrame makes of any list of messages, cut into pieces in any way, reaches the
      handlers as exactly one final, unmasked frame for each, with its opcode and payload, and nothing is
      left in the parser. */
  lemma ServerRoundTrip(rule: KeyRule, json: Json, messages: seq<(Byte, seq<Byte>)>, pieces: seq<seq<Byte>>)
    requires forall i :: 0 <= i < |messages| ==> messages[i].0 < 0x10 && |messages[i].1| < TWO_TO_THE_64
    requires Flatten(pieces) == ServerStreamOf(messages)
    ensures var (p, events) := FeedPieces(rule, json, Fresh(), pieces);
      && (p.total, events) == HandleAll(json, [], ServerReceived(messages))
      && p.mode == InHeader && p.buffer == []
  {
    hide Feed, SplitFrames, HandleFrames, HandleAll, ServerReceived, ServerStreamOf;
    var s := Flatten(pieces);
    PiecesDoNotMatter(rule, json, Fresh(), pieces);
    ServerStream(messages);
    FreshMatches(rule);
    FeedIsSplit(rule, json, Fresh(), [], START, s);
    assert [] + s == s;
    HandleReceived(rule, json, START, FinalFrames(messages));
    FinalFramesReceived(rule, NO_KEY, messages);
  }

  // Client frames

  datatype Sent = Sent(fin: bool, opcode: Byte, key: MaskingKey, data: seq<Byte>)

  predicate Sendable(sent: seq<Sent>) {
    forall i :: 0 <= i < |sent| ==> sent[i].opcode < 0x10 && |sent[i].data| < TWO_TO_THE_64
  }

  function ClientStreamOf(sent: seq<Sent>): seq<Byte> {
    if sent == [] then []
    else ClientFrame(sent[0].fin, sent[0].opcode, sent[0].key, sent[0].data) + ClientStreamOf(sent[1..])
  }

  function WireFrame(f: Sent): Frame {
    Frame(f.fin, f.opcode, |f.data| >= 126, Some(f.key), Mask(f.data, f.key))
  }

  function WireFrames(sent: seq<Sent>): (frames: seq<Frame>)
    ensures |frames| == |sent|
  {
    if sent == [] then [] else [WireFrame(sent[0])] + WireFrames(sent[1..])
  }

  lemma {:induction false} ClientStream(sent: seq<Sent>)
    requires Sendable(sent)
    ensures SplitFrames(ClientStreamOf(sent)) == (WireFrames(sent), [])
    decreases |sent|
  {
    if sent == [] {
      NothingComplete();
    } else {
      hide ClientFrame, FirstFrame, HeaderComplete, FrameLength;
      var f, rest := sent[0], sent[1..];
      ClientFrameDecodes(f.fin, f.opcode, f.key, f.data, ClientStreamOf(rest));
      ClientStream(rest);
      assert ClientStreamOf(sent)[|ClientFrame(f.fin, f.opcode, f.key, f.data)|..] == ClientStreamOf(rest);
    }
  }

  /** What the handlers ought to see of masked frames. */
  function ClientReceived(sent: seq<Sent>): (rs: seq<Received>)
    ensures |rs| == |sent|
  {
    if sent == [] then []
    else [Received(sent[0].fin, sent[0].opcode, true, sent[0].data)] + ClientReceived(sent[1..])
  }

  /** What is delivered for a stream of client frames, cut into pieces in any way. */
  lemma ClientDelivery(rule: KeyRule, json: Json, sent: seq<Sent>, pieces: seq<seq<Byte>>)
    requires Sendable(sent) && Flatten(pieces) == ClientStreamOf(sent)
    ensures var (p, events) := FeedPieces(rule, json, Fresh(), pieces);
      && (p.total, events) == HandleAll(json, [], ReceiveAll(rule, NO_KEY, WireFrames(sent)))
      && p.mode == InHeader && p.buffer == []
  {
    hide Feed, SplitFrames, HandleFrames, HandleAll, ReceiveAll, WireFrames, ClientStreamOf;
    var s := Flatten(pieces);
    PiecesDoNotMatter(rule, json, Fresh(), pieces);
    ClientStream(sent);
    FreshMatches(rule);
    FeedIsSplit(rule, json, Fresh(), [], START, s);
    assert [] + s == s;
    HandleReceived(rule, json, START, WireFrames(sent));
  }

  lemma {:induction false} IntendedUnmasks(key: MaskingKey, sent: seq<Sent>)
    ensures ReceiveAll(AsIntended, key, WireFrames(sent)) == ClientReceived(sent)
    decreases |sent|
  {
    if sent != [] {
      assert WireFrames(sent)[1..] == WireFrames(sent[1..]);
      MaskTwice(sent[0].data, sent[0].key);
      IntendedUnmasks(sent[0].key, sent[1..]);
    }
  }

  /** Round trip with the key copied as the assertion has it: every frame masked per RFC 6455 section 5.3
      reaches the handlers unmasked. */
  lemma ClientRoundTrip(json: Json, sent: seq<Sent>, pieces: seq<seq<Byte>>)
    requires Sendable(sent) && Flatten(pieces) == ClientStreamOf(sent)
    ensures var (p, events) := FeedPieces(AsIntended, json, Fresh(), pieces);
      && (p.total, events) == HandleAll(json, [], ClientReceived(sent))
      && p.mode == InHeader && p.buffer == []
  {
    hide FeedPieces, HandleAll, ReceiveAll, ClientReceived, WireFrames, ClientStreamOf;
    ClientDelivery(AsIntended, json, sent, pieces);
    IntendedUnmasks(NO_KEY, sent);
  }

  /** Two keys agree on the octets that a payload of n octets uses. */
  predicate Agree(key: MaskingKey, other: MaskingKey, n: nat) {
    forall i :: 0 <= i < 4 && i < n ==> key[i] == other[i]
  }

  /** With the key copy as it is written, a frame with a seven-bit length is unmasked with the key of the
      last frame that had an extended length, or zeros: its own key has to agree with that one. */
  predicate KeysServe(retained: MaskingKey, sent: seq<Sent>)
    decreases |sent|
  {
    sent == [] ||
    (if |sent[0].data| >= 126 then KeysServe(sent[0].key, sent[1..])
     else Agree(sent[0].key, retained, |sent[0].data|) && KeysServe(retained, sent[1..]))
  }

  /** Exactly then all frames reach the handlers unmasked. */
  lemma {:induction false} WrittenUnmasks(key: MaskingKey, sent: seq<Sent>)
    ensures ReceiveAll(AsWritten, key, WireFrames(sent)) == ClientReceived(sent) <==> KeysServe(key, sent)
    decreases |sent|
  {
    if sent != [] {
      hide Agree;
      var f, rest := sent[0], sent[1..];
      var got := Receive(AsWritten, key, WireFrame(f));
      var next := NextKey(AsWritten, key, WireFrame(f));
      WrittenUnmasks(next, rest);
      assert WireFrames(sent)[1..] == WireFrames(rest);
      assert ReceiveAll(AsWritten, key, WireFrames(sent)) == [got] + ReceiveAll(AsWritten, next, WireFrames(rest));
      assert ReceiveAll(AsWritten, key, WireFrames(sent))[1..] == ReceiveAll(AsWritten, next, WireFrames(rest));
      assert ClientReceived(sent)[1..] == ClientReceived(rest);
      WrittenOne(key, f);
    }
  }

  lemma WrittenOne(key: MaskingKey, f: Sent)
    ensures Receive(AsWritten, key, WireFrame(f)) == Received(f.fin, f.opcode, true, f.data)
            <==> |f.data| >= 126 || Agree(f.key, key, |f.data|)
  {
    MaskTwice(f.data, f.key);
    MaskOther(f.data, f.key, key);
  }

  /** A frame for which it fails: one octet under a key that begins with another octet than zero, as the
      first frame of a connection. */
  lemma ShortMaskedFrameGarbled(json: Json)
    ensures var s := ClientFrame(true, TEXT, [1, 2, 3, 4], [0x41]);
      Feed(AsWritten, json, Fresh(), s).1 == [Payload([0x40], Requested(json, [0x40]))]
  {
    var f := Sent(true, TEXT, [1, 2, 3, 4], [0x41]);
    var s := ClientFrame(f.fin, f.opcode, f.key, f.data);
    assert ClientStreamOf([f]) == s + ClientStreamOf([f][1..]) == s;
    assert Flatten([s]) == s + Flatten([s][1..]) == s;
    ClientDelivery(AsWritten, json, [f], [s]);
    PiecesDoNotMatter(AsWritten, json, Fresh(), [s]);
    GarbledReceived(json, f);
  }

  lemma GarbledReceived(json: Json, f: Sent)
    requires f == Sent(true, TEXT, [1, 2, 3, 4], [0x41])
    ensures HandleAll(json, [], ReceiveAll(AsWritten, NO_KEY, WireFrames([f]))).1
            == [Payload([0x40], Requested(json, [0x40]))]
  {
    var got := Receive(AsWritten, NO_KEY, WireFrame(f));
    assert got.data == [0x40];
    assert WireFrames([f]) == [WireFrame(f)] + WireFrames([f][1..]) == [WireFrame(f)];
    assert [WireFrame(f)][1..] == [];
    assert ReceiveAll(AsWritten, NO_KEY, [WireFrame(f)]) == [got];
    assert [got][1..] == [];
    assert [] + got.data == got.data;
    assert Handle(json, [], got).1 == [Payload([0x40], Requested(json, [0x40]))];
  }

  // Single frames

  /** What one frame from a client comes to, opcode by opcode: 8 is close, 9 is ping, 10 is pong, all from 8
      on are control frames, and all below carry text. */
  lemma OneClientFrame(json: Json, fin: bool, opcode: Byte, key: MaskingKey, data: seq<Byte>)
    requires opcode < 0x10 && |data| < TWO_TO_THE_64
    ensures var (p, events) := Feed(AsIntended, json, Fresh(), ClientFrame(fin, opcode, key, data));
      && (opcode == 0x8 ==> events == if fin then [CloseRequest(data)] else [])
      && (opcode == 0x9 ==> events == if fin && data != [] then [PingRequest(data)] else [])
      && (opcode >= 0xA ==> events == [])
      && (opcode < 0x8 ==> events == if fin then [Payload(data, Requested(json, data))] else [])
      && (opcode >= 0x8 ==> p.total == [])
      && (opcode < 0x8 && !fin ==> p.total == data)
  {
    var f := Sent(fin, opcode, key, data);
    var s := ClientFrame(fin, opcode, key, data);
    hide ClientFrame, Feed, FeedPieces;
    OnePiece(s);
    assert ClientStreamOf([f]) == s + ClientStreamOf([f][1..]) == s;
    ClientRoundTrip(json, [f], [s]);
    PiecesDoNotMatter(AsIntended, json, Fresh(), [s]);
    var r := Received(fin, opcode, true, data);
    assert ClientReceived([f]) == [r] + ClientReceived([f][1..]) == [r];
    OneHandled(json, r);
    assert [] + data == data;
    ControlOpcodes(opcode);
  }

  /** The same for frames that are not masked: they differ in that a ping is refused. */
  lemma OneServerFrame(rule: KeyRule, json: Json, opcode: Byte, data: seq<Byte>)
    requires opcode < 0x10 && |data| < TWO_TO_THE_64
    ensures var (p, events) := Feed(rule, json, Fresh(), ServerFrame(opcode, data));
      && (opcode == 0x8 ==> events == [CloseRequest(data)])
      && (opcode >= 0x9 ==> events == [])
      && (opcode < 0x8 ==> events == [Payload(data, Requested(json, data))])
  {
    var s := ServerFrame(opcode, data);
    hide ServerFrame, Feed, FeedPieces;
    OnePiece(s);
    var messages := [(opcode, data)];
    assert ServerStreamOf(messages) == s + ServerStreamOf(messages[1..]) == s;
    ServerRoundTrip(rule, json, messages, [s]);
    PiecesDoNotMatter(rule, json, Fresh(), [s]);
    var r := Received(true, opcode, false, data);
    assert ServerReceived(messages) == [r] + ServerReceived(messages[1..]) == [r];
    OneHandled(json, r);
    assert [] + data == data;
    ControlOpcodes(opcode);
  }

  lemma OnePiece(s: seq<Byte>)
    ensures Flatten([s]) == s
  {
    assert Flatten([s]) == s + Flatten([s][1..]) == s;
  }

  lemma OneHandled(json: Json, r: Received)
    ensures HandleAll(json, [], [r]) == Handle(json, [], r)
  {
    hide Handle;
    assert [r][1..] == [];
    assert Handle(json, [], r).1 + [] == Handle(json, [], r).1;
  }

  lemma ControlOpcodes(opcode: Byte)
    requires opcode < 0x10
    ensures IsControl(opcode) <==> opcode >= 0x8
  {
  }

  /** The sample frames of RFC 6455 section 5.7: an unmasked and a masked text, a ping, and the headers of
      256 and of 65536 octets of binary data. */
  lemma SampleFrames(long: seq<Byte>, longer: seq<Byte>)
    requires |long| == 256 && |longer| == 65536
    ensures ServerFrame(0x1, HELLO) == [0x81, 0x05, 0x48, 0x65, 0x6c, 0x6c, 0x6f]
    ensures ClientFrame(true, 0x1, [0x37, 0xfa, 0x21, 0x3d], HELLO)
            == [0x81, 0x85, 0x37, 0xfa, 0x21, 0x3d, 0x7f, 0x9f, 0x4d, 0x51, 0x58]
    ensures ServerFrame(0x9, HELLO) == [0x89, 0x05, 0x48, 0x65, 0x6c, 0x6c, 0x6f]
    ensures ServerFrame(0x2, long) == [0x82, 0x7E, 0x01, 0x00] + long
    ensures ServerFrame(0x2, longer) == [0x82, 0x7F, 0x00, 0x00, 0x00, 0x00, 0x00, 0x01, 0x00, 0x00] + longer
  {
    SampleMask();
    SampleLengths();
  }

  const HELLO: seq<Byte> := [0x48, 0x65, 0x6c, 0x6c, 0x6f]

  lemma SampleMask()
    ensures Mask(HELLO, [0x37, 0xfa, 0x21, 0x3d]) == [0x7f, 0x9f, 0x4d, 0x51, 0x58]
  {
    var key: MaskingKey := [0x37, 0xfa, 0x21, 0x3d];
    assert Mask(HELLO, key)[4] == HELLO[4] ^ key[0];
  }

  lemma SampleLengths()
    ensures Octet(5) == 0x05
    ensures BigEndian(256, 2) == [0x01, 0x00]
    ensures BigEndian(65536, 8) == [0x00, 0x00, 0x00, 0x00, 0x00, 0x01, 0x00, 0x00]
  {
    assert Octet(0) == 0x00 && Octet(1) == 0x01;
    TwoOctets(256);
    hide Octet;
    assert BigEndian(0, 5) == [Octet(0), Octet(0), Octet(0), Octet(0), Octet(0)];
    assert BigEndian(1, 6) == BigEndian(0, 5) + [Octet(1)];
    assert BigEndian(256, 7) == BigEndian(1, 6) + [Octet(0)];
    assert BigEndian(65536, 8) == BigEndian(256, 7) + [Octet(0)];
  }

  // Assembly of fragmented messages

  function Data(rs: seq<Received>): seq<Received> {
    if rs == [] then []
    else (if IsControl(rs[0].opcode) then [] else [rs[0]]) + Data(rs[1..])
  }

  function Texts(rs: seq<Received>): seq<Byte> {
    if rs == [] then [] else rs[0].data + Texts(rs[1..])
  }

  /** What a control frame gives to the outside. */
  function Control(r: Received): seq<Event> {
    if !IsControl(r.opcode) || !r.fin then []
    else if r.opcode == CLOSE then [CloseRequest(r.data)]
    else if r.opcode == PING && r.masked && r.data != [] then [PingRequest(r.data)]
    else []
  }

  function Controls(rs: seq<Received>): seq<Event> {
    if rs == [] then [] else Control(rs[0]) + Controls(rs[1..])
  }

  function Payloads(events: seq<Event>): seq<seq<Byte>> {
    if events == [] then []
    else (if events[0].Payload? then [events[0].text] else []) + Payloads(events[1..])
  }

  function Requests(events: seq<Event>): seq<Event> {
    if events == [] then []
    else (if events[0].Payload? then [] else [events[0]]) + Requests(events[1..])
  }

  lemma {:induction false} PayloadsAppend(a: seq<Event>, b: seq<Event>)
    ensures Payloads(a + b) == Payloads(a) + Payloads(b)
    decreases |a|
  {
    if a == [] {
      assert a + b == b;
    } else {
      assert (a + b)[1..] == a[1..] + b;
      PayloadsAppend(a[1..], b);
    }
  }

  lemma {:induction false} RequestsAppend(a: seq<Event>, b: seq<Event>)
    ensures Requests(a + b) == Requests(a) + Requests(b)
    decreases |a|
  {
    if a == [] {
      assert a + b == b;
    } else {
      assert (a + b)[1..] == a[1..] + b;
      RequestsAppend(a[1..], b);
    }
  }

  lemma FiltersAppend(a: seq<Event>, b: seq<Event>)
    ensures Payloads(a + b) == Payloads(a) + Payloads(b)
    ensures Requests(a + b) == Requests(a) + Requests(b)
  {
    PayloadsAppend(a, b);
    RequestsAppend(a, b);
  }

  /** Control frames and data frames do not touch each other: the payloads are those of the data frames
      alone, the requests those of the control frames alone, each in order. */
  lemma {:induction false} Interleaving(json: Json, total: seq<Byte>, rs: seq<Received>)
    ensures var (last, events) := HandleAll(json, total, rs);
      && last == HandleAll(json, total, Data(rs)).0
      && Payloads(events) == Payloads(HandleAll(json, total, Data(rs)).1)
      && Requests(events) == Controls(rs)
    decreases |rs|
  {
    if rs != [] {
      var (next, events) := Handle(json, total, rs[0]);
      var (_, more) := HandleAll(json, next, rs[1..]);
      Interleaving(json, next, rs[1..]);
      FiltersAppend(events, more);
      OneFrame(json, total, rs[0]);
      if IsControl(rs[0].opcode) {
        assert Data(rs) == Data(rs[1..]);
      } else {
        assert Data(rs)[1..] == Data(rs[1..]);
        FiltersAppend(events, HandleAll(json, next, Data(rs[1..])).1);
      }
    }
  }

  lemma OneFrame(json: Json, total: seq<Byte>, r: Received)
    ensures Requests(Handle(json, total, r).1) == Control(r)
    ensures IsControl(r.opcode) ==> Handle(json, total, r).0 == total && Payloads(Handle(json, total, r).1) == []
  {
  }

  /** The frames of one message: fragments, and a final frame at the end. */
  predicate IsMessage(g: seq<Received>) {
    g != [] && forall i :: 0 <= i < |g| ==> !IsControl(g[i].opcode) && (g[i].fin <==> i == |g| - 1)
  }

  predicate IsFragments(g: seq<Received>) {
    forall i :: 0 <= i < |g| ==> !IsControl(g[i].opcode) && !g[i].fin
  }

  lemma {:induction false} MessageHandled(json: Json, total: seq<Byte>, g: seq<Received>, more: seq<Received>)
    requires IsMessage(g)
    ensures var (next, events) := HandOver(json, total + Texts(g));
      HandleAll(json, total, g + more) == (HandleAll(json, next, more).0, events + HandleAll(json, next, more).1)
    decreases |g|
  {
    hide IsControl, HandOver;
    var rest := g[1..];
    assert (g + more)[1..] == rest + more;
    if rest == [] {
      assert rest + more == more;
      assert Texts(g) == g[0].data + Texts(rest) == g[0].data;
    } else {
      assert total + g[0].data + Texts(rest) == total + Texts(g);
      MessageHandled(json, total + g[0].data, rest, more);
      var tail := HandleAll(json, total + g[0].data, rest + more);
      assert [] + tail.1 == tail.1;
    }
  }

  lemma {:induction false} FragmentsHandled(json: Json, total: seq<Byte>, g: seq<Received>)
    requires IsFragments(g)
    ensures HandleAll(json, total, g) == (total + Texts(g), [])
    decreases |g|
  {
    hide IsControl;
    if g == [] {
      assert total + [] == total;
    } else {
      assert total + g[0].data + Texts(g[1..]) == total + Texts(g);
      FragmentsHandled(json, total + g[0].data, g[1..]);
      assert Handle(json, total, g[0]) == (total + g[0].data, []);
      assert HandleAll(json, total, g).1 == [];
    }
  }

  function MessageTexts(groups: seq<seq<Received>>): (texts: seq<seq<Byte>>)
    ensures |texts| == |groups|
    ensures forall i :: 0 <= i < |groups| ==> texts[i] == Texts(groups[i])
  {
    seq(|groups|, i requires 0 <= i < |groups| => Texts(groups[i]))
  }

  /** What is handed to the library for messages with given texts, and what stays: behind a text that does
      not parse the buffer is not cleared. */
  function HandedOver(json: Json, total: seq<Byte>, texts: seq<seq<Byte>>): (seq<seq<Byte>>, seq<Byte>)
    decreases |texts|
  {
    if texts == [] then ([], total)
    else
      var text := total + texts[0];
      var (more, last) := HandedOver(json, HandOver(json, text).0, texts[1..]);
      ([text] + more, last)
  }

  lemma {:induction false} MessagesHandled(json: Json, total: seq<Byte>, groups: seq<seq<Received>>,
                                           partial: seq<Received>)
    requires forall i :: 0 <= i < |groups| ==> IsMessage(groups[i])
    requires IsFragments(partial)
    ensures var (last, events) := HandleAll(json, total, Flatten(groups) + partial);
      var (texts, rest) := HandedOver(json, total, MessageTexts(groups));
      last == rest + Texts(partial) && Payloads(events) == texts
    decreases |groups|
  {
    hide IsMessage, IsFragments, Texts, HandOver;
    if groups == [] {
      assert Flatten(groups) + partial == partial;
      FragmentsHandled(json, total, partial);
    } else {
      var more := Flatten(groups[1..]) + partial;
      assert Flatten(groups) + partial == groups[0] + more;
      assert MessageTexts(groups)[1..] == MessageTexts(groups[1..]);
      MessageHandled(json, total, groups[0], more);
      var (next, events) := HandOver(json, total + Texts(groups[0]));
      MessagesHandled(json, next, groups[1..], partial);
      FiltersAppend(events, HandleAll(json, next, more).1);
      HandOverPayload(json, total + Texts(groups[0]));
    }
  }

  lemma HandOverPayload(json: Json, text: seq<Byte>)
    ensures Payloads(HandOver(json, text).1) == [text]
  {
    assert HandOver(json, text).1[1..] == [];
  }

  /** A parse in place does not change the length of the text. */
  ghost predicate InPlace(json: Json) {
    forall text :: |json.residue(text)| == |text|
  }

  predicate AllButLastParse(json: Json, texts: seq<seq<Byte>>) {
    forall i :: 0 <= i < |texts| - 1 ==> json.accepts(texts[i])
  }

  /** The texts are handed over as they were sent if and only if all but the last of them parse. */
  lemma {:induction false} HandedOverAsSent(json: Json, total: seq<Byte>, texts: seq<seq<Byte>>)
    requires InPlace(json)
    ensures HandedOver(json, total, texts).0 == texts <==> texts == [] || (total == [] && AllButLastParse(json, texts))
    ensures total == [] && (forall i :: 0 <= i < |texts| ==> json.accepts(texts[i]))
            ==> HandedOver(json, total, texts).1 == []
    decreases |texts|
  {
    if texts != [] {
      var text, rest := total + texts[0], texts[1..];
      var next := HandOver(json, text).0;
      HandedOverAsSent(json, next, rest);
      assert next == [] <==> json.accepts(text);
      assert text == texts[0] <==> total == [];
      assert HandedOver(json, total, texts).0[1..] == HandedOver(json, next, rest).0;
      assert forall i :: 0 < i < |texts| ==> texts[i] == rest[i - 1];
    }
  }

  /** A pair of messages for which it fails: any two, when the first does not parse. */
  lemma RejectedTextStays(json: Json, a: seq<Byte>, b: seq<Byte>)
    requires !json.accepts(a)
    ensures HandedOver(json, [], [a, b]).0 == [a, json.residue(a + [0]) + b]
  {
    assert [] + a == a;
    var next := json.residue(a + [0]);
    assert [a, b][1..] == [b] && [b][1..] == [];
    assert HandOver(json, a).0 == next;
    assert HandedOver(json, next, [b]).0 == [next + b];
  }

  /** Assembly: whatever control frames are interleaved with the fragments of any number of messages and a
      last unfinished one, each message is handed over as the concatenation of its fragments, in order,
      behind what an earlier one that did not parse has left; nothing is left, and the texts are the ones
      sent, exactly as long as they parse.  The unfinished rest is kept, and the control frames that are
      accepted are delivered in order. */
  lemma MessagesAssembled(json: Json, rs: seq<Received>, groups: seq<seq<Received>>, partial: seq<Received>)
    requires Data(rs) == Flatten(groups) + partial
    requires forall i :: 0 <= i < |groups| ==> IsMessage(groups[i])
    requires IsFragments(partial)
    ensures var (total, events) := HandleAll(json, [], rs);
      var texts := MessageTexts(groups);
      && (Payloads(events), total) == (HandedOver(json, [], texts).0, HandedOver(json, [], texts).1 + Texts(partial))
      && Requests(events) == Controls(rs)
      && (InPlace(json) ==>
            && (Payloads(events) == texts <==> AllButLastParse(json, texts))
            && ((forall i :: 0 <= i < |texts| ==> json.accepts(texts[i])) ==> total == Texts(partial)))
  {
    hide Handle, IsMessage, IsFragments, HandedOver, Texts;
    Interleaving(json, [], rs);
    MessagesHandled(json, [], groups, partial);
    if InPlace(json) {
      hide InPlace;
      HandedOverAsSent(json, [], MessageTexts(groups));
      assert [] + Texts(partial) == Texts(partial);
    }
  }

  // Streams

  /** The messages of a sequence of data frames, and the fragments of one that has not ended. */
  function Groups(rs: seq<Received>): (seq<seq<Received>>, seq<Received>) {
    if rs == [] then ([], [])
    else
      var (groups, partial) := Groups(rs[1..]);
      if rs[0].fin then ([[rs[0]]] + groups, partial)
      else if groups == [] then ([], [rs[0]] + partial)
      else ([[rs[0]] + groups[0]] + groups[1..], partial)
  }

  /** A sequence of data frames is made of whole messages and fragments of one more. */
  ghost predicate Divides(rs: seq<Received>, groups: seq<seq<Received>>, partial: seq<Received>) {
    && rs == Flatten(groups) + partial && IsFragments(partial)
    && forall i :: 0 <= i < |groups| ==> IsMessage(groups[i])
  }

  lemma {:induction false} GroupsDivide(rs: seq<Received>)
    requires forall i :: 0 <= i < |rs| ==> !IsControl(rs[i].opcode)
    ensures Divides(rs, Groups(rs).0, Groups(rs).1)
    decreases |rs|
  {
    hide Divides, IsControl;
    if rs == [] {
      NothingDivides();
    } else {
      var r := rs[0];
      var (more, rest) := Groups(rs[1..]);
      GroupsDivide(rs[1..]);
      assert rs == [r] + rs[1..];
      if r.fin {
        FinalDivides(r, rs[1..], more, rest);
      } else if more != [] {
        assert more == [more[0]] + more[1..];
        FragmentDivides(r, rs[1..], more[0], more[1..], rest);
      } else {
        PartialDivides(r, rs[1..], rest);
      }
    }
  }

  lemma NothingDivides()
    ensures Divides([], [], [])
  {
  }

  lemma FinalDivides(r: Received, rs: seq<Received>, more: seq<seq<Received>>, rest: seq<Received>)
    requires !IsControl(r.opcode) && r.fin && Divides(rs, more, rest)
    ensures Divides([r] + rs, [[r]] + more, rest)
  {
    hide IsControl, IsFragments;
    assert IsMessage([r]);
    hide IsMessage;
    FlattenFirst([r], more);
    hide Flatten;
    Regroup([r], Flatten(more), rest);
  }

  lemma FragmentDivides(r: Received, rs: seq<Received>, g: seq<Received>, more: seq<seq<Received>>,
                        rest: seq<Received>)
    requires !IsControl(r.opcode) && !r.fin && Divides(rs, [g] + more, rest)
    ensures Divides([r] + rs, [[r] + g] + more, rest)
  {
    hide IsFragments;
    assert IsMessage(([g] + more)[0]);
    MessageLonger(r, g);
    hide IsMessage;
    forall i | 0 <= i < |more| ensures IsMessage(more[i]) {
      assert IsMessage(([g] + more)[i + 1]);
    }
    FlattenFirst(g, more);
    FlattenFirst([r] + g, more);
    hide Flatten;
    Regroup([r], g, Flatten(more));
    Regroup([r], g + Flatten(more), rest);
  }

  lemma PartialDivides(r: Received, rs: seq<Received>, rest: seq<Received>)
    requires !IsControl(r.opcode) && !r.fin && Divides(rs, [], rest)
    ensures Divides([r] + rs, [], [r] + rest)
  {
    hide IsControl;
    assert [] + rest == rest && [] + ([r] + rest) == [r] + rest;
  }

  lemma Regroup<T>(a: seq<T>, b: seq<T>, c: seq<T>)
    ensures (a + b) + c == a + (b + c)
  {
  }

  lemma FlattenFirst<T>(piece: seq<T>, more: seq<seq<T>>)
    ensures Flatten([piece] + more) == piece + Flatten(more)
  {
    assert ([piece] + more)[1..] == more;
  }

  lemma MessageLonger(r: Received, g: seq<Received>)
    requires !IsControl(r.opcode) && !r.fin && IsMessage(g)
    ensures IsMessage([r] + g)
  {
    hide IsControl;
  }

  lemma {:induction false} DataOnly(rs: seq<Received>)
    ensures forall i :: 0 <= i < |Data(rs)| ==> !IsControl(Data(rs)[i].opcode)
  {
    if rs != [] {
      DataOnly(rs[1..]);
    }
  }

  /** The requests that the callback has been given. */
  function Called(events: seq<Event>): seq<Request> {
    if events == [] then []
    else
      (if events[0].Payload? && events[0].request.Some? then [events[0].request.value] else []) + Called(events[1..])
  }

  /** The requests in a list of texts. */
  function RequestsIn(json: Json, texts: seq<seq<Byte>>): seq<Request> {
    if texts == [] then []
    else
      var request := Requested(json, texts[0]);
      (if request.Some? then [request.value] else []) + RequestsIn(json, texts[1..])
  }

  lemma {:induction false} CalledForPayloads(json: Json, total: seq<Byte>, rs: seq<Received>)
    ensures var events := HandleAll(json, total, rs).1; Called(events) == RequestsIn(json, Payloads(events))
    decreases |rs|
  {
    if rs != [] {
      var (next, events) := Handle(json, total, rs[0]);
      CalledForPayloads(json, next, rs[1..]);
      OneCalled(json, total, rs[0]);
      PrependCalled(json, events, HandleAll(json, next, rs[1..]).1);
    }
  }

  lemma OneCalled(json: Json, total: seq<Byte>, r: Received)
    ensures var events := Handle(json, total, r).1;
      |events| <= 1 && forall e :: e in events ==> e.Payload? ==> e.request == Requested(json, e.text)
  {
  }

  lemma PrependCalled(json: Json, events: seq<Event>, more: seq<Event>)
    requires |events| <= 1 && forall e :: e in events ==> e.Payload? ==> e.request == Requested(json, e.text)
    requires Called(more) == RequestsIn(json, Payloads(more))
    ensures Called(events + more) == RequestsIn(json, Payloads(events + more))
  {
    if events == [] {
      assert events + more == more;
    } else {
      assert (events + more)[1..] == more;
      if events[0].Payload? {
        assert Payloads(events + more)[1..] == Payloads(more);
      } else {
        assert Payloads(events + more) == Payloads(more);
      }
    }
  }

  /** Every stream of octets, in any pieces: its data frames divide into messages and an unfinished rest,
      and what is handed over, called back, requested and kept is what the assembly of these gives. */
  lemma StreamAssembled(rule: KeyRule, json: Json, pieces: seq<seq<Byte>>)
    ensures var (p, events) := FeedPieces(rule, json, Fresh(), pieces);
      var rs := ReceiveAll(rule, NO_KEY, SplitFrames(Flatten(pieces)).0);
      var (groups, partial) := Groups(Data(rs));
      var texts := MessageTexts(groups);
      && Data(rs) == Flatten(groups) + partial && IsFragments(partial)
      && (forall i :: 0 <= i < |groups| ==> IsMessage(groups[i]))
      && (Payloads(events), p.total) == (HandedOver(json, [], texts).0, HandedOver(json, [], texts).1 + Texts(partial))
      && Called(events) == RequestsIn(json, Payloads(events))
      && Requests(events) == Controls(rs)
      && (InPlace(json) ==> (Payloads(events) == texts <==> AllButLastParse(json, texts)))
  {
    hide Feed, FeedPieces, SplitFrames, HandleAll, ReceiveAll, Data, Groups, HandedOver, Texts, InPlace;
    hide AllButLastParse, IsMessage, IsFragments, Called, RequestsIn, Payloads, Controls;
    var s := Flatten(pieces);
    var frames := SplitFrames(s).0;
    var rs := ReceiveAll(rule, NO_KEY, frames);
    PiecesDoNotMatter(rule, json, Fresh(), pieces);
    StreamIsFrames(rule, json, s);
    HandleReceived(rule, json, START, frames);
    DataOnly(rs);
    GroupsDivide(Data(rs));
    MessagesAssembled(json, rs, Groups(Data(rs)).0, Groups(Data(rs)).1);
    CalledForPayloads(json, [], rs);
  }
}

/** From one server's threads to the other end of the connection. */
module WebSocketSending {
  import opened Bytes
  import opened WebSocketFrames
  import opened WebSocketStream
  import opened WebSocketDelivery
  import Q = SocketWriteQueue

  function ServerFrames(messages: seq<(Byte, seq<Byte>)>): (frames: seq<seq<Byte>>)
    ensures |frames| == |messages|
    ensures forall i :: 0 <= i < |messages| ==> frames[i] == ServerFrame(messages[i].0, messages[i].1) != []
  {
    seq(|messages|, i requires 0 <= i < |messages| => ServerFrame(messages[i].0, messages[i].1))
  }

  lemma {:induction false} FramesAreStream(messages: seq<(Byte, seq<Byte>)>)
    ensures Flatten(ServerFrames(messages)) == ServerStreamOf(messages)
    decreases |messages|
  {
    hide ServerFrame;
    if messages != [] {
      assert ServerFrames(messages)[1..] == ServerFrames(messages[1..]);
      FramesAreStream(messages[1..]);
    }
  }

  /** Whatever threads send through the write queue, in whatever order their steps fall, as long as they send
      encoded frames: once all is quiet and the socket has reported no error, the queue is empty and the
      written bytes are exactly the frames of the messages sent, in the order of bufferWriteLock_. */
  lemma SentIsOnTheWire(n: nat, steps: seq<Q.Step>, messages: seq<(Byte, seq<Byte>)>)
    requires Q.Executable(Q.Init(n), steps) && Q.AllSucceed(steps) && Q.Quiescent(Q.Exec(Q.Init(n), steps))
    requires Q.SentIn(steps) == ServerFrames(messages)
    requires forall i :: 0 <= i < |messages| ==> messages[i].0 < 0x10 && |messages[i].1| < TWO_TO_THE_64
    ensures var s := Q.Exec(Q.Init(n), steps);
      && s.queue == [] && Flatten(s.finished) == ServerStreamOf(messages)
      && SplitFrames(Flatten(s.finished)) == (FinalFrames(messages), [])
  {
    hide Q.Executable, Q.Exec, SplitFrames, FinalFrames, ServerFrame;
    var sent := Q.SentIn(steps);
    Q.NothingLeftBehind(n, steps);
    Q.BeforeEmptyIs(sent, |sent|);
    assert sent[..|sent|] == sent;
    FramesAreStream(messages);
    ServerStream(messages);
  }

  /** A parser that receives these bytes in any pieces handles each message once, as it was sent. */
  lemma SentIsHandled(n: nat, steps: seq<Q.Step>, messages: seq<(Byte, seq<Byte>)>, pieces: seq<seq<Byte>>,
                      rule: KeyRule, json: Json)
    requires Q.Executable(Q.Init(n), steps) && Q.AllSucceed(steps) && Q.Quiescent(Q.Exec(Q.Init(n), steps))
    requires Q.SentIn(steps) == ServerFrames(messages)
    requires Flatten(pieces) == Flatten(Q.Exec(Q.Init(n), steps).finished)
    requires forall i :: 0 <= i < |messages| ==> messages[i].0 < 0x10 && |messages[i].1| < TWO_TO_THE_64
    ensures var (p, events) := FeedPieces(rule, json, Fresh(), pieces);
      && (p.total, events) == HandleAll(json, [], ServerReceived(messages))
      && p.mode == InHeader && p.buffer == []
  {
    SentIsOnTheWire(n, steps, messages);
    ServerRoundTrip(rule, json, messages, pieces);
  }
}

/** From one client's threads to the other end of the connection. */
module IrcConnection {
  import opened Bytes
  import opened IrcStream
  import Q = IrcWriteQueue

  /** Whatever threads send through the write queue, in whatever order their steps fall: once all is
      quiet and the socket has reported no error, a parser that receives the written bytes in any pieces
      reads exactly the messages sent, in the order of bufferWriteLock_, if and only if they are well
      formed, have no line ends inside, and fit the buffer. */
  lemma SentIsRead(n: nat, steps: seq<Q.Step>, pieces: seq<string>)
    requires Q.Executable(Q.Init(n), steps) && Q.AllSucceed(steps) && Q.Quiescent(Q.Exec(Q.Init(n), steps))
    requires Flatten(pieces) == Flatten(Q.Exec(Q.Init(n), steps).finished)
    ensures var sent := Q.SentIn(steps);
      FeedPieces(FRESH, pieces) == Result(FRESH, true, sent) <==> Printable(sent) && Fit(sent)
  {
    Q.NothingLeftBehind(n, steps);
    StreamRoundTrip(Q.SentIn(steps), pieces);
  }
}

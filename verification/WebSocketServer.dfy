/** encodeFrame of WebSocketServer.cpp, in the form its comments describe: the two casts that make a
    pointer of the length take its octets. */
module WebSocketServer {
  import opened Options
  import opened Bytes
  import opened WebSocketFrames

  method EncodeFrame(opcode: Byte, data: seq<Byte>) returns (frame: seq<Byte>)
    requires opcode < 0x10 && |data| < TWO_TO_THE_64
    ensures frame == ServerFrame(opcode, data)
    ensures FrameComplete(frame) && FrameLength(frame) == |frame|
    ensures FirstFrame(frame) == Frame(true, opcode, |data| >= 126, None, data)
  {
    ServerFrameDecodes(opcode, data, []);
    assert ServerFrame(opcode, data) + [] == ServerFrame(opcode, data);
    hide BigEndian, Octet, FirstFrame, FrameComplete, FrameLength;
    frame := [];
    frame := frame + [0x80 | opcode];
    if |data| >= 0x10000 {
      frame := frame + [0x7F];
      var lenByBytes := BigEndian(|data|, 8);
      frame := frame + lenByBytes;
    } else if |data| >= 0x7E {
      frame := frame + [0x7E];
      var lenByBytes := BigEndian(|data|, 2);
      frame := frame + lenByBytes;
    } else {
      frame := frame + [Octet(|data|)];
    }
    frame := frame + data;
  }
}

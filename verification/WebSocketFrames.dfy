/** WebSocket frames as octets: the base framing of RFC 6455 section 5.2 and the masking of section
    5.3, and the division of a byte stream into frames. */
module WebSocketFrames {
  import opened Options
  import opened Bytes

  const TEXT: Byte := 0x1
  const CLOSE: Byte := 0x8
  const PING: Byte := 0x9
  const PONG: Byte := 0xA

  type MaskingKey = k: seq<Byte> | |k| == 4 witness [0, 0, 0, 0]

  /** A frame off the wire: whether its length is in an extended field, the key if it is masked, and the
      payload, then still masked. */
  datatype Frame = Frame(fin: bool, opcode: Byte, extended: bool, key: Option<MaskingKey>, payload: seq<Byte>)

  // The fields of the first two octets

  predicate FinBit(b0: Byte) { b0 & 0x80 != 0 }

  function OpcodeBits(b0: Byte): Byte { b0 & 0x0F }

  predicate MaskBit(b1: Byte) { b1 & 0x80 != 0 }

  function LengthBits(b1: Byte): Byte { b1 & 0x7F }

  function ExtendedLength(b1: Byte): nat {
    if LengthBits(b1) == 126 then 2 else if LengthBits(b1) == 127 then 8 else 0
  }

  function HeaderLength(b1: Byte): nat {
    2 + ExtendedLength(b1) + (if MaskBit(b1) then 4 else 0)
  }

  predicate HeaderComplete(s: seq<Byte>) {
    |s| >= 2 && |s| >= HeaderLength(s[1])
  }

  function PayloadLength(s: seq<Byte>): nat
    requires HeaderComplete(s)
  {
    var n := ExtendedLength(s[1]);
    if n == 0 then Value(LengthBits(s[1])) else BigEndianValue(s[2..2 + n])
  }

  function FrameLength(s: seq<Byte>): nat
    requires HeaderComplete(s)
  {
    HeaderLength(s[1]) + PayloadLength(s)
  }

  predicate FrameComplete(s: seq<Byte>) {
    HeaderComplete(s) && |s| >= FrameLength(s)
  }

  /** The frame that a byte string begins with. */
  function FirstFrame(s: seq<Byte>): Frame
    requires FrameComplete(s)
  {
    var h := HeaderLength(s[1]);
    Frame(FinBit(s[0]), OpcodeBits(s[0]), ExtendedLength(s[1]) > 0,
          if MaskBit(s[1]) then Some(s[h - 4..h]) else None, s[h..FrameLength(s)])
  }

  /** All whole frames of a byte string, and the beginning of the next one. */
  function SplitFrames(s: seq<Byte>): (r: (seq<Frame>, seq<Byte>))
    ensures !FrameComplete(r.1)
    decreases |s|
  {
    if !FrameComplete(s) then ([], s)
    else
      var (frames, rest) := SplitFrames(s[FrameLength(s)..]);
      ([FirstFrame(s)] + frames, rest)
  }

  /** More octets behind a whole frame do not change it. */
  lemma FrameIsPrefix(s: seq<Byte>, more: seq<Byte>)
    requires FrameComplete(s)
    ensures FrameComplete(s + more) && FrameLength(s + more) == FrameLength(s)
    ensures FirstFrame(s + more) == FirstFrame(s)
  {
    hide BigEndianValue, Value, ExtendedLength, MaskBit;
    var n, h := ExtendedLength(s[1]), HeaderLength(s[1]);
    assert (s + more)[0] == s[0] && (s + more)[1] == s[1];
    SliceOfPrefix(s, more, 2, 2 + n);
    if MaskBit(s[1]) {
      SliceOfPrefix(s, more, h - 4, h);
    }
    SliceOfPrefix(s, more, h, FrameLength(s));
  }

  lemma SliceOfPrefix(s: seq<Byte>, more: seq<Byte>, i: nat, j: nat)
    requires i <= j <= |s|
    ensures (s + more)[i..j] == s[i..j]
  {
  }

  // Masking

  /** Octet i exclusive-ored with octet i modulo 4 of the key. */
  function Mask(data: seq<Byte>, key: MaskingKey): (r: seq<Byte>)
    ensures |r| == |data|
  {
    seq(|data|, i requires 0 <= i < |data| => data[i] ^ key[i % 4])
  }

  lemma XorTwice(b: Byte, k: Byte)
    ensures (b ^ k) ^ k == b
  {
  }

  /** Masking undoes itself. */
  lemma MaskTwice(data: seq<Byte>, key: MaskingKey)
    ensures Mask(Mask(data, key), key) == data
  {
    forall i | 0 <= i < |data| ensures Mask(Mask(data, key), key)[i] == data[i] {
      XorTwice(data[i], key[i % 4]);
    }
  }

  lemma XorCancel(b: Byte, k: Byte, l: Byte)
    ensures (b ^ k) ^ l == b <==> k == l
  {
  }

  /** Unmasking with another key gives the data exactly when the keys agree where they are used. */
  lemma MaskOther(data: seq<Byte>, key: MaskingKey, other: MaskingKey)
    ensures Mask(Mask(data, key), other) == data
            <==> forall i :: 0 <= i < 4 && i < |data| ==> key[i] == other[i]
  {
    var twice := Mask(Mask(data, key), other);
    if twice == data {
      forall i | 0 <= i < 4 && i < |data| ensures key[i] == other[i] {
        XorCancel(data[i], key[i], other[i]);
        assert twice[i] == data[i];
      }
    }
    if forall i :: 0 <= i < 4 && i < |data| ==> key[i] == other[i] {
      forall i | 0 <= i < |data| ensures twice[i] == data[i] {
        XorCancel(data[i], key[i % 4], other[i % 4]);
      }
    }
  }

  // Encoding

  const LENGTH_16: Byte := 0x7E
  const LENGTH_64: Byte := 0x7F

  /** The seven-bit length field, and the octets of the extended one, in the shortest form. */
  function LengthField(n: nat): Byte {
    if n >= 0x10000 then LENGTH_64 else if n >= 0x7E then LENGTH_16 else Octet(n)
  }

  function LengthExtension(n: nat): seq<Byte> {
    if n >= 0x10000 then BigEndian(n, 8) else if n >= 0x7E then BigEndian(n, 2) else []
  }

  /** A frame from the server: one fragment, not masked. */
  function ServerFrame(opcode: Byte, data: seq<Byte>): seq<Byte> {
    [0x80 | opcode, LengthField(|data|)] + LengthExtension(|data|) + data
  }

  /** A frame from a client, masked as section 5.3 demands. */
  function ClientFrame(fin: bool, opcode: Byte, key: MaskingKey, data: seq<Byte>): seq<Byte> {
    [(if fin then 0x80 else 0) | opcode, 0x80 | LengthField(|data|)] + LengthExtension(|data|) + key + Mask(data, key)
  }

  lemma FirstOctet(fin: bool, opcode: Byte)
    requires opcode < 0x10
    ensures var b := (if fin then 0x80 else 0) | opcode; FinBit(b) == fin && OpcodeBits(b) == opcode
  {
  }

  lemma HighBit(b: Byte)
    requires b < 0x80
    ensures !MaskBit(b) && LengthBits(b) == b
    ensures MaskBit(0x80 | b) && LengthBits(0x80 | b) == b
  {
  }

  lemma SmallOctet(n: nat)
    requires n < 126
    ensures Octet(n) < 126
  {
    OctetInverse(n, 0);
    ValueOrder(Octet(n));
  }

  lemma ValueOrder(b: Byte)
    ensures Value(b) < 126 <==> b < 126
  {
  }

  lemma LengthFieldForms(n: nat)
    ensures var b := LengthField(n);
      && b < 0x80
      && (b == 126 <==> 126 <= n < 0x10000) && (b == 127 <==> n >= 0x10000)
      && (n < 126 ==> Value(b) == n)
  {
    hide Octet, Value;
    if n < 126 {
      SmallOctet(n);
      OctetInverse(n, 0);
    }
  }

  /** What a header with the shortest length form says. */
  lemma HeaderSays(s: seq<Byte>, n: nat, masked: bool)
    requires n < TWO_TO_THE_64
    requires |s| >= 2 + |LengthExtension(n)| + (if masked then 4 else 0)
    requires s[1] == (if masked then 0x80 | LengthField(n) else LengthField(n))
    requires s[2..2 + |LengthExtension(n)|] == LengthExtension(n)
    ensures MaskBit(s[1]) == masked
    ensures HeaderComplete(s) && HeaderLength(s[1]) == 2 + |LengthExtension(n)| + (if masked then 4 else 0)
    ensures PayloadLength(s) == n
    ensures ExtendedLength(s[1]) > 0 <==> n >= 126
  {
    hide Octet, Value, MaskBit, LengthBits, BigEndian, BigEndianValue, LengthField;
    LengthFieldForms(n);
    HighBit(LengthField(n));
    Pow256Values();
    if n >= 0x10000 {
      BigEndianRoundTrip(n, 8);
    } else if n >= 126 {
      BigEndianRoundTrip(n, 2);
    }
  }

  /** A server frame in a stream is read back as the one final, unmasked frame it was made from. */
  lemma ServerFrameDecodes(opcode: Byte, data: seq<Byte>, more: seq<Byte>)
    requires opcode < 0x10 && |data| < TWO_TO_THE_64
    ensures var s := ServerFrame(opcode, data) + more;
      && FrameComplete(s) && FrameLength(s) == |ServerFrame(opcode, data)|
      && FirstFrame(s) == Frame(true, opcode, |data| >= 126, None, data)
  {
    hide MaskBit, LengthField, LengthExtension, PayloadLength, HeaderLength;
    var s, n := ServerFrame(opcode, data), |LengthExtension(|data|)|;
    FirstOctet(true, opcode);
    assert s[2..2 + n] == LengthExtension(|data|);
    HeaderSays(s, |data|, false);
    assert s[2 + n..] == data;
    assert FrameComplete(s);
    FrameIsPrefix(s, more);
  }

  /** A client frame is read back as what it was made from, with the payload masked by the key sent. */
  lemma ClientFrameDecodes(fin: bool, opcode: Byte, key: MaskingKey, data: seq<Byte>, more: seq<Byte>)
    requires opcode < 0x10 && |data| < TWO_TO_THE_64
    ensures var s := ClientFrame(fin, opcode, key, data) + more;
      && FrameComplete(s) && FrameLength(s) == |ClientFrame(fin, opcode, key, data)|
      && FirstFrame(s) == Frame(fin, opcode, |data| >= 126, Some(key), Mask(data, key))
  {
    hide MaskBit, LengthField, LengthExtension, PayloadLength, HeaderLength, Mask;
    var s, n := ClientFrame(fin, opcode, key, data), |LengthExtension(|data|)|;
    FirstOctet(fin, opcode);
    assert s[2..2 + n] == LengthExtension(|data|);
    HeaderSays(s, |data|, true);
    assert s[2 + n..6 + n] == key;
    assert s[6 + n..] == Mask(data, key);
    assert FrameComplete(s);
    FrameIsPrefix(s, more);
  }

  /** The length form is the shortest: no unmasked frame with as much payload is shorter. */
  lemma ServerFrameShortest(s: seq<Byte>, opcode: Byte)
    requires FrameComplete(s) && !MaskBit(s[1])
    ensures FrameLength(s) >= |ServerFrame(opcode, FirstFrame(s).payload)|
  {
    hide Octet, MaskBit, BigEndian;
    var n := PayloadLength(s);
    Pow256Values();
    if ExtendedLength(s[1]) == 2 {
      BigEndianValueBound(s[2..4]);
    } else if ExtendedLength(s[1]) == 0 {
      LengthBitsBelow(s[1]);
    }
  }

  lemma LengthBitsBelow(b: Byte)
    requires LengthBits(b) != 126 && LengthBits(b) != 127
    ensures Value(LengthBits(b)) < 126
  {
    var l := LengthBits(b);
    assert l < 126;
    ValueOrder(l);
  }

  /** The frames that messages are sent as. */
  function FinalFrames(messages: seq<(Byte, seq<Byte>)>): seq<Frame> {
    if messages == [] then []
    else [Frame(true, messages[0].0, |messages[0].1| >= 126, None, messages[0].1)] + FinalFrames(messages[1..])
  }

  /** A stream of server frames is divided into exactly these frames, with nothing left over. */
  lemma {:induction false} ServerStream(messages: seq<(Byte, seq<Byte>)>)
    requires forall i :: 0 <= i < |messages| ==> messages[i].0 < 0x10 && |messages[i].1| < TWO_TO_THE_64
    ensures SplitFrames(ServerStreamOf(messages)) == (FinalFrames(messages), [])
  {
    if messages == [] {
      NothingComplete();
    } else {
      hide ServerFrame, FirstFrame, HeaderComplete, FrameLength;
      var (opcode, data) := messages[0];
      var rest := messages[1..];
      ServerFrameDecodes(opcode, data, ServerStreamOf(rest));
      ServerStream(rest);
      assert ServerStreamOf(messages)[|ServerFrame(opcode, data)|..] == ServerStreamOf(rest);
    }
  }

  function ServerStreamOf(messages: seq<(Byte, seq<Byte>)>): seq<Byte> {
    if messages == [] then [] else ServerFrame(messages[0].0, messages[0].1) + ServerStreamOf(messages[1..])
  }

  lemma NothingComplete()
    ensures SplitFrames([]) == ([], [])
  {
  }
}

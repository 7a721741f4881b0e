/** The incremental parser of WebSocketParser.cpp: a byte automaton for frames, and the assembly of
    fragmented messages. */
module WebSocketStream {
  import opened Options
  import opened Bytes
  import opened WebSocketFrames

  /** The guard of the key copy for the seven-bit length form: the source copies when the frame is not
      masked, where its own assertion and the other two forms copy when it is. */
  datatype KeyRule = AsWritten | AsIntended

  predicate CopiesShortKey(rule: KeyRule, masked: bool) {
    match rule
    case AsWritten => !masked
    case AsIntended => masked
  }

  /** What a request says: its number and its method. */
  datatype Request = Request(id: int, name: string)

  /** The JSON library: which texts parse, the request in one that does, unless a field is missing or of
      another type, and what an unsuccessful parse in place leaves of a text and its terminating zero. */
  datatype Json = Json(accepts: seq<Byte> -> bool, request: seq<Byte> -> Option<Request>,
                       residue: seq<Byte> -> seq<Byte>)

  /** What reaches the outside: a close or ping request, or an assembled payload, with the request that the
      callback is given for it, if any. */
  datatype Event =
    | CloseRequest(data: seq<Byte>)
    | PingRequest(data: seq<Byte>)
    | Payload(text: seq<Byte>, request: Option<Request>)

  datatype Mode = InHeader | InPayload | ParseError

  /** The fields of the parser. */
  datatype Parser = Parser(mode: Mode, buffer: seq<Byte>, fin: bool, opcode: Byte, masked: bool, len1: Byte,
                           payloadLen: nat, key: MaskingKey, total: seq<Byte>)

  const NO_KEY: MaskingKey := [0, 0, 0, 0]

  function Fresh(): Parser {
    Parser(InHeader, [], false, CLOSE, false, 0, 0, NO_KEY, [])
  }

  // Frames that have arrived

  predicate IsControl(opcode: Byte) { opcode & 0x08 != 0 }

  /** A frame as the handlers see it, its payload unmasked. */
  datatype Received = Received(fin: bool, opcode: Byte, masked: bool, data: seq<Byte>)

  function Requested(json: Json, text: seq<Byte>): Option<Request> {
    if json.accepts(text) then json.request(text) else None
  }

  /** parsePayload and the clear after it. */
  function HandOver(json: Json, total: seq<Byte>): (seq<Byte>, seq<Event>) {
    (if json.accepts(total) then [] else json.residue(total + [0]), [Payload(total, Requested(json, total))])
  }

  /** The assembly buffer after a frame, and what the frame gives to the outside. */
  function Handle(json: Json, total: seq<Byte>, r: Received): (seq<Byte>, seq<Event>) {
    if IsControl(r.opcode) then
      (total,
       if !r.fin then []
       else if r.opcode == CLOSE then [CloseRequest(r.data)]
       else if r.opcode == PING && r.masked && r.data != [] then [PingRequest(r.data)]
       else [])
    else if r.fin then HandOver(json, total + r.data)
    else (total + r.data, [])
  }

  /** What parseFrame and parseEmptyFrame return: false for a fragmented control frame, for a ping that
      is empty or not masked, for an empty pong, and for a final fragment whose message does not parse. */
  predicate Accepted(json: Json, total: seq<Byte>, r: Received) {
    if IsControl(r.opcode) then
      && r.fin
      && !(r.opcode == PING && (r.data == [] || !r.masked))
      && !(r.opcode == PONG && r.data == [])
    else
      r.fin ==> json.accepts(total + r.data)
  }

  // The automaton

  /** std::copy of some octets to the front of the key. */
  function CopyTo(key: MaskingKey, octets: seq<Byte>): MaskingKey
    requires |octets| <= 4
  {
    octets + key[|octets|..]
  }

  function Extended(len1: Byte): nat {
    if len1 == 126 then 2 else if len1 == 127 then 8 else 0
  }

  function WaitFor(len1: Byte, masked: bool): nat {
    2 + Extended(len1) + (if masked then 4 else 0)
  }

  /** The first two octets are there. */
  function FirstTwo(json: Json, p: Parser): (Parser, seq<Event>)
    requires |p.buffer| == 2
  {
    var q := p.(fin := FinBit(p.buffer[0]), opcode := OpcodeBits(p.buffer[0]),
                masked := MaskBit(p.buffer[1]), len1 := LengthBits(p.buffer[1]));
    if q.len1 < 126 then
      var q := q.(payloadLen := Value(q.len1));
      if q.masked then (q, [])
      else if q.payloadLen == 0 then
        var (total, events) := Handle(json, q.total, Received(q.fin, q.opcode, q.masked, []));
        (q.(total := total, buffer := []), events)
      else (q.(mode := InPayload, buffer := []), [])
    else (q, [])
  }

  /** The header is complete. */
  function HeaderDone(rule: KeyRule, json: Json, p: Parser): (Parser, seq<Event>)
    requires |p.buffer| == WaitFor(p.len1, p.masked)
  {
    var buffer := p.buffer;
    var n := Extended(p.len1);
    var q := p.(payloadLen := if n == 0 then p.payloadLen else BigEndianValue(buffer[2..2 + n]),
                key := if (if n == 0 then CopiesShortKey(rule, p.masked) else p.masked)
                       then CopyTo(p.key, buffer[2 + n..]) else p.key,
                buffer := []);
    if q.payloadLen == 0 then
      var (total, events) := Handle(json, q.total, Received(q.fin, q.opcode, q.masked, []));
      (q.(total := total, mode := InHeader), events)
    else (q.(mode := InPayload), [])
  }

  /** The payload is complete. */
  function PayloadDone(json: Json, p: Parser): (Parser, seq<Event>) {
    var data := if p.masked then Mask(p.buffer, p.key) else p.buffer;
    var (total, events) := Handle(json, p.total, Received(p.fin, p.opcode, p.masked, data));
    (p.(total := total, mode := InHeader, buffer := []), events)
  }

  /** One turn of the loop. */
  function Step(rule: KeyRule, json: Json, p: Parser, b: Byte): (Parser, seq<Event>) {
    var q := p.(buffer := p.buffer + [b]);
    match p.mode
    case InHeader =>
      if |q.buffer| == 2 then FirstTwo(json, q)
      else if |q.buffer| > 2 && |q.buffer| == WaitFor(q.len1, q.masked) then HeaderDone(rule, json, q)
      else (q, [])
    case InPayload =>
      if |q.buffer| == q.payloadLen then PayloadDone(json, q) else (q, [])
    case ParseError => (p, [])
  }

  function Feed(rule: KeyRule, json: Json, p: Parser, s: seq<Byte>): (Parser, seq<Event>)
    decreases |s|
  {
    if s == [] then (p, [])
    else
      var (q, events) := Step(rule, json, p, s[0]);
      var (r, more) := Feed(rule, json, q, s[1..]);
      (r, events + more)
  }

  class WebSocketParser {
    const rule: KeyRule
    const json: Json
    var state: Mode
    var buffer: seq<Byte>
    var finalFragment: bool
    var opcode: Byte
    var masked: bool
    var payloadLen1: Byte
    var payloadLen: nat
    var maskingKey: MaskingKey
    var totalPayload: seq<Byte>

    ghost function View(): Parser
      reads this
    {
      Parser(state, buffer, finalFragment, opcode, masked, payloadLen1, payloadLen, maskingKey, totalPayload)
    }

    constructor (rule: KeyRule, json: Json)
      ensures View() == Fresh() && this.rule == rule && this.json == json
    {
      this.rule, this.json := rule, json;
      state, buffer := InHeader, [];
      finalFragment, opcode, masked, payloadLen1, payloadLen := false, CLOSE, false, 0, 0;
      maskingKey, totalPayload := NO_KEY, [];
    }

    /** parsePayload, with the clear that follows it when it succeeds. */
    method ParsePayload() returns (ok: bool, events: seq<Event>)
      modifies this`totalPayload
      ensures (totalPayload, events) == HandOver(json, old(totalPayload))
      ensures ok == json.accepts(old(totalPayload))
    {
      var text := totalPayload;
      totalPayload := totalPayload + [0];
      if !json.accepts(text) {
        totalPayload := json.residue(totalPayload);
        return false, [Payload(text, None)];
      }
      totalPayload := [];
      return true, [Payload(text, json.request(text))];
    }

    /** parseEmptyFrame */
    method ParseEmptyFrame() returns (ok: bool, events: seq<Event>)
      modifies this`totalPayload
      ensures (totalPayload, events)
              == Handle(json, old(totalPayload), Received(finalFragment, opcode, masked, []))
      ensures ok == Accepted(json, old(totalPayload), Received(finalFragment, opcode, masked, []))
    {
      if IsControl(opcode) {
        if !finalFragment {
          return false, [];
        }
        if opcode == CLOSE {
          return true, [CloseRequest([])];
        } else if opcode == PING || opcode == PONG {
          return false, [];
        }
        return true, [];
      }
      if finalFragment {
        assert totalPayload + [] == totalPayload;
        ok, events := ParsePayload();
        return;
      }
      assert totalPayload + [] == totalPayload;
      return true, [];
    }

    /** parseFrame; its parameter is its own copy of the payload, unmasked in place. */
    method ParseFrame(payload: seq<Byte>) returns (ok: bool, events: seq<Event>)
      requires payload != []
      modifies this`totalPayload
      ensures (totalPayload, events)
              == Handle(json, old(totalPayload),
                        Received(finalFragment, opcode, masked, if masked then Mask(payload, maskingKey) else payload))
      ensures ok == Accepted(json, old(totalPayload),
                             Received(finalFragment, opcode, masked,
                                      if masked then Mask(payload, maskingKey) else payload))
    {
      var data := payload;
      if masked {
        data := Unmask(payload, maskingKey);
      }
      if IsControl(opcode) {
        if !finalFragment {
          return false, [];
        }
        if opcode == CLOSE {
          return true, [CloseRequest(data)];
        } else if opcode == PING {
          if !masked {
            return false, [];
          }
          return true, [PingRequest(data)];
        }
        return true, [];
      }
      totalPayload := totalPayload + data;
      if finalFragment {
        ok, events := ParsePayload();
        return;
      }
      return true, [];
    }

    /** The case IN_WEB_SOCKET_FRAME_HEADER. */
    method ParseHeaderByte(ch: Byte) returns (events: seq<Event>)
      requires state == InHeader
      modifies this
      ensures (View(), events) == Step(rule, json, old(View()), ch)
    {
      hide FirstTwo, HeaderDone;
      events := [];
      buffer := buffer + [ch];
      if |buffer| == 2 {
        events := ParseFirstTwo();
      } else if |buffer| > 2 {
        var waitFor := 2;
        if payloadLen1 == 126 {
          waitFor := waitFor + 2;
        } else if payloadLen1 == 127 {
          waitFor := waitFor + 8;
        }
        if masked {
          waitFor := waitFor + 4;
        }
        if |buffer| == waitFor {
          events := ParseHeaderDone();
        }
      }
    }

    /** The branch for a buffer of two octets. */
    method ParseFirstTwo() returns (events: seq<Event>)
      requires state == InHeader && |buffer| == 2
      modifies this
      ensures (View(), events) == FirstTwo(json, old(View()))
    {
      hide Value, MaskBit, LengthBits, FinBit, OpcodeBits, Handle;
      events := [];
      finalFragment := FinBit(buffer[0]);
      opcode := OpcodeBits(buffer[0]);
      masked := MaskBit(buffer[1]);
      payloadLen1 := LengthBits(buffer[1]);
      if payloadLen1 < 126 {
        payloadLen := Value(payloadLen1);
        if !masked {
          if payloadLen == 0 {
            var _, more := ParseEmptyFrame();
            events := more;
            buffer := [];
          } else {
            state := InPayload;
            buffer := [];
          }
        }
      }
    }

    /** The branch for a buffer that holds the whole header. */
    method ParseHeaderDone() returns (events: seq<Event>)
      requires state == InHeader && |buffer| == WaitFor(payloadLen1, masked)
      modifies this
      ensures (View(), events) == HeaderDone(rule, json, old(View()))
    {
      hide BigEndianValue, Handle, CopyTo;
      events := [];
      if payloadLen1 == 126 {
        payloadLen := BigEndianValue(buffer[2..4]);
        if masked {
          maskingKey := CopyTo(maskingKey, buffer[4..]);
        }
      } else if payloadLen1 == 127 {
        payloadLen := BigEndianValue(buffer[2..10]);
        if masked {
          maskingKey := CopyTo(maskingKey, buffer[10..]);
        }
      } else {
        if CopiesShortKey(rule, masked) {
          maskingKey := CopyTo(maskingKey, buffer[2..]);
        }
      }
      if payloadLen == 0 {
        var _, more := ParseEmptyFrame();
        events := more;
        state := InHeader;
        buffer := [];
      } else {
        state := InPayload;
        buffer := [];
      }
    }

    /** The case IN_PAYLOAD. */
    method ParsePayloadByte(ch: Byte) returns (events: seq<Event>)
      requires state == InPayload
      modifies this
      ensures (View(), events) == Step(rule, json, old(View()), ch)
    {
      hide Handle, Mask;
      events := [];
      buffer := buffer + [ch];
      if |buffer| == payloadLen {
        var _, more := ParseFrame(buffer);
        events := more;
        state := InHeader;
        buffer := [];
      }
    }

    /** parse; the callbacks are returned in the order of the calls. */
    method Parse(data: seq<Byte>) returns (ok: bool, events: seq<Event>)
      modifies this
      ensures (View(), events) == Feed(rule, json, old(View()), data)
      ensures ok == !old(state).ParseError?
    {
      hide Step;
      events := [];
      ErrorStays(rule, json, View(), data);
      if state == ParseError {
        return false, events;
      }
      assert data[0..] == data;
      for i := 0 to |data|
        invariant state != ParseError
        invariant Feed(rule, json, old(View()), data).0 == Feed(rule, json, View(), data[i..]).0
        invariant Feed(rule, json, old(View()), data).1 == events + Feed(rule, json, View(), data[i..]).1
      {
        assert data[i..][0] == data[i] && data[i..][1..] == data[i + 1..];
        StepNoError(rule, json, View(), data[i]);
        var more;
        if state == InHeader {
          more := ParseHeaderByte(data[i]);
        } else {
          more := ParsePayloadByte(data[i]);
        }
        events := events + more;
      }
      assert data[|data|..] == [] && events + [] == events;
      ok := true;
    }
  }

  /** The loop of parseFrame over the payload, in place. */
  method Unmask(payload: seq<Byte>, key: MaskingKey) returns (r: seq<Byte>)
    ensures r == Mask(payload, key)
  {
    var data := new Byte[|payload|](i requires 0 <= i < |payload| => payload[i]);
    for i := 0 to data.Length
      invariant forall k :: 0 <= k < i ==> data[k] == payload[k] ^ key[k % 4]
      invariant forall k :: i <= k < data.Length ==> data[k] == payload[k]
    {
      data[i] := data[i] ^ key[i % 4];
    }
    r := data[..];
  }

  lemma {:induction false} ErrorStays(rule: KeyRule, json: Json, p: Parser, s: seq<Byte>)
    ensures p.mode.ParseError? ==> Feed(rule, json, p, s) == (p, [])
    decreases |s|
  {
    if p.mode.ParseError? && s != [] {
      ErrorStays(rule, json, p, s[1..]);
      assert Step(rule, json, p, s[0]) == (p, []);
      assert Feed(rule, json, p, s).1 == [];
    }
  }

  /** No input leads to the state PARSE_ERROR: the return values of parseFrame and parseEmptyFrame are
      not looked at, so parse never fails. */
  lemma StepNoError(rule: KeyRule, json: Json, p: Parser, b: Byte)
    requires !p.mode.ParseError?
    ensures !Step(rule, json, p, b).0.mode.ParseError?
  {
    hide Handle, BigEndianValue, Value, Mask, CopyTo, FinBit, OpcodeBits, MaskBit, LengthBits;
  }
}

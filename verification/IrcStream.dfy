/** The byte automaton IrcParser::parse: lines out of a stream that arrives in arbitrary pieces. */
module IrcStream {
  import opened Options
  import opened Bytes
  import opened IrcMessages
  import opened IrcGrammar

  const BUFFER_SIZE_THRESHOLD: nat := 4096

  datatype Mode = None | InLine | WaitLf | Error

  /** The fields of the parser. */
  datatype Parser = Parser(mode: Mode, buffer: string)

  const FRESH := Parser(Mode.None, "")

  /** The fields after a call, its return value, and the messages given to the callback in order. */
  datatype Result = Result(parser: Parser, ok: bool, messages: seq<IrcMessage>)

  /** One turn of the loop. */
  function Step(p: Parser, ch: char): Result {
    var appended := p.buffer + [ch];
    match p.mode
    case None =>
      if ch == '\r' || ch == '\n' then Result(p.(mode := Error), false, [])
      else if |appended| > 4096 then Result(Parser(Error, appended), false, [])
      else Result(Parser(InLine, appended), true, [])
    case InLine =>
      if ch == '\r' || ch == '\n' then
        var r := ParseLine(p.buffer);
        if r.None? then Result(p.(mode := Error), false, [])
        else Result(Parser(if ch == '\r' then WaitLf else InLine, ""), true, [r.value])
      else Result(p.(buffer := appended), |appended| <= 4096, [])
    case WaitLf =>
      if ch != '\n' then Result(p.(mode := Error), false, []) else Result(p.(mode := Mode.None), true, [])
    case Error =>
      Result(p, false, [])
  }

  /** One call with a piece of the stream: it stops at the first failure. */
  function Feed(p: Parser, str: string): Result
    decreases |str|
  {
    if p.mode.Error? then Result(p, false, [])
    else if str == "" then Result(p, true, [])
    else
      var first := Step(p, str[0]);
      if !first.ok then first
      else
        var rest := Feed(first.parser, str[1..]);
        rest.(messages := first.messages + rest.messages)
  }

  class IrcParser {
    var state: Mode
    var buffer: string

    ghost function View(): Parser
      reads this
    {
      Parser(state, buffer)
    }

    constructor ()
      ensures View() == FRESH
    {
      state := Mode.None;
      buffer := "";
    }

    /** clear */
    method Clear()
      modifies this
      ensures View() == FRESH
    {
      state := Mode.None;
      buffer := "";
    }

    /** The lambda append. */
    method Append(ch: char) returns (fits: bool)
      modifies this`buffer
      ensures buffer == old(buffer) + [ch]
      ensures fits == (|buffer| <= BUFFER_SIZE_THRESHOLD)
    {
      buffer := buffer + [ch];
      return |buffer| <= 4096;
    }

    /** The switch in the loop of parse, for one character. */
    method ParseChar(ch: char) returns (ok: bool, messages: seq<IrcMessage>)
      requires state != Error
      modifies this
      ensures Result(View(), ok, messages) == Step(old(View()), ch)
    {
      hide ParseLine;
      messages := [];
      match state {
        case None =>
          if ch == '\r' || ch == '\n' {
            state := Error;
            return false, [];
          } else {
            var fits := Append(ch);
            if !fits {
              state := Error;
              return false, [];
            }
            state := InLine;
          }
        case InLine =>
          if ch == '\r' || ch == '\n' {
            if ch == '\r' {
              state := WaitLf;
            }
            var message := ParseMessage(buffer);
            if message.None? {
              state := Error;
              return false, [];
            }
            messages := [message.value];
            buffer := "";
          } else {
            var fits := Append(ch);
            if !fits {
              return false, [];
            }
          }
        case WaitLf =>
          if ch != '\n' {
            state := Error;
            return false, [];
          } else {
            state := Mode.None;
          }
      }
      return true, messages;
    }

    /** parse; the callback's messages are returned in the order of the calls. */
    method Parse(str: string) returns (ok: bool, messages: seq<IrcMessage>)
      modifies this
      ensures Result(View(), ok, messages) == Feed(old(View()), str)
    {
      hide ParseLine, Step;
      messages := [];
      if state == Error {
        return false, messages;
      }
      for i := 0 to |str|
        invariant state != Error
        invariant var rest := Feed(View(), str[i..]);
          Feed(old(View()), str) == rest.(messages := messages + rest.messages)
      {
        assert str[i..][0] == str[i] && str[i..][1..] == str[i + 1..];
        StepOk(View(), str[i]);
        var more;
        ok, more := ParseChar(str[i]);
        messages := messages + more;
        if !ok {
          return;
        }
      }
      return true, messages;
    }
  }

  lemma StepOk(p: Parser, ch: char)
    ensures Step(p, ch).ok ==> !Step(p, ch).parser.mode.Error?
  {
  }

  // Independence of the division into pieces

  /** Successive calls, as a connection makes them: the first failure is the last call. */
  function FeedPieces(p: Parser, pieces: seq<string>): Result
    decreases |pieces|
  {
    if pieces == [] then Result(p, true, [])
    else
      var first := Feed(p, pieces[0]);
      if !first.ok then first
      else
        var rest := FeedPieces(first.parser, pieces[1..]);
        rest.(messages := first.messages + rest.messages)
  }

  lemma {:induction false} FeedAppend(p: Parser, a: string, b: string)
    ensures Feed(p, a + b)
            == (var first := Feed(p, a);
                if !first.ok then first
                else var rest := Feed(first.parser, b); rest.(messages := first.messages + rest.messages))
    decreases |a|
  {
    hide Step;
    if a == "" {
      assert a + b == b;
    } else {
      assert (a + b)[0] == a[0] && (a + b)[1..] == a[1..] + b;
      FeedAppend(Step(p, a[0]).parser, a[1..], b);
    }
  }

  /** Only the text counts, not how it was cut into pieces: same return value, same messages in the same
      order, same fields. */
  lemma {:induction false} PiecesDoNotMatter(p: Parser, pieces: seq<string>)
    requires !p.mode.Error?
    ensures FeedPieces(p, pieces) == Feed(p, Flatten(pieces))
    decreases |pieces|
  {
    hide Step;
    if pieces != [] {
      FeedAppend(p, pieces[0], Flatten(pieces[1..]));
      var first := Feed(p, pieces[0]);
      if first.ok {
        FeedOk(p, pieces[0]);
        PiecesDoNotMatter(first.parser, pieces[1..]);
      }
    }
  }

  lemma {:induction false} FeedOk(p: Parser, str: string)
    requires Feed(p, str).ok
    ensures !Feed(p, str).parser.mode.Error?
    decreases |str|
  {
    if str != "" {
      FeedOk(Step(p, str[0]).parser, str[1..]);
    }
  }

  // The state that a bare LF leaves behind

  /** InLine with an empty buffer behaves as None does: on every input the results agree, except that
      the empty input leaves each where it is. */
  lemma BareLfLikeFresh(str: string)
    requires str != ""
    ensures Feed(Parser(InLine, ""), str) == Feed(FRESH, str)
  {
    assert Split("") == [""];
  }

  // Failures

  /** The buffer is empty where the automaton expects a new line or an LF. */
  predicate Reachable(p: Parser) {
    p.mode.None? || p.mode.WaitLf? ==> p.buffer == ""
  }

  /** The parser has failed on an overlong line, and may be called again. */
  predicate Overlong(p: Parser) {
    p.mode.InLine? && |p.buffer| > BUFFER_SIZE_THRESHOLD
  }

  /** A call with any text fails exactly if it leaves the parser in the state Error, after which every call
      fails, or in a line that has grown too long.  The first call to find a line too long leaves it with
      4097 characters. */
  lemma {:induction false} FailureKinds(p: Parser, str: string)
    requires Reachable(p) && str != ""
    ensures var r := Feed(p, str);
      && Reachable(r.parser)
      && (!r.ok <==> r.parser.mode.Error? || Overlong(r.parser))
      && (!Overlong(p) && Overlong(r.parser) ==> |r.parser.buffer| == BUFFER_SIZE_THRESHOLD + 1)
    decreases |str|
  {
    hide ParseLine;
    if !p.mode.Error? {
      var first := Step(p, str[0]);
      if first.ok && str[1..] != "" {
        FailureKinds(first.parser, str[1..]);
      }
    }
  }

  /** What calls make of an overlong line: each call takes one more character of it, fails, and drops the
      rest of its text, until one begins with a line end; the line as it then stands is delivered if it is
      of the grammar, and the parser goes on from there. */
  lemma OverlongCall(p: Parser, str: string)
    requires Overlong(p) && str != ""
    ensures Feed(p, str)
            == if str[0] != '\r' && str[0] != '\n' then Result(p.(buffer := p.buffer + [str[0]]), false, [])
               else if ParseLine(p.buffer).None? then Result(p.(mode := Error), false, [])
               else
                 var rest := Feed(Parser(if str[0] == '\r' then WaitLf else InLine, ""), str[1..]);
                 rest.(messages := [ParseLine(p.buffer).value] + rest.messages)
  {
    hide ParseLine;
  }

  /** So a parser that has failed on a line can accept it at the next CR LF. */
  lemma OverlongLineResumes(line: string, m: IrcMessage)
    requires |line| == BUFFER_SIZE_THRESHOLD + 1 && Plain(line) && ParseLine(line) == Some(m)
    ensures Feed(FRESH, line) == Result(Parser(InLine, line), false, [])
    ensures Feed(Feed(FRESH, line).parser, CRLF) == Result(FRESH, true, [m])
  {
    hide ParseLine;
    assert "" + line == line;
    FeedOverlong(FRESH, line);
    assert line[..|line|] == line;
    FeedCrLf(Parser(InLine, line), m);
  }

  // The stream of printed lines

  /** No character that ends a line. */
  predicate Plain(s: string) {
    '\r' !in s && '\n' !in s
  }

  lemma {:induction false} FeedPlain(p: Parser, str: string)
    requires p.mode.InLine? || p == FRESH
    requires Plain(str) && str != "" && |p.buffer| + |str| <= BUFFER_SIZE_THRESHOLD
    ensures Feed(p, str) == Result(Parser(InLine, p.buffer + str), true, [])
    decreases |str|
  {
    hide ParseLine;
    var rest := str[1..];
    assert str[0] in str && forall c :: c in rest ==> c in str;
    var next := Parser(InLine, p.buffer + [str[0]]);
    assert Step(p, str[0]) == Result(next, true, []);
    assert p.buffer + [str[0]] + rest == p.buffer + str;
    if rest == "" {
      assert Feed(next, rest) == Result(next, true, []);
    } else {
      FeedPlain(next, rest);
    }
  }

  lemma FeedOverlong(p: Parser, str: string)
    requires p.mode.InLine? || p == FRESH
    requires Plain(str) && |p.buffer| <= BUFFER_SIZE_THRESHOLD < |p.buffer| + |str|
    ensures Feed(p, str) == Result(Parser(InLine, (p.buffer + str)[..BUFFER_SIZE_THRESHOLD + 1]), false, [])
  {
    hide Feed, Step;
    var room := BUFFER_SIZE_THRESHOLD - |p.buffer|;
    var fit, more := str[..room], str[room..];
    assert str == fit + more;
    assert forall c :: c in fit ==> c in str;
    assert more[0] in str;
    var full := Parser(InLine, p.buffer + fit);
    OneTooMany(full, more);
    if fit != "" {
      FeedPlain(p, fit);
      FeedAppend(p, fit, more);
    } else {
      assert full.buffer == p.buffer && more == str;
    }
    assert p.buffer + fit + [more[0]] == (p.buffer + str)[..BUFFER_SIZE_THRESHOLD + 1];
  }

  lemma OneTooMany(p: Parser, more: string)
    requires p.mode.InLine? && |p.buffer| == BUFFER_SIZE_THRESHOLD && more != ""
    requires more[0] != '\r' && more[0] != '\n'
    ensures Feed(p, more) == Result(p.(buffer := p.buffer + [more[0]]), false, [])
  {
    hide ParseLine;
  }

  lemma FeedCrLf(p: Parser, m: IrcMessage)
    requires p.mode.InLine? && ParseLine(p.buffer) == Some(m)
    ensures Feed(p, CRLF) == Result(FRESH, true, [m])
  {
    hide ParseLine;
    var waiting := Parser(WaitLf, "");
    assert Step(p, '\r') == Result(waiting, true, [m]);
    assert CRLF[1..] == "\n";
    assert "\n"[1..] == "";
    assert Step(waiting, '\n') == Result(FRESH, true, []);
    assert Feed(waiting, "\n") == Result(FRESH, true, []);
  }

  /** One printed line that fits comes back as its message, and leaves a fresh parser. */
  lemma FeedLine(m: IrcMessage)
    requires WellFormed(m) && Plain(Encode(m)) && |Encode(m)| <= BUFFER_SIZE_THRESHOLD
    ensures Feed(FRESH, Line(m)) == Result(FRESH, true, [m])
  {
    hide ParseLine, Encode, Feed, Step, WellFormed;
    PrintParse(m);
    EncodeNotEmpty(m);
    FeedPlain(FRESH, Encode(m));
    assert "" + Encode(m) == Encode(m);
    FeedAppend(FRESH, Encode(m), CRLF);
    FeedCrLf(Parser(InLine, Encode(m)), m);
  }

  lemma EncodeNotEmpty(m: IrcMessage)
    requires WellFormed(m)
    ensures Encode(m) != ""
  {
    CommandIsWord(m.command);
  }

  lemma FeedLongLine(m: IrcMessage, more: string)
    requires Plain(Encode(m)) && |Encode(m)| > BUFFER_SIZE_THRESHOLD
    ensures !Feed(FRESH, Line(m) + more).ok
  {
    hide ParseLine, Encode;
    FeedOverlong(FRESH, Encode(m));
    assert Line(m) + more == Encode(m) + (CRLF + more);
    FeedAppend(FRESH, Encode(m), CRLF + more);
  }

  predicate Printable(ms: seq<IrcMessage>) {
    forall i :: 0 <= i < |ms| ==> WellFormed(ms[i]) && Plain(Encode(ms[i]))
  }

  predicate Fit(ms: seq<IrcMessage>) {
    forall i :: 0 <= i < |ms| ==> |Encode(ms[i])| <= BUFFER_SIZE_THRESHOLD
  }

  lemma {:induction false} FeedLines(ms: seq<IrcMessage>)
    requires Printable(ms)
    ensures Feed(FRESH, Flatten(Lines(ms))).ok <==> Fit(ms)
    ensures Fit(ms) ==> Feed(FRESH, Flatten(Lines(ms))) == Result(FRESH, true, ms)
    decreases |ms|
  {
    hide ParseLine, Encode, Line, WellFormed;
    if ms != [] {
      var m, rest := ms[0], ms[1..];
      assert Lines(ms)[1..] == Lines(rest);
      assert Flatten(Lines(ms)) == Line(m) + Flatten(Lines(rest));
      if |Encode(m)| <= BUFFER_SIZE_THRESHOLD {
        FeedLine(m);
        FeedAppend(FRESH, Line(m), Flatten(Lines(rest)));
        FeedLines(rest);
        FitStep(ms);
        assert [m] + rest == ms;
      } else {
        FeedLongLine(m, Flatten(Lines(rest)));
      }
    }
  }

  lemma FitStep(ms: seq<IrcMessage>)
    requires ms != []
    ensures Fit(ms) <==> |Encode(ms[0])| <= BUFFER_SIZE_THRESHOLD && Fit(ms[1..])
  {
    hide Encode;
    if |Encode(ms[0])| <= BUFFER_SIZE_THRESHOLD && Fit(ms[1..]) {
      forall i | 0 <= i < |ms| ensures |Encode(ms[i])| <= BUFFER_SIZE_THRESHOLD {
        if i > 0 {
          assert ms[i] == ms[1..][i - 1];
        }
      }
    }
  }

  // The texts that are accepted

  /** A line and how it ends: with CR LF or with a bare LF. */
  datatype Ended = Ended(line: string, crlf: bool)

  function TextOf(lines: seq<Ended>): string {
    if lines == [] then ""
    else
      var last := lines[|lines| - 1];
      TextOf(lines[..|lines| - 1]) + (last.line + (if last.crlf then "\r\n" else "\n"))
  }

  /** Lines of the grammar, without line ends inside, that fit the buffer. */
  predicate Readable(lines: seq<Ended>) {
    forall i :: 0 <= i < |lines| ==> ReadableLine(lines[i].line)
  }

  predicate ReadableLine(line: string) {
    Plain(line) && |line| <= BUFFER_SIZE_THRESHOLD && ParseLine(line).Some?
  }

  function MessagesOf(lines: seq<Ended>): (ms: seq<IrcMessage>)
    requires Readable(lines)
  {
    if lines == [] then []
    else MessagesOf(lines[..|lines| - 1]) + [ParseLine(lines[|lines| - 1].line).value]
  }

  /** Lines, and the beginning of a line. */
  predicate IsText(str: string, lines: seq<Ended>, rest: string) {
    Readable(lines) && Plain(rest) && |rest| <= BUFFER_SIZE_THRESHOLD && str == TextOf(lines) + rest
  }

  /** Lines of which the last still lacks its LF. */
  predicate LacksLf(str: string, lines: seq<Ended>) {
    lines != [] && lines[|lines| - 1].crlf && Readable(lines) && str + "\n" == TextOf(lines)
  }

  /** Where the parser stands after whole lines and a beginning. */
  function Standing(lines: seq<Ended>, rest: string): Parser {
    if rest != "" || (lines != [] && !lines[|lines| - 1].crlf) then Parser(InLine, rest) else FRESH
  }

  lemma ReadableNotEmpty(line: string)
    requires ReadableLine(line)
    ensures line != ""
  {
    assert Split("") == [""];
  }

  /** One line more, from a fresh parser or after a bare LF. */
  lemma FeedEnded(p: Parser, line: string, crlf: bool)
    requires (p == FRESH || p == Parser(InLine, "")) && ReadableLine(line)
    ensures Feed(p, line + (if crlf then "\r\n" else "\n"))
            == Result(if crlf then FRESH else Parser(InLine, ""), true, [ParseLine(line).value])
  {
    ReadableNotEmpty(line);
    hide ParseLine;
    FeedPlain(p, line);
    assert "" + line == line;
    FeedAppend(p, line, if crlf then "\r\n" else "\n");
    if crlf {
      FeedCrLf(Parser(InLine, line), ParseLine(line).value);
    } else {
      FeedBareLf(Parser(InLine, line));
    }
  }

  lemma FeedBareLf(p: Parser)
    requires p.mode.InLine? && ParseLine(p.buffer).Some?
    ensures Feed(p, "\n") == Result(Parser(InLine, ""), true, [ParseLine(p.buffer).value])
  {
    hide ParseLine;
    assert "\n"[1..] == "";
    assert Feed(Parser(InLine, ""), "") == Result(Parser(InLine, ""), true, []);
  }

  lemma {:induction false} LinesAreRead(lines: seq<Ended>)
    requires Readable(lines)
    ensures Feed(FRESH, TextOf(lines)) == Result(Standing(lines, ""), true, MessagesOf(lines))
    decreases |lines|
  {
    if lines != [] {
      var init, last := lines[..|lines| - 1], lines[|lines| - 1];
      LinesAreRead(init);
      var end := last.line + (if last.crlf then "\r\n" else "\n");
      assert ReadableLine(last.line);
      FeedEnded(Standing(init, ""), last.line, last.crlf);
      hide Feed, ReadableLine;
      FeedAppend(FRESH, TextOf(init), end);
    }
  }

  /** Such a text is read without failure: its messages are delivered, and its beginning of a line kept. */
  lemma TextIsRead(str: string, lines: seq<Ended>, rest: string)
    requires IsText(str, lines, rest)
    ensures Feed(FRESH, str) == Result(Standing(lines, rest), true, MessagesOf(lines))
  {
    hide Feed, Step;
    LinesAreRead(lines);
    if rest == "" {
      assert TextOf(lines) + rest == TextOf(lines);
    } else {
      FeedAppend(FRESH, TextOf(lines), rest);
      FeedPlain(Standing(lines, ""), rest);
      assert "" + rest == rest;
    }
  }

  /** Every text that is read without failure is of this kind. */
  lemma {:induction false} ReadIsText(str: string) returns (lines: seq<Ended>, rest: string)
    requires Feed(FRESH, str).ok
    ensures var r := Feed(FRESH, str);
      && Readable(lines) && r.messages == MessagesOf(lines)
      && if r.parser.mode.WaitLf? then LacksLf(str, lines) && r.parser.buffer == ""
         else IsText(str, lines, rest) && r.parser == Standing(lines, rest)
    decreases |str|
  {
    if str == "" {
      lines, rest := [], "";
      return;
    }
    var n := |str| - 1;
    var init, ch := str[..n], str[n];
    assert str == init + [ch];
    FeedAppend(FRESH, init, [ch]);
    FeedOne(Feed(FRESH, init).parser, ch);
    lines, rest := ReadIsText(init);
    lines, rest := ReadOneMore(init, lines, rest, Feed(FRESH, init).parser, ch);
  }

  lemma FeedOne(p: Parser, ch: char)
    requires !p.mode.Error?
    ensures Feed(p, [ch]) == Step(p, ch)
  {
    hide ParseLine;
    assert [ch][1..] == "";
    var first := Step(p, ch);
    assert first.messages + [] == first.messages;
  }

  lemma ReadOneMore(init: string, lines: seq<Ended>, rest: string, p: Parser, ch: char)
      returns (lines': seq<Ended>, rest': string)
    requires Readable(lines) && Step(p, ch).ok && !p.mode.Error?
    requires if p.mode.WaitLf? then LacksLf(init, lines) && p.buffer == ""
             else IsText(init, lines, rest) && p == Standing(lines, rest)
    ensures var r := Step(p, ch);
      && Readable(lines') && MessagesOf(lines) + r.messages == MessagesOf(lines')
      && if r.parser.mode.WaitLf? then LacksLf(init + [ch], lines') && r.parser.buffer == ""
         else IsText(init + [ch], lines', rest') && r.parser == Standing(lines', rest')
  {
    hide ParseLine, MessagesOf;
    if p.mode.WaitLf? {
      lines', rest' := lines, "";
      assert TextOf(lines) + "" == TextOf(lines);
      assert MessagesOf(lines) + [] == MessagesOf(lines);
    } else if ch == '\r' || ch == '\n' {
      lines' := OneLineMore(init, lines, rest, ch);
      rest' := "";
      assert TextOf(lines') + "" == TextOf(lines');
    } else {
      lines', rest' := lines, rest + [ch];
      Regroup(TextOf(lines), rest, [ch]);
      assert MessagesOf(lines) + [] == MessagesOf(lines);
    }
  }

  lemma Regroup(a: string, b: string, c: string)
    ensures a + b + c == a + (b + c)
  {
  }

  lemma OneLineMore(init: string, lines: seq<Ended>, rest: string, ch: char) returns (lines': seq<Ended>)
    requires IsText(init, lines, rest) && ParseLine(rest).Some? && (ch == '\r' || ch == '\n')
    ensures lines' == lines + [Ended(rest, ch == '\r')] && Readable(lines')
    ensures MessagesOf(lines') == MessagesOf(lines) + [ParseLine(rest).value]
    ensures if ch == '\r' then LacksLf(init + [ch], lines') else init + [ch] == TextOf(lines')
  {
    hide ParseLine;
    lines' := lines + [Ended(rest, ch == '\r')];
    assert lines'[..|lines|] == lines;
    assert ReadableLine(rest);
    if ch == '\r' {
      assert "\r" + "\n" == "\r\n";
      assert TextOf(lines) + rest + [ch] + "\n" == TextOf(lines) + (rest + "\r\n");
    } else {
      assert TextOf(lines) + rest + [ch] == TextOf(lines) + (rest + "\n");
    }
  }

  /** Exactly the texts that consist of lines of the grammar that fit, each ended by CR LF or a bare LF, and
      the beginning of another, are read without failure; the last CR may still be waiting for its LF. */
  lemma AcceptedTexts(str: string)
    ensures Feed(FRESH, str).ok
            <==> (exists lines, rest :: IsText(str, lines, rest)) || (exists lines :: LacksLf(str, lines))
  {
    hide Feed, IsText, LacksLf;
    if Feed(FRESH, str).ok {
      var lines, rest := ReadIsText(str);
    }
    if exists lines, rest :: IsText(str, lines, rest) {
      var lines, rest :| IsText(str, lines, rest);
      TextIsRead(str, lines, rest);
    }
    if exists lines :: LacksLf(str, lines) {
      var lines :| LacksLf(str, lines);
      LackingIsRead(str, lines);
    }
  }

  lemma LackingIsRead(str: string, lines: seq<Ended>)
    requires LacksLf(str, lines)
    ensures Feed(FRESH, str).ok
  {
    hide Feed, TextOf;
    LinesAreRead(lines);
    FeedAppend(FRESH, str, "\n");
  }

  // Messages that carry line ends

  function Count(ch: char, s: string): nat {
    if s == "" then 0 else (if s[0] == ch then 1 else 0) + Count(ch, s[1..])
  }

  lemma {:induction false} CountAppend(ch: char, a: string, b: string)
    ensures Count(ch, a + b) == Count(ch, a) + Count(ch, b)
  {
    if a == "" {
      assert a + b == b;
    } else {
      assert (a + b)[1..] == a[1..] + b;
      CountAppend(ch, a[1..], b);
    }
  }

  lemma {:induction false} CountNone(ch: char, s: string)
    ensures Count(ch, s) == 0 <==> ch !in s
  {
    if s != "" {
      CountNone(ch, s[1..]);
      assert s == [s[0]] + s[1..];
    }
  }

  function Waits(p: Parser): nat {
    if p.mode.WaitLf? then 1 else 0
  }

  /** In a text that is read without failure every message delivered has its LF, and every CR belongs to
      a message delivered; and what is delivered is well formed. */
  lemma {:induction false} LineEndsCounted(p: Parser, str: string)
    requires Feed(p, str).ok
    ensures var r := Feed(p, str);
      && Count('\n', str) + Waits(r.parser) == |r.messages| + Waits(p)
      && Count('\r', str) <= |r.messages|
      && forall m :: m in r.messages ==> WellFormed(m)
    decreases |str|
  {
    hide ParseLine, WellFormed;
    if str != "" {
      LineEndsCounted(Step(p, str[0]).parser, str[1..]);
      if ParseLine(p.buffer).Some? {
        ParsePrintParse(p.buffer);
      }
    }
  }

  /** The line ends of printed messages: one CR and one LF for each, and those inside. */
  lemma {:induction false} LineEndsPrinted(ch: char, ms: seq<IrcMessage>)
    requires ch == '\r' || ch == '\n'
    ensures Count(ch, Flatten(Lines(ms))) >= |ms|
    ensures Count(ch, Flatten(Lines(ms))) == |ms| ==> forall i :: 0 <= i < |ms| ==> ch !in Encode(ms[i])
    decreases |ms|
  {
    hide Encode;
    if ms != [] {
      var rest := ms[1..];
      assert Lines(ms)[1..] == Lines(rest);
      CountAppend(ch, Line(ms[0]), Flatten(Lines(rest)));
      CountAppend(ch, Encode(ms[0]), CRLF);
      assert CRLF[1..] == "\n" && "\n"[1..] == "";
      assert Count(ch, CRLF) == 1;
      CountNone(ch, Encode(ms[0]));
      LineEndsPrinted(ch, rest);
      assert forall i :: 0 < i < |ms| ==> ms[i] == rest[i - 1];
    }
  }

  /** Round trip over a connection: a list of messages, printed one after the other and cut into pieces in
      any way, comes back message by message without failure, and leaves a fresh parser, if and only if
      the messages are well formed, have no line ends inside, and fit the buffer. */
  lemma StreamRoundTrip(ms: seq<IrcMessage>, pieces: seq<string>)
    requires Flatten(pieces) == Flatten(Lines(ms))
    ensures FeedPieces(FRESH, pieces) == Result(FRESH, true, ms) <==> Printable(ms) && Fit(ms)
    ensures Printable(ms) ==> (FeedPieces(FRESH, pieces).ok <==> Fit(ms))
  {
    hide Feed, Printable;
    PiecesDoNotMatter(FRESH, pieces);
    if Feed(FRESH, Flatten(Lines(ms))) == Result(FRESH, true, ms) {
      CameBack(ms);
    }
    if Printable(ms) {
      FeedLines(ms);
    }
  }

  lemma CameBack(ms: seq<IrcMessage>)
    requires Feed(FRESH, Flatten(Lines(ms))) == Result(FRESH, true, ms)
    ensures Printable(ms)
  {
    hide Feed, WellFormed, Encode;
    LineEndsCounted(FRESH, Flatten(Lines(ms)));
    LineEndsPrinted('\r', ms);
    LineEndsPrinted('\n', ms);
    assert forall i :: 0 <= i < |ms| ==> ms[i] in ms;
  }
}

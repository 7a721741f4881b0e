/** IRC messages and the printer of IrcClient.cpp. */
module IrcMessages {

  const CRLF: string := "\r\n"

  /** IrcMessage: an empty prefix stands for none. */
  datatype IrcMessage = IrcMessage(prefix: string, command: string, params: seq<string>)

  /** The parameters before the last, each after a space. */
  function Middles(params: seq<string>): string {
    if params == [] then "" else " " + params[0] + Middles(params[1..])
  }

  function Head(m: IrcMessage): string {
    (if m.prefix == "" then "" else ":" + m.prefix + " ") + m.command
  }

  /** The line that encodeMessage prints, without its CR LF. */
  function Encode(m: IrcMessage): string {
    if m.params == [] then Head(m)
    else Head(m) + Middles(m.params[..|m.params| - 1]) + " :" + m.params[|m.params| - 1]
  }

  /** encodeMessage */
  method EncodeMessage(m: IrcMessage) returns (line: string)
    ensures line == Encode(m)
  {
    line := "";
    if m.prefix != "" {
      line := ":";
      line := line + m.prefix;
      line := line + " ";
    }
    line := line + m.command;
    if m.params != [] {
      for i := 0 to |m.params| - 1
        invariant line == Head(m) + Middles(m.params[..i])
      {
        MiddlesSnoc(m.params[..i], m.params[i]);
        assert m.params[..i + 1] == m.params[..i] + [m.params[i]];
        line := line + " ";
        line := line + m.params[i];
      }
      line := line + " :";
      line := line + m.params[|m.params| - 1];
    }
  }

  lemma {:induction false} MiddlesSnoc(params: seq<string>, last: string)
    ensures Middles(params + [last]) == Middles(params) + " " + last
  {
    if params == [] {
      assert [last][1..] == [];
    } else {
      assert (params + [last])[1..] == params[1..] + [last];
      MiddlesSnoc(params[1..], last);
    }
  }

  /** The text that sendMessage queues. */
  function Line(m: IrcMessage): (l: string)
    ensures |l| >= 2
  {
    Encode(m) + CRLF
  }

  /** The texts of a list of messages. */
  function Lines(ms: seq<IrcMessage>): (ls: seq<string>)
    ensures |ls| == |ms|
    ensures forall i :: 0 <= i < |ms| ==> ls[i] == Line(ms[i])
  {
    seq(|ms|, i requires 0 <= i < |ms| => Line(ms[i]))
  }
}

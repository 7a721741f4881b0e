/** The word automaton of IrcParser::parseMessage, and the grammar of RFC 2812 section 2.3.1 that it
    decides. */
module IrcGrammar {
  import opened Options
  import opened IrcMessages

  /** boost::algorithm::split at single separators. */
  function SplitAt(separator: char, s: string): (words: seq<string>)
    ensures |words| >= 1
  {
    if s == "" then [""]
    else
      var rest := SplitAt(separator, s[1..]);
      if s[0] == separator then [""] + rest else [[s[0]] + rest[0]] + rest[1..]
  }

  function Split(s: string): (words: seq<string>)
    ensures |words| >= 1
  {
    SplitAt(' ', s)
  }

  function Join(words: seq<string>): string
    requires |words| >= 1
  {
    words[0] + Middles(words[1..])
  }

  predicate NoSpace(s: string) {
    ' ' !in s
  }

  ghost predicate Words(words: seq<string>) {
    forall i :: 0 <= i < |words| ==> NoSpace(words[i])
  }

  lemma SplitIsWords(s: string)
    ensures Words(Split(s)) && Join(Split(s)) == s
  {
    SplitHasNoSpace(s);
    JoinOfSplit(s);
  }

  lemma {:induction false} SplitHasNoSpace(s: string)
    ensures Words(Split(s))
  {
    if s != "" {
      SplitHasNoSpace(s[1..]);
      SplitAtSpace(s);
      var words, rest := Split(s), Split(s[1..]);
      hide SplitAt, Split;
      forall i | 0 <= i < |words| ensures NoSpace(words[i]) {
        if s[0] == ' ' {
          assert i > 0 ==> words[i] == rest[i - 1];
        } else {
          assert NoSpace(rest[0]);
          assert i > 0 ==> words[i] == rest[i];
        }
      }
    }
  }

  lemma {:induction false} JoinOfSplit(s: string)
    ensures Join(Split(s)) == s
  {
    if s != "" {
      JoinOfSplit(s[1..]);
      SplitAtSpace(s);
      JoinWords(s[0], Split(s), Split(s[1..]));
      hide SplitAt, Split, Join;
      assert s == [s[0]] + s[1..];
    }
  }

  lemma JoinWords(ch: char, words: seq<string>, rest: seq<string>)
    requires rest != [] && words == if ch == ' ' then [""] + rest else [[ch] + rest[0]] + rest[1..]
    ensures Join(words) == [ch] + Join(rest)
  {
    if ch == ' ' {
      assert words[1..] == rest;
      Associative(" ", rest[0], Middles(rest[1..]));
    } else {
      hide Middles;
      assert words[1..] == rest[1..];
      Associative([ch], rest[0], Middles(rest[1..]));
    }
  }

  lemma Associative(a: string, b: string, c: string)
    ensures (a + b) + c == a + (b + c)
  {
  }

  lemma SplitAtSpace(s: string)
    requires s != ""
    ensures var rest := Split(s[1..]);
      Split(s) == if s[0] == ' ' then [""] + rest else [[s[0]] + rest[0]] + rest[1..]
  {
  }

  lemma {:induction false} SplitOfJoin(words: seq<string>)
    requires |words| >= 1 && Words(words)
    ensures Split(Join(words)) == words
    decreases |words|, |words[0]|
  {
    var s := Join(words);
    if words[0] == "" {
      if |words| == 1 {
        assert s == "";
      } else {
        assert s == " " + Join(words[1..]);
        assert s[1..] == Join(words[1..]);
        SplitOfJoin(words[1..]);
        assert words == [""] + words[1..];
      }
    } else {
      var shorter := words[0 := words[0][1..]];
      assert shorter[1..] == words[1..];
      assert s[1..] == Join(shorter);
      assert s[0] == words[0][0] && words[0][0] in words[0];
      SplitOfJoin(shorter);
      assert [s[0]] + shorter[0] == words[0];
      assert words == [words[0]] + shorter[1..];
    }
  }

  // The automaton

  /** The regular expression [A-Za-z]+|[0-9]{3}. */
  predicate IsCommand(s: string) {
    || (s != "" && forall i :: 0 <= i < |s| ==> 'A' <= s[i] <= 'Z' || 'a' <= s[i] <= 'z')
    || (|s| == 3 && forall i :: 0 <= i < |s| ==> '0' <= s[i] <= '9')
  }

  datatype WordState = Start | WaitCommand | InParam | InTrailing

  const MAX_PARAMS: nat := 15

  /** What the rest of the words makes of a message under construction; None is a return of false. */
  function FeedWords(state: WordState, m: IrcMessage, words: seq<string>): Option<IrcMessage>
    requires state.InTrailing? ==> m.params != []
    decreases |words|
  {
    if words == [] then Some(m)
    else
      var word, rest := words[0], words[1..];
      if !state.InTrailing? && word == "" then None
      else match state
        case Start =>
          if word[0] == ':' then
            if word[1..] == "" then None else FeedWords(WaitCommand, m.(prefix := word[1..]), rest)
          else FeedWords(InParam, m.(command := word), rest)
        case WaitCommand =>
          FeedWords(InParam, m.(command := word), rest)
        case InParam =>
          if word[0] == ':' then FeedWords(InTrailing, m.(params := m.params + [word[1..]]), rest)
          else
            var m' := m.(params := m.params + [word]);
            FeedWords(if |m'.params| >= 15 then InTrailing else InParam, m', rest)
        case InTrailing =>
          var n := |m.params| - 1;
          FeedWords(InTrailing, m.(params := m.params[n := m.params[n] + " " + word]), rest)
  }

  const EMPTY_MESSAGE := IrcMessage("", "", [])

  function ParseLine(line: string): Option<IrcMessage> {
    var r := FeedWords(Start, EMPTY_MESSAGE, Split(line));
    if r.Some? && IsCommand(r.value.command) then r else None
  }

  /** parseMessage; the message goes to the callback when there is one. */
  method ParseMessage(line: string) returns (r: Option<IrcMessage>)
    ensures r == ParseLine(line)
  {
    var state := Start;
    var words := Split(line);
    var message := EMPTY_MESSAGE;
    for i := 0 to |words|
      invariant state.InTrailing? ==> message.params != []
      invariant FeedWords(state, message, words[i..]) == FeedWords(Start, EMPTY_MESSAGE, words)
    {
      var word := words[i];
      assert words[i..][1..] == words[i + 1..];
      if state != InTrailing && word == "" {
        return None;
      }
      match state {
        case Start =>
          if word[0] == ':' {
            message := message.(prefix := word[1..]);
            if message.prefix == "" {
              return None;
            }
            state := WaitCommand;
          } else {
            message := message.(command := word);
            state := InParam;
          }
        case WaitCommand =>
          message := message.(command := word);
          state := InParam;
        case InParam =>
          if word[0] == ':' {
            message := message.(params := message.params + [word[1..]]);
            state := InTrailing;
          } else {
            message := message.(params := message.params + [word]);
            if |message.params| >= 15 {
              state := InTrailing;
            }
          }
        case InTrailing =>
          var last := |message.params| - 1;
          message := message.(params := message.params[last := message.params[last] + " " + word]);
      }
    }
    if !IsCommand(message.command) {
      return None;
    }
    return Some(message);
  }

  // The grammar

  /** A middle parameter: not empty, no space, no colon in front. */
  predicate IsMiddle(s: string) {
    s != "" && NoSpace(s) && s[0] != ':'
  }

  /** At most fifteen parameters with k before them, all but the last middle parameters. */
  predicate ParamsOk(k: nat, params: seq<string>) {
    && k + |params| <= MAX_PARAMS
    && forall i :: 0 <= i < |params| - 1 ==> IsMiddle(params[i])
  }

  /** The last parameter may come without a colon if it is a middle parameter, or if it is the
      fifteenth and its first character tells it from a colon form and from an empty word. */
  predicate BareOk(k: nat, params: seq<string>) {
    && params != []
    && var last := params[|params| - 1];
       last != "" && last[0] != ' ' && last[0] != ':' && (NoSpace(last) || k + |params| == MAX_PARAMS)
  }

  /** The two ways to write down parameters. */
  function WithColon(params: seq<string>): string {
    if params == [] then ""
    else Middles(params[..|params| - 1]) + " :" + params[|params| - 1]
  }

  predicate RendersParams(text: string, k: nat, params: seq<string>) {
    && ParamsOk(k, params)
    && (text == WithColon(params) || (BareOk(k, params) && text == Middles(params)))
  }

  /** The messages the grammar can express. */
  predicate WellFormed(m: IrcMessage) {
    NoSpace(m.prefix) && IsCommand(m.command) && ParamsOk(0, m.params)
  }

  /** A line of the grammar, and the message it stands for. */
  predicate Renders(line: string, m: IrcMessage) {
    && WellFormed(m)
    && (line == Encode(m) || (BareOk(0, m.params) && line == Head(m) + Middles(m.params)))
  }

  // The automaton decides the grammar

  lemma {:induction false} MiddlesAppend(a: seq<string>, b: seq<string>)
    ensures Middles(a + b) == Middles(a) + Middles(b)
  {
    if a == [] {
      assert a + b == b;
    } else {
      assert (a + b)[1..] == a[1..] + b;
      MiddlesAppend(a[1..], b);
    }
  }

  lemma {:induction false} FeedTrailing(m: IrcMessage, words: seq<string>)
    requires m.params != []
    ensures FeedWords(InTrailing, m, words)
            == Some(m.(params := m.params[|m.params| - 1 := m.params[|m.params| - 1] + Middles(words)]))
    decreases |words|
  {
    var n := |m.params| - 1;
    if words == [] {
      assert m.params[n] + Middles(words) == m.params[n];
      assert m.params[n := m.params[n]] == m.params;
    } else {
      var m' := m.(params := m.params[n := m.params[n] + " " + words[0]]);
      FeedTrailing(m', words[1..]);
      assert m.params[n] + " " + words[0] + Middles(words[1..]) == m.params[n] + Middles(words);
      assert m'.params[n := m.params[n] + Middles(words)] == m.params[n := m.params[n] + Middles(words)];
    }
  }

  /** What the automaton makes of the words after the command is a parameter list whose text they are. */
  lemma {:induction false} ParamsSound(m: IrcMessage, words: seq<string>) returns (params: seq<string>)
    requires |m.params| < MAX_PARAMS && Words(words)
    requires FeedWords(InParam, m, words).Some?
    ensures FeedWords(InParam, m, words) == Some(m.(params := m.params + params))
    ensures RendersParams(Middles(words), |m.params|, params)
    decreases |words|
  {
    if words == [] {
      params := [];
      assert m.params + [] == m.params;
      return;
    }
    var word, rest := words[0], words[1..];
    if word[0] == ':' {
      params := [word[1..] + Middles(rest)];
      ColonWordSound(m, word, rest);
    } else if |m.params| + 1 >= MAX_PARAMS {
      params := [word + Middles(rest)];
      LastWordSound(m, word, rest);
    } else {
      var more := ParamsSound(m.(params := m.params + [word]), rest);
      params := [word] + more;
      assert m.params + [word] + more == m.params + params;
      RendersMore(Middles(rest), |m.params|, word, more);
    }
  }

  lemma ColonWordSound(m: IrcMessage, word: string, rest: seq<string>)
    requires |m.params| < MAX_PARAMS && word != "" && word[0] == ':'
    ensures FeedWords(InParam, m, [word] + rest) == Some(m.(params := m.params + [word[1..] + Middles(rest)]))
    ensures RendersParams(Middles([word] + rest), |m.params|, [word[1..] + Middles(rest)])
  {
    var pushed := m.(params := m.params + [word[1..]]);
    assert ([word] + rest)[1..] == rest;
    FeedTrailing(pushed, rest);
    assert pushed.params[|m.params| := word[1..] + Middles(rest)] == m.params + [word[1..] + Middles(rest)];
    assert word == ":" + word[1..];
    var last := word[1..] + Middles(rest);
    assert [last][..0] == [];
    assert WithColon([last]) == " :" + last;
    assert " " + word + Middles(rest) == " :" + last;
  }

  lemma LastWordSound(m: IrcMessage, word: string, rest: seq<string>)
    requires |m.params| + 1 == MAX_PARAMS && word != "" && NoSpace(word) && word[0] != ':'
    ensures FeedWords(InParam, m, [word] + rest) == Some(m.(params := m.params + [word + Middles(rest)]))
    ensures RendersParams(Middles([word] + rest), |m.params|, [word + Middles(rest)])
  {
    var pushed := m.(params := m.params + [word]);
    assert ([word] + rest)[1..] == rest;
    FeedTrailing(pushed, rest);
    assert pushed.params[|m.params| := word + Middles(rest)] == m.params + [word + Middles(rest)];
    var last := word + Middles(rest);
    assert last[0] == word[0] && word[0] in word;
    MiddlesOfOne(last);
  }

  lemma MiddlesOfOne(last: string)
    ensures Middles([last]) == " " + last
  {
    MiddlesSnoc([], last);
    assert [] + [last] == [last];
  }

  lemma RendersMore(text: string, k: nat, word: string, more: seq<string>)
    requires k + 1 < MAX_PARAMS && IsMiddle(word) && RendersParams(text, k + 1, more)
    ensures RendersParams(" " + word + text, k, [word] + more)
  {
    var params := [word] + more;
    assert params[1..] == more;
    assert Middles(params) == " " + word + Middles(more);
    assert word[0] in word;
    if more == [] {
      assert text == "";
    } else {
      var n := |more| - 1;
      assert params[..n + 1] == [word] + more[..n];
      assert ([word] + more[..n])[1..] == more[..n];
      assert WithColon(params) == " " + word + WithColon(more);
      forall i | 0 <= i < |params| - 1 ensures IsMiddle(params[i]) {
        if i > 0 {
          assert params[i] == more[i - 1];
        }
      }
    }
  }

  /** Middle parameters are taken over word by word. */
  lemma {:induction false} FeedMiddles(m: IrcMessage, middles: seq<string>, rest: seq<string>)
    requires |m.params| + |middles| < MAX_PARAMS
    requires forall i :: 0 <= i < |middles| ==> IsMiddle(middles[i])
    ensures FeedWords(InParam, m, middles + rest)
            == FeedWords(InParam, m.(params := m.params + middles), rest)
    decreases |middles|
  {
    if middles == [] {
      assert middles + rest == rest;
      assert m.params + [] == m.params;
    } else {
      var m' := m.(params := m.params + [middles[0]]);
      assert (middles + rest)[0] == middles[0];
      assert (middles + rest)[1..] == middles[1..] + rest;
      FeedMiddles(m', middles[1..], rest);
      assert m.params + [middles[0]] + middles[1..] == m.params + middles;
    }
  }

  /** The words that a way of writing down a parameter list consists of. */
  lemma SpelledWords(text: string, params: seq<string>) returns (middles: seq<string>, spelled: string)
    requires params != [] && RendersParams(text, 0, params)
    ensures params == middles + [params[|params| - 1]]
    ensures spelled == ":" + params[|params| - 1] || (BareOk(0, params) && spelled == params[|params| - 1])
    ensures Middles(middles + Split(spelled)) == text
  {
    hide BareOk, ParamsOk, Split, Middles;
    var n := |params| - 1;
    var last := params[n];
    middles := params[..n];
    assert params == middles + [last];
    if text == WithColon(params) {
      spelled := ":" + last;
      SpaceFirst(Middles(middles), ":", last);
    } else {
      spelled := last;
      MiddlesSnoc(middles, last);
      SpaceFirst(Middles(middles), "", last);
      assert "" + last == last;
    }
    assert text == Middles(middles) + (" " + spelled);
    MiddlesOfSplit(middles, spelled);
  }

  lemma SpaceFirst(front: string, mark: string, last: string)
    requires mark == ":" || mark == ""
    ensures front + (if mark == ":" then " :" else " ") + last == front + (" " + (mark + last))
  {
    assert (if mark == ":" then " :" else " ") == " " + mark;
  }

  lemma MiddlesOfSplit(middles: seq<string>, spelled: string)
    ensures Middles(middles + Split(spelled)) == Middles(middles) + (" " + spelled)
  {
    var tail := Split(spelled);
    SplitIsWords(spelled);
    MiddlesAppend(middles, tail);
    assert Middles(tail) == " " + Join(tail);
  }

  /** Every way to write down a parameter list is a list of words that the automaton reads back. */
  lemma ParamsComplete(m: IrcMessage, text: string, params: seq<string>) returns (words: seq<string>)
    requires m.params == [] && RendersParams(text, 0, params)
    ensures Words(words) && Middles(words) == text
    ensures FeedWords(InParam, m, words) == Some(m.(params := params))
  {
    if params == [] {
      words := [];
      return;
    }
    var middles, spelled := SpelledWords(text, params);
    var tail := Split(spelled);
    words := middles + tail;
    SplitIsWords(spelled);
    assert m.params + middles == middles;
    FeedMiddles(m, middles, tail);
    LastComplete(m.(params := middles), spelled, params[|params| - 1]);
  }

  lemma LastComplete(m: IrcMessage, spelled: string, last: string)
    requires |m.params| < MAX_PARAMS
    requires spelled == ":" + last
             || (spelled == last && last != "" && last[0] != ' ' && last[0] != ':'
                 && (NoSpace(last) || |m.params| + 1 == MAX_PARAMS))
    ensures FeedWords(InParam, m, Split(spelled)) == Some(m.(params := m.params + [last]))
  {
    hide FeedWords, Split;
    var words := Split(spelled);
    FirstWord(spelled);
    var first, rest := words[0], words[1..];
    assert words == [first] + rest;
    if spelled == ":" + last {
      ColonWordSound(m, first, rest);
      assert last == spelled[1..];
      assert (first + Middles(rest))[1..] == first[1..] + Middles(rest);
    } else if |m.params| + 1 == MAX_PARAMS {
      LastWordSound(m, first, rest);
    } else {
      MiddleComplete(m, last);
    }
  }

  lemma FirstWord(spelled: string)
    requires spelled != "" && spelled[0] != ' '
    ensures var words := Split(spelled);
      && words[0] != "" && words[0][0] == spelled[0]
      && NoSpace(words[0]) && words[0] + Middles(words[1..]) == spelled
  {
    SplitIsWords(spelled);
  }

  lemma MiddleComplete(m: IrcMessage, last: string)
    requires |m.params| + 1 < MAX_PARAMS && IsMiddle(last)
    ensures FeedWords(InParam, m, Split(last)) == Some(m.(params := m.params + [last]))
  {
    var words := [last];
    assert words[1..] == [];
    assert Join(words) == last;
    SplitOfJoin(words);
  }

  /** A line is accepted, with a given message, exactly when the grammar derives it for that message. */
  lemma ParseExact(line: string, m: IrcMessage)
    ensures ParseLine(line) == Some(m) <==> Renders(line, m)
  {
    if ParseLine(line) == Some(m) {
      ParseSound(line, m);
    }
    if Renders(line, m) {
      ParseComplete(line, m);
    }
  }

  lemma ParseSound(line: string, m: IrcMessage)
    requires ParseLine(line) == Some(m)
    ensures Renders(line, m)
  {
    hide FeedWords, Split, Join, Words, IsCommand, Renders;
    var words := Split(line);
    SplitIsWords(line);
    var first := FirstStep(words, m);
    if first.WaitCommand? {
      PrefixedStep(words, m);
      PrefixedSound(words, m);
    } else {
      BareSound(words, m);
    }
  }

  lemma BareSound(words: seq<string>, m: IrcMessage)
    requires words != [] && Words(words) && IsCommand(m.command)
    requires FeedWords(InParam, EMPTY_MESSAGE.(command := words[0]), words[1..]) == Some(m)
    ensures Renders(Join(words), m)
  {
    hide FeedWords, Middles, IsCommand, Renders;
    var start := EMPTY_MESSAGE.(command := words[0]);
    CommandAndParams(start, words[1..], m);
    assert "" + words[0] == words[0];
    assert Head(start) == words[0];
  }

  lemma PrefixedSound(words: seq<string>, m: IrcMessage)
    requires |words| >= 2 && Words(words) && IsCommand(m.command)
    requires words[0] != "" && words[0][0] == ':' && words[0][1..] != ""
    requires FeedWords(InParam, EMPTY_MESSAGE.(prefix := words[0][1..], command := words[1]), words[2..]) == Some(m)
    ensures Renders(Join(words), m)
  {
    hide FeedWords, Middles, IsCommand, Renders, Join, Head;
    assert NoSpace(words[0]);
    CommandAndParams(EMPTY_MESSAGE.(prefix := words[0][1..], command := words[1]), words[2..], m);
    PrefixedJoin(words);
  }

  /** The first word is the prefix or the command. */
  lemma FirstStep(words: seq<string>, m: IrcMessage) returns (next: WordState)
    requires words != [] && FeedWords(Start, EMPTY_MESSAGE, words) == Some(m)
    ensures words[0] != ""
    ensures next.WaitCommand? ==> words[0][0] == ':' && words[0][1..] != ""
    ensures next.WaitCommand? ==>
      FeedWords(WaitCommand, EMPTY_MESSAGE.(prefix := words[0][1..]), words[1..]) == Some(m)
    ensures !next.WaitCommand? ==>
      FeedWords(InParam, EMPTY_MESSAGE.(command := words[0]), words[1..]) == Some(m)
  {
    next := if words[0][0] == ':' then WaitCommand else InParam;
  }

  /** Behind a prefix there is a command. */
  lemma PrefixedStep(words: seq<string>, m: IrcMessage)
    requires words != [] && words[0] != "" && IsCommand(m.command)
    requires FeedWords(WaitCommand, EMPTY_MESSAGE.(prefix := words[0][1..]), words[1..]) == Some(m)
    ensures |words| >= 2
    ensures FeedWords(InParam, EMPTY_MESSAGE.(prefix := words[0][1..], command := words[1]), words[2..]) == Some(m)
  {
    if |words| >= 2 {
      assert words[1..][0] == words[1] && words[1..][1..] == words[2..];
    }
  }

  lemma PrefixedJoin(words: seq<string>)
    requires |words| >= 2 && words[0] != "" && words[0][0] == ':' && words[0][1..] != ""
    ensures Join(words) == Head(EMPTY_MESSAGE.(prefix := words[0][1..], command := words[1])) + Middles(words[2..])
  {
    assert words[1..][0] == words[1] && words[1..][1..] == words[2..];
    assert words[0] == ":" + words[0][1..];
    assert words[0] + (" " + words[1] + Middles(words[2..])) == words[0] + " " + words[1] + Middles(words[2..]);
  }

  lemma CommandAndParams(start: IrcMessage, rest: seq<string>, m: IrcMessage)
    requires start.params == [] && Words(rest) && NoSpace(start.prefix) && IsCommand(m.command)
    requires FeedWords(InParam, start, rest) == Some(m)
    ensures Renders(Head(start) + Middles(rest), m)
  {
    hide FeedWords, Middles, IsCommand;
    var params := ParamsSound(start, rest);
    assert start.params + params == params;
    assert m == start.(params := params);
    assert Head(m) == Head(start);
    EncodeParts(m);
  }

  lemma ParseComplete(line: string, m: IrcMessage)
    requires Renders(line, m)
    ensures ParseLine(line) == Some(m)
  {
    hide FeedWords, Split, Join, Middles, Head, IsCommand;
    var text := if line == Encode(m) then WithColon(m.params) else Middles(m.params);
    EncodeParts(m);
    hide WithColon, Encode;
    var start := m.(params := []);
    var words := ParamsComplete(start, text, m.params);
    FeedHead(m, words);
    var all := (if m.prefix == "" then [] else [":" + m.prefix]) + [m.command] + words;
    CommandIsWord(m.command);
    HeadWords(m, words);
    SplitOfJoin(all);
  }

  lemma EncodeParts(m: IrcMessage)
    ensures Encode(m) == Head(m) + WithColon(m.params)
  {
    hide Head, Middles;
    if m.params == [] {
      assert Head(m) + "" == Head(m);
    } else {
      assert WithColon(m.params) == Middles(m.params[..|m.params| - 1]) + (" :" + m.params[|m.params| - 1]);
    }
  }

  lemma HeadWords(m: IrcMessage, words: seq<string>)
    ensures Join((if m.prefix == "" then [] else [":" + m.prefix]) + [m.command] + words) == Head(m) + Middles(words)
  {
    if m.prefix == "" {
      var all := [m.command] + words;
      assert all[1..] == words;
      assert [] + [m.command] + words == all;
    } else {
      var all := [":" + m.prefix] + [m.command] + words;
      assert all[1..] == [m.command] + words;
      assert all[1..][1..] == words;
    }
  }

  lemma FeedHead(m: IrcMessage, words: seq<string>)
    requires IsCommand(m.command)
    ensures FeedWords(Start, EMPTY_MESSAGE, (if m.prefix == "" then [] else [":" + m.prefix]) + [m.command] + words)
            == FeedWords(InParam, m.(params := []), words)
  {
    CommandIsWord(m.command);
    if m.prefix == "" {
      var all := [m.command] + words;
      assert all[1..] == words;
      assert [] + [m.command] + words == all;
      assert EMPTY_MESSAGE.(command := m.command) == m.(params := []);
    } else {
      var all := [":" + m.prefix] + [m.command] + words;
      var prefixed := EMPTY_MESSAGE.(prefix := m.prefix);
      assert all[1..] == [m.command] + words;
      assert all[1..][1..] == words;
      assert (":" + m.prefix)[1..] == m.prefix;
      assert FeedWords(Start, EMPTY_MESSAGE, all) == FeedWords(WaitCommand, prefixed, all[1..]);
      assert prefixed.(command := m.command) == m.(params := []);
    }
  }

  lemma CommandIsWord(s: string)
    requires IsCommand(s)
    ensures s != "" && NoSpace(s) && s[0] != ':'
  {
  }

  /** Printing and parsing: the printed line of a message parses, and then to that message, exactly when
      the message is well formed. */
  lemma PrintParse(m: IrcMessage)
    ensures ParseLine(Encode(m)) == Some(m) <==> WellFormed(m)
  {
    ParseExact(Encode(m), m);
  }

  /** Parsing and printing: the message of an accepted line is well formed, and its printed line parses
      to it again. */
  lemma ParsePrintParse(line: string)
    requires ParseLine(line).Some?
    ensures WellFormed(ParseLine(line).value)
    ensures ParseLine(Encode(ParseLine(line).value)) == ParseLine(line)
  {
    ParseExact(line, ParseLine(line).value);
    PrintParse(ParseLine(line).value);
  }

  /** Which commands there are: a line that is one word without a colon in front is accepted if and only if
      the word is made of letters alone or is a number of three digits. */
  lemma CommandsAccepted(word: string)
    requires word != "" && NoSpace(word) && word[0] != ':'
    ensures ParseLine(word).Some?
            <==> (forall i :: 0 <= i < |word| ==> 'A' <= word[i] <= 'Z' || 'a' <= word[i] <= 'z')
                 || (|word| == 3 && '0' <= word[0] <= '9' && '0' <= word[1] <= '9' && '0' <= word[2] <= '9')
    ensures ParseLine(word).Some? ==> ParseLine(word) == Some(IrcMessage("", word, []))
  {
    OneWord(word);
    assert [word][1..] == [];
    assert FeedWords(InParam, EMPTY_MESSAGE.(command := word), []) == Some(IrcMessage("", word, []));
  }

  lemma OneWord(word: string)
    requires NoSpace(word)
    ensures Split(word) == [word]
  {
    assert Join([word]) == word + Middles([]) == word;
    SplitOfJoin([word]);
  }
}

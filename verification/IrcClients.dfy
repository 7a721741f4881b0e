/** The message-driven state of IrcClient: registration with fallback nicknames, the ISUPPORT tables and
    channel modes. */
module IrcClients {
  import opened IrcMessages
  import opened Options
  import opened CaseInsensitive
  import G = IrcGrammar
  import S = IrcSupport
  import M = IrcModes

  // Registration

  /** What the registration depends on, and the messages given to sendMessage so far. */
  datatype Registration = Registration(candidates: seq<string>, index: nat, nickname: string, beginning: bool,
                                       quitReady: bool, sent: seq<IrcMessage>)

  function Named(r: Registration, nickname: string): Registration {
    r.(nickname := nickname, sent := r.sent + [IrcMessage("", "NICK", [nickname])])
  }

  function Quit(r: Registration): Registration {
    r.(quitReady := true, sent := r.sent + [IrcMessage("", "QUIT", ["Bye!"])])
  }

  /** What follows on a connection without an error: USER, and NICK with the first candidate. */
  function Begin(r: Registration): Registration
    requires r.candidates != []
  {
    var first := r.candidates[0];
    Named(r.(beginning := true, sent := r.sent + [IrcMessage("", "USER", [first, "0", "*", first])]), first)
  }

  datatype Reply = Welcome | Rejection

  function Answer(r: Registration, reply: Reply): Registration {
    match reply
    case Welcome => r.(beginning := false)
    case Rejection =>
      if !r.beginning then r
      else
        var r := r.(index := r.index + 1);
        if |r.candidates| <= r.index then Quit(r) else Named(r, r.candidates[r.index])
  }

  function Answers(r: Registration, replies: seq<Reply>): Registration
    decreases |replies|
  {
    if replies == [] then r else Answers(Answer(r, replies[0]), replies[1..])
  }

  /** The rejections that count: those before the first welcome. */
  function Rejections(replies: seq<Reply>): nat {
    if replies == [] || replies[0].Welcome? then 0 else 1 + Rejections(replies[1..])
  }

  function NickLines(names: seq<string>): (lines: seq<IrcMessage>)
    ensures |lines| == |names|
  {
    seq(|names|, i requires 0 <= i < |names| => IrcMessage("", "NICK", [names[i]]))
  }

  function QuitLines(count: nat): (lines: seq<IrcMessage>)
    ensures |lines| == count
  {
    seq(count, i => IrcMessage("", "QUIT", ["Bye!"]))
  }

  /** The state after k rejections of n candidates, for a registration that began from a given state: all
      that has been sent since, in order, is USER, NICK for the first k + 1 candidates or for all of them,
      and QUIT for each rejection from the n-th on. */
  ghost predicate After(r: Registration, base: Registration, k: nat) {
    && r.candidates == base.candidates && r.index == k && r.candidates != []
    && var c, n := r.candidates, |r.candidates|;
       var asked, quits := if k < n then k + 1 else n, if k < n then 0 else k + 1 - n;
       && r.sent == base.sent + [IrcMessage("", "USER", [c[0], "0", "*", c[0]])]
                    + NickLines(c[..asked]) + QuitLines(quits)
       && r.nickname == c[asked - 1] && (r.quitReady <==> base.quitReady || k >= n)
  }

  lemma RejectionCounts(r: Registration, base: Registration, k: nat)
    requires After(r, base, k) && r.beginning
    ensures After(Answer(r, Rejection), base, k + 1)
  {
    var c, n := r.candidates, |r.candidates|;
    var user := base.sent + [IrcMessage("", "USER", [c[0], "0", "*", c[0]])];
    if k + 1 < n {
      var asked := IrcMessage("", "NICK", [c[k + 1]]);
      assert NickLines(c[..k + 2]) == NickLines(c[..k + 1]) + [asked];
      assert user + NickLines(c[..k + 1]) + QuitLines(0) + [asked] == user + NickLines(c[..k + 2]) + QuitLines(0);
    } else {
      var quits := k + 1 - n;
      assert QuitLines(quits + 1) == QuitLines(quits) + [IrcMessage("", "QUIT", ["Bye!"])];
      assert k + 1 == n ==> c[..k + 1] == c[..n];
      Regroup(user + NickLines(c[..n]), QuitLines(quits), [IrcMessage("", "QUIT", ["Bye!"])]);
    }
  }

  lemma Regroup<T>(a: seq<T>, b: seq<T>, c: seq<T>)
    ensures a + b + c == a + (b + c)
  {
  }

  lemma {:induction false} WelcomeEnds(r: Registration, replies: seq<Reply>)
    requires !r.beginning
    ensures Answers(r, replies) == r
    decreases |replies|
  {
    if replies != [] {
      assert Answer(r, replies[0]) == r;
      WelcomeEnds(r, replies[1..]);
    }
  }

  lemma {:induction false} RepliesCount(r: Registration, base: Registration, k: nat, replies: seq<Reply>)
    requires After(r, base, k) && r.beginning
    ensures After(Answers(r, replies), base, k + Rejections(replies))
    decreases |replies|
  {
    hide After;
    if replies != [] {
      if replies[0].Welcome? {
        WelcomeEnds(Answer(r, Welcome), replies[1..]);
        WelcomeKeeps(r, base, k);
      } else {
        RejectionCounts(r, base, k);
        RejectionContinues(r);
        RepliesCount(Answer(r, Rejection), base, k + 1, replies[1..]);
      }
    }
  }

  lemma WelcomeKeeps(r: Registration, base: Registration, k: nat)
    requires After(r, base, k)
    ensures After(Answer(r, Welcome), base, k)
  {
  }

  lemma RejectionContinues(r: Registration)
    requires r.beginning
    ensures Answer(r, Rejection).beginning
  {
  }

  /** Registration, from any state and for every run of replies: with k rejections before the welcome, what
      has been sent since is USER, then NICK for the first k + 1 candidates in order, or for all of them
      when they run out, then a QUIT for each rejection from then on, and nothing else; nickname_ is the
      last one asked for, and quitReady_ is set exactly when they have run out. */
  lemma RegistrationRun(base: Registration, replies: seq<Reply>)
    requires base.candidates != [] && base.index == 0
    ensures After(Answers(Begin(base), replies), base, Rejections(replies))
  {
    var first := base.candidates[0];
    var user := base.sent + [IrcMessage("", "USER", [first, "0", "*", first])];
    assert base.candidates[..1] == [first];
    assert NickLines([first]) == [IrcMessage("", "NICK", [first])];
    assert user + NickLines([first]) + QuitLines(0) == user + NickLines([first]);
    RepliesCount(Begin(base), base, 0, replies);
  }

  // The client

  /** The events that these messages fire, as far as their arguments go. */
  datatype ClientEvent = OnConnect | OnServerMessage(command: string, text: string)

  class IrcClient {
    var nicknameCandidates: seq<string>
    var currentNicknameIndex: nat
    var nickname: string
    var connectBeginning: bool
    var quitReady: bool
    var clearMe: bool
    var closeTimer: bool
    var sent: seq<IrcMessage>
    var fired: seq<ClientEvent>
    var channelModes: seq<string>
    var channelTypes: string
    var nicknamePrefixMap: S.PrefixMap
    var serverOptions: S.ServerOptions
    var channels: map<string, M.Participants>

    ghost function View(): Registration
      reads this
    {
      Registration(nicknameCandidates, currentNicknameIndex, nickname, connectBeginning, quitReady, sent)
    }

    function Tables(): S.Tables
      reads this
    {
      S.Tables(channelTypes, channelModes, nicknamePrefixMap, serverOptions)
    }

    constructor ()
      ensures View() == Registration([], 0, "", false, false, [])
      ensures Tables() == S.INITIAL_TABLES && S.Valid(Tables())
      ensures channels == map[] && fired == [] && !closeTimer
    {
      nicknameCandidates, currentNicknameIndex, nickname := [], 0, "";
      connectBeginning, quitReady, clearMe, closeTimer := false, false, false, false;
      sent, fired := [], [];
      channelModes, channelTypes := ["", "", "", ""], "";
      nicknamePrefixMap, serverOptions, channels := S.DEFAULT_PREFIXES, map[], map[];
      new;
      S.InitialTablesValid();
    }

    /** sendMessage, as far as the caller is concerned. */
    method SendMessage(message: IrcMessage)
      modifies this`sent
      ensures sent == old(sent) + [message]
    {
      sent := sent + [message];
    }

    /** nickname */
    method SetNickname(name: string)
      modifies this`nickname, this`sent
      ensures View() == Named(old(View()), name)
    {
      nickname := name;
      SendMessage(IrcMessage("", "NICK", [name]));
    }

    /** close; the timer that it starts ends the connection if nothing else does. */
    method Close(clear: bool)
      modifies this`quitReady, this`clearMe, this`closeTimer, this`sent
      ensures View() == Quit(old(View())) && clearMe == clear && closeTimer
    {
      quitReady := true;
      clearMe := clear;
      SendMessage(IrcMessage("", "QUIT", ["Bye!"]));
      closeTimer := true;
    }

    /** connect, up to the start of asyncConnect. */
    method Connect(nicknames: seq<string>) returns (starts: bool)
      modifies this`nicknameCandidates, this`currentNicknameIndex
      ensures starts <==> nicknames != [] && nicknames[0] != ""
      ensures View() == if starts then old(View()).(candidates := nicknames, index := 0) else old(View())
    {
      if nicknames == [] || nicknames[0] == "" {
        return false;
      }
      nicknameCandidates := nicknames;
      currentNicknameIndex := 0;
      return true;
    }

    /** The completion of asyncConnect without an error. */
    method Connected()
      requires nicknameCandidates != []
      modifies this`connectBeginning, this`nickname, this`sent
      ensures View() == Begin(old(View()))
    {
      connectBeginning := true;
      SendMessage(IrcMessage("", "USER", [nicknameCandidates[0], "0", "*", nicknameCandidates[0]]));
      SetNickname(nicknameCandidates[0]);
    }

    /** tryNextNickname */
    method TryNextNickname()
      requires connectBeginning
      modifies this`currentNicknameIndex, this`nickname, this`quitReady, this`clearMe, this`closeTimer, this`sent
      ensures View() == Answer(old(View()), Rejection)
      ensures |nicknameCandidates| <= currentNicknameIndex ==> closeTimer && clearMe
      ensures |nicknameCandidates| > currentNicknameIndex ==> closeTimer == old(closeTimer) && clearMe == old(clearMe)
    {
      currentNicknameIndex := currentNicknameIndex + 1;
      if |nicknameCandidates| <= currentNicknameIndex {
        Close(true);
        return;
      }
      SetNickname(nicknameCandidates[currentNicknameIndex]);
    }

    /** procMessage for the replies that registration depends on; the source takes the first parameter of
        001 without looking whether there is one. */
    method ProcReply(message: IrcMessage)
      requires message.command in {"001", "432", "433", "436", "437"}
      requires message.command == "001" ==> message.params != []
      modifies this`connectBeginning, this`currentNicknameIndex, this`nickname, this`quitReady, this`clearMe
      modifies this`closeTimer, this`sent, this`fired
      ensures View() == Answer(old(View()), if message.command == "001" then Welcome else Rejection)
      ensures fired == old(fired) + if message.command == "001"
                                    then [OnConnect, OnServerMessage("001", message.params[0])] else []
    {
      if message.command == "001" {
        connectBeginning := false;
        fired := fired + [OnConnect];
        fired := fired + [OnServerMessage(message.command, message.params[0])];
      } else if message.command == "432" || message.command == "433"
             || message.command == "436" || message.command == "437" {
        if connectBeginning {
          TryNextNickname();
        }
      }
    }

    /** procMessage for 005; the iterators of the source need at least two parameters. */
    method ProcSupport(message: IrcMessage)
      requires |message.params| >= 2 && S.Valid(Tables())
      modifies this`channelTypes, this`channelModes, this`nicknamePrefixMap, this`serverOptions
      ensures Tables() == S.ApplySupport(old(Tables()), message.params)
      ensures S.Valid(Tables())
    {
      hide S.Sort, S.InsertPairs, S.MatchPrefix, S.Valid, S.ApplyToken, G.SplitAt;
      var name, end := "", |message.params| - 1;
      ghost var tokens := message.params[1..end];
      for i := 1 to end
        invariant S.ApplyTokens(Tables(), name, tokens[i - 1..]) == S.ApplyTokens(old(Tables()), "", tokens)
        invariant S.Valid(Tables())
      {
        assert tokens[i - 1..][0] == message.params[i] && tokens[i - 1..][1..] == tokens[i..];
        S.TokenKeepsValid(Tables(), name, message.params[i]);
        name := ProcSupportToken(name, message.params[i]);
      }
    }

    /** The body of the loop over the parameters of a 005 message. */
    method ProcSupportToken(name: string, token: string) returns (name': string)
      modifies this`channelTypes, this`channelModes, this`nicknamePrefixMap, this`serverOptions
      ensures (Tables(), name') == S.ApplyToken(old(Tables()), name, token)
    {
      hide S.Sort, S.InsertPairs, S.MatchPrefix, S.Emplace, G.SplitAt;
      var equalPos := S.FindEqual(token);
      var value;
      if equalPos.Some? {
        name' := token[..equalPos.value];
        value := token[equalPos.value + 1..];
        serverOptions := S.Emplace(serverOptions, name', value);
      } else {
        name' := name;
        value := "";
        serverOptions := S.Emplace(serverOptions, name', value);
      }
      if name' == "CHANTYPES" {
        channelTypes := S.Sort(value);
      } else if name' == "CHANMODES" {
        var supportedModes := G.SplitAt(',', value);
        if |supportedModes| == 4 {
          channelModes := [S.Sort(supportedModes[0]), S.Sort(supportedModes[1]),
                           S.Sort(supportedModes[2]), S.Sort(supportedModes[3])];
        }
      } else if name' == "PREFIX" {
        var matched := S.MatchPrefix(value);
        if matched.Some? {
          if |matched.value.0| == |matched.value.1| {
            nicknamePrefixMap := InsertAll(matched.value.1, matched.value.0);
          }
        }
      }
    }

    /** The loop over the pairs of a PREFIX value. */
    static method InsertAll(symbols: string, letters: string) returns (m: S.PrefixMap)
      requires |symbols| == |letters|
      ensures m == S.InsertPairs(map[], symbols, letters)
    {
      m := map[];
      for i := 0 to |symbols|
        invariant S.InsertPairs(m, symbols[i..], letters[i..]) == S.InsertPairs(map[], symbols, letters)
      {
        assert symbols[i..][1..] == symbols[i + 1..] && letters[i..][1..] == letters[i + 1..];
        m := S.InsertPair(m, symbols[i], letters[i]);
      }
    }

    /** procMessage for MODE: false when a parameter that is needed is missing, which throws. */
    method ProcMode(message: IrcMessage) returns (ok: bool)
      requires S.Valid(Tables())
      modifies this`channels
      ensures message.params == [] ==> !ok && channels == old(channels)
      ensures message.params != [] ==>
        var to := Fold(message.params[0]);
        if message.params[0] == nickname || to !in old(channels) then ok && channels == old(channels)
        else if |message.params| == 1 then !ok && channels == old(channels)
        else
          var r := M.Interpret(Tables(), old(channels)[to], None, message.params[1], message.params[2..]);
          ok == r.ok && channels == old(channels)[to := r.participants]
    {
      hide M.Interpret, Fold;
      if message.params == [] {
        return false;
      }
      if message.params[0] == nickname {
        return true;
      }
      var to := Fold(message.params[0]);
      if to !in channels {
        return true;
      }
      if |message.params| == 1 {
        return false;
      }
      var participants, _, enough := M.RunModifier(Tables(), channels[to], message.params[1], message.params);
      channels := channels[to := participants];
      return enough;
    }
  }
}

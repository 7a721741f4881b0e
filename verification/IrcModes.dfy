/** The MODE interpreter of IrcClient::procMessage for a channel. */
module IrcModes {
  import opened Options
  import opened CaseInsensitive
  import S = IrcSupport

  /** Participant::Modes */
  datatype Mode = Voice | HalfOp | Op | Admin | Owner

  /** The entries of the case-insensitive set of participants; the key is the folded nickname. */
  datatype Participant = Participant(modes: set<Mode>, nickname: string, away: bool)

  type Participants = map<string, Participant>

  /** participantModeFromPermission, for the letters it knows. */
  function ModeOf(letter: char): Option<Mode> {
    if letter == 'q' then Some(Owner)
    else if letter == 'a' then Some(Admin)
    else if letter == 'o' then Some(Op)
    else if letter == 'h' then Some(HalfOp)
    else if letter == 'v' then Some(Voice)
    else None
  }

  /** The letters that are listed without taking a parameter. */
  predicate IsStub(letter: char) {
    letter in "OlkbeI"
  }

  /** Whether a letter behind a sign takes the next parameter.  Mode C letters take one whatever the
      sign, because the source tests that there is a sign, not which. */
  predicate Takes(t: S.Tables, letter: char)
    requires |t.channelModes| == 4
  {
    || ModeOf(letter).Some?
    || (&& !IsStub(letter)
        && (|| S.BinarySearch(t.channelModes[0], letter)
            || S.BinarySearch(t.channelModes[1], letter)
            || letter in t.prefixes.Values
            || S.BinarySearch(t.channelModes[2], letter)))
  }

  /** With the tables that every run of 005 messages leaves, the searches are memberships. */
  lemma TakesIsMembership(t: S.Tables, letter: char)
    requires S.Valid(t)
    ensures Takes(t, letter)
            <==> || letter in "qaohv"
                 || (letter !in "OlkbeI"
                     && (letter in t.channelModes[0] || letter in t.channelModes[1] || letter in t.channelModes[2]
                         || letter in t.prefixes.Values))
  {
    hide S.BinarySearch;
    S.SearchIsMembership(t.channelModes[0], letter);
    S.SearchIsMembership(t.channelModes[1], letter);
    S.SearchIsMembership(t.channelModes[2], letter);
  }

  function SetMode(ps: Participants, nickname: string, mode: Mode, add: bool): Participants {
    var key := Fold(nickname);
    if key !in ps then ps
    else ps[key := ps[key].(modes := if add then ps[key].modes + {mode} else ps[key].modes - {mode})]
  }

  /** Participants, parameters left, and whether there were enough of them: params_.at throws when there
      are not, and what has been done by then stays done. */
  datatype Outcome = Outcome(participants: Participants, rest: seq<string>, ok: bool)

  function Interpret(t: S.Tables, ps: Participants, sign: Option<bool>, modifier: string, params: seq<string>): Outcome
    requires |t.channelModes| == 4
    decreases |modifier|
  {
    if modifier == "" then Outcome(ps, params, true)
    else
      var ch, rest := modifier[0], modifier[1..];
      if ch == '+' then Interpret(t, ps, Some(true), rest, params)
      else if ch == '-' then Interpret(t, ps, Some(false), rest, params)
      else if sign.None? || !Takes(t, ch) then Interpret(t, ps, sign, rest, params)
      else if params == [] then Outcome(ps, params, false)
      else
        var next := if ModeOf(ch).Some? then SetMode(ps, params[0], ModeOf(ch).value, sign.value) else ps;
        Interpret(t, next, sign, rest, params[1..])
  }

  /** The loop over the modifier. */
  method RunModifier(t: S.Tables, participants: Participants, modifier: string, params: seq<string>)
    returns (result: Participants, nextParamIdx: nat, ok: bool)
    requires |t.channelModes| == 4 && |params| >= 2
    ensures nextParamIdx <= |params|
    ensures Outcome(result, params[nextParamIdx..], ok) == Interpret(t, participants, None, modifier, params[2..])
  {
    hide S.BinarySearch, IsStub, SetMode, ModeOf;
    result := participants;
    nextParamIdx := 2;
    var operation: Option<bool> := None;
    for i := 0 to |modifier|
      invariant 2 <= nextParamIdx <= |params|
      invariant Interpret(t, result, operation, modifier[i..], params[nextParamIdx..])
                == Interpret(t, participants, None, modifier, params[2..])
    {
      var ch := modifier[i];
      assert modifier[i..][0] == ch && modifier[i..][1..] == modifier[i + 1..];
      if ch == '+' {
        operation := Some(true);
        continue;
      } else if ch == '-' {
        operation := Some(false);
        continue;
      }
      if operation.None? {
        continue;
      }
      var takes := TakesParam(t, ch);
      if takes {
        if nextParamIdx == |params| {
          return result, nextParamIdx, false;
        }
        var param := params[nextParamIdx];
        assert params[nextParamIdx..][0] == param && params[nextParamIdx..][1..] == params[nextParamIdx + 1..];
        nextParamIdx := nextParamIdx + 1;
        if ModeOf(ch).Some? {
          result := SetMode(result, param, ModeOf(ch).value, operation.value);
        }
      }
    }
    ok := true;
  }

  /** The inner switch, as far as it decides about a parameter. */
  method TakesParam(t: S.Tables, ch: char) returns (takes: bool)
    requires |t.channelModes| == 4
    ensures takes == Takes(t, ch)
  {
    if ModeOf(ch).Some? {
      return true;
    } else if IsStub(ch) {
      return false;
    } else if S.BinarySearch(t.channelModes[0], ch) {
      return true;
    } else if S.BinarySearch(t.channelModes[1], ch) {
      return true;
    } else if ch in t.prefixes.Values {
      return true;
    }
    return S.BinarySearch(t.channelModes[2], ch);
  }

  // What a modifier says, position by position

  predicate IsSign(ch: char) { ch == '+' || ch == '-' }

  /** The last sign in a text. */
  function LastSign(s: string): Option<bool> {
    if s == "" then None
    else if IsSign(s[|s| - 1]) then Some(s[|s| - 1] == '+')
    else LastSign(s[..|s| - 1])
  }

  /** The number of letters in a text that have a sign before them and take a parameter. */
  function Taken(t: S.Tables, s: string): nat
    requires |t.channelModes| == 4
  {
    if s == "" then 0
    else
      var init, ch := s[..|s| - 1], s[|s| - 1];
      Taken(t, init) + (if !IsSign(ch) && LastSign(init).Some? && Takes(t, ch) then 1 else 0)
  }

  /** The character at position j sets or clears a flag of a participant: it names the mode, there is a sign
      before it, and the parameter whose number is the number of letters before it that take one is the
      participant's name. */
  predicate MentionsAt(t: S.Tables, modifier: string, params: seq<string>, j: nat, key: string, mode: Mode)
    requires |t.channelModes| == 4
  {
    && j < |modifier| && ModeOf(modifier[j]) == Some(mode) && LastSign(modifier[..j]).Some?
    && Taken(t, modifier[..j]) < |params| && Fold(params[Taken(t, modifier[..j])]) == key
  }

  predicate LastMention(t: S.Tables, modifier: string, params: seq<string>, j: nat, key: string, mode: Mode)
    requires |t.channelModes| == 4
  {
    && MentionsAt(t, modifier, params, j, key, mode)
    && forall i :: j < i < |modifier| ==> !MentionsAt(t, modifier, params, i, key, mode)
  }

  /** Letters before the first sign do nothing. */
  lemma {:induction false} UnsignedIgnored(t: S.Tables, ps: Participants, letters: string, modifier: string,
                                           params: seq<string>)
    requires |t.channelModes| == 4 && '+' !in letters && '-' !in letters
    ensures Interpret(t, ps, None, letters + modifier, params) == Interpret(t, ps, None, modifier, params)
    decreases |letters|
  {
    if letters == "" {
      assert letters + modifier == modifier;
    } else {
      assert (letters + modifier)[1..] == letters[1..] + modifier;
      assert letters[0] in letters && forall c :: c in letters[1..] ==> c in letters;
      UnsignedIgnored(t, ps, letters[1..], modifier, params);
    }
  }

  // What the server announces

  /** Whether a letter comes with a parameter, going by the ISUPPORT tables alone: prefix letters and those
      of the first two CHANMODES lists always, those of the third when they are set, others never. */
  predicate Announced(t: S.Tables, letter: char, add: bool)
    requires |t.channelModes| == 4
  {
    || letter in t.prefixes.Values || letter in t.channelModes[0] || letter in t.channelModes[1]
    || (add && letter in t.channelModes[2])
  }

  /** The number of parameters that a server sends for the letters of a text. */
  function TakenAnnounced(t: S.Tables, s: string): nat
    requires |t.channelModes| == 4
  {
    if s == "" then 0
    else
      var init, ch := s[..|s| - 1], s[|s| - 1];
      TakenAnnounced(t, init)
      + (if !IsSign(ch) && LastSign(init).Some? && Announced(t, ch, LastSign(init).value) then 1 else 0)
  }

  /** The letters that are misread behind a sign: a stub that comes with a parameter, one of qaohv that comes
      without, and a mode of the third list alone that is cleared. */
  predicate Misread(t: S.Tables, letter: char, add: bool)
    requires |t.channelModes| == 4
  {
    if IsStub(letter) then Announced(t, letter, add)
    else if ModeOf(letter).Some? then !Announced(t, letter, add)
    else !add && letter in t.channelModes[2] && !Announced(t, letter, false)
  }

  predicate MisreadAt(t: S.Tables, modifier: string, j: nat)
    requires |t.channelModes| == 4 && j < |modifier|
  {
    && !IsSign(modifier[j]) && LastSign(modifier[..j]).Some?
    && Misread(t, modifier[j], LastSign(modifier[..j]).value)
  }

  /** Every letter of a modifier meets the parameter that was sent for it. */
  predicate ParamsMeet(t: S.Tables, modifier: string)
    requires |t.channelModes| == 4
  {
    forall j: nat :: j <= |modifier| ==> Taken(t, modifier[..j]) == TakenAnnounced(t, modifier[..j])
  }

  predicate NoneMisread(t: S.Tables, modifier: string)
    requires |t.channelModes| == 4
  {
    forall j: nat :: j < |modifier| ==> !MisreadAt(t, modifier, j)
  }

  /** With the tables that every run of 005 messages leaves, letters meet their parameters if and only if the
      modifier has none of the misread letters. */
  lemma {:induction false} ParamsAsAnnounced(t: S.Tables, modifier: string)
    requires S.Valid(t)
    ensures ParamsMeet(t, modifier) <==> NoneMisread(t, modifier)
    decreases |modifier|
  {
    hide Taken, TakenAnnounced, MisreadAt, S.Sorted, S.OneToOne;
    if modifier == "" {
      NothingTaken(t);
      assert modifier[..0] == "";
    } else {
      var n := |modifier| - 1;
      var init := modifier[..n];
      ParamsAsAnnounced(t, init);
      assert modifier[..n + 1] == modifier && init[..n] == init;
      forall j: nat | j <= n ensures modifier[..j] == init[..j] {
      }
      assert ParamsMeet(t, modifier) <==> ParamsMeet(t, init) && Taken(t, modifier) == TakenAnnounced(t, modifier);
      forall j: nat | j < n ensures MisreadAt(t, modifier, j) <==> MisreadAt(t, init, j) {
        MisreadAtPrefix(t, modifier, n, j);
      }
      assert NoneMisread(t, modifier) <==> NoneMisread(t, init) && !MisreadAt(t, modifier, n);
      if ParamsMeet(t, init) {
        LastMeets(t, modifier);
      }
    }
  }

  lemma NothingTaken(t: S.Tables)
    requires |t.channelModes| == 4
    ensures Taken(t, "") == TakenAnnounced(t, "") == 0
  {
  }

  lemma MisreadAtPrefix(t: S.Tables, modifier: string, n: nat, j: nat)
    requires |t.channelModes| == 4 && j < n <= |modifier|
    ensures MisreadAt(t, modifier, j) <==> MisreadAt(t, modifier[..n], j)
  {
    assert modifier[..n][..j] == modifier[..j];
  }

  lemma LastMeets(t: S.Tables, modifier: string)
    requires S.Valid(t) && modifier != ""
    requires var init := modifier[..|modifier| - 1]; Taken(t, init) == TakenAnnounced(t, init)
    ensures Taken(t, modifier) == TakenAnnounced(t, modifier) <==> !MisreadAt(t, modifier, |modifier| - 1)
  {
    hide Takes, Announced, Misread, LastSign, S.Valid;
    var sign := LastSign(modifier[..|modifier| - 1]);
    if sign.Some? {
      LetterMeets(t, modifier[|modifier| - 1], sign.value);
    }
  }

  lemma LetterMeets(t: S.Tables, letter: char, add: bool)
    requires S.Valid(t)
    ensures (Takes(t, letter) <==> Announced(t, letter, add)) <==> !Misread(t, letter, add)
  {
    hide Takes, S.Valid;
    TakesIsMembership(t, letter);
  }

  // Tables that a server can announce, and modifiers that are misread with them

  const PREFIX_TOKEN: string := "PREFIX=(ov)@+"
  const CHANMODES_TOKEN: string := "CHANMODES=beI,k,jl,aimnst"

  /** The tables of a new client after a 005 message with these tokens. */
  function ExampleTables(): (t: S.Tables)
    ensures S.Valid(t)
  {
    hide S.ApplyTokens, S.Valid;
    S.InitialTablesValid();
    S.TokensKeepValid(S.INITIAL_TABLES, "", ["me", PREFIX_TOKEN, CHANMODES_TOKEN, "are supported"][1..3]);
    S.ApplySupport(S.INITIAL_TABLES, ["me", PREFIX_TOKEN, CHANMODES_TOKEN, "are supported"])
  }

  lemma TwoTokens(t: S.Tables, first: string, second: string)
    ensures S.ApplySupport(t, ["me", first, second, "are supported"])
            == (var (t1, name) := S.ApplyToken(t, "", first); S.ApplyToken(t1, name, second).0)
  {
    hide S.ApplyToken;
    var tokens := [first, second];
    assert ["me", first, second, "are supported"][1..3] == tokens;
    assert tokens[1..] == [second] && [second][1..] == [];
    var (t1, name) := S.ApplyToken(t, "", first);
    var (t2, name2) := S.ApplyToken(t1, name, second);
    assert S.ApplyTokens(t1, name, [second]) == S.ApplyTokens(t2, name2, []);
  }

  lemma PrefixTokenStored(t: S.Tables)
    ensures var r := S.ApplyToken(t, "", PREFIX_TOKEN).0;
      && r.channelModes == t.channelModes
      && forall letter :: letter in r.prefixes.Values <==> letter in "ov"
  {
    hide S.ApplyToken;
    assert "PREFIX=" + ("(" + "ov" + ")" + "@+") == PREFIX_TOKEN;
    S.PrefixStored(t, "", "ov", "@+");
  }

  lemma ModesTokenStored(t: S.Tables, name: string)
    ensures var r := S.ApplyToken(t, name, CHANMODES_TOKEN).0;
      && r.prefixes == t.prefixes && |r.channelModes| == 4
      && forall ch :: (S.BinarySearch(r.channelModes[0], ch) <==> ch in "beI")
                   && (S.BinarySearch(r.channelModes[1], ch) <==> ch in "k")
                   && (S.BinarySearch(r.channelModes[2], ch) <==> ch in "jl")
  {
    hide S.ApplyToken, S.BinarySearch;
    assert "CHANMODES=" + ("beI" + "," + ("k" + "," + ("jl" + "," + "aimnst"))) == CHANMODES_TOKEN;
    S.ChanModesStored(t, name, "beI", "k", "jl", "aimnst");
  }

  /** What the tables announce: each letter is where its token puts it. */
  lemma ExampleAnnounced()
    ensures var t := ExampleTables();
      forall ch :: (ch in t.channelModes[0] <==> ch in "beI") && (ch in t.channelModes[1] <==> ch in "k")
                && (ch in t.channelModes[2] <==> ch in "jl") && (ch in t.prefixes.Values <==> ch in "ov")
  {
    hide S.ApplyToken, S.ApplySupport, S.BinarySearch, S.Sorted, S.OneToOne;
    var t := ExampleTables();
    TwoTokens(S.INITIAL_TABLES, PREFIX_TOKEN, CHANMODES_TOKEN);
    var (t1, name) := S.ApplyToken(S.INITIAL_TABLES, "", PREFIX_TOKEN);
    PrefixTokenStored(S.INITIAL_TABLES);
    ModesTokenStored(t1, name);
    forall ch
      ensures (ch in t.channelModes[0] <==> ch in "beI") && (ch in t.channelModes[1] <==> ch in "k")
      ensures (ch in t.channelModes[2] <==> ch in "jl")
    {
      TablesSearched(t, ch);
    }
  }

  lemma TablesSearched(t: S.Tables, ch: char)
    requires S.Valid(t)
    ensures forall i :: 0 <= i < 4 ==> (S.BinarySearch(t.channelModes[i], ch) <==> ch in t.channelModes[i])
  {
    hide S.BinarySearch;
    forall i | 0 <= i < 4 ensures S.BinarySearch(t.channelModes[i], ch) <==> ch in t.channelModes[i] {
      S.SearchIsMembership(t.channelModes[i], ch);
    }
  }

  /** A list-three mode that is cleared: the parameter of +o goes to -j, and +o finds none. */
  lemma ClearedModeTakesParam(t: S.Tables, ps: Participants, nickname: string)
    requires S.Valid(t) && 'j' in t.channelModes[2] && !Announced(t, 'j', false) && Announced(t, 'o', true)
    ensures TakenAnnounced(t, "-j+o") == 1
    ensures Interpret(t, ps, None, "-j+o", [nickname]) == Outcome(ps, [], false)
  {
    hide S.Sorted, S.OneToOne, Fold;
    TakesIsMembership(t, 'j');
    TakesIsMembership(t, 'o');
    hide Takes, Announced, SetMode;
    Ending("", '-');
    Ending("-", 'j');
    Ending("-j", '+');
    Ending("-j+", 'o');
    AnnouncedSoFar(t, "", '-');
    AnnouncedSoFar(t, "-", 'j');
    AnnouncedSoFar(t, "-j", '+');
    AnnouncedSoFar(t, "-j+", 'o');
    hide LastSign, TakenAnnounced;
    assert "" + ['-'] == "-" && "-" + ['j'] == "-j" && "-j" + ['+'] == "-j+" && "-j+" + ['o'] == "-j+o";
    assert TakenAnnounced(t, "-j+o") == 1;
    assert "-j+o"[1..] == "j+o" && "j+o"[1..] == "+o" && "+o"[1..] == "o" && [nickname][1..] == [];
    assert Interpret(t, ps, Some(true), "o", []) == Outcome(ps, [], false);
    assert Interpret(t, ps, Some(false), "+o", []) == Outcome(ps, [], false);
    assert Interpret(t, ps, Some(false), "j+o", [nickname]) == Outcome(ps, [], false);
  }

  /** A stub that comes with a parameter: the key of +k is taken for the nickname of +o, and the nickname is
      left over. */
  lemma StubLeavesParam(t: S.Tables, ps: Participants, key: string, nickname: string)
    requires S.Valid(t) && Announced(t, 'k', true) && Announced(t, 'o', true)
    ensures TakenAnnounced(t, "+ko") == 2
    ensures Interpret(t, ps, None, "+ko", [key, nickname]) == Outcome(SetMode(ps, key, Op, true), [nickname], true)
  {
    hide S.Sorted, S.OneToOne, Fold;
    TakesIsMembership(t, 'k');
    TakesIsMembership(t, 'o');
    assert ModeOf('o') == Some(Op);
    hide Takes, Announced, SetMode, ModeOf;
    SetPair(t, 'k', 'o');
    assert "+ko"[1..] == "ko" && "ko"[1..] == "o" && "o"[1..] == "" && [key, nickname][1..] == [nickname];
    var given := SetMode(ps, key, Op, true);
    assert Interpret(t, given, Some(true), "", [nickname]) == Outcome(given, [nickname], true);
    assert Interpret(t, ps, Some(true), "o", [key, nickname]) == Outcome(given, [nickname], true);
    assert Interpret(t, ps, Some(true), "ko", [key, nickname]) == Outcome(given, [nickname], true);
  }

  /** A flag letter that is no prefix letter and comes without a parameter: the nickname of +o gets the flag,
      and +o finds none. */
  lemma FlagTakesParam(t: S.Tables, ps: Participants, nickname: string)
    requires S.Valid(t) && !Announced(t, 'a', true) && Announced(t, 'o', true)
    ensures TakenAnnounced(t, "+ao") == 1
    ensures Interpret(t, ps, None, "+ao", [nickname]) == Outcome(SetMode(ps, nickname, Admin, true), [], false)
  {
    hide S.Sorted, S.OneToOne, Fold;
    TakesIsMembership(t, 'a');
    TakesIsMembership(t, 'o');
    assert ModeOf('a') == Some(Admin);
    hide Takes, Announced, SetMode, ModeOf;
    SetPair(t, 'a', 'o');
    assert "+ao"[1..] == "ao" && "ao"[1..] == "o" && [nickname][1..] == [];
    var given := SetMode(ps, nickname, Admin, true);
    assert Interpret(t, given, Some(true), "o", []) == Outcome(given, [], false);
    assert Interpret(t, ps, Some(true), "ao", [nickname]) == Outcome(given, [], false);
  }

  /** The tables above are misread in all three ways. */
  lemma ExampleMisread(ps: Participants, key: string, nickname: string)
    ensures var t := ExampleTables();
      && !NoneMisread(t, "-j+o") && !NoneMisread(t, "+ko") && !NoneMisread(t, "+ao")
      && Interpret(t, ps, None, "-j+o", [nickname]) == Outcome(ps, [], false)
      && Interpret(t, ps, None, "+ko", [key, nickname]) == Outcome(SetMode(ps, key, Op, true), [nickname], true)
      && Interpret(t, ps, None, "+ao", [nickname]) == Outcome(SetMode(ps, nickname, Admin, true), [], false)
  {
    ExampleAnnounced();
    var t := ExampleTables();
    hide S.Sorted, S.OneToOne, ExampleTables, Interpret, SetMode;
    ClearedModeTakesParam(t, ps, nickname);
    StubLeavesParam(t, ps, key, nickname);
    FlagTakesParam(t, ps, nickname);
    Ending("", '-');
    Ending("", '+');
    hide LastSign;
    assert "-j+o"[..1] == "-" && "+ko"[..1] == "+" && "+ao"[..1] == "+";
    assert MisreadAt(t, "-j+o", 1) && MisreadAt(t, "+ko", 1) && MisreadAt(t, "+ao", 1);
  }

  lemma Ending(s: string, ch: char)
    ensures LastSign("") == None
    ensures LastSign(s + [ch]) == if IsSign(ch) then Some(ch == '+') else LastSign(s)
  {
    assert (s + [ch])[..|s|] == s;
  }

  lemma AnnouncedSoFar(t: S.Tables, s: string, ch: char)
    requires |t.channelModes| == 4
    ensures TakenAnnounced(t, "") == 0
    ensures TakenAnnounced(t, s + [ch])
            == TakenAnnounced(t, s)
               + (if !IsSign(ch) && LastSign(s).Some? && Announced(t, ch, LastSign(s).value) then 1 else 0)
  {
    assert (s + [ch])[..|s|] == s;
  }

  lemma SetPair(t: S.Tables, a: char, b: char)
    requires |t.channelModes| == 4 && !IsSign(a) && !IsSign(b)
    ensures TakenAnnounced(t, ['+', a, b])
            == (if Announced(t, a, true) then 1 else 0) + (if Announced(t, b, true) then 1 else 0)
  {
    hide Announced, LastSign, TakenAnnounced;
    Ending("", '+');
    Ending("+", a);
    AnnouncedSoFar(t, "", '+');
    AnnouncedSoFar(t, "+", a);
    AnnouncedSoFar(t, "+" + [a], b);
    assert "" + ['+'] == "+" && "+" + [a] + [b] == ['+', a, b];
  }

  /** The five flags, letter by letter: what + and - do with each. */
  lemma FlagLetter(t: S.Tables, ps: Participants, letter: char, mode: Mode, add: bool, nickname: string)
    requires |t.channelModes| == 4
    requires (letter, mode) in {('q', Owner), ('a', Admin), ('o', Op), ('h', HalfOp), ('v', Voice)}
    ensures var key := Fold(nickname);
      var r := Interpret(t, ps, None, [if add then '+' else '-', letter], [nickname]);
      && r.ok && r.rest == []
      && r.participants == if key !in ps then ps
                           else ps[key := Participant(if add then ps[key].modes + {mode} else ps[key].modes - {mode},
                                                      ps[key].nickname, ps[key].away)]
  {
    hide Fold, S.BinarySearch;
    var sign := if add then '+' else '-';
    var given := SetMode(ps, nickname, mode, add);
    assert [sign, letter][1..] == [letter] && [letter][1..] == "" && [nickname][1..] == [];
    assert Interpret(t, given, Some(add), "", []) == Outcome(given, [], true);
    assert Interpret(t, ps, Some(add), [letter], [nickname]) == Outcome(given, [], true);
  }

  // The loop turn by turn

  function Turn(t: S.Tables, r: Outcome, sign: Option<bool>, ch: char): Outcome
    requires |t.channelModes| == 4
  {
    if IsSign(ch) || sign.None? || !Takes(t, ch) then r
    else if r.rest == [] then r.(ok := false)
    else
      Outcome(if ModeOf(ch).Some? then SetMode(r.participants, r.rest[0], ModeOf(ch).value, sign.value)
              else r.participants,
              r.rest[1..], true)
  }

  function SignAfter(sign: Option<bool>, s: string): Option<bool> {
    if LastSign(s).Some? then LastSign(s) else sign
  }

  lemma {:induction false} SignCarried(sign: Option<bool>, ch: char, s: string)
    ensures SignAfter(sign, [ch] + s) == SignAfter(if IsSign(ch) then Some(ch == '+') else sign, s)
    decreases |s|
  {
    var all := [ch] + s;
    if s == "" {
      assert all[..|all| - 1] == "";
    } else {
      assert all[..|all| - 1] == [ch] + s[..|s| - 1];
      SignCarried(sign, ch, s[..|s| - 1]);
    }
  }

  /** The last turn of the loop goes by the last sign before it. */
  lemma {:induction false} LastTurn(t: S.Tables, ps: Participants, sign: Option<bool>, s: string, ch: char,
                                    params: seq<string>)
    requires |t.channelModes| == 4
    ensures var r := Interpret(t, ps, sign, s, params);
      Interpret(t, ps, sign, s + [ch], params) == if r.ok then Turn(t, r, SignAfter(sign, s), ch) else r
    decreases |s|
  {
    hide Takes, SetMode, ModeOf, LastSign;
    if s == "" {
      assert s + [ch] == [ch] && [ch][1..] == "";
      NoSign();
    } else {
      var first, rest := s[0], s[1..];
      assert (s + [ch])[1..] == rest + [ch];
      assert s == [first] + rest;
      SignCarried(sign, first, rest);
      if IsSign(first) {
        LastTurn(t, ps, Some(first == '+'), rest, ch, params);
      } else if sign.None? || !Takes(t, first) {
        LastTurn(t, ps, sign, rest, ch, params);
      } else if params != [] {
        var next := if ModeOf(first).Some? then SetMode(ps, params[0], ModeOf(first).value, sign.value) else ps;
        LastTurn(t, next, sign, rest, ch, params[1..]);
      }
    }
  }

  lemma NoSign()
    ensures LastSign("") == None
  {
  }

  /** Parameters run out exactly when there are fewer than the modifier takes; otherwise exactly that
      many are taken, from the front. */
  lemma {:induction false} TakesExactly(t: S.Tables, ps: Participants, modifier: string, params: seq<string>)
    requires |t.channelModes| == 4
    ensures var r, n := Interpret(t, ps, None, modifier, params), Taken(t, modifier);
      && (r.ok <==> n <= |params|)
      && r.rest == (if r.ok then params[n..] else [])
    decreases |modifier|
  {
    hide Takes, SetMode, ModeOf;
    if modifier != "" {
      var init, ch := modifier[..|modifier| - 1], modifier[|modifier| - 1];
      assert modifier == init + [ch];
      TakesExactly(t, ps, init, params);
      LastTurn(t, ps, None, init, ch, params);
    }
  }

  /** A MODE message, for any modifier and any parameters: nobody joins or leaves, nobody's name changes,
      and every flag of every participant ends as the last sign before its last mention says, or as it
      was if no position mentions it. */
  lemma {:induction false} FlagsEndAsLastMentioned(t: S.Tables, ps: Participants, modifier: string,
                                                   params: seq<string>, key: string, mode: Mode)
    requires |t.channelModes| == 4
    ensures var after := Interpret(t, ps, None, modifier, params).participants;
      && after.Keys == ps.Keys
      && (key in ps ==>
          && after[key].nickname == ps[key].nickname && after[key].away == ps[key].away
          && (forall j: nat :: LastMention(t, modifier, params, j, key, mode) ==>
                (mode in after[key].modes <==> LastSign(modifier[..j]) == Some(true)))
          && ((forall j: nat :: j < |modifier| ==> !MentionsAt(t, modifier, params, j, key, mode)) ==>
                (mode in after[key].modes <==> mode in ps[key].modes)))
    decreases |modifier|
  {
    hide Interpret, Taken, LastSign, Turn, Takes, SetMode, ModeOf, Fold;
    if modifier == "" {
      InterpretEmpty(t, ps, params);
    } else {
      var n := |modifier| - 1;
      var init, ch := modifier[..n], modifier[n];
      assert modifier == init + [ch];
      FlagsEndAsLastMentioned(t, ps, init, params, key, mode);
      LastTurn(t, ps, None, init, ch, params);
      TakesExactly(t, ps, init, params);
      forall j: nat | j < n
        ensures modifier[..j] == init[..j]
        ensures MentionsAt(t, modifier, params, j, key, mode) <==> MentionsAt(t, init, params, j, key, mode)
      {
        assert modifier[..j] == init[..j];
      }
      forall j: nat | j < n && LastMention(t, modifier, params, j, key, mode)
        ensures LastMention(t, init, params, j, key, mode)
      {
      }
      assert !MentionsAt(t, modifier, params, n, key, mode) ==>
        forall j: nat :: LastMention(t, modifier, params, j, key, mode) ==> j < n;
      var r := Interpret(t, ps, None, init, params);
      if r.ok {
        TurnFlag(t, r, LastSign(init), ch, key, mode);
      }
    }
  }

  lemma InterpretEmpty(t: S.Tables, ps: Participants, params: seq<string>)
    requires |t.channelModes| == 4
    ensures Interpret(t, ps, None, "", params) == Outcome(ps, params, true)
  {
  }

  /** What one turn does to one flag. */
  lemma TurnFlag(t: S.Tables, r: Outcome, sign: Option<bool>, ch: char, key: string, mode: Mode)
    requires |t.channelModes| == 4
    ensures var ps, after := r.participants, Turn(t, r, sign, ch).participants;
      && after.Keys == ps.Keys
      && (key in ps ==>
          && after[key].nickname == ps[key].nickname && after[key].away == ps[key].away
          && (mode in after[key].modes
              <==> if ModeOf(ch) == Some(mode) && sign.Some? && r.rest != [] && Fold(r.rest[0]) == key
                   then sign == Some(true) else mode in ps[key].modes))
  {
    hide Fold;
  }
}

/** The tables that RPL_ISUPPORT (005) messages fill. */
module IrcSupport {
  import opened Options
  import opened CaseInsensitive
  import opened IrcGrammar

  // std::sort and std::binary_search on strings

  ghost predicate Sorted(s: string) {
    forall i, j :: 0 <= i < j < |s| ==> s[i] <= s[j]
  }

  function Insert(ch: char, s: string): string {
    if s == "" || ch <= s[0] then [ch] + s else [s[0]] + Insert(ch, s[1..])
  }

  function Sort(s: string): string {
    if s == "" then "" else Insert(s[0], Sort(s[1..]))
  }

  lemma {:induction false} InsertMembers(ch: char, s: string)
    ensures multiset(Insert(ch, s)) == multiset(s) + multiset{ch}
  {
    if s == "" || ch <= s[0] {
      assert Insert(ch, s) == [ch] + s;
    } else {
      InsertMembers(ch, s[1..]);
      assert s == [s[0]] + s[1..];
    }
  }

  lemma {:induction false} InsertSorted(ch: char, s: string)
    requires Sorted(s)
    ensures Sorted(Insert(ch, s))
  {
    if s != "" && !(ch <= s[0]) {
      var rest := s[1..];
      InsertSorted(ch, rest);
      var r := Insert(ch, rest);
      forall i | 0 <= i < |r| ensures s[0] <= r[i] {
        InsertMembers(ch, rest);
        assert r[i] in multiset(r);
        assert r[i] == ch || r[i] in rest;
      }
    }
  }

  /** Sorting gives the one sorted arrangement of the characters. */
  lemma {:induction false} SortSorted(s: string)
    ensures Sorted(Sort(s)) && multiset(Sort(s)) == multiset(s)
  {
    if s != "" {
      SortSorted(s[1..]);
      InsertSorted(s[0], Sort(s[1..]));
      InsertMembers(s[0], Sort(s[1..]));
      assert s == [s[0]] + s[1..];
    }
  }

  /** std::lower_bound between two places of a string. */
  function LowerBound(s: string, ch: char, lo: nat, hi: nat): (k: nat)
    requires lo <= hi <= |s|
    ensures lo <= k <= hi
    decreases hi - lo
  {
    if lo == hi then lo
    else
      var mid := lo + (hi - lo) / 2;
      if s[mid] < ch then LowerBound(s, ch, mid + 1, hi) else LowerBound(s, ch, lo, mid)
  }

  predicate BinarySearch(s: string, ch: char) {
    var k := LowerBound(s, ch, 0, |s|);
    k < |s| && !(ch < s[k])
  }

  lemma {:induction false} LowerBoundSplits(s: string, ch: char, lo: nat, hi: nat)
    requires lo <= hi <= |s| && Sorted(s)
    requires forall i :: 0 <= i < lo ==> s[i] < ch
    requires forall i :: hi <= i < |s| ==> !(s[i] < ch)
    ensures var k := LowerBound(s, ch, lo, hi);
      (forall i :: 0 <= i < k ==> s[i] < ch) && (forall i :: k <= i < |s| ==> !(s[i] < ch))
    decreases hi - lo
  {
    if lo < hi {
      var mid := lo + (hi - lo) / 2;
      forall i | 0 <= i < |s| ensures i < mid ==> s[i] <= s[mid]
                              ensures i > mid ==> s[mid] <= s[i] {
      }
      hide Sorted;
      if s[mid] < ch {
        forall i | 0 <= i < mid + 1 ensures s[i] < ch {
          assert i == mid || s[i] <= s[mid];
        }
        LowerBoundSplits(s, ch, mid + 1, hi);
      } else {
        forall i | mid <= i < |s| ensures !(s[i] < ch) {
          assert i == mid || s[mid] <= s[i];
        }
        LowerBoundSplits(s, ch, lo, mid);
      }
    }
  }

  /** In a sorted string, binary search is membership. */
  lemma SearchIsMembership(s: string, ch: char)
    requires Sorted(s)
    ensures BinarySearch(s, ch) <==> ch in s
  {
    LowerBoundSplits(s, ch, 0, |s|);
    var k := LowerBound(s, ch, 0, |s|);
    if ch in s {
      var i :| 0 <= i < |s| && s[i] == ch;
      assert i >= k;
      assert s[k] <= s[i];
    }
  }

  // The table of nickname prefixes, unique in both directions

  type PrefixMap = map<char, char>

  ghost predicate OneToOne(m: PrefixMap) {
    forall a, b :: a in m && b in m && m[a] == m[b] ==> a == b
  }

  /** insert of the multi-index container: refused if either index has the element. */
  function InsertPair(m: PrefixMap, symbol: char, letter: char): PrefixMap {
    if symbol in m || letter in m.Values then m else m[symbol := letter]
  }

  /** The loop over the pairs of a PREFIX value, after the clear. */
  function InsertPairs(m: PrefixMap, symbols: string, letters: string): PrefixMap
    requires |symbols| == |letters|
    decreases |symbols|
  {
    if symbols == "" then m else InsertPairs(InsertPair(m, symbols[0], letters[0]), symbols[1..], letters[1..])
  }

  lemma {:induction false} InsertPairsOneToOne(m: PrefixMap, symbols: string, letters: string)
    requires |symbols| == |letters| && OneToOne(m)
    ensures OneToOne(InsertPairs(m, symbols, letters))
    decreases |symbols|
  {
    if symbols != "" {
      var next := InsertPair(m, symbols[0], letters[0]);
      assert OneToOne(next);
      InsertPairsOneToOne(next, symbols[1..], letters[1..]);
    }
  }

  /** Of pairs that share a symbol or a letter the first stays, and no other pair is left out. */
  lemma {:induction false} FirstPairsStay(m: PrefixMap, symbols: string, letters: string)
    requires |symbols| == |letters|
    ensures var r := InsertPairs(m, symbols, letters);
      && (forall a :: a in m ==> a in r && r[a] == m[a])
      && (forall i :: 0 <= i < |symbols| ==> symbols[i] in r || letters[i] in r.Values)
    decreases |symbols|
  {
    if symbols != "" {
      var next := InsertPair(m, symbols[0], letters[0]);
      FirstPairsStay(next, symbols[1..], letters[1..]);
      var r := InsertPairs(m, symbols, letters);
      assert r == InsertPairs(next, symbols[1..], letters[1..]);
      if letters[0] in m.Values {
        var a :| a in m && m[a] == letters[0];
        assert r[a] == letters[0];
      }
      forall i | 0 <= i < |symbols| ensures symbols[i] in r || letters[i] in r.Values {
        if i > 0 {
          assert symbols[i] == symbols[1..][i - 1] && letters[i] == letters[1..][i - 1];
        } else {
          assert symbols[0] in next || letters[0] in m.Values;
        }
      }
    }
  }

  ghost predicate Distinct(s: string) {
    forall i, j :: 0 <= i < j < |s| ==> s[i] != s[j]
  }

  /** Without repetitions every pair of the value is in the table, and nothing that was there is lost. */
  lemma {:induction false} DistinctPairsKept(m: PrefixMap, symbols: string, letters: string)
    requires |symbols| == |letters| && Distinct(symbols) && Distinct(letters)
    requires forall i :: 0 <= i < |symbols| ==> symbols[i] !in m && letters[i] !in m.Values
    ensures var r := InsertPairs(m, symbols, letters);
      && (forall i :: 0 <= i < |symbols| ==> symbols[i] in r && r[symbols[i]] == letters[i])
      && (forall a :: a in m ==> a in r && r[a] == m[a])
    decreases |symbols|
  {
    if symbols != "" {
      var next := m[symbols[0] := letters[0]];
      assert InsertPair(m, symbols[0], letters[0]) == next;
      DistinctPairsKept(next, symbols[1..], letters[1..]);
      var r := InsertPairs(m, symbols, letters);
      assert r == InsertPairs(next, symbols[1..], letters[1..]);
      assert symbols[0] in next;
      forall i | 0 <= i < |symbols| ensures symbols[i] in r && r[symbols[i]] == letters[i] {
        if i > 0 {
          assert symbols[i] == symbols[1..][i - 1];
        }
      }
    }
  }

  // The tables

  /** An entry of the case-insensitive map of server options; the key is the folded name. */
  datatype ServerOption = ServerOption(name: string, value: string)

  type ServerOptions = map<string, ServerOption>

  datatype Tables = Tables(channelTypes: string, channelModes: seq<string>, prefixes: PrefixMap,
                           options: ServerOptions)

  /** emplace: an entry that is there stays. */
  function Emplace(options: ServerOptions, name: string, value: string): ServerOptions {
    if Fold(name) in options then options else options[Fold(name) := ServerOption(name, value)]
  }

  const DEFAULT_PREFIXES: PrefixMap := map['~' := 'q', '&' := 'a', '@' := 'o', '%' := 'h', '+' := 'v']
  const INITIAL_TABLES := Tables("", ["", "", "", ""], DEFAULT_PREFIXES, map[])

  /** What every run keeps: four sorted mode strings, sorted channel types, a one-to-one prefix table. */
  ghost predicate Valid(t: Tables) {
    && |t.channelModes| == 4
    && (forall i :: 0 <= i < 4 ==> Sorted(t.channelModes[i]))
    && Sorted(t.channelTypes)
    && OneToOne(t.prefixes)
  }

  predicate IsLetter(ch: char) { 'A' <= ch <= 'Z' || 'a' <= ch <= 'z' }

  /** The length of the run of letters a string begins with. */
  function LetterRun(s: string): (n: nat)
    ensures n <= |s|
  {
    if s == "" || !IsLetter(s[0]) then 0 else 1 + LetterRun(s[1..])
  }

  /** regex_match of \(([A-Za-z]+)\)(.+): the two groups. */
  function MatchPrefix(value: string): (r: Option<(string, string)>)
  {
    if value == "" || value[0] != '(' then None
    else
      var n := LetterRun(value[1..]);
      if n == 0 || |value| <= n + 2 || value[n + 1] != ')' then None
      else Some((value[1..n + 1], value[n + 2..]))
  }

  lemma {:induction false} LetterRunIs(s: string, n: nat)
    requires n <= |s| && (forall i :: 0 <= i < n ==> IsLetter(s[i])) && (n < |s| ==> !IsLetter(s[n]))
    ensures LetterRun(s) == n
  {
    if n > 0 {
      LetterRunIs(s[1..], n - 1);
    }
  }

  lemma {:induction false} LetterRunLetters(s: string)
    ensures forall i :: 0 <= i < LetterRun(s) ==> IsLetter(s[i])
  {
    if s != "" && IsLetter(s[0]) {
      LetterRunLetters(s[1..]);
      assert forall i :: 0 < i < LetterRun(s) ==> s[i] == s[1..][i - 1];
    }
  }

  /** The expression matches exactly the values of its form, in only one way. */
  lemma MatchPrefixExact(value: string, letters: string, symbols: string)
    ensures MatchPrefix(value) == Some((letters, symbols))
            <==> letters != "" && symbols != "" && value == "(" + letters + ")" + symbols
                 && forall i :: 0 <= i < |letters| ==> 'A' <= letters[i] <= 'Z' || 'a' <= letters[i] <= 'z'
  {
    if MatchPrefix(value) == Some((letters, symbols)) {
      MatchPrefixSound(value, letters, symbols);
    }
    if letters != "" && symbols != "" && value == "(" + letters + ")" + symbols
       && forall i :: 0 <= i < |letters| ==> IsLetter(letters[i]) {
      MatchPrefixComplete(value, letters, symbols);
    }
  }

  lemma MatchPrefixSound(value: string, letters: string, symbols: string)
    requires MatchPrefix(value) == Some((letters, symbols))
    ensures letters != "" && symbols != "" && value == "(" + letters + ")" + symbols
    ensures forall i :: 0 <= i < |letters| ==> IsLetter(letters[i])
  {
    hide IsLetter;
    var rest := value[1..];
    LetterRunLetters(rest);
    var n := LetterRun(rest);
    hide LetterRun;
    assert letters == value[1..n + 1] && symbols == value[n + 2..];
    assert value == [value[0]] + value[1..n + 1] + [value[n + 1]] + value[n + 2..];
    forall i | 0 <= i < |letters| ensures IsLetter(letters[i]) {
      assert letters[i] == rest[i];
    }
  }

  lemma MatchPrefixComplete(value: string, letters: string, symbols: string)
    requires letters != "" && symbols != "" && value == "(" + letters + ")" + symbols
    requires forall i :: 0 <= i < |letters| ==> IsLetter(letters[i])
    ensures MatchPrefix(value) == Some((letters, symbols))
  {
    var rest, n := value[1..], |letters|;
    assert rest == letters + ")" + symbols;
    assert rest[n] == ')' && forall i :: 0 <= i < n ==> rest[i] == letters[i];
    LetterRunIs(rest, n);
    assert value[1..n + 1] == letters;
    assert value[n + 2..] == symbols;
  }

  /** std::string::find of the first equals sign. */
  function FindEqual(s: string): (r: Option<nat>)
    ensures r.Some? ==> r.value < |s| && s[r.value] == '=' && '=' !in s[..r.value]
    ensures r.None? ==> '=' !in s
  {
    if s == "" then None
    else if s[0] == '=' then Some(0)
    else
      var r := FindEqual(s[1..]);
      if r.None? then None
      else
        assert s[..r.value + 1] == [s[0]] + s[1..][..r.value];
        Some(r.value + 1)
  }

  /** One parameter: it becomes an option, whose name carries over from the parameter before if there is
      no equals sign, and three of the options change the tables. */
  function ApplyToken(t: Tables, name: string, token: string): (Tables, string) {
    var equal := FindEqual(token);
    var name' := if equal.Some? then token[..equal.value] else name;
    var value := if equal.Some? then token[equal.value + 1..] else "";
    (ApplyOption(t.(options := Emplace(t.options, name', value)), name', value), name')
  }

  function ApplyOption(t: Tables, name: string, value: string): Tables {
    if name == "CHANTYPES" then t.(channelTypes := Sort(value))
    else if name == "CHANMODES" then
      var modes := SplitAt(',', value);
      if |modes| == 4 then t.(channelModes := [Sort(modes[0]), Sort(modes[1]), Sort(modes[2]), Sort(modes[3])]) else t
    else if name == "PREFIX" then
      var matched := MatchPrefix(value);
      if matched.Some? && |matched.value.0| == |matched.value.1| then
        t.(prefixes := InsertPairs(map[], matched.value.1, matched.value.0))
      else t
    else t
  }

  function ApplyTokens(t: Tables, name: string, tokens: seq<string>): Tables
    decreases |tokens|
  {
    if tokens == [] then t
    else
      var (next, name') := ApplyToken(t, name, tokens[0]);
      ApplyTokens(next, name', tokens[1..])
  }

  /** A 005 message: all parameters but the first and the last. */
  function ApplySupport(t: Tables, params: seq<string>): Tables
    requires |params| >= 2
  {
    ApplyTokens(t, "", params[1..|params| - 1])
  }

  lemma TokenKeepsValid(t: Tables, name: string, token: string)
    requires Valid(t)
    ensures Valid(ApplyToken(t, name, token).0)
  {
    hide Sort, SplitAt, InsertPairs, MatchPrefix, Emplace;
    var equal := FindEqual(token);
    var name' := if equal.Some? then token[..equal.value] else name;
    var value := if equal.Some? then token[equal.value + 1..] else "";
    if name' == "CHANTYPES" {
      SortSorted(value);
    } else if name' == "CHANMODES" {
      var modes := SplitAt(',', value);
      if |modes| == 4 {
        SortSorted(modes[0]);
        SortSorted(modes[1]);
        SortSorted(modes[2]);
        SortSorted(modes[3]);
      }
    } else if name' == "PREFIX" {
      var matched := MatchPrefix(value);
      if matched.Some? && |matched.value.0| == |matched.value.1| {
        InsertPairsOneToOne(map[], matched.value.1, matched.value.0);
      }
    }
  }

  lemma {:induction false} TokensKeepValid(t: Tables, name: string, tokens: seq<string>)
    requires Valid(t)
    ensures Valid(ApplyTokens(t, name, tokens))
    decreases |tokens|
  {
    hide Valid, ApplyToken;
    if tokens != [] {
      TokenKeepsValid(t, name, tokens[0]);
      var (next, name') := ApplyToken(t, name, tokens[0]);
      TokensKeepValid(next, name', tokens[1..]);
    }
  }

  // What the values of CHANMODES and PREFIX come to

  lemma {:induction false} SplitAtAppend(separator: char, word: string, s: string)
    requires separator !in word
    ensures SplitAt(separator, word + [separator] + s) == [word] + SplitAt(separator, s)
    ensures SplitAt(separator, word) == [word]
    decreases |word|
  {
    var all := word + [separator] + s;
    if word == "" {
      assert all[1..] == s;
    } else {
      assert word[0] in word && forall c :: c in word[1..] ==> c in word;
      assert all[1..] == word[1..] + [separator] + s;
      SplitAtAppend(separator, word[1..], s);
      assert [word[0]] + word[1..] == word;
    }
  }

  lemma TokenParts(t: Tables, name: string, option: string, value: string)
    requires '=' !in option
    ensures FindEqual(option + "=" + value) == Some(|option|)
    ensures (option + "=" + value)[..|option|] == option
    ensures (option + "=" + value)[|option| + 1..] == value
  {
    var token := option + "=" + value;
    assert token[|option|] == '=';
    assert token[..|option|] == option;
    forall n | |option| < n <= |token| ensures '=' in token[..n] {
      assert token[..n][|option|] == '=';
    }
    forall i | 0 <= i < |option| ensures token[i] != '=' {
      assert token[i] == option[i];
    }
  }

  /** CHANMODES with four lists: from then on the search for a letter in table i succeeds exactly if the
      server named it in list i, in whatever order, and nothing else changes. */
  lemma ChanModesStored(t: Tables, name: string, a: string, b: string, c: string, d: string)
    requires ',' !in a && ',' !in b && ',' !in c && ',' !in d
    ensures var (r, name') := ApplyToken(t, name, "CHANMODES=" + (a + "," + (b + "," + (c + "," + d))));
      && name' == "CHANMODES" && |r.channelModes| == 4
      && r == t.(channelModes := r.channelModes, options := r.options)
      && forall ch :: (BinarySearch(r.channelModes[0], ch) <==> ch in a)
                   && (BinarySearch(r.channelModes[1], ch) <==> ch in b)
                   && (BinarySearch(r.channelModes[2], ch) <==> ch in c)
                   && (BinarySearch(r.channelModes[3], ch) <==> ch in d)
  {
    hide Sort, BinarySearch, SplitAt, Emplace;
    var value := a + "," + (b + "," + (c + "," + d));
    assert "CHANMODES=" + value == "CHANMODES" + "=" + value;
    TokenParts(t, name, "CHANMODES", value);
    SplitAtAppend(',', a, b + "," + (c + "," + d));
    SplitAtAppend(',', b, c + "," + d);
    SplitAtAppend(',', c, d);
    SplitAtAppend(',', d, "");
    assert SplitAt(',', value) == [a, b, c, d];
    forall s, ch ensures BinarySearch(Sort(s), ch) <==> ch in s {
      SortedSearch(s, ch);
    }
  }

  lemma SortedSearch(s: string, ch: char)
    ensures BinarySearch(Sort(s), ch) <==> ch in s
  {
    SortSorted(s);
    SearchIsMembership(Sort(s), ch);
    assert ch in s <==> ch in multiset(s);
    assert ch in Sort(s) <==> ch in multiset(Sort(s));
  }

  lemma {:induction false} OnlyPairsInserted(m: PrefixMap, symbols: string, letters: string, a: char)
    requires |symbols| == |letters| && a in InsertPairs(m, symbols, letters)
    ensures a in m || a in symbols
    decreases |symbols|
  {
    if symbols != "" {
      OnlyPairsInserted(InsertPair(m, symbols[0], letters[0]), symbols[1..], letters[1..], a);
    }
  }

  /** CHANTYPES: from then on the channel types are exactly the characters of the value, sorted. */
  lemma ChanTypesStored(t: Tables, name: string, value: string)
    ensures var (r, name') := ApplyToken(t, name, "CHANTYPES=" + value);
      && name' == "CHANTYPES" && r == t.(channelTypes := r.channelTypes, options := r.options)
      && Sorted(r.channelTypes) && multiset(r.channelTypes) == multiset(value)
  {
    hide Sort, Emplace;
    assert "CHANTYPES=" + value == "CHANTYPES" + "=" + value;
    TokenParts(t, name, "CHANTYPES", value);
    SortSorted(value);
  }

  /** The prefixes of a new client are those that PREFIX=(qaohv)~&@%+ would set. */
  lemma DefaultPrefixes(t: Tables, name: string)
    ensures ApplyToken(t, name, "PREFIX=(qaohv)~&@%+").0.prefixes == INITIAL_TABLES.prefixes
  {
    hide ApplyToken;
    assert "PREFIX=" + ("(" + "qaohv" + ")" + "~&@%+") == "PREFIX=(qaohv)~&@%+";
    PrefixStored(t, name, "qaohv", "~&@%+");
    var m := ApplyToken(t, name, "PREFIX=(qaohv)~&@%+").0.prefixes;
    var symbols := "~&@%+";
    assert symbols[0] in m && symbols[1] in m && symbols[2] in m && symbols[3] in m && symbols[4] in m;
    assert m.Keys == DEFAULT_PREFIXES.Keys;
  }

  /** PREFIX with as many letters as symbols, none repeated: from then on the table holds exactly these
      pairs, and nothing else changes. */
  lemma PrefixStored(t: Tables, name: string, letters: string, symbols: string)
    requires letters != "" && |letters| == |symbols| && Distinct(letters) && Distinct(symbols)
    requires forall i :: 0 <= i < |letters| ==> IsLetter(letters[i])
    ensures var (r, name') := ApplyToken(t, name, "PREFIX=" + ("(" + letters + ")" + symbols));
      && name' == "PREFIX" && r == t.(prefixes := r.prefixes, options := r.options)
      && (forall i :: 0 <= i < |symbols| ==> symbols[i] in r.prefixes && r.prefixes[symbols[i]] == letters[i])
      && (forall a :: a in r.prefixes ==> a in symbols)
      && (forall letter :: letter in r.prefixes.Values <==> letter in letters)
  {
    hide InsertPairs, MatchPrefix, Emplace;
    var value := "(" + letters + ")" + symbols;
    assert "PREFIX=" + value == "PREFIX" + "=" + value;
    TokenParts(t, name, "PREFIX", value);
    MatchPrefixExact(value, letters, symbols);
    DistinctPairsKept(map[], symbols, letters);
    var m := InsertPairs(map[], symbols, letters);
    forall a | a in m ensures a in symbols {
      OnlyPairsInserted(map[], symbols, letters, a);
    }
    forall letter | letter in letters ensures letter in m.Values {
      var i :| 0 <= i < |letters| && letters[i] == letter;
      assert m[symbols[i]] == letter;
    }
  }

  /** A parameter without an equals sign: the name of the one before carries over, with an empty value.  So it
      leaves the tables alone if and only if that name is not CHANTYPES or there are no channel types. */
  lemma PlainToken(t: Tables, name: string, token: string)
    requires '=' !in token
    ensures var (r, name') := ApplyToken(t, name, token);
      && name' == name
      && r.channelModes == t.channelModes && r.prefixes == t.prefixes
      && (r.channelTypes == t.channelTypes <==> name != "CHANTYPES" || t.channelTypes == "")
      && Fold(name) in r.options
  {
    hide Fold;
    assert SplitAt(',', "") == [""];
    assert Sort("") == "";
  }

  /** Two parameters after which the channel types that the first announces are gone. */
  lemma PlainTokenClears(t: Tables)
    ensures ApplyTokens(t, "", ["CHANTYPES=#&", "SAFELIST"]).channelTypes == ""
  {
    hide ApplyToken;
    var tokens := ["CHANTYPES=#&", "SAFELIST"];
    assert "CHANTYPES=" + "#&" == "CHANTYPES=#&";
    ChanTypesStored(t, "", "#&");
    var t1 := ApplyToken(t, "", tokens[0]).0;
    assert ApplyToken(t, "", tokens[0]).1 == "CHANTYPES";
    PlainSafelist(t1);
    assert tokens[1..] == ["SAFELIST"] && ["SAFELIST"][1..] == [];
    var (t2, name) := ApplyToken(t1, "CHANTYPES", "SAFELIST");
    assert ApplyTokens(t1, "CHANTYPES", ["SAFELIST"]) == ApplyTokens(t2, name, []) == t2;
  }

  lemma PlainSafelist(t: Tables)
    ensures ApplyToken(t, "CHANTYPES", "SAFELIST").0.channelTypes == ""
  {
    hide Emplace;
    assert FindEqual("SAFELIST").None?;
    assert Sort("") == "";
  }

  /** The tables after any run of 005 messages. */
  function ApplyRun(t: Tables, messages: seq<seq<string>>): Tables
    requires forall i :: 0 <= i < |messages| ==> |messages[i]| >= 2
    decreases |messages|
  {
    if messages == [] then t else ApplyRun(ApplySupport(t, messages[0]), messages[1..])
  }

  /** Over any run of 005 messages, from the tables of a new client: the strings that MODE searches are
      sorted, so the search decides membership, and the prefix table is one-to-one. */
  lemma {:induction false} RunKeepsValid(t: Tables, messages: seq<seq<string>>)
    requires Valid(t) && forall i :: 0 <= i < |messages| ==> |messages[i]| >= 2
    ensures Valid(ApplyRun(t, messages))
    ensures forall i, ch :: 0 <= i < 4 ==>
      (BinarySearch(ApplyRun(t, messages).channelModes[i], ch) <==> ch in ApplyRun(t, messages).channelModes[i])
    decreases |messages|
  {
    hide BinarySearch, Sorted, OneToOne, ApplyTokens;
    if messages == [] {
      forall i, ch | 0 <= i < 4 ensures BinarySearch(t.channelModes[i], ch) <==> ch in t.channelModes[i] {
        SearchIsMembership(t.channelModes[i], ch);
      }
    } else {
      TokensKeepValid(t, "", messages[0][1..|messages[0]| - 1]);
      RunKeepsValid(ApplySupport(t, messages[0]), messages[1..]);
    }
  }

  /** Options are never lost or changed: of several values for one name, in any case, the first stays. */
  lemma {:induction false} OptionsStay(t: Tables, name: string, tokens: seq<string>, key: string)
    requires key in t.options
    ensures key in ApplyTokens(t, name, tokens).options
    ensures ApplyTokens(t, name, tokens).options[key] == t.options[key]
    decreases |tokens|
  {
    hide Fold, Sort, SplitAt, InsertPairs, MatchPrefix;
    if tokens != [] {
      var (next, name') := ApplyToken(t, name, tokens[0]);
      OptionsStay(next, name', tokens[1..], key);
    }
  }

  lemma {:induction false} OptionsStayOverRun(t: Tables, messages: seq<seq<string>>, key: string)
    requires key in t.options && forall i :: 0 <= i < |messages| ==> |messages[i]| >= 2
    ensures key in ApplyRun(t, messages).options
    ensures ApplyRun(t, messages).options[key] == t.options[key]
    decreases |messages|
  {
    hide ApplyTokens;
    if messages != [] {
      OptionsStay(t, "", messages[0][1..|messages[0]| - 1], key);
      OptionsStayOverRun(ApplySupport(t, messages[0]), messages[1..], key);
    }
  }

  /** A parameter with an equals sign is in the options from then on, with its value unless the name had
      one before. */
  lemma OptionStored(t: Tables, name: string, option: string, value: string)
    requires '=' !in option
    ensures var r := ApplyToken(t, name, option + "=" + value).0;
      && Fold(option) in r.options
      && (Fold(option) !in t.options ==> r.options[Fold(option)] == ServerOption(option, value))
  {
    hide Fold, Sort, SplitAt, InsertPairs, MatchPrefix;
    TokenParts(t, name, option, value);
  }

  lemma InitialTablesValid()
    ensures Valid(INITIAL_TABLES)
  {
  }
}

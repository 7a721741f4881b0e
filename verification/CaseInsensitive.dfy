/** The comparison of names in Comparator.h. */
module CaseInsensitive {

  function FoldChar(ch: char): char {
    if 'a' <= ch <= 'z' then (ch as int - 'a' as int + 'A' as int) as char else ch
  }

  /** Two names are the same to LessCaseInsensitive exactly when they fold to the same string. */
  function Fold(s: string): string {
    if s == "" then "" else [FoldChar(s[0])] + Fold(s[1..])
  }

  /** The same letter in either case, or the same character. */
  predicate SameLetter(a: char, b: char) {
    a == b || ('a' <= a <= 'z' && a as int - b as int == 32) || ('a' <= b <= 'z' && b as int - a as int == 32)
  }

  /** Folding identifies exactly the names that differ in case alone. */
  lemma {:induction false} FoldMeets(s: string, t: string)
    ensures Fold(s) == Fold(t) <==> |s| == |t| && forall i :: 0 <= i < |s| ==> SameLetter(s[i], t[i])
    decreases |s|
  {
    if s != "" && t != "" {
      FoldMeets(s[1..], t[1..]);
      LettersMeet(s[0], t[0]);
      assert Fold(s)[1..] == Fold(s[1..]) && Fold(t)[1..] == Fold(t[1..]);
      hide SameLetter, FoldChar;
      if |s| == |t| && SameLetter(s[0], t[0]) && forall i :: 0 <= i < |s| - 1 ==> SameLetter(s[1..][i], t[1..][i]) {
        forall i | 0 <= i < |s| ensures SameLetter(s[i], t[i]) {
          assert i > 0 ==> s[i] == s[1..][i - 1] && t[i] == t[1..][i - 1];
        }
      }
    }
  }

  lemma LettersMeet(a: char, b: char)
    ensures FoldChar(a) == FoldChar(b) <==> SameLetter(a, b)
  {
  }
}

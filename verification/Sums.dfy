/** Sums of a weight over the threads of a system. */
module Sums {

  function Sum<P>(f: P -> nat, s: seq<P>): nat {
    if s == [] then 0 else f(s[0]) + Sum(f, s[1..])
  }

  /** Moving one thread changes a sum by the change of that thread's weight. */
  lemma {:induction false} SumUpdate<P>(f: P -> nat, s: seq<P>, t: nat, p: P)
    requires t < |s|
    ensures Sum(f, s[t := p]) + f(s[t]) == Sum(f, s) + f(p)
  {
    if t == 0 {
      assert s[t := p][1..] == s[1..];
    } else {
      assert s[t := p][1..] == s[1..][t - 1 := p];
      SumUpdate(f, s[1..], t - 1, p);
    }
  }

  lemma {:induction false} SumAtLeast<P>(f: P -> nat, s: seq<P>, t: nat)
    requires t < |s|
    ensures f(s[t]) <= Sum(f, s)
  {
    if t > 0 {
      SumAtLeast(f, s[1..], t - 1);
    }
  }

  lemma {:induction false} SumPair<P>(f: P -> nat, s: seq<P>, t: nat, u: nat)
    requires t < u < |s|
    ensures f(s[t]) + f(s[u]) <= Sum(f, s)
  {
    if t == 0 {
      SumAtLeast(f, s[1..], u - 1);
    } else {
      SumPair(f, s[1..], t - 1, u - 1);
    }
  }

  lemma {:induction false} SumPositive<P>(f: P -> nat, s: seq<P>) returns (t: nat)
    requires Sum(f, s) > 0
    ensures t < |s| && f(s[t]) > 0
  {
    if f(s[0]) > 0 {
      t := 0;
    } else {
      t := SumPositive(f, s[1..]);
      t := t + 1;
    }
  }

  lemma {:induction false} SumOfZeros<P>(f: P -> nat, s: seq<P>)
    requires forall t :: 0 <= t < |s| ==> f(s[t]) == 0
    ensures Sum(f, s) == 0
  {
    if s != [] {
      SumOfZeros(f, s[1..]);
    }
  }

  /** A weight that only the one owner of another weight can have. */
  lemma {:induction false} SumOwned<P(!new)>(f: P -> nat, owner: P -> nat, s: seq<P>, t: nat)
    requires forall p :: f(p) <= owner(p)
    requires t < |s| && owner(s[t]) == 1 && Sum(owner, s) <= 1
    ensures Sum(f, s) == f(s[t])
  {
    if t == 0 {
      SumBelow(f, owner, s[1..]);
    } else {
      SumPair(owner, s, 0, t);
      SumAtLeast(owner, s[1..], t - 1);
      SumOwned(f, owner, s[1..], t - 1);
    }
  }

  lemma {:induction false} SumBelow<P(!new)>(f: P -> nat, g: P -> nat, s: seq<P>)
    requires forall p :: f(p) <= g(p)
    ensures Sum(f, s) <= Sum(g, s)
  {
    if s != [] {
      SumBelow(f, g, s[1..]);
    }
  }
}

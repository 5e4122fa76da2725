/** Sequences back to front. */
module Sequences {
  function Reverse<T>(s: seq<T>): (r: seq<T>)
    ensures |r| == |s|
  {
    if |s| == 0 then [] else Reverse(s[1..]) + [s[0]]
  }

  lemma {:induction false} ReverseAppend<T>(s: seq<T>, x: T)
    ensures Reverse(s + [x]) == [x] + Reverse(s)
  {
    if |s| == 0 {
    } else {
      assert (s + [x])[1..] == s[1..] + [x];
      ReverseAppend(s[1..], x);
    }
  }

  lemma {:induction false} ReverseAt<T>(s: seq<T>, i: nat)
    requires i < |s|
    ensures Reverse(s)[i] == s[|s| - 1 - i]
  {
    if i >= |s| - 1 {
    } else {
      ReverseAt(s[1..], i);
    }
  }

  /** Whether `s` is `t` with some elements left out. */
  ghost predicate IsSubsequence<T>(s: seq<T>, t: seq<T>)
    decreases |t|
  {
    s == [] ||
    (t != [] && ((s[0] == t[0] && IsSubsequence(s[1..], t[1..])) || IsSubsequence(s, t[1..])))
  }

  lemma {:induction false} SubsequencesConcat<T>(s: seq<T>, t: seq<T>, u: seq<T>, v: seq<T>)
    requires IsSubsequence(s, t) && IsSubsequence(u, v)
    ensures IsSubsequence(s + u, t + v)
    decreases |t|
  {
    if t == [] {
      assert s + u == u && t + v == v;
    } else {
      assert (t + v)[1..] == t[1..] + v;
      if s != [] && s[0] == t[0] && IsSubsequence(s[1..], t[1..]) {
        SubsequencesConcat(s[1..], t[1..], u, v);
        assert (s + u)[1..] == s[1..] + u;
      } else {
        SubsequencesConcat(s, t[1..], u, v);
      }
    }
  }
}

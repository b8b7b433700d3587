/** Sequence functions shared by the framing and the field modules. */
module Seqs {

  function Flatten<T>(ss: seq<seq<T>>): seq<T> {
    if ss == [] then [] else ss[0] + Flatten(ss[1..])
  }

  /** The first position of x at or after from, or the length of s. */
  function IndexFrom<T(==)>(s: seq<T>, x: T, from: nat): (i: nat)
    requires from <= |s|
    ensures from <= i <= |s|
    ensures i < |s| ==> s[i] == x
    decreases |s| - from
  {
    if from == |s| || s[from] == x then from else IndexFrom(s, x, from + 1)
  }

  function Index<T(==)>(s: seq<T>, x: T): (i: nat)
    ensures i <= |s|
    ensures i < |s| ==> s[i] == x
  {
    IndexFrom(s, x, 0)
  }

  lemma {:induction false} IndexFromSkips<T>(s: seq<T>, x: T, from: nat)
    requires from <= |s|
    ensures forall j :: from <= j < IndexFrom(s, x, from) ==> s[j] != x
    decreases |s| - from
  {
    if from < |s| && s[from] != x {
      IndexFromSkips(s, x, from + 1);
    }
  }

  lemma IndexIsFirst<T>(s: seq<T>, x: T)
    ensures forall j :: 0 <= j < Index(s, x) ==> s[j] != x
    ensures x !in s[..Index(s, x)]
    ensures Index(s, x) == |s| <==> x !in s
  {
    IndexFromSkips(s, x, 0);
  }

  lemma IndexOfFirst<T>(s: seq<T>, x: T, i: nat)
    requires i <= |s| && x !in s[..i] && (i < |s| ==> s[i] == x)
    ensures Index(s, x) == i
  {
    IndexIsFirst(s, x);
    assert forall j :: 0 <= j < i ==> s[j] == s[..i][j];
  }
}

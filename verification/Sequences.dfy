/** Small facts about sequences that the verifier is spared from rediscovering. */
module Sequences {

  lemma Assoc<T>(a: seq<T>, b: seq<T>, c: seq<T>)
    ensures a + b + c == a + (b + c)
    ensures a + [] == a && [] + a == a
  {
  }

  ghost predicate Distinct<T>(s: seq<T>) {
    forall i, j :: 0 <= i < j < |s| ==> s[i] != s[j]
  }

  /** Taking a concatenation apart again. */
  lemma Parts<T>(a: seq<T>, b: seq<T>)
    ensures (a + b)[..|a|] == a && (a + b)[|a|..] == b
  {
  }

  /** A sequence followed by one that starts alike can be cancelled. */
  lemma Cancel<T>(a: seq<T>, x: seq<T>, y: seq<T>)
    requires a + x == a + y
    ensures x == y
  {
    Parts(a, x);
    Parts(a, y);
  }

  /** The elements at the marked places, in order. */
  ghost function Kept<T>(s: seq<T>, marks: seq<bool>): seq<T>
    requires |marks| == |s|
  {
    if s == [] then [] else (if marks[0] then [s[0]] else []) + Kept(s[1..], marks[1..])
  }
}

/** Small facts about sequences that several components share. */
module Sequences {
  /** First position of `c`, or the length. */
  function IndexOf(s: string, c: char): (k: nat)
    ensures k <= |s| && (forall i :: 0 <= i < k ==> s[i] != c) && (k < |s| ==> s[k] == c)
  {
    if s == "" || s[0] == c then 0 else 1 + IndexOf(s[1..], c)
  }

  lemma Associates<T>(a: seq<T>, b: seq<T>, c: seq<T>)
    ensures a + (b + c) == a + b + c
  {
  }

  /** Moments of a clock that does not go back. */
  predicate InOrder(times: seq<int>) { forall i, j :: 0 <= i < j < |times| ==> times[i] <= times[j] }

  /** The rows still to be read after `done` of them, cut to one page. */
  function PageAt<T>(rows: seq<T>, done: nat, size: nat): seq<T>
    requires done <= |rows|
  {
    if |rows| - done <= size then rows[done..] else rows[done..done + size]
  }
}

/** Bytes, letter case and small facts that several components share. */
module Basics {

  type Byte = b: int | 0 <= b < 256

  /** The codes of a text of single-byte characters. */
  function Ascii(s: string): seq<Byte> {
    seq(|s|, i requires 0 <= i < |s| => (s[i] as nat) % 256)
  }

  // ---- Letter case ----

  /** ASCII lower case. */
  function LowerChar(c: char): char {
    if 'A' <= c <= 'Z' then c - 'A' + 'a' else c
  }

  function Lower(s: string): (r: string)
    ensures |r| == |s|
  {
    seq(|s|, i requires 0 <= i < |s| => LowerChar(s[i]))
  }

  lemma LowerIdempotent(s: string)
    ensures Lower(Lower(s)) == Lower(s)
  {
    assert forall c: char :: LowerChar(LowerChar(c)) == LowerChar(c);
  }

  // ---- Multiples and sets ----

  /** n added up `count` times. */
  function Times(n: int, count: nat): (r: int)
    ensures n >= 0 ==> r >= 0
  {
    if count == 0 then 0 else n + Times(n, count - 1)
  }

  lemma SubsetOfSameSize<T>(a: set<T>, b: set<T>)
    requires a <= b && |a| == |b|
    ensures a == b
  {
    assert |b - a| == |b| - |a|;
  }
}

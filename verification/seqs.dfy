/** Generic facts about sequence slicing and concatenation, stated over an arbitrary element type. */
module Seqs {

  lemma SliceShift<T>(s: seq<T>, m: nat)
    requires m < |s|
    ensures s[..m + 1][1..] == s[1..][..m]
    ensures s[1..][m..] == s[m + 1..]
    ensures s[1..][..m] == s[1..m + 1]
  {
  }

  lemma AppendEmpty<T>(a: seq<T>)
    ensures a + [] == a
  {
  }

  lemma ConcatAssoc<T>(a: seq<T>, b: seq<T>, c: seq<T>)
    ensures (a + b) + c == a + (b + c)
  {
  }

  lemma Regroup<T>(a: seq<T>, b: seq<T>, c: seq<T>, d: seq<T>)
    ensures (a + b) + (c + d) == a + ((b + c) + d)
  {
  }
}

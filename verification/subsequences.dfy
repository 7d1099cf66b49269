/** Order-preserving subsequences: `t` is obtained from `s` by deleting
    elements, keeping the rest in their original relative order. */
module Subsequences {

  predicate Subseq<T(==)>(t: seq<T>, s: seq<T>)
    decreases |s|
  {
    if |t| == 0 then true
    else if |s| == 0 then false
    else (t[0] == s[0] && Subseq(t[1..], s[1..])) || Subseq(t, s[1..])
  }

  /** A subsequence is never longer than the sequence it is taken from. */
  lemma {:induction false} SubseqLength<T>(t: seq<T>, s: seq<T>)
    requires Subseq(t, s)
    ensures |t| <= |s|
    decreases |s|
  {
    if |t| > 0 {
      if t[0] == s[0] && Subseq(t[1..], s[1..]) {
        SubseqLength(t[1..], s[1..]);
      } else {
        SubseqLength(t, s[1..]);
      }
    }
  }

  /** A subsequence as long as the sequence itself is that sequence. */
  lemma {:induction false} SubseqOfSameLength<T>(t: seq<T>, s: seq<T>)
    requires Subseq(t, s) && |t| == |s|
    ensures t == s
    decreases |s|
  {
    if |t| > 0 {
      if t[0] == s[0] && Subseq(t[1..], s[1..]) {
        SubseqOfSameLength(t[1..], s[1..]);
        assert t == [t[0]] + t[1..];
        assert s == [s[0]] + s[1..];
      } else {
        SubseqLength(t, s[1..]);
        assert false;
      }
    }
  }
}

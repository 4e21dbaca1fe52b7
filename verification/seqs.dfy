/** Regrouping, prefixes and suffixes of sequences, used by the proofs about logs. */
module Seqs {
  lemma AppendAssoc<X>(a: seq<X>, b: seq<X>, c: seq<X>, d: seq<X>)
    ensures a + b + c + d == a + b + (c + d)
  {
  }

  lemma AppendAssoc3<X>(a: seq<X>, b: seq<X>, c: seq<X>)
    ensures a + b + c == a + (b + c)
  {
  }

  lemma AppendAssoc5<X>(pre: seq<X>, a: seq<X>, b: seq<X>, c: seq<X>, post: seq<X>)
    ensures pre + (a + b + c) + post == pre + a + b + c + post
  {
  }

  /** A prefix extended by the next element is the next prefix. */
  lemma PrefixSnoc<X>(s: seq<X>, i: nat)
    requires i < |s|
    ensures s[..i] + [s[i]] == s[..i + 1]
  {
  }

  /** A suffix is its first element followed by the next suffix. */
  lemma SuffixCons<X>(s: seq<X>, k: nat)
    requires k < |s|
    ensures s[k..] == [s[k]] + s[k + 1..]
  {
  }

  /** The empty prefix and the whole sequence. */
  lemma PrefixEnds<X>(s: seq<X>)
    ensures s[..0] == [] && s[..|s|] == s
  {
  }
}

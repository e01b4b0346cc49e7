/** Sequence helpers shared by the models. */
module Seqs {

  /** `f` applied to each element of `s`, in order. */
  function Map<A, B>(f: A -> B, s: seq<A>): (r: seq<B>)
    ensures |r| == |s|
    ensures forall i :: 0 <= i < |s| ==> r[i] == f(s[i])
  {
    seq(|s|, i requires 0 <= i < |s| => f(s[i]))
  }

  /** Mapping a concatenation maps each part. */
  lemma MapAppend<A, B>(f: A -> B, s: seq<A>, t: seq<A>)
    ensures Map(f, s + t) == Map(f, s) + Map(f, t)
  {
    var l, r := Map(f, s + t), Map(f, s) + Map(f, t);
    forall i | 0 <= i < |l| ensures l[i] == r[i] {
      if i < |s| {
        assert (s + t)[i] == s[i];
      } else {
        assert (s + t)[i] == t[i - |s|];
      }
    }
  }
}

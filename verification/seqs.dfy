/** Small facts about sequence concatenation and slicing that the proofs
    use at many call sites; stating them once keeps each proof's context
    small. */
module Seqs {

  lemma AppendEmpty<T>(s: seq<T>)
    ensures s + [] == s
  {
  }

  lemma ConcatAssoc<T>(x: seq<T>, y: seq<T>, z: seq<T>)
    ensures (x + y) + z == x + (y + z)
  {
  }

  lemma TakeSnoc<T>(s: seq<T>, k: nat)
    requires 0 < k <= |s|
    ensures s[..k] == s[..k - 1] + [s[k - 1]]
  {
  }

  lemma HeadTail<T>(p: seq<T>, t: seq<T>)
    requires |p| > 0
    ensures [p[0]] + (p[1..] + t) == p + t
  {
    assert p == [p[0]] + p[1..];
  }
}

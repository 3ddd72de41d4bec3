/**
  Small facts about sequences and division that the decoding and writing
  proofs use. Each states one step Dafny does not take by itself in a larger
  proof context.
 */
module Seqs {

  /** The head and the tail of a sequence built by prepending one element. */
  lemma ConsParts<T>(x: T, t: seq<T>)
    ensures ([x] + t)[0] == x && ([x] + t)[1..] == t
  {
  }

  /** Euclidean division by 0x40 is determined by quotient and remainder. */
  lemma DivMod64(x: int, q: int, r: int)
    requires x == q * 0x40 + r && 0 <= r < 0x40
    ensures x / 0x40 == q && x % 0x40 == r
  {
  }

  /** Cutting a sequence in two and joining the halves gives it back. */
  lemma SplitJoin<T>(s: seq<T>, n: nat)
    requires n <= |s|
    ensures s[..n] + s[n..] == s
  {
  }

  /** The first `n` elements of `a + b`, and what follows them, when `n` is within `a`. */
  lemma ConcatSlices<T>(a: seq<T>, b: seq<T>, n: nat)
    requires 1 <= n <= |a|
    ensures (a + b)[0] == a[0] && (a + b)[..n] == a[..n] && (a + b)[n..] == a[n..] + b
  {
  }

  /** Concatenation is associative. */
  lemma AppendAssoc<T>(x: seq<T>, y: seq<T>, z: seq<T>)
    ensures x + (y + z) == (x + y) + z
  {
  }

  /** Slicing a suffix is slicing the whole at shifted bounds. */
  lemma SuffixSlices<T>(s: seq<T>, i: nat, n: nat)
    requires i + n <= |s|
    ensures s[i..][..n] == s[i..i + n] && s[i..][n..] == s[i + n..]
  {
  }

  /** Dropping one more element from a suffix drops the head of what it equals. */
  lemma TailOfSuffix<T>(a: seq<T>, p: nat, b: seq<T>)
    requires p <= |a| && a[p..] == b && b != []
    ensures p < |a| && a[p] == b[0] && a[p + 1..] == b[1..]
  {
  }

  /** Taking as many elements as there are keeps the whole sequence. */
  lemma TakeAll<T>(s: seq<T>, n: nat)
    requires n == |s|
    ensures s[..n] == s
  {
  }
}

/**
 * Small facts about sequence concatenation, stated once so that proofs can
 * cite them instead of asking the verifier to compare sequences element by
 * element in a large context.
 */
module SeqFacts {

  lemma ConcatAssoc<T>(x: seq<T>, y: seq<T>, z: seq<T>)
    ensures x + (y + z) == x + y + z
  {
  }

  lemma ConcatEmpty<T>(x: seq<T>)
    ensures x + [] == x
  {
  }

  lemma EmptyConcat<T>(x: seq<T>)
    ensures [] + x == x
  {
  }

  lemma JoinSingletons<T>(a: T, b: T)
    ensures [a] + [b] == [a, b]
  {
  }

  lemma JoinAroundEmpty<T>(x: seq<T>, z: seq<T>)
    ensures x + [] + z == x + z
  {
  }

  lemma DropConcat<T>(x: seq<T>, k: nat, y: seq<T>)
    requires k <= |x|
    ensures (x + y)[k..] == x[k..] + y
  {
  }

  lemma SplitAround<T>(s: seq<T>, i: nat)
    requires i < |s|
    ensures s == s[..i] + [s[i]] + s[i + 1..]
  {
  }
}

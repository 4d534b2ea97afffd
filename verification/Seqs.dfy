/** Sequences without repetitions, and taking one element out of a sequence. */
module Seqs {

  predicate Distinct<T(==)>(s: seq<T>) {
    forall i, j | 0 <= i < j < |s| :: s[i] != s[j]
  }

  function Members<T(==)>(s: seq<T>): set<T> {
    set e | e in s
  }

  function Removed<T>(s: seq<T>, k: nat): seq<T>
    requires k < |s|
  {
    s[..k] + s[k + 1..]
  }

  lemma RemovedParts<T>(s: seq<T>, k: nat)
    requires k < |s|
    ensures |Removed(s, k)| == |s| - 1
    ensures forall i | 0 <= i < k :: Removed(s, k)[i] == s[i]
    ensures forall i | k <= i < |s| - 1 :: Removed(s, k)[i] == s[i + 1]
  {
  }

  lemma RemovedLast<T>(s: seq<T>)
    requires s != []
    ensures Removed(s, |s| - 1) + [s[|s| - 1]] == s
  {
  }

  lemma RemovedMultiset<T>(s: seq<T>, k: nat)
    requires k < |s|
    ensures multiset([s[k]] + Removed(s, k)) == multiset(s)
  {
    assert s == s[..k] + [s[k]] + s[k + 1..];
  }

  /** Removing position k from a list without repetitions removes just that element. */
  lemma RemovedMembers<T>(s: seq<T>, k: nat)
    requires Distinct(s) && k < |s|
    ensures Members(Removed(s, k)) == Members(s) - {s[k]}
    ensures Members(s) == Members(Removed(s, k)) + {s[k]} && |Removed(s, k)| == |s| - 1
  {
    var less := Removed(s, k);
    forall x <- s ensures x == s[k] || x in less {
      var i :| 0 <= i < |s| && s[i] == x;
      assert i < k ==> less[i] == x;
      assert i > k ==> less[i - 1] == x;
    }
  }

  lemma SubsetSize<T>(a: set<T>, b: set<T>)
    requires a <= b
    ensures |a| <= |b|
  {
    assert b == a + (b - a);
  }
}

/** Facts about sequences used as duplicate-free collections (the model of Java's hash sets and maps). */
module Collections {

  /** No element occurs twice in `s`. */
  predicate Distinct<T(==)>(s: seq<T>) {
    forall i, j :: 0 <= i < j < |s| ==> s[i] != s[j]
  }

  /** A duplicate-free sequence has as many elements as the set of its elements. */
  lemma {:induction false} DistinctCardinality<T>(s: seq<T>)
    requires Distinct(s)
    ensures |set x | x in s| == |s|
  {
    if s != [] {
      var rest := s[1..];
      assert Distinct(rest) by {
        forall i, j | 0 <= i < j < |rest| ensures rest[i] != rest[j] {
          assert rest[i] == s[i + 1] && rest[j] == s[j + 1];
        }
      }
      DistinctCardinality(rest);
      assert s[0] !in rest by {
        forall k | 0 <= k < |rest| ensures rest[k] != s[0] {
          assert rest[k] == s[k + 1];
        }
      }
      assert (set x | x in s) == (set x | x in rest) + {s[0]} by {
        assert s == [s[0]] + rest;
      }
    }
  }

  /** The integers `lo..hi` (both included), a set of `hi - lo + 1` elements when not empty. */
  function IntRange(lo: int, hi: int): (r: set<int>)
    ensures forall k :: k in r <==> lo <= k <= hi
    ensures |r| == if lo <= hi then hi - lo + 1 else 0
    decreases hi - lo
  {
    if lo > hi then {} else IntRange(lo, hi - 1) + {hi}
  }

  /** Deleting at a positive index keeps the head and deletes one position further in the tail. */
  lemma DropAtCons<E>(s: seq<E>, k: int)
    requires 0 < k < |s|
    ensures s[..k] + s[k + 1..] == [s[0]] + (s[1..][..k - 1] + s[1..][k..])
  {
    assert s[1..][..k - 1] == s[1..k];
    assert s[1..][k..] == s[k + 1..];
    assert s[..k] == [s[0]] + s[1..k];
  }

  /** After deleting index `k`, a later element sits one position earlier. */
  lemma DropAtShifts<E>(s: seq<E>, k: int, j: int)
    requires 0 <= k < j < |s|
    ensures |s[..k] + s[k + 1..]| == |s| - 1 && (s[..k] + s[k + 1..])[j - 1] == s[j]
  {
  }
}

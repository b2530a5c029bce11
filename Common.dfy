/** Small shared vocabulary: optional values, `min`, and duplicate-free sequences. */
module Common {

  /** A value that may be missing: an absent dictionary key, a call that raised. */
  datatype Option<+T> = None | Some(value: T) {

    /** The wrapped value, or `default` when there is none (Python's `dict.get(key, default)`). */
    function GetOr(default: T): T {
      match this
      case Some(v) => v
      case None => default
    }
  }

  /** Python's built-in `min` on two integers. */
  function Min(a: int, b: int): int {
    if a <= b then a else b
  }

  /** No element occurs twice. */
  predicate NoDups<T(==)>(s: seq<T>) {
    forall i, j :: 0 <= i < j < |s| ==> s[i] != s[j]
  }

  /** The set of elements of a sequence. */
  function Elems<T>(s: seq<T>): set<T> {
    set x | x in s
  }

  /** A duplicate-free sequence has as many elements as its set of elements. */
  lemma {:induction false} NoDupsCardinality<T>(s: seq<T>)
    requires NoDups(s)
    ensures |Elems(s)| == |s|
  {
    if s != [] {
      var init := s[..|s| - 1];
      assert Elems(s) == Elems(init) + {s[|s| - 1]};
      assert s[|s| - 1] !in Elems(init);
      NoDupsCardinality(init);
    }
  }

  /** Taking a sub-multiset of a duplicate-free sequence gives a duplicate-free sequence. */
  lemma SubMultisetNoDups<T>(sub: seq<T>, s: seq<T>)
    requires NoDups(s) && multiset(sub) <= multiset(s)
    ensures NoDups(sub)
  {
    forall i, j | 0 <= i < j < |sub|
      ensures sub[i] != sub[j]
    {
      if sub[i] == sub[j] {
        var x := sub[i];
        assert multiset(sub)[x] >= 2 by {
          assert sub == sub[..i] + [x] + sub[i + 1..j] + [x] + sub[j + 1..];
        }
        OccursOnce(s, x);
      }
    }
  }

  /** In a duplicate-free sequence every element occurs at most once. */
  lemma {:induction false} OccursOnce<T>(s: seq<T>, x: T)
    requires NoDups(s)
    ensures multiset(s)[x] <= 1
  {
    if s != [] {
      var init := s[..|s| - 1];
      assert s == init + [s[|s| - 1]];
      OccursOnce(init, x);
      assert x == s[|s| - 1] ==> x !in init;
    }
  }
}

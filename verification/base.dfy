/** Small shared vocabulary: an optional value. */
module Base {

  /** A value that may be absent, as a Python `None` or a missing dict key. */
  datatype Option<+T> = None | Some(value: T)

  /** True when `s` holds no element twice. */
  predicate Distinct<T(==)>(s: seq<T>)
  {
    forall i, j :: 0 <= i < j < |s| ==> s[i] != s[j]
  }

  /** True when `s` lists every element of `keys` exactly once, as iterating a dict or set does. */
  predicate Enumerates<T(==)>(s: seq<T>, keys: set<T>)
  {
    Distinct(s) && (forall x :: x in s ==> x in keys) && (forall x :: x in keys ==> x in s)
  }

  /** Dropping the first element keeps a sequence free of repetitions, and that element does not recur. */
  lemma DistinctTail<T>(s: seq<T>)
    requires |s| > 0
    ensures Distinct(s) ==> Distinct(s[1..]) && s[0] !in s[1..]
  {
    if Distinct(s) {
      forall i, j | 0 <= i < j < |s| - 1 ensures s[1..][i] != s[1..][j] {
        assert s[1..][i] == s[i + 1] && s[1..][j] == s[j + 1];
      }
    }
  }

  /** Putting `x` in front keeps a sequence free of repetitions exactly when `x` is new to it. */
  lemma DistinctCons<T>(x: T, s: seq<T>)
    ensures Distinct([x] + s) <==> x !in s && Distinct(s)
  {
    var t := [x] + s;
    assert t[1..] == s;
    DistinctTail(t);
    if x !in s && Distinct(s) {
      forall i, j | 0 <= i < j < |t| ensures t[i] != t[j] {
        assert t[j] == s[j - 1];
        if i > 0 {
          assert t[i] == s[i - 1];
        }
      }
    }
  }

  /** A sequence without repetitions has as many elements as the set of its elements. */
  lemma {:induction false} DistinctCardinality<T>(s: seq<T>)
    requires Distinct(s)
    ensures |set x | x in s| == |s|
  {
    if |s| > 0 {
      var tail := s[1..];
      assert Distinct(tail) by {
        forall i, j | 0 <= i < j < |tail| ensures tail[i] != tail[j] {
          assert tail[i] == s[i + 1] && tail[j] == s[j + 1];
        }
      }
      DistinctCardinality(tail);
      assert s[0] !in tail by {
        forall i | 0 <= i < |tail| ensures tail[i] != s[0] {
          assert tail[i] == s[i + 1];
        }
      }
      assert (set x | x in s) == (set x | x in tail) + {s[0]} by {
        forall x ensures x in s <==> x in tail || x == s[0] {
          if x in s && x != s[0] {
            var i :| 0 <= i < |s| && s[i] == x;
            assert tail[i - 1] == x;
          }
        }
      }
    }
  }
}

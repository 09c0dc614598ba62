/** Optional values: Ruby's nil becomes None. */
module Wrappers {

  datatype Option<+T> = None | Some(value: T)

  /** `xs&.each`: a nil list contributes no elements. */
  function OrEmpty<T>(xs: Option<seq<T>>): (ys: seq<T>)
  {
    if xs.Some? then xs.value else []
  }
}

/** Small facts about strings and sequences used throughout the model. */
module Seqs {

  predicate StartsWith(s: string, prefix: string)
  {
    |prefix| <= |s| && s[..|prefix|] == prefix
  }

  predicate EndsWith(s: string, suffix: string)
  {
    |suffix| <= |s| && s[|s| - |suffix|..] == suffix
  }

  /** A suffix stays a suffix when both grow by the same last character. */
  lemma EndsWithAppend(s: string, suffix: string, c: char)
    requires EndsWith(s, suffix)
    ensures EndsWith(s + [c], suffix + [c])
  {
    assert (s + [c])[|s| - |suffix|..] == s[|s| - |suffix|..] + [c];
  }

  lemma AppendAssociative<T>(a: seq<T>, b: seq<T>, c: seq<T>)
    ensures a + b + c == a + (b + c)
  {
  }

  /** No element occurs twice. */
  predicate Distinct<T(==)>(s: seq<T>)
  {
    forall i, j :: 0 <= i < j < |s| ==> s[i] != s[j]
  }

  /** In a sequence without repetitions every element occurs exactly once. */
  lemma {:induction false} DistinctCount<T>(s: seq<T>, x: T)
    requires Distinct(s)
    ensures multiset(s)[x] == if x in s then 1 else 0
  {
    if s != [] {
      var t := s[1..];
      assert s == [s[0]] + t;
      assert Distinct(t) by {
        forall i, j | 0 <= i < j < |t| ensures t[i] != t[j] {
          assert t[i] == s[i + 1] && t[j] == s[j + 1];
        }
      }
      DistinctCount(t, x);
      if x == s[0] {
        forall k | 0 <= k < |t| ensures t[k] != x {
          assert t[k] == s[k + 1];
        }
      }
    }
  }
}

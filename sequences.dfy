/**
 * The list operations the form components apply to their arrays and strings:
 * `filter` by value, `map` that replaces one index, `filter` that drops one
 * index, and the "no two elements equal" property of the contributor roster.
 */
module Sequences {

  /** No value occurs at two different indices of `s`. */
  ghost predicate NoDuplicates<T>(s: seq<T>) {
    forall i, j :: 0 <= i < j < |s| ==> s[i] != s[j]
  }

  /**
   * `s.filter(y => y !== x)`: every occurrence of `x` removed, everything else
   * kept in its order. On a string this is also `replaceAll(x, '')` for a
   * one-character `x`.
   */
  function Without<T(==)>(s: seq<T>, x: T): (r: seq<T>)
    ensures x !in r
    ensures |r| <= |s|
    decreases |s|
  {
    if s == [] then [] else (if s[0] == x then [] else [s[0]]) + Without(s[1..], x)
  }

  /** `s.map((n, j) => i === j ? v : n)`: index `i` replaced by `v`, if it exists. */
  function ReplaceAt<T>(s: seq<T>, i: int, v: T): (r: seq<T>)
    ensures |r| == |s|
    decreases |s|
  {
    if s == [] then [] else [if i == 0 then v else s[0]] + ReplaceAt(s[1..], i - 1, v)
  }

  /** `s.filter((_, j) => i !== j)`: the element at index `i` dropped, if it exists. */
  function RemoveAt<T>(s: seq<T>, i: int): (r: seq<T>)
    ensures |r| == if 0 <= i < |s| then |s| - 1 else |s|
    decreases |s|
  {
    if s == [] then [] else (if i == 0 then [] else [s[0]]) + RemoveAt(s[1..], i - 1)
  }

  // ---------------------------------------------------------------- Without

  /** A value survives the filter exactly when it occurred and is not `x`. */
  lemma {:induction false} WithoutMember<T>(s: seq<T>, x: T, y: T)
    ensures y in Without(s, x) <==> y in s && y != x
    decreases |s|
  {
    if s != [] {
      WithoutMember(s[1..], x, y);
      assert s == [s[0]] + s[1..];
    }
  }

  /** Filtering a concatenation filters each part: the order of what is kept is the order in `s`. */
  lemma {:induction false} WithoutAppend<T>(a: seq<T>, b: seq<T>, x: T)
    ensures Without(a + b, x) == Without(a, x) + Without(b, x)
    decreases |a|
  {
    if a == [] {
      assert a + b == b;
    } else {
      assert (a + b)[0] == a[0];
      assert (a + b)[1..] == a[1..] + b;
      WithoutAppend(a[1..], b, x);
    }
  }

  /** Removing a value that does not occur changes nothing. */
  lemma {:induction false} WithoutAbsent<T>(s: seq<T>, x: T)
    requires x !in s
    ensures Without(s, x) == s
    decreases |s|
  {
    if s != [] {
      WithoutAbsent(s[1..], x);
      assert [s[0]] + s[1..] == s;
    }
  }

  /** Filtering twice by the same value is filtering once. */
  lemma WithoutIdempotent<T>(s: seq<T>, x: T)
    ensures Without(Without(s, x), x) == Without(s, x)
  {
    WithoutAbsent(Without(s, x), x);
  }

  /** Every occurrence of `x` is gone and every other value keeps its number of occurrences. */
  lemma {:induction false} WithoutMultiset<T>(s: seq<T>, x: T)
    ensures multiset(Without(s, x)) == multiset(s)[x := 0]
    decreases |s|
  {
    if s != [] {
      WithoutMultiset(s[1..], x);
      assert s == [s[0]] + s[1..];
      assert multiset(s) == multiset([s[0]]) + multiset(s[1..]);
    }
  }

  /** The result is shorter than `s` by exactly the number of occurrences of `x`. */
  lemma WithoutLength<T>(s: seq<T>, x: T)
    ensures |Without(s, x)| == |s| - multiset(s)[x]
  {
    WithoutMultiset(s, x);
    MultisetRemoveAll(multiset(s), x);
  }

  /** Zeroing the count of `x` shrinks a multiset by that count. */
  lemma MultisetRemoveAll<T>(m: multiset<T>, x: T)
    ensures |m[x := 0]| == |m| - m[x]
  {
    assert m == m[x := 0] + multiset{}[x := m[x]];
  }

  /** In a list without duplicates, removing the value at index `i` drops just that index. */
  lemma WithoutDistinct<T>(s: seq<T>, i: int)
    requires NoDuplicates(s)
    requires 0 <= i < |s|
    ensures Without(s, s[i]) == s[..i] + s[i + 1..]
    ensures |Without(s, s[i])| == |s| - 1
  {
    OccursOnce(s, i);
    assert s == s[..i] + [s[i]] + s[i + 1..];
    WithoutSplit(s[..i], s[i], s[i + 1..]);
  }

  /** In a list without duplicates, the value at index `i` occurs neither before nor after it. */
  lemma OccursOnce<T>(s: seq<T>, i: int)
    requires NoDuplicates(s)
    requires 0 <= i < |s|
    ensures s[i] !in s[..i] && s[i] !in s[i + 1..]
  {
    forall k | 0 <= k < i ensures s[..i][k] != s[i] {
      assert s[..i][k] == s[k];
    }
    var post := s[i + 1..];
    forall k | 0 <= k < |post| ensures post[k] != s[i] {
      assert post[k] == s[i + 1 + k];
    }
  }

  /** Removing a value that occurs once, between `pre` and `post`, joins the two. */
  lemma WithoutSplit<T>(pre: seq<T>, x: T, post: seq<T>)
    requires x !in pre && x !in post
    ensures Without(pre + [x] + post, x) == pre + post
  {
    var left := pre + [x];
    assert Without(left, x) == pre by {
      assert Without([x], x) == [] by {
        assert [x][1..] == [];
      }
      WithoutAbsent(pre, x);
      WithoutAppend(pre, [x], x);
      assert pre + [] == pre;
    }
    WithoutAbsent(post, x);
    WithoutAppend(left, post, x);
  }

  /** Adding one element not yet present keeps the list free of duplicates. */
  lemma AppendAbsentKeepsDistinct<T>(s: seq<T>, x: T)
    requires NoDuplicates(s)
    requires x !in s
    ensures NoDuplicates(s + [x])
  {
  }

  /** Putting a value not yet present in front keeps a list free of duplicates. */
  lemma PrependAbsentKeepsDistinct<T>(x: T, s: seq<T>)
    requires NoDuplicates(s)
    requires x !in s
    ensures NoDuplicates([x] + s)
  {
  }

  /** Filtering never introduces a duplicate. */
  lemma {:induction false} WithoutKeepsDistinct<T>(s: seq<T>, x: T)
    requires NoDuplicates(s)
    ensures NoDuplicates(Without(s, x))
    decreases |s|
  {
    if s != [] {
      assert NoDuplicates(s[1..]) by {
        forall i, j | 0 <= i < j < |s[1..]| ensures s[1..][i] != s[1..][j] {
          assert s[1..][i] == s[i + 1] && s[1..][j] == s[j + 1];
        }
      }
      WithoutKeepsDistinct(s[1..], x);
      if s[0] != x {
        WithoutMember(s[1..], x, s[0]);
        assert s[0] !in s[1..] by {
          forall k | 0 <= k < |s[1..]| ensures s[1..][k] != s[0] {
            assert s[1..][k] == s[k + 1];
          }
        }
        PrependAbsentKeepsDistinct(s[0], Without(s[1..], x));
      }
    }
  }

  // -------------------------------------------------------------- ReplaceAt

  /** Index `i` holds `v`; every other index holds what it held before. */
  lemma {:induction false} ReplaceAtIndex<T>(s: seq<T>, i: int, v: T, j: int)
    requires 0 <= j < |s|
    ensures ReplaceAt(s, i, v)[j] == if j == i then v else s[j]
    decreases |s|
  {
    if j > 0 {
      ReplaceAtIndex(s[1..], i - 1, v, j - 1);
    }
  }

  /** An index outside the list changes nothing. */
  lemma {:induction false} ReplaceAtOutside<T>(s: seq<T>, i: int, v: T)
    requires !(0 <= i < |s|)
    ensures ReplaceAt(s, i, v) == s
    decreases |s|
  {
    if s != [] {
      ReplaceAtOutside(s[1..], i - 1, v);
      assert [s[0]] + s[1..] == s;
    }
  }

  /** Writing back the value already at index `i` changes nothing. */
  lemma ReplaceAtSame<T>(s: seq<T>, i: int)
    requires 0 <= i < |s|
    ensures ReplaceAt(s, i, s[i]) == s
  {
    forall j | 0 <= j < |s| ensures ReplaceAt(s, i, s[i])[j] == s[j] {
      ReplaceAtIndex(s, i, s[i], j);
    }
  }

  /** A second edit of the same index overrides the first. */
  lemma ReplaceAtTwice<T>(s: seq<T>, i: int, v: T, w: T)
    ensures ReplaceAt(ReplaceAt(s, i, v), i, w) == ReplaceAt(s, i, w)
  {
  }

  // --------------------------------------------------------------- RemoveAt

  /** An index outside the list changes nothing. */
  lemma {:induction false} RemoveAtOutside<T>(s: seq<T>, i: int)
    requires !(0 <= i < |s|)
    ensures RemoveAt(s, i) == s
    decreases |s|
  {
    if s != [] {
      RemoveAtOutside(s[1..], i - 1);
      assert [s[0]] + s[1..] == s;
    }
  }

  /** Dropping index `i` keeps the elements before and after it, in order. */
  lemma {:induction false} RemoveAtSplit<T>(s: seq<T>, i: int)
    requires 0 <= i < |s|
    ensures RemoveAt(s, i) == s[..i] + s[i + 1..]
    decreases |s|
  {
    var t := s[1..];
    if i == 0 {
      RemoveAtOutside(t, -1);
      assert RemoveAt(s, i) == [] + RemoveAt(t, -1);
    } else {
      RemoveAtSplit(t, i - 1);
      assert s[..i] == [s[0]] + t[..i - 1];
      assert s[i + 1..] == t[i..];
      calc {
        RemoveAt(s, i);
        [s[0]] + RemoveAt(t, i - 1);
        [s[0]] + (t[..i - 1] + t[i..]);
        ([s[0]] + t[..i - 1]) + t[i..];
      }
    }
  }

  /** Dropping the element just appended gives back the list. */
  lemma RemoveAtLastAppended<T>(s: seq<T>, x: T)
    ensures RemoveAt(s + [x], |s|) == s
  {
    RemoveAtSplit(s + [x], |s|);
    assert (s + [x])[..|s|] == s;
  }
}

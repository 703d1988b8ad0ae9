/**
 * `Array.prototype.filter` over the in-memory tables, and the facts about it that the
 * availability engine and the lifecycle handlers rely on.
 */
module Filtering {

  /** The elements of `s` that satisfy `p`, in their original order. */
  function Filter<T(!new)>(p: T -> bool, s: seq<T>): (r: seq<T>)
    ensures |r| <= |s|
    ensures forall x :: x in r <==> x in s && p(x)
  {
    if s == [] then []
    else (if p(s[0]) then [s[0]] else []) + Filter(p, s[1..])
  }

  lemma {:induction false} FilterConcat<T(!new)>(p: T -> bool, a: seq<T>, b: seq<T>)
    ensures Filter(p, a + b) == Filter(p, a) + Filter(p, b)
  {
    if a == [] {
      assert a + b == b;
    } else {
      assert (a + b)[0] == a[0];
      assert (a + b)[1..] == a[1..] + b;
      FilterConcat(p, a[1..], b);
      var head := if p(a[0]) then [a[0]] else [];
      assert Filter(p, a + b) == head + (Filter(p, a[1..]) + Filter(p, b));
      assert Filter(p, a) == head + Filter(p, a[1..]);
    }
  }

  /** Each kept element occurs in the result as often as in the input; the rest never. */
  lemma {:induction false} FilterMultiset<T(!new)>(p: T -> bool, s: seq<T>)
    ensures forall x :: multiset(Filter(p, s))[x] == if p(x) then multiset(s)[x] else 0
  {
    if s != [] {
      FilterMultiset(p, s[1..]);
      assert s == [s[0]] + s[1..];
    }
  }

  /** The number of kept elements depends only on the multiset of the input, not its order. */
  lemma FilterCountPermutation<T(!new)>(p: T -> bool, a: seq<T>, b: seq<T>)
    requires multiset(a) == multiset(b)
    ensures multiset(Filter(p, a)) == multiset(Filter(p, b))
    ensures |Filter(p, a)| == |Filter(p, b)|
  {
    FilterMultiset(p, a);
    FilterMultiset(p, b);
    assert multiset(Filter(p, a)) == multiset(Filter(p, b));
    assert |multiset(Filter(p, a))| == |Filter(p, a)|;
  }

  /** An element the predicate rejects can be inserted anywhere without changing the result. */
  lemma FilterSkips<T(!new)>(p: T -> bool, left: seq<T>, x: T, right: seq<T>)
    requires !p(x)
    ensures Filter(p, left + [x] + right) == Filter(p, left + right)
  {
    assert [x][1..] == [];
    assert Filter(p, [x]) == [];
    FilterConcat(p, left, [x]);
    assert Filter(p, left + [x]) == Filter(p, left);
    FilterConcat(p, left + [x], right);
    FilterConcat(p, left, right);
  }

  /** When `p` rejects exactly the element at `i`, filtering removes just that element. */
  lemma {:induction false} FilterRemovesOne<T(!new)>(p: T -> bool, s: seq<T>, i: nat)
    requires i < |s| && !p(s[i])
    requires forall j | 0 <= j < |s| && j != i :: p(s[j])
    ensures Filter(p, s) == s[..i] + s[i + 1..]
  {
    if i == 0 {
      FilterKeepsSlice(p, s, 1, |s|);
      assert s[1..|s|] == s[1..] == s[..0] + s[1..];
    } else {
      TailSatisfiesBut(p, s, i);
      FilterRemovesOne(p, s[1..], i - 1);
      FilterKeepsHead(p, s, i);
    }
  }

  lemma TailSatisfiesBut<T(!new)>(p: T -> bool, s: seq<T>, i: nat)
    requires 0 < i < |s|
    requires forall j | 0 <= j < |s| && j != i :: p(s[j])
    ensures p(s[0])
    ensures forall j | 0 <= j < |s| - 1 && j != i - 1 :: p(s[1..][j])
  {
  }

  lemma FilterKeepsHead<T(!new)>(p: T -> bool, s: seq<T>, i: nat)
    requires 0 < i < |s| && p(s[0])
    requires Filter(p, s[1..]) == s[1..][..i - 1] + s[1..][i..]
    ensures Filter(p, s) == s[..i] + s[i + 1..]
  {
    assert Filter(p, s) == [s[0]] + Filter(p, s[1..]);
    ConsSlices(s, i);
  }

  /** Putting the head back in front of the tail without its element `i - 1`. */
  lemma ConsSlices<T>(s: seq<T>, i: nat)
    requires 0 < i < |s|
    ensures [s[0]] + (s[1..][..i - 1] + s[1..][i..]) == s[..i] + s[i + 1..]
  {
    var tail := s[1..];
    assert [s[0]] + tail[..i - 1] == s[..i];
    assert tail[i..] == s[i + 1..];
  }

  lemma FilterKeepsSlice<T(!new)>(p: T -> bool, s: seq<T>, lo: nat, hi: nat)
    requires lo <= hi <= |s|
    requires forall j | lo <= j < hi :: p(s[j])
    ensures Filter(p, s[lo..hi]) == s[lo..hi]
  {
    forall x | x in s[lo..hi] ensures p(x) {
      var j :| 0 <= j < hi - lo && s[lo..hi][j] == x;
      assert s[lo + j] == x;
    }
    FilterKeepsAll(p, s[lo..hi]);
  }

  lemma {:induction false} FilterKeepsAll<T(!new)>(p: T -> bool, s: seq<T>)
    requires forall x | x in s :: p(x)
    ensures Filter(p, s) == s
  {
    if s != [] {
      FilterKeepsAll(p, s[1..]);
    }
  }

  /** Filtering by a weaker condition first does not change the result. */
  lemma {:induction false} FilterOfFilter<T(!new)>(p: T -> bool, q: T -> bool, s: seq<T>)
    requires forall x :: p(x) ==> q(x)
    ensures Filter(p, Filter(q, s)) == Filter(p, s)
  {
    if s != [] {
      FilterOfFilter(p, q, s[1..]);
      if q(s[0]) {
        assert Filter(q, s) == [s[0]] + Filter(q, s[1..]);
        FilterConcat(p, [s[0]], Filter(q, s[1..]));
        assert [s[0]][1..] == [];
        assert Filter(p, [s[0]]) == if p(s[0]) then [s[0]] else [];
      } else {
        assert Filter(q, s) == Filter(q, s[1..]);
      }
    }
  }

  /** No two elements of `s` share a key. */
  ghost predicate Distinct<T(!new), K>(key: T -> K, s: seq<T>)
  {
    forall i, j | 0 <= i < j < |s| :: key(s[i]) != key(s[j])
  }

  lemma {:induction false} FilterDistinct<T(!new), K>(key: T -> K, p: T -> bool, s: seq<T>)
    requires Distinct(key, s)
    ensures Distinct(key, Filter(p, s))
  {
    if s != [] {
      FilterDistinct(key, p, s[1..]);
      var rest := Filter(p, s[1..]);
      if p(s[0]) {
        var r := [s[0]] + rest;
        forall i, j | 0 <= i < j < |r| ensures key(r[i]) != key(r[j]) {
          if i == 0 {
            assert r[j] in s[1..];
          } else {
            assert r[i] == rest[i - 1] && r[j] == rest[j - 1];
          }
        }
      }
    }
  }
}

/** Sequence vocabulary shared by the widget-list and calendar-provider models:
    the Kotlin collection operations the core relies on (`contains`, `remove`, `removeAll`,
    and the "add unless contained" fold) stated as functions over `seq`, and
    what it means for one list to keep some elements of another in
    their order. */
module Seqs {

  datatype Option<T> = None | Some(value: T)

  /** `r` is `s` read at the strictly increasing positions `idx`. */
  ghost predicate SubsequenceAt<T>(r: seq<T>, s: seq<T>, idx: seq<int>) {
    && |idx| == |r|
    && (forall k :: 0 <= k < |idx| ==> 0 <= idx[k] < |s| && s[idx[k]] == r[k])
    && (forall k1, k2 :: 0 <= k1 < k2 < |idx| ==> idx[k1] < idx[k2])
  }

  /** `r` keeps some of the elements of `s`, in their order in `s`. */
  ghost predicate IsSubsequence<T>(r: seq<T>, s: seq<T>) {
    exists idx :: SubsequenceAt(r, s, idx)
  }

  lemma SubsequenceEmpty<T>()
    ensures IsSubsequence<T>([], [])
  {
    assert SubsequenceAt<T>([], [], []);
  }

  /** Reading one more element of `s`, kept or dropped, extends a subsequence. */
  lemma SubsequenceSnoc<T>(r: seq<T>, s: seq<T>, x: T, keep: bool)
    requires IsSubsequence(r, s)
    ensures IsSubsequence(r + (if keep then [x] else []), s + [x])
  {
    var idx :| SubsequenceAt(r, s, idx);
    var idx' := if keep then idx + [|s|] else idx;
    assert SubsequenceAt(r + (if keep then [x] else []), s + [x], idx');
  }

  /** No value occurs twice. */
  predicate NoDuplicates<T(==)>(s: seq<T>) {
    forall i, j :: 0 <= i < j < |s| ==> s[i] != s[j]
  }

  lemma NoDuplicatesAppend<T>(s: seq<T>, x: T)
    requires NoDuplicates(s) && x !in s
    ensures NoDuplicates(s + [x])
  {
    var t := s + [x];
    forall i, j | 0 <= i < j < |t| ensures t[i] != t[j] {
      if j == |s| {
        assert t[i] == s[i];
      } else {
        assert t[i] == s[i] && t[j] == s[j];
      }
    }
  }

  /** Dropping the last value of a duplicate-free sequence leaves it duplicate-free, without that value. */
  lemma NoDuplicatesInit<T>(s: seq<T>)
    requires NoDuplicates(s) && s != []
    ensures NoDuplicates(s[..|s| - 1]) && s[|s| - 1] !in s[..|s| - 1]
  {
    var p := s[..|s| - 1];
    forall i, j | 0 <= i < j < |p| ensures p[i] != p[j] {
      assert p[i] == s[i] && p[j] == s[j];
    }
  }

  /** Appending two duplicate-free sequences with no common value keeps them duplicate-free. */
  lemma NoDuplicatesConcat<T>(a: seq<T>, b: seq<T>)
    requires NoDuplicates(a) && NoDuplicates(b)
    requires forall x :: x in a ==> x !in b
    ensures NoDuplicates(a + b)
  {
    var t := a + b;
    forall i, j | 0 <= i < j < |t| ensures t[i] != t[j] {
      if j < |a| {
        assert t[i] == a[i] && t[j] == a[j];
      } else if i >= |a| {
        assert t[i] == b[i - |a|] && t[j] == b[j - |a|];
      } else {
        assert t[i] == a[i] && t[j] == b[j - |a|];
        assert t[i] in a && t[j] in b;
      }
    }
  }

  /** `MutableList.remove(x)`: drops the first occurrence of `x`, when there is one. */
  function RemoveFirst<T(==)>(s: seq<T>, x: T): (r: seq<T>)
    ensures x !in s ==> r == s
    ensures x in s ==> |r| == |s| - 1
    ensures forall i :: 0 <= i < |r| ==> r[i] in s
  {
    if s == [] then []
    else if s[0] == x then
      assert s == [s[0]] + s[1..];
      s[1..]
    else
      assert s == [s[0]] + s[1..];
      [s[0]] + RemoveFirst(s[1..], x)
  }

  /** `indexOf(x)`: the position of the first occurrence of `x`. */
  function IndexOf<T(==)>(s: seq<T>, x: T): (i: nat)
    requires x in s
    ensures i < |s| && s[i] == x
    ensures forall k :: 0 <= k < i ==> s[k] != x
  {
    if s[0] == x then 0
    else
      assert x in s[1..] by { assert s == [s[0]] + s[1..]; }
      1 + IndexOf(s[1..], x)
  }

  /** `remove(x)` drops exactly the first occurrence of `x`. */
  lemma {:induction false} RemoveFirstDropsFirst<T>(s: seq<T>, x: T)
    requires x in s
    ensures RemoveFirst(s, x) == s[..IndexOf(s, x)] + s[IndexOf(s, x) + 1..]
  {
    var t := s[1..];
    assert s == [s[0]] + t;
    if s[0] != x {
      assert x in t;
      RemoveFirstDropsFirst(t, x);
      var j := IndexOf(t, x);
      calc {
        RemoveFirst(s, x);
        [s[0]] + (t[..j] + t[j + 1..]);
        { assert s[..j + 1] == [s[0]] + t[..j]; assert s[j + 2..] == t[j + 1..]; }
        s[..j + 1] + s[j + 2..];
      }
    }
  }

  /** Removing the first occurrence of a value touches nothing after that occurrence. */
  lemma {:induction false} RemoveFirstConcat<T>(a: seq<T>, b: seq<T>, x: T)
    requires x in a
    ensures RemoveFirst(a + b, x) == RemoveFirst(a, x) + b
  {
    assert a != [];
    assert (a + b)[0] == a[0] && (a + b)[1..] == a[1..] + b;
    if a[0] != x {
      RemoveFirstConcat(a[1..], b, x);
    }
  }

  /** Removing a value absent from the front part touches only the back part. */
  lemma {:induction false} RemoveFirstConcatAbsent<T>(a: seq<T>, b: seq<T>, x: T)
    requires x !in a
    ensures RemoveFirst(a + b, x) == a + RemoveFirst(b, x)
  {
    if a != [] {
      assert a[0] != x;
      calc {
        RemoveFirst(a + b, x);
        { assert (a + b)[0] == a[0] && (a + b)[1..] == a[1..] + b; }
        [a[0]] + RemoveFirst(a[1..] + b, x);
        { RemoveFirstConcatAbsent(a[1..], b, x); }
        [a[0]] + (a[1..] + RemoveFirst(b, x));
        { assert a == [a[0]] + a[1..]; }
        a + RemoveFirst(b, x);
      }
    } else {
      assert a + b == b;
    }
  }

  /** In a duplicate-free sequence, removing the first occurrence removes every occurrence. */
  lemma {:induction false} RemoveFirstOfNoDuplicates<T>(s: seq<T>, x: T)
    requires NoDuplicates(s)
    ensures x !in RemoveFirst(s, x)
    ensures forall y :: y != x ==> (y in RemoveFirst(s, x) <==> y in s)
    ensures NoDuplicates(RemoveFirst(s, x))
  {
    if s != [] {
      var t := s[1..];
      assert s == [s[0]] + t;
      assert NoDuplicates(t) by {
        forall i, j | 0 <= i < j < |t| ensures t[i] != t[j] {
          assert t[i] == s[i + 1] && t[j] == s[j + 1];
        }
      }
      assert s[0] !in t by {
        forall j | 0 <= j < |t| ensures t[j] != s[0] {
          assert t[j] == s[j + 1];
        }
      }
      RemoveFirstOfNoDuplicates(t, x);
      if s[0] != x {
        var rt := RemoveFirst(t, x);
        assert s[0] !in rt;
        NoDuplicatesConcat([s[0]], rt);
      }
    }
  }

  /** `MutableList.removeAll(xs)`: keeps, in order, the elements of `s` equal to no element of `xs`. */
  function WithoutAll<T(==)>(s: seq<T>, xs: seq<T>): (r: seq<T>)
    ensures forall i :: 0 <= i < |r| ==> r[i] in s && r[i] !in xs
    ensures forall i :: 0 <= i < |s| && s[i] !in xs ==> s[i] in r
    ensures |r| <= |s|
  {
    if s == [] then []
    else
      assert s == s[..|s| - 1] + [s[|s| - 1]];
      WithoutAll(s[..|s| - 1], xs) + (if s[|s| - 1] in xs then [] else [s[|s| - 1]])
  }

  /** `removeAll` keeps the remaining elements in their order. */
  lemma {:induction false} WithoutAllIsSubsequence<T>(s: seq<T>, xs: seq<T>)
    ensures IsSubsequence(WithoutAll(s, xs), s)
  {
    if s == [] {
      SubsequenceEmpty<T>();
    } else {
      var p, last := s[..|s| - 1], s[|s| - 1];
      WithoutAllIsSubsequence(p, xs);
      SubsequenceSnoc(WithoutAll(p, xs), p, last, last !in xs);
      assert s == p + [last];
    }
  }

  /** `removeAll` keeps every copy of a value it does not remove. */
  lemma {:induction false} WithoutAllCounts<T>(s: seq<T>, xs: seq<T>)
    ensures forall x :: multiset(WithoutAll(s, xs))[x] == if x !in xs then multiset(s)[x] else 0
  {
    if s != [] {
      var p, last := s[..|s| - 1], s[|s| - 1];
      WithoutAllCounts(p, xs);
      assert s == p + [last];
      assert multiset(s) == multiset(p) + multiset{last};
      assert multiset(WithoutAll(s, xs)) == multiset(WithoutAll(p, xs)) + multiset(if last !in xs then [last] else []);
    }
  }

  /** Removing nothing changes nothing. */
  lemma {:induction false} WithoutAllNone<T>(s: seq<T>)
    ensures WithoutAll(s, []) == s
  {
    if s != [] {
      WithoutAllNone(s[..|s| - 1]);
      assert s == s[..|s| - 1] + [s[|s| - 1]];
    }
  }

  lemma {:induction false} WithoutAllNoDuplicates<T>(s: seq<T>, xs: seq<T>)
    requires NoDuplicates(s)
    ensures NoDuplicates(WithoutAll(s, xs))
  {
    if s != [] {
      var p := s[..|s| - 1];
      WithoutAllNoDuplicates(p, xs);
      if s[|s| - 1] !in xs {
        assert s[|s| - 1] !in p;
        NoDuplicatesAppend(WithoutAll(p, xs), s[|s| - 1]);
      }
    }
  }

  /** Removing one more value from an already filtered list. */
  lemma {:induction false} WithoutAllSnoc<T>(s: seq<T>, xs: seq<T>, x: T)
    requires NoDuplicates(s)
    ensures WithoutAll(s, xs + [x]) == RemoveFirst(WithoutAll(s, xs), x)
  {
    if s != [] {
      var p, last := s[..|s| - 1], s[|s| - 1];
      assert s == p + [last];
      assert NoDuplicates(p) by {
        forall i, j | 0 <= i < j < |p| ensures p[i] != p[j] {
          assert p[i] == s[i] && p[j] == s[j];
        }
      }
      assert last !in p;
      WithoutAllSnoc(p, xs, x);
      var w := WithoutAll(p, xs);
      assert WithoutAll(s, xs) == w + (if last in xs then [] else [last]);
      assert (last in xs + [x]) == (last in xs || last == x);
      assert WithoutAll(s, xs + [x]) == WithoutAll(p, xs + [x]) + (if last in xs + [x] then [] else [last]);
      if last in xs {
        assert WithoutAll(s, xs) == w + [] == w;
      } else if last == x {
        assert x !in w;
        RemoveFirstConcatAbsent(w, [x], x);
        assert RemoveFirst([x], x) == [];
        assert WithoutAll(s, xs + [x]) == RemoveFirst(WithoutAll(s, xs), x);
      } else if x in w {
        RemoveFirstConcat(w, [last], x);
        assert WithoutAll(s, xs + [x]) == RemoveFirst(WithoutAll(s, xs), x);
      } else {
        RemoveFirstConcatAbsent(w, [last], x);
        assert RemoveFirst([last], x) == [last];
        assert WithoutAll(s, xs + [x]) == RemoveFirst(WithoutAll(s, xs), x);
      }
    }
  }

  /** The values of `s` in order of first occurrence, each once. */
  function Distinct<T(==)>(s: seq<T>): (r: seq<T>)
    ensures NoDuplicates(r)
    ensures forall i :: 0 <= i < |r| ==> r[i] in s
    ensures forall i :: 0 <= i < |s| ==> s[i] in r
  {
    if s == [] then []
    else
      var d, last := Distinct(s[..|s| - 1]), s[|s| - 1];
      assert s == s[..|s| - 1] + [last];
      if last in d then d
      else
        NoDuplicatesAppend(d, last);
        d + [last]
  }

  /** The fold keeps the first occurrence of each value, in input order. */
  lemma {:induction false} DistinctIsSubsequence<T>(s: seq<T>)
    ensures IsSubsequence(Distinct(s), s)
  {
    if s == [] {
      SubsequenceEmpty<T>();
    } else {
      var p, last := s[..|s| - 1], s[|s| - 1];
      DistinctIsSubsequence(p);
      SubsequenceSnoc(Distinct(p), p, last, last !in Distinct(p));
      assert Distinct(s) == Distinct(p) + (if last !in Distinct(p) then [last] else []);
      assert s == p + [last];
    }
  }

  /** Appending a value does not move the first occurrence of a value already present. */
  lemma {:induction false} IndexOfAppend<T>(p: seq<T>, y: T, z: T)
    requires y in p
    ensures IndexOf(p + [z], y) == IndexOf(p, y)
  {
    assert (p + [z])[0] == p[0];
    if p[0] != y {
      assert p == [p[0]] + p[1..];
      assert (p + [z])[1..] == p[1..] + [z];
      IndexOfAppend(p[1..], y, z);
    }
  }

  /** The fold lists the values in the order of their first occurrence. */
  lemma {:induction false} DistinctFirstOccurrenceOrder<T>(s: seq<T>)
    ensures forall i, j :: 0 <= i < j < |Distinct(s)| ==> IndexOf(s, Distinct(s)[i]) < IndexOf(s, Distinct(s)[j])
  {
    if s != [] {
      var p, last := s[..|s| - 1], s[|s| - 1];
      assert s == p + [last];
      var d := Distinct(p);
      DistinctFirstOccurrenceOrder(p);
      forall y | y in d ensures IndexOf(s, y) == IndexOf(p, y) && IndexOf(p, y) < |p| {
        IndexOfAppend(p, y, last);
      }
      if last !in d {
        assert last !in p;
        assert IndexOf(s, last) == |p|;
        assert Distinct(s) == d + [last];
      } else {
        assert Distinct(s) == d;
      }
    }
  }
}

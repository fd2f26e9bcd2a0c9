/** `Array.prototype.filter` and `map` as functions on sequences, with the facts
    the result-selection code needs: what a filter keeps, that it keeps page
    order, and how two filters in a row combine. */
module Seqs {

  /** `s.filter(keep)` */
  function Filter<T>(s: seq<T>, keep: T -> bool): (r: seq<T>)
    ensures |r| <= |s|
    ensures forall i :: 0 <= i < |r| ==> keep(r[i])
    decreases |s|
  {
    if s == [] then []
    else (if keep(s[0]) then [s[0]] else []) + Filter(s[1..], keep)
  }

  /** `s.map(f)` */
  function Map<T, U>(s: seq<T>, f: T -> U): (r: seq<U>)
    ensures |r| == |s| && forall i :: 0 <= i < |s| ==> r[i] == f(s[i])
  {
    seq(|s|, i requires 0 <= i < |s| => f(s[i]))
  }

  /** `s.flatMap(f)`: the outputs `f` gives for the elements of `s`, concatenated in order. */
  function FlatMap<T, U>(s: seq<T>, f: T -> seq<U>): seq<U>
    decreases |s|
  {
    if s == [] then [] else FlatMap(s[..|s| - 1], f) + f(s[|s| - 1])
  }

  /** Elements contribute independently and in order. */
  lemma {:induction false} FlatMapAppend<T, U>(a: seq<T>, b: seq<T>, f: T -> seq<U>)
    ensures FlatMap(a + b, f) == FlatMap(a, f) + FlatMap(b, f)
    decreases |b|
  {
    if b == [] {
      assert a + b == a;
    } else {
      var b' := b[..|b| - 1];
      assert (a + b)[..|a + b| - 1] == a + b';
      FlatMapAppend(a, b', f);
    }
  }

  /** When every element contributes one output if it passes `keep` and none
      otherwise, there are as many outputs as elements passing `keep`. */
  lemma {:induction false} FlatMapCount<T, U>(s: seq<T>, f: T -> seq<U>, keep: T -> bool)
    requires forall x :: |f(x)| == if keep(x) then 1 else 0
    ensures |FlatMap(s, f)| == |Filter(s, keep)|
    decreases |s|
  {
    if s != [] {
      var init, last := s[..|s| - 1], s[|s| - 1];
      FlatMapCount(init, f, keep);
      assert s == init + [last];
      FilterAppend(init, [last], keep);
    }
  }

  /** Elementwise shorter outputs give a shorter concatenation. */
  lemma {:induction false} FlatMapShorter<T, U, V>(s: seq<T>, f: T -> seq<U>, g: T -> seq<V>)
    requires forall x :: |f(x)| <= |g(x)|
    ensures |FlatMap(s, f)| <= |FlatMap(s, g)|
    decreases |s|
  {
    if s != [] {
      FlatMapShorter(s[..|s| - 1], f, g);
    }
  }

  lemma FlatMapOne<T, U>(x: T, f: T -> seq<U>)
    ensures FlatMap([x], f) == f(x)
  {
    assert [x][..0] == [];
  }

  /** The first non-empty output `f` gives along `s`, or nothing when all are empty. */
  function FirstNonEmpty<T, U>(s: seq<T>, f: T -> seq<U>): seq<U>
    decreases |s|
  {
    if s == [] then []
    else if f(s[0]) != [] then f(s[0])
    else FirstNonEmpty(s[1..], f)
  }

  /** The result is empty exactly when every output is, and otherwise the output
      of the first element whose output is not empty. */
  lemma {:induction false} FirstNonEmptyIsFirst<T, U>(s: seq<T>, f: T -> seq<U>)
    ensures FirstNonEmpty(s, f) == [] <==> forall k :: 0 <= k < |s| ==> f(s[k]) == []
    ensures FirstNonEmpty(s, f) != [] ==>
      exists k :: 0 <= k < |s| && FirstNonEmpty(s, f) == f(s[k]) && forall j :: 0 <= j < k ==> f(s[j]) == []
    decreases |s|
  {
    if s != [] && f(s[0]) == [] {
      var rest := s[1..];
      FirstNonEmptyIsFirst(rest, f);
      assert forall k :: 1 <= k < |s| ==> s[k] == rest[k - 1];
      if FirstNonEmpty(rest, f) != [] {
        var k :| 0 <= k < |rest| && FirstNonEmpty(rest, f) == f(rest[k]) && forall j :: 0 <= j < k ==> f(rest[j]) == [];
        assert FirstNonEmpty(s, f) == f(s[k + 1]);
      }
    }
  }

  /** Mapping a concatenation maps both parts, in order. */
  lemma MapAppend<T, U>(a: seq<T>, b: seq<T>, f: T -> U)
    ensures Map(a + b, f) == Map(a, f) + Map(b, f)
  {
    assert forall i :: 0 <= i < |b| ==> (a + b)[|a| + i] == b[i];
  }

  /** Mapping a non-empty sequence maps its front and then its last element. */
  lemma MapSnoc<T, U>(s: seq<T>, f: T -> U)
    requires s != []
    ensures Map(s, f) == Map(s[..|s| - 1], f) + [f(s[|s| - 1])]
  {
  }

  /** `r` is `s` with some elements left out and the rest in their order. */
  predicate IsSubsequence<T(==)>(r: seq<T>, s: seq<T>)
    decreases |s|
  {
    if r == [] then true
    else if s == [] then false
    else if r[0] == s[0] then IsSubsequence(r[1..], s[1..])
    else IsSubsequence(r, s[1..])
  }

  /** A filter keeps exactly the elements that pass it. */
  lemma {:induction false} FilterMembership<T>(s: seq<T>, keep: T -> bool, x: T)
    ensures x in Filter(s, keep) <==> x in s && keep(x)
    decreases |s|
  {
    if s != [] {
      FilterMembership(s[1..], keep, x);
      assert s == [s[0]] + s[1..];
    }
  }

  /** Filtering a concatenation filters both parts and keeps them in order. */
  lemma {:induction false} FilterAppend<T>(a: seq<T>, b: seq<T>, keep: T -> bool)
    ensures Filter(a + b, keep) == Filter(a, keep) + Filter(b, keep)
    decreases |a|
  {
    if a == [] {
      assert a + b == b;
    } else {
      assert (a + b)[0] == a[0] && (a + b)[1..] == a[1..] + b;
      FilterAppend(a[1..], b, keep);
    }
  }

  /** Two filters in a row keep what passes both. */
  lemma {:induction false} FilterTwice<T>(s: seq<T>, p: T -> bool, q: T -> bool, both: T -> bool)
    requires forall x :: both(x) == (p(x) && q(x))
    ensures Filter(Filter(s, p), q) == Filter(s, both)
    decreases |s|
  {
    if s != [] {
      FilterTwice(s[1..], p, q, both);
      var head := if p(s[0]) then [s[0]] else [];
      FilterAppend(head, Filter(s[1..], p), q);
    }
  }

  /** The last element a filter keeps is the last element of the input that
      passes it, and a filter keeps nothing exactly when nothing passes. */
  lemma FilterLast<T>(s: seq<T>, keep: T -> bool)
    ensures Filter(s, keep) == [] <==> forall i :: 0 <= i < |s| ==> !keep(s[i])
    ensures Filter(s, keep) != [] ==>
      exists i :: 0 <= i < |s| && keep(s[i]) && Filter(s, keep)[|Filter(s, keep)| - 1] == s[i] &&
        forall j :: i < j < |s| ==> !keep(s[j])
  {
    FilterEmptyIff(s, keep);
    if Filter(s, keep) != [] {
      FilterLastKept(s, keep);
    }
  }

  lemma {:induction false} FilterEmptyIff<T>(s: seq<T>, keep: T -> bool)
    ensures Filter(s, keep) == [] <==> forall i :: 0 <= i < |s| ==> !keep(s[i])
    decreases |s|
  {
    if s != [] {
      FilterEmptyIff(s[1..], keep);
      assert forall i :: 1 <= i < |s| ==> s[i] == s[1..][i - 1];
    }
  }

  lemma {:induction false} FilterLastKept<T>(s: seq<T>, keep: T -> bool)
    requires Filter(s, keep) != []
    ensures exists i ::
      0 <= i < |s| && keep(s[i]) && Filter(s, keep)[|Filter(s, keep)| - 1] == s[i] &&
      forall j :: i < j < |s| ==> !keep(s[j])
    decreases |s|
  {
    var init, last := s[..|s| - 1], s[|s| - 1];
    assert s == init + [last];
    FilterAppend(init, [last], keep);
    if keep(last) {
      assert Filter([last], keep) == [last];
      assert Filter(s, keep)[|Filter(s, keep)| - 1] == s[|s| - 1];
    } else {
      assert Filter([last], keep) == [];
      assert Filter(s, keep) == Filter(init, keep);
      FilterLastKept(init, keep);
      var i :| 0 <= i < |init| && keep(init[i]) && Filter(init, keep)[|Filter(init, keep)| - 1] == init[i] &&
        forall j :: i < j < |init| ==> !keep(init[j]);
      assert s[i] == init[i];
      assert forall j :: i < j < |s| ==> !keep(s[j]);
    }
  }

  /** What a filter keeps is a subsequence of its input: page order is preserved. */
  lemma {:induction false} FilterIsSubsequence<T>(s: seq<T>, keep: T -> bool)
    ensures IsSubsequence(Filter(s, keep), s)
    decreases |s|
  {
    if s != [] {
      var r := Filter(s[1..], keep);
      FilterIsSubsequence(s[1..], keep);
      if keep(s[0]) {
        assert Filter(s, keep) == [s[0]] + r;
        assert ([s[0]] + r)[1..] == r;
      } else {
        assert Filter(s, keep) == r;
        SubsequenceOfTail(r, s);
      }
    }
  }

  /** Anything that is a subsequence of the tail is one of the whole sequence. */
  lemma {:induction false} SubsequenceOfTail<T>(r: seq<T>, s: seq<T>)
    requires s != [] && IsSubsequence(r, s[1..])
    ensures IsSubsequence(r, s)
    decreases |s|, 0
  {
    if r != [] && r[0] == s[0] {
      SubsequenceDropHead(r, s[1..]);
    }
  }

  /** A subsequence stays one after its first element is removed. */
  lemma {:induction false} SubsequenceDropHead<T>(r: seq<T>, s: seq<T>)
    requires r != [] && IsSubsequence(r, s)
    ensures IsSubsequence(r[1..], s)
    decreases |s|, 1
  {
    if r[0] == s[0] {
      SubsequenceOfTail(r[1..], s);
    } else {
      SubsequenceDropHead(r, s[1..]);
      SubsequenceOfTail(r[1..], s);
    }
  }
}

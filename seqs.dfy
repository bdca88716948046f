/** Generic sequence operations that several parts of the picker share:
    order-preserving filtering (Array.prototype.filter) and dropping a run
    of matching elements from either end of a sequence. */
module Seqs {

  /** `a` can be obtained from `b` by deleting elements, keeping the order of the rest. */
  predicate IsSubsequence<T(==)>(a: seq<T>, b: seq<T>)
  {
    a == [] ||
    (b != [] && ((a[0] == b[0] && IsSubsequence(a[1..], b[1..])) || IsSubsequence(a, b[1..])))
  }

  lemma {:induction false} SubsequenceReflexive<T>(s: seq<T>)
    ensures IsSubsequence(s, s)
  {
    if s != [] {
      SubsequenceReflexive(s[1..]);
    }
  }

  /** The elements of `s` that satisfy `p`, in their original order. */
  function Filter<T(==)>(s: seq<T>, p: T -> bool): (r: seq<T>)
    ensures |r| <= |s|
    ensures forall x :: x in r ==> x in s && p(x)
    ensures forall x :: x in s && p(x) ==> x in r
    ensures IsSubsequence(r, s)
  {
    if s == [] then []
    else if p(s[0]) then [s[0]] + Filter(s[1..], p)
    else Filter(s[1..], p)
  }

  lemma {:induction false} FilterAllPass<T>(s: seq<T>, p: T -> bool)
    requires forall i :: 0 <= i < |s| ==> p(s[i])
    ensures Filter(s, p) == s
  {
    if s != [] {
      FilterAllPass(s[1..], p);
    }
  }

  lemma {:induction false} FilterNonePass<T>(s: seq<T>, p: T -> bool)
    requires forall i :: 0 <= i < |s| ==> !p(s[i])
    ensures Filter(s, p) == []
  {
    if s != [] {
      FilterNonePass(s[1..], p);
    }
  }

  /** Filtering twice with the same predicate is filtering once. */
  lemma {:induction false} FilterIdempotent<T>(s: seq<T>, p: T -> bool)
    ensures Filter(Filter(s, p), p) == Filter(s, p)
  {
    var r := Filter(s, p);
    assert forall i :: 0 <= i < |r| ==> p(r[i]) by {
      forall i | 0 <= i < |r| ensures p(r[i]) {
        assert r[i] in r;
      }
    }
    FilterAllPass(r, p);
  }

  /** Filtering distributes over concatenation, so it keeps relative order. */
  lemma {:induction false} FilterAppend<T>(a: seq<T>, b: seq<T>, p: T -> bool)
    ensures Filter(a + b, p) == Filter(a, p) + Filter(b, p)
  {
    if a == [] {
      assert a + b == b;
    } else {
      assert (a + b)[1..] == a[1..] + b;
      FilterAppend(a[1..], b, p);
    }
  }

  /** Filtering by `p` and then by `q` is filtering by their conjunction `pq`. */
  lemma {:induction false} FilterFilter<T>(s: seq<T>, p: T -> bool, q: T -> bool, pq: T -> bool)
    requires forall x :: pq(x) == (p(x) && q(x))
    ensures Filter(Filter(s, p), q) == Filter(s, pq)
  {
    if s != [] {
      FilterFilter(s[1..], p, q, pq);
      if p(s[0]) {
        assert ([s[0]] + Filter(s[1..], p))[1..] == Filter(s[1..], p);
      }
    }
  }

  /** A prefix whose elements all fail `p` does not change the filter. */
  lemma FilterSkipPrefix<T>(s: seq<T>, k: nat, p: T -> bool)
    requires k <= |s|
    requires forall i :: 0 <= i < k ==> !p(s[i])
    ensures Filter(s, p) == Filter(s[k..], p)
  {
    assert s == s[..k] + s[k..];
    FilterAppend(s[..k], s[k..], p);
    FilterNonePass(s[..k], p);
  }

  /** Filtering keeps every copy of an element that passes and none of one that fails. */
  lemma {:induction false} FilterMultiset<T>(s: seq<T>, p: T -> bool)
    ensures forall x :: multiset(Filter(s, p))[x] == if p(x) then multiset(s)[x] else 0
  {
    if s != [] {
      FilterMultiset(s[1..], p);
      assert s == [s[0]] + s[1..];
    }
  }

  /** `r` is `s` with elements satisfying `p` removed from its two ends only. */
  ghost predicate StripsEnds<T>(s: seq<T>, r: seq<T>, p: T -> bool)
  {
    exists i: nat, j: nat :: StripsEndsAt(s, r, p, i, j)
  }

  /** `r` is `s[i..j]`, and everything outside that slice satisfies `p`. */
  ghost predicate StripsEndsAt<T>(s: seq<T>, r: seq<T>, p: T -> bool, i: nat, j: nat)
  {
    i <= j <= |s| && r == s[i..j] &&
    (forall k :: 0 <= k < i ==> p(s[k])) && (forall k :: j <= k < |s| ==> p(s[k]))
  }

  /** `s` without its longest prefix of elements satisfying `p`. */
  function DropWhile<T>(s: seq<T>, p: T -> bool): (r: seq<T>)
    ensures |r| <= |s| && r == s[|s| - |r|..]
    ensures forall i :: 0 <= i < |s| - |r| ==> p(s[i])
    ensures r != [] ==> !p(r[0])
  {
    if s != [] && p(s[0]) then DropWhile(s[1..], p) else s
  }

  /** `s` without its longest suffix of elements satisfying `p`. */
  function DropWhileEnd<T>(s: seq<T>, p: T -> bool): (r: seq<T>)
    ensures |r| <= |s| && r == s[..|r|]
    ensures forall i :: |r| <= i < |s| ==> p(s[i])
    ensures r != [] ==> !p(r[|r| - 1])
  {
    if s != [] && p(s[|s| - 1]) then DropWhileEnd(s[..|s| - 1], p) else s
  }

  /** Dropping from the front and then from the back only strips the two ends. */
  lemma StripsEndsOfDrop<T>(s: seq<T>, p: T -> bool)
    ensures StripsEnds(s, DropWhileEnd(DropWhile(s, p), p), p)
  {
    var u := DropWhile(s, p);
    var r := DropWhileEnd(u, p);
    StripsFront(s, p);
    StripsBack(u, p);
    StripsEndsCompose(s, u, r, p, |s| - |u|, |r|);
  }

  lemma StripsFront<T>(s: seq<T>, p: T -> bool)
    ensures StripsEndsAt(s, DropWhile(s, p), p, |s| - |DropWhile(s, p)|, |s|)
  {
    var u := DropWhile(s, p);
    var i := |s| - |u|;
    assert u == s[i..];
    assert s[i..] == s[i..|s|];
  }

  lemma StripsBack<T>(s: seq<T>, p: T -> bool)
    ensures StripsEndsAt(s, DropWhileEnd(s, p), p, 0, |DropWhileEnd(s, p)|)
  {
  }

  /** Stripping the front of `s` and then the back of the rest strips both ends of `s`. */
  lemma StripsEndsCompose<T>(s: seq<T>, u: seq<T>, r: seq<T>, p: T -> bool, i: nat, m: nat)
    requires StripsEndsAt(s, u, p, i, |s|)
    requires StripsEndsAt(u, r, p, 0, m)
    ensures StripsEndsAt(s, r, p, i, i + m)
  {
    forall k | i + m <= k < |s| ensures p(s[k]) {
      assert s[k] == u[k - i];
    }
  }

  /** Stripping elements that `q` rejects from the ends does not change the filter by `q`. */
  lemma FilterStripsEnds<T>(s: seq<T>, r: seq<T>, p: T -> bool, q: T -> bool)
    requires StripsEnds(s, r, p)
    requires forall x :: p(x) ==> !q(x)
    ensures Filter(r, q) == Filter(s, q)
  {
    var i: nat, j: nat :| StripsEndsAt(s, r, p, i, j);
    FilterSkipSuffix(s, j, q);
    FilterSkipPrefix(s[..j], i, q);
    assert s[..j][i..] == r;
  }

  /** A suffix whose elements all fail `p` does not change the filter. */
  lemma FilterSkipSuffix<T>(s: seq<T>, j: nat, p: T -> bool)
    requires j <= |s|
    requires forall k :: j <= k < |s| ==> !p(s[k])
    ensures Filter(s, p) == Filter(s[..j], p)
  {
    assert s == s[..j] + s[j..];
    FilterAppend(s[..j], s[j..], p);
    assert forall k :: 0 <= k < |s| - j ==> s[j..][k] == s[j + k];
    FilterNonePass(s[j..], p);
  }

  /** What position `i` of `s` contributes when every maximal run of
      elements satisfying `p` is replaced by one `rep`: an element outside
      a run is kept, the first element of a run becomes `rep`, and every
      later element of the run contributes nothing. */
  function RunPiece<T>(s: seq<T>, p: T -> bool, rep: T, i: nat): seq<T>
    requires i < |s|
  {
    if !p(s[i]) then [s[i]]
    else if i > 0 && p(s[i - 1]) then []
    else [rep]
  }

  /** The pieces of positions `k`, `k + 1`, ... of `s`, in order. */
  function CollapseFrom<T>(s: seq<T>, p: T -> bool, rep: T, k: nat): seq<T>
    requires k <= |s|
    decreases |s| - k
  {
    if k == |s| then [] else RunPiece(s, p, rep, k) + CollapseFrom(s, p, rep, k + 1)
  }

  /** `s` with every maximal run of elements satisfying `p` replaced by one
      `rep`, stated position by position. */
  function CollapseRuns<T>(s: seq<T>, p: T -> bool, rep: T): seq<T>
  {
    CollapseFrom(s, p, rep, 0)
  }

  /** Past position `k`, a position's piece depends only on `s[k..]`. */
  lemma {:induction false} CollapseShift<T>(s: seq<T>, p: T -> bool, rep: T, k: nat, j: nat)
    requires k < j <= |s|
    ensures CollapseFrom(s, p, rep, j) == CollapseFrom(s[k..], p, rep, j - k)
    decreases |s| - j
  {
    var t := s[k..];
    if j < |s| {
      RunPieceShift(s, p, rep, k, j);
      CollapseShift(s, p, rep, k, j + 1);
      assert CollapseFrom(s, p, rep, j) == RunPiece(s, p, rep, j) + CollapseFrom(s, p, rep, j + 1);
      assert CollapseFrom(t, p, rep, j - k) == RunPiece(t, p, rep, j - k) + CollapseFrom(t, p, rep, j + 1 - k);
    } else {
      assert j - k == |t|;
    }
  }

  lemma RunPieceShift<T>(s: seq<T>, p: T -> bool, rep: T, k: nat, j: nat)
    requires k < j < |s|
    ensures RunPiece(s, p, rep, j) == RunPiece(s[k..], p, rep, j - k)
  {
    assert s[k..][j - k] == s[j] && s[k..][j - k - 1] == s[j - 1];
  }

  /** At a position where no run is cut in two, the rest of the collapse is
      the collapse of the rest. */
  lemma CollapseFromSuffix<T>(s: seq<T>, p: T -> bool, rep: T, k: nat)
    requires k <= |s|
    requires k == 0 || k == |s| || !p(s[k - 1]) || !p(s[k])
    ensures CollapseFrom(s, p, rep, k) == CollapseRuns(s[k..], p, rep)
  {
    if k < |s| {
      assert s[k..][0] == s[k];
      assert RunPiece(s, p, rep, k) == RunPiece(s[k..], p, rep, 0);
      CollapseShift(s, p, rep, k, k + 1);
    }
  }

  /** The later elements of a run contribute nothing. */
  lemma {:induction false} CollapseSkipRun<T>(s: seq<T>, p: T -> bool, rep: T, i: nat, m: nat)
    requires 1 <= i <= m <= |s|
    requires forall k :: i - 1 <= k < m ==> p(s[k])
    ensures CollapseFrom(s, p, rep, i) == CollapseFrom(s, p, rep, m)
    decreases m - i
  {
    if i < m {
      assert RunPiece(s, p, rep, i) == [];
      CollapseSkipRun(s, p, rep, i + 1, m);
    }
  }

  /** The collapse read run by run: an element outside a run is kept, and a
      run becomes one `rep` followed by the collapse of what follows the run. */
  lemma CollapseRunsCons<T>(s: seq<T>, p: T -> bool, rep: T)
    requires s != []
    ensures !p(s[0]) ==> CollapseRuns(s, p, rep) == [s[0]] + CollapseRuns(s[1..], p, rep)
    ensures p(s[0]) ==> CollapseRuns(s, p, rep) == [rep] + CollapseRuns(DropWhile(s[1..], p), p, rep)
  {
    if p(s[0]) {
      var rest := DropWhile(s[1..], p);
      var m := |s| - |rest|;
      assert rest == s[m..];
      assert forall k :: 1 <= k < m ==> s[k] == s[1..][k - 1];
      CollapseSkipRun(s, p, rep, 1, m);
      if m < |s| {
        assert s[m] == rest[0];
      }
      CollapseFromSuffix(s, p, rep, m);
    } else {
      CollapseFromSuffix(s, p, rep, 1);
    }
  }

  /** A head without elements satisfying `p` passes through the collapse unchanged. */
  lemma CollapsePlainPrefix<T>(x: seq<T>, t: seq<T>, p: T -> bool, rep: T)
    requires forall i :: 0 <= i < |x| ==> !p(x[i])
    ensures CollapseRuns(x + t, p, rep) == x + CollapseRuns(t, p, rep)
  {
    var u := x + t;
    CollapsePlainFrom(x, t, p, rep, 0);
    CollapseFromSuffix(u, p, rep, |x|);
    assert u[|x|..] == t;
    assert x[0..] == x;
  }

  lemma {:induction false} CollapsePlainFrom<T>(x: seq<T>, t: seq<T>, p: T -> bool, rep: T, i: nat)
    requires i <= |x|
    requires forall k :: 0 <= k < |x| ==> !p(x[k])
    ensures CollapseFrom(x + t, p, rep, i) == x[i..] + CollapseFrom(x + t, p, rep, |x|)
    decreases |x| - i
  {
    var u := x + t;
    var c := CollapseFrom(u, p, rep, |x|);
    if i < |x| {
      assert u[i] == x[i];
      assert CollapseFrom(u, p, rep, i) == [x[i]] + CollapseFrom(u, p, rep, i + 1);
      CollapsePlainFrom(x, t, p, rep, i + 1);
      assert x[i..] + c == [x[i]] + (x[i + 1..] + c);
    } else {
      assert x[i..] + c == c;
    }
  }

  /** The results of `f` on the elements of `s`, concatenated in order. */
  function FlatMap<A, B>(s: seq<A>, f: A -> seq<B>): seq<B>
  {
    if s == [] then [] else f(s[0]) + FlatMap(s[1..], f)
  }

  lemma {:induction false} FlatMapAppend<A, B>(a: seq<A>, b: seq<A>, f: A -> seq<B>)
    ensures FlatMap(a + b, f) == FlatMap(a, f) + FlatMap(b, f)
  {
    if a == [] {
      assert a + b == b;
    } else {
      assert (a + b)[1..] == a[1..] + b;
      FlatMapAppend(a[1..], b, f);
    }
  }

  lemma FlatMapSnoc<A, B>(s: seq<A>, x: A, f: A -> seq<B>)
    ensures FlatMap(s + [x], f) == FlatMap(s, f) + f(x)
  {
    FlatMapAppend(s, [x], f);
    assert FlatMap([x], f) == f(x) + FlatMap([], f);
  }

  /** An element that yields nothing can be deleted, wherever it stands. */
  lemma FlatMapSkip<A, B>(a: seq<A>, x: A, b: seq<A>, f: A -> seq<B>)
    requires f(x) == []
    ensures FlatMap(a + [x] + b, f) == FlatMap(a + b, f)
  {
    FlatMapAppend(a + [x], b, f);
    FlatMapSnoc(a, x, f);
    FlatMapAppend(a, b, f);
  }

  /** When `f` yields at most one element, the result is no longer than `s`. */
  lemma {:induction false} FlatMapAtMostOne<A, B>(s: seq<A>, f: A -> seq<B>)
    requires forall x :: x in s ==> |f(x)| <= 1
    ensures |FlatMap(s, f)| <= |s|
  {
    if s != [] {
      assert s[0] in s;
      FlatMapAtMostOne(s[1..], f);
    }
  }

  /** When `f` yields exactly one element, element i comes from s[i]. */
  lemma {:induction false} FlatMapExactlyOne<A, B>(s: seq<A>, f: A -> seq<B>)
    requires forall x :: x in s ==> |f(x)| == 1
    ensures |FlatMap(s, f)| == |s|
    ensures forall i :: 0 <= i < |s| ==> FlatMap(s, f)[i] == f(s[i])[0]
  {
    if s != [] {
      assert s[0] in s;
      FlatMapExactlyOne(s[1..], f);
      assert forall i :: 1 <= i < |s| ==> s[1..][i - 1] == s[i];
    }
  }

  /** Every element of the result comes from some element of `s`. */
  lemma {:induction false} FlatMapMember<A, B>(s: seq<A>, f: A -> seq<B>, y: B)
    requires y in FlatMap(s, f)
    ensures exists x :: x in s && y in f(x)
  {
    if y !in f(s[0]) {
      FlatMapMember(s[1..], f, y);
      var x :| x in s[1..] && y in f(x);
      assert x in s;
    }
  }
}

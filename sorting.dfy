/** The stable ascending sort used twice by the backend: `list.sort(key=...)` on the scored
    candidates, and MongoDB's `.sort("timestamp", ...)` on a user's history records.

    An entry carries its sort key (`weight`) and its position in the input (`pos`). Ordering
    entries by the pair (weight, pos) is exactly what a stable sort by weight does: entries with
    equal weights keep their input order. */
module Sorting {

  datatype Ranked<T> = Ranked(weight: real, pos: nat, item: T)

  /** `a` comes strictly before `b` in the (weight, pos) order. */
  predicate Before<T>(a: Ranked<T>, b: Ranked<T>)
  {
    a.weight < b.weight || (a.weight == b.weight && a.pos < b.pos)
  }

  /** No entry is preceded by one that should come after it. */
  predicate Ascending<T>(s: seq<Ranked<T>>)
  {
    forall i, j :: 0 <= i < j < |s| ==> !Before(s[j], s[i])
  }

  /** The positions of the input entries increase strictly, as when each entry's `pos` is its
      index in a list that was built front to back. */
  predicate PositionsIncrease<T>(s: seq<Ranked<T>>)
  {
    forall i, j :: 0 <= i < j < |s| ==> s[i].pos < s[j].pos
  }

  /** Stable sort by weight. The result is a permutation of the input, in ascending weight;
      when the input's positions increase (a list in its original order), entries of equal
      weight keep their input order. */
  method StableSort<T>(s: seq<Ranked<T>>) returns (r: seq<Ranked<T>>)
    ensures multiset(r) == multiset(s)
    ensures forall i, j :: 0 <= i < j < |r| ==> r[i].weight <= r[j].weight
    ensures PositionsIncrease(s) ==>
      forall i, j :: 0 <= i < j < |r| && r[i].weight == r[j].weight ==> r[i].pos < r[j].pos
    ensures Ascending(r)
  {
    r := [];
    var k := 0;
    while k < |s|
      invariant 0 <= k <= |s|
      invariant Ascending(r)
      invariant multiset(r) == multiset(s[..k])
    {
      r := InsertInOrder(r, s[k]);
      assert s[..k + 1] == s[..k] + [s[k]];
      k := k + 1;
    }
    assert s[..|s|] == s;
    if PositionsIncrease(s) {
      forall i, j | 0 <= i < j < |r| && r[i].weight == r[j].weight
        ensures r[i].pos < r[j].pos
      {
        DistinctPositionsKept(s, r, i, j);
      }
    }
  }

  /** One step of insertion sort: `x` goes after every entry that does not come after it. */
  method InsertInOrder<T>(r: seq<Ranked<T>>, x: Ranked<T>) returns (r': seq<Ranked<T>>)
    requires Ascending(r)
    ensures Ascending(r')
    ensures multiset(r') == multiset(r) + multiset{x}
  {
    var i := |r|;
    while i > 0 && Before(x, r[i - 1])
      invariant 0 <= i <= |r|
      invariant forall k :: i <= k < |r| ==> Before(x, r[k])
    {
      i := i - 1;
    }
    r' := r[..i] + [x] + r[i..];
    assert r == r[..i] + r[i..];
    InsertedAscending(r, x, i);
  }

  /** Putting `x` after the entries that do not come after it, and before those that do,
      keeps a list ascending. */
  lemma InsertedAscending<T>(r: seq<Ranked<T>>, x: Ranked<T>, i: nat)
    requires Ascending(r) && i <= |r|
    requires i > 0 ==> !Before(x, r[i - 1])
    requires forall k :: i <= k < |r| ==> Before(x, r[k])
    ensures Ascending(r[..i] + [x] + r[i..])
  {
    var r' := r[..i] + [x] + r[i..];
    forall p, q | 0 <= p < q < |r'|
      ensures !Before(r'[q], r'[p])
    {
      if q < i {
        assert r'[p] == r[p] && r'[q] == r[q];
      } else if q == i {
        assert r'[p] == r[p];
        NotBeforeChain(x, r[i - 1], r[p]);
      } else if p == i {
        assert r'[q] == r[q - 1];
      } else if p < i {
        assert r'[p] == r[p] && r'[q] == r[q - 1];
      } else {
        assert r'[p] == r[p - 1] && r'[q] == r[q - 1];
      }
    }
  }

  /** `Before` is a strict total order, so "not before" chains. */
  lemma NotBeforeChain<T>(a: Ranked<T>, b: Ranked<T>, c: Ranked<T>)
    requires !Before(a, b) && !Before(b, c)
    ensures !Before(a, c)
  {
  }

  /** Two entries of a permutation of a list with increasing positions have different
      positions. */
  lemma DistinctPositionsKept<T>(s: seq<Ranked<T>>, r: seq<Ranked<T>>, i: nat, j: nat)
    requires PositionsIncrease(s) && multiset(r) == multiset(s)
    requires i < j < |r|
    ensures r[i].pos != r[j].pos
  {
    assert r[i] in multiset(s) && r[j] in multiset(s);
    var p :| 0 <= p < |s| && s[p] == r[i];
    var q :| 0 <= q < |s| && s[q] == r[j];
    if p == q {
      // the same input entry would occur twice in r
      var rest := r[..i] + r[i + 1..];
      assert r == r[..i] + [r[i]] + r[i + 1..];
      assert r[j] == rest[j - 1];
      assert r[j] in multiset(rest);
      assert multiset(r)[s[p]] == multiset(rest)[s[p]] + 1;
      assert multiset(r)[s[p]] >= 2;
      MultiplicityInIncreasing(s, p);
      assert false;
    }
  }

  /** In a list whose positions increase, every entry occurs once. */
  lemma {:induction false} MultiplicityInIncreasing<T>(s: seq<Ranked<T>>, p: nat)
    requires PositionsIncrease(s) && p < |s|
    ensures multiset(s)[s[p]] == 1
  {
    if p == 0 {
      assert s == [s[0]] + s[1..];
      forall k | 0 <= k < |s[1..]|
        ensures s[1..][k] != s[0]
      {
        assert s[1..][k] == s[k + 1];
      }
      assert s[0] !in s[1..];
    } else {
      assert s == [s[0]] + s[1..];
      assert s[1..][p - 1] == s[p];
      MultiplicityInIncreasing(s[1..], p - 1);
      assert s[0] != s[p];
    }
  }

  /** The number of entries of `s` that come strictly before `x`: `x`'s rank among them. */
  function CountBefore<T>(s: seq<Ranked<T>>, x: Ranked<T>): (n: nat)
    ensures n <= |s|
  {
    if s == [] then 0
    else (if Before(s[0], x) then 1 else 0) + CountBefore(s[1..], x)
  }

  /** The number of entries of `s` whose weight is strictly below `w`. */
  function CountLighter<T>(s: seq<Ranked<T>>, w: real): (n: nat)
    ensures n <= |s|
  {
    if s == [] then 0
    else (if s[0].weight < w then 1 else 0) + CountLighter(s[1..], w)
  }

  lemma {:induction false} CountBeforeAppend<T>(a: seq<Ranked<T>>, b: seq<Ranked<T>>, x: Ranked<T>)
    ensures CountBefore(a + b, x) == CountBefore(a, x) + CountBefore(b, x)
  {
    if a != [] {
      assert a + b != [] && (a + b)[0] == a[0];
      assert (a + b)[1..] == a[1..] + b;
      CountBeforeAppend(a[1..], b, x);
    } else {
      assert a + b == b;
    }
  }

  lemma {:induction false} CountLighterAppend<T>(a: seq<Ranked<T>>, b: seq<Ranked<T>>, w: real)
    ensures CountLighter(a + b, w) == CountLighter(a, w) + CountLighter(b, w)
  {
    if a != [] {
      assert a + b != [] && (a + b)[0] == a[0];
      assert (a + b)[1..] == a[1..] + b;
      CountLighterAppend(a[1..], b, w);
    } else {
      assert a + b == b;
    }
  }

  /** A rank does not depend on the order the entries are listed in. */
  lemma {:induction false} CountBeforePermutation<T>(a: seq<Ranked<T>>, b: seq<Ranked<T>>, x: Ranked<T>)
    requires multiset(a) == multiset(b)
    ensures CountBefore(a, x) == CountBefore(b, x)
    decreases |a|
  {
    if a == [] {
      assert |b| == |multiset(b)| == 0;
    } else {
      var h := a[0];
      var i := MatchFirst(a, b);
      var rest := b[..i] + b[i + 1..];
      CountBeforePermutation(a[1..], rest, x);
      CountWithoutOne(b, i, x);
      assert CountBefore(a, x) == CountBefore([h], x) + CountBefore(a[1..], x);
    }
  }

  /** In a permutation of a non-empty list, an index holding its first entry; the rest of the
      list is a permutation of the list with that index removed. */
  lemma MatchFirst<T>(a: seq<Ranked<T>>, b: seq<Ranked<T>>) returns (i: nat)
    requires a != [] && multiset(a) == multiset(b)
    ensures i < |b| && b[i] == a[0]
    ensures multiset(a[1..]) == multiset(b[..i] + b[i + 1..])
  {
    assert a[0] in multiset(b);
    i :| 0 <= i < |b| && b[i] == a[0];
    assert multiset(a[1..]) == multiset(a) - multiset{a[0]} by {
      WithoutOne(a, 0);
      assert a[..0] + a[1..] == a[1..];
    }
    assert multiset(b[..i] + b[i + 1..]) == multiset(b) - multiset{b[i]} by {
      WithoutOne(b, i);
    }
  }

  lemma WithoutOne<T>(s: seq<Ranked<T>>, i: nat)
    requires i < |s|
    ensures multiset(s[..i] + s[i + 1..]) == multiset(s) - multiset{s[i]}
  {
    assert s == s[..i] + [s[i]] + s[i + 1..];
  }

  lemma CountWithoutOne<T>(s: seq<Ranked<T>>, i: nat, x: Ranked<T>)
    requires i < |s|
    ensures CountBefore(s, x) == CountBefore(s[..i] + s[i + 1..], x) + CountBefore([s[i]], x)
  {
    assert s == s[..i] + ([s[i]] + s[i + 1..]);
    CountBeforeAppend(s[..i], [s[i]] + s[i + 1..], x);
    CountBeforeAppend([s[i]], s[i + 1..], x);
    CountBeforeAppend(s[..i], s[i + 1..], x);
  }

  /** In an ascending list the entry at index j has at most j entries before it. */
  lemma AscendingRank<T>(r: seq<Ranked<T>>, j: nat)
    requires Ascending(r) && j < |r|
    ensures CountBefore(r, r[j]) <= j
  {
    assert r == r[..j] + r[j..];
    CountBeforeAppend(r[..j], r[j..], r[j]);
    forall k | 0 <= k < |r[j..]| ensures !Before(r[j..][k], r[j]) {
      assert r[j..][k] == r[j + k];
    }
    NoneBefore(r[j..], r[j]);
  }

  lemma {:induction false} NoneBefore<T>(s: seq<Ranked<T>>, x: Ranked<T>)
    requires forall k :: 0 <= k < |s| ==> !Before(s[k], x)
    ensures CountBefore(s, x) == 0
  {
    if s != [] {
      NoneBefore(s[1..], x);
    }
  }

  /** Entries strictly lighter than `x` come before `x`, so they are no more than its rank. */
  lemma {:induction false} LighterAreBefore<T>(s: seq<Ranked<T>>, x: Ranked<T>)
    ensures CountLighter(s, x.weight) <= CountBefore(s, x)
  {
    if s != [] {
      LighterAreBefore(s[1..], x);
    }
  }

  /** Picking any of the first `n` entries of a sorted permutation of `s` picks an entry of `s`
      with fewer than `n` entries of `s` ordered before it, and so fewer than `n` entries of `s`
      strictly lighter than it. */
  lemma TopPick<T>(s: seq<Ranked<T>>, r: seq<Ranked<T>>, n: nat, j: nat)
    requires Ascending(r) && multiset(r) == multiset(s)
    requires j < n && j < |r|
    ensures r[j] in s
    ensures CountBefore(s, r[j]) < n
    ensures CountLighter(s, r[j].weight) < n
  {
    assert r[j] in multiset(s);
    AscendingRank(r, j);
    CountBeforePermutation(r, s, r[j]);
    LighterAreBefore(s, r[j]);
  }
}

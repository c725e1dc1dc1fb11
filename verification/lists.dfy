/** The array operations the hooks are built from, over sequences:
    `filter`, `slice(0, n)`, and `map` with a conditional rewrite, which is
    how both the realtime UPDATE handlers (`prev.map(x => x.id === n.id ? n
    : x)`) and the backend's `update ... eq(...)` act on a list of rows. */
module Lists {

  /** The elements satisfying `p`, in order. */
  function Filter<T>(s: seq<T>, p: T -> bool): (r: seq<T>)
    ensures |r| <= |s|
    ensures forall i :: 0 <= i < |r| ==> p(r[i])
    ensures forall i :: 0 <= i < |r| ==> r[i] in s
    ensures forall i :: 0 <= i < |s| && p(s[i]) ==> s[i] in r
  {
    if |s| == 0 then []
    else
      assert s == [s[0]] + s[1..];
      (if p(s[0]) then [s[0]] else []) + Filter(s[1..], p)
  }

  /** Filtering an extended sequence filters the extension on its own. */
  lemma {:induction false} FilterAppend<T>(s: seq<T>, x: T, p: T -> bool)
    ensures Filter(s + [x], p) == Filter(s, p) + (if p(x) then [x] else [])
    decreases |s|
  {
    if |s| > 0 {
      assert (s + [x])[1..] == s[1..] + [x];
      FilterAppend(s[1..], x, p);
    }
  }

  /** Filtering keeps every occurrence of a selected element and no
      occurrence of any other. */
  lemma {:induction false} FilterMultiplicity<T>(s: seq<T>, p: T -> bool, x: T)
    ensures multiset(Filter(s, p))[x] == if p(x) then multiset(s)[x] else 0
    decreases |s|
  {
    if |s| > 0 {
      FilterMultiplicity(s[1..], p, x);
      assert s == [s[0]] + s[1..];
      assert multiset(s) == multiset{s[0]} + multiset(s[1..]);
    }
  }

  /** A sequence whose every element satisfies `p` is its own filter. */
  lemma {:induction false} FilterAll<T>(s: seq<T>, p: T -> bool)
    requires forall i :: 0 <= i < |s| ==> p(s[i])
    ensures Filter(s, p) == s
    decreases |s|
  {
    if |s| > 0 {
      FilterAll(s[1..], p);
    }
  }

  /** Filtering twice by the same predicate is filtering once. */
  lemma FilterIdempotent<T>(s: seq<T>, p: T -> bool)
    ensures Filter(Filter(s, p), p) == Filter(s, p)
  {
    FilterAll(Filter(s, p), p);
  }

  /** The first `n` elements, JavaScript's `slice(0, n)` and SQL's `limit n`. */
  function Take<T>(s: seq<T>, n: nat): (r: seq<T>)
    ensures |r| == if |s| < n then |s| else n
    ensures r <= s
  {
    if |s| <= n then s else s[..n]
  }

  /** Rewrites with `f` every element satisfying `p`, leaving the others. */
  function MapWhere<T>(s: seq<T>, p: T -> bool, f: T -> T): (r: seq<T>)
    ensures |r| == |s|
  {
    seq(|s|, i requires 0 <= i < |s| => if p(s[i]) then f(s[i]) else s[i])
  }

  /** Rewriting is idempotent when a rewritten element is either no longer
      selected or a fixed point of the rewrite. */
  lemma MapWhereIdempotent<T>(s: seq<T>, p: T -> bool, f: T -> T)
    requires forall x :: p(x) && p(f(x)) ==> f(f(x)) == f(x)
    ensures MapWhere(MapWhere(s, p, f), p, f) == MapWhere(s, p, f)
  {
    var once := MapWhere(s, p, f);
    var twice := MapWhere(once, p, f);
    forall i | 0 <= i < |s|
      ensures twice[i] == once[i]
    {
      if p(s[i]) {
        assert once[i] == f(s[i]);
      }
    }
  }

  /** Nothing selected, nothing changed. */
  lemma MapWhereNoneSelected<T>(s: seq<T>, p: T -> bool, f: T -> T)
    requires forall i :: 0 <= i < |s| ==> !p(s[i])
    ensures MapWhere(s, p, f) == s
  {
  }

  /** When every element satisfying `p` comes before every element that
      does not, the elements satisfying `p` followed by those satisfying
      its negation `q` give back the sequence. */
  lemma {:induction false} FilterPartition<T>(s: seq<T>, p: T -> bool, q: T -> bool)
    requires forall i :: 0 <= i < |s| ==> q(s[i]) == !p(s[i])
    requires forall i, j :: 0 <= i < j < |s| && p(s[j]) ==> p(s[i])
    ensures Filter(s, p) + Filter(s, q) == s
    decreases |s|, 1
  {
    if |s| > 0 {
      if p(s[0]) {
        HeadSelected(s, p, q);
      } else {
        NoneSelected(s, p, q);
      }
    }
  }

  /** A selected head goes first, and the rest partitions by induction. */
  lemma {:induction false} HeadSelected<T>(s: seq<T>, p: T -> bool, q: T -> bool)
    requires |s| > 0 && p(s[0])
    requires forall i :: 0 <= i < |s| ==> q(s[i]) == !p(s[i])
    requires forall i, j :: 0 <= i < j < |s| && p(s[j]) ==> p(s[i])
    ensures Filter(s, p) + Filter(s, q) == s
    decreases |s|, 0
  {
    var t := s[1..];
    assert Filter(t, p) + Filter(t, q) == t by {
      SelectedFirstTail(s, p, q);
      FilterPartition(t, p, q);
    }
    FilterKeepsHead(s, p, q);
    ConsSplit(s, Filter(t, p), Filter(t, q));
  }

  /** Splitting the tail splits the whole after the head. */
  lemma ConsSplit<T>(s: seq<T>, a: seq<T>, b: seq<T>)
    requires |s| > 0 && a + b == s[1..]
    ensures ([s[0]] + a) + b == s
  {
    assert s == [s[0]] + s[1..];
  }

  /** With the head unselected, the ordering premise leaves nothing selected. */
  lemma NoneSelected<T>(s: seq<T>, p: T -> bool, q: T -> bool)
    requires forall i :: 0 <= i < |s| ==> q(s[i]) == !p(s[i])
    requires |s| > 0 && !p(s[0])
    requires forall i, j :: 0 <= i < j < |s| && p(s[j]) ==> p(s[i])
    ensures Filter(s, p) + Filter(s, q) == s
  {
    var head := s[0];
    forall i | 0 < i < |s| ensures !p(s[i]) {
      assert p(s[i]) ==> p(head);
    }
    FilterNone(s, p);
    FilterAll(s, q);
  }

  /** A head satisfying `p` leads the `p`-filter and is dropped by the `q`-filter. */
  lemma FilterKeepsHead<T>(s: seq<T>, p: T -> bool, q: T -> bool)
    requires |s| > 0 && p(s[0]) && !q(s[0])
    ensures Filter(s, p) == [s[0]] + Filter(s[1..], p)
    ensures Filter(s, q) == Filter(s[1..], q)
  {
  }

  /** The ordering premise of `FilterPartition` survives dropping the head. */
  lemma SelectedFirstTail<T>(s: seq<T>, p: T -> bool, q: T -> bool)
    requires |s| > 0
    requires forall i :: 0 <= i < |s| ==> q(s[i]) == !p(s[i])
    requires forall i, j :: 0 <= i < j < |s| && p(s[j]) ==> p(s[i])
    ensures forall i :: 0 <= i < |s| - 1 ==> q(s[1..][i]) == !p(s[1..][i])
    ensures forall i, j :: 0 <= i < j < |s| - 1 && p(s[1..][j]) ==> p(s[1..][i])
  {
    forall i | 0 <= i < |s| - 1 ensures q(s[1..][i]) == !p(s[1..][i]) {
      assert s[1..][i] == s[i + 1];
    }
    forall i, j | 0 <= i < j < |s| - 1 && p(s[1..][j]) ensures p(s[1..][i]) {
      assert s[1..][i] == s[i + 1] && s[1..][j] == s[j + 1];
    }
  }

  /** Nothing satisfies `p`, nothing is kept. */
  lemma {:induction false} FilterNone<T>(s: seq<T>, p: T -> bool)
    requires forall i :: 0 <= i < |s| ==> !p(s[i])
    ensures Filter(s, p) == []
    decreases |s|
  {
    if |s| > 0 {
      FilterNone(s[1..], p);
    }
  }
}

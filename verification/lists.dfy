/** Sequence folds shared by the page loop and the merge: keeping the
    accepted elements of a list, and joining per-page lists. */
module Lists {
  import opened Json

  /** `[f(x).value for x in xs if f(x) is not None]`, in order. */
  function FilterMap<A, B>(f: A -> Option<B>, xs: seq<A>): (r: seq<B>)
    ensures |r| <= |xs|
    ensures forall k :: 0 <= k < |r| ==> exists j :: 0 <= j < |xs| && f(xs[j]) == Some(r[k])
  {
    if |xs| == 0 then []
    else
      var init := FilterMap(f, xs[..|xs| - 1]);
      assert forall j :: 0 <= j < |xs| - 1 ==> xs[..|xs| - 1][j] == xs[j];
      match f(xs[|xs| - 1])
      case Some(y) => init + [y]
      case None => init
  }

  /** Filtering is element-wise: two lists back to back filter to their
      filterings back to back. */
  lemma {:induction false} FilterMapAppend<A, B>(f: A -> Option<B>, a: seq<A>, b: seq<A>)
    ensures FilterMap(f, a + b) == FilterMap(f, a) + FilterMap(f, b)
    decreases |b|
  {
    if |b| == 0 {
      assert a + b == a;
    } else {
      var b' := b[..|b| - 1];
      FilterMapAppend(f, a, b');
      assert (a + b)[..|a + b| - 1] == a + b';
      assert (a + b)[|a + b| - 1] == b[|b| - 1];
    }
  }

  /** One element filters to its own image, or to nothing. */
  lemma FilterMapSingle<A, B>(f: A -> Option<B>, x: A)
    ensures FilterMap(f, [x]) == if f(x).Some? then [f(x).value] else []
  {
    assert [x][..0] == [];
  }

  /** Every list in a list of lists, joined end to end. */
  function Concat<T>(xss: seq<seq<T>>): (r: seq<T>)
    ensures |xss| == 0 ==> r == []
    ensures forall ys :: ys in xss ==> forall y :: y in ys ==> y in r
    ensures forall y :: y in r ==> exists ys :: ys in xss && y in ys
  {
    if |xss| == 0 then []
    else
      var init := Concat(xss[..|xss| - 1]);
      assert forall ys :: ys in xss ==> ys in xss[..|xss| - 1] || ys == xss[|xss| - 1];
      assert forall ys :: ys in xss[..|xss| - 1] ==> ys in xss;
      init + xss[|xss| - 1]
  }

  /** Joining one more list appends it. */
  lemma ConcatAppend<T>(xss: seq<seq<T>>, ys: seq<T>)
    ensures Concat(xss + [ys]) == Concat(xss) + ys
  {
    assert (xss + [ys])[..|xss|] == xss;
  }

  /** A dictionary filled by a loop: every element `f` maps to a pair stores
      that pair, a later pair for the same key overriding an earlier one. */
  function Updates<A, K, V>(f: A -> Option<(K, V)>, xs: seq<A>): (r: map<K, V>)
    ensures forall k :: k in r ==> exists j :: 0 <= j < |xs| && f(xs[j]) == Some((k, r[k]))
    ensures forall j :: 0 <= j < |xs| && f(xs[j]).Some? ==> f(xs[j]).value.0 in r
  {
    if |xs| == 0 then map[]
    else
      var init := xs[..|xs| - 1];
      var m := Updates(f, init);
      assert forall j :: 0 <= j < |init| ==> init[j] == xs[j];
      match f(xs[|xs| - 1])
      case None => m
      case Some(p) => m[p.0 := p.1]
  }

  /** Elements processed in two runs give the first run's dictionary updated
      by the second's. */
  lemma {:induction false} UpdatesAppend<A, K, V>(f: A -> Option<(K, V)>, a: seq<A>, b: seq<A>)
    ensures Updates(f, a + b) == Updates(f, a) + Updates(f, b)
    decreases |b|
  {
    if |b| == 0 {
      assert a + b == a;
    } else {
      var b' := b[..|b| - 1];
      UpdatesAppend(f, a, b');
      assert (a + b)[..|a + b| - 1] == a + b';
      assert (a + b)[|a + b| - 1] == b[|b| - 1];
      match f(b[|b| - 1])
      case None =>
      case Some(p) =>
        UnionUpdate(Updates(f, a), Updates(f, b'), p.0, p.1);
    }
  }

  lemma UnionUpdate<K, V>(m1: map<K, V>, m2: map<K, V>, k: K, v: V)
    ensures (m1 + m2)[k := v] == m1 + m2[k := v]
  {
  }

  /** The value stored for a key is the one of the last element naming it. */
  lemma LastUpdateWins<A, K, V>(f: A -> Option<(K, V)>, xs: seq<A>, j: nat)
    requires j < |xs| && f(xs[j]).Some?
    requires forall k :: j < k < |xs| && f(xs[k]).Some? ==> f(xs[k]).value.0 != f(xs[j]).value.0
    ensures f(xs[j]).value.0 in Updates(f, xs)
    ensures Updates(f, xs)[f(xs[j]).value.0] == f(xs[j]).value.1
  {
    var a := xs[..j + 1];
    var b := xs[j + 1..];
    SplitAt(xs, j + 1);
    UpdatesAppend(f, a, b);
    UpdatesLastOfPrefix(f, xs, j);
    NoUpdateAfter(f, xs, j);
    UnionKeepsLeft(Updates(f, a), Updates(f, b), f(xs[j]).value.0);
  }

  lemma SplitAt<T>(xs: seq<T>, n: nat)
    requires n <= |xs|
    ensures xs[..n] + xs[n..] == xs
  {
  }

  lemma UnionKeepsLeft<K, V>(m1: map<K, V>, m2: map<K, V>, k: K)
    requires k in m1 && k !in m2
    ensures k in m1 + m2 && (m1 + m2)[k] == m1[k]
  {
  }

  lemma UpdatesLastOfPrefix<A, K, V>(f: A -> Option<(K, V)>, xs: seq<A>, j: nat)
    requires j < |xs| && f(xs[j]).Some?
    ensures Updates(f, xs[..j + 1]) == Updates(f, xs[..j])[f(xs[j]).value.0 := f(xs[j]).value.1]
  {
    var a := xs[..j + 1];
    assert a[..j] == xs[..j];
    assert a[j] == xs[j];
  }

  lemma NoUpdateAfter<A, K, V>(f: A -> Option<(K, V)>, xs: seq<A>, j: nat)
    requires j < |xs| && f(xs[j]).Some?
    requires forall k :: j < k < |xs| && f(xs[k]).Some? ==> f(xs[k]).value.0 != f(xs[j]).value.0
    ensures f(xs[j]).value.0 !in Updates(f, xs[j + 1..])
  {
    var b := xs[j + 1..];
    forall k | 0 <= k < |b| && f(b[k]).Some? ensures f(b[k]).value.0 != f(xs[j]).value.0 {
      assert b[k] == xs[j + 1 + k];
    }
  }

  /** One element stores its own pair, or nothing. */
  lemma UpdatesSingle<A, K, V>(f: A -> Option<(K, V)>, x: A)
    ensures Updates(f, [x]) == if f(x).Some? then map[f(x).value.0 := f(x).value.1] else map[]
  {
    assert [x][..0] == [];
  }
}

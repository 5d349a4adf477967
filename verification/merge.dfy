/** After the last page: answers from the key page are written into the
    records, the records are sorted by question number, and only the first
    record of each number is kept. */
module Merge {
  import opened Json
  import opened Records

  /** The question numbers occurring in a list of records. */
  function Numbers(xs: seq<Record>): set<int>
  {
    set r | r in xs :: r.number
  }

  /** The records carrying number `n`, in list order. */
  function WithNumber(xs: seq<Record>, n: int): (r: seq<Record>)
    ensures |r| <= |xs|
    ensures forall k :: 0 <= k < |r| ==> r[k].number == n && r[k] in xs
    ensures |r| > 0 <==> n in Numbers(xs)
  {
    if |xs| == 0 then []
    else
      var tail := WithNumber(xs[1..], n);
      assert Numbers(xs) == {xs[0].number} + Numbers(xs[1..]) by {
        assert forall r :: r in xs <==> r == xs[0] || r in xs[1..];
      }
      if xs[0].number == n then [xs[0]] + tail else tail
  }

  // ----- Filling from the answer key -----

  /** The answer for one record, when the key has its number. */
  function FillOne(r: Record, key: map<int, int>): (f: Record)
    ensures f.number == r.number && f.question == r.question && f.options == r.options
    ensures f.rest == r.rest
    ensures r.number in key ==> f.correctOption == JInt(key[r.number])
    ensures r.number !in key ==> f == r
  {
    if r.number in key then r.(correctOption := JInt(key[r.number])) else r
  }

  /** Every record looked up in the key. */
  function FillAll(xs: seq<Record>, key: map<int, int>): (r: seq<Record>)
    ensures |r| == |xs|
    ensures forall k :: 0 <= k < |xs| ==> r[k] == FillOne(xs[k], key)
  {
    if |xs| == 0 then [] else [FillOne(xs[0], key)] + FillAll(xs[1..], key)
  }

  /** The fill step: only outside bold mode and only with a non-empty key,
      every record whose number the key has gets that option; all other
      records are left as they are. */
  function FillFromKey(xs: seq<Record>, key: map<int, int>, bold: bool): (r: seq<Record>)
    ensures |r| == |xs|
    ensures forall k :: 0 <= k < |xs| ==>
              if !bold && |key| > 0 then r[k] == FillOne(xs[k], key) else r[k] == xs[k]
  {
    if !bold && |key| > 0 then FillAll(xs, key) else xs
  }

  lemma {:induction false} FillAllKeepsNumbers(xs: seq<Record>, key: map<int, int>, n: int)
    ensures WithNumber(FillAll(xs, key), n) == FillAll(WithNumber(xs, n), key)
    decreases |xs|
  {
    if |xs| > 0 {
      FillAllKeepsNumbers(xs[1..], key, n);
      var ys := FillAll(xs, key);
      assert ys[1..] == FillAll(xs[1..], key);
      var tail := WithNumber(xs[1..], n);
      if xs[0].number == n {
        assert WithNumber(xs, n) == [xs[0]] + tail;
        assert ([xs[0]] + tail)[1..] == tail;
      }
    }
  }

  /** Filling never changes a record's number, so it keeps the records of
      each number, each filled. */
  lemma FillKeepsNumbers(xs: seq<Record>, key: map<int, int>, bold: bool, n: int)
    ensures WithNumber(FillFromKey(xs, key, bold), n) == FillFromKey(WithNumber(xs, n), key, bold)
  {
    if !bold && |key| > 0 {
      FillAllKeepsNumbers(xs, key, n);
    }
  }

  // ----- Stable sort by number -----

  predicate Sorted(xs: seq<Record>)
  {
    forall i, j :: 0 <= i < j < |xs| ==> xs[i].number <= xs[j].number
  }

  /** `x` placed before the first record whose number is not smaller. */
  function Insert(x: Record, xs: seq<Record>): (r: seq<Record>)
    ensures multiset(r) == multiset(xs) + multiset{x}
  {
    if |xs| == 0 || x.number <= xs[0].number then [x] + xs
    else
      assert xs == [xs[0]] + xs[1..];
      [xs[0]] + Insert(x, xs[1..])
  }

  /** Inserting into a sorted list keeps it sorted. */
  lemma {:induction false} InsertSorted(x: Record, xs: seq<Record>)
    requires Sorted(xs)
    ensures Sorted(Insert(x, xs))
    decreases |xs|
  {
    if |xs| > 0 && x.number > xs[0].number {
      var tail := Insert(x, xs[1..]);
      InsertSorted(x, xs[1..]);
      forall j | 0 <= j < |tail| ensures xs[0].number <= tail[j].number {
        assert tail[j] in multiset(tail);
        assert tail[j] == x || tail[j] in multiset(xs[1..]);
      }
    }
  }

  /** Inserting `x` puts it ahead of every record with the same number. */
  lemma {:induction false} InsertStable(x: Record, xs: seq<Record>, n: int)
    ensures WithNumber(Insert(x, xs), n) ==
              if x.number == n then [x] + WithNumber(xs, n) else WithNumber(xs, n)
    decreases |xs|
  {
    if |xs| == 0 || x.number <= xs[0].number {
      assert ([x] + xs)[1..] == xs;
    } else {
      InsertStable(x, xs[1..], n);
      assert ([xs[0]] + Insert(x, xs[1..]))[1..] == Insert(x, xs[1..]);
      if x.number == n {
        assert xs[0].number != n;
      }
    }
  }

  /** `list.sort(key=number)`: ascending by number, records of equal number
      kept in their original order. */
  function SortByNumber(xs: seq<Record>): (r: seq<Record>)
    ensures Sorted(r)
    ensures multiset(r) == multiset(xs)
  {
    if |xs| == 0 then []
    else
      assert xs == [xs[0]] + xs[1..];
      var tail := SortByNumber(xs[1..]);
      InsertSorted(xs[0], tail);
      Insert(xs[0], tail)
  }

  /** Sorting is stable: the records of each number keep their order. */
  lemma {:induction false} SortStable(xs: seq<Record>, n: int)
    ensures WithNumber(SortByNumber(xs), n) == WithNumber(xs, n)
    decreases |xs|
  {
    if |xs| > 0 {
      SortStable(xs[1..], n);
      InsertStable(xs[0], SortByNumber(xs[1..]), n);
    }
  }

  // ----- First-occurrence dedup -----

  /** The dedup loop from a point where the numbers in `seen` are taken:
      a record is kept when its number was not seen yet. */
  function KeepFirstFrom(xs: seq<Record>, seen: set<int>): (r: seq<Record>)
    ensures |r| <= |xs|
    ensures forall k :: 0 <= k < |r| ==> r[k] in xs && r[k].number !in seen
  {
    if |xs| == 0 then []
    else if xs[0].number in seen then KeepFirstFrom(xs[1..], seen)
    else [xs[0]] + KeepFirstFrom(xs[1..], seen + {xs[0].number})
  }

  /** No number is kept twice. */
  lemma {:induction false} KeepFirstDistinct(xs: seq<Record>, seen: set<int>)
    ensures forall i, j :: 0 <= i < j < |KeepFirstFrom(xs, seen)| ==>
              KeepFirstFrom(xs, seen)[i].number != KeepFirstFrom(xs, seen)[j].number
    decreases |xs|
  {
    if |xs| > 0 {
      var x := xs[0];
      if x.number in seen {
        KeepFirstDistinct(xs[1..], seen);
        assert KeepFirstFrom(xs, seen) == KeepFirstFrom(xs[1..], seen);
      } else {
        KeepFirstDistinct(xs[1..], seen + {x.number});
        var r := KeepFirstFrom(xs, seen);
        assert forall k :: 0 < k < |r| ==> r[k] == KeepFirstFrom(xs[1..], seen + {x.number})[k - 1];
      }
    }
  }

  /** Every number not seen before is kept, and no other. */
  lemma {:induction false} KeepFirstNumbers(xs: seq<Record>, seen: set<int>)
    ensures Numbers(KeepFirstFrom(xs, seen)) == Numbers(xs) - seen
    decreases |xs|
  {
    if |xs| > 0 {
      var x := xs[0];
      assert Numbers(xs) == {x.number} + Numbers(xs[1..]) by {
        assert forall y :: y in xs <==> y == x || y in xs[1..];
      }
      if x.number in seen {
        KeepFirstNumbers(xs[1..], seen);
      } else {
        var tail := KeepFirstFrom(xs[1..], seen + {x.number});
        KeepFirstNumbers(xs[1..], seen + {x.number});
        assert Numbers([x] + tail) == {x.number} + Numbers(tail) by {
          assert forall y :: y in [x] + tail <==> y == x || y in tail;
        }
      }
    }
  }

  /** The record kept for a number is the first record with that number. */
  lemma {:induction false} KeepFirstIsFirst(xs: seq<Record>, seen: set<int>)
    ensures forall k :: 0 <= k < |KeepFirstFrom(xs, seen)| ==>
              KeepFirstFrom(xs, seen)[k] == WithNumber(xs, KeepFirstFrom(xs, seen)[k].number)[0]
    decreases |xs|
  {
    if |xs| > 0 {
      var x := xs[0];
      var r := KeepFirstFrom(xs, seen);
      if x.number in seen {
        KeepFirstIsFirst(xs[1..], seen);
        assert r == KeepFirstFrom(xs[1..], seen);
        forall k | 0 <= k < |r| ensures r[k] == WithNumber(xs, r[k].number)[0] {
          assert r[k].number != x.number;
          assert WithNumber(xs, r[k].number) == WithNumber(xs[1..], r[k].number);
        }
      } else {
        var tail := KeepFirstFrom(xs[1..], seen + {x.number});
        KeepFirstIsFirst(xs[1..], seen + {x.number});
        assert r == [x] + tail;
        forall k | 0 <= k < |r| ensures r[k] == WithNumber(xs, r[k].number)[0] {
          if k > 0 {
            assert r[k] == tail[k - 1];
            assert tail[k - 1].number !in seen + {x.number};
            assert r[k].number != x.number;
            assert WithNumber(xs, r[k].number) == WithNumber(xs[1..], r[k].number);
            assert tail[k - 1] == WithNumber(xs[1..], tail[k - 1].number)[0];
          } else {
            assert WithNumber(xs, x.number) == [x] + WithNumber(xs[1..], x.number);
          }
        }
      }
    }
  }

  /** Numbers strictly increasing along the list. */
  predicate Increasing(xs: seq<Record>)
  {
    forall i, j :: 0 <= i < j < |xs| ==> xs[i].number < xs[j].number
  }

  lemma ConsIncreasing(x: Record, tail: seq<Record>)
    requires Increasing(tail)
    requires forall j :: 0 <= j < |tail| ==> x.number < tail[j].number
    ensures Increasing([x] + tail)
  {
    var r := [x] + tail;
    forall i, j | 0 <= i < j < |r| ensures r[i].number < r[j].number {
      if i == 0 {
        assert r[j] == tail[j - 1];
      } else {
        assert r[i] == tail[i - 1] && r[j] == tail[j - 1];
      }
    }
  }

  lemma HeadBelowRest(xs: seq<Record>, y: Record)
    requires Sorted(xs) && |xs| > 0 && y in xs[1..]
    ensures xs[0].number <= y.number
  {
    var m :| 0 <= m < |xs| - 1 && xs[1..][m] == y;
    assert xs[m + 1] == y;
  }

  /** From a sorted list, the kept numbers strictly increase. */
  lemma {:induction false} KeepFirstIncreasing(xs: seq<Record>, seen: set<int>)
    ensures Sorted(xs) ==> Increasing(KeepFirstFrom(xs, seen))
    decreases |xs|
  {
    if |xs| > 0 && Sorted(xs) {
      var x := xs[0];
      var rest := xs[1..];
      assert Sorted(rest);
      if x.number in seen {
        KeepFirstIncreasing(rest, seen);
      } else {
        var tail := KeepFirstFrom(rest, seen + {x.number});
        KeepFirstIncreasing(rest, seen + {x.number});
        forall j | 0 <= j < |tail| ensures x.number < tail[j].number {
          HeadBelowRest(xs, tail[j]);
        }
        ConsIncreasing(x, tail);
      }
    }
  }

  /** The dedup loop: `seen_numbers` starts empty. */
  function KeepFirst(xs: seq<Record>): (r: seq<Record>)
    ensures Numbers(r) == Numbers(xs)
    ensures forall k :: 0 <= k < |r| ==> r[k] == WithNumber(xs, r[k].number)[0]
    ensures Sorted(xs) ==> forall i, j :: 0 <= i < j < |r| ==> r[i].number < r[j].number
  {
    KeepFirstNumbers(xs, {});
    KeepFirstIsFirst(xs, {});
    KeepFirstIncreasing(xs, {});
    KeepFirstFrom(xs, {})
  }

  // ----- The whole step -----

  /** Fill, sort, dedup: the records to be written out. The numbers are
      strictly increasing, every accepted number appears exactly once, and the
      record kept for a number is the earliest one in page order, filled from
      the key. */
  function Finalize(xs: seq<Record>, key: map<int, int>, bold: bool): (r: seq<Record>)
    ensures |xs| == 0 ==> r == []
    ensures forall i, j :: 0 <= i < j < |r| ==> r[i].number < r[j].number
    ensures Numbers(r) == Numbers(xs)
    ensures forall k :: 0 <= k < |r| ==>
              r[k] == FillFromKey(WithNumber(xs, r[k].number), key, bold)[0]
  {
    var filled := FillFromKey(xs, key, bold);
    var sorted := SortByNumber(filled);
    var r := KeepFirst(sorted);
    FinalizeNumbers(xs, key, bold);
    forall k | 0 <= k < |r|
      ensures r[k] == FillFromKey(WithNumber(xs, r[k].number), key, bold)[0]
    {
      SortStable(filled, r[k].number);
      FillKeepsNumbers(xs, key, bold, r[k].number);
    }
    r
  }

  lemma FinalizeNumbers(xs: seq<Record>, key: map<int, int>, bold: bool)
    ensures Numbers(SortByNumber(FillFromKey(xs, key, bold))) == Numbers(xs)
  {
    var filled := FillFromKey(xs, key, bold);
    var sorted := SortByNumber(filled);
    forall n | n in Numbers(xs) ensures n in Numbers(sorted) {
      var r :| r in xs && r.number == n;
      var k :| 0 <= k < |xs| && xs[k] == r;
      assert filled[k].number == n;
      assert filled[k] in multiset(sorted);
    }
    forall n | n in Numbers(sorted) ensures n in Numbers(xs) {
      var r :| r in sorted && r.number == n;
      assert r in multiset(filled);
      var k :| 0 <= k < |filled| && filled[k] == r;
      assert xs[k].number == n;
    }
  }

  // ----- Examples -----

  /** A record for question `n` with no answer yet. */
  function Open(n: int): (r: Record)
    ensures r.number == n && r.correctOption == JNull
  {
    Record(n, JStr("q"), [], JNull, [])
  }

  /** The example's key and its two answered records. */
  const ExampleKey: map<int, int> := map[1 := 2, 2 := 4]
  const AnsweredOne: Record := Open(1).(correctOption := JInt(2))
  const AnsweredTwo: Record := Open(2).(correctOption := JInt(4))

  lemma ExampleFill()
    ensures FillFromKey([Open(2), Open(1)], ExampleKey, false) == [AnsweredTwo, AnsweredOne]
  {
    assert 1 in ExampleKey && 2 in ExampleKey;
  }

  lemma ExampleSort()
    ensures SortByNumber([AnsweredTwo, AnsweredOne]) == [AnsweredOne, AnsweredTwo]
  {
    assert [AnsweredTwo, AnsweredOne][1..] == [AnsweredOne];
    assert SortByNumber([AnsweredOne]) == [AnsweredOne];
  }

  lemma ExampleKeep()
    ensures KeepFirst([AnsweredOne, AnsweredTwo]) == [AnsweredOne, AnsweredTwo]
  {
    assert [AnsweredOne, AnsweredTwo][1..] == [AnsweredTwo];
    assert {} + {1} == {1};
    assert KeepFirstFrom([AnsweredTwo], {1}) == [AnsweredTwo];
  }

  /** Two unanswered records out of order and a key answering both: they come
      out in number order with the key's answers. */
  lemma MergeExample()
    ensures Finalize([Open(2), Open(1)], ExampleKey, false) == [AnsweredOne, AnsweredTwo]
  {
    ExampleFill();
    ExampleSort();
    ExampleKeep();
  }

  /** Two records with the same number: only the first is written. */
  lemma DuplicateExample()
    ensures Finalize([Open(5).(question := JStr("first")), Open(5).(question := JStr("second"))], map[], false)
              == [Open(5).(question := JStr("first"))]
  {
    var a := Open(5).(question := JStr("first"));
    var b := Open(5).(question := JStr("second"));
    assert SortByNumber([b]) == [b];
    assert SortByNumber([a, b]) == [a, b] by {
      assert [a, b][1..] == [b];
    }
    assert KeepFirstFrom([b], {5}) == [];
    assert KeepFirstFrom([a, b], {}) == [a] + KeepFirstFrom([b], {5}) by {
      assert [a, b][1..] == [b];
      assert {} + {5} == {5};
    }
  }
}

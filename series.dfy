/**
 * A measurement series (`Series<T>`): its minimum, maximum and median. The
 * values are modelled as integers; the floating-point mean, standard
 * deviation and sum are not part of this model.
 */
module Series {
  import opened Results

  // The messages of the exceptions thrown here.
  const EmptyMinError: string := "Error in calcMinValue(): Series does not contain any data!"
  const EmptyMaxError: string := "Error in calcMaxValue(): Series does not contain any data!"
  const EmptyMedianError: string := "Error in calcMedianValue(): Series does not contain any data!"

  /** `calcMinValue`: the smallest value; an empty series throws. */
  function MinValue(data: seq<int>): (r: Result<int>)
    ensures r.Err? <==> |data| == 0
    ensures r.Ok? ==> r.value in data && forall i :: 0 <= i < |data| ==> r.value <= data[i]
    decreases |data|
  {
    if |data| == 0 then Err(EmptyMinError)
    else if |data| == 1 then Ok(data[0])
    else
      var m := MinValue(data[..|data| - 1]).value;
      assert data == data[..|data| - 1] + [data[|data| - 1]];
      Ok(if data[|data| - 1] < m then data[|data| - 1] else m)
  }

  /** `calcMaxValue`: the largest value; an empty series throws. */
  function MaxValue(data: seq<int>): (r: Result<int>)
    ensures r.Err? <==> |data| == 0
    ensures r.Ok? ==> r.value in data && forall i :: 0 <= i < |data| ==> data[i] <= r.value
    decreases |data|
  {
    if |data| == 0 then Err(EmptyMaxError)
    else if |data| == 1 then Ok(data[0])
    else
      var m := MaxValue(data[..|data| - 1]).value;
      assert data == data[..|data| - 1] + [data[|data| - 1]];
      Ok(if m < data[|data| - 1] then data[|data| - 1] else m)
  }

  /** Non-decreasing order. */
  predicate Sorted(s: seq<int>)
  {
    forall i, j :: 0 <= i < j < |s| ==> s[i] <= s[j]
  }

  /** A value inserted into a sorted sequence before the first larger-or-equal one. */
  function Insert(s: seq<int>, x: int): (r: seq<int>)
    ensures |r| == |s| + 1 && multiset(r) == multiset(s) + multiset{x}
    decreases |s|
  {
    if |s| == 0 then [x]
    else if x <= s[0] then [x] + s
    else
      assert s == [s[0]] + s[1..];
      [s[0]] + Insert(s[1..], x)
  }

  /** The sorted copy `std::sort` produces; equal values are interchangeable. */
  function Sort(s: seq<int>): (r: seq<int>)
    ensures |r| == |s| && multiset(r) == multiset(s)
    decreases |s|
  {
    if |s| == 0 then []
    else
      assert s == [s[0]] + s[1..];
      Insert(Sort(s[1..]), s[0])
  }

  lemma {:induction false} InsertSorted(s: seq<int>, x: int)
    requires Sorted(s)
    ensures Sorted(Insert(s, x))
    decreases |s|
  {
    if |s| > 0 && x > s[0] {
      InsertSorted(s[1..], x);
      var rest := Insert(s[1..], x);
      forall k | 0 <= k < |rest|
        ensures s[0] <= rest[k]
      {
        assert rest[k] in multiset(rest);
        assert rest[k] in multiset(s[1..]) || rest[k] == x;
      }
    }
  }

  /** The copy is sorted. */
  lemma {:induction false} SortSorted(s: seq<int>)
    ensures Sorted(Sort(s))
    decreases |s|
  {
    if |s| > 0 {
      SortSorted(s[1..]);
      InsertSorted(Sort(s[1..]), s[0]);
    }
  }

  lemma {:induction false} InsertSmallest(s: seq<int>, x: int)
    requires Sorted(s) && (|s| == 0 || x <= s[0])
    ensures Insert(s, x) == [x] + s
  {
  }

  /** A sorted series is its own sorted copy. */
  lemma {:induction false} SortOfSorted(s: seq<int>)
    requires Sorted(s)
    ensures Sort(s) == s
    decreases |s|
  {
    if |s| > 0 {
      SortOfSorted(s[1..]);
      InsertSmallest(s[1..], s[0]);
      assert s == [s[0]] + s[1..];
    }
  }

  /** The number of values below v. */
  function Below(s: seq<int>, v: int): nat
    decreases |s|
  {
    if |s| == 0 then 0 else (if s[0] < v then 1 else 0) + Below(s[1..], v)
  }

  /** The number of values at most v. */
  function AtMost(s: seq<int>, v: int): nat
    decreases |s|
  {
    if |s| == 0 then 0 else (if s[0] <= v then 1 else 0) + AtMost(s[1..], v)
  }

  lemma {:induction false} InsertCounts(s: seq<int>, x: int, v: int)
    ensures Below(Insert(s, x), v) == Below(s, v) + (if x < v then 1 else 0)
    ensures AtMost(Insert(s, x), v) == AtMost(s, v) + (if x <= v then 1 else 0)
    decreases |s|
  {
    if |s| > 0 && x > s[0] {
      InsertCounts(s[1..], x, v);
      var r := Insert(s, x);
      assert r[1..] == Insert(s[1..], x);
    } else if |s| > 0 {
      assert ([x] + s)[1..] == s;
    }
  }

  /** Sorting does not change how many values lie below or at a bound. */
  lemma {:induction false} SortCounts(s: seq<int>, v: int)
    ensures Below(Sort(s), v) == Below(s, v) && AtMost(Sort(s), v) == AtMost(s, v)
    decreases |s|
  {
    if |s| > 0 {
      SortCounts(s[1..], v);
      InsertCounts(Sort(s[1..]), s[0], v);
    }
  }

  /** In a sorted sequence, fewer than k + 1 values lie below the one at k, and at least k + 1 are at most it. */
  lemma {:induction false} SortedRank(s: seq<int>, k: nat, v: int)
    requires Sorted(s) && k < |s| && v == s[k]
    ensures Below(s, v) <= k && AtMost(s, v) >= k + 1
    decreases |s|
  {
    if k == 0 {
      NoneBelow(s, v);
      assert AtMost(s, v) == 1 + AtMost(s[1..], v);
    } else {
      SortedRank(s[1..], k - 1, v);
    }
  }

  lemma {:induction false} NoneBelow(s: seq<int>, v: int)
    requires forall i :: 0 <= i < |s| ==> v <= s[i]
    ensures Below(s, v) == 0
    decreases |s|
  {
    if |s| > 0 {
      NoneBelow(s[1..], v);
    }
  }

  /**
   * `calcMedianValue` as written: the element at size / 2 - 1 of a sorted
   * copy, and the only element of a one-element series; an empty series
   * throws.
   */
  function MedianAsWritten(data: seq<int>): (r: Result<int>)
    ensures r.Err? <==> |data| == 0
    ensures r.Ok? ==> r.value in data
  {
    if |data| == 0 then Err(EmptyMedianError)
    else if |data| == 1 then Ok(data[0])
    else
      assert Sort(data)[|data| / 2 - 1] in multiset(Sort(data));
      Ok(Sort(data)[|data| / 2 - 1])
  }

  /**
   * The median the position size / 2 - 1 evidently aims at: the lower
   * median, at (size - 1) / 2 of the sorted copy. It agrees with the source
   * on every series of even size and on one element.
   */
  function Median(data: seq<int>): (r: Result<int>)
    ensures r.Err? <==> |data| == 0
    ensures r.Ok? ==> r.value in data
  {
    if |data| == 0 then Err(EmptyMedianError)
    else if |data| == 1 then Ok(data[0])
    else
      assert Sort(data)[(|data| - 1) / 2] in multiset(Sort(data));
      Ok(Sort(data)[(|data| - 1) / 2])
  }

  /** At most half of the values lie below the median, and more than half are at most it. */
  lemma MedianIsMedian(data: seq<int>)
    requires |data| > 0
    ensures Below(data, Median(data).value) <= (|data| - 1) / 2
    ensures AtMost(data, Median(data).value) >= (|data| + 1) / 2
  {
    var m := Median(data).value;
    SortSorted(data);
    SortCounts(data, m);
    if |data| == 1 {
      assert Sort(data) == Insert([], data[0]);
    }
    SortedRank(Sort(data), (|data| - 1) / 2, m);
  }

  /** The source's median has fewer than size / 2 values below it and at least size / 2 at most it. */
  lemma MedianAsWrittenRank(data: seq<int>)
    requires |data| > 1
    ensures Below(data, MedianAsWritten(data).value) <= |data| / 2 - 1
    ensures AtMost(data, MedianAsWritten(data).value) >= |data| / 2
  {
    var m := MedianAsWritten(data).value;
    SortSorted(data);
    SortCounts(data, m);
    SortedRank(Sort(data), |data| / 2 - 1, m);
  }

  /** The two agree on series of even size and on one element. */
  lemma MedianAgrees(data: seq<int>)
    requires |data| % 2 == 0 || |data| == 1
    ensures MedianAsWritten(data) == Median(data)
  {
  }

  /**
   * Of three increasing values (such as 1, 2, 3) the source reports the
   * smallest, which has only one value at most it, not the two a median has.
   */
  lemma MedianAsWrittenOddSize(x: int, y: int, z: int)
    requires x < y < z
    ensures MedianAsWritten([x, y, z]) == Ok(x)
    ensures AtMost([x, y, z], x) == 1 < (3 + 1) / 2
  {
    var s := [x, y, z];
    assert Sorted(s);
    MedianAsWrittenOfSorted(s);
    OnlySmallestAtMost(x, [y, z]);
    assert [x] + [y, z] == s;
  }

  /** On a sorted series of two or more values the source reports the value at size / 2 - 1. */
  lemma MedianAsWrittenOfSorted(s: seq<int>)
    requires Sorted(s) && |s| >= 2
    ensures MedianAsWritten(s) == Ok(s[|s| / 2 - 1])
  {
    SortOfSorted(s);
  }

  /** A value below all of the rest has itself alone at most it. */
  lemma OnlySmallestAtMost(x: int, rest: seq<int>)
    requires forall i :: 0 <= i < |rest| ==> x < rest[i]
    ensures AtMost([x] + rest, x) == 1
  {
    assert ([x] + rest)[1..] == rest;
    NoneAtMost(rest, x);
  }

  /** No value is at most one below all of them. */
  lemma {:induction false} NoneAtMost(s: seq<int>, v: int)
    requires forall i :: 0 <= i < |s| ==> v < s[i]
    ensures AtMost(s, v) == 0
    decreases |s|
  {
    if |s| > 0 {
      NoneAtMost(s[1..], v);
    }
  }

  /** The minimum and maximum of the integer series test: -666 and 0xAFFE. */
  lemma MinMaxExample()
    ensures MinValue([42, 4, 17, 0xAFFE, -12, 0, -666, 100]) == Ok(-666)
    ensures MaxValue([42, 4, 17, 0xAFFE, -12, 0, -666, 100]) == Ok(0xAFFE)
  {
    var data := [42, 4, 17, 0xAFFE, -12, 0, -666, 100];
    assert data[6] == -666 && data[3] == 0xAFFE;
  }

  /** Of the values of the integer series test, only 4 has at most 3 values below and at least 4 at most it. */
  lemma RankInExample(v: int)
    requires v in [42, 4, 17, 0xAFFE, -12, 0, -666, 100]
    requires Below([42, 4, 17, 0xAFFE, -12, 0, -666, 100], v) <= 3
    requires AtMost([42, 4, 17, 0xAFFE, -12, 0, -666, 100], v) >= 4
    ensures v == 4
  {
  }

  /** The median of the integer series test: 4. */
  lemma MedianExample()
    ensures MedianAsWritten([42, 4, 17, 0xAFFE, -12, 0, -666, 100]) == Ok(4)
  {
    var data := [42, 4, 17, 0xAFFE, -12, 0, -666, 100];
    MedianAsWrittenRank(data);
    RankInExample(MedianAsWritten(data).value);
  }
}

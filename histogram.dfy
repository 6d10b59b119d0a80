/**
 * Histogram bins (`HistogramBin`) with their ordering and increments, and
 * the histogram (`Histogram`) that counts occurrences per bin and reports
 * its bins by id or by descending counter.
 */
module Histograms {
  import opened Results
  import opened BitOps

  // The messages of the exceptions thrown here.
  const OccurrenceIdError: string := "Histogram: Occurence id is outside bin-bounds."

  /** A bin as a value: its id and its counter (`HistogramPair` holds the same two numbers). */
  datatype Bin = Bin(id: nat, counter: nat)

  /** `HistogramBin <`: a smaller counter, or the same counter and a larger id. */
  predicate Less(a: Bin, b: Bin)
  {
    a.counter < b.counter || (a.counter == b.counter && a.id > b.id)
  }

  /** `HistogramBin ==`: the same id, whatever the counters. */
  predicate SameBin(a: Bin, b: Bin)
  {
    a.id == b.id
  }

  /** `<` is a strict order, total on bins with different ids. */
  lemma LessIsStrictOrder(a: Bin, b: Bin, c: Bin)
    ensures !Less(a, a)
    ensures Less(a, b) ==> !Less(b, a)
    ensures Less(a, b) && Less(b, c) ==> Less(a, c)
    ensures !SameBin(a, b) ==> Less(a, b) || Less(b, a)
  {
  }

  /** A bin after `++`: the counter, an `unsigned int`, grows by one modulo 2^32. */
  function Bumped(b: Bin): (r: Bin)
    ensures SameBin(r, b)
    ensures b.counter + 1 < Limit32 ==> Less(b, r) && r.counter == b.counter + 1
    ensures b.counter + 1 == Limit32 ==> r.counter == 0
  {
    Bin(b.id, (b.counter + 1) % Limit32)
  }

  /** The copy `getSorted` makes of the bins, one bin at a time. */
  method CopyBins(bins: seq<Bin>) returns (copy: seq<Bin>)
    ensures copy == bins
  {
    copy := [];
    var i := 0;
    while i < |bins|
      invariant 0 <= i <= |bins| && copy == bins[..i]
    {
      copy := copy + [bins[i]];
      i := i + 1;
    }
  }

  /** The read-out loop of `getSorted`: the sorted bins appended from the last to the first. */
  method AppendFromLargest(result: seq<(nat, nat)>, sorted: seq<Bin>) returns (r: seq<(nat, nat)>)
    ensures r == result + Pairs(Reversed(sorted))
  {
    ghost var rev := Reversed(sorted);
    r := result;
    var k := |sorted|;
    while k > 0
      invariant 0 <= k <= |sorted| && r == result + Pairs(rev[..|sorted| - k])
    {
      k := k - 1;
      assert rev[..|sorted| - k] == rev[..|sorted| - k - 1] + [sorted[k]];
      PairsSnoc(rev[..|sorted| - k - 1], sorted[k]);
      r := r + [(sorted[k].id, sorted[k].counter)];
    }
    assert rev[..|sorted|] == rev;
  }

  /** `HistogramBin`: a bin whose counter the increments change in place. */
  class HistogramBin {
    var id: nat
    var counter: nat

    function Value(): Bin
      reads this
    {
      Bin(id, counter)
    }

    /** A new bin with the given id counts 0. */
    constructor(idVal: nat)
      ensures Value() == Bin(idVal, 0)
    {
      id, counter := idVal, 0;
    }

    /** The copy constructor. */
    constructor Copy(other: HistogramBin)
      ensures Value() == other.Value()
    {
      id, counter := other.id, other.counter;
    }

    /** `++bin`. */
    method PreIncrement()
      modifies this
      ensures Value() == Bumped(old(Value()))
    {
      counter := (counter + 1) % Limit32;
    }

    /** `bin++`: the bin as it was before the increment. */
    method PostIncrement() returns (res: Bin)
      modifies this
      ensures res == old(Value()) && Value() == Bumped(res)
    {
      res := Value();
      counter := (counter + 1) % Limit32;
    }
  }

  /** The increment and ordering tests: a copy before `++` keeps count 0, and bins compare by counter first. */
  lemma BinExamples()
    ensures Bumped(Bumped(Bin(42, 0))) == Bin(42, 2)
    ensures Less(Bin(555, 0), Bin(17, 2)) && Less(Bin(17, 1), Bin(17, 2)) && Less(Bin(555, 0), Bin(17, 1))
    ensures SameBin(Bin(17, 2), Bin(17, 1))
    ensures Less(Bin(17, 2), Bin(555, 3)) && Less(Bin(17, 1), Bin(555, 3))
  {
  }

  /** Strictly ascending in the bin order. */
  predicate Ascending(s: seq<Bin>)
  {
    forall i, j :: 0 <= i < j < |s| ==> Less(s[i], s[j])
  }

  /** No two bins share an id. */
  predicate DistinctIds(s: seq<Bin>)
  {
    forall i, j :: 0 <= i < j < |s| ==> s[i].id != s[j].id
  }

  /** A bin inserted before the first larger one. */
  function InsertBin(s: seq<Bin>, b: Bin): (r: seq<Bin>)
    ensures |r| == |s| + 1 && multiset(r) == multiset(s) + multiset{b}
    decreases |s|
  {
    if |s| == 0 then [b]
    else if Less(b, s[0]) then [b] + s
    else
      assert s == [s[0]] + s[1..];
      [s[0]] + InsertBin(s[1..], b)
  }

  /** The bins sorted by `<`, as `std::sort` orders them. */
  function SortBins(s: seq<Bin>): (r: seq<Bin>)
    ensures |r| == |s| && multiset(r) == multiset(s)
    decreases |s|
  {
    if |s| == 0 then []
    else
      assert s == [s[0]] + s[1..];
      InsertBin(SortBins(s[1..]), s[0])
  }

  lemma {:induction false} InsertBinAscending(s: seq<Bin>, b: Bin)
    requires Ascending(s) && forall i :: 0 <= i < |s| ==> s[i].id != b.id
    ensures Ascending(InsertBin(s, b))
    decreases |s|
  {
    if |s| > 0 && !Less(b, s[0]) {
      assert Less(s[0], b);
      InsertBinAscending(s[1..], b);
      var rest := InsertBin(s[1..], b);
      forall k | 0 <= k < |rest|
        ensures Less(s[0], rest[k])
      {
        assert rest[k] in multiset(rest);
        assert rest[k] in multiset(s[1..]) || rest[k] == b;
      }
    }
  }

  /** Bins with distinct ids sort into strictly ascending order. */
  lemma {:induction false} SortBinsAscending(s: seq<Bin>)
    requires DistinctIds(s)
    ensures Ascending(SortBins(s))
    decreases |s|
  {
    if |s| > 0 {
      SortBinsAscending(s[1..]);
      var rest := SortBins(s[1..]);
      forall i | 0 <= i < |rest|
        ensures rest[i].id != s[0].id
      {
        assert rest[i] in multiset(s[1..]);
      }
      InsertBinAscending(rest, s[0]);
    }
  }

  /** The sequence read from its end. */
  function Reversed(s: seq<Bin>): (r: seq<Bin>)
    ensures |r| == |s| && forall i :: 0 <= i < |s| ==> r[i] == s[|s| - 1 - i]
  {
    seq(|s|, i requires 0 <= i < |s| => s[|s| - 1 - i])
  }

  lemma {:induction false} ReversedMultiset(s: seq<Bin>)
    ensures multiset(Reversed(s)) == multiset(s)
    decreases |s|
  {
    if |s| > 0 {
      var init := s[..|s| - 1];
      ReversedMultiset(init);
      assert Reversed(s) == [s[|s| - 1]] + Reversed(init);
      assert s == init + [s[|s| - 1]];
    }
  }

  /** The (id, counter) pairs of bins. */
  function Pairs(s: seq<Bin>): (r: seq<(nat, nat)>)
    ensures |r| == |s| && forall i :: 0 <= i < |s| ==> r[i] == (s[i].id, s[i].counter)
  {
    seq(|s|, i requires 0 <= i < |s| => (s[i].id, s[i].counter))
  }

  lemma PairsSnoc(s: seq<Bin>, b: Bin)
    ensures Pairs(s + [b]) == Pairs(s) + [(b.id, b.counter)]
  {
    assert Pairs(s + [b]) == Pairs(s) + [(b.id, b.counter)];
  }

  /** The bins `getSorted` reports: sorted by `<`, read from the largest. */
  function SortedReport(bins: seq<Bin>): seq<Bin>
  {
    Reversed(SortBins(bins))
  }

  /**
   * Bins with distinct ids are reported each once, by descending counter,
   * and by ascending id among equal counters.
   */
  lemma SortedReportOrder(bins: seq<Bin>)
    requires DistinctIds(bins)
    ensures multiset(SortedReport(bins)) == multiset(bins)
    ensures forall i, j :: 0 <= i < j < |bins| ==>
      SortedReport(bins)[j].counter < SortedReport(bins)[i].counter ||
      (SortedReport(bins)[j].counter == SortedReport(bins)[i].counter &&
       SortedReport(bins)[i].id < SortedReport(bins)[j].id)
  {
    SortBinsAscending(bins);
    ReversedMultiset(SortBins(bins));
  }

  /** `Histogram`: one bin per id from 0, each counting occurrences. */
  class Histogram {
    var bins: seq<Bin>

    /** Bin i has id i, and counters are `unsigned int` values. */
    ghost predicate Valid()
      reads this
    {
      forall i :: 0 <= i < |bins| ==> bins[i].id == i && bins[i].counter < Limit32
    }

    /** The constructor: bins with ids 0 to numberBins - 1, each counting 0. */
    constructor(numberBins: nat)
      ensures Valid() && |bins| == numberBins
      ensures forall i :: 0 <= i < numberBins ==> bins[i] == Bin(i, 0)
    {
      var bs: seq<Bin> := [];
      var id := 0;
      while id < numberBins
        invariant 0 <= id <= numberBins && |bs| == id
        invariant forall i :: 0 <= i < id ==> bs[i] == Bin(i, 0)
      {
        bs := bs + [Bin(id, 0)];
        id := id + 1;
      }
      bins := bs;
    }

    /** `occured`: bin id counts one more; an id past the bins throws. */
    method Occured(id: nat) returns (o: Outcome)
      requires Valid()
      modifies this
      ensures Valid()
      ensures id >= |old(bins)| ==> o.Fail? && bins == old(bins)
      ensures id < |old(bins)| ==> o == Done && bins == old(bins)[id := Bumped(old(bins)[id])]
    {
      if id >= |bins| {
        return Fail(OccurrenceIdError);
      }
      bins := bins[id := Bumped(bins[id])];
      return Done;
    }

    /** `getSorted`: the bins appended to the result, a sorted copy read from its largest bin. */
    method GetSorted(result: seq<(nat, nat)>) returns (r: seq<(nat, nat)>)
      ensures r == result + Pairs(SortedReport(bins))
    {
      var copy := CopyBins(bins);
      var sorted := SortBins(copy);
      r := AppendFromLargest(result, sorted);
    }

    /** `getUnsorted`: the bins appended to the result in id order. */
    method GetUnsorted(result: seq<(nat, nat)>) returns (r: seq<(nat, nat)>)
      requires Valid()
      ensures |r| == |result| + |bins| && r[..|result|] == result
      ensures forall i :: 0 <= i < |bins| ==> r[|result| + i] == (i, bins[i].counter)
    {
      r := result;
      var i := 0;
      while i < |bins|
        invariant 0 <= i <= |bins| && |r| == |result| + i && r[..|result|] == result
        invariant forall j :: 0 <= j < i ==> r[|result| + j] == (j, bins[j].counter)
      {
        r := r + [(bins[i].id, bins[i].counter)];
        i := i + 1;
      }
    }
  }

  /** A valid histogram's bins have distinct ids, so its sorted report orders them fully. */
  lemma ValidBinsDistinct(bins: seq<Bin>)
    requires forall i :: 0 <= i < |bins| ==> bins[i].id == i
    ensures DistinctIds(bins)
  {
  }
}

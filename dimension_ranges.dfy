/**
 * Intervals and the per-dimension range map of the bitvector classifier:
 * the domain of one header field is partitioned into segments, each
 * carrying a bitvector whose bit k says whether rule k covers the segment.
 */
module DimensionRanges {
  import opened BitOps
  import opened Results
  import opened Bitvectors

  // The messages of the exceptions thrown here.
  const StoragePositionError: string := "Bitvector: Invalid position for getting storage value was given!"
  const SearchValueError: string := "DimensionRanges: Invalid value for searching was given!"
  const NoRangeError: string := "No matching range was found"

  /** `Range<T>`: a closed interval of field values. */
  datatype Range = Range(min: nat, max: nat)

  /** `operator<`: lexicographic on (min, max). */
  predicate Less(a: Range, b: Range)
  {
    a.min < b.min || (a.min == b.min && a.max < b.max)
  }

  /** `overlaps`: one interval holds the lower bound of the other. */
  predicate Overlaps(a: Range, b: Range)
  {
    (a.min <= b.min && a.max >= b.min) || (b.min <= a.min && b.max >= a.min)
  }

  predicate Contains(r: Range, v: nat)
  {
    r.min <= v <= r.max
  }

  predicate Proper(r: Range)
  {
    r.min <= r.max
  }

  /** `<` is a strict total order whose equivalence is `==` (componentwise). */
  lemma LessIsStrictTotalOrder(a: Range, b: Range, c: Range)
    ensures !Less(a, a)
    ensures Less(a, b) ==> !Less(b, a)
    ensures Less(a, b) && Less(b, c) ==> Less(a, c)
    ensures Less(a, b) || a == b || Less(b, a)
  {
  }

  /** `overlaps` is symmetric, and for proper intervals it holds iff they share a value. */
  lemma OverlapsMeansCommonValue(a: Range, b: Range)
    ensures Overlaps(a, b) == Overlaps(b, a)
    ensures Proper(a) && Proper(b) ==> (Overlaps(a, b) <==> exists v :: Contains(a, v) && Contains(b, v))
  {
    if Proper(a) && Proper(b) && Overlaps(a, b) {
      var v := if a.min >= b.min then a.min else b.min;
      assert Contains(a, v) && Contains(b, v);
    }
  }

  /** An entry of the range map: a segment of the domain and its bitvector. */
  datatype Segment = Segment(range: Range, bits: BitvectorValue)

  /** The segments occupy lo..hi in order, without gap or overlap. */
  predicate PartitionFrom(segs: seq<Segment>, lo: nat, hi: nat)
    decreases |segs|
  {
    |segs| > 0 && segs[0].range.min == lo && Proper(segs[0].range) &&
    if |segs| == 1 then segs[0].range.max == hi
    else PartitionFrom(segs[1..], segs[0].range.max + 1, hi)
  }

  /** Every segment carries a well-formed bitvector of n bits. */
  predicate Sized(segs: seq<Segment>, n: nat)
  {
    forall i :: 0 <= i < |segs| ==> ValidValue(segs[i].bits) && segs[i].bits.size == n
  }

  /** Every segment's bitvector accepts position p. */
  predicate Positions(segs: seq<Segment>, p: nat)
  {
    forall i :: 0 <= i < |segs| ==> ValidPosition(segs[i].bits, p)
  }

  predicate AllProper(segs: seq<Segment>)
  {
    forall i :: 0 <= i < |segs| ==> Proper(segs[i].range)
  }

  /** Some segment overlaps `key`: the ones `equal_range(key)` visits. */
  predicate AnyOverlap(segs: seq<Segment>, key: Range)
  {
    exists i :: 0 <= i < |segs| && Overlaps(segs[i].range, key)
  }

  /** The bitvector of the first segment holding v. */
  function Lookup(segs: seq<Segment>, v: nat): Option<BitvectorValue>
  {
    if |segs| == 0 then None
    else if Contains(segs[0].range, v) then Some(segs[0].bits)
    else Lookup(segs[1..], v)
  }

  /** `find(key)`: the bitvector of the first segment overlapping key. */
  function Find(segs: seq<Segment>, key: Range): Option<BitvectorValue>
  {
    if |segs| == 0 then None
    else if Overlaps(segs[0].range, key) then Some(segs[0].bits)
    else Find(segs[1..], key)
  }

  /**
   * What `addRange` puts in place of a segment found overlapping key: the
   * segment with bit p set when it lies inside key; otherwise the part before
   * key and the part after key with the old bitvector, around the overlap
   * with bit p set.
   */
  function Pieces(found: Segment, key: Range, p: nat): seq<Segment>
    requires ValidPosition(found.bits, p)
  {
    var f := found.range;
    if f.min >= key.min && f.max <= key.max then [Segment(f, SetBitValue(found.bits, p))]
    else
      var pre := if f.min < key.min then [Segment(Range(f.min, key.min - 1), found.bits)] else [];
      var post := if key.max < f.max then [Segment(Range(key.max + 1, f.max), found.bits)] else [];
      var lower := if key.min > f.min then key.min else f.min;
      var upper := if key.max < f.max then key.max else f.max;
      pre + [Segment(Range(lower, upper), SetBitValue(found.bits, p))] + post
  }

  /** One segment after `addRange(key, p)`. */
  function Step(s: Segment, key: Range, p: nat): seq<Segment>
    requires ValidPosition(s.bits, p)
  {
    if Overlaps(s.range, key) then Pieces(s, key, p) else [s]
  }

  /** The whole map after `addRange(key, p)`. */
  function AddRangeSegs(segs: seq<Segment>, key: Range, p: nat): seq<Segment>
    requires Positions(segs, p)
  {
    if |segs| == 0 then []
    else Step(segs[0], key, p) + AddRangeSegs(segs[1..], key, p)
  }

  // ---------------------------------------------------------------------
  // Lemmas about the range map
  // ---------------------------------------------------------------------

  lemma {:induction false} AddRangeSegsSnoc(segs: seq<Segment>, s: Segment, key: Range, p: nat)
    requires Positions(segs + [s], p)
    ensures Positions(segs, p) && ValidPosition(s.bits, p)
    ensures AddRangeSegs(segs + [s], key, p) == AddRangeSegs(segs, key, p) + Step(s, key, p)
    decreases |segs|
  {
    assert ValidPosition((segs + [s])[|segs|].bits, p);
    if |segs| > 0 {
      assert (segs + [s])[1..] == segs[1..] + [s];
      assert ValidPosition((segs + [s])[0].bits, p);
      AddRangeSegsSnoc(segs[1..], s, key, p);
    }
  }

  /** Segments of one size accept exactly the positions a new vector of that size accepts. */
  lemma SizedPositions(segs: seq<Segment>, n: nat, p: nat)
    requires Sized(segs, n) && ValidPosition(Zeroes(n), p)
    ensures Positions(segs, p)
  {
  }

  lemma {:induction false} PartitionAppend(a: seq<Segment>, b: seq<Segment>, lo: nat, m: nat, hi: nat)
    requires PartitionFrom(a, lo, m) && PartitionFrom(b, m + 1, hi)
    ensures PartitionFrom(a + b, lo, hi)
    decreases |a|
  {
    if |a| > 1 {
      assert (a + b)[1..] == a[1..] + b;
      PartitionAppend(a[1..], b, a[0].range.max + 1, m, hi);
    } else {
      assert (a + b)[1..] == b;
    }
  }

  /** The pieces of a split segment partition exactly that segment. */
  lemma PiecesPartition(found: Segment, key: Range, p: nat)
    requires ValidPosition(found.bits, p) && Proper(found.range) && Proper(key)
    requires Overlaps(found.range, key)
    ensures PartitionFrom(Pieces(found, key, p), found.range.min, found.range.max)
  {
    var f := found.range;
    if !(f.min >= key.min && f.max <= key.max) {
      var lower := if key.min > f.min then key.min else f.min;
      var upper := if key.max < f.max then key.max else f.max;
      var mid := [Segment(Range(lower, upper), SetBitValue(found.bits, p))];
      var post := if key.max < f.max then [Segment(Range(key.max + 1, f.max), found.bits)] else [];
      assert PartitionFrom(mid + post, lower, f.max) by {
        if key.max < f.max {
          PartitionAppend(mid, post, lower, upper, f.max);
        } else {
          assert mid + post == mid;
        }
      }
      if f.min < key.min {
        var pre := [Segment(Range(f.min, key.min - 1), found.bits)];
        PartitionAppend(pre, mid + post, f.min, key.min - 1, f.max);
        assert pre + mid + post == pre + (mid + post);
      } else {
        assert Pieces(found, key, p) == mid + post;
      }
    }
  }

  /** `addRange` with a proper key keeps the segments a partition of the domain. */
  lemma {:induction false} AddRangePartition(segs: seq<Segment>, key: Range, p: nat, lo: nat, hi: nat)
    requires Positions(segs, p) && Proper(key) && PartitionFrom(segs, lo, hi)
    ensures PartitionFrom(AddRangeSegs(segs, key, p), lo, hi)
    decreases |segs|
  {
    var s := segs[0];
    assert ValidPosition(segs[0].bits, p);
    assert PartitionFrom(Step(s, key, p), lo, s.range.max) by {
      if Overlaps(s.range, key) {
        PiecesPartition(s, key, p);
      }
    }
    if |segs| == 1 {
      assert AddRangeSegs(segs, key, p) == Step(s, key, p) + [];
    } else {
      AddRangePartition(segs[1..], key, p, s.range.max + 1, hi);
      PartitionAppend(Step(s, key, p), AddRangeSegs(segs[1..], key, p), lo, s.range.max, hi);
    }
  }

  /** `addRange` keeps every bitvector well formed and of the same size. */
  lemma {:induction false} AddRangeSized(segs: seq<Segment>, key: Range, p: nat, n: nat)
    requires Positions(segs, p) && Sized(segs, n)
    ensures Sized(AddRangeSegs(segs, key, p), n)
    decreases |segs|
  {
    if |segs| > 0 {
      var s := segs[0];
      assert ValidPosition(s.bits, p) && ValidValue(s.bits) && s.bits.size == n;
      ValueOperationsKeepValid(s.bits, s.bits, p);
      AddRangeSized(segs[1..], key, p, n);
    }
  }

  lemma {:induction false} LookupAppend(a: seq<Segment>, b: seq<Segment>, v: nat)
    ensures Lookup(a + b, v) == if Lookup(a, v).Some? then Lookup(a, v) else Lookup(b, v)
    decreases |a|
  {
    if |a| > 0 {
      assert (a + b)[1..] == a[1..] + b;
      LookupAppend(a[1..], b, v);
    } else {
      assert a + b == b;
    }
  }

  /** Looking a value up among the pieces of a split segment. */
  lemma PiecesLookup(found: Segment, key: Range, p: nat, v: nat)
    requires ValidPosition(found.bits, p) && Proper(found.range) && Proper(key)
    requires Overlaps(found.range, key)
    ensures Lookup(Pieces(found, key, p), v) ==
      if !Contains(found.range, v) then None
      else if Contains(key, v) then Some(SetBitValue(found.bits, p))
      else Some(found.bits)
  {
    var f := found.range;
    if !(f.min >= key.min && f.max <= key.max) {
      var lower := if key.min > f.min then key.min else f.min;
      var upper := if key.max < f.max then key.max else f.max;
      var pre := if f.min < key.min then [Segment(Range(f.min, key.min - 1), found.bits)] else [];
      var mid := [Segment(Range(lower, upper), SetBitValue(found.bits, p))];
      var post := if key.max < f.max then [Segment(Range(key.max + 1, f.max), found.bits)] else [];
      LookupAppend(pre + mid, post, v);
      LookupAppend(pre, mid, v);
    }
  }

  /**
   * After `addRange(key, p)` every value keeps the bitvector it had, with bit
   * p set exactly when the value lies inside key.
   */
  lemma {:induction false} AddRangeLookup(segs: seq<Segment>, key: Range, p: nat, v: nat)
    requires Positions(segs, p) && AllProper(segs) && Proper(key)
    ensures Lookup(AddRangeSegs(segs, key, p), v).Some? == Lookup(segs, v).Some?
    ensures Lookup(segs, v).Some? ==> var b := Lookup(segs, v).value;
      ValidPosition(b, p) && Lookup(AddRangeSegs(segs, key, p), v).value == if Contains(key, v) then SetBitValue(b, p) else b
    decreases |segs|
  {
    if |segs| > 0 {
      if Lookup(segs, v).Some? {
        var j := LookupIndex(segs, v);
      }
      var s := segs[0];
      assert ValidPosition(s.bits, p) && Proper(s.range);
      LookupAppend(Step(s, key, p), AddRangeSegs(segs[1..], key, p), v);
      if Overlaps(s.range, key) {
        PiecesLookup(s, key, p, v);
      } else if Contains(s.range, v) {
        OverlapsMeansCommonValue(s.range, key);
      }
      AddRangeLookup(segs[1..], key, p, v);
    }
  }

  /** A partition of lo..hi gives every value in lo..hi a bitvector; all its segments are proper and inside. */
  lemma {:induction false} PartitionCovers(segs: seq<Segment>, lo: nat, hi: nat, v: nat)
    requires PartitionFrom(segs, lo, hi)
    ensures AllProper(segs)
    ensures forall i :: 0 <= i < |segs| ==> lo <= segs[i].range.min && segs[i].range.max <= hi
    ensures lo <= v <= hi ==> Lookup(segs, v).Some?
    decreases |segs|
  {
    if |segs| > 1 {
      PartitionCovers(segs[1..], segs[0].range.max + 1, hi, v);
      forall i | 1 <= i < |segs|
        ensures Proper(segs[i].range) && lo <= segs[i].range.min && segs[i].range.max <= hi
      {
        assert segs[i] == segs[1..][i - 1];
      }
    }
  }

  /** With proper segments, finding the single-value key [v, v] is looking v up. */
  lemma {:induction false} FindPoint(segs: seq<Segment>, v: nat)
    requires AllProper(segs)
    ensures Find(segs, Range(v, v)) == Lookup(segs, v)
    decreases |segs|
  {
    if |segs| > 0 {
      assert Proper(segs[0].range);
      FindPoint(segs[1..], v);
    }
  }

  /** On a partition, a single value of the domain is found in the segment that holds it. */
  lemma PointSearch(segs: seq<Segment>, lo: nat, hi: nat, v: nat)
    ensures PartitionFrom(segs, lo, hi) && lo <= v <= hi ==>
      Lookup(segs, v).Some? && Find(segs, Range(v, v)) == Lookup(segs, v)
  {
    if PartitionFrom(segs, lo, hi) && lo <= v <= hi {
      PartitionCovers(segs, lo, hi, v);
      FindPoint(segs, v);
    }
  }

  /** On a partition of the domain, some segment overlaps a proper key iff the key meets the domain. */
  lemma AnyOverlapDomain(segs: seq<Segment>, lo: nat, hi: nat, key: Range)
    requires PartitionFrom(segs, lo, hi) && Proper(key)
    ensures AnyOverlap(segs, key) <==> Overlaps(Range(lo, hi), key)
  {
    PartitionCovers(segs, lo, hi, 0);
    if Overlaps(Range(lo, hi), key) {
      var v := if lo >= key.min then lo else key.min;
      PartitionCovers(segs, lo, hi, v);
      var i := LookupIndex(segs, v);
      OverlapsMeansCommonValue(segs[i].range, key);
    }
    if AnyOverlap(segs, key) {
      var i :| 0 <= i < |segs| && Overlaps(segs[i].range, key);
      OverlapsMeansCommonValue(segs[i].range, key);
      var w :| Contains(segs[i].range, w) && Contains(key, w);
      OverlapsMeansCommonValue(Range(lo, hi), key);
      assert Contains(Range(lo, hi), w);
    }
  }

  /** What `find` returns is the bitvector of one of the segments. */
  lemma {:induction false} FindSized(segs: seq<Segment>, n: nat, key: Range)
    ensures Sized(segs, n) && Find(segs, key).Some? ==>
      ValidValue(Find(segs, key).value) && Find(segs, key).value.size == n
    decreases |segs|
  {
    if |segs| > 0 && Sized(segs, n) {
      assert Sized(segs[1..], n) by {
        forall i | 0 <= i < |segs| - 1
          ensures ValidValue(segs[1..][i].bits) && segs[1..][i].bits.size == n
        {
          assert segs[1..][i] == segs[i + 1];
        }
      }
      FindSized(segs[1..], n, key);
    }
  }

  /** The index of the segment that `Lookup` finds. */
  lemma {:induction false} LookupIndex(segs: seq<Segment>, v: nat) returns (i: nat)
    requires Lookup(segs, v).Some?
    ensures i < |segs| && Contains(segs[i].range, v) && Lookup(segs, v) == Some(segs[i].bits)
    decreases |segs|
  {
    if Contains(segs[0].range, v) {
      i := 0;
    } else {
      var j := LookupIndex(segs[1..], v);
      i := j + 1;
    }
  }

  /** `DimensionRanges<T>`: the segments of one field's domain and their bitvectors. */
  class DimensionRanges {
    var ranges: seq<Segment>
    var bitvectorSize: nat
    var domainMin: nat
    var domainMax: nat

    /** The bitvectors are all of `bitvectorSize` bits and the value range is a proper domain. */
    predicate Valid()
      reads this
    {
      bitvectorSize < Limit32 && domainMin <= domainMax && Sized(ranges, bitvectorSize)
    }

    /** The segments partition [domainMin, domainMax]. */
    predicate Partitioned()
      reads this
    {
      PartitionFrom(ranges, domainMin, domainMax)
    }

    /** `DimensionRanges(bvSizes, min, max)`: one segment over the domain with a zero bitvector. */
    constructor(bvSizes: nat, min: nat, max: nat)
      requires bvSizes < Limit32 && min <= max
      ensures Valid() && Partitioned()
      ensures bitvectorSize == bvSizes && domainMin == min && domainMax == max
      ensures ranges == [Segment(Range(min, max), Zeroes(bvSizes))]
    {
      bitvectorSize := bvSizes;
      domainMin := min;
      domainMax := max;
      ranges := [Segment(Range(min, max), Zeroes(bvSizes))];
    }

    /** `reset`: clears the segments and puts back the single zero segment over the domain. */
    method Reset()
      requires Valid()
      modifies this
      ensures Valid() && Partitioned()
      ensures bitvectorSize == old(bitvectorSize) && domainMin == old(domainMin) && domainMax == old(domainMax)
      ensures ranges == [Segment(Range(domainMin, domainMax), Zeroes(bitvectorSize))]
    {
      ranges := [];
      ranges := ranges + [Segment(Range(domainMin, domainMax), Zeroes(bitvectorSize))];
    }

    /**
     * `addRange(min, max, bvPos)`: every segment overlapping [min, max] is
     * replaced by its pieces. A position the bitvectors refuse throws at the
     * first overlapping segment, before anything changes.
     */
    method AddRange(min: nat, max: nat, p: nat) returns (o: Outcome)
      requires Valid()
      modifies this
      ensures Valid()
      ensures bitvectorSize == old(bitvectorSize) && domainMin == old(domainMin) && domainMax == old(domainMax)
      ensures o.Fail? <==> AnyOverlap(old(ranges), Range(min, max)) && !ValidPosition(Zeroes(bitvectorSize), p)
      ensures !ValidPosition(Zeroes(bitvectorSize), p) ==> ranges == old(ranges)
      ensures ValidPosition(Zeroes(bitvectorSize), p) ==>
        (Positions(old(ranges), p) && ranges == AddRangeSegs(old(ranges), Range(min, max), p))
      ensures min <= max && old(Partitioned()) ==> Partitioned()
    {
      var key := Range(min, max);
      var segs := ranges;
      var valid := ValidPosition(Zeroes(bitvectorSize), p);
      if valid {
        SizedPositions(segs, bitvectorSize, p);
      }
      var result: seq<Segment> := [];
      var i := 0;
      while i < |segs|
        invariant 0 <= i <= |segs|
        invariant valid ==> result == AddRangeSegs(segs[..i], key, p)
        invariant !valid ==> result == segs[..i] && !AnyOverlap(segs[..i], key)
        invariant unchanged(this)
      {
        var found := segs[i];
        assert segs[..i + 1] == segs[..i] + [found];
        if Overlaps(found.range, key) {
          if !valid {
            assert AnyOverlap(segs, key);
            return Fail(StoragePositionError);
          }
          result := result + Pieces(found, key, p);
        } else {
          result := result + [found];
        }
        if valid {
          AddRangeSegsSnoc(segs[..i], found, key, p);
        }
        i := i + 1;
      }
      assert segs[..i] == segs;
      if valid {
        AddRangeSized(segs, key, p, bitvectorSize);
        if min <= max && PartitionFrom(segs, domainMin, domainMax) {
          AddRangePartition(segs, key, p, domainMin, domainMax);
        }
      }
      ranges := result;
      return Done;
    }

    /**
     * `search(key)`: throws for a key outside the domain, otherwise gives the
     * bitvector of the segment found overlapping key, and throws when none is.
     */
    function Search(key: Range): (r: Result<BitvectorValue>)
      reads this
      ensures key.min < domainMin || key.max > domainMax ==> r.Err?
      ensures (Partitioned() && key.min == key.max && domainMin <= key.min <= domainMax) ==>
        Lookup(ranges, key.min).Some? && r == Ok(Lookup(ranges, key.min).value)
      ensures Valid() && r.Ok? ==> ValidValue(r.value) && r.value.size == bitvectorSize
    {
      PointSearch(ranges, domainMin, domainMax, key.min);
      FindSized(ranges, bitvectorSize, key);
      if key.min < domainMin || key.max > domainMax then Err(SearchValueError)
      else match Find(ranges, key)
        case Some(b) => Ok(b)
        case None => Err(NoRangeError)
    }
  }
}

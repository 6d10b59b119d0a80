/**
 * The integer parts of the evaluation of a benchmark's runs: whether all
 * runs classified alike, the histogram of matched rules, the table of
 * chronometer values, and the read counters derived from the memory
 * results.
 */
module Evaluation {
  import opened Results
  import opened BitOps
  import opened MemTrace
  import opened Histograms

  /** Every run produced the same indices as the first (so also when there are no runs). */
  predicate AllMatch(runs: seq<seq<nat>>)
  {
    forall r :: 0 <= r < |runs| ==> runs[r] == runs[0]
  }

  /**
   * `compareIndices`: true without runs; otherwise the index count of every
   * run is compared with the first, then every index position.
   */
  method CompareIndices(runs: seq<seq<nat>>) returns (b: bool)
    ensures b <==> AllMatch(runs)
  {
    if |runs| == 0 {
      return true;
    }
    var amountIndices := |runs[0]|;
    var t := 1;
    while t < |runs|
      invariant 1 <= t <= |runs| && forall r :: 0 <= r < t ==> |runs[r]| == amountIndices
    {
      if |runs[t]| != amountIndices {
        return false;
      }
      t := t + 1;
    }
    var i := 0;
    while i < amountIndices
      invariant 0 <= i <= amountIndices && forall r :: 0 <= r < |runs| ==> |runs[r]| == amountIndices
      invariant forall r, k :: 0 <= r < |runs| && 0 <= k < i ==> runs[r][k] == runs[0][k]
    {
      var u := 1;
      while u < |runs|
        invariant 1 <= u <= |runs| && forall r :: 0 <= r < u ==> runs[r][i] == runs[0][i]
      {
        if runs[0][i] != runs[u][i] {
          return false;
        }
        u := u + 1;
      }
      i := i + 1;
    }
    forall r | 0 <= r < |runs|
      ensures runs[r] == runs[0]
    {
      assert |runs[r]| == amountIndices;
    }
    return true;
  }

  /** A new histogram's bins: ids 0 to n - 1, each counting 0. */
  function Initial(n: nat): (r: seq<Bin>)
    ensures |r| == n && forall i :: 0 <= i < n ==> r[i] == Bin(i, 0)
  {
    seq(n, i requires 0 <= i < n => Bin(i, 0))
  }

  /** An index `occured` is called with: below `noRuleIsMatching()`, as the `unsigned int` it is cast to. */
  predicate Counted(x: nat)
  {
    x < NoRuleIsMatching
  }

  /** The bins after each counted index has hit its bin, in order; an index past the bins hits none. */
  function Tally(bins: seq<Bin>, indices: seq<nat>): (r: seq<Bin>)
    ensures |r| == |bins| && forall i :: 0 <= i < |bins| ==> r[i].id == bins[i].id
    decreases |indices|
  {
    if |indices| == 0 then bins
    else
      var prev := Tally(bins, indices[..|indices| - 1]);
      var x := indices[|indices| - 1];
      if Counted(x) && x % Limit32 < |prev| then prev[x % Limit32 := Bumped(prev[x % Limit32])] else prev
  }

  /** Every counted index falls inside n bins, so `occured` never throws. */
  predicate Countable(indices: seq<nat>, n: nat)
  {
    forall i :: 0 <= i < |indices| && Counted(indices[i]) ==> indices[i] % Limit32 < n
  }

  /** How many counted indices hit bin id. */
  function Hits(indices: seq<nat>, id: nat): nat
    decreases |indices|
  {
    if |indices| == 0 then 0
    else
      var x := indices[|indices| - 1];
      Hits(indices[..|indices| - 1], id) + (if Counted(x) && x % Limit32 == id then 1 else 0)
  }

  /** Each bin of the histogram counts the indices that hit it, modulo 2^32. */
  lemma {:induction false} TallyCounts(n: nat, indices: seq<nat>, id: nat)
    requires id < n
    ensures Tally(Initial(n), indices)[id] == Bin(id, Hits(indices, id) % Limit32)
    decreases |indices|
  {
    if |indices| > 0 {
      var init := indices[..|indices| - 1];
      TallyCounts(n, init, id);
      var h := Hits(init, id);
      assert (h % Limit32 + 1) % Limit32 == (h + 1) % Limit32;
    }
  }

  /**
   * `createHistogram`: nothing for no rules; otherwise a histogram with a
   * bin per rule counts every index below `noRuleIsMatching()`, and its
   * sorted bins are appended. An index past the bins throws.
   */
  method CreateHistogram(indices: seq<nat>, amountRules: nat, hist: seq<(nat, nat)>) returns (o: Outcome, r: seq<(nat, nat)>)
    requires amountRules < Limit32
    ensures amountRules == 0 ==> o == Done && r == hist
    ensures amountRules > 0 ==> (o == Done <==> Countable(indices, amountRules))
    ensures o.Fail? ==> r == hist
    ensures amountRules > 0 && o == Done ==> r == hist + Pairs(SortedReport(Tally(Initial(amountRules), indices)))
  {
    if amountRules == 0 {
      return Done, hist;
    }
    var h := new Histogram(amountRules);
    assert h.bins == Initial(amountRules);
    var i := 0;
    while i < |indices|
      invariant 0 <= i <= |indices| && h.Valid() && h.bins == Tally(Initial(amountRules), indices[..i])
      invariant Countable(indices[..i], amountRules)
    {
      assert indices[..i + 1][..i] == indices[..i];
      if Counted(indices[i]) {
        o := h.Occured(indices[i] % Limit32);
        if o.Fail? {
          return o, hist;
        }
      }
      i := i + 1;
    }
    assert indices[..i] == indices;
    r := h.GetSorted(hist);
    o := Done;
  }

  /** The histogram reports every rule once, by descending count, each count being how often its rule matched. */
  lemma HistogramOfIndices(indices: seq<nat>, n: nat)
    ensures multiset(SortedReport(Tally(Initial(n), indices))) == multiset(Tally(Initial(n), indices))
    ensures forall i, j :: 0 <= i < j < n ==>
      SortedReport(Tally(Initial(n), indices))[j].counter < SortedReport(Tally(Initial(n), indices))[i].counter ||
      (SortedReport(Tally(Initial(n), indices))[j].counter == SortedReport(Tally(Initial(n), indices))[i].counter &&
       SortedReport(Tally(Initial(n), indices))[i].id < SortedReport(Tally(Initial(n), indices))[j].id)
    ensures forall id :: 0 <= id < n ==> Tally(Initial(n), indices)[id] == Bin(id, Hits(indices, id) % Limit32)
  {
    var bins := Tally(Initial(n), indices);
    assert DistinctIds(bins);
    SortedReportOrder(bins);
    forall id | 0 <= id < n
      ensures bins[id] == Bin(id, Hits(indices, id) % Limit32)
    {
      TallyCounts(n, indices, id);
    }
  }

  /** A chronometer result: category name and measured value. */
  type ChronoResult = (string, nat)

  /** The values of category c over the runs that have that many categories, in run order. */
  function Column(runs: seq<seq<ChronoResult>>, c: nat): (r: seq<nat>)
    ensures |r| <= |runs|
    decreases |runs|
  {
    if |runs| == 0 then []
    else
      var last := runs[|runs| - 1];
      Column(runs[..|runs| - 1], c) + (if c < |last| then [last[c].1] else [])
  }

  /** When every run has the categories of the first, a column holds category c of each run. */
  lemma {:induction false} ColumnOfEqualRuns(runs: seq<seq<ChronoResult>>, c: nat)
    requires forall t :: 0 <= t < |runs| ==> c < |runs[t]|
    ensures |Column(runs, c)| == |runs| && forall t :: 0 <= t < |runs| ==> Column(runs, c)[t] == runs[t][c].1
    decreases |runs|
  {
    if |runs| > 0 {
      ColumnOfEqualRuns(runs[..|runs| - 1], c);
    }
  }

  /** One run of `createChronoMeasurements`: the first run also records the names and opens a column per category. */
  method AddRun(names: seq<string>, measurements: seq<seq<nat>>, run: seq<ChronoResult>, init: bool)
    returns (names': seq<string>, measurements': seq<seq<nat>>)
    requires init ==> names == [] && measurements == []
    requires !init ==> |run| <= |measurements|
    ensures init ==> |names'| == |run| && |measurements'| == |run|
    ensures init ==> forall c :: 0 <= c < |run| ==> names'[c] == run[c].0 && measurements'[c] == [run[c].1]
    ensures !init ==> names' == names && |measurements'| == |measurements|
    ensures !init ==> forall c :: 0 <= c < |run| ==> measurements'[c] == measurements[c] + [run[c].1]
    ensures !init ==> forall c :: |run| <= c < |measurements| ==> measurements'[c] == measurements[c]
  {
    names', measurements' := names, measurements;
    var counter := 0;
    while counter < |run|
      invariant 0 <= counter <= |run|
      invariant init ==> |names'| == counter && |measurements'| == counter
      invariant init ==> forall c :: 0 <= c < counter ==> names'[c] == run[c].0 && measurements'[c] == [run[c].1]
      invariant !init ==> names' == names && |measurements'| == |measurements|
      invariant !init ==> forall c :: 0 <= c < counter ==> measurements'[c] == measurements[c] + [run[c].1]
      invariant !init ==> forall c :: counter <= c < |measurements| ==> measurements'[c] == measurements[c]
    {
      if init {
        names' := names' + [run[counter].0];
        measurements' := measurements' + [[]];
      }
      measurements' := measurements'[counter := measurements'[counter] + [run[counter].1]];
      counter := counter + 1;
    }
  }

  /**
   * `createChronoMeasurements`: the category names of the first run, and per
   * category the values of every run in run order. A run with more
   * categories than the first would index past the table, so none has.
   */
  method CreateChronoMeasurements(runs: seq<seq<ChronoResult>>) returns (names: seq<string>, measurements: seq<seq<nat>>)
    requires forall t :: 0 <= t < |runs| ==> |runs[t]| <= |runs[0]|
    ensures |runs| == 0 ==> names == [] && measurements == []
    ensures |runs| > 0 ==> |names| == |runs[0]| && |measurements| == |runs[0]|
    ensures |runs| > 0 ==> forall c :: 0 <= c < |runs[0]| ==> names[c] == runs[0][c].0 && measurements[c] == Column(runs, c)
  {
    names, measurements := [], [];
    var initSubStructure := true;
    var t := 0;
    while t < |runs|
      invariant 0 <= t <= |runs| && initSubStructure == (t == 0)
      invariant t == 0 ==> names == [] && measurements == []
      invariant t > 0 ==> |names| == |runs[0]| && |measurements| == |runs[0]|
      invariant t > 0 ==> forall c :: 0 <= c < |runs[0]| ==> names[c] == runs[0][c].0 && measurements[c] == Column(runs[..t], c)
    {
      ghost var before := measurements;
      names, measurements := AddRun(names, measurements, runs[t], initSubStructure);
      assert runs[..t + 1][..t] == runs[..t];
      forall c | 0 <= c < |runs[0]|
        ensures measurements[c] == Column(runs[..t + 1], c)
      {
        if t == 0 {
          assert runs[..1][..0] == [];
        }
      }
      initSubStructure := false;
      t := t + 1;
    }
    assert runs[..t] == runs;
  }

  /** `size_t` subtraction: the difference modulo 2^64. */
  function Sub(a: nat, b: nat): (r: nat)
    requires a < Word && b < Word
    ensures r < Word
    ensures b <= a ==> r == a - b
    ensures Add(r, b) == a
  {
    if b <= a then a - b else a - b + Word
  }

  /** The read counters of a memory result: accesses minus writes, in bytes and in count. */
  function ReadCounters(accBytes: nat, accWriteBytes: nat, accCount: nat, accWriteCount: nat): (r: (nat, nat))
    requires accBytes < Word && accWriteBytes < Word && accCount < Word && accWriteCount < Word
    ensures Add(r.0, accWriteBytes) == accBytes && Add(r.1, accWriteCount) == accCount
    ensures accWriteBytes <= accBytes && accWriteCount <= accCount ==>
      r.0 + accWriteBytes == accBytes && r.1 + accWriteCount == accCount
  {
    (Sub(accBytes, accWriteBytes), Sub(accCount, accWriteCount))
  }

  /**
   * The index part of `evalBenchmark`: the runs are compared, and only
   * when all match are the first run's indices kept and the histogram
   * built, with the rule count cast to `unsigned int`.
   */
  method EvaluateIndices(runs: seq<seq<nat>>, ruleCount: nat)
    returns (allMatch: bool, indices: seq<nat>, o: Outcome, hist: seq<(nat, nat)>)
    ensures allMatch <==> AllMatch(runs)
    ensures indices == if allMatch && |runs| > 0 then runs[0] else []
    ensures !allMatch ==> o == Done && hist == []
    ensures allMatch && ruleCount % Limit32 > 0 ==> (o == Done <==> Countable(indices, ruleCount % Limit32))
    ensures allMatch && o == Done && ruleCount % Limit32 > 0 ==>
      hist == Pairs(SortedReport(Tally(Initial(ruleCount % Limit32), indices)))
    ensures allMatch && ruleCount % Limit32 == 0 ==> o == Done && hist == []
  {
    allMatch := CompareIndices(runs);
    indices, o, hist := [], Done, [];
    if allMatch {
      if |runs| > 0 {
        indices := runs[0];
      }
      o, hist := CreateHistogram(indices, ruleCount % Limit32, hist);
    }
  }
}

/**
 * The counters of a group of traced objects (`MemGroupSnapshot`) and a
 * snapshot of all groups at one moment (`MemSnapshot`), with their
 * update, merge and per-group update.
 */
module MemSnapshots {
  import opened Results
  import opened BitOps
  import opened MemTrace

  // The messages of the exceptions thrown here.
  const MissingGroupError: string := "No MemGroupSnapshot object for merging passed (MemSnapshot::merge)."
  const GroupIdError: string := "Group id in MemSnapshot-groupUpdate() exceeds maximum group id."

  /** The six counters of a group. */
  datatype Counters = Counters(allocBytes: nat, allocMaxBytes: nat, accBytes: nat, accCount: nat,
                               accWriteBytes: nat, accWriteCount: nat)

  /** A new group: every counter 0. */
  const Zero := Counters(0, 0, 0, 0, 0, 0)

  /** Every counter is a `size_t` value. */
  predicate WordCounters(c: Counters)
  {
    c.allocBytes < Word && c.allocMaxBytes < Word && c.accBytes < Word && c.accCount < Word &&
    c.accWriteBytes < Word && c.accWriteCount < Word
  }

  /** The allocation maximum covers the current allocation. */
  predicate Consistent(c: Counters)
  {
    WordCounters(c) && c.allocBytes <= c.allocMaxBytes
  }

  /**
   * `update`: each value is added to its counter, and the allocation
   * maximum rises to the new allocation when that exceeds it.
   */
  function Updated(c: Counters, allocB: nat, accB: nat, accCnt: nat, accWriteB: nat, accWriteCnt: nat): (r: Counters)
    ensures r.allocMaxBytes >= c.allocMaxBytes && r.allocMaxBytes >= r.allocBytes
    ensures r.allocMaxBytes == c.allocMaxBytes || r.allocMaxBytes == r.allocBytes
    ensures WordCounters(c) ==> Consistent(r)
  {
    var alloc := Add(c.allocBytes, allocB);
    Counters(alloc, if c.allocMaxBytes < alloc then alloc else c.allocMaxBytes,
             Add(c.accBytes, accB), Add(c.accCount, accCnt), Add(c.accWriteBytes, accWriteB),
             Add(c.accWriteCount, accWriteCnt))
  }

  /** `update` with the five counters of a traced object. */
  function UpdatedBy(c: Counters, d: TraceValues): Counters
  {
    Updated(c, d.allocBytes, d.totalBytes, d.count, d.wBytes, d.countWrite)
  }

  /**
   * `merge`: the other group's allocation maximum is added to this one's,
   * then its counters are applied as by `update`.
   */
  function Merged(c: Counters, o: Counters): (r: Counters)
    ensures r.allocMaxBytes >= r.allocBytes
    ensures WordCounters(c) && WordCounters(o) ==> Consistent(r)
  {
    Updated(c.(allocMaxBytes := Add(c.allocMaxBytes, o.allocMaxBytes)),
            o.allocBytes, o.accBytes, o.accCount, o.accWriteBytes, o.accWriteCount)
  }

  /** Merging a consistent group into an empty one copies it. */
  lemma MergedIntoZero(o: Counters)
    requires Consistent(o)
    ensures Merged(Zero, o) == o
  {
  }

  /**
   * Adding a "negative" allocation lowers the allocation and leaves the
   * maximum where it was.
   */
  lemma UpdatedNegative(c: Counters, k: nat)
    requires Consistent(c) && 0 < k <= c.allocBytes
    ensures Updated(c, Word - k, 0, 0, 0, 0) == c.(allocBytes := c.allocBytes - k)
  {
    AddNegative(c.allocBytes, k);
  }

  /** The allocation counters the `groupUpdate` test walks through. */
  lemma UpdateSequenceExample()
    ensures var c1 := Updated(Zero, 0xA110C, 0xACCB, 0xACCC4, 0xAC3E, 0xAC3EC4);
            var c2 := Updated(c1, Word - 0xC, 100, 2000, 42, 3333);
            var c3 := Updated(c2, Word - 0xA1100, 11, 222, 42, 6667);
            c1.allocMaxBytes == 0xA110C && c2.allocBytes == 0xA1100 && c2.allocMaxBytes == 0xA110C &&
            c3.allocBytes == 0 && c3.allocMaxBytes == 0xA110C && c3.accBytes == 0xACCB + 111 &&
            c3.accCount == 0xACCC4 + 2222 && c3.accWriteBytes == 0xAC3E + 84 && c3.accWriteCount == 0xAC3EC4 + 10000
  {
    var c1 := Updated(Zero, 0xA110C, 0xACCB, 0xACCC4, 0xAC3E, 0xAC3EC4);
    UpdatedNegative(c1, 0xC);
    var c2 := Updated(c1, Word - 0xC, 100, 2000, 42, 3333);
    UpdatedNegative(c2.(accBytes := 0, accCount := 0, accWriteBytes := 0, accWriteCount := 0), 0xA1100);
  }

  /** A group snapshot held on its own, as the queries of the memory manager return it. */
  class MemGroupSnapshot {
    var allocBytes: nat
    var allocMaxBytes: nat
    var accBytes: nat
    var accCount: nat
    var accWriteBytes: nat
    var accWriteCount: nat

    function Value(): Counters
      reads this
    {
      Counters(allocBytes, allocMaxBytes, accBytes, accCount, accWriteBytes, accWriteCount)
    }

    /** The constructor: every counter 0. */
    constructor()
      ensures Value() == Zero
    {
      allocBytes, allocMaxBytes, accBytes, accCount, accWriteBytes, accWriteCount := 0, 0, 0, 0, 0, 0;
    }

    /** `update`, in place. */
    method Update(allocB: nat, accB: nat, accCnt: nat, accWriteB: nat, accWriteCnt: nat)
      modifies this
      ensures Value() == Updated(old(Value()), allocB, accB, accCnt, accWriteB, accWriteCnt)
    {
      allocBytes := Add(allocBytes, allocB);
      if allocMaxBytes < allocBytes {
        allocMaxBytes := allocBytes;
      }
      accBytes := Add(accBytes, accB);
      accCount := Add(accCount, accCnt);
      accWriteBytes := Add(accWriteBytes, accWriteB);
      accWriteCount := Add(accWriteCount, accWriteCnt);
    }

    /** `merge`, in place; a missing other group throws. */
    method Merge(other: Option<Counters>) returns (o: Outcome)
      modifies this
      ensures other.None? ==> o.Fail? && Value() == old(Value())
      ensures other.Some? ==> o == Done && Value() == Merged(old(Value()), other.value)
    {
      if other.None? {
        return Fail(MissingGroupError);
      }
      var g := other.value;
      allocMaxBytes := Add(allocMaxBytes, g.allocMaxBytes);
      Update(g.allocBytes, g.accBytes, g.accCount, g.accWriteBytes, g.accWriteCount);
      return Done;
    }
  }

  /** A snapshot as a value: the header count and the counters of every group. */
  datatype Snapshot = Snapshot(headers: nat, groups: seq<Counters>)

  /** `MemSnapshot`: the processed header count and the groups, the first created with it. */
  class MemSnapshot {
    var headers: nat
    var groups: seq<Counters>

    function Value(): Snapshot
      reads this
    {
      Snapshot(headers, groups)
    }

    /** The constructor: the given header count and one empty group. */
    constructor(h: nat)
      requires h < Limit32
      ensures Value() == Snapshot(h, [Zero])
    {
      headers := h;
      groups := [Zero];
    }

    /** The copy constructor: the same header count and a copy of every group. */
    constructor Copy(other: MemSnapshot)
      ensures Value() == other.Value()
    {
      headers := other.headers;
      groups := other.groups;
    }

    /** `groupAdd`: one more empty group. */
    method GroupAdd()
      modifies this
      ensures Value() == Snapshot(old(headers), old(groups) + [Zero])
    {
      groups := groups + [Zero];
    }

    /** `groupUpdate`: `update` on one group; an id past the groups throws. */
    method GroupUpdate(groupId: nat, allocB: nat, accB: nat, accCnt: nat, accWriteB: nat, accWriteCnt: nat)
      returns (o: Outcome)
      modifies this
      ensures groupId >= |old(groups)| ==> o.Fail? && Value() == old(Value())
      ensures groupId < |old(groups)| ==> o == Done && headers == old(headers)
      ensures groupId < |old(groups)| ==>
        groups == old(groups)[groupId := Updated(old(groups)[groupId], allocB, accB, accCnt, accWriteB, accWriteCnt)]
    {
      if groupId >= |groups| {
        return Fail(GroupIdError);
      }
      groups := groups[groupId := Updated(groups[groupId], allocB, accB, accCnt, accWriteB, accWriteCnt)];
      return Done;
    }
  }
}

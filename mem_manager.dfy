/**
 * The memory manager: traced objects register into the current group,
 * checkpoints store a snapshot that includes the objects still alive, and
 * queries aggregate the current or a stored snapshot.
 */
module MemManagement {
  import opened Results
  import opened BitOps
  import opened MemTrace
  import opened MemSnapshots

  // The messages of the exceptions thrown here.
  const SwitchGroupError: string := "Given group id is invalid for switching groups."
  const PastGroupError: string := "Given group id exceeds total number of groups (MemManager::getPastRecordByGroup)."
  const PastIndexError: string := "Given history index exceeds total history size (MemManager::getPastRecordTotal)."
  const CurrentGroupError: string := "Given group id exceeds total number of groups (MemManager::getCurrentByGroup)."

  /** A registered object and the group it was registered in. */
  datatype Entry = Entry(item: MemTraceData, group: nat)

  /** The objects of the entries. */
  function Items(es: seq<Entry>): set<MemTraceData>
  {
    set i | 0 <= i < |es| :: es[i].item
  }

  /** The group and the counters of each registered object, in registration order. */
  function Live(es: seq<Entry>): (r: seq<(nat, TraceValues)>)
    reads Items(es)
    ensures |r| == |es| && forall i :: 0 <= i < |es| ==> r[i] == (es[i].group, es[i].item.Values())
  {
    seq(|es|, i reads Items(es) requires 0 <= i < |es| => (es[i].group, es[i].item.Values()))
  }

  /** The position of an object among the entries. */
  function Find(es: seq<Entry>, t: MemTraceData): (r: Option<nat>)
    ensures r.Some? ==> r.value < |es| && es[r.value].item == t
    ensures r.None? <==> forall i :: 0 <= i < |es| ==> es[i].item != t
  {
    if |es| == 0 then None
    else if es[0].item == t then Some(0)
    else
      var rest := Find(es[1..], t);
      if rest.Some? then Some(rest.value + 1) else None
  }

  /** The groups after `groupUpdate` with the counters of every live object in order. */
  function ApplyLive(groups: seq<Counters>, live: seq<(nat, TraceValues)>): (r: seq<Counters>)
    ensures |r| == |groups|
    decreases |live|
  {
    if |live| == 0 then groups
    else
      var prev := ApplyLive(groups, live[..|live| - 1]);
      var g := live[|live| - 1].0;
      if g < |prev| then prev[g := UpdatedBy(prev[g], live[|live| - 1].1)] else prev
  }

  /** `update` with the counters of every live object, only those of one group when one is given. */
  function UpdateAll(c: Counters, live: seq<(nat, TraceValues)>, only: Option<nat>): Counters
    decreases |live|
  {
    if |live| == 0 then c
    else
      var prev := UpdateAll(c, live[..|live| - 1], only);
      if only.None? || only.value == live[|live| - 1].0 then UpdatedBy(prev, live[|live| - 1].1) else prev
  }

  /** `merge` of every group in order. */
  function MergeAll(c: Counters, gs: seq<Counters>): Counters
    decreases |gs|
  {
    if |gs| == 0 then c else Merged(MergeAll(c, gs[..|gs| - 1]), gs[|gs| - 1])
  }

  /** The accessed bytes of all groups, added up. */
  function SumAccBytes(gs: seq<Counters>): nat
    decreases |gs|
  {
    if |gs| == 0 then 0 else SumAccBytes(gs[..|gs| - 1]) + gs[|gs| - 1].accBytes
  }

  /** The total of the groups counts their accessed bytes together, modulo 2^64. */
  lemma {:induction false} MergeAllAccBytes(c: Counters, gs: seq<Counters>)
    requires c.accBytes < Word
    ensures MergeAll(c, gs).accBytes == (c.accBytes + SumAccBytes(gs)) % Word
    decreases |gs|
  {
    if |gs| > 0 {
      var init := gs[..|gs| - 1];
      MergeAllAccBytes(c, init);
      var last := gs[|gs| - 1].accBytes;
      calc {
        MergeAll(c, gs).accBytes;
        Add(MergeAll(c, init).accBytes, last);
        ((c.accBytes + SumAccBytes(init)) % Word + last) % Word;
        { ModAddLeft(c.accBytes + SumAccBytes(init), last); }
        (c.accBytes + SumAccBytes(gs)) % Word;
      }
    }
  }

  /**
   * At a checkpoint a group's stored counters are what a query of that
   * group gave just before: the group with the counters of its live
   * objects applied in order.
   */
  lemma {:induction false} ApplyLiveGroup(groups: seq<Counters>, live: seq<(nat, TraceValues)>, g: nat)
    requires g < |groups|
    ensures ApplyLive(groups, live)[g] == UpdateAll(groups[g], live, Some(g))
    decreases |live|
  {
    if |live| > 0 {
      ApplyLiveGroup(groups, live[..|live| - 1], g);
    }
  }

  /**
   * `getPastRecordByGroup` on the record a checkpoint stored agrees with
   * `getCurrentByGroup` just before the checkpoint.
   */
  lemma CheckpointKeepsGroupView(groups: seq<Counters>, live: seq<(nat, TraceValues)>, g: nat)
    requires g < |groups| && Consistent(groups[g])
    ensures Merged(Zero, ApplyLive(groups, live)[g]) == UpdateAll(Merged(Zero, groups[g]), live, Some(g))
  {
    MergedIntoZero(groups[g]);
    ApplyLiveGroup(groups, live, g);
    UpdateAllConsistent(groups[g], live, Some(g));
    MergedIntoZero(UpdateAll(groups[g], live, Some(g)));
  }

  /** Updates keep a group consistent. */
  lemma {:induction false} UpdateAllConsistent(c: Counters, live: seq<(nat, TraceValues)>, only: Option<nat>)
    requires Consistent(c)
    ensures Consistent(UpdateAll(c, live, only))
    decreases |live|
  {
    if |live| > 0 {
      UpdateAllConsistent(c, live[..|live| - 1], only);
    }
  }

  /** The six result categories of one group: (header count, value) per stored snapshot. */
  datatype ResultGroup = ResultGroup(allocBytes: seq<(nat, nat)>, allocMaxBytes: seq<(nat, nat)>,
                                     accBytes: seq<(nat, nat)>, accCount: seq<(nat, nat)>,
                                     accWriteBytes: seq<(nat, nat)>, accWriteCount: seq<(nat, nat)>)

  /** The categories extended by one snapshot's values of a group. */
  function Extend(r: ResultGroup, h: nat, c: Counters): ResultGroup
  {
    ResultGroup(r.allocBytes + [(h, c.allocBytes)], r.allocMaxBytes + [(h, c.allocMaxBytes)],
                r.accBytes + [(h, c.accBytes)], r.accCount + [(h, c.accCount)],
                r.accWriteBytes + [(h, c.accWriteBytes)], r.accWriteCount + [(h, c.accWriteCount)])
  }

  /** The number of stored snapshots in which a group existed. */
  function Existed(history: seq<Snapshot>, g: nat): nat
    decreases |history|
  {
    if |history| == 0 then 0
    else Existed(history[..|history| - 1], g) + (if g < |history[|history| - 1].groups| then 1 else 0)
  }

  /** The result categories of one group over the stored snapshots in which it existed. */
  function ResultFor(history: seq<Snapshot>, g: nat): (r: ResultGroup)
    ensures |r.allocBytes| == |r.allocMaxBytes| == |r.accBytes| == |r.accCount| == Existed(history, g)
    ensures |r.accWriteBytes| == |r.accWriteCount| == Existed(history, g)
    decreases |history|
  {
    if |history| == 0 then ResultGroup([], [], [], [], [], [])
    else
      var prev := ResultFor(history[..|history| - 1], g);
      var s := history[|history| - 1];
      if g < |s.groups| then Extend(prev, s.headers, s.groups[g]) else prev
  }

  /**
   * A group that existed in every stored snapshot has one entry per
   * snapshot, in order, each the snapshot's header count and the group's
   * value.
   */
  lemma {:induction false} ResultForEverySnapshot(history: seq<Snapshot>, g: nat)
    requires forall i :: 0 <= i < |history| ==> g < |history[i].groups|
    ensures |ResultFor(history, g).allocBytes| == |history|
    ensures forall k :: 0 <= k < |history| ==>
      ResultFor(history, g).allocBytes[k] == (history[k].headers, history[k].groups[g].allocBytes) &&
      ResultFor(history, g).accBytes[k] == (history[k].headers, history[k].groups[g].accBytes)
    decreases |history|
  {
    if |history| > 0 {
      var init := history[..|history| - 1];
      ResultForEverySnapshot(init, g);
      ExistedAll(history, g);
    } else {
      ExistedAll(history, g);
    }
  }

  /** A group present in every snapshot existed in all of them. */
  lemma {:induction false} ExistedAll(history: seq<Snapshot>, g: nat)
    requires forall i :: 0 <= i < |history| ==> g < |history[i].groups|
    ensures Existed(history, g) == |history|
    decreases |history|
  {
    if |history| > 0 {
      ExistedAll(history[..|history| - 1], g);
    }
  }

  /** The `groupUpdate` loop of `checkpoint`: every registered object's counters go into its group. */
  method ApplyLiveTo(s: MemSnapshot, es: seq<Entry>)
    modifies s
    ensures s.headers == old(s.headers) && s.groups == ApplyLive(old(s.groups), Live(es))
  {
    ghost var g0 := s.groups;
    ghost var live := Live(es);
    var i := 0;
    while i < |es|
      invariant 0 <= i <= |es| && Live(es) == live && s.headers == old(s.headers)
      invariant s.groups == ApplyLive(g0, live[..i])
    {
      var d := es[i].item;
      var _ := s.GroupUpdate(es[i].group, d.allocBytes, d.totalBytes, d.count, d.wBytes, d.countWrite);
      assert live[..i + 1][..i] == live[..i];
      i := i + 1;
    }
    assert live[..i] == live;
  }

  /** The check `getPastRecordByGroup` makes on the group id, as written. */
  predicate PastRecordGuard(groupsTotal: nat, historySize: nat, historyIdx: nat, groupId: nat)
  {
    groupId < groupsTotal && historyIdx < historySize
  }

  /** The `merge` loop of the total queries: every group merged in order. */
  method MergeInto(s: MemGroupSnapshot, gs: seq<Counters>)
    modifies s
    ensures s.Value() == MergeAll(old(s.Value()), gs)
  {
    ghost var c := s.Value();
    var i := 0;
    while i < |gs|
      invariant 0 <= i <= |gs| && s.Value() == MergeAll(c, gs[..i])
    {
      var _ := s.Merge(Some(gs[i]));
      assert gs[..i + 1][..i] == gs[..i];
      i := i + 1;
    }
    assert gs[..i] == gs;
  }

  /** The `update` loop of the current queries: every live object's counters, of one group when one is given. */
  method UpdateInto(s: MemGroupSnapshot, es: seq<Entry>, only: Option<nat>)
    modifies s
    ensures s.Value() == UpdateAll(old(s.Value()), Live(es), only)
  {
    ghost var c := s.Value();
    ghost var live := Live(es);
    var j := 0;
    while j < |es|
      invariant 0 <= j <= |es| && Live(es) == live
      invariant s.Value() == UpdateAll(c, live[..j], only)
    {
      if only.None? || es[j].group == only.value {
        var d := es[j].item;
        s.Update(d.allocBytes, d.totalBytes, d.count, d.wBytes, d.countWrite);
      }
      assert live[..j + 1][..j] == live[..j];
      j := j + 1;
    }
    assert live[..j] == live;
  }

  class MemManager {
    /** `_mtraces`: the registered objects with their groups, in registration order. */
    var mtraces: seq<Entry>
    var groupsTotal: nat
    var currentGroupId: nat
    /** `_history`: the snapshots stored at the checkpoints, never changed afterwards. */
    var history: seq<Snapshot>
    var current: MemSnapshot

    ghost predicate Valid()
      reads this, current
    {
      groupsTotal == |current.groups| && 0 < groupsTotal < Limit32 && currentGroupId < groupsTotal &&
      current.headers < Limit32 &&
      (forall i :: 0 <= i < |mtraces| ==> mtraces[i].group < groupsTotal) &&
      (forall i, j :: 0 <= i < j < |mtraces| ==> mtraces[i].item != mtraces[j].item) &&
      (forall i :: 0 <= i < |history| ==> 0 < |history[i].groups| <= groupsTotal)
    }

    /** The constructor: one group, id 0, no objects, no history, a snapshot at 0 headers. */
    constructor()
      ensures Valid() && fresh(current)
      ensures mtraces == [] && groupsTotal == 1 && currentGroupId == 0 && history == []
      ensures current.Value() == Snapshot(0, [Zero])
    {
      mtraces := [];
      groupsTotal := 1;
      currentGroupId := 0;
      history := [];
      current := new MemSnapshot(0);
    }

    /**
     * `reg`: an object not yet registered joins the current group, and its
     * allocation is added to the group's allocation maximum.
     */
    method Reg(item: MemTraceData)
      requires Valid()
      modifies this, current
      ensures Valid() && current == old(current) && current.headers == old(current.headers)
      ensures groupsTotal == old(groupsTotal) && currentGroupId == old(currentGroupId) && history == old(history)
      ensures mtraces == if Find(old(mtraces), item).Some? then old(mtraces)
                         else old(mtraces) + [Entry(item, currentGroupId)]
      ensures current.groups == old(current.groups)[currentGroupId :=
        old(current.groups)[currentGroupId].(allocMaxBytes := Add(old(current.groups)[currentGroupId].allocMaxBytes, item.allocBytes))]
    {
      if Find(mtraces, item).None? {
        mtraces := mtraces + [Entry(item, currentGroupId)];
      }
      var g := current.groups[currentGroupId];
      current.groups := current.groups[currentGroupId := g.(allocMaxBytes := Add(g.allocMaxBytes, item.allocBytes))];
    }

    /**
     * `dereg`: for a registered object, its access counters, with no
     * allocation, go into its group, and it is removed; an unknown object
     * changes nothing.
     */
    method Dereg(item: MemTraceData)
      requires Valid()
      modifies this, current
      ensures Valid() && current == old(current) && current.headers == old(current.headers)
      ensures groupsTotal == old(groupsTotal) && currentGroupId == old(currentGroupId) && history == old(history)
      ensures Find(old(mtraces), item).None? ==> mtraces == old(mtraces) && current.groups == old(current.groups)
      ensures Find(old(mtraces), item).Some? ==>
        var i := Find(old(mtraces), item).value;
        var g := old(mtraces)[i].group;
        mtraces == old(mtraces)[..i] + old(mtraces)[i + 1..] &&
        current.groups == old(current.groups)[g := Updated(old(current.groups)[g], 0, item.totalBytes, item.count,
                                                           item.wBytes, item.countWrite)]
    {
      var found := Find(mtraces, item);
      if found.None? {
        return;
      }
      var i := found.value;
      var g := mtraces[i].group;
      var _ := current.GroupUpdate(g, 0, item.totalBytes, item.count, item.wBytes, item.countWrite);
      mtraces := mtraces[..i] + mtraces[i + 1..];
    }

    /**
     * `checkpoint`: the header count grows by h, modulo 2^32; the snapshot
     * with every live object's counters applied is stored, and a copy of it
     * taken before that becomes the current one.
     */
    method Checkpoint(h: nat)
      requires Valid() && h < Limit32
      modifies this, current
      ensures Valid() && fresh(current)
      ensures mtraces == old(mtraces) && groupsTotal == old(groupsTotal) && currentGroupId == old(currentGroupId)
      ensures history == old(history) +
        [Snapshot((old(current.headers) + h) % Limit32, ApplyLive(old(current.groups), Live(mtraces)))]
      ensures current.Value() == Snapshot((old(current.headers) + h) % Limit32, old(current.groups))
    {
      current.headers := (current.headers + h) % Limit32;
      var copy := new MemSnapshot.Copy(current);
      ghost var live := Live(mtraces);
      ApplyLiveTo(current, mtraces);
      assert copy.Value() == Snapshot((old(current.headers) + h) % Limit32, old(current.groups));
      assert Live(mtraces) == live;
      assert current.Value() == Snapshot(copy.headers, ApplyLive(copy.groups, live));
      history := history + [current.Value()];
      current := copy;
      assert Live(mtraces) == live;
    }

    /** `groupCreate`: a new empty group becomes the current one. */
    method GroupCreate()
      requires Valid() && groupsTotal < Limit32 - 1
      modifies this, current
      ensures Valid() && current == old(current)
      ensures currentGroupId == old(groupsTotal) && groupsTotal == old(groupsTotal) + 1
      ensures current.Value() == Snapshot(old(current.headers), old(current.groups) + [Zero])
      ensures mtraces == old(mtraces) && history == old(history)
    {
      currentGroupId := groupsTotal;
      groupsTotal := groupsTotal + 1;
      current.GroupAdd();
    }

    /** `groupSwitch`: an existing group becomes the current one; another id throws. */
    method GroupSwitch(id: nat) returns (o: Outcome)
      requires Valid()
      modifies this
      ensures Valid() && (o == Done <==> id < groupsTotal)
      ensures currentGroupId == if id < groupsTotal then id else old(currentGroupId)
      ensures mtraces == old(mtraces) && groupsTotal == old(groupsTotal) && history == old(history)
      ensures current == old(current)
    {
      if id < groupsTotal {
        currentGroupId := id;
        return Done;
      }
      return Fail(SwitchGroupError);
    }

    /** `getCurrentTotal`: every group merged, then every live object's counters applied. */
    method GetCurrentTotal() returns (result: MemGroupSnapshot)
      ensures result.Value() == UpdateAll(MergeAll(Zero, current.groups), Live(mtraces), None)
    {
      result := new MemGroupSnapshot();
      MergeInto(result, current.groups);
      UpdateInto(result, mtraces, None);
    }

    /**
     * `getCurrentByGroup`: the group merged into an empty one, then the
     * counters of its live objects applied; an id past the groups throws.
     */
    method GetCurrentByGroup(groupId: nat) returns (r: Result<MemGroupSnapshot>)
      requires Valid()
      ensures r.Ok? <==> groupId < groupsTotal
      ensures r.Ok? ==>
        r.value.Value() == UpdateAll(Merged(Zero, current.groups[groupId]), Live(mtraces), Some(groupId))
    {
      if groupId >= groupsTotal {
        return Err(CurrentGroupError);
      }
      var result := new MemGroupSnapshot();
      var _ := result.Merge(Some(current.groups[groupId]));
      UpdateInto(result, mtraces, Some(groupId));
      return Ok(result);
    }

    /** `getPastRecordTotal`: every group of a stored snapshot merged; an index past the history throws. */
    method GetPastRecordTotal(historyIdx: nat) returns (r: Result<MemGroupSnapshot>)
      ensures r.Ok? <==> historyIdx < |history|
      ensures r.Ok? ==> r.value.Value() == MergeAll(Zero, history[historyIdx].groups)
    {
      if historyIdx >= |history| {
        return Err(PastIndexError);
      }
      var result := new MemGroupSnapshot();
      MergeInto(result, history[historyIdx].groups);
      return Ok(result);
    }

    /**
     * `getPastRecordByGroup`: one group of a stored snapshot merged into an
     * empty one. The group id is checked against the current group count
     * and, unlike the source, also against the groups of the snapshot.
     */
    method GetPastRecordByGroup(historyIdx: nat, groupId: nat) returns (r: Result<MemGroupSnapshot>)
      ensures r.Ok? <==> historyIdx < |history| && groupId < groupsTotal && groupId < |history[historyIdx].groups|
      ensures r.Ok? ==> r.value.Value() == Merged(Zero, history[historyIdx].groups[groupId])
    {
      if groupId >= groupsTotal {
        return Err(PastGroupError);
      }
      if historyIdx >= |history| {
        return Err(PastIndexError);
      }
      if groupId >= |history[historyIdx].groups| {
        return Err(PastGroupError);
      }
      var result := new MemGroupSnapshot();
      var _ := result.Merge(Some(history[historyIdx].groups[groupId]));
      return Ok(result);
    }

    /** `getMemResultGroups`: for every group, its values over the snapshots in which it existed. */
    method GetMemResultGroups() returns (results: seq<ResultGroup>)
      ensures |results| == groupsTotal
      ensures forall g :: 0 <= g < groupsTotal ==> results[g] == ResultFor(history, g)
    {
      results := [];
      var group := 0;
      while group < groupsTotal
        invariant 0 <= group <= groupsTotal && |results| == group
        invariant forall g :: 0 <= g < group ==> results[g] == ResultFor(history, g)
      {
        var r := ResultGroup([], [], [], [], [], []);
        var histIdx := 0;
        while histIdx < |history|
          invariant 0 <= histIdx <= |history| && r == ResultFor(history[..histIdx], group)
        {
          var s := history[histIdx];
          if group < |s.groups| {
            r := Extend(r, s.headers, s.groups[group]);
          }
          assert history[..histIdx + 1][..histIdx] == history[..histIdx];
          histIdx := histIdx + 1;
        }
        assert history[..histIdx] == history;
        results := results + [r];
        group := group + 1;
      }
    }

    /** `reset`: back to the state of a new manager. */
    method Reset()
      modifies this
      ensures Valid() && fresh(current)
      ensures mtraces == [] && groupsTotal == 1 && currentGroupId == 0 && history == []
      ensures current.Value() == Snapshot(0, [Zero])
    {
      mtraces := [];
      groupsTotal := 1;
      currentGroupId := 0;
      history := [];
      current := new MemSnapshot(0);
    }
  }

  /**
   * A state the model's own operations reach in which the source's check
   * of `getPastRecordByGroup` passes for group 1 of snapshot 0, although
   * that snapshot holds only group 0.
   */
  method PastRecordGuardGap() returns (m: MemManager)
    ensures m.Valid() && PastRecordGuard(m.groupsTotal, |m.history|, 0, 1) && |m.history[0].groups| == 1
  {
    m := new MemManager();
    m.Checkpoint(0);
    m.GroupCreate();
  }
}

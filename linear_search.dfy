/**
 * The linear search classifier: the rules are converted into an array of
 * specific rules, and each header is matched against them in order. Rule
 * insertion and removal build a new array, moving the old rules over one
 * slot at a time. `LinearSearch4tpl` is modelled over the five-tuple rule
 * set and converter: its control flow is the same, but its own four-field
 * converter and rule type are not part of this model.
 */
module LinearSearch {
  import opened BitOps
  import opened Results
  import G = GenericAtoms
  import D = Data5tpl
  import C = Converter5tpl
  import HC = HeaderCheckpoints

  // The messages of the exceptions thrown here.
  const AddIndexError: string := "Invalid index or rule to add to rule set given."
  const CopyError: string := "LinearSearch4tpl: Error when trying to copy old rules to a new rule set."
  const RemoveIndexError: string := "Invalid index for removing a rule from the rule set given."
  const CopyRemainingError: string := "LinearSearch4tpl: Error when trying to copy all, but removed old rules."

  /** The sequence with x placed at position i and the later elements moved up by one. */
  function Inserted<T>(s: seq<T>, i: nat, x: T): (r: seq<T>)
    requires i <= |s|
    ensures |r| == |s| + 1 && r[i] == x
    ensures forall k :: 0 <= k < i ==> r[k] == s[k]
    ensures forall k :: i < k < |r| ==> r[k] == s[k - 1]
  {
    s[..i] + [x] + s[i..]
  }

  /** The sequence without position i, the later elements moved down by one. */
  function Removed<T>(s: seq<T>, i: nat): (r: seq<T>)
    requires i < |s|
    ensures |r| == |s| - 1
    ensures forall k :: 0 <= k < i ==> r[k] == s[k]
    ensures forall k :: i <= k < |r| ==> r[k] == s[k + 1]
  {
    s[..i] + s[i + 1..]
  }

  /** Removing what was just inserted gives back the sequence. */
  lemma RemovedInserted<T>(s: seq<T>, i: nat, x: T)
    requires i <= |s|
    ensures Removed(Inserted(s, i, x), i) == s
  {
    var r := Removed(Inserted(s, i, x), i);
    assert |r| == |s|;
    forall k | 0 <= k < |s|
      ensures r[k] == s[k]
    {
      if k >= i {
        assert r[k] == Inserted(s, i, x)[k + 1];
      }
    }
  }

  /** The index `classify` reports for a match result. */
  function Reported(m: Option<nat>): nat
  {
    if m.Some? then m.value else NoRuleIsMatching
  }

  /** m is the position of the first true entry of s, or None when there is none. */
  predicate IsFirst(s: seq<bool>, m: Option<nat>) {
    (m.Some? ==> m.value < |s| && s[m.value] && forall j :: 0 <= j < m.value ==> !s[j]) &&
    (m.None? ==> forall j :: 0 <= j < |s| ==> !s[j])
  }

  /** There is only one first true entry. */
  lemma IsFirstUnique(s: seq<bool>, m1: Option<nat>, m2: Option<nat>)
    requires IsFirst(s, m1) && IsFirst(s, m2)
    ensures m1 == m2
  {
    if m1.Some? && m2.Some? {
      assert !(m1.value < m2.value) && !(m2.value < m1.value);
    }
  }

  /** Which rules match a header, in order. */
  function Hits(rules: seq<D.Rule>, h: D.HeaderTuple): (s: seq<bool>)
    ensures |s| == |rules| && forall k :: 0 <= k < |rules| ==> s[k] == D.RuleMatch(rules[k], h)
  {
    seq(|rules|, k requires 0 <= k < |rules| => D.RuleMatch(rules[k], h))
  }

  /** The first match of a header is the first rule that matches it. */
  lemma FirstMatchHits(rules: seq<D.Rule>, h: D.HeaderTuple)
    ensures IsFirst(Hits(rules, h), D.FirstMatch(rules, h))
  {
  }

  /** Whatever is the first true entry of the hits is the first match. */
  lemma FirstOfHits(rules: seq<D.Rule>, h: D.HeaderTuple, m: Option<nat>)
    requires IsFirst(Hits(rules, h), m)
    ensures D.FirstMatch(rules, h) == m
  {
    FirstMatchHits(rules, h);
    IsFirstUnique(Hits(rules, h), D.FirstMatch(rules, h), m);
  }

  /** The hits of a rule set with a rule removed. */
  lemma HitsRemoved(rules: seq<D.Rule>, i: nat, h: D.HeaderTuple)
    requires i < |rules|
    ensures Hits(Removed(rules, i), h) == Removed(Hits(rules, h), i)
  {
  }

  /** A first match before the insertion point stays first. */
  lemma InsertedBefore(rules: seq<D.Rule>, i: nat, r: D.Rule, h: D.HeaderTuple, k: nat)
    requires i <= |rules| && D.FirstMatch(rules, h) == Some(k) && k < i
    ensures D.FirstMatch(Inserted(rules, i, r), h) == Some(k)
  {
    D.MatchIsFirstMatch(Inserted(rules, i, r), h, k);
  }

  /** An inserted matching rule with no match before it is the first match. */
  lemma InsertedWins(rules: seq<D.Rule>, i: nat, r: D.Rule, h: D.HeaderTuple)
    requires i <= |rules| && D.RuleMatch(r, h) && forall j :: 0 <= j < i ==> !D.RuleMatch(rules[j], h)
    ensures D.FirstMatch(Inserted(rules, i, r), h) == Some(i)
  {
    D.MatchIsFirstMatch(Inserted(rules, i, r), h, i);
  }

  /** A rule that does not match, inserted at or before the first match, moves it up by one. */
  lemma InsertedAfter(rules: seq<D.Rule>, i: nat, r: D.Rule, h: D.HeaderTuple, k: nat)
    requires i <= |rules| && D.FirstMatch(rules, h) == Some(k) && k >= i && !D.RuleMatch(r, h)
    ensures D.FirstMatch(Inserted(rules, i, r), h) == Some(k + 1)
  {
    var rs := Inserted(rules, i, r);
    assert rs[k + 1] == rules[k];
    forall j | 0 <= j < k + 1
      ensures !D.RuleMatch(rs[j], h)
    {
      if j > i {
        assert rs[j] == rules[j - 1];
      }
    }
    D.MatchIsFirstMatch(rs, h, k + 1);
  }

  /** A rule that does not match, inserted where no rule matches, adds no match. */
  lemma InsertedNone(rules: seq<D.Rule>, i: nat, r: D.Rule, h: D.HeaderTuple)
    requires i <= |rules| && D.FirstMatch(rules, h).None? && !D.RuleMatch(r, h)
    ensures D.FirstMatch(Inserted(rules, i, r), h).None?
  {
    var rs := Inserted(rules, i, r);
    forall j | 0 <= j < |rs|
      ensures !D.RuleMatch(rs[j], h)
    {
      if j > i {
        assert rs[j] == rules[j - 1];
      }
    }
  }

  /**
   * Where a first match m ends up after inserting a rule at i, hit telling
   * whether the new rule matches: a match before i stays, the new rule wins
   * from i on when it matches, and any later match moves up by one.
   */
  function InsertedMatch(m: Option<nat>, i: nat, hit: bool): Option<nat>
  {
    match m
    case Some(k) => if k < i then Some(k) else if hit then Some(i) else Some(k + 1)
    case None => if hit then Some(i) else None
  }

  /** The first match after an insertion at i, when the old rules have their first match at k. */
  lemma InsertedFirstMatchSome(rules: seq<D.Rule>, i: nat, r: D.Rule, h: D.HeaderTuple, k: nat)
    requires i <= |rules| && D.FirstMatch(rules, h) == Some(k)
    ensures D.FirstMatch(Inserted(rules, i, r), h) == InsertedMatch(Some(k), i, D.RuleMatch(r, h))
  {
    var hit := D.RuleMatch(r, h);
    if k < i {
      assert InsertedMatch(Some(k), i, hit) == Some(k);
      InsertedBefore(rules, i, r, h, k);
    } else if hit {
      assert InsertedMatch(Some(k), i, hit) == Some(i);
      InsertedWins(rules, i, r, h);
    } else {
      assert InsertedMatch(Some(k), i, hit) == Some(k + 1);
      InsertedAfter(rules, i, r, h, k);
    }
  }

  /** The first match after an insertion at i, when no old rule matches. */
  lemma InsertedFirstMatchNone(rules: seq<D.Rule>, i: nat, r: D.Rule, h: D.HeaderTuple)
    requires i <= |rules| && D.FirstMatch(rules, h).None?
    ensures D.FirstMatch(Inserted(rules, i, r), h) == InsertedMatch(None, i, D.RuleMatch(r, h))
  {
    if D.RuleMatch(r, h) {
      InsertedWins(rules, i, r, h);
    } else {
      InsertedNone(rules, i, r, h);
    }
  }

  /** The effect of an insertion at i on the first match of every header. */
  lemma InsertedFirstMatch(rules: seq<D.Rule>, i: nat, r: D.Rule, h: D.HeaderTuple)
    requires i <= |rules|
    ensures D.FirstMatch(Inserted(rules, i, r), h) == InsertedMatch(D.FirstMatch(rules, h), i, D.RuleMatch(r, h))
  {
    var m := D.FirstMatch(rules, h);
    if m.Some? {
      InsertedFirstMatchSome(rules, i, r, h, m.value);
    } else {
      InsertedFirstMatchNone(rules, i, r, h);
    }
  }

  /** A match index moved up by d. */
  function Shifted(m: Option<nat>, d: nat): (r: Option<nat>)
    ensures r.Some? <==> m.Some?
    ensures r.Some? ==> r.value == m.value + d
  {
    if m.Some? then Some(m.value + d) else None
  }

  /** A first match before the removed rule stays first. */
  lemma RemovedBefore(rules: seq<D.Rule>, i: nat, h: D.HeaderTuple, k: nat)
    requires i < |rules| && D.FirstMatch(rules, h) == Some(k) && k < i
    ensures D.FirstMatch(Removed(rules, i), h) == Some(k)
  {
    D.MatchIsFirstMatch(Removed(rules, i), h, k);
  }

  /** A first match after the removed rule moves down by one. */
  lemma RemovedAfter(rules: seq<D.Rule>, i: nat, h: D.HeaderTuple, k: nat)
    requires i < |rules| && D.FirstMatch(rules, h) == Some(k) && k > i
    ensures D.FirstMatch(Removed(rules, i), h) == Some(k - 1)
  {
    D.MatchIsFirstMatch(Removed(rules, i), h, k - 1);
  }

  /** Removing a rule where none matches leaves no match. */
  lemma RemovedNone(rules: seq<D.Rule>, i: nat, h: D.HeaderTuple)
    requires i < |rules| && D.FirstMatch(rules, h).None?
    ensures D.FirstMatch(Removed(rules, i), h).None?
  {
    var rs := Removed(rules, i);
    forall j | 0 <= j < |rs|
      ensures !D.RuleMatch(rs[j], h)
    {
      if j >= i {
        assert rs[j] == rules[j + 1];
      }
    }
  }

  /** Removing the first true entry leaves the first true entry after it, shifted down to its place. */
  lemma RemovedFirstTrue(s: seq<bool>, i: nat, t: Option<nat>)
    requires i < |s| && IsFirst(s, Some(i)) && IsFirst(s[i + 1..], t)
    ensures IsFirst(Removed(s, i), Shifted(t, i))
  {
    var rs := Removed(s, i);
    var tail := s[i + 1..];
    assert forall j :: i <= j < |rs| ==> rs[j] == tail[j - i];
    if t.Some? {
      assert rs[i + t.value] == tail[t.value];
    }
  }

  /** When rule i is the first match, removing it leaves the first match after it. */
  lemma RemovedFirstMatchAt(rules: seq<D.Rule>, i: nat, h: D.HeaderTuple)
    requires i < |rules| && D.FirstMatch(rules, h) == Some(i)
    ensures D.FirstMatch(Removed(rules, i), h) == Shifted(D.FirstMatch(rules[i + 1..], h), i)
  {
    var t := D.FirstMatch(rules[i + 1..], h);
    FirstMatchHits(rules, h);
    FirstMatchHits(rules[i + 1..], h);
    HitsRemoved(rules, i, h);
    RemovedFirstTrue(Hits(rules, h), i, t);
    FirstOfHits(Removed(rules, i), h, Shifted(t, i));
  }

  /**
   * The effect of removing rule i on the first match: a match before i
   * stays, a later one moves down by one, and when rule i was the first
   * match the next matching rule after it takes its place.
   */
  lemma RemovedFirstMatch(rules: seq<D.Rule>, i: nat, h: D.HeaderTuple)
    requires i < |rules|
    ensures D.FirstMatch(Removed(rules, i), h) ==
      match D.FirstMatch(rules, h)
      case Some(k) =>
        if k < i then Some(k) else if k > i then Some(k - 1) else Shifted(D.FirstMatch(rules[i + 1..], h), i)
      case None => None
  {
    match D.FirstMatch(rules, h)
    case Some(k) =>
      if k < i {
        RemovedBefore(rules, i, h, k);
      } else if k > i {
        RemovedAfter(rules, i, h, k);
      } else {
        RemovedFirstMatchAt(rules, i, h);
      }
    case None =>
      RemovedNone(rules, i, h);
  }

  /** The first n rules of a rule set convert. */
  predicate AllFit(ruleset: G.RuleSet, n: nat)
    requires n <= |ruleset|
  {
    forall k :: 0 <= k < n ==> C.RuleFits(ruleset[k])
  }

  /** The slots of a rule set of |ruleset| slots after the first n rules were converted into it. */
  function Slots(ruleset: G.RuleSet, n: nat): (s: seq<Option<D.Rule>>)
    requires n <= |ruleset| && AllFit(ruleset, n)
    ensures |s| == |ruleset|
    ensures forall k :: 0 <= k < n ==> s[k] == Some(C.SpecificRule(ruleset[k]))
    ensures forall k :: n <= k < |ruleset| ==> s[k].None?
  {
    seq(|ruleset|, k requires 0 <= k < |ruleset| => if k < n then Some(C.SpecificRule(ruleset[k])) else None)
  }

  /**
   * The indices reported for the first headers: each line converts, and its
   * index is that of the first matching rule, or `noRuleIsMatching()`.
   */
  predicate Classified(rules: seq<D.Rule>, headers: seq<seq<nat>>, indices: seq<nat>)
  {
    |indices| <= |headers| &&
    forall t :: 0 <= t < |indices| ==>
      C.ConvertHeader(headers[t]).Ok? &&
      indices[t] == Reported(D.FirstMatch(rules, C.ConvertHeader(headers[t]).value))
  }

  /** The headers per checkpoint are a positive 32-bit value and the header count stays below the wrap. */
  predicate SettingsOk(headersPerCheckpoint: nat, cnt: nat)
  {
    0 < headersPerCheckpoint < Limit32 && cnt < Limit32 - 1
  }

  class LinearSearch4tpl {
    /** `_rules`: none before `setRules` and after `reset`. */
    var rules: D.RuleSet?
    var settingHeadersPerCheckpoint: nat
    var cntHeadersAfterCheckpoint: nat
    /** The header counts handed to the memory manager's `checkpoint`, in order. */
    var checkpoints: seq<nat>

    ghost predicate Valid()
      reads this
    {
      SettingsOk(settingHeadersPerCheckpoint, cntHeadersAfterCheckpoint)
    }

    /** The constructor: no rules, one header per checkpoint, none counted. */
    constructor()
      ensures Valid() && rules == null && settingHeadersPerCheckpoint == 1
      ensures cntHeadersAfterCheckpoint == 0 && checkpoints == []
    {
      rules := null;
      settingHeadersPerCheckpoint := 1;
      cntHeadersAfterCheckpoint := 0;
      checkpoints := [];
    }

    /**
     * `headerProcessed`: the header count goes up, and once it reaches the
     * setting it is handed to a checkpoint and starts again from 0.
     */
    method HeaderProcessed()
      requires Valid()
      modifies this
      ensures Valid() && cntHeadersAfterCheckpoint < settingHeadersPerCheckpoint
      ensures cntHeadersAfterCheckpoint == HC.Step(old(cntHeadersAfterCheckpoint), settingHeadersPerCheckpoint).0
      ensures checkpoints == old(checkpoints) + HC.Step(old(cntHeadersAfterCheckpoint), settingHeadersPerCheckpoint).1
      ensures rules == old(rules) && settingHeadersPerCheckpoint == old(settingHeadersPerCheckpoint)
    {
      cntHeadersAfterCheckpoint := cntHeadersAfterCheckpoint + 1;
      if cntHeadersAfterCheckpoint >= settingHeadersPerCheckpoint {
        checkpoints := checkpoints + [cntHeadersAfterCheckpoint];
        cntHeadersAfterCheckpoint := 0;
      }
    }

    /**
     * `setParameters`: the first value sets the headers per checkpoint, 0
     * becoming 1; further values are ignored. The values arrive already
     * cast to 32 bits.
     */
    method SetParameters(params: seq<nat>)
      requires Valid() && forall i :: 0 <= i < |params| ==> params[i] < Limit32
      modifies this
      ensures Valid()
      ensures settingHeadersPerCheckpoint ==
        if |params| > 0 then (if params[0] < 1 then 1 else params[0]) else old(settingHeadersPerCheckpoint)
      ensures rules == old(rules) && cntHeadersAfterCheckpoint == old(cntHeadersAfterCheckpoint)
      ensures checkpoints == old(checkpoints)
    {
      if |params| > 0 {
        settingHeadersPerCheckpoint := params[0];
        if settingHeadersPerCheckpoint < 1 {
          settingHeadersPerCheckpoint := 1;
        }
      }
    }

    /**
     * `setRules`: a new rule set of the rule count replaces the old one,
     * and the rules are converted into it in order; the first rule that
     * does not convert throws, leaving the later slots empty. Then a
     * checkpoint of 0 headers is set.
     */
    method SetRules(ruleset: G.RuleSet) returns (o: Outcome)
      requires Valid() && |ruleset| < Limit32
      modifies this
      ensures Valid() && rules != null && fresh(rules) && fresh(rules.rules)
      ensures settingHeadersPerCheckpoint == old(settingHeadersPerCheckpoint)
      ensures cntHeadersAfterCheckpoint == old(cntHeadersAfterCheckpoint)
      ensures o == Done <==> AllFit(ruleset, |ruleset|)
      ensures o == Done ==> rules.rules[..] == Slots(ruleset, |ruleset|) && checkpoints == old(checkpoints) + [0]
      ensures o.Fail? ==> checkpoints == old(checkpoints)
      ensures o.Fail? ==>
        exists n :: 0 <= n < |ruleset| && AllFit(ruleset, n) && !C.RuleFits(ruleset[n]) &&
          rules.rules[..] == Slots(ruleset, n)
    {
      var newSet := new D.RuleSet(|ruleset|);
      rules := newSet;
      var i := 0;
      while i < |ruleset|
        invariant 0 <= i <= |ruleset| && rules == newSet && newSet.rules.Length == |ruleset| && fresh(newSet.rules)
        invariant Valid() && checkpoints == old(checkpoints)
        invariant settingHeadersPerCheckpoint == old(settingHeadersPerCheckpoint)
        invariant cntHeadersAfterCheckpoint == old(cntHeadersAfterCheckpoint)
        invariant AllFit(ruleset, i) && newSet.rules[..] == Slots(ruleset, i)
      {
        var conv := C.ConvertRule(ruleset[i]);
        if conv.Err? {
          return Fail(conv.error);
        }
        var _ := newSet.SetRule(i, conv.value);
        i := i + 1;
      }
      checkpoints := checkpoints + [0];
      return Done;
    }

    /** The classification of one converted header: the first matching rule's index, or `noRuleIsMatching()`. */
    method ClassifyTuple(h: D.HeaderTuple) returns (matchIndex: nat)
      requires rules != null && rules.Complete()
      ensures matchIndex == Reported(D.FirstMatch(rules.Rules(), h))
    {
      var m := rules.Match(h);
      MatchReported(rules, h, m);
      matchIndex := Reported(m);
    }

    /**
     * `classify`: each header line is converted and matched against the
     * rules in order, its index (the first matching rule, or
     * `noRuleIsMatching()`) is pushed to the output, and it counts towards
     * the next checkpoint. The first line that does not convert throws,
     * leaving the indices of the lines before it in the output.
     */
    method Classify(headers: seq<seq<nat>>) returns (indices: seq<nat>, o: Outcome)
      requires Valid() && rules != null && rules.Complete()
      modifies this
      ensures Valid() && rules == old(rules) && settingHeadersPerCheckpoint == old(settingHeadersPerCheckpoint)
      ensures Classified(rules.Rules(), headers, indices)
      ensures o == Done <==> forall j :: 0 <= j < |headers| ==> C.ConvertHeader(headers[j]).Ok?
      ensures o == Done ==> |indices| == |headers|
      ensures o.Fail? ==> |indices| < |headers| && C.ConvertHeader(headers[|indices|]) == Err(o.error)
      ensures cntHeadersAfterCheckpoint ==
        HC.After(old(cntHeadersAfterCheckpoint), settingHeadersPerCheckpoint, |indices|).0
      ensures checkpoints ==
        old(checkpoints) + HC.After(old(cntHeadersAfterCheckpoint), settingHeadersPerCheckpoint, |indices|).1
    {
      ghost var rs := rules.Rules();
      ghost var cnt0, checkpoints0 := cntHeadersAfterCheckpoint, checkpoints;
      indices := [];
      var j := 0;
      while j < |headers|
        invariant 0 <= j <= |headers| && |indices| == j
        invariant Valid() && rules == old(rules) && settingHeadersPerCheckpoint == old(settingHeadersPerCheckpoint)
        invariant rules.Complete() && rules.Rules() == rs && Classified(rs, headers, indices)
        invariant cntHeadersAfterCheckpoint == HC.Steps(cnt0, checkpoints0, settingHeadersPerCheckpoint, j).0
        invariant checkpoints == HC.Steps(cnt0, checkpoints0, settingHeadersPerCheckpoint, j).1
      {
        var conv := C.ConvertHeader(headers[j]);
        if conv.Err? {
          HC.AfterIsSteps(cnt0, checkpoints0, settingHeadersPerCheckpoint, j);
          return indices, Fail(conv.error);
        }
        var matchIndex := ClassifyTuple(conv.value);
        ClassifiedSnoc(rs, headers, indices, conv.value);
        indices := indices + [matchIndex];
        HC.StepsNext(cnt0, checkpoints0, settingHeadersPerCheckpoint, j);
        HeaderProcessed();
        j := j + 1;
      }
      HC.AfterIsSteps(cnt0, checkpoints0, settingHeadersPerCheckpoint, j);
      return indices, Done;
    }

    /**
     * `ruleAdded`: for an index up to the size and a non-empty rule that
     * converts, a rule set one longer is filled by moving each old rule
     * over, leaving the slot at the index for the new rule, and replaces
     * the old one; a checkpoint of 0 headers follows. An empty old slot
     * throws during the move, with the old rule set partly emptied.
     */
    method RuleAdded(index: nat, rule: G.Rule) returns (o: Outcome)
      requires Valid() && rules != null && index < Limit32 && rules.rules.Length < Limit32 - 1
      modifies this, rules.rules
      ensures Valid() && settingHeadersPerCheckpoint == old(settingHeadersPerCheckpoint)
      ensures cntHeadersAfterCheckpoint == old(cntHeadersAfterCheckpoint)
      ensures o == Done <==>
        index <= old(rules.rules.Length) && |rule| > 0 && C.RuleFits(rule) && old(rules.Complete())
      ensures o == Done ==> rules != null && fresh(rules) && fresh(rules.rules)
      ensures o == Done ==> rules.rules[..] == Inserted(old(rules.rules[..]), index, Some(C.SpecificRule(rule)))
      ensures o == Done ==> rules.Complete() && rules.Rules() == Inserted(old(rules.Rules()), index, C.SpecificRule(rule))
      ensures o == Done ==> checkpoints == old(checkpoints) + [0]
      ensures o.Fail? ==> rules == old(rules) && checkpoints == old(checkpoints)
      ensures o.Fail? && !(index <= old(rules.rules.Length) && |rule| > 0 && C.RuleFits(rule)) ==>
        rules.rules[..] == old(rules.rules[..])
      ensures o.Fail? && index <= old(rules.rules.Length) && |rule| > 0 && C.RuleFits(rule) ==>
        exists p :: StoppedAt(rules.rules[..], old(rules.rules[..]), p, -1)
      ensures o == Done ==> MovedOut(old(rules.rules)[..], old(rules.rules[..]), old(rules.rules.Length), -1)
    {
      if !(index <= rules.rules.Length && |rule| > 0) {
        return Fail(AddIndexError);
      }
      var conv := C.ConvertRule(rule);
      if conv.Err? {
        return Fail(conv.error);
      }
      var ok, newSet := Inserting(rules, index, conv.value);
      if !ok {
        return Fail(CopyError);
      }
      rules := newSet;
      checkpoints := checkpoints + [0];
      return Done;
    }

    /**
     * `ruleRemoved`: for an index below the size, a rule set one shorter
     * is filled by moving every old rule but the one at the index over,
     * and replaces the old one; a checkpoint of 0 headers follows. An empty
     * slot among the moved ones throws, with the old rule set partly
     * emptied; the slot at the index is never looked at.
     */
    method RuleRemoved(index: nat) returns (o: Outcome)
      requires Valid() && rules != null && rules.rules.Length < Limit32
      modifies this, rules.rules
      ensures Valid() && settingHeadersPerCheckpoint == old(settingHeadersPerCheckpoint)
      ensures cntHeadersAfterCheckpoint == old(cntHeadersAfterCheckpoint)
      ensures o == Done <==>
        index < old(rules.rules.Length) &&
        forall k :: 0 <= k < old(rules.rules.Length) && k != index ==> old(rules.rules[k]).Some?
      ensures o == Done ==> rules != null && fresh(rules) && fresh(rules.rules)
      ensures o == Done ==> rules.rules[..] == Removed(old(rules.rules[..]), index)
      ensures o == Done && old(rules.Complete()) ==>
        rules.Complete() && rules.Rules() == Removed(old(rules.Rules()), index)
      ensures o == Done ==> checkpoints == old(checkpoints) + [0]
      ensures o.Fail? ==> rules == old(rules) && checkpoints == old(checkpoints)
      ensures o.Fail? && index >= old(rules.rules.Length) ==> rules.rules[..] == old(rules.rules[..])
      ensures o.Fail? && index < old(rules.rules.Length) ==>
        exists p :: StoppedAt(rules.rules[..], old(rules.rules[..]), p, index)
      ensures o == Done ==> MovedOut(old(rules.rules)[..], old(rules.rules[..]), old(rules.rules.Length), index)
    {
      if index >= rules.rules.Length {
        return Fail(RemoveIndexError);
      }
      var ok, newSet := Removing(rules, index);
      if !ok {
        return Fail(CopyRemainingError);
      }
      rules := newSet;
      checkpoints := checkpoints + [0];
      return Done;
    }

    /** `reset`: the header count goes back to 0 and the rules are dropped. */
    method Reset()
      requires Valid()
      modifies this
      ensures Valid() && rules == null && cntHeadersAfterCheckpoint == 0
      ensures settingHeadersPerCheckpoint == old(settingHeadersPerCheckpoint) && checkpoints == old(checkpoints)
    {
      cntHeadersAfterCheckpoint := 0;
      rules := null;
    }
  }

  /**
   * The old slots once the copy has passed slot p: every slot below p
   * except `skip` (-1 for none) has been moved out and is empty, and the
   * slots from p on, with `skip`, hold what they held before.
   */
  predicate MovedOut(now: seq<Option<D.Rule>>, before: seq<Option<D.Rule>>, p: nat, skip: int)
  {
    |now| == |before| && p <= |before| &&
    (forall k :: 0 <= k < p && k != skip ==> now[k].None?) &&
    (forall k :: 0 <= k < |before| && (p <= k || k == skip) ==> now[k] == before[k])
  }

  /**
   * A failed copy stopped at slot p, the first slot other than `skip` that
   * was empty, with every slot before it moved out.
   */
  predicate StoppedAt(now: seq<Option<D.Rule>>, before: seq<Option<D.Rule>>, p: nat, skip: int)
  {
    p < |before| && p != skip && before[p].None? &&
    (forall k :: 0 <= k < p && k != skip ==> before[k].Some?) &&
    MovedOut(now, before, p, skip)
  }

  /**
   * One rule moved from slot i of one rule set to slot j of another: the
   * old slot is swapped for an empty one, and an empty old slot stops the
   * move with both rule sets as they were.
   */
  method MoveRule(from: D.RuleSet, i: nat, to: D.RuleSet, j: nat) returns (ok: bool)
    requires from.rules != to.rules && i < from.rules.Length && j < to.rules.Length
    modifies from.rules, to.rules
    ensures ok <==> old(from.rules[i]).Some?
    ensures ok ==> from.rules[i].None? && to.rules[j] == old(from.rules[i])
    ensures forall k :: 0 <= k < from.rules.Length && (k != i || !ok) ==> from.rules[k] == old(from.rules[k])
    ensures forall k :: 0 <= k < to.rules.Length && (k != j || !ok) ==> to.rules[k] == old(to.rules[k])
  {
    var mv;
    ok, mv := from.SwapRule(i, None);
    if ok {
      var _ := to.SetRule(j, mv.value);
    }
  }

  /**
   * A rule set one longer than the old one, holding its rules with x at the
   * index; the old rules are moved out of the old set. An empty old slot
   * stops the move.
   */
  method Inserting(oldSet: D.RuleSet, index: nat, x: D.Rule) returns (ok: bool, newSet: D.RuleSet)
    requires index <= oldSet.rules.Length < Limit32 - 1
    modifies oldSet.rules
    ensures fresh(newSet) && fresh(newSet.rules)
    ensures ok <==> old(oldSet.Complete())
    ensures ok ==> newSet.rules[..] == Inserted(old(oldSet.rules[..]), index, Some(x))
    ensures ok ==> newSet.Complete() && newSet.Rules() == Inserted(old(oldSet.Rules()), index, x)
    ensures ok ==> MovedOut(oldSet.rules[..], old(oldSet.rules[..]), oldSet.rules.Length, -1)
    ensures !ok ==> exists p :: StoppedAt(oldSet.rules[..], old(oldSet.rules[..]), p, -1)
  {
    ghost var s0 := oldSet.rules[..];
    if oldSet.Complete() {
      RulesAreValues(oldSet);
    }
    newSet := new D.RuleSet(oldSet.rules.Length + 1);
    ok := CopyInserting(oldSet, newSet, index);
    if ok {
      var _ := newSet.SetRule(index, x);
      InsertedSlots(newSet, s0, index, x);
    }
  }

  /**
   * A rule set one shorter than the old one, holding its rules but the one
   * at the index; the other rules are moved out of the old set. An empty
   * slot among them stops the move.
   */
  method Removing(oldSet: D.RuleSet, index: nat) returns (ok: bool, newSet: D.RuleSet)
    requires index < oldSet.rules.Length < Limit32
    modifies oldSet.rules
    ensures fresh(newSet) && fresh(newSet.rules)
    ensures ok <==> forall k :: 0 <= k < oldSet.rules.Length && k != index ==> old(oldSet.rules[k]).Some?
    ensures ok ==> newSet.rules[..] == Removed(old(oldSet.rules[..]), index)
    ensures ok && old(oldSet.Complete()) ==>
      newSet.Complete() && newSet.Rules() == Removed(old(oldSet.Rules()), index)
    ensures ok ==> MovedOut(oldSet.rules[..], old(oldSet.rules[..]), oldSet.rules.Length, index)
    ensures !ok ==> exists p :: StoppedAt(oldSet.rules[..], old(oldSet.rules[..]), p, index)
  {
    ghost var s0 := oldSet.rules[..];
    ghost var wasComplete := oldSet.Complete();
    if wasComplete {
      RulesAreValues(oldSet);
    }
    newSet := new D.RuleSet(oldSet.rules.Length - 1);
    ok := CopyRemoving(oldSet, newSet, index);
    if ok && wasComplete {
      RemovedSlots(newSet, s0, index);
    }
  }

  /**
   * The copy loop of `ruleAdded`: every old rule is moved over in order,
   * skipping the slot at the index. An empty old slot stops the copy.
   */
  method CopyInserting(oldSet: D.RuleSet, newSet: D.RuleSet, index: nat) returns (ok: bool)
    requires oldSet.rules != newSet.rules && index <= oldSet.rules.Length
    requires newSet.rules.Length == oldSet.rules.Length + 1
    requires forall k :: 0 <= k < newSet.rules.Length ==> newSet.rules[k].None?
    modifies oldSet.rules, newSet.rules
    ensures ok <==> forall k :: 0 <= k < oldSet.rules.Length ==> old(oldSet.rules[k]).Some?
    ensures ok ==> newSet.rules[..] == Inserted(old(oldSet.rules[..]), index, None)
    ensures ok ==> MovedOut(oldSet.rules[..], old(oldSet.rules[..]), oldSet.rules.Length, -1)
    ensures !ok ==> exists p :: StoppedAt(oldSet.rules[..], old(oldSet.rules[..]), p, -1)
  {
    ghost var s0 := oldSet.rules[..];
    var size := oldSet.rules.Length;
    var iOld, iNew := 0, 0;
    while iOld < size
      invariant iOld <= size && (if iNew <= index then iNew == iOld else iNew == iOld + 1)
      invariant forall k :: 0 <= k < iOld ==> s0[k].Some?
      invariant MovedOut(oldSet.rules[..], s0, iOld, -1)
      invariant forall k :: 0 <= k < iNew && k < index ==> newSet.rules[k] == s0[k]
      invariant forall k :: index < k < iNew ==> newSet.rules[k] == s0[k - 1]
      invariant index < newSet.rules.Length && newSet.rules[index].None?
      invariant forall k :: iNew <= k < size + 1 ==> newSet.rules[k].None?
      decreases size + 1 - iNew
    {
      if iNew != index {
        ok := MoveRule(oldSet, iOld, newSet, iNew);
        if !ok {
          assert StoppedAt(oldSet.rules[..], s0, iOld, -1);
          return;
        }
        iOld := iOld + 1;
      }
      iNew := iNew + 1;
    }
    ok := true;
    assert forall k :: 0 <= k < size + 1 ==> newSet.rules[k] == Inserted(s0, index, None)[k];
  }

  /**
   * The copy loop of `ruleRemoved`: every old rule but the one at the index
   * is moved over in order. An empty slot among them stops the copy.
   */
  method CopyRemoving(oldSet: D.RuleSet, newSet: D.RuleSet, index: nat) returns (ok: bool)
    requires oldSet.rules != newSet.rules && index < oldSet.rules.Length
    requires newSet.rules.Length == oldSet.rules.Length - 1
    requires forall k :: 0 <= k < newSet.rules.Length ==> newSet.rules[k].None?
    modifies oldSet.rules, newSet.rules
    ensures ok <==> forall k :: 0 <= k < oldSet.rules.Length && k != index ==> old(oldSet.rules[k]).Some?
    ensures ok ==> newSet.rules[..] == Removed(old(oldSet.rules[..]), index)
    ensures ok ==> MovedOut(oldSet.rules[..], old(oldSet.rules[..]), oldSet.rules.Length, index)
    ensures !ok ==> exists p :: StoppedAt(oldSet.rules[..], old(oldSet.rules[..]), p, index)
  {
    ghost var s0 := oldSet.rules[..];
    var size := oldSet.rules.Length;
    var iOld, iNew := 0, 0;
    while iOld < size
      invariant iOld <= size && iNew == (if iOld <= index then iOld else iOld - 1)
      invariant forall k :: 0 <= k < iOld && k != index ==> s0[k].Some?
      invariant MovedOut(oldSet.rules[..], s0, iOld, index)
      invariant forall k :: 0 <= k < iNew && k < index ==> newSet.rules[k] == s0[k]
      invariant forall k :: index <= k < iNew ==> newSet.rules[k] == s0[k + 1]
      invariant forall k :: iNew <= k < size - 1 ==> newSet.rules[k].None?
    {
      if iOld != index {
        ok := MoveRule(oldSet, iOld, newSet, iNew);
        if !ok {
          assert StoppedAt(oldSet.rules[..], s0, iOld, index);
          return;
        }
        iNew := iNew + 1;
      }
      iOld := iOld + 1;
    }
    ok := true;
    assert forall k :: 0 <= k < size - 1 ==> newSet.rules[k] == Removed(s0, index)[k];
  }

  /** The rules held by slots that all hold one. */
  function Values(slots: seq<Option<D.Rule>>): (r: seq<D.Rule>)
    requires forall k :: 0 <= k < |slots| ==> slots[k].Some?
    ensures |r| == |slots| && forall k :: 0 <= k < |slots| ==> slots[k] == Some(r[k])
  {
    seq(|slots|, k requires 0 <= k < |slots| => slots[k].value)
  }

  /** The rules of a complete rule set are the values of its slots. */
  lemma RulesAreValues(a: D.RuleSet)
    requires a.Complete()
    ensures a.Rules() == Values(a.rules[..])
  {
  }

  /** Inserting a rule into the empty slot left for it completes the old rules with the new one. */
  lemma InsertedSlots(a: D.RuleSet, s0: seq<Option<D.Rule>>, index: nat, x: D.Rule)
    requires index <= |s0| && forall k :: 0 <= k < |s0| ==> s0[k].Some?
    requires a.rules[..] == Inserted(s0, index, None)[index := Some(x)]
    ensures a.rules[..] == Inserted(s0, index, Some(x))
    ensures a.Complete() && a.Rules() == Inserted(Values(s0), index, x)
  {
    var t := Inserted(s0, index, Some(x));
    assert forall k :: 0 <= k < |t| ==> a.rules[..][k] == t[k];
    assert a.Complete() by {
      forall k | 0 <= k < a.rules.Length
        ensures a.rules[k].Some?
      {
        assert a.rules[k] == a.rules[..][k];
      }
    }
    RulesAreValues(a);
    var v := Inserted(Values(s0), index, x);
    assert forall k :: 0 <= k < |v| ==> Values(a.rules[..])[k] == v[k];
  }

  /** Removing a slot from complete slots leaves the old rules without that one. */
  lemma RemovedSlots(a: D.RuleSet, s0: seq<Option<D.Rule>>, index: nat)
    requires index < |s0| && forall k :: 0 <= k < |s0| ==> s0[k].Some?
    requires a.rules[..] == Removed(s0, index)
    ensures a.Complete() && a.Rules() == Removed(Values(s0), index)
  {
    assert a.Complete() by {
      forall k | 0 <= k < a.rules.Length
        ensures a.rules[k].Some?
      {
        assert a.rules[k] == a.rules[..][k];
      }
    }
    RulesAreValues(a);
    var v := Removed(Values(s0), index);
    assert forall k :: 0 <= k < |v| ==> Values(a.rules[..])[k] == v[k];
  }

  /** Classifying one more header extends the reported indices by its first match. */
  lemma ClassifiedSnoc(rules: seq<D.Rule>, headers: seq<seq<nat>>, indices: seq<nat>, h: D.HeaderTuple)
    requires Classified(rules, headers, indices) && |indices| < |headers|
    requires C.ConvertHeader(headers[|indices|]) == Ok(h)
    ensures Classified(rules, headers, indices + [Reported(D.FirstMatch(rules, h))])
  {
    var ix := indices + [Reported(D.FirstMatch(rules, h))];
    forall t | 0 <= t < |ix|
      ensures C.ConvertHeader(headers[t]).Ok? &&
        ix[t] == Reported(D.FirstMatch(rules, C.ConvertHeader(headers[t]).value))
    {
      if t < |indices| {
        assert ix[t] == indices[t];
      }
    }
  }

  /** The result of the rule set's match is the first match of its rules. */
  lemma MatchReported(rs: D.RuleSet, h: D.HeaderTuple, m: Option<nat>)
    requires rs.Complete()
    requires m.Some? ==> (m.value < rs.rules.Length && D.RuleMatch(rs.rules[m.value].value, h) &&
      forall j :: 0 <= j < m.value ==> !D.RuleMatch(rs.rules[j].value, h))
    requires m.None? ==> forall j :: 0 <= j < rs.rules.Length ==> !D.RuleMatch(rs.rules[j].value, h)
    ensures D.FirstMatch(rs.Rules(), h) == m
  {
    if m.Some? {
      D.MatchIsFirstMatch(rs.Rules(), h, m.value);
    }
  }
}

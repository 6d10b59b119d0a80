/**
 * Tuple space search over the five tuple: every generic rule is expanded
 * into prefix rules, one per combination of its atoms' prefix blocks; a
 * rule expanding to a single prefix rule is kept in the hash map of its
 * tuple (the lengths of its five prefixes), a rule expanding to several is
 * kept, converted, in a separate list that is searched linearly.  A header
 * is classified by looking it up in every map whose least index could still
 * improve the best match so far, then in the list.
 */
module TupleSpace {
  import opened BitOps
  import opened Sequences
  import opened Results
  import D = Data5tpl
  import G = GenericAtoms
  import C = Converter5tpl
  import HC = HeaderCheckpoints
  import opened TupleSpaceData

  // The messages of the exceptions thrown here.
  const ShortRuleError: string := "A rule inside the generic ruleset has not enough rule-atoms for five-tuple compatibility."

  // ---------------------------------------------------------------------
  // Expanding a generic rule into prefix rules
  // ---------------------------------------------------------------------

  /** The range atoms the prefix conversion can handle: their maximum fits their width. */
  predicate RangeFits(a: G.RuleAtom)
  {
    a.Range? ==> a.maxValue < Pow2(a.width)
  }

  /** The pairs of a list are no longer than field k of the five tuple. */
  predicate PairsFit(ps: seq<PrefixPair>, k: nat)
  {
    forall j :: 0 <= j < |ps| ==> ps[j].1 <= FieldBits(k)
  }

  /**
   * What `convertRuleToMany` asks of a rule of at least five atoms: each of
   * the first five converts to prefixes no longer than its field, so that
   * the prefix constructor's shift stays inside the field.
   */
  predicate Expandable(rule: G.Rule)
  {
    |rule| >= 5 ==> AtomsExpandable(rule, 5)
  }

  /** The first k atoms of a rule convert to prefixes no longer than their fields. */
  predicate AtomsExpandable(rule: G.Rule, k: nat)
    requires k <= |rule|
  {
    k == 0 ||
    (AtomsExpandable(rule, k - 1) && RangeFits(rule[k - 1]) && PairsFit(G.PrefixesOf(rule[k - 1]), k - 1))
  }

  lemma {:induction false} AtomsExpandableBelow(rule: G.Rule, n: nat, k: nat)
    requires k < n <= |rule| && AtomsExpandable(rule, n)
    ensures RangeFits(rule[k]) && PairsFit(G.PrefixesOf(rule[k]), k)
    decreases n
  {
    if k < n - 1 {
      AtomsExpandableBelow(rule, n - 1, k);
    }
  }

  /** The first five atoms of a rule can be converted to prefixes. */
  predicate AtomsFit(rule: G.Rule)
  {
    |rule| >= 5 && RangeFits(rule[0]) && RangeFits(rule[1]) && RangeFits(rule[2]) &&
    RangeFits(rule[3]) && RangeFits(rule[4])
  }

  /** The prefix lists of the first five atoms, as `toPrefixes` gives them. */
  function AtomPrefixes(rule: G.Rule): seq<seq<PrefixPair>>
    requires AtomsFit(rule)
  {
    [G.PrefixesOf(rule[0]), G.PrefixesOf(rule[1]), G.PrefixesOf(rule[2]),
     G.PrefixesOf(rule[3]), G.PrefixesOf(rule[4])]
  }

  /** An expandable rule of five atoms has fitting prefix lists. */
  lemma ExpandableFits(rule: G.Rule)
    requires Expandable(rule) && |rule| >= 5
    ensures AtomsFit(rule) && ListsFit(AtomPrefixes(rule))
  {
    forall k | 0 <= k < 5
      ensures RangeFits(rule[k]) && PairsFit(G.PrefixesOf(rule[k]), k)
    {
      AtomsExpandableBelow(rule, 5, k);
    }
    assert RangeFits(rule[0]) && RangeFits(rule[1]) && RangeFits(rule[2]) && RangeFits(rule[3]) && RangeFits(rule[4]);
    var lists := AtomPrefixes(rule);
    forall k | 0 <= k < 5
      ensures PairsFit(lists[k], k)
    {
      assert lists[k] == G.PrefixesOf(rule[k]);
    }
  }

  /** Five prefix lists whose pairs fit their fields. */
  predicate ListsFit(lists: seq<seq<PrefixPair>>)
  {
    |lists| == 5 && forall k :: 0 <= k < 5 ==> PairsFit(lists[k], k)
  }

  /** A chosen beginning of a combination whose pairs fit their fields. */
  predicate ChosenFit(chosen: seq<PrefixPair>)
  {
    |chosen| <= 5 && forall j :: 0 <= j < |chosen| ==> chosen[j].1 <= FieldBits(j)
  }

  /**
   * The combinations of the nested loops from level k on, after `chosen`
   * was picked from the lists before k: one pair of each remaining list,
   * the outer list varying slowest.
   */
  function Choices(lists: seq<seq<PrefixPair>>, k: nat, chosen: seq<PrefixPair>): seq<seq<PrefixPair>>
    decreases |lists| - k, if k < |lists| then |lists[k]| + 1 else 0
  {
    if k >= |lists| then [chosen] else ChoicesOver(lists, k, chosen, lists[k])
  }

  /** The combinations of level k whose pair of that level is taken from `heads`. */
  function ChoicesOver(lists: seq<seq<PrefixPair>>, k: nat, chosen: seq<PrefixPair>, heads: seq<PrefixPair>):
    seq<seq<PrefixPair>>
    requires k < |lists|
    decreases |lists| - k, |heads|
  {
    if |heads| == 0 then []
    else ChoicesOver(lists, k, chosen, heads[..|heads| - 1]) + Choices(lists, k + 1, chosen + [heads[|heads| - 1]])
  }

  /** The product of the list lengths from level k on. */
  function CountFrom(lists: seq<seq<PrefixPair>>, k: nat): nat
    decreases |lists| - k
  {
    if k >= |lists| then 1 else |lists[k]| * CountFrom(lists, k + 1)
  }

  /**
   * A combination is produced from level k on exactly when it starts with
   * the chosen pairs and takes each later pair from its own list.
   */
  lemma {:induction false} ChoicesMembership(lists: seq<seq<PrefixPair>>, k: nat, chosen: seq<PrefixPair>,
    c: seq<PrefixPair>)
    requires |chosen| == k <= |lists|
    ensures c in Choices(lists, k, chosen) <==>
      |c| == |lists| && c[..k] == chosen && forall j :: k <= j < |lists| ==> c[j] in lists[j]
    decreases |lists| - k, if k < |lists| then |lists[k]| + 1 else 0
  {
    if k == |lists| {
      if |c| == |lists| && c[..k] == chosen {
        assert c == chosen;
      }
    } else {
      ChoicesOverMembership(lists, k, chosen, lists[k], c);
    }
  }

  lemma {:induction false} ChoicesOverMembership(lists: seq<seq<PrefixPair>>, k: nat, chosen: seq<PrefixPair>,
    heads: seq<PrefixPair>, c: seq<PrefixPair>)
    requires |chosen| == k < |lists|
    ensures c in ChoicesOver(lists, k, chosen, heads) <==>
      |c| == |lists| && c[..k] == chosen && c[k] in heads && forall j :: k < j < |lists| ==> c[j] in lists[j]
    decreases |lists| - k, |heads|
  {
    if |heads| > 0 {
      var init, last := heads[..|heads| - 1], heads[|heads| - 1];
      assert heads == init + [last];
      ChoicesOverMembership(lists, k, chosen, init, c);
      ChoicesMembership(lists, k + 1, chosen + [last], c);
      if |c| == |lists| && c[..k] == chosen {
        assert c[..k + 1] == chosen + [c[k]] by {
          assert c[..k + 1] == c[..k] + [c[k]];
        }
        if c[..k + 1] == chosen + [last] {
          assert c[k] == (chosen + [last])[k];
        }
      }
      if |c| == |lists| && c[..k + 1] == chosen + [last] {
        assert c[..k] == c[..k + 1][..k];
      }
    }
  }

  /** There are as many combinations as the product of the list lengths. */
  lemma {:induction false} ChoicesCount(lists: seq<seq<PrefixPair>>, k: nat, chosen: seq<PrefixPair>)
    ensures |Choices(lists, k, chosen)| == CountFrom(lists, k)
    decreases |lists| - k, if k < |lists| then |lists[k]| + 1 else 0
  {
    if k < |lists| {
      ChoicesOverCount(lists, k, chosen, lists[k]);
    }
  }

  lemma {:induction false} ChoicesOverCount(lists: seq<seq<PrefixPair>>, k: nat, chosen: seq<PrefixPair>,
    heads: seq<PrefixPair>)
    requires k < |lists|
    ensures |ChoicesOver(lists, k, chosen, heads)| == |heads| * CountFrom(lists, k + 1)
    decreases |lists| - k, |heads|
  {
    if |heads| > 0 {
      var init, last := heads[..|heads| - 1], heads[|heads| - 1];
      ChoicesOverCount(lists, k, chosen, init);
      ChoicesCount(lists, k + 1, chosen + [last]);
      assert ChoicesOver(lists, k, chosen, heads) == ChoicesOver(lists, k, chosen, init) + Choices(lists, k + 1, chosen + [last]);
      MulSucc(|init|, CountFrom(lists, k + 1));
    }
  }

  /** (n + 1) * c == n * c + c. */
  lemma MulSucc(n: nat, c: nat)
    ensures (n + 1) * c == n * c + c
  {
  }

  /** Combinations of fitting lists fit the rule constructor. */
  predicate AllFit(cs: seq<seq<PrefixPair>>)
  {
    forall i :: 0 <= i < |cs| ==> FitPairs(cs[i])
  }

  lemma ChoicesOverFit(lists: seq<seq<PrefixPair>>, k: nat, chosen: seq<PrefixPair>, n: nat)
    requires ListsFit(lists) && |chosen| == k < 5 && ChosenFit(chosen) && n <= |lists[k]|
    ensures AllFit(ChoicesOver(lists, k, chosen, lists[k][..n]))
  {
    var cs := ChoicesOver(lists, k, chosen, lists[k][..n]);
    forall i | 0 <= i < |cs|
      ensures FitPairs(cs[i])
    {
      var c := cs[i];
      ChoicesOverMembership(lists, k, chosen, lists[k][..n], c);
      forall j | 0 <= j < 5
        ensures c[j].1 <= FieldBits(j)
      {
        if j < k {
          assert c[j] == c[..k][j];
        } else if j == k {
          var t :| 0 <= t < n && lists[k][..n][t] == c[k];
          assert c[k] == lists[k][t];
        } else {
          var t :| 0 <= t < |lists[j]| && lists[j][t] == c[j];
        }
      }
    }
  }

  lemma ChoicesFit(lists: seq<seq<PrefixPair>>, k: nat, chosen: seq<PrefixPair>)
    requires ListsFit(lists) && |chosen| == k <= 5 && ChosenFit(chosen)
    ensures AllFit(Choices(lists, k, chosen))
  {
    if k < 5 {
      ChoicesOverFit(lists, k, chosen, |lists[k]|);
      assert lists[k][..|lists[k]|] == lists[k];
    }
  }

  /** The prefix rules of a list of combinations, all carrying the rule's index. */
  function MakeRules(index: nat, cs: seq<seq<PrefixPair>>): (rs: seq<PrefixRule>)
    requires AllFit(cs)
    ensures |rs| == |cs| && forall i :: 0 <= i < |cs| ==> rs[i] == MakePrefixRule(index, cs[i])
  {
    seq(|cs|, i requires 0 <= i < |cs| => MakePrefixRule(index, cs[i]))
  }

  lemma MakeRulesAppend(index: nat, a: seq<seq<PrefixPair>>, b: seq<seq<PrefixPair>>)
    requires AllFit(a) && AllFit(b)
    ensures AllFit(a + b) && MakeRules(index, a + b) == MakeRules(index, a) + MakeRules(index, b)
  {
    assert AllFit(a + b) by {
      forall i | 0 <= i < |a + b|
        ensures FitPairs((a + b)[i])
      {
        if i >= |a| {
          assert (a + b)[i] == b[i - |a|];
        }
      }
    }
  }

  /** The prefix rules of a rule: one per combination of its five prefix lists. */
  function Expansion(index: nat, lists: seq<seq<PrefixPair>>): seq<PrefixRule>
    requires ListsFit(lists)
  {
    ChoicesFit(lists, 0, []);
    MakeRules(index, Choices(lists, 0, []))
  }

  /**
   * The nested loops of `convertRuleToMany` from level k on: each pair of
   * list k is appended to the chosen ones and the next level run; at the
   * innermost level one prefix rule is built and pushed.
   */
  method ExpandFrom(index: nat, lists: seq<seq<PrefixPair>>, k: nat, chosen: seq<PrefixPair>,
    specRules: seq<PrefixRule>) returns (out: seq<PrefixRule>)
    requires ListsFit(lists) && |chosen| == k <= 5 && ChosenFit(chosen)
    ensures AllFit(Choices(lists, k, chosen))
    ensures out == specRules + MakeRules(index, Choices(lists, k, chosen))
    decreases 5 - k, 1
  {
    ChoicesFit(lists, k, chosen);
    if k == 5 {
      out := specRules + [MakePrefixRule(index, chosen)];
    } else {
      out := ExpandLevel(index, lists, k, chosen, specRules);
    }
  }

  /** The loop of level k over the pairs of list k. */
  method ExpandLevel(index: nat, lists: seq<seq<PrefixPair>>, k: nat, chosen: seq<PrefixPair>,
    specRules: seq<PrefixRule>) returns (out: seq<PrefixRule>)
    requires ListsFit(lists) && |chosen| == k < 5 && ChosenFit(chosen)
    ensures AllFit(ChoicesOver(lists, k, chosen, lists[k]))
    ensures out == specRules + MakeRules(index, ChoicesOver(lists, k, chosen, lists[k]))
    decreases 5 - k, 0
  {
    var heads := lists[k];
    out := specRules;
    var it := 0;
    ChoicesOverFit(lists, k, chosen, 0);
    assert heads[..0] == [];
    while it < |heads|
      invariant 0 <= it <= |heads|
      invariant AllFit(ChoicesOver(lists, k, chosen, heads[..it]))
      invariant out == specRules + MakeRules(index, ChoicesOver(lists, k, chosen, heads[..it]))
    {
      out := ExpandFrom(index, lists, k + 1, chosen + [heads[it]], out);
      ExpandStep(index, lists, k, chosen, it);
      AppendAssoc(specRules, MakeRules(index, ChoicesOver(lists, k, chosen, heads[..it])),
        MakeRules(index, Choices(lists, k + 1, chosen + [heads[it]])));
      it := it + 1;
    }
    assert heads[..it] == heads;
  }

  /** One pass of the loop at level k adds the combinations of the next level under the pair picked. */
  lemma ExpandStep(index: nat, lists: seq<seq<PrefixPair>>, k: nat, chosen: seq<PrefixPair>, it: nat)
    requires ListsFit(lists) && |chosen| == k < 5 && ChosenFit(chosen) && it < |lists[k]|
    ensures ChosenFit(chosen + [lists[k][it]])
    ensures AllFit(ChoicesOver(lists, k, chosen, lists[k][..it]))
    ensures AllFit(Choices(lists, k + 1, chosen + [lists[k][it]]))
    ensures AllFit(ChoicesOver(lists, k, chosen, lists[k][..it + 1]))
    ensures MakeRules(index, ChoicesOver(lists, k, chosen, lists[k][..it + 1])) ==
      MakeRules(index, ChoicesOver(lists, k, chosen, lists[k][..it])) +
      MakeRules(index, Choices(lists, k + 1, chosen + [lists[k][it]]))
  {
    var heads := lists[k];
    var next := chosen + [heads[it]];
    assert ChosenFit(next) by {
      assert heads[it].1 <= FieldBits(k);
    }
    var before := ChoicesOver(lists, k, chosen, heads[..it]);
    var level := Choices(lists, k + 1, next);
    assert heads[..it + 1][..it] == heads[..it];
    assert ChoicesOver(lists, k, chosen, heads[..it + 1]) == before + level;
    ChoicesOverFit(lists, k, chosen, it);
    ChoicesOverFit(lists, k, chosen, it + 1);
    ChoicesFit(lists, k + 1, next);
    MakeRulesAppend(index, before, level);
  }

  /**
   * `convertRuleToMany`: a rule of fewer than five atoms throws; otherwise
   * the five atoms' prefix lists are built and every combination becomes a
   * prefix rule with the given index.
   */
  method ConvertRuleToMany(rule: G.Rule, index: nat) returns (r: Result<seq<PrefixRule>>)
    requires Expandable(rule)
    ensures r.Err? <==> |rule| < 5
    ensures r.Ok? ==> AtomsFit(rule) && ListsFit(AtomPrefixes(rule)) && r.value == Expansion(index, AtomPrefixes(rule))
  {
    if |rule| < 5 {
      return Err(ShortRuleError);
    }
    ExpandableFits(rule);
    var addrSrcRes := G.ToPrefixes(rule[0], []);
    var addrDestRes := G.ToPrefixes(rule[1], []);
    var portSrcRes := G.ToPrefixes(rule[2], []);
    var portDestRes := G.ToPrefixes(rule[3], []);
    var protocolRes := G.ToPrefixes(rule[4], []);
    var lists := [addrSrcRes, addrDestRes, portSrcRes, portDestRes, protocolRes];
    assert addrSrcRes == G.PrefixesOf(rule[0]) && addrDestRes == G.PrefixesOf(rule[1]);
    assert portSrcRes == G.PrefixesOf(rule[2]) && portDestRes == G.PrefixesOf(rule[3]);
    assert protocolRes == G.PrefixesOf(rule[4]);
    assert lists == AtomPrefixes(rule);
    var specRules := ExpandFrom(index, lists, 0, [], []);
    return Ok(specRules);
  }

  /**
   * The expansion of a rule is the cartesian product of its prefix lists:
   * it has the product of their lengths many rules, each carries the index,
   * and a prefix rule is among them exactly when it is built from one pair
   * of each list.
   */
  lemma ExpansionIsProduct(index: nat, lists: seq<seq<PrefixPair>>, x: PrefixRule)
    requires ListsFit(lists)
    ensures |Expansion(index, lists)| == CountFrom(lists, 0)
    ensures x in Expansion(index, lists) <==>
      exists c :: c in Choices(lists, 0, []) && FitPairs(c) && x == MakePrefixRule(index, c)
    ensures forall c :: c in Choices(lists, 0, []) <==> |c| == 5 && forall j :: 0 <= j < 5 ==> c[j] in lists[j]
  {
    ChoicesCount(lists, 0, []);
    forall c
      ensures c in Choices(lists, 0, []) <==> |c| == 5 && forall j :: 0 <= j < 5 ==> c[j] in lists[j]
    {
      ChoicesMembership(lists, 0, [], c);
    }
  }

  // ---------------------------------------------------------------------
  // The rules of several maps
  // ---------------------------------------------------------------------

  /** The union of a list of rule sets. */
  function UnionAll(ss: seq<set<PrefixRule>>): set<PrefixRule>
    decreases |ss|
  {
    if |ss| == 0 then {} else UnionAll(ss[..|ss| - 1]) + ss[|ss| - 1]
  }

  /** A rule is in the union iff it is in one of the sets. */
  lemma {:induction false} InUnionAll(ss: seq<set<PrefixRule>>, x: PrefixRule)
    ensures x in UnionAll(ss) <==> exists i :: 0 <= i < |ss| && x in ss[i]
    decreases |ss|
  {
    if |ss| > 0 {
      var init := ss[..|ss| - 1];
      InUnionAll(init, x);
      if x in UnionAll(init) {
        var i :| 0 <= i < |init| && x in init[i];
        assert x in ss[i];
      }
      if exists i :: 0 <= i < |ss| && x in ss[i] {
        var i :| 0 <= i < |ss| && x in ss[i];
        if i < |ss| - 1 {
          assert x in init[i];
        }
      }
    }
  }

  /** The rule sets of a list of maps, one per map. */
  ghost function ContentsSeq(ms: seq<Map>): (ss: seq<set<PrefixRule>>)
    reads set m | m in ms :: m.storage
    ensures |ss| == |ms| && forall i :: 0 <= i < |ms| ==> ss[i] == ms[i].Contents()
    decreases |ms|
  {
    if |ms| == 0 then [] else ContentsSeq(ms[..|ms| - 1]) + [ms[|ms| - 1].Contents()]
  }

  /** The prefix rules of a list, as a set. */
  function Elements(rs: seq<PrefixRule>): set<PrefixRule>
  {
    set x | x in rs
  }

  /** Every rule with an index at least `oldIndex` moved up by one. */
  function RaiseSet(rs: set<PrefixRule>, oldIndex: nat): set<PrefixRule>
  {
    set x | x in rs :: Raise(x, oldIndex)
  }

  /** Every rule with index `idx` gone, and every index above it moved down by one. */
  function RemoveSet(rs: set<PrefixRule>, idx: nat): set<PrefixRule>
  {
    set x | x in rs && x.index != idx :: Lower(x, idx)
  }

  /** One rule set changed by adding rules adds them to the union. */
  lemma UnionAllAdd(ss: seq<set<PrefixRule>>, ss2: seq<set<PrefixRule>>, k: nat, extra: set<PrefixRule>)
    requires k < |ss| == |ss2| && ss2[k] == ss[k] + extra
    requires forall i :: 0 <= i < |ss| && i != k ==> ss2[i] == ss[i]
    ensures UnionAll(ss2) == UnionAll(ss) + extra
  {
    forall x
      ensures x in UnionAll(ss2) <==> x in UnionAll(ss) + extra
    {
      InUnionAll(ss, x);
      InUnionAll(ss2, x);
      if x in extra {
        assert x in ss2[k];
      }
      if x in UnionAll(ss) {
        var i :| 0 <= i < |ss| && x in ss[i];
        assert x in ss2[i];
      }
      if x in UnionAll(ss2) {
        var i :| 0 <= i < |ss2| && x in ss2[i];
        if i != k {
          assert x in ss[i];
        }
      }
    }
  }

  /** Raising the indices of every set raises those of the union. */
  lemma UnionAllRaise(ss: seq<set<PrefixRule>>, ss2: seq<set<PrefixRule>>, oldIndex: nat)
    requires |ss| == |ss2| && forall i :: 0 <= i < |ss| ==> ss2[i] == RaiseSet(ss[i], oldIndex)
    ensures UnionAll(ss2) == RaiseSet(UnionAll(ss), oldIndex)
  {
    forall y
      ensures y in UnionAll(ss2) <==> y in RaiseSet(UnionAll(ss), oldIndex)
    {
      InUnionAll(ss2, y);
      if y in UnionAll(ss2) {
        var i :| 0 <= i < |ss2| && y in ss2[i];
        var x :| x in ss[i] && y == Raise(x, oldIndex);
        InUnionAll(ss, x);
      }
      if y in RaiseSet(UnionAll(ss), oldIndex) {
        var x :| x in UnionAll(ss) && y == Raise(x, oldIndex);
        InUnionAll(ss, x);
        var i :| 0 <= i < |ss| && x in ss[i];
        assert y in ss2[i];
      }
    }
  }

  /** Removing an index from every set removes it from the union. */
  lemma UnionAllRemove(ss: seq<set<PrefixRule>>, ss2: seq<set<PrefixRule>>, idx: nat)
    requires |ss| == |ss2| && forall i :: 0 <= i < |ss| ==> ss2[i] == RemoveSet(ss[i], idx)
    ensures UnionAll(ss2) == RemoveSet(UnionAll(ss), idx)
  {
    forall y
      ensures y in UnionAll(ss2) <==> y in RemoveSet(UnionAll(ss), idx)
    {
      InUnionAll(ss2, y);
      if y in UnionAll(ss2) {
        var i :| 0 <= i < |ss2| && y in ss2[i];
        var x :| x in ss[i] && x.index != idx && y == Lower(x, idx);
        InUnionAll(ss, x);
      }
      if y in RemoveSet(UnionAll(ss), idx) {
        var x :| x in UnionAll(ss) && x.index != idx && y == Lower(x, idx);
        InUnionAll(ss, x);
        var i :| 0 <= i < |ss| && x in ss[i];
        assert y in ss2[i];
      }
    }
  }

  /** The matching indices of a union are those of its parts. */
  lemma MatchesInUnion(a: set<PrefixRule>, b: set<PrefixRule>, h: D.HeaderTuple)
    ensures MatchesIn(a + b, h) == MatchesIn(a, h) + MatchesIn(b, h)
  {
    forall i | i in MatchesIn(a + b, h)
      ensures i in MatchesIn(a, h) + MatchesIn(b, h)
    {
      var x :| x in a + b && RuleMatch(x, h) && x.index == i;
    }
  }

  // ---------------------------------------------------------------------
  // Classification
  // ---------------------------------------------------------------------

  /** What `classify` pushes for a header: the least of `noRuleIsMatching()` and the candidate indices. */
  predicate IsLeastOr(r: nat, s: set<nat>)
  {
    (r == NoRuleIsMatching || r in s) && r <= NoRuleIsMatching && forall i :: i in s ==> r <= i
  }

  /** Taking the smaller of the best so far and the best of another set gives the best of the union. */
  lemma LeastOfUnion(r: nat, a: set<nat>, c: nat, b: set<nat>)
    requires IsLeastOr(r, a) && IsLeastOr(c, b)
    ensures IsLeastOr(if c < r then c else r, a + b)
  {
  }

  /** An entry of the list of expanded rules: the rule's index and its converted form. */
  type Expanded = (nat, D.Rule)

  /** The index of the first entry of the list whose rule matches the header. */
  function FirstExpanded(es: seq<Expanded>, h: D.HeaderTuple): (r: Option<nat>)
    ensures r.None? <==> forall t :: 0 <= t < |es| ==> !D.RuleMatch(es[t].1, h)
    ensures r.Some? ==>
      exists t :: 0 <= t < |es| && D.RuleMatch(es[t].1, h) && es[t].0 == r.value &&
        forall u :: 0 <= u < t ==> !D.RuleMatch(es[u].1, h)
    decreases |es|
  {
    if |es| == 0 then None
    else if D.RuleMatch(es[0].1, h) then Some(es[0].0)
    else
      var r := FirstExpanded(es[1..], h);
      assert forall t :: 1 <= t < |es| ==> es[t] == es[1..][t - 1];
      if r.Some? then
        var t :| 0 <= t < |es[1..]| && D.RuleMatch(es[1..][t].1, h) && es[1..][t].0 == r.value &&
          forall u :: 0 <= u < t ==> !D.RuleMatch(es[1..][u].1, h);
        assert es[t + 1] == es[1..][t];
        r
      else r
  }

  /** The first match of the list, as a set of at most one index. */
  function FirstExpandedSet(es: seq<Expanded>, h: D.HeaderTuple): set<nat>
  {
    match FirstExpanded(es, h)
    case None => {}
    case Some(i) => {i}
  }

  /** The list is in order of rule index, as `setRules` builds it on an empty classifier. */
  predicate ExpandedSorted(es: seq<Expanded>)
  {
    forall t, u :: 0 <= t < u < |es| ==> es[t].0 <= es[u].0
  }

  /** In an ordered list the first match has the least index of all matching entries. */
  lemma SortedFirstExpandedIsLeast(es: seq<Expanded>, h: D.HeaderTuple)
    requires ExpandedSorted(es)
    ensures forall t :: 0 <= t < |es| && D.RuleMatch(es[t].1, h) ==>
      FirstExpanded(es, h).Some? && FirstExpanded(es, h).value <= es[t].0
  {
    if FirstExpanded(es, h).Some? {
      var t0 :| 0 <= t0 < |es| && D.RuleMatch(es[t0].1, h) && es[t0].0 == FirstExpanded(es, h).value &&
        forall u :: 0 <= u < t0 ==> !D.RuleMatch(es[u].1, h);
      forall t | 0 <= t < |es| && D.RuleMatch(es[t].1, h)
        ensures FirstExpanded(es, h).value <= es[t].0
      {
        assert t >= t0;
      }
    }
  }

  /**
   * The indices `classify` chooses among for a header: those of the
   * matching prefix rules of all maps, and that of the first matching
   * entry of the expanded list.
   */
  ghost function Candidates(ss: seq<set<PrefixRule>>, es: seq<Expanded>, h: D.HeaderTuple): set<nat>
  {
    MatchesIn(UnionAll(ss), h) + FirstExpandedSet(es, h)
  }

  /**
   * The loop of `classify` over the maps with its pruning, on the values
   * it sees: per map in order its `minIndex` and the result of its lookup.
   * A map is looked up only while the best match so far is above its
   * `minIndex`.
   */
  function PrunedMin(entries: seq<(nat, nat)>): nat
    decreases |entries|
  {
    if |entries| == 0 then NoRuleIsMatching
    else
      var best := PrunedMin(entries[..|entries| - 1]);
      var (minIndex, found) := entries[|entries| - 1];
      if best > minIndex && found < best then found else best
  }

  /** The least lookup result, or `noRuleIsMatching()`. */
  function LeastFound(entries: seq<(nat, nat)>): nat
    decreases |entries|
  {
    if |entries| == 0 then NoRuleIsMatching
    else
      var best := LeastFound(entries[..|entries| - 1]);
      var found := entries[|entries| - 1].1;
      if found < best then found else best
  }

  /**
   * The pruning loses nothing while every `minIndex` is a lower bound of
   * the lookup of its map (a lookup without match gives
   * `noRuleIsMatching()`, which no pruning misses).
   */
  lemma {:induction false} PrunedMinIsLeast(entries: seq<(nat, nat)>)
    requires forall t :: 0 <= t < |entries| ==> entries[t].0 <= entries[t].1 || entries[t].1 >= NoRuleIsMatching
    ensures PrunedMin(entries) == LeastFound(entries)
    decreases |entries|
  {
    if |entries| > 0 {
      var init := entries[..|entries| - 1];
      assert forall t :: 0 <= t < |init| ==> init[t] == entries[t];
      PrunedMinIsLeast(init);
      LeastFoundBounded(init);
    }
  }

  lemma {:induction false} LeastFoundBounded(entries: seq<(nat, nat)>)
    ensures LeastFound(entries) <= NoRuleIsMatching
    decreases |entries|
  {
    if |entries| > 0 {
      LeastFoundBounded(entries[..|entries| - 1]);
    }
  }

  /**
   * With the `minIndex` that `decrementIndex` as written leaves behind, a
   * match is missed: map A held rules 0 and 2, map B rule 1, and rules 1
   * and 2 match the header.  Removing rule 0 leaves A with rule 1 and
   * `minIndex` 1, and B with rule 0 but `minIndex` still 1; `classify`
   * finds 1 in A and then skips B, reporting 1 instead of 0.
   */
  lemma StaleMinIndexMissesMatch()
    ensures PrunedMin([(1, 1), (1, 0)]) == 1 && LeastFound([(1, 1), (1, 0)]) == 0
  {
    assert [(1, 1), (1, 0)][..1] == [(1, 1)];
    assert [(1, 1)][..0] == [];
  }

  /** The line converts and `r` is the least index among its candidates, or `noRuleIsMatching()`. */
  ghost predicate ClassifiedAs(r: nat, line: seq<nat>, ss: seq<set<PrefixRule>>, es: seq<Expanded>)
  {
    C.ConvertHeader(line).Ok? && IsLeastOr(r, Candidates(ss, es, C.ConvertHeader(line).value))
  }

  /**
   * The results `classify` gives for a list of header lines over the stored
   * rules `ss` and the expanded list `es`: one per line, each as `ClassifiedAs`.
   */
  ghost predicate Classified(indices: seq<nat>, lines: seq<seq<nat>>, ss: seq<set<PrefixRule>>, es: seq<Expanded>)
    decreases |lines|
  {
    |indices| == |lines| &&
    (|lines| == 0 ||
     (Classified(indices[..|lines| - 1], lines[..|lines| - 1], ss, es) &&
      ClassifiedAs(indices[|lines| - 1], lines[|lines| - 1], ss, es)))
  }

  /** `Classified` gives every line its result. */
  lemma {:induction false} ClassifiedAt(indices: seq<nat>, lines: seq<seq<nat>>, ss: seq<set<PrefixRule>>,
    es: seq<Expanded>, t: nat)
    requires Classified(indices, lines, ss, es) && t < |lines|
    ensures |indices| == |lines| && ClassifiedAs(indices[t], lines[t], ss, es)
    decreases |lines|
  {
    var n := |lines| - 1;
    if t < n {
      ClassifiedAt(indices[..n], lines[..n], ss, es, t);
      assert indices[..n][t] == indices[t] && lines[..n][t] == lines[t];
    }
  }

  /** The results for the first j lines give each of those lines its result. */
  lemma ClassifiedPrefix(indices: seq<nat>, lines: seq<seq<nat>>, j: nat, ss: seq<set<PrefixRule>>,
    es: seq<Expanded>)
    requires j <= |lines| && Classified(indices, lines[..j], ss, es)
    ensures |indices| == j && forall t :: 0 <= t < j ==> ClassifiedAs(indices[t], lines[t], ss, es)
  {
    forall t | 0 <= t < j
      ensures ClassifiedAs(indices[t], lines[t], ss, es)
    {
      ClassifiedAt(indices, lines[..j], ss, es, t);
    }
  }

  /** One more line classified with its result. */
  lemma ClassifiedExtend(indices: seq<nat>, lines: seq<seq<nat>>, line: seq<nat>, r: nat,
    ss: seq<set<PrefixRule>>, es: seq<Expanded>)
    requires Classified(indices, lines, ss, es) && ClassifiedAs(r, line, ss, es)
    ensures Classified(indices + [r], lines + [line], ss, es)
  {
    assert (indices + [r])[..|lines|] == indices;
    assert (lines + [line])[..|lines|] == lines;
  }

  /** The least index of all matching entries of an ordered list is the index of its first match. */
  lemma LeastOfAllCandidates(ss: seq<set<PrefixRule>>, es: seq<Expanded>, h: D.HeaderTuple, r: nat)
    requires ExpandedSorted(es) && IsLeastOr(r, Candidates(ss, es, h))
    ensures IsLeastOr(r, MatchesIn(UnionAll(ss), h) +
      set t | 0 <= t < |es| && D.RuleMatch(es[t].1, h) :: es[t].0)
  {
    SortedFirstExpandedIsLeast(es, h);
    if r != NoRuleIsMatching && r !in MatchesIn(UnionAll(ss), h) {
      var t :| 0 <= t < |es| && D.RuleMatch(es[t].1, h) && es[t].0 == FirstExpanded(es, h).value;
    }
  }

  // ---------------------------------------------------------------------
  // Setting the rules
  // ---------------------------------------------------------------------

  /** The prefix rules of a generic rule of five atoms with the given index. */
  function SpecRules(rule: G.Rule, index: nat): seq<PrefixRule>
    requires |rule| >= 5 && Expandable(rule)
  {
    ExpandableFits(rule);
    Expansion(index, AtomPrefixes(rule))
  }

  /** `setRules` takes a rule of five atoms that, if it expands to several prefix rules, also converts. */
  predicate Accepted(rule: G.Rule, index: nat)
  {
    |rule| >= 5 && Expandable(rule) && (|SpecRules(rule, index)| > 1 ==> C.RuleFits(rule))
  }

  /** The first n rules of a rule set are expandable and taken. */
  predicate AcceptedUpTo(ruleset: G.RuleSet, n: nat)
  {
    n <= |ruleset| && forall i :: 0 <= i < n ==> Expandable(ruleset[i]) && Accepted(ruleset[i], i)
  }

  /** The expanded-list entries `setRules` appends for the first n rules. */
  function NewEntries(ruleset: G.RuleSet, n: nat): seq<Expanded>
    requires n <= |ruleset|
  {
    if n == 0 then []
    else
      NewEntries(ruleset, n - 1) + EntryAdded(ruleset[n - 1], n - 1)
  }

  /** The expanded-list entry, if any, `setRules` appends for a rule with index `index`. */
  function EntryAdded(rule: G.Rule, index: nat): seq<Expanded> {
    if |rule| >= 5 && Expandable(rule) && |SpecRules(rule, index)| > 1 && C.RuleFits(rule) then [(index, C.SpecificRule(rule))] else []
  }

  /** The prefix rules `setRules` places in maps for the first n rules. */
  function NewPlaced(ruleset: G.RuleSet, n: nat): set<PrefixRule>
    requires n <= |ruleset|
  {
    if n == 0 then {}
    else
      NewPlaced(ruleset, n - 1) + PlacedAdded(ruleset[n - 1], n - 1)
  }

  /** The prefix rules `setRules` places in maps for a rule with index `index`. */
  function PlacedAdded(rule: G.Rule, index: nat): set<PrefixRule> {
    if |rule| >= 5 && Expandable(rule) && |SpecRules(rule, index)| <= 1 then Elements(SpecRules(rule, index)) else {}
  }

  /** The least of a start value and the indices of a list of entries. */
  function MinEntry(lo: nat, es: seq<Expanded>): nat
    decreases |es|
  {
    if |es| == 0 then lo
    else
      var m := MinEntry(lo, es[..|es| - 1]);
      var last := es[|es| - 1].0;
      if last < m then last else m
  }

  /** MinEntry is at most the start value and every index, and is one of them. */
  lemma {:induction false} MinEntryIsLeast(lo: nat, es: seq<Expanded>)
    ensures MinEntry(lo, es) <= lo && forall t :: 0 <= t < |es| ==> MinEntry(lo, es) <= es[t].0
    ensures MinEntry(lo, es) == lo || exists t :: 0 <= t < |es| && MinEntry(lo, es) == es[t].0
    decreases |es|
  {
    if |es| > 0 {
      var init := es[..|es| - 1];
      MinEntryIsLeast(lo, init);
      assert forall t :: 0 <= t < |es| - 1 ==> init[t] == es[t];
    }
  }

  /** The entries for the first n rules carry indices below n. */
  lemma {:induction false} NewEntriesBelow(ruleset: G.RuleSet, n: nat)
    requires n <= |ruleset|
    ensures forall t :: 0 <= t < |NewEntries(ruleset, n)| ==> NewEntries(ruleset, n)[t].0 < n
    decreases n
  {
    if n > 0 {
      NewEntriesBelow(ruleset, n - 1);
    }
  }

  /** The entries appended by `setRules` come in increasing index order. */
  lemma {:induction false} NewEntriesSorted(ruleset: G.RuleSet, n: nat)
    requires n <= |ruleset|
    ensures ExpandedSorted(NewEntries(ruleset, n))
    decreases n
  {
    if n > 0 {
      NewEntriesSorted(ruleset, n - 1);
      var rule := ruleset[n - 1];
      if |rule| >= 5 && Expandable(rule) && |SpecRules(rule, n - 1)| > 1 && C.RuleFits(rule) {
        NewEntriesBelow(ruleset, n - 1);
        SortedAppend(NewEntries(ruleset, n - 1), (n - 1, C.SpecificRule(rule)));
      }
    }
  }

  /** An entry not below any index of an ordered list keeps it ordered when appended. */
  lemma SortedAppend(es: seq<Expanded>, e: Expanded)
    requires ExpandedSorted(es) && forall t :: 0 <= t < |es| ==> es[t].0 <= e.0
    ensures ExpandedSorted(es + [e])
  {
  }

  /** Maps in order of non-decreasing `minIndex`, as the final sort of `setRules` leaves them. */
  ghost predicate SortedByMin(ms: seq<Map>)
    reads ms
  {
    forall i, j :: 0 <= i < j < |ms| ==> ms[i].minIndex <= ms[j].minIndex
  }

  /** The first n maps and their bucket arrays belong to repr. */
  predicate Owned(ms: seq<Map>, repr: set<object>, n: nat)
  {
    forall i :: 0 <= i < n && i < |ms| ==> ms[i] in repr && ms[i].storage in repr
  }

  /** Map m is valid, has buckets, and holds the rules c. */
  ghost predicate MapOk(m: Map, c: set<PrefixRule>)
    reads m, m.storage
  {
    m.Valid() && m.capacity > 0 && c == m.Contents()
  }

  /**
   * The first n maps are ok with their contents cs, checked from the last
   * one down. The recursion goes through `MapsOkLast`, two levels deep, which
   * keeps the invariant folded where it is only passed on; `MapsOkIff`
   * unfolds it.
   */
  ghost predicate MapsOk(ms: seq<Map>, cs: seq<set<PrefixRule>>, repr: set<object>, n: nat)
    requires n <= |ms| && n <= |cs| && Owned(ms, repr, n)
    reads repr
    decreases n, 1
  {
    n == 0 || MapsOkLast(ms, cs, repr, n)
  }

  /** The first n - 1 maps are ok and so is map n - 1. */
  ghost predicate MapsOkLast(ms: seq<Map>, cs: seq<set<PrefixRule>>, repr: set<object>, n: nat)
    requires 0 < n <= |ms| && n <= |cs| && Owned(ms, repr, n)
    reads repr
    decreases n, 0
  {
    MapsOk(ms, cs, repr, n - 1) && MapOk(ms[n - 1], cs[n - 1])
  }

  lemma {:induction false} MapsOkIff(ms: seq<Map>, cs: seq<set<PrefixRule>>, repr: set<object>, n: nat)
    requires n <= |ms| && n <= |cs| && Owned(ms, repr, n)
    ensures MapsOk(ms, cs, repr, n) <==> forall i :: 0 <= i < n ==> MapOk(ms[i], cs[i])
    decreases n
  {
    if n > 0 {
      MapsOkIff(ms, cs, repr, n - 1);
    }
  }

  /** MapsOk looks at the first n maps only. */
  lemma {:induction false} MapsOkPrefix(ms: seq<Map>, cs: seq<set<PrefixRule>>,
                                         ms2: seq<Map>, cs2: seq<set<PrefixRule>>,
                                         repr: set<object>, repr2: set<object>, n: nat)
    requires n <= |ms| && n <= |cs| && n <= |ms2| && n <= |cs2|
    requires ms[..n] == ms2[..n] && cs[..n] == cs2[..n]
    requires Owned(ms, repr, n) && Owned(ms2, repr2, n)
    ensures MapsOk(ms, cs, repr, n) == MapsOk(ms2, cs2, repr2, n)
    decreases n
  {
    if n > 0 {
      assert ms[n - 1] == ms2[n - 1] && cs[n - 1] == cs2[n - 1] by {
        assert ms[..n][n - 1] == ms2[..n][n - 1] && cs[..n][n - 1] == cs2[..n][n - 1];
      }
      assert ms[..n - 1] == ms2[..n - 1] by {
        assert ms[..n - 1] == ms[..n][..n - 1] && ms2[..n - 1] == ms2[..n][..n - 1];
      }
      assert cs[..n - 1] == cs2[..n - 1] by {
        assert cs[..n - 1] == cs[..n][..n - 1] && cs2[..n - 1] == cs2[..n][..n - 1];
      }
      MapsOkPrefix(ms, cs, ms2, cs2, repr, repr2, n - 1);
    }
  }

  /** Distinct maps own distinct bucket arrays. */
  predicate DistinctStorage(ms: seq<Map>)
  {
    forall i, j :: 0 <= i < j < |ms| ==> ms[i].storage != ms[j].storage
  }

  /**
   * The insertion step of the sort of the maps by `minIndex`: the map goes
   * before the first map with a larger `minIndex`.
   */
  method InsertByMin(sorted: seq<Map>, m: Map) returns (r: seq<Map>, p: nat)
    requires SortedByMin(sorted)
    ensures SortedByMin(r) && multiset(r) == multiset(sorted) + multiset{m}
    ensures p <= |sorted| && r == sorted[..p] + [m] + sorted[p..]
  {
    p := 0;
    while p < |sorted| && sorted[p].minIndex <= m.minIndex
      invariant 0 <= p <= |sorted|
      invariant forall i :: 0 <= i < p ==> sorted[i].minIndex <= m.minIndex
    {
      p := p + 1;
    }
    InsertionSorted(sorted, m, p);
    r := sorted[..p] + [m] + sorted[p..];
    assert sorted == sorted[..p] + sorted[p..];
  }

  /** Placing a map after the ones not above it and before a larger one keeps the order. */
  lemma InsertionSorted(sorted: seq<Map>, m: Map, p: nat)
    requires SortedByMin(sorted) && p <= |sorted|
    requires forall i :: 0 <= i < p ==> sorted[i].minIndex <= m.minIndex
    requires p < |sorted| ==> sorted[p].minIndex > m.minIndex
    ensures SortedByMin(sorted[..p] + [m] + sorted[p..])
  {
    var r := sorted[..p] + [m] + sorted[p..];
    assert forall i :: 0 <= i < p ==> r[i] == sorted[i];
    assert forall i :: p < i < |r| ==> r[i] == sorted[i - 1];
    forall i, j | 0 <= i < j < |r|
      ensures r[i].minIndex <= r[j].minIndex
    {
      if i == p && j > p {
        assert sorted[p].minIndex <= sorted[j - 1].minIndex;
      }
    }
  }

  /** Inserting a map whose array is new to the list keeps the arrays distinct. */
  lemma InsertKeepsDistinct(sorted: seq<Map>, m: Map, p: nat)
    requires DistinctStorage(sorted) && p <= |sorted| && forall i :: 0 <= i < |sorted| ==> sorted[i].storage != m.storage
    ensures DistinctStorage(sorted[..p] + [m] + sorted[p..])
  {
    var r := sorted[..p] + [m] + sorted[p..];
    forall i, j | 0 <= i < j < |r|
      ensures r[i].storage != r[j].storage
    {
      if i < p {
        assert r[i] == sorted[i];
      } else if i > p {
        assert r[i] == sorted[i - 1];
      }
      if j < p {
        assert r[j] == sorted[j];
      } else if j > p {
        assert r[j] == sorted[j - 1];
      }
    }
  }

  /** A rule set of a permutation of maps has the same union. */
  lemma PermutedUnion(ms: seq<Map>, ms2: seq<Map>)
    requires multiset(ms) == multiset(ms2)
    ensures UnionAll(ContentsSeq(ms)) == UnionAll(ContentsSeq(ms2))
  {
    forall x
      ensures x in UnionAll(ContentsSeq(ms)) ==> x in UnionAll(ContentsSeq(ms2))
      ensures x in UnionAll(ContentsSeq(ms2)) ==> x in UnionAll(ContentsSeq(ms))
    {
      InUnionAll(ContentsSeq(ms), x);
      InUnionAll(ContentsSeq(ms2), x);
      if x in UnionAll(ContentsSeq(ms)) {
        var i :| 0 <= i < |ms| && x in ContentsSeq(ms)[i];
        assert ms[i] in multiset(ms2);
        var j :| 0 <= j < |ms2| && ms2[j] == ms[i];
        assert x in ContentsSeq(ms2)[j];
      }
      if x in UnionAll(ContentsSeq(ms2)) {
        var j :| 0 <= j < |ms2| && x in ContentsSeq(ms2)[j];
        assert ms2[j] in multiset(ms);
        var i :| 0 <= i < |ms| && ms[i] == ms2[j];
        assert x in ContentsSeq(ms)[i];
      }
    }
  }

  /** The index of the first map responsible for a tuple, or the number of maps. */
  function FirstResponsible(ms: seq<Map>, t: Tuple5): (k: nat)
    ensures k <= |ms| && (k < |ms| ==> Responsible(t, ms[k].tuplemap))
    ensures forall i :: 0 <= i < k ==> !Responsible(t, ms[i].tuplemap)
    decreases |ms|
  {
    if |ms| == 0 then 0
    else if Responsible(t, ms[0].tuplemap) then 0
    else
      var k := FirstResponsible(ms[1..], t);
      assert forall i :: 1 <= i < |ms| ==> ms[i] == ms[1..][i - 1];
      1 + k
  }

  // ---------------------------------------------------------------------
  // The classifier
  // ---------------------------------------------------------------------

  /** `TupleSpace5tpl`: the tuple maps, the expanded rules and the checkpoint settings. */
  /** `expandMinIdx` bounds the indices of the expanded list. */
  predicate ExpandedAbove(es: seq<Expanded>, lo: nat)
  {
    forall t :: 0 <= t < |es| ==> lo <= es[t].0
  }

  /** The settings are positive 32-bit values and the header count stays below the wrap. */
  predicate SettingsOk(capacity: nat, headersPerCheckpoint: nat, cnt: nat)
  {
    0 < capacity < Limit32 && 0 < headersPerCheckpoint < Limit32 && cnt < Limit32 - 1
  }

  class TupleSpace5tpl {
    var maps: seq<Map>
    var expandRules: seq<Expanded>
    var expandMinIdx: nat
    var settingCapacity: nat
    var settingHeadersPerCheckpoint: nat
    var cntHeadersAfterCheckpoint: nat
    /** The header counts handed to the memory manager's `checkpoint`, in order. */
    var checkpoints: seq<nat>
    /** The contents of each map, in the order of `maps`. */
    ghost var contents: seq<set<PrefixRule>>
    ghost var Repr: set<object>

    /**
     * The maps and their bucket arrays are owned, distinct and valid;
     * `expandMinIdx` bounds the indices of the expanded list; the
     * settings are positive 32-bit values.
     */
    ghost predicate Valid()
      reads this, Repr
    {
      this !in Repr && |contents| == |maps| && DistinctStorage(maps) &&
      Owned(maps, Repr, |maps|) && MapsOk(maps, contents, Repr, |maps|) &&
      ExpandedAbove(expandRules, expandMinIdx) &&
      SettingsOk(settingCapacity, settingHeadersPerCheckpoint, cntHeadersAfterCheckpoint)
    }

    /** The prefix rules stored in all maps. */
    ghost function Stored(): set<PrefixRule>
      reads this
    {
      UnionAll(contents)
    }

    /**
     * The constructor: no maps, an empty expanded list with
     * `expandMinIdx` = `noRuleIsMatching()`, one header per checkpoint;
     * the constructor leaves the capacity unset, so it is a parameter.
     */
    constructor(capacity: nat)
      requires 0 < capacity < Limit32
      ensures Valid() && maps == [] && expandRules == [] && expandMinIdx == NoRuleIsMatching
      ensures settingCapacity == capacity && settingHeadersPerCheckpoint == 1
      ensures cntHeadersAfterCheckpoint == 0 && checkpoints == []
    {
      maps := [];
      expandRules := [];
      expandMinIdx := NoRuleIsMatching;
      settingCapacity := capacity;
      settingHeadersPerCheckpoint := 1;
      cntHeadersAfterCheckpoint := 0;
      checkpoints := [];
      contents := [];
      Repr := {};
    }

    /**
     * `headerProcessed`: the header count goes up, and once it reaches the
     * setting it is handed to a checkpoint and starts again from 0.
     */
    method HeaderProcessed()
      requires Valid()
      modifies this
      ensures Valid() && cntHeadersAfterCheckpoint < settingHeadersPerCheckpoint
      ensures cntHeadersAfterCheckpoint == HC.Step(old(cntHeadersAfterCheckpoint), settingHeadersPerCheckpoint).0
      ensures checkpoints == old(checkpoints) + HC.Step(old(cntHeadersAfterCheckpoint), settingHeadersPerCheckpoint).1
      ensures maps == old(maps) && expandRules == old(expandRules) && expandMinIdx == old(expandMinIdx)
      ensures settingCapacity == old(settingCapacity) && settingHeadersPerCheckpoint == old(settingHeadersPerCheckpoint)
      ensures Repr == old(Repr) && contents == old(contents)
    {
      cntHeadersAfterCheckpoint := cntHeadersAfterCheckpoint + 1;
      if cntHeadersAfterCheckpoint >= settingHeadersPerCheckpoint {
        checkpoints := checkpoints + [cntHeadersAfterCheckpoint];
        cntHeadersAfterCheckpoint := 0;
      }
    }

    /**
     * `setParameters`: the first value sets the headers per checkpoint, 0
     * becoming 1; the second the capacity of new maps, 0 becoming 100.
     * The values arrive already cast to 32 bits.
     */
    method SetParameters(params: seq<nat>)
      requires Valid() && forall i :: 0 <= i < |params| ==> params[i] < Limit32
      modifies this
      ensures Valid()
      ensures settingHeadersPerCheckpoint ==
        if |params| > 0 then (if params[0] < 1 then 1 else params[0]) else old(settingHeadersPerCheckpoint)
      ensures settingCapacity ==
        if |params| > 1 then (if params[1] < 1 then 100 else params[1]) else old(settingCapacity)
      ensures maps == old(maps) && expandRules == old(expandRules) && expandMinIdx == old(expandMinIdx)
      ensures cntHeadersAfterCheckpoint == old(cntHeadersAfterCheckpoint) && checkpoints == old(checkpoints)
      ensures Repr == old(Repr) && contents == old(contents)
    {
      if |params| > 0 {
        settingHeadersPerCheckpoint := params[0];
        if settingHeadersPerCheckpoint < 1 {
          settingHeadersPerCheckpoint := 1;
        }
      }
      if |params| > 1 {
        settingCapacity := params[1];
        if settingCapacity < 1 {
          settingCapacity := 100;
        }
      }
    }

    /**
     * `placeRuleInMap`: the rule goes into the first map responsible for
     * its tuple; without one, a new map of the rule's tuple and the
     * current capacity is appended and takes it.
     */
    method PlaceRuleInMap(rule: PrefixRule)
      requires Valid() && WfRule(rule)
      modifies this, Repr
      ensures Valid() && fresh(Repr - old(Repr))
      ensures Stored() == old(Stored()) + {rule}
      ensures var k := FirstResponsible(old(maps), rule.tuplemap);
        (k < |old(maps)| ==> maps == old(maps) && contents == old(contents)[k := old(contents)[k] + {rule}]) &&
        (k == |old(maps)| ==>
          |maps| == k + 1 && maps[..k] == old(maps) && fresh(maps[k]) &&
          maps[k].tuplemap == rule.tuplemap && maps[k].capacity == settingCapacity &&
          contents == old(contents) + [{rule}])
      ensures expandRules == old(expandRules) && expandMinIdx == old(expandMinIdx)
      ensures settingCapacity == old(settingCapacity) && settingHeadersPerCheckpoint == old(settingHeadersPerCheckpoint)
      ensures cntHeadersAfterCheckpoint == old(cntHeadersAfterCheckpoint) && checkpoints == old(checkpoints)
    {
      var k := FindResponsible(maps, rule.tuplemap);
      if k == |maps| {
        AppendMap(rule.tuplemap);
        assert contents[k] + {rule} == {rule};
        assert contents[k := contents[k] + {rule}] == old(contents) + [{rule}];
      }
      ghost var cs := contents[k := contents[k] + {rule}];
      UnionAllAdd(contents, cs, k, {rule});
      assert maps[k] in Repr;
      InsertIntoMap(maps, contents, Repr, k, rule);
      contents := cs;
    }

    /** A new, empty map of the tuple and the current capacity is appended. */
    method AppendMap(tuple: Tuple5)
      requires Valid() && Width1(tuple) <= 32 && Width2(tuple) <= 32
      modifies this
      ensures Valid() && fresh(Repr - old(Repr))
      ensures |maps| == |old(maps)| + 1 && maps[..|old(maps)|] == old(maps) && fresh(maps[|old(maps)|])
      ensures maps[|old(maps)|].tuplemap == tuple && maps[|old(maps)|].capacity == settingCapacity
      ensures contents == old(contents) + [{}] && Stored() == old(Stored())
      ensures expandRules == old(expandRules) && expandMinIdx == old(expandMinIdx)
      ensures settingCapacity == old(settingCapacity) && settingHeadersPerCheckpoint == old(settingHeadersPerCheckpoint)
      ensures cntHeadersAfterCheckpoint == old(cntHeadersAfterCheckpoint) && checkpoints == old(checkpoints)
    {
      var m := NewEmptyMap(settingCapacity, tuple);
      assert (contents + [{}])[..|contents|] == contents;
      MapsOkPrefix(maps, contents, maps + [m], contents + [{}], Repr, Repr + {m, m.storage}, |maps|);
      maps := maps + [m];
      contents := contents + [{}];
      Repr := Repr + {m, m.storage};
    }

    /** The classification of one converted header: the maps, then the expanded list. */
    method ClassifyTuple(tpl: D.HeaderTuple) returns (matchIndex: nat)
      requires Valid()
      ensures IsLeastOr(matchIndex, Candidates(contents, expandRules, tpl))
    {
      matchIndex := SearchMaps(maps, contents, Repr, tpl);
      matchIndex := SearchExpanded(expandRules, expandMinIdx, matchIndex, tpl);
    }

    /**
     * `classify`: each header line is converted and classified in turn,
     * its index pushed to the output, and every header counts towards the
     * next checkpoint. The first line that does not convert throws,
     * leaving the indices of the lines before it in the output.
     */
    method Classify(headers: seq<seq<nat>>) returns (indices: seq<nat>, o: Outcome)
      requires Valid()
      modifies this
      ensures Valid() && Repr == old(Repr) && maps == old(maps) && contents == old(contents)
      ensures expandRules == old(expandRules) && expandMinIdx == old(expandMinIdx)
      ensures settingCapacity == old(settingCapacity) && settingHeadersPerCheckpoint == old(settingHeadersPerCheckpoint)
      ensures |indices| <= |headers| &&
        forall j :: 0 <= j < |indices| ==> ClassifiedAs(indices[j], headers[j], contents, expandRules)
      ensures o == Done <==> forall j :: 0 <= j < |headers| ==> C.ConvertHeader(headers[j]).Ok?
      ensures o == Done ==> |indices| == |headers|
      ensures o.Fail? ==> |indices| < |headers| && C.ConvertHeader(headers[|indices|]) == Err(o.error)
      ensures cntHeadersAfterCheckpoint ==
        HC.After(old(cntHeadersAfterCheckpoint), settingHeadersPerCheckpoint, |indices|).0
      ensures checkpoints ==
        old(checkpoints) + HC.After(old(cntHeadersAfterCheckpoint), settingHeadersPerCheckpoint, |indices|).1
    {
      ghost var cs, es := contents, expandRules;
      ghost var cnt0, checkpoints0 := cntHeadersAfterCheckpoint, checkpoints;
      indices := [];
      var j := 0;
      while j < |headers|
        invariant 0 <= j <= |headers|
        invariant Valid() && Repr == old(Repr) && maps == old(maps) && contents == cs
        invariant expandRules == es && expandMinIdx == old(expandMinIdx)
        invariant settingCapacity == old(settingCapacity) && settingHeadersPerCheckpoint == old(settingHeadersPerCheckpoint)
        invariant Classified(indices, headers[..j], cs, es)
        invariant cntHeadersAfterCheckpoint == HC.Steps(cnt0, checkpoints0, settingHeadersPerCheckpoint, j).0
        invariant checkpoints == HC.Steps(cnt0, checkpoints0, settingHeadersPerCheckpoint, j).1
      {
        var conv := C.ConvertHeader(headers[j]);
        if conv.Err? {
          ClassifiedPrefix(indices, headers, j, cs, es);
          HC.AfterIsSteps(cnt0, checkpoints0, settingHeadersPerCheckpoint, j);
          return indices, Fail(conv.error);
        }
        var matchIndex := ClassifyTuple(conv.value);
        ClassifiedExtend(indices, headers[..j], headers[j], matchIndex, cs, es);
        TakeSnoc(headers, j);
        indices := indices + [matchIndex];
        HC.StepsNext(cnt0, checkpoints0, settingHeadersPerCheckpoint, j);
        HeaderProcessed();
        j := j + 1;
      }
      ClassifiedPrefix(indices, headers, j, cs, es);
      HC.AfterIsSteps(cnt0, checkpoints0, settingHeadersPerCheckpoint, j);
      return indices, Done;
    }

    /** The rules go into maps one after the other. */
    method PlaceAll(rs: seq<PrefixRule>)
      requires Valid() && forall j :: 0 <= j < |rs| ==> WfRule(rs[j])
      modifies this, Repr
      ensures Valid() && fresh(Repr - old(Repr))
      ensures Stored() == old(Stored()) + Elements(rs)
      ensures expandRules == old(expandRules) && expandMinIdx == old(expandMinIdx)
      ensures settingCapacity == old(settingCapacity) && settingHeadersPerCheckpoint == old(settingHeadersPerCheckpoint)
      ensures cntHeadersAfterCheckpoint == old(cntHeadersAfterCheckpoint) && checkpoints == old(checkpoints)
    {
      var j := 0;
      while j < |rs|
        invariant 0 <= j <= |rs| && Valid() && fresh(Repr - old(Repr))
        invariant Stored() == old(Stored()) + Elements(rs[..j])
        invariant expandRules == old(expandRules) && expandMinIdx == old(expandMinIdx)
        invariant settingCapacity == old(settingCapacity) && settingHeadersPerCheckpoint == old(settingHeadersPerCheckpoint)
        invariant cntHeadersAfterCheckpoint == old(cntHeadersAfterCheckpoint) && checkpoints == old(checkpoints)
      {
        PlaceRuleInMap(rs[j]);
        ghost var before, after := rs[..j], rs[..j + 1];
        assert Elements(after) == Elements(before) + {rs[j]} by {
          assert after == before + [rs[j]];
        }
        j := j + 1;
      }
      assert rs[..j] == rs;
    }

    /** The sort of `setRules`: the maps in order of `minIndex`, each keeping its rules. */
    method SortMaps()
      requires Valid()
      modifies this
      ensures Valid() && Repr == old(Repr) && SortedByMin(maps) && multiset(maps) == multiset(old(maps))
      ensures Stored() == old(Stored())
      ensures expandRules == old(expandRules) && expandMinIdx == old(expandMinIdx)
      ensures settingCapacity == old(settingCapacity) && settingHeadersPerCheckpoint == old(settingHeadersPerCheckpoint)
      ensures cntHeadersAfterCheckpoint == old(cntHeadersAfterCheckpoint) && checkpoints == old(checkpoints)
    {
      var sorted, sortedCs := SortByMinIndex(maps, contents, Repr);
      maps := sorted;
      contents := sortedCs;
    }

    /**
     * `setRules`: rule i of the set is expanded with index i; a rule of
     * several prefix rules is converted and appended to the expanded list,
     * lowering `expandMinIdx` to i, any other has its prefix rules placed in
     * maps. A rule of fewer than five atoms, or an expanded one that does
     * not convert, throws with the earlier rules stored. Then the maps are
     * sorted by `minIndex` and a checkpoint of 0 headers is set.
     */
    method SetRules(ruleset: G.RuleSet) returns (o: Outcome)
      requires Valid() && forall i :: 0 <= i < |ruleset| ==> Expandable(ruleset[i])
      modifies this, Repr
      ensures Valid() && fresh(Repr - old(Repr))
      ensures o == Done <==> AcceptedUpTo(ruleset, |ruleset|)
      ensures o == Done ==>
        Stored() == old(Stored()) + NewPlaced(ruleset, |ruleset|) &&
        expandRules == old(expandRules) + NewEntries(ruleset, |ruleset|) &&
        expandMinIdx == MinEntry(old(expandMinIdx), NewEntries(ruleset, |ruleset|)) &&
        SortedByMin(maps) && checkpoints == old(checkpoints) + [0]
      ensures o.Fail? ==> exists n :: (0 <= n < |ruleset| && AcceptedUpTo(ruleset, n) && !Accepted(ruleset[n], n) &&
        Stored() == old(Stored()) + NewPlaced(ruleset, n) &&
        expandRules == old(expandRules) + NewEntries(ruleset, n) &&
        expandMinIdx == MinEntry(old(expandMinIdx), NewEntries(ruleset, n)) && checkpoints == old(checkpoints))
      ensures settingCapacity == old(settingCapacity) && settingHeadersPerCheckpoint == old(settingHeadersPerCheckpoint)
      ensures cntHeadersAfterCheckpoint == old(cntHeadersAfterCheckpoint)
    {
      ghost var n;
      o, n := StoreRules(ruleset);
      if o.Fail? {
        return;
      }
      SortMaps();
      checkpoints := checkpoints + [0];
    }

    /** The counters and settings that storing rules leaves alone. */
    function Settings(): (nat, nat, nat, seq<nat>)
      reads this
    {
      (settingCapacity, settingHeadersPerCheckpoint, cntHeadersAfterCheckpoint, checkpoints)
    }

    /**
     * The first i steps of a plan are stored on top of a state with placed
     * rules `st`, expanded list `es` and least expanded index `lo`.
     */
    ghost predicate StoredBy(plan: seq<Step>, i: nat, st: set<PrefixRule>, es: seq<Expanded>, lo: nat)
      requires i <= |plan|
      reads this
    {
      Stored() == st + PlacedBy(plan, i) && expandRules == es + EntriesBy(plan, i) &&
      expandMinIdx == MinEntry(lo, EntriesBy(plan, i))
    }

    /**
     * The loop of `setRules` over the rules, up to the first that throws:
     * n rules are taken, and n falls short of the rule count exactly when
     * rule n throws.
     */
    method StoreRules(ruleset: G.RuleSet) returns (o: Outcome, ghost n: nat)
      requires Valid() && forall i :: 0 <= i < |ruleset| ==> Expandable(ruleset[i])
      modifies this, Repr
      ensures Valid() && fresh(Repr - old(Repr))
      ensures n <= |ruleset| && AcceptedUpTo(ruleset, n) && (o == Done <==> n == |ruleset|)
      ensures o.Fail? ==> !Accepted(ruleset[n], n)
      ensures Stored() == old(Stored()) + NewPlaced(ruleset, n)
      ensures expandRules == old(expandRules) + NewEntries(ruleset, n)
      ensures expandMinIdx == MinEntry(old(expandMinIdx), NewEntries(ruleset, n))
      ensures settingCapacity == old(settingCapacity) && settingHeadersPerCheckpoint == old(settingHeadersPerCheckpoint)
      ensures cntHeadersAfterCheckpoint == old(cntHeadersAfterCheckpoint) && checkpoints == old(checkpoints)
    {
      ghost var plan := seq(|ruleset|, k requires 0 <= k < |ruleset| => StepOf(ruleset[k], k));
      o, n := StorePlan(ruleset, plan);
      PlacedAgrees(ruleset, plan, n);
      EntriesAgree(ruleset, plan, n);
      TakenAgrees(ruleset, plan, n);
    }

    /** The loop of `setRules`, following the steps of its rules. */
    method StorePlan(ruleset: G.RuleSet, ghost plan: seq<Step>) returns (o: Outcome, ghost n: nat)
      requires Valid() && forall i :: 0 <= i < |ruleset| ==> Expandable(ruleset[i])
      requires PlanOf(ruleset, plan)
      modifies this, Repr
      ensures Valid() && fresh(Repr - old(Repr))
      ensures n <= |ruleset| && TakenBy(plan, n) && (o == Done <==> n == |ruleset|)
      ensures o.Fail? ==> plan[n].Refused?
      ensures StoredBy(plan, n, old(Stored()), old(expandRules), old(expandMinIdx))
      ensures Settings() == old(Settings())
    {
      ghost var st, es, lo := Stored(), expandRules, expandMinIdx;
      var i := 0;
      while i < |ruleset|
        invariant 0 <= i <= |ruleset| && TakenBy(plan, i) && StoredBy(plan, i, st, es, lo)
        invariant Valid() && fresh(Repr - old(Repr)) && Settings() == old(Settings())
      {
        o := StoreNext(ruleset, plan, i, st, es, lo);
        if o.Fail? {
          n := i;
          return;
        }
        i := i + 1;
      }
      n := i;
      o := Done;
    }

    /**
     * Rule i of a rule set whose first i steps are stored: afterwards the
     * first i + 1 are, or rule i is refused and nothing changed.
     */
    method StoreNext(ruleset: G.RuleSet, ghost plan: seq<Step>, i: nat, ghost st: set<PrefixRule>, ghost es: seq<Expanded>,
                     ghost lo: nat)
      returns (o: Outcome)
      requires Valid() && i < |ruleset| && (forall k :: 0 <= k < |ruleset| ==> Expandable(ruleset[k])) && PlanOf(ruleset, plan)
      requires StoredBy(plan, i, st, es, lo)
      modifies this, Repr
      ensures Valid() && fresh(Repr - old(Repr))
      ensures o == Done <==> !plan[i].Refused?
      ensures o.Fail? ==> Stored() == old(Stored()) && expandRules == old(expandRules) && expandMinIdx == old(expandMinIdx)
      ensures StoredBy(plan, if o == Done then i + 1 else i, st, es, lo)
      ensures Settings() == old(Settings())
    {
      ghost var placed, entries := PlacedBy(plan, i), EntriesBy(plan, i);
      assert plan[i] == StepOf(ruleset[i], i);
      o := StoreStep(ruleset[i], i, plan[i]);
      if o.Fail? {
        return;
      }
      match plan[i]
      case Appended(e) =>
        assert EntriesBy(plan, i + 1) == entries + [e];
        MinEntryAppend(lo, entries, e);
        AppendAssoc(es, entries, [e]);
      case Placed(rules) =>
        assert EntriesBy(plan, i + 1) == entries && PlacedBy(plan, i + 1) == placed + rules;
        UnionAssoc(st, placed, rules);
    }

    /** `StoreRule` in terms of the step it takes. */
    method StoreStep(rule: G.Rule, i: nat, ghost step: Step) returns (o: Outcome)
      requires Valid() && Expandable(rule) && step == StepOf(rule, i)
      modifies this, Repr
      ensures Valid() && fresh(Repr - old(Repr))
      ensures o == Done <==> !step.Refused?
      ensures o.Fail? ==> Stored() == old(Stored()) && expandRules == old(expandRules) && expandMinIdx == old(expandMinIdx)
      ensures o == Done && step.Appended? ==>
        Stored() == old(Stored()) && expandRules == old(expandRules) + [step.entry] &&
        expandMinIdx == if old(expandMinIdx) > step.entry.0 then step.entry.0 else old(expandMinIdx)
      ensures o == Done && step.Placed? ==>
        Stored() == old(Stored()) + step.rules && expandRules == old(expandRules) && expandMinIdx == old(expandMinIdx)
      ensures Settings() == old(Settings())
    {
      o := StoreRule(rule, i);
    }

    /**
     * One pass of the loop of `setRules`: the rule is expanded with index i;
     * a rule of several prefix rules is converted and appended to the
     * expanded list, any other has its prefix rules placed in maps. Either
     * conversion throws before anything changes.
     */
    method StoreRule(rule: G.Rule, i: nat) returns (o: Outcome)
      requires Valid() && Expandable(rule)
      modifies this, Repr
      ensures Valid() && fresh(Repr - old(Repr))
      ensures o == Done <==> Accepted(rule, i)
      ensures o.Fail? ==> Stored() == old(Stored()) && expandRules == old(expandRules) && expandMinIdx == old(expandMinIdx)
      ensures o == Done && |SpecRules(rule, i)| > 1 ==>
        Stored() == old(Stored()) && expandRules == old(expandRules) + [(i, C.SpecificRule(rule))] &&
        expandMinIdx == if old(expandMinIdx) > i then i else old(expandMinIdx)
      ensures o == Done && |SpecRules(rule, i)| <= 1 ==>
        Stored() == old(Stored()) + Elements(SpecRules(rule, i)) &&
        expandRules == old(expandRules) && expandMinIdx == old(expandMinIdx)
      ensures settingCapacity == old(settingCapacity) && settingHeadersPerCheckpoint == old(settingHeadersPerCheckpoint)
      ensures cntHeadersAfterCheckpoint == old(cntHeadersAfterCheckpoint) && checkpoints == old(checkpoints)
    {
      var specRules := ConvertRuleToMany(rule, i);
      if specRules.Err? {
        return Fail(specRules.error);
      }
      assert specRules.value == SpecRules(rule, i);
      if |specRules.value| > 1 {
        var conv := C.ConvertRule(rule);
        if conv.Err? {
          return Fail(conv.error);
        }
        expandRules := expandRules + [(i, conv.value)];
        if expandMinIdx > i {
          expandMinIdx := i;
        }
      } else {
        ExpansionWf(i, AtomPrefixes(rule));
        PlaceAll(specRules.value);
      }
      return Done;
    }

    /**
     * `ruleAdded`: every stored index from `index` on moves up by one, then
     * the rule is expanded with that index and all its prefix rules are
     * placed in maps, whatever their number; a rule of fewer than five atoms
     * throws after the shift. The expanded list is left as it is.
     */
    method RuleAdded(index: nat, rule: G.Rule) returns (o: Outcome)
      requires Valid() && index < Limit32 && Expandable(rule)
      modifies this, Repr
      ensures Valid() && fresh(Repr - old(Repr))
      ensures o.Fail? <==> |rule| < 5
      ensures o.Fail? ==> Stored() == RaiseSet(old(Stored()), index)
      ensures o == Done ==> Stored() == RaiseSet(old(Stored()), index) + Elements(SpecRules(rule, index))
      ensures expandRules == old(expandRules) && expandMinIdx == old(expandMinIdx)
      ensures settingCapacity == old(settingCapacity) && settingHeadersPerCheckpoint == old(settingHeadersPerCheckpoint)
      ensures cntHeadersAfterCheckpoint == old(cntHeadersAfterCheckpoint) && checkpoints == old(checkpoints)
    {
      RaiseAllMaps(index);
      var specRules := ConvertRuleToMany(rule, index);
      if specRules.Err? {
        return Fail(specRules.error);
      }
      ExpansionWf(index, AtomPrefixes(rule));
      PlaceAll(specRules.value);
      return Done;
    }

    /** The loop of `ruleAdded` over the maps, raising their indices. */
    method RaiseAllMaps(oldIndex: nat)
      requires Valid()
      modifies this, Repr
      ensures Valid() && Repr == old(Repr) && maps == old(maps)
      ensures |contents| == |old(contents)| &&
        forall i :: 0 <= i < |contents| ==> contents[i] == RaiseSet(old(contents)[i], oldIndex)
      ensures Stored() == RaiseSet(old(Stored()), oldIndex)
      ensures expandRules == old(expandRules) && expandMinIdx == old(expandMinIdx)
      ensures settingCapacity == old(settingCapacity) && settingHeadersPerCheckpoint == old(settingHeadersPerCheckpoint)
      ensures cntHeadersAfterCheckpoint == old(cntHeadersAfterCheckpoint) && checkpoints == old(checkpoints)
    {
      var i := 0;
      while i < |maps|
        invariant 0 <= i <= |maps| && Valid() && Repr == old(Repr) && maps == old(maps)
        invariant |contents| == |old(contents)|
        invariant forall j :: 0 <= j < i ==> contents[j] == RaiseSet(old(contents)[j], oldIndex)
        invariant forall j :: i <= j < |maps| ==> contents[j] == old(contents)[j]
        invariant expandRules == old(expandRules) && expandMinIdx == old(expandMinIdx)
        invariant settingCapacity == old(settingCapacity) && settingHeadersPerCheckpoint == old(settingHeadersPerCheckpoint)
        invariant cntHeadersAfterCheckpoint == old(cntHeadersAfterCheckpoint) && checkpoints == old(checkpoints)
      {
        RaiseMap(maps, contents, Repr, i, oldIndex);
        contents := contents[i := RaiseSet(contents[i], oldIndex)];
        i := i + 1;
      }
      UnionAllRaise(old(contents), contents, oldIndex);
    }

    /**
     * `ruleRemoved`: every map drops the rules of the index and moves the
     * indices above it down by one. Each map's `minIndex` is lowered with
     * them by the corrected `Map.DecrementIndex`; `decrementIndex` as
     * written leaves it where it was, which can hide the first match (see
     * `StaleMinIndexMissesMatch`). The expanded list is left as it is.
     */
    method RuleRemoved(index: nat)
      requires Valid() && index < Limit32
      modifies this, Repr
      ensures Valid() && Repr == old(Repr) && maps == old(maps)
      ensures |contents| == |old(contents)| &&
        forall i :: 0 <= i < |contents| ==> contents[i] == RemoveSet(old(contents)[i], index)
      ensures Stored() == RemoveSet(old(Stored()), index)
      ensures expandRules == old(expandRules) && expandMinIdx == old(expandMinIdx)
      ensures settingCapacity == old(settingCapacity) && settingHeadersPerCheckpoint == old(settingHeadersPerCheckpoint)
      ensures cntHeadersAfterCheckpoint == old(cntHeadersAfterCheckpoint) && checkpoints == old(checkpoints)
    {
      var i := 0;
      while i < |maps|
        invariant 0 <= i <= |maps| && Valid() && Repr == old(Repr) && maps == old(maps)
        invariant |contents| == |old(contents)|
        invariant forall j :: 0 <= j < i ==> contents[j] == RemoveSet(old(contents)[j], index)
        invariant forall j :: i <= j < |maps| ==> contents[j] == old(contents)[j]
        invariant expandRules == old(expandRules) && expandMinIdx == old(expandMinIdx)
        invariant settingCapacity == old(settingCapacity) && settingHeadersPerCheckpoint == old(settingHeadersPerCheckpoint)
        invariant cntHeadersAfterCheckpoint == old(cntHeadersAfterCheckpoint) && checkpoints == old(checkpoints)
      {
        RemoveFromMap(maps, contents, Repr, i, index);
        contents := contents[i := RemoveSet(contents[i], index)];
        i := i + 1;
      }
      UnionAllRemove(old(contents), contents, index);
    }

    /** `reset`: no maps, an empty expanded list, no count towards the next checkpoint. */
    method Reset()
      requires Valid()
      modifies this
      ensures Valid() && maps == [] && Stored() == {} && expandRules == [] && expandMinIdx == NoRuleIsMatching
      ensures cntHeadersAfterCheckpoint == 0 && checkpoints == old(checkpoints)
      ensures settingCapacity == old(settingCapacity) && settingHeadersPerCheckpoint == old(settingHeadersPerCheckpoint)
    {
      cntHeadersAfterCheckpoint := 0;
      maps := [];
      contents := [];
      Repr := {};
      expandRules := [];
      expandMinIdx := NoRuleIsMatching;
    }

  }

  /** A new map of the tuple, with `minIndex` at `noRuleIsMatching()`, holding no rule. */
  method NewEmptyMap(capacity: nat, tuple: Tuple5) returns (m: Map)
    requires 0 < capacity && Width1(tuple) <= 32 && Width2(tuple) <= 32
    ensures fresh(m) && fresh(m.storage) && MapOk(m, {})
    ensures m.tuplemap == tuple && m.capacity == capacity
  {
    m := new Map(capacity, tuple, NoRuleIsMatching);
    assert m.Contents() == {} by {
      assert forall b :: 0 <= b < |m.storage[..]| ==> m.storage[..][b] == [];
    }
  }

  /** Map k of ms takes the rule; the other maps are untouched. */
  method InsertIntoMap(ms: seq<Map>, ghost cs: seq<set<PrefixRule>>, ghost repr: set<object>, k: nat, rule: PrefixRule)
    requires k < |ms| == |cs| && Owned(ms, repr, |ms|)
    requires MapsOk(ms, cs, repr, |ms|) && DistinctStorage(ms)
    requires WfRule(rule) && Responsible(rule.tuplemap, ms[k].tuplemap)
    modifies ms[k], ms[k].storage
    ensures MapsOk(ms, cs[k := cs[k] + {rule}], repr, |ms|)
  {
    MapsOkIff(ms, cs, repr, |ms|);
    var m := ms[k];
    m.Insert(rule);
    ghost var cs2 := cs[k := cs[k] + {rule}];
    forall i | 0 <= i < |ms|
      ensures MapOk(ms[i], cs2[i])
    {
      if i != k {
        assert ms[i].storage != m.storage;
        assert old(MapOk(ms[i], cs[i]));
      }
    }
    MapsOkIff(ms, cs2, repr, |ms|);
  }

  /** The search of `placeRuleInMap` for a responsible map. */
  method FindResponsible(ms: seq<Map>, t: Tuple5) returns (k: nat)
    ensures k == FirstResponsible(ms, t)
  {
    k := 0;
    while k < |ms| && !Responsible(t, ms[k].tuplemap)
      invariant 0 <= k <= |ms| && forall i :: 0 <= i < k ==> !Responsible(t, ms[i].tuplemap)
    {
      k := k + 1;
    }
    FirstResponsibleUnique(ms, t, k);
  }

  lemma {:induction false} FirstResponsibleUnique(ms: seq<Map>, t: Tuple5, k: nat)
    requires k <= |ms| && (k < |ms| ==> Responsible(t, ms[k].tuplemap))
    requires forall i :: 0 <= i < k ==> !Responsible(t, ms[i].tuplemap)
    ensures k == FirstResponsible(ms, t)
    decreases |ms|
  {
    if |ms| > 0 && k > 0 {
      FirstResponsibleUnique(ms[1..], t, k - 1);
    }
  }
  /** Every prefix rule of an expansion is well formed and carries the index. */
  lemma ExpansionWf(index: nat, lists: seq<seq<PrefixPair>>)
    requires ListsFit(lists)
    ensures forall j :: 0 <= j < |Expansion(index, lists)| ==>
      WfRule(Expansion(index, lists)[j]) && Expansion(index, lists)[j].index == index
  {
    ChoicesFit(lists, 0, []);
    var cs := Choices(lists, 0, []);
    forall j | 0 <= j < |cs|
      ensures WfRule(MakePrefixRule(index, cs[j])) && MakePrefixRule(index, cs[j]).index == index
    {
      MadeRuleWf(index, cs[j]);
    }
  }

  /** Appending an entry lowers the least index to the entry's own if that is smaller. */
  lemma MinEntryAppend(lo: nat, es: seq<Expanded>, e: Expanded)
    ensures MinEntry(lo, es + [e]) == if MinEntry(lo, es) > e.0 then e.0 else MinEntry(lo, es)
  {
    assert (es + [e])[..|es|] == es;
  }

  /** What `setRules` does with one rule: refuses it, places its prefix rules in maps, or appends it to the expanded list. */
  datatype Step = Refused | Placed(rules: set<PrefixRule>) | Appended(entry: Expanded)

  /** The step `setRules` takes for a rule with index `index`. */
  ghost function StepOf(rule: G.Rule, index: nat): (s: Step)
    requires Expandable(rule)
    ensures s.Refused? <==> !Accepted(rule, index)
  {
    if !Accepted(rule, index) then Refused
    else if |SpecRules(rule, index)| > 1 then Appended((index, C.SpecificRule(rule)))
    else Placed(Elements(SpecRules(rule, index)))
  }

  /** The steps of the rules of a rule set, in order. */
  ghost predicate PlanOf(ruleset: G.RuleSet, plan: seq<Step>)
    requires forall k :: 0 <= k < |ruleset| ==> Expandable(ruleset[k])
  {
    |plan| == |ruleset| && forall k {:trigger StepOf(ruleset[k], k)} :: 0 <= k < |ruleset| ==> plan[k] == StepOf(ruleset[k], k)
  }

  /** The prefix rules the first n steps place. */
  function PlacedBy(plan: seq<Step>, n: nat): set<PrefixRule>
    requires n <= |plan|
  {
    if n == 0 then {} else PlacedBy(plan, n - 1) + (if plan[n - 1].Placed? then plan[n - 1].rules else {})
  }

  /** The entries the first n steps append. */
  function EntriesBy(plan: seq<Step>, n: nat): seq<Expanded>
    requires n <= |plan|
  {
    if n == 0 then [] else EntriesBy(plan, n - 1) + (if plan[n - 1].Appended? then [plan[n - 1].entry] else [])
  }

  /** None of the first n steps refuses its rule. */
  predicate TakenBy(plan: seq<Step>, n: nat) {
    n <= |plan| && forall k :: 0 <= k < n ==> !plan[k].Refused?
  }

  /** The steps of a rule set place what NewPlaced says. */
  lemma {:induction false} PlacedAgrees(ruleset: G.RuleSet, plan: seq<Step>, n: nat)
    requires forall k :: 0 <= k < |ruleset| ==> Expandable(ruleset[k])
    requires PlanOf(ruleset, plan) && n <= |ruleset|
    ensures PlacedBy(plan, n) == NewPlaced(ruleset, n)
    decreases n
  {
    if n > 0 {
      PlacedAgrees(ruleset, plan, n - 1);
      assert plan[n - 1] == StepOf(ruleset[n - 1], n - 1);
      StepAgrees(ruleset[n - 1], n - 1);
    }
  }

  /** The steps of a rule set append what NewEntries says. */
  lemma {:induction false} EntriesAgree(ruleset: G.RuleSet, plan: seq<Step>, n: nat)
    requires forall k :: 0 <= k < |ruleset| ==> Expandable(ruleset[k])
    requires PlanOf(ruleset, plan) && n <= |ruleset|
    ensures EntriesBy(plan, n) == NewEntries(ruleset, n)
    decreases n
  {
    if n > 0 {
      EntriesAgree(ruleset, plan, n - 1);
      assert plan[n - 1] == StepOf(ruleset[n - 1], n - 1);
      StepAgrees(ruleset[n - 1], n - 1);
    }
  }

  /** The steps of a rule set take its first n rules iff AcceptedUpTo says so. */
  lemma TakenAgrees(ruleset: G.RuleSet, plan: seq<Step>, n: nat)
    requires forall k :: 0 <= k < |ruleset| ==> Expandable(ruleset[k])
    requires PlanOf(ruleset, plan) && n <= |ruleset|
    ensures TakenBy(plan, n) <==> AcceptedUpTo(ruleset, n)
  {
    forall k | 0 <= k < n
      ensures plan[k].Refused? <==> !Accepted(ruleset[k], k)
    {
      assert plan[k] == StepOf(ruleset[k], k);
    }
  }

  /** The step of one rule places and appends what PlacedAdded and EntryAdded say. */
  lemma StepAgrees(rule: G.Rule, index: nat)
    requires Expandable(rule)
    ensures (if StepOf(rule, index).Placed? then StepOf(rule, index).rules else {}) == PlacedAdded(rule, index)
    ensures (if StepOf(rule, index).Appended? then [StepOf(rule, index).entry] else []) == EntryAdded(rule, index)
  {
  }

  /** A rule set inserted at some position adds its rules to the union. */
  lemma UnionAllInsert(ss: seq<set<PrefixRule>>, p: nat, c: set<PrefixRule>)
    requires p <= |ss|
    ensures UnionAll(ss[..p] + [c] + ss[p..]) == UnionAll(ss) + c
  {
    var front, back := ss[..p], ss[p..];
    assert ss == front + back;
    UnionAllConcat(front, back);
    UnionAllConcat(front, [c]);
    UnionAllConcat(front + [c], back);
    assert UnionAll([c]) == c by {
      assert [c][..0] == [];
    }
  }

  /** The union over two lists of sets is the union of their unions. */
  lemma {:induction false} UnionAllConcat(a: seq<set<PrefixRule>>, b: seq<set<PrefixRule>>)
    ensures UnionAll(a + b) == UnionAll(a) + UnionAll(b)
    decreases |b|
  {
    if |b| == 0 {
      assert a + b == a;
    } else {
      var init := b[..|b| - 1];
      assert (a + b)[..|a + b| - 1] == a + init;
      UnionAllConcat(a, init);
    }
  }

  /** The union over the first i + 1 sets adds set i. */
  lemma UnionAllPrefixStep(ss: seq<set<PrefixRule>>, i: nat)
    requires i < |ss|
    ensures UnionAll(ss[..i + 1]) == UnionAll(ss[..i]) + ss[i]
  {
    assert ss[..i + 1][..i] == ss[..i];
  }

  /** Inserting a map that is ok with its rules keeps the list ok. */
  lemma MapsOkInsert(ms: seq<Map>, cs: seq<set<PrefixRule>>, repr: set<object>, p: nat, m: Map, c: set<PrefixRule>)
    requires |ms| == |cs| && p <= |ms| && Owned(ms, repr, |ms|) && m in repr && m.storage in repr
    requires MapsOk(ms, cs, repr, |ms|) && MapOk(m, c)
    ensures Owned(ms[..p] + [m] + ms[p..], repr, |ms| + 1)
    ensures MapsOk(ms[..p] + [m] + ms[p..], cs[..p] + [c] + cs[p..], repr, |ms| + 1)
  {
    var ms2, cs2 := ms[..p] + [m] + ms[p..], cs[..p] + [c] + cs[p..];
    MapsOkIff(ms, cs, repr, |ms|);
    forall j | 0 <= j < |ms2|
      ensures ms2[j] in repr && ms2[j].storage in repr && MapOk(ms2[j], cs2[j])
    {
      if j < p {
        assert ms2[j] == ms[j] && cs2[j] == cs[j];
      } else if j > p {
        assert ms2[j] == ms[j - 1] && cs2[j] == cs[j - 1];
      }
    }
    MapsOkIff(ms2, cs2, repr, |ms2|);
  }

  /**
   * The sort of the maps by `minIndex`, as insertions into a sorted list;
   * each map keeps its rules, so the union of all rules stays.
   */
  method SortByMinIndex(ms: seq<Map>, ghost cs: seq<set<PrefixRule>>, ghost repr: set<object>)
    returns (sorted: seq<Map>, ghost sortedCs: seq<set<PrefixRule>>)
    requires |ms| == |cs| && Owned(ms, repr, |ms|) && MapsOk(ms, cs, repr, |ms|) && DistinctStorage(ms)
    ensures |sorted| == |sortedCs| == |ms| && SortedByMin(sorted) && multiset(sorted) == multiset(ms)
    ensures DistinctStorage(sorted) && Owned(sorted, repr, |sorted|) && MapsOk(sorted, sortedCs, repr, |sorted|)
    ensures UnionAll(sortedCs) == UnionAll(cs)
  {
    MapsOkIff(ms, cs, repr, |ms|);
    sorted, sortedCs := [], [];
    var i := 0;
    while i < |ms|
      invariant 0 <= i <= |ms| && |sorted| == |sortedCs| == i
      invariant SortedByMin(sorted) && multiset(sorted) == multiset(ms[..i])
      invariant DistinctStorage(sorted) && Owned(sorted, repr, i) && MapsOk(sorted, sortedCs, repr, i)
      invariant UnionAll(sortedCs) == UnionAll(cs[..i])
    {
      var m := ms[i];
      assert MapOk(m, cs[i]);
      var next, p := InsertByMin(sorted, m);
      SortStep(ms, cs, repr, i, sorted, sortedCs, next, p);
      sorted, sortedCs := next, sortedCs[..p] + [cs[i]] + sortedCs[p..];
      i := i + 1;
    }
    assert ms[..i] == ms && cs[..i] == cs;
  }

  /** One insertion of the sort keeps the invariants of its loop. */
  lemma SortStep(ms: seq<Map>, cs: seq<set<PrefixRule>>, repr: set<object>, i: nat,
    sorted: seq<Map>, sortedCs: seq<set<PrefixRule>>, next: seq<Map>, p: nat)
    requires i < |ms| == |cs| && DistinctStorage(ms) && MapOk(ms[i], cs[i])
    requires ms[i] in repr && ms[i].storage in repr
    requires |sorted| == |sortedCs| == i && multiset(sorted) == multiset(ms[..i])
    requires DistinctStorage(sorted) && Owned(sorted, repr, i) && MapsOk(sorted, sortedCs, repr, i)
    requires UnionAll(sortedCs) == UnionAll(cs[..i])
    requires p <= |sorted| && next == sorted[..p] + [ms[i]] + sorted[p..]
    requires multiset(next) == multiset(sorted) + multiset{ms[i]}
    ensures multiset(next) == multiset(ms[..i + 1])
    ensures DistinctStorage(next) && Owned(next, repr, i + 1)
    ensures MapsOk(next, sortedCs[..p] + [cs[i]] + sortedCs[p..], repr, i + 1)
    ensures UnionAll(sortedCs[..p] + [cs[i]] + sortedCs[p..]) == UnionAll(cs[..i + 1])
  {
    StorageNotYetSorted(ms, i, sorted);
    InsertKeepsDistinct(sorted, ms[i], p);
    MapsOkInsert(sorted, sortedCs, repr, p, ms[i], cs[i]);
    UnionAllInsert(sortedCs, p, cs[i]);
    UnionAllPrefixStep(cs, i);
    TakeSnoc(ms, i);
  }

  /** The maps sorted so far, the first i of distinct ones, do not share the array of map i. */
  lemma StorageNotYetSorted(ms: seq<Map>, i: nat, sorted: seq<Map>)
    requires i < |ms| && DistinctStorage(ms) && multiset(sorted) == multiset(ms[..i])
    ensures forall j :: 0 <= j < |sorted| ==> sorted[j].storage != ms[i].storage
  {
    forall j | 0 <= j < |sorted|
      ensures sorted[j].storage != ms[i].storage
    {
      assert sorted[j] in multiset(ms[..i]);
      var t :| 0 <= t < i && ms[..i][t] == sorted[j];
      assert ms[t] == sorted[j];
    }
  }

  /** Taking the smaller of the best so far and a map's lookup gives the best of both. */
  lemma LeastWithLookup(r: nat, a: set<nat>, found: nat, b: set<nat>)
    requires IsLeastOr(r, a)
    requires b == {} ==> found == NoRuleIsMatching
    requires b != {} ==> found in b && forall i :: i in b ==> found <= i
    ensures IsLeastOr(if found < r then found else r, a + b)
  {
  }

  /**
   * The loop of `classify` over the maps: a map is looked up only while
   * the best match so far is above its `minIndex`; the result is the least
   * matching index of all maps, or `noRuleIsMatching()`.
   */
  method SearchMaps(ms: seq<Map>, ghost cs: seq<set<PrefixRule>>, ghost repr: set<object>, tpl: D.HeaderTuple)
    returns (matchIndex: nat)
    requires |ms| == |cs| && Owned(ms, repr, |ms|) && MapsOk(ms, cs, repr, |ms|)
    ensures IsLeastOr(matchIndex, MatchesIn(UnionAll(cs), tpl))
  {
    MapsOkIff(ms, cs, repr, |ms|);
    matchIndex := NoRuleIsMatching;
    var i := 0;
    while i < |ms|
      invariant 0 <= i <= |ms|
      invariant IsLeastOr(matchIndex, MatchesIn(UnionAll(cs[..i]), tpl))
    {
      var m := ms[i];
      assert MapOk(m, cs[i]);
      m.MatchIndicesOfContents(tpl);
      UnionAllPrefixStep(cs, i);
      MatchesInUnion(UnionAll(cs[..i]), cs[i], tpl);
      if matchIndex > m.minIndex {
        m.ValidIsPlacement();
        var currIndex := m.Lookup(tpl);
        LeastWithLookup(matchIndex, MatchesIn(UnionAll(cs[..i]), tpl), currIndex, m.MatchIndices(tpl));
        if currIndex < matchIndex {
          matchIndex := currIndex;
        }
      } else {
        m.MatchesAboveMin(tpl);
      }
      i := i + 1;
    }
    assert cs[..i] == cs;
  }

  /**
   * The search of `classify` in the expanded list, entered only while the
   * best match so far is above `expandMinIdx`: the first matching entry is
   * taken if its index is smaller. With `expandMinIdx` a lower bound of
   * the list's indices, the guard loses nothing.
   */
  method SearchExpanded(es: seq<Expanded>, lo: nat, matchIndex: nat, tpl: D.HeaderTuple) returns (r: nat)
    requires ExpandedAbove(es, lo)
    ensures r == match FirstExpanded(es, tpl)
      case Some(i) => if i < matchIndex then i else matchIndex
      case None => matchIndex
  {
    r := matchIndex;
    if matchIndex > lo {
      var t := 0;
      while t < |es|
        invariant 0 <= t <= |es|
        invariant forall u :: 0 <= u < t ==> !D.RuleMatch(es[u].1, tpl)
      {
        if D.RuleMatch(es[t].1, tpl) {
          if es[t].0 < r {
            r := es[t].0;
          }
          FirstExpandedAt(es, tpl, t);
          return;
        }
        t := t + 1;
      }
    } else if FirstExpanded(es, tpl).Some? {
      var t :| 0 <= t < |es| && D.RuleMatch(es[t].1, tpl) && es[t].0 == FirstExpanded(es, tpl).value;
      assert lo <= es[t].0;
    }
  }

  /** An entry that matches, after entries that do not, is the first match. */
  lemma FirstExpandedAt(es: seq<Expanded>, h: D.HeaderTuple, t: nat)
    requires t < |es| && D.RuleMatch(es[t].1, h) && forall u :: 0 <= u < t ==> !D.RuleMatch(es[u].1, h)
    ensures FirstExpanded(es, h) == Some(es[t].0)
  {
    var t0 :| 0 <= t0 < |es| && D.RuleMatch(es[t0].1, h) && es[t0].0 == FirstExpanded(es, h).value &&
      forall u :: 0 <= u < t0 ==> !D.RuleMatch(es[u].1, h);
    assert !(t0 < t) && !(t < t0);
  }

  /** Map k of ms has its indices from `oldIndex` on raised; the other maps are untouched. */
  method RaiseMap(ms: seq<Map>, ghost cs: seq<set<PrefixRule>>, ghost repr: set<object>, k: nat, oldIndex: nat)
    requires k < |ms| == |cs| && Owned(ms, repr, |ms|)
    requires MapsOk(ms, cs, repr, |ms|) && DistinctStorage(ms)
    modifies ms[k].storage
    ensures MapsOk(ms, cs[k := RaiseSet(cs[k], oldIndex)], repr, |ms|)
  {
    MapsOkIff(ms, cs, repr, |ms|);
    var m := ms[k];
    m.IncrementIndex(oldIndex);
    ghost var cs2 := cs[k := RaiseSet(cs[k], oldIndex)];
    forall i | 0 <= i < |ms|
      ensures MapOk(ms[i], cs2[i])
    {
      if i != k {
        assert ms[i].storage != m.storage;
        assert old(MapOk(ms[i], cs[i]));
      }
    }
    MapsOkIff(ms, cs2, repr, |ms|);
  }

  /** Map k of ms drops the rules of the index and lowers those above; the other maps are untouched. */
  method RemoveFromMap(ms: seq<Map>, ghost cs: seq<set<PrefixRule>>, ghost repr: set<object>, k: nat, idx: nat)
    requires k < |ms| == |cs| && Owned(ms, repr, |ms|)
    requires MapsOk(ms, cs, repr, |ms|) && DistinctStorage(ms)
    modifies ms[k], ms[k].storage
    ensures MapsOk(ms, cs[k := RemoveSet(cs[k], idx)], repr, |ms|)
  {
    MapsOkIff(ms, cs, repr, |ms|);
    var m := ms[k];
    m.Remove(idx);
    ghost var kept := m.Contents();
    m.DecrementIndex(idx);
    assert m.Contents() == RemoveSet(cs[k], idx);
    ghost var cs2 := cs[k := RemoveSet(cs[k], idx)];
    forall i | 0 <= i < |ms|
      ensures MapOk(ms[i], cs2[i])
    {
      if i != k {
        assert ms[i] != m && ms[i].storage != m.storage;
        assert old(MapOk(ms[i], cs[i]));
      }
    }
    MapsOkIff(ms, cs2, repr, |ms|);
  }
}

/**
 * The specific five-tuple data of the linear search: packet headers,
 * fixed-width rule atoms, rules and the array-backed rule set.
 */
module Data5tpl {
  import opened BitOps
  import opened Results

  // The messages of the exceptions thrown here.
  const SetIndexError: string := "Index for setting Rule is outside bounds."

  /** A packet header: two 32-bit addresses, two 16-bit ports and an 8-bit protocol. */
  datatype HeaderTuple = HeaderTuple(addrSrc: nat, addrDest: nat, portSrc: nat, portDest: nat, protocol: nat)

  predicate ValidHeader(h: HeaderTuple)
  {
    h.addrSrc < Limit32 && h.addrDest < Limit32 &&
    h.portSrc < 0x1_0000 && h.portDest < 0x1_0000 && h.protocol < 0x100
  }

  /** A rule atom over one fixed-width field. */
  datatype Atom =
    | Exact(value: nat)
    | Range(minValue: nat, maxValue: nat)
    | Prefix(prefix: nat, mask: nat)

  /** `match` of the three atom kinds: equality, inclusive bounds, masked equality. */
  predicate AtomMatch(a: Atom, v: nat)
  {
    match a
    case Exact(x) => x == v
    case Range(lo, hi) => v >= lo && v <= hi
    case Prefix(p, m) => And(v, m) == And(m, p)
  }

  /** A five-tuple rule: source and destination address, ports, protocol. */
  datatype Rule = Rule(addrSrc: Atom, addrDest: Atom, portSrc: Atom, portDest: Atom, protocol: Atom)

  /** `Rule::match`: every atom matches its header field. */
  predicate RuleMatch(r: Rule, h: HeaderTuple)
  {
    AtomMatch(r.addrSrc, h.addrSrc) && AtomMatch(r.addrDest, h.addrDest) &&
    AtomMatch(r.portSrc, h.portSrc) && AtomMatch(r.portDest, h.portDest) &&
    AtomMatch(r.protocol, h.protocol)
  }

  /** The index of the first rule matching h, if any. */
  function FirstMatch(rules: seq<Rule>, h: HeaderTuple): (r: Option<nat>)
    ensures r.Some? ==> (r.value < |rules| && RuleMatch(rules[r.value], h) &&
      forall j :: 0 <= j < r.value ==> !RuleMatch(rules[j], h))
    ensures r.None? <==> forall j :: 0 <= j < |rules| ==> !RuleMatch(rules[j], h)
  {
    if |rules| == 0 then None
    else if RuleMatch(rules[0], h) then Some(0)
    else
      match FirstMatch(rules[1..], h)
      case None => None
      case Some(i) => Some(i + 1)
  }

  /** The 8-bit prefix test: 0x2D under mask 0xFC matches exactly the bytes 0x2C to 0x2F. */
  lemma PrefixAtomExample(v: nat)
    requires v < Pow2(8)
    ensures AtomMatch(Prefix(0x2D, 0xFC), v) <==> 0x2C <= v <= 0x2F
  {
    assert Pow2(2) == 4;
    Pow2Byte();
    assert HighMask(8, 2) == 0xFC;
    AndHighMask(v, 8, 2);
    AndComm(0xFC, 0x2D);
    AndHighMask(0x2D, 8, 2);
    assert And(0xFC, 0x2D) == 0x2C;
    InAlignedBlock(v, 0x2D, 4);
    assert And(v, 0xFC) == v - v % 4;
  }

  /** A mask of 0 makes a prefix atom match every value. */
  lemma EmptyMaskMatchesAll(p: nat, v: nat)
    ensures AtomMatch(Prefix(p, 0), v)
  {
  }

  /**
   * The rule set: an array of rule slots (a slot may be empty, as a
   * `unique_ptr` may be null) whose length is the 32-bit size.
   */
  class RuleSet {
    var rules: array<Option<Rule>>

    /** Every slot holds a rule. */
    predicate Complete()
      reads this, rules
    {
      forall i :: 0 <= i < rules.Length ==> rules[i].Some?
    }

    /** The rules of a complete set, in slot order. */
    function Rules(): seq<Rule>
      reads this, rules
      requires Complete()
    {
      seq(rules.Length, i reads this, rules requires 0 <= i < rules.Length && Complete() => rules[i].value)
    }

    /** `RuleSet(initSize)`: `initSize` empty slots. */
    constructor(initSize: nat)
      requires initSize < Limit32
      ensures rules.Length == initSize && fresh(rules)
      ensures forall i :: 0 <= i < initSize ==> rules[i].None?
    {
      rules := new Option<Rule>[initSize](_ => None);
    }

    /** `setRule`: fills slot `index`; an index past the size throws. */
    method SetRule(index: nat, rule: Rule) returns (o: Outcome)
      modifies rules
      ensures index >= rules.Length ==> o.Fail? && rules[..] == old(rules[..])
      ensures index < rules.Length ==> o == Done && rules[..] == old(rules[..])[index := Some(rule)]
    {
      if index >= rules.Length {
        return Fail(SetIndexError);
      }
      rules[index] := Some(rule);
      return Done;
    }

    /** `RuleSet::match`: the index of the first rule matching the header, if any. */
    method Match(h: HeaderTuple) returns (r: Option<nat>)
      requires Complete()
      ensures r.Some? ==> (r.value < rules.Length && RuleMatch(rules[r.value].value, h) &&
        forall j :: 0 <= j < r.value ==> !RuleMatch(rules[j].value, h))
      ensures r.None? ==> forall j :: 0 <= j < rules.Length ==> !RuleMatch(rules[j].value, h)
    {
      var i := 0;
      while i < rules.Length
        invariant 0 <= i <= rules.Length
        invariant forall j :: 0 <= j < i ==> !RuleMatch(rules[j].value, h)
      {
        if RuleMatch(rules[i].value, h) {
          break;
        }
        i := i + 1;
      }
      if i < rules.Length {
        return Some(i);
      }
      return None;
    }

    /**
     * `swapRule`: exchanges slot `index` with `rulePtr` and succeeds, unless
     * the index is out of bounds or the slot is empty.
     */
    method SwapRule(index: nat, rulePtr: Option<Rule>) returns (ok: bool, outPtr: Option<Rule>)
      modifies rules
      ensures ok <==> index < rules.Length && old(rules[index]).Some?
      ensures ok ==> outPtr == old(rules[index]) && rules[..] == old(rules[..])[index := rulePtr]
      ensures !ok ==> outPtr == rulePtr && rules[..] == old(rules[..])
    {
      if index >= rules.Length {
        return false, rulePtr;
      }
      if rules[index].None? {
        return false, rulePtr;
      }
      outPtr := rules[index];
      rules[index] := rulePtr;
      return true, outPtr;
    }
  }

  /** The match of a complete rule set agrees with the first-match function of its rules. */
  lemma MatchIsFirstMatch(rules: seq<Rule>, h: HeaderTuple, i: nat)
    requires i < |rules| && RuleMatch(rules[i], h)
    requires forall j :: 0 <= j < i ==> !RuleMatch(rules[j], h)
    ensures FirstMatch(rules, h) == Some(i)
  {
  }
}

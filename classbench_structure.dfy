/**
 * tools/classbench_structure.py: turns a rule file whose fields are all
 * subnets, and its header trace, into a benchmark script for rules of any
 * number of prefix fields. The header declares the algorithms built for
 * that number of fields and a structure of that many 32-bit fields; each
 * rule line becomes one `addRuleToRuleset` call with one atom per field,
 * each trace line an `addHeaderToHeaderset` call with every field but the
 * first. The files are given as their lines; what the script writes is
 * returned as text, with the Python exception that stopped it, if any.
 */
module ClassbenchStructure {
  import opened Results
  import opened PyText
  import opened ClassbenchConvert

  // ------------------------------------------------------------- header

  /** The field widths of the structure: one 32 per field, none for a count below one. */
  function Widths(tuples: int): (w: seq<string>)
    ensures |w| == if tuples > 0 then tuples else 0
    ensures forall i :: 0 <= i < |w| ==> w[i] == "32"
  {
    seq(if tuples > 0 then tuples else 0, _ => "32")
  }

  /** The structure declaration and the blank line after it. */
  function StructureLiteral(tuples: int): string {
    "structure = {" + Join(Widths(tuples), ", ") + "}\n\n"
  }

  /** Joining one more piece appends the separator and the piece. */
  lemma {:induction false} JoinSnoc(parts: seq<string>, x: string, sep: string)
    requires |parts| >= 1
    ensures Join(parts + [x], sep) == Join(parts, sep) + sep + x
    decreases |parts|
  {
    var more := parts + [x];
    if |parts| == 1 {
      assert more[1..] == [x];
    } else {
      assert more[1..] == parts[1..] + [x];
      JoinSnoc(parts[1..], x, sep);
    }
  }

  /** The `while t < tuples` loop of `write_header`: `tuples` widths of 32, separated by ", ". */
  method WriteWidths(tuples: int) returns (out: string)
    ensures out == Join(Widths(tuples), ", ")
  {
    out := "";
    var t := 0;
    while t < tuples
      invariant 0 <= t <= (if tuples > 0 then tuples else 0)
      invariant out == Join(Widths(t), ", ") + (if 0 < t < tuples then ", " else "")
    {
      assert Widths(t + 1) == Widths(t) + ["32"];
      if t > 0 {
        JoinSnoc(Widths(t), "32", ", ");
      } else {
        assert Widths(1) == ["32"];
      }
      out := out + "32";
      if t < tuples - 1 {
        out := out + ", ";
      }
      t := t + 1;
    }
    assert Widths(t) == Widths(tuples);
  }

  /** One algorithm declaration: the variable, the library and the parameter list. */
  function Algorithm(name: string, library: string, params: seq<string>): string {
    name + " = createAlgorithm(\"" + library + "\", {" + Join(params, ", ") + "})"
  }

  /** The library of an algorithm built for a number of fields. */
  function Library(kind: string, tuples: int): string {
    kind + Decimal(tuples) + "tpl.so"
  }

  /** The HiCuts parameters: the rule limit, the bin threshold and the space factor. */
  function HiCutsParams(tuples: int): seq<string> {
    ["10000", Decimal(10 * tuples), "3.0"]
  }

  /** The bin threshold written for HiCuts reads back as ten times the number of fields. */
  lemma HiCutsBinth(tuples: int)
    ensures ParseInt(HiCutsParams(tuples)[1], 10) == Some(10 * tuples)
  {
    DecimalRoundTrip(10 * tuples);
  }

  /** The four algorithm declarations, then a blank line. */
  function DeclarationLines(tuples: int): seq<string> {
    [ Algorithm("algLinSearch", Library("LinearSearch", tuples), ["10000"]),
      Algorithm("algBitvector", Library("Bitvector", tuples), ["10000"]),
      Algorithm("algTuples", Library("TupleSpace", tuples), ["10000", "97"]),
      Algorithm("algHiCuts", Library("HiCuts", tuples), HiCutsParams(tuples)), "", "" ]
  }

  /** `write_header`. */
  method WriteHeader(tuples: int) returns (out: string)
    ensures out == Join(DeclarationLines(tuples), "\n") + StructureLiteral(tuples)
  {
    var widths := WriteWidths(tuples);
    var structure := "structure = {" + widths + "}\n\n";
    assert structure == StructureLiteral(tuples);
    out := Join(DeclarationLines(tuples), "\n") + structure;
  }

  // -------------------------------------------------------------- rules

  /** The fields of a line: `re.split("[ \t]+", line.strip())`. */
  function Fields(line: string): seq<string> {
    SplitBlanks(Strip(line))
  }

  /** The script text of an address atom, as this tool's `parse_ip` writes it. */
  function Bare(a: Atom): string
    requires a.AddressExact? || a.AddressPrefix?
  {
    match a
    case AddressExact(address) => "ruleAtomExact(ipv4Toi(\"" + address + "\"))"
    case AddressPrefix(address, mask) => "ruleAtomPrefix(ipv4Toi(\"" + address + "\"), maskToi(" + mask + "))"
  }

  /** `addr, mask = split_subnet(field)` and `parse_ip`: the text of one field's atom, or the exception. */
  function AtomText(field: string): Result<string> {
    var a := ParseSubnet(field);
    if a.Err? then Err(a.error)
    else
      assert ParseIp(SplitSubnet(field).value.0, SplitSubnet(field).value.1) == a;
      Ok(Bare(a.value))
  }

  /**
   * A field `address/mask` becomes an exact atom when the mask reads as 32,
   * a prefix atom with that mask when it reads as another number, and
   * raises ValueError when it does not read as a number.
   */
  lemma AtomOfSubnet(address: string, mask: string)
    requires '/' !in address && '/' !in mask
    ensures ParseInt(mask, 10) == Some(32) ==> AtomText(address + "/" + mask) == Ok("ruleAtomExact(ipv4Toi(\"" + address + "\"))")
    ensures ParseInt(mask, 10).Some? && ParseInt(mask, 10) != Some(32) ==>
      AtomText(address + "/" + mask) == Ok("ruleAtomPrefix(ipv4Toi(\"" + address + "\"), maskToi(" + mask + "))")
    ensures ParseInt(mask, 10).None? ==> AtomText(address + "/" + mask) == Err(InvalidLiteral(mask, 10))
  {
    SplitFirst(address, '/', mask);
    SplitNone(mask, '/');
    assert Split(address + "/" + mask, '/') == [address, mask];
  }

  /** The atom texts of a rule line's fields, up to the field that raised, and its exception. */
  datatype Listed = Listed(texts: seq<string>, error: Option<string>)

  /** The first n fields turned into atom texts by `atom`, stopping at the first that raises. */
  function Collected(atom: string -> Result<string>, parts: seq<string>, n: nat): Listed
    requires n <= |parts|
    decreases n
  {
    if n == 0 then Listed([], None)
    else
      var before := Collected(atom, parts, n - 1);
      var a := atom(parts[n - 1]);
      if before.error.Some? then before
      else if a.Err? then Listed(before.texts, Some(a.error))
      else Listed(before.texts + [a.value], None)
  }

  /**
   * The fields are handled in order: without an exception each yields its
   * atom; with one, the atoms before the field that raised, and that
   * field's error.
   */
  lemma {:induction false} CollectedSteps(atom: string -> Result<string>, parts: seq<string>, n: nat)
    requires n <= |parts|
    ensures var r := Collected(atom, parts, n);
      && (r.error.None? <==> forall k :: 0 <= k < n ==> atom(parts[k]).Ok?)
      && |r.texts| <= n
      && (forall k :: 0 <= k < |r.texts| ==> Ok(r.texts[k]) == atom(parts[k]))
      && (r.error.None? ==> |r.texts| == n)
      && (r.error.Some? ==> |r.texts| < n && Err(r.error.value) == atom(parts[|r.texts|]))
    decreases n
  {
    if n > 0 {
      CollectedSteps(atom, parts, n - 1);
    }
  }

  /** Once a field has raised, the later fields change nothing. */
  lemma {:induction false} CollectedStop(atom: string -> Result<string>, parts: seq<string>, k: nat, n: nat)
    requires k <= n <= |parts|
    requires Collected(atom, parts, k).error.Some?
    ensures Collected(atom, parts, n) == Collected(atom, parts, k)
    decreases n
  {
    if k < n {
      CollectedStop(atom, parts, k, n - 1);
    }
  }

  /**
   * What the field loop writes for the atoms it produced: their texts
   * separated by ", "; when a field raised, a ", " already follows the
   * last text.
   */
  function Written(c: Listed): Run {
    Run(Join(c.texts, ", ") + (if c.error.Some? && |c.texts| > 0 then ", " else ""), c.error)
  }

  /** The `while idx < len(parts)` loop of `write_rules`, with `atom` for the body's unpacking and `parse_ip`. */
  method WriteAtoms(atom: string -> Result<string>, parts: seq<string>) returns (run: Run)
    ensures run == Written(Collected(atom, parts, |parts|))
  {
    var out := "";
    ghost var texts: seq<string> := [];
    var idx := 0;
    while idx < |parts|
      invariant idx <= |parts|
      invariant Collected(atom, parts, idx) == Listed(texts, None)
      invariant out == Join(texts, ", ") + (if 0 < idx < |parts| then ", " else "")
    {
      var a := atom(parts[idx]);
      if a.Err? {
        CollectedStop(atom, parts, idx + 1, |parts|);
        return Run(out, Some(a.error));
      }
      if idx > 0 {
        JoinSnoc(texts, a.value, ", ");
      } else {
        assert texts + [a.value] == [a.value];
      }
      out := out + a.value;
      if idx < |parts| - 1 {
        out := out + ", ";
      }
      texts := texts + [a.value];
      idx := idx + 1;
    }
    run := Run(out, None);
  }

  /** The call one rule line's fields produce. */
  function RuleCall(atom: string -> Result<string>, parts: seq<string>): Run {
    var w := Written(Collected(atom, parts, |parts|));
    Run("addRuleToRuleset(rs, {" + w.text + (if w.error.None? then "})\n" else ""), w.error)
  }

  /** The calls of all rule lines, stopping at the first exception. */
  function RuleCalls(split: string -> seq<string>, atom: string -> Result<string>, lines: seq<string>): Run
    decreases |lines|
  {
    if |lines| == 0 then Run("", None)
    else Then(RuleCalls(split, atom, lines[..|lines| - 1]), RuleCall(atom, split(lines[|lines| - 1])))
  }

  /** Once a line has raised, the later lines change nothing. */
  lemma {:induction false} RuleCallsStop(split: string -> seq<string>, atom: string -> Result<string>, lines: seq<string>, k: nat)
    requires k <= |lines|
    requires RuleCalls(split, atom, lines[..k]).error.Some?
    ensures RuleCalls(split, atom, lines) == RuleCalls(split, atom, lines[..k])
    decreases |lines|
  {
    if k < |lines| {
      var front := lines[..|lines| - 1];
      assert front[..k] == lines[..k];
      RuleCallsStop(split, atom, front, k);
    } else {
      assert lines[..k] == lines;
    }
  }

  /** One more line adds the call its fields produce. */
  lemma RuleCallsSnoc(split: string -> seq<string>, atom: string -> Result<string>, lines: seq<string>, i: nat, w: Run)
    requires i < |lines| && RuleCalls(split, atom, lines[..i]).error.None?
    requires w == Written(Collected(atom, split(lines[i]), |split(lines[i])|))
    ensures var out := RuleCalls(split, atom, lines[..i]).text;
      RuleCalls(split, atom, lines[..i + 1])
        == if w.error.None? then Run(out + ("addRuleToRuleset(rs, {" + w.text) + "})\n", None)
           else Run(out + ("addRuleToRuleset(rs, {" + w.text), w.error)
  {
    assert lines[..i + 1][..i] == lines[..i];
  }

  /** The `for line in lines` loop of `write_rules`. */
  method WriteRuleCalls(split: string -> seq<string>, atom: string -> Result<string>, lines: seq<string>) returns (run: Run)
    ensures run == RuleCalls(split, atom, lines)
  {
    var out := "";
    for i := 0 to |lines|
      invariant RuleCalls(split, atom, lines[..i]) == Run(out, None)
    {
      var parts := split(lines[i]);
      var atoms := WriteAtoms(atom, parts);
      RuleCallsSnoc(split, atom, lines, i, atoms);
      var call := "addRuleToRuleset(rs, {" + atoms.text;
      if atoms.error.Some? {
        RuleCallsStop(split, atom, lines, i + 1);
        return Run(out + call, atoms.error);
      }
      out := out + call + "})\n";
    }
    assert lines[..|lines|] == lines;
    run := Run(out, None);
  }

  /** The rule section as the script writes it. */
  function RulesRun(lines: seq<string>): Run {
    Then(Run("rs = createRuleset()\n", None), Then(RuleCalls(Fields, AtomText, lines), Run("\n", None)))
  }

  /** `write_rules`. */
  method WriteRules(lines: seq<string>) returns (run: Run)
    ensures run == RulesRun(lines)
  {
    var out := "rs = createRuleset()\n";
    var calls := WriteRuleCalls(Fields, AtomText, lines);
    out := out + calls.text;
    if calls.error.Some? {
      return Run(out, calls.error);
    }
    run := Run(out + "\n", None);
  }

  /**
   * A call raises iff one of the fields does, and otherwise lists one atom
   * per field, in field order.
   */
  lemma RuleCallOfParts(atom: string -> Result<string>, parts: seq<string>)
    ensures var c := Collected(atom, parts, |parts|);
      && (RuleCall(atom, parts).error.None? <==> forall k :: 0 <= k < |parts| ==> atom(parts[k]).Ok?)
      && (c.error.None? ==>
        && RuleCall(atom, parts).text == "addRuleToRuleset(rs, {" + Join(c.texts, ", ") + "})\n"
        && |c.texts| == |parts|
        && forall k :: 0 <= k < |parts| ==> Ok(c.texts[k]) == atom(parts[k]))
  {
    CollectedSteps(atom, parts, |parts|);
  }

  /**
   * A rule line of space-separated fields converts without an exception
   * iff every field does, and then its call lists one atom per field, in
   * field order.
   */
  lemma RuleOfFields(atom: string -> Result<string>, fields: seq<string>)
    requires |fields| >= 1
    requires forall i :: 0 <= i < |fields| ==> |fields[i]| > 0 && forall c :: c in fields[i] ==> !IsSpace(c)
    ensures var c := Collected(atom, fields, |fields|);
      && (RuleCall(atom, Fields(Join(fields, " "))).error.None? <==> forall k :: 0 <= k < |fields| ==> atom(fields[k]).Ok?)
      && (c.error.None? ==>
        && RuleCall(atom, Fields(Join(fields, " "))).text == "addRuleToRuleset(rs, {" + Join(c.texts, ", ") + "})\n"
        && |c.texts| == |fields|
        && forall k :: 0 <= k < |fields| ==> Ok(c.texts[k]) == atom(fields[k]))
  {
    FieldsSplit(fields);
    RuleCallOfParts(atom, fields);
  }

  // -------------------------------------------------------------- trace

  /** `parts[1:]`. */
  function Rest(parts: seq<string>): seq<string> {
    if |parts| == 0 then [] else parts[1..]
  }

  /** The `while idx < len(parts)` loop of `write_trace`: every field but the first, separated by ", ". */
  method WriteHeaderFields(parts: seq<string>) returns (out: string)
    ensures out == Join(Rest(parts), ", ")
  {
    out := "";
    if |parts| == 0 {
      return;
    }
    var idx := 1;
    while idx < |parts|
      invariant 1 <= idx <= |parts|
      invariant out == Join(parts[1..idx], ", ") + (if 1 < idx < |parts| then ", " else "")
    {
      assert parts[1..idx + 1] == parts[1..idx] + [parts[idx]];
      if idx > 1 {
        JoinSnoc(parts[1..idx], parts[idx], ", ");
      }
      out := out + parts[idx];
      if idx < |parts| - 1 {
        out := out + ", ";
      }
      idx := idx + 1;
    }
    assert parts[1..idx] == Rest(parts);
  }

  /** The call one trace line's fields produce. */
  function HeaderCall(parts: seq<string>): string {
    "addHeaderToHeaderset(headers, {" + Join(Rest(parts), ", ") + "})\n"
  }

  /** The calls of all trace lines. */
  function HeaderCalls(split: string -> seq<string>, lines: seq<string>): string
    decreases |lines|
  {
    if |lines| == 0 then "" else HeaderCalls(split, lines[..|lines| - 1]) + HeaderCall(split(lines[|lines| - 1]))
  }

  /** The `for line in lines` loop of `write_trace`. */
  method WriteHeaderCalls(split: string -> seq<string>, lines: seq<string>) returns (out: string)
    ensures out == HeaderCalls(split, lines)
  {
    out := "";
    for i := 0 to |lines|
      invariant out == HeaderCalls(split, lines[..i])
    {
      assert lines[..i + 1][..i] == lines[..i];
      var parts := split(lines[i]);
      var fields := WriteHeaderFields(parts);
      out := out + "addHeaderToHeaderset(headers, {" + fields + "})\n";
    }
    assert lines[..|lines|] == lines;
  }

  /** The trace section as the script writes it; it cannot raise. */
  function TraceText(lines: seq<string>): string {
    "\n\nheaders = createHeaderset()\n" + HeaderCalls(Fields, lines) + "\n\n"
  }

  /** `write_trace`. */
  method WriteTrace(lines: seq<string>) returns (out: string)
    ensures out == TraceText(lines)
  {
    var calls := WriteHeaderCalls(Fields, lines);
    out := "\n\nheaders = createHeaderset()\n" + calls + "\n\n";
  }

  /** A header line drops its first field, the rule index, and keeps the others in order. */
  lemma TraceOfFields(fields: seq<string>)
    requires |fields| >= 1
    requires forall i :: 0 <= i < |fields| ==> |fields[i]| > 0 && forall c :: c in fields[i] ==> !IsSpace(c)
    ensures HeaderCall(Fields(Join(fields, " "))) == "addHeaderToHeaderset(headers, {" + Join(fields[1..], ", ") + "})\n"
  {
    FieldsSplit(fields);
  }

  // ------------------------------------------------------------- footer

  /** One `registerBenchmark` line of the footer. */
  function Register(title: string, algorithm: string, numruns: int): string {
    RegisterCall + title + "\", " + algorithm + RegisterArguments + Decimal(numruns) + ")"
  }

  const RegisterCall: string := "registerBenchmark(\""
  const RegisterArguments: string := ", structure, rs, headers, "

  /** The lines of `write_footer`: one benchmark per algorithm, then a blank line. */
  function FooterLines(numruns: int): seq<string> {
    [ Register("Linear Search", "algLinSearch", numruns), Register("Bitvector", "algBitvector", numruns),
      Register("Tuple Space Search", "algTuples", numruns), Register("HiCuts", "algHiCuts", numruns), "", "" ]
  }

  /** `write_footer`. */
  function Footer(numruns: int): string {
    Join(FooterLines(numruns), "\n")
  }

  /** A registration is one line. */
  lemma RegisterOneLine(title: string, algorithm: string, numruns: int)
    requires '\n' !in title && '\n' !in algorithm
    ensures '\n' !in Register(title, algorithm, numruns)
  {
    var n := Decimal(numruns);
    assert '\n' !in n by {
      if numruns < 0 { assert n[1..] == NaturalText(-numruns); }
    }
  }

  /**
   * The footer is exactly four registrations with the fixed labels, one
   * per declared algorithm, all with the same number of runs.
   */
  lemma FooterSplit(numruns: int)
    ensures Split(Footer(numruns), '\n') == FooterLines(numruns)
    ensures FooterLines(numruns) == [
      Register("Linear Search", "algLinSearch", numruns), Register("Bitvector", "algBitvector", numruns),
      Register("Tuple Space Search", "algTuples", numruns), Register("HiCuts", "algHiCuts", numruns), "", "" ]
  {
    FooterOneLines(numruns);
    SplitJoin(FooterLines(numruns), '\n');
  }

  /** No footer line holds a newline. */
  lemma FooterOneLines(numruns: int)
    ensures forall i :: 0 <= i < |FooterLines(numruns)| ==> '\n' !in FooterLines(numruns)[i]
  {
    var lines := FooterLines(numruns);
    forall i | 0 <= i < |lines|
      ensures '\n' !in lines[i]
    {
      if i == 0 {
        RegisterOneLine("Linear Search", "algLinSearch", numruns);
      } else if i == 1 {
        RegisterOneLine("Bitvector", "algBitvector", numruns);
      } else if i == 2 {
        RegisterOneLine("Tuple Space Search", "algTuples", numruns);
      } else if i == 3 {
        RegisterOneLine("HiCuts", "algHiCuts", numruns);
      }
    }
  }

  // --------------------------------------------------------------- main

  /**
   * `main`: the header, the rules, the trace and the footer, in this
   * order; an exception in the rules ends the output where it was raised.
   */
  method Structure(ruleLines: seq<string>, traceLines: seq<string>, numruns: int, tuples: int) returns (run: Run)
    ensures RulesRun(ruleLines).error.None? ==>
      run == Run(Join(DeclarationLines(tuples), "\n") + StructureLiteral(tuples) + RulesRun(ruleLines).text + TraceText(traceLines) + Footer(numruns), None)
    ensures RulesRun(ruleLines).error.Some? ==>
      run == Run(Join(DeclarationLines(tuples), "\n") + StructureLiteral(tuples) + RulesRun(ruleLines).text, RulesRun(ruleLines).error)
  {
    var out := WriteHeader(tuples);
    var rules := WriteRules(ruleLines);
    out := out + rules.text;
    if rules.error.Some? {
      return Run(out, rules.error);
    }
    var trace := WriteTrace(traceLines);
    out := out + trace + Footer(numruns);
    run := Run(out, None);
  }
}

/**
 * tools/classbench_convert.py: turns a ClassBench 5-tuple rule file and its
 * trace into a benchmark script. Each rule line becomes one
 * `addRuleToRuleset` call with five atoms (source and destination subnet,
 * source and destination port range, protocol), each trace line one
 * `addHeaderToHeaderset` call with its first five fields. The files are
 * given as their lines; what the script writes is returned as text, with
 * the Python exception that stopped it, if one did.
 */
module ClassbenchConvert {
  import opened Results
  import opened PyText

  /** One atom of an emitted rule, holding the input text it is written with. */
  datatype Atom =
    | AddressExact(address: string)
    | AddressPrefix(address: string, mask: string)
    | PortExact(port: string)
    | PortRange(low: string, high: string)
    | Protocol(value: int)

  /** The script text of an atom; every atom but the protocol is followed by ", ". */
  function Render(a: Atom): string {
    match a
    case AddressExact(address) => "ruleAtomExact(ipv4Toi(\"" + address + "\")), "
    case AddressPrefix(address, mask) => "ruleAtomPrefix(ipv4Toi(\"" + address + "\"), maskToi(" + mask + ")), "
    case PortExact(port) => "ruleAtomExact(" + port + "), "
    case PortRange(low, high) => "ruleAtomRange(" + low + ", " + high + "), "
    case Protocol(value) => "ruleAtomExact(" + Decimal(value) + ")"
  }

  /** The text of a list of atoms, one after the other. */
  function RenderAll(atoms: seq<Atom>): string
    decreases |atoms|
  {
    if |atoms| == 0 then "" else RenderAll(atoms[..|atoms| - 1]) + Render(atoms[|atoms| - 1])
  }

  /** `parse_ip`: a subnet is an exact address iff its mask reads as the number 32, a prefix otherwise. */
  function ParseIp(address: string, mask: string): (r: Result<Atom>)
    ensures r.Err? <==> ParseInt(mask, 10).None?
    ensures r.Err? ==> r.error == InvalidLiteral(mask, 10)
    ensures r.Ok? ==> (r.value.AddressExact? <==> ParseInt(mask, 10) == Some(32))
    ensures r.Ok? ==> (r.value.AddressExact? || r.value.AddressPrefix?) && r.value.address == address
    ensures r.Ok? && r.value.AddressPrefix? ==> r.value.mask == mask
  {
    var m := Int(mask, 10);
    if m.Err? then Err(m.error)
    else if m.value == 32 then Ok(AddressExact(address))
    else Ok(AddressPrefix(address, mask))
  }

  /** `parse_port`: a port pair is exact iff both bounds read as the same number, a range otherwise. */
  function ParsePort(minp: string, maxp: string): (r: Result<Atom>)
    ensures r.Ok? <==> ParseInt(minp, 10).Some? && ParseInt(maxp, 10).Some?
    ensures ParseInt(minp, 10).None? ==> r == Err(InvalidLiteral(minp, 10))
    ensures r.Ok? ==> (r.value.PortExact? <==> ParseInt(minp, 10) == ParseInt(maxp, 10))
    ensures r.Ok? ==> r.value.PortExact? || r.value.PortRange?
    ensures r.Ok? && r.value.PortExact? ==> r.value.port == minp
    ensures r.Ok? && r.value.PortRange? ==> r.value.low == minp && r.value.high == maxp
  {
    var low := Int(minp, 10);
    if low.Err? then Err(low.error)
    else
      var high := Int(maxp, 10);
      if high.Err? then Err(high.error)
      else if low.value == high.value then Ok(PortExact(minp))
      else Ok(PortRange(minp, maxp))
  }

  /**
   * `parse_prot`: the hexadecimal number of the whole field when it holds
   * no '/', else of the text before the first '/'.
   */
  function ParseProt(prot: string): (r: Result<int>)
    ensures '/' !in prot ==> r == Int(prot, 16)
    ensures forall k :: 0 <= k < |prot| && prot[k] == '/' && '/' !in prot[..k] ==> r == Int(prot[..k], 16)
  {
    SplitHead(prot, '/');
    Int(Split(prot, '/')[0], 16)
  }

  /** The protocol mask after the '/' is read past and never used. */
  lemma ProtocolMaskDiscarded(value: string, mask: string)
    requires '/' !in value
    ensures ParseProt(value + "/" + mask) == Int(value, 16)
  {
    assert (value + "/" + mask)[..|value|] == value;
  }

  /** `s[1:]`. */
  function Tail(s: string): (r: string)
    ensures |s| > 0 ==> r == s[1..]
  {
    if |s| == 0 then "" else s[1..]
  }

  /** `addr, mask = split_subnet(subnet)`: the two-way unpacking of the pieces around '/'. */
  function SplitSubnet(subnet: string): (r: Result<(string, string)>)
    ensures r.Ok? <==> |Split(subnet, '/')| == 2
    ensures r.Ok? ==> r.value.0 + "/" + r.value.1 == subnet
  {
    var pieces := Split(subnet, '/');
    if |pieces| == 2 then
      JoinSplit(subnet, '/');
      Ok((pieces[0], pieces[1]))
    else
      Err(UnpackError(|pieces|))
  }

  /** A subnet token unpacked and classified. */
  function ParseSubnet(subnet: string): (r: Result<Atom>)
    ensures r.Ok? ==> SplitSubnet(subnet).Ok?
    ensures r.Ok? ==> r == ParseIp(SplitSubnet(subnet).value.0, SplitSubnet(subnet).value.1)
  {
    var pair := SplitSubnet(subnet);
    if pair.Err? then Err(pair.error) else ParseIp(pair.value.0, pair.value.1)
  }

  /** The atoms a rule line's fields produce, up to the first field that raises. */
  datatype Converted = Converted(atoms: seq<Atom>, error: Option<string>)

  /**
   * The atom of the k-th statement of the rule loop's body: the source
   * subnet without its marker character, the destination subnet, fields 2
   * and 4 as the source ports, fields 5 and 7 as the destination ports,
   * and (k = 4) field 8 as the protocol; a missing field raises IndexError.
   */
  function AtomAt(parts: seq<string>, k: nat): (r: Result<Atom>)
    requires |parts| >= 1
    ensures k >= 4 && r.Ok? ==> r.value.Protocol?
  {
    if k == 0 then ParseSubnet(Tail(parts[0]))
    else if k == 1 then (if |parts| < 2 then Err(IndexOutOfRange) else ParseSubnet(parts[1]))
    else if k == 2 then (if |parts| < 5 then Err(IndexOutOfRange) else ParsePort(parts[2], parts[4]))
    else if k == 3 then (if |parts| < 8 then Err(IndexOutOfRange) else ParsePort(parts[5], parts[7]))
    else if |parts| < 9 then Err(IndexOutOfRange)
    else
      var prot := ParseProt(parts[8]);
      if prot.Err? then Err(prot.error) else Ok(Protocol(prot.value))
  }

  /** The first n statements of a body whose k-th statement writes the atom `at(k)`. */
  function AtomsUpTo(at: nat -> Result<Atom>, n: nat): (r: Converted)
    decreases n
  {
    if n == 0 then Converted([], None)
    else
      var before := AtomsUpTo(at, n - 1);
      if before.error.Some? then before
      else
        var a := at(n - 1);
        if a.Err? then Converted(before.atoms, Some(a.error)) else Converted(before.atoms + [a.value], None)
  }

  /**
   * The statements run in order: without an exception they produce their n
   * atoms; with one, the atoms before the step that raised, and that
   * step's error.
   */
  lemma {:induction false} AtomsUpToSteps(at: nat -> Result<Atom>, n: nat)
    ensures var r := AtomsUpTo(at, n);
      && (r.error.None? <==> forall k :: 0 <= k < n ==> at(k).Ok?)
      && |r.atoms| <= n
      && (forall k :: 0 <= k < |r.atoms| ==> Ok(r.atoms[k]) == at(k))
      && (r.error.None? ==> |r.atoms| == n)
      && (r.error.Some? ==> Err(r.error.value) == at(|r.atoms|))
    decreases n
  {
    if n > 0 {
      AtomsUpToSteps(at, n - 1);
    }
  }

  /** The body of the rule loop after the line is split: all five statements. */
  function RuleAtoms(parts: seq<string>): (r: Converted)
    requires |parts| >= 1
  {
    AtomsUpTo((k: nat) => AtomAt(parts, k), 5)
  }

  /**
   * A rule converts without an exception iff each of its five fields
   * does; then it has exactly five atoms, in field order.
   */
  lemma RuleAtomsInOrder(parts: seq<string>)
    requires |parts| >= 1
    ensures var r := RuleAtoms(parts);
      && (r.error.None? <==> forall k :: 0 <= k < 5 ==> AtomAt(parts, k).Ok?)
      && (r.error.None? ==> |parts| >= 9 && |r.atoms| == 5)
      && (r.error.None? ==>
        && Ok(r.atoms[0]) == ParseSubnet(Tail(parts[0]))
        && Ok(r.atoms[1]) == ParseSubnet(parts[1])
        && Ok(r.atoms[2]) == ParsePort(parts[2], parts[4])
        && Ok(r.atoms[3]) == ParsePort(parts[5], parts[7])
        && r.atoms[4].Protocol? && Ok(r.atoms[4].value) == ParseProt(parts[8]))
  {
    AtomsUpToSteps((k: nat) => AtomAt(parts, k), 5);
    if RuleAtoms(parts).error.None? {
      assert AtomAt(parts, 4).Ok?;
      assert AtomAt(parts, 1).Ok?;
    }
  }

  /** Statements that yield the same atoms run alike. */
  lemma {:induction false} SameAtomsAlike(at1: nat -> Result<Atom>, at2: nat -> Result<Atom>, n: nat)
    requires forall k :: 0 <= k < n ==> at1(k) == at2(k)
    ensures AtomsUpTo(at1, n) == AtomsUpTo(at2, n)
    decreases n
  {
    if n > 0 {
      SameAtomsAlike(at1, at2, n - 1);
      assert at1(n - 1) == at2(n - 1);
    }
  }

  /** Which character marks the source subnet does not matter: it is dropped unread. */
  lemma MarkerIgnored(m1: char, m2: char, source: string, rest: seq<string>)
    ensures RuleAtoms([[m1] + source] + rest) == RuleAtoms([[m2] + source] + rest)
  {
    var p := [[m1] + source] + rest;
    var q := [[m2] + source] + rest;
    assert Tail(p[0]) == source == Tail(q[0]);
    assert p[1..] == q[1..];
    SameAtomsAlike((k: nat) => AtomAt(p, k), (k: nat) => AtomAt(q, k), 5);
  }

  /** What one iteration of the rule loop writes for a line. */
  function RuleLine(line: string): (r: Run)
    ensures r.error == RuleAtoms(SplitBlanks(Strip(line))).error
  {
    var c := RuleAtoms(SplitBlanks(Strip(line)));
    Run("addRuleToRuleset(rs, {" + RenderAll(c.atoms) + (if c.error.None? then "})\n" else ""), c.error)
  }

  /**
   * A rule line whose fields are separated by single spaces is converted
   * field by field: its call lists the atoms of RuleAtoms, in order.
   */
  lemma RuleLineOfFields(fields: seq<string>)
    requires |fields| >= 1
    requires forall i :: 0 <= i < |fields| ==> |fields[i]| > 0 && forall c :: c in fields[i] ==> !IsSpace(c)
    ensures RuleLine(Join(fields, " ")).error == RuleAtoms(fields).error
    ensures RuleAtoms(fields).error.None? ==>
      RuleLine(Join(fields, " ")).text == "addRuleToRuleset(rs, {" + RenderAll(RuleAtoms(fields).atoms) + "})\n"
  {
    FieldsSplit(fields);
  }

  /** Fields without white space, joined by single spaces, are found again by strip and split. */
  lemma FieldsSplit(fields: seq<string>)
    requires |fields| >= 1
    requires forall i :: 0 <= i < |fields| ==> |fields[i]| > 0 && forall c :: c in fields[i] ==> !IsSpace(c)
    ensures SplitBlanks(Strip(Join(fields, " "))) == fields
  {
    var line := Join(fields, " ");
    JoinEnds(fields);
    assert !IsSpace(line[0]) && !IsSpace(line[|line| - 1]) by {
      assert fields[0][0] in fields[0];
      assert fields[|fields| - 1][|fields[|fields| - 1]| - 1] in fields[|fields| - 1];
    }
    StripTrimmed(line);
    SplitBlanksJoin(fields);
  }

  /** A join of non-empty pieces starts with the first piece's first character and ends with the last piece's last. */
  lemma {:induction false} JoinEnds(fields: seq<string>)
    requires |fields| >= 1
    requires forall i :: 0 <= i < |fields| ==> |fields[i]| > 0
    ensures |Join(fields, " ")| > 0
    ensures Join(fields, " ")[0] == fields[0][0]
    ensures Join(fields, " ")[|Join(fields, " ")| - 1] == fields[|fields| - 1][|fields[|fields| - 1]| - 1]
    decreases |fields|
  {
    if |fields| > 1 {
      JoinEnds(fields[1..]);
    }
  }

  /** The rule loop as the script runs it: one call per line, stopping at the first exception. */
  function RulesRun(lines: seq<string>): Run {
    Then(Run("rs = createRuleset()\n", None), Then(EachLine(RuleLine, lines), Run("\n", None)))
  }

  /** `write_rules`. */
  method WriteRules(lines: seq<string>) returns (run: Run)
    ensures run == RulesRun(lines)
  {
    var out := "rs = createRuleset()\n";
    var body := WriteLines(RuleLine, lines);
    out := out + body.text;
    if body.error.Some? {
      return Run(out, body.error);
    }
    out := out + "\n";
    run := Run(out, None);
  }

  /** What one iteration of the trace loop writes: the first five fields, or a format error. */
  function TraceLine(line: string): (r: Run)
    ensures r.error.None? <==> |SplitBlanks(Strip(line))| >= 5
  {
    var parts := SplitBlanks(Strip(line));
    if |parts| >= 5 then
      Run("addHeaderToHeaderset(headers, {" + Join(parts[..5], ", ") + "})\n", None)
    else
      Run("addHeaderToHeaderset(headers, {", Some(NotEnoughArguments))
  }

  /** A trace line keeps its first five fields verbatim and in order, and drops the rest. */
  lemma TraceLineOfFields(fields: seq<string>)
    requires |fields| >= 1
    requires forall i :: 0 <= i < |fields| ==> |fields[i]| > 0 && forall c :: c in fields[i] ==> !IsSpace(c)
    ensures |fields| >= 5 ==>
      TraceLine(Join(fields, " ")) == Run("addHeaderToHeaderset(headers, {" + Join(fields[..5], ", ") + "})\n", None)
    ensures |fields| < 5 ==> TraceLine(Join(fields, " ")).error == Some(NotEnoughArguments)
  {
    FieldsSplit(fields);
  }

  /** The trace loop as the script runs it. */
  function TraceRun(lines: seq<string>): Run {
    Then(Run("\n\nheaders = createHeaderset()\n", None), Then(EachLine(TraceLine, lines), Run("\n\n", None)))
  }

  /** `write_trace`. */
  method WriteTrace(lines: seq<string>) returns (run: Run)
    ensures run == TraceRun(lines)
  {
    var out := "\n\nheaders = createHeaderset()\n";
    var body := WriteLines(TraceLine, lines);
    out := out + body.text;
    if body.error.Some? {
      return Run(out, body.error);
    }
    out := out + "\n\n";
    run := Run(out, None);
  }

  /** The lines of `write_header`: the four algorithm declarations and the IPv4 structure. */
  function HeaderLines(binth: string): seq<string> {
    [ "algLinSearch = createAlgorithm(\"LinearSearch5tpl.so\", {10000})",
      "algBitvector = createAlgorithm(\"Bitvector5tpl.so\", {10000})",
      "algTuples = createAlgorithm(\"TupleSpace5tpl.so\", {10000, 107})", "",
      "algHiCuts = createAlgorithm(\"HiCuts5tpl.so\", {10000, " + binth + ", 3.0})",
      "structureIPv4 = {32, 32, 16, 16, 8}", "", "" ]
  }

  /** `write_header`: its lines, each ended by a newline, with blank lines after the tuple space and structure declarations. */
  function Header(binth: string): string {
    Join(HeaderLines(binth), "\n")
  }

  /** One `registerBenchmark` line of the footer. */
  function Register(algorithm: string, comment: string, numruns: int): string {
    "registerBenchmark(\"" + comment + "\", " + algorithm + ", structureIPv4, rs, headers, " + Decimal(numruns) + ")"
  }

  /** The lines of `write_footer`: one benchmark per algorithm, with a blank line before the HiCuts one. */
  function FooterLines(numruns: int, comment: string): seq<string> {
    [ Register("algLinSearch", comment, numruns), Register("algBitvector", comment, numruns),
      Register("algTuples", comment, numruns), "", Register("algHiCuts", comment, numruns), "" ]
  }

  /** `write_footer`: its lines, each ended by a newline. */
  function Footer(numruns: int, comment: string): string {
    Join(FooterLines(numruns, comment), "\n")
  }

  /** A registration is one line when the comment is. */
  lemma RegisterOneLine(algorithm: string, comment: string, numruns: int)
    requires '\n' !in comment && '\n' !in algorithm
    ensures '\n' !in Register(algorithm, comment, numruns)
  {
    var n := Decimal(numruns);
    assert '\n' !in n by {
      if numruns < 0 { assert n[1..] == NaturalText(-numruns); }
    }
  }

  /**
   * The footer is exactly four registrations, one per declared algorithm,
   * all with the same comment and number of runs.
   */
  lemma FooterSplit(numruns: int, comment: string)
    requires '\n' !in comment
    ensures Split(Footer(numruns, comment), '\n') == [
      Register("algLinSearch", comment, numruns), Register("algBitvector", comment, numruns),
      Register("algTuples", comment, numruns), "", Register("algHiCuts", comment, numruns), ""]
  {
    RegisterOneLine("algLinSearch", comment, numruns);
    RegisterOneLine("algBitvector", comment, numruns);
    RegisterOneLine("algTuples", comment, numruns);
    RegisterOneLine("algHiCuts", comment, numruns);
    SplitJoin(FooterLines(numruns, comment), '\n');
  }

  /**
   * `main`: the header, the rules, the trace and the footer, in this
   * order; an exception ends the output where it was raised.
   */
  method Convert(ruleLines: seq<string>, traceLines: seq<string>, numruns: int, comment: string, binth: string)
    returns (run: Run)
    ensures run.error.None? ==> run.text == Header(binth) + RulesRun(ruleLines).text + TraceRun(traceLines).text + Footer(numruns, comment)
    ensures run.error.None? <==> RulesRun(ruleLines).error.None? && TraceRun(traceLines).error.None?
    ensures RulesRun(ruleLines).error.Some? ==> run == Run(Header(binth) + RulesRun(ruleLines).text, RulesRun(ruleLines).error)
    ensures RulesRun(ruleLines).error.None? && TraceRun(traceLines).error.Some? ==>
      run == Run(Header(binth) + RulesRun(ruleLines).text + TraceRun(traceLines).text, TraceRun(traceLines).error)
  {
    var out := Header(binth);
    var rules := WriteRules(ruleLines);
    out := out + rules.text;
    if rules.error.Some? {
      return Run(out, rules.error);
    }
    var trace := WriteTrace(traceLines);
    out := out + trace.text;
    if trace.error.Some? {
      return Run(out, trace.error);
    }
    out := out + Footer(numruns, comment);
    run := Run(out, None);
  }
}

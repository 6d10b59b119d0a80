/**
 * Conversion of generic (arbitrary-precision) rules and header lines into
 * the fixed-width five-tuple data of Data5tpl.
 */
module Converter5tpl {
  import opened BitOps
  import opened Results
  import G = GenericAtoms
  import D = Data5tpl

  // The messages of the exceptions thrown here.
  const ShortRuleError: string := "A rule inside the generic ruleset has not enough rule-atoms for five-tuple compatibility."
  const ShortHeaderError: string := "Header data line has insufficent amount of values (required are 5)."
  const HeaderError: string := "Converter5tpl: Conversion of header failed: "

  const AtomErrorPrefix: string := "Converter5tpl: Conversion failed, "

  /** The message of an atom value that does not fit, naming the width of the field of `limit` values. */
  function AtomError(what: string, limit: nat): string
  {
    var bits := if limit == Limit32 then "32" else if limit == 0x1_0000 then "16" else "8";
    AtomErrorPrefix + what + " exceeds expected size (" + bits + " bits)."
  }

  /** `fits_uint_p` (limit 2^32) and `fits_ushort_p` (limit 2^16): the value is below the limit. */
  predicate Fits(v: nat, limit: nat)
  {
    v < limit
  }

  /** `fits_uint_p`: the value fits an unsigned 32-bit word. */
  predicate FitsUint(v: nat)
  {
    v < Limit32
  }

  /** `fits_ushort_p`: the value fits an unsigned 16-bit word. */
  predicate FitsUshort(v: nat)
  {
    v < 0x1_0000
  }

  /** The value fits a byte. */
  predicate FitsUchar(v: nat)
  {
    v < 0x100
  }

  /** Every value stored in the atom is below the limit. */
  predicate AtomFits(a: G.RuleAtom, limit: nat)
  {
    match a
    case Exact(v, _) => Fits(v, limit)
    case Range(lo, hi, _) => Fits(lo, limit) && Fits(hi, limit)
    case Prefix(p, m, _) => Fits(p, limit) && Fits(m, limit)
  }

  /** The specific atom of the same kind with the same values; the width is dropped. */
  function Specific(a: G.RuleAtom): D.Atom
  {
    match a
    case Exact(v, _) => D.Exact(v)
    case Range(lo, hi, _) => D.Range(lo, hi)
    case Prefix(p, m, _) => D.Prefix(p, m)
  }

  /**
   * The conversion shared by all field widths: each value is checked against
   * `checkLimit` (throwing otherwise, minimum before maximum and prefix
   * before mask) and then cast to the field type of `limit` values.
   */
  function ConvertAtomChecked(a: G.RuleAtom, checkLimit: nat, limit: nat): (r: Result<D.Atom>)
    requires limit > 0
    ensures r.Ok? <==> AtomFits(a, checkLimit)
    ensures r.Ok? && checkLimit <= limit ==> r.value == Specific(a)
  {
    match a
    case Exact(v, _) =>
      if !Fits(v, checkLimit) then Err(AtomError("exact rule atom value", limit))
      else
        TruncateFitting(v, checkLimit, limit);
        Ok(D.Exact(v % limit))
    case Range(lo, hi, _) =>
      if !Fits(lo, checkLimit) then Err(AtomError("range rule atom min-value", limit))
      else if !Fits(hi, checkLimit) then Err(AtomError("range rule atom max-value", limit))
      else
        TruncateFitting(lo, checkLimit, limit);
        TruncateFitting(hi, checkLimit, limit);
        Ok(D.Range(lo % limit, hi % limit))
    case Prefix(p, m, _) =>
      if !Fits(p, checkLimit) then Err(AtomError("prefix rule atom prefix", limit))
      else if !Fits(m, checkLimit) then Err(AtomError("prefix rule atom mask", limit))
      else
        TruncateFitting(p, checkLimit, limit);
        TruncateFitting(m, checkLimit, limit);
        Ok(D.Prefix(p % limit, m % limit))
  }

  lemma TruncateFitting(v: nat, checkLimit: nat, limit: nat)
    requires limit > 0
    ensures v < checkLimit <= limit ==> v % limit == v
  {
    if v < checkLimit <= limit {
      SmallMod(v, limit);
    }
  }

  /** The conversion into a field of `limit` values, checked against the field's own range. */
  function ConvertField(a: G.RuleAtom, limit: nat): Result<D.Atom>
    requires limit > 0
  {
    ConvertAtomChecked(a, limit, limit)
  }

  /** `convertRuleAtom` for a field of `bits` bits, checked against the field's own width. */
  function ConvertRuleAtom(a: G.RuleAtom, bits: nat): Result<D.Atom>
  {
    ConvertField(a, Pow2(bits))
  }

  /** `convertRuleAtom<uint8_t>` as written: 8-bit atoms are checked with the 16-bit test. */
  function ConvertRuleAtom8AsWritten(a: G.RuleAtom): Result<D.Atom>
  {
    ConvertAtomChecked(a, 0x1_0000, 0x100)
  }

  /** The as-written 8-bit conversion accepts 256 and turns it into an atom for protocol 0. */
  lemma ConvertRuleAtom8AsWrittenAccepts256()
    ensures ConvertRuleAtom8AsWritten(G.Exact(256, 8)) == Ok(D.Exact(0))
    ensures D.AtomMatch(ConvertRuleAtom8AsWritten(G.Exact(256, 8)).value, 0)
    ensures G.ToRange(G.Exact(256, 8)) == (256, 256)
  {
  }

  /** Checked against its own width, the 8-bit conversion refuses 256. */
  lemma ConvertRuleAtom8Refuses256()
    ensures ConvertRuleAtom(G.Exact(256, 8), 8).Err?
  {
    Pow2Word();
  }

  /**
   * The converted atom matches a field value exactly when that value lies
   * in the generic atom's range: always for exact and range atoms, and for a
   * prefix atom whose mask is the top `len` bits of the field; a wildcard
   * prefix matches every value.
   */
  lemma ConvertedAtomMatchesRange(a: G.RuleAtom, bits: nat, v: nat)
    requires ConvertRuleAtom(a, bits).Ok? && v < Pow2(bits)
    requires a.Prefix? ==> a.mask == 0 || exists len :: 1 <= len <= bits && a.mask == PrefixMask(len, bits)
    ensures G.IsWildcard(a) ==> D.AtomMatch(ConvertRuleAtom(a, bits).value, v)
    ensures !G.IsWildcard(a) ==>
      (D.AtomMatch(ConvertRuleAtom(a, bits).value, v) <==> G.ToRange(a).0 <= v <= G.ToRange(a).1)
  {
    if a.Prefix? && a.mask != 0 {
      var len :| 1 <= len <= bits && a.mask == PrefixMask(len, bits);
      G.PrefixRangeMembership(a.prefix, len, bits, a.width, v);
      AndComm(a.mask, a.prefix);
    }
  }

  /** The first five atoms of a rule fit address, address, port, port and protocol. */
  predicate RuleFits(r: G.Rule)
  {
    |r| >= 5 && AtomFits(r[0], Limit32) && AtomFits(r[1], Limit32) &&
    AtomFits(r[2], 0x1_0000) && AtomFits(r[3], 0x1_0000) && AtomFits(r[4], 0x100)
  }

  /** The five-tuple rule of the specific atoms of the first five atoms. */
  function SpecificRule(r: G.Rule): D.Rule
    requires |r| >= 5
  {
    D.Rule(Specific(r[0]), Specific(r[1]), Specific(r[2]), Specific(r[3]), Specific(r[4]))
  }

  /**
   * `convertRule`, with the protocol atom checked against its own 8 bits:
   * the first five atoms as address, address, port, port and protocol.
   * The classifiers store rules through this corrected conversion.
   */
  function ConvertRule(r: G.Rule): (res: Result<D.Rule>)
    ensures res.Ok? <==> RuleFits(r)
    ensures res.Ok? ==> res.value == SpecificRule(r)
  {
    if |r| < 5 then Err(ShortRuleError)
    else
      var a0 := ConvertField(r[0], Limit32);
      var a1 := ConvertField(r[1], Limit32);
      var a2 := ConvertField(r[2], 0x1_0000);
      var a3 := ConvertField(r[3], 0x1_0000);
      var a4 := ConvertField(r[4], 0x100);
      if a0.Err? then Err(a0.error)
      else if a1.Err? then Err(a1.error)
      else if a2.Err? then Err(a2.error)
      else if a3.Err? then Err(a3.error)
      else if a4.Err? then Err(a4.error)
      else Ok(D.Rule(a0.value, a1.value, a2.value, a3.value, a4.value))
  }

  /** `convertRule` as written: the protocol atom goes through the 8-bit conversion with the 16-bit test. */
  function ConvertRuleAsWritten(r: G.Rule): (res: Result<D.Rule>)
    ensures res.Ok? <==> (|r| >= 5 && AtomFits(r[0], Limit32) && AtomFits(r[1], Limit32) &&
      AtomFits(r[2], 0x1_0000) && AtomFits(r[3], 0x1_0000) && AtomFits(r[4], 0x1_0000))
  {
    if |r| < 5 then Err(ShortRuleError)
    else
      var a0 := ConvertField(r[0], Limit32);
      var a1 := ConvertField(r[1], Limit32);
      var a2 := ConvertField(r[2], 0x1_0000);
      var a3 := ConvertField(r[3], 0x1_0000);
      var a4 := ConvertRuleAtom8AsWritten(r[4]);
      if a0.Err? then Err(a0.error)
      else if a1.Err? then Err(a1.error)
      else if a2.Err? then Err(a2.error)
      else if a3.Err? then Err(a3.error)
      else if a4.Err? then Err(a4.error)
      else Ok(D.Rule(a0.value, a1.value, a2.value, a3.value, a4.value))
  }

  /** On a rule whose protocol atom fits 8 bits, the conversion as written and the corrected one agree. */
  lemma ConvertRuleAsWrittenAgrees(r: G.Rule)
    requires RuleFits(r)
    ensures ConvertRuleAsWritten(r) == ConvertRule(r)
  {
    Atom8AsWrittenAgrees(r[4]);
  }

  /** An atom whose values fit 8 bits converts the same under the 16-bit test and the 8-bit one. */
  lemma Atom8AsWrittenAgrees(a: G.RuleAtom)
    requires AtomFits(a, 0x100)
    ensures ConvertRuleAtom8AsWritten(a) == ConvertField(a, 0x100)
  {
    match a
    case Exact(v, _) => TruncateFitting(v, 0x100, 0x100);
    case Range(lo, hi, _) => TruncateFitting(lo, 0x100, 0x100); TruncateFitting(hi, 0x100, 0x100);
    case Prefix(p, m, _) => TruncateFitting(p, 0x100, 0x100); TruncateFitting(m, 0x100, 0x100);
  }

  /**
   * `convertHeader` as written: the protocol value is checked against 16
   * bits and then truncated to 8.
   */
  function ConvertHeaderAsWritten(line: seq<nat>): (r: Result<D.HeaderTuple>)
    ensures r.Ok? <==> (|line| >= 5 && FitsUint(line[0]) && FitsUint(line[1]) &&
      FitsUshort(line[2]) && FitsUshort(line[3]) && FitsUshort(line[4]))
  {
    if |line| < 5 then Err(ShortHeaderError)
    else if !FitsUint(line[0]) then Err(HeaderError + "ip src exceeds expected size.")
    else if !FitsUint(line[1]) then Err(HeaderError + "ip dst exceeds expected size.")
    else if !FitsUshort(line[2]) then Err(HeaderError + "port src exceeds expected size.")
    else if !FitsUshort(line[3]) then Err(HeaderError + "port dst exceeds expected size.")
    else if !FitsUshort(line[4]) then Err(HeaderError + "protocol exceeds expected size.")
    else Ok(D.HeaderTuple(line[0], line[1], line[2], line[3], line[4] % 0x100))
  }

  /** As written, protocol 262 passes the check and becomes protocol 6. */
  lemma ConvertHeaderAsWrittenTruncates()
    ensures ConvertHeaderAsWritten([0, 0, 0, 0, 262]) == Ok(D.HeaderTuple(0, 0, 0, 0, 6))
  {
  }

  /**
   * `convertHeader` with the protocol checked against its own 8 bits: a line
   * of at least five fitting values becomes the header of its first five
   * values, in order. The classifiers convert headers through this
   * corrected conversion.
   */
  function ConvertHeader(line: seq<nat>): (r: Result<D.HeaderTuple>)
    ensures r.Ok? <==> (|line| >= 5 && FitsUint(line[0]) && FitsUint(line[1]) &&
      FitsUshort(line[2]) && FitsUshort(line[3]) && FitsUchar(line[4]))
    ensures r.Ok? ==> (r.value == D.HeaderTuple(line[0], line[1], line[2], line[3], line[4]) &&
      D.ValidHeader(r.value))
  {
    if |line| < 5 then Err(ShortHeaderError)
    else if !FitsUint(line[0]) then Err(HeaderError + "ip src exceeds expected size.")
    else if !FitsUint(line[1]) then Err(HeaderError + "ip dst exceeds expected size.")
    else if !FitsUshort(line[2]) then Err(HeaderError + "port src exceeds expected size.")
    else if !FitsUshort(line[3]) then Err(HeaderError + "port dst exceeds expected size.")
    else if !FitsUchar(line[4]) then Err(HeaderError + "protocol exceeds expected size.")
    else Ok(D.HeaderTuple(line[0], line[1], line[2], line[3], line[4]))
  }

  /** On a line whose protocol fits 8 bits, the conversion as written and the corrected one agree. */
  lemma ConvertHeaderAsWrittenAgrees(line: seq<nat>)
    requires ConvertHeader(line).Ok?
    ensures ConvertHeaderAsWritten(line) == ConvertHeader(line)
  {
    SmallMod(line[4], 0x100);
  }

  /** With the corrected check, protocol 262 is refused. */
  lemma ConvertHeaderRefuses262()
    ensures ConvertHeader([0, 0, 0, 0, 262]).Err?
  {
  }
}

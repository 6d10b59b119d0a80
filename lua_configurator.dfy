/**
 * The configuration a benchmark script builds (`Configuration`), and the
 * builder the script's calls reach (`LuaConfigurator`): every call appends
 * to, or sets a field of, the last benchmark defined so far.
 */
module LuaConfiguration {
  import opened BitOps
  import opened GenericAtoms

  /** A distribution for random headers; the floating-point parameters of some are not modelled. */
  datatype Distribution =
    | Constant(value: nat)
    | Uniform(minValue: nat, maxValue: nat)
    | Normal(mean: nat, stddev: nat)
    | Lognormal(m: nat, s: nat)
    | Exponential
    | Cauchy(a: nat)
    | Pareto(offset: nat)

  /** `RandomHeaderConfiguration`: a distribution and a seed per header field. */
  datatype RandomHeaderConfig = RandomHeaderConfig(totalHeaders: nat, outputToFile: bool,
                                                   distributions: seq<Distribution>, seeds: seq<nat>)

  /** A benchmark as the script defines it; a header is its list of field values. */
  datatype Benchmark = Benchmark(caption: string, algFilename: string, algParameter: seq<real>,
                                 fieldStructure: seq<nat>, generateHeaders: bool, headers: seq<seq<nat>>,
                                 rndHeaderConfig: RandomHeaderConfig, rules: RuleSet, amountRuns: nat)

  /** A new benchmark: nothing defined, headers not generated, one run. */
  const NewBenchmark := Benchmark("", "", [], [], false, [], RandomHeaderConfig(0, false, [], []), [], 1)

  /** Every distribution has its seed. */
  predicate LockStep(b: Benchmark)
  {
    |b.rndHeaderConfig.distributions| == |b.rndHeaderConfig.seeds|
  }

  /** Atom k of the rule has the bit width of header field k. */
  predicate RuleFits(rule: Rule, fieldStructure: seq<nat>)
  {
    |rule| <= |fieldStructure| && forall k :: 0 <= k < |rule| ==> rule[k].width == fieldStructure[k]
  }

  /** Every rule's atoms lie on the header fields. */
  predicate AtomsFit(rules: RuleSet, fieldStructure: seq<nat>)
  {
    forall r :: 0 <= r < |rules| ==> RuleFits(rules[r], fieldStructure)
  }

  /** Defining one more field keeps every atom on its field. */
  lemma AtomsFitMoreFields(rules: RuleSet, fieldStructure: seq<nat>, bitsize: nat)
    requires AtomsFit(rules, fieldStructure)
    ensures AtomsFit(rules, fieldStructure + [bitsize])
  {
  }

  /** An atom appended to the last rule with the width of the next field keeps every atom on its field. */
  lemma AtomsFitAddAtom(rules: RuleSet, fieldStructure: seq<nat>, a: RuleAtom)
    requires AtomsFit(rules, fieldStructure) && |rules| > 0
    requires |rules[|rules| - 1]| < |fieldStructure| && a.width == fieldStructure[|rules[|rules| - 1]|]
    ensures AtomsFit(rules[|rules| - 1 := rules[|rules| - 1] + [a]], fieldStructure)
  {
  }

  predicate AtomsFitFields(b: Benchmark)
  {
    AtomsFit(b.rules, b.fieldStructure)
  }

  /** `Configuration`: the path the program was started from and the benchmarks. */
  class Configuration {
    var progRelPath: string
    var benchmarks: seq<Benchmark>

    constructor()
      ensures progRelPath == "" && benchmarks == []
    {
      progRelPath := "";
      benchmarks := [];
    }

    /** `setProgRelativePath`. */
    method SetProgRelativePath(path: string)
      modifies this
      ensures progRelPath == path && benchmarks == old(benchmarks)
    {
      progRelPath := path;
    }

    /** The benchmark `back()` returns. */
    function Last(): (b: Benchmark)
      requires |benchmarks| > 0
      reads this
      ensures b in benchmarks
      ensures Valid() ==> LockStep(b) && AtomsFitFields(b)
    {
      benchmarks[|benchmarks| - 1]
    }

    /** Every benchmark keeps its distributions and seeds in step, and its atoms as wide as their fields. */
    ghost predicate Valid()
      reads this
    {
      forall i :: 0 <= i < |benchmarks| ==> LockStep(benchmarks[i]) && AtomsFitFields(benchmarks[i])
    }
  }

  /** `LuaConfigurator`: the builder, sharing the configuration with its owner. */
  class LuaConfigurator {
    const config: Configuration

    constructor(cfg: Configuration)
      ensures config == cfg
    {
      config := cfg;
    }

    /** The benchmarks with the last one replaced. */
    function WithLast(b: Benchmark): (r: seq<Benchmark>)
      requires |config.benchmarks| > 0
      reads this, config
      ensures |r| == |config.benchmarks| && r[|r| - 1] == b
      ensures forall i :: 0 <= i < |r| - 1 ==> r[i] == config.benchmarks[i]
    {
      config.benchmarks[|config.benchmarks| - 1 := b]
    }

    /** The last benchmark replaced by one that keeps the invariant. */
    method SetLast(b: Benchmark)
      requires |config.benchmarks| > 0 && config.Valid() && LockStep(b) && AtomsFitFields(b)
      modifies config
      ensures config.Valid() && config.progRelPath == old(config.progRelPath)
      ensures config.benchmarks == old(WithLast(b))
    {
      config.benchmarks := WithLast(b);
    }

    /** `addBenchmark`: one more benchmark, with nothing defined yet. */
    method AddBenchmark()
      requires config.Valid()
      modifies config
      ensures config.Valid() && config.progRelPath == old(config.progRelPath)
      ensures config.benchmarks == old(config.benchmarks) + [NewBenchmark]
    {
      config.benchmarks := config.benchmarks + [NewBenchmark];
    }

    /** `setCaption`. */
    method SetCaption(caption: string)
      requires |config.benchmarks| > 0 && config.Valid()
      modifies config
      ensures config.Valid() && config.progRelPath == old(config.progRelPath)
      ensures config.benchmarks == old(WithLast(config.Last().(caption := caption)))
    {
      SetLast(config.Last().(caption := caption));
    }

    /** `setAlgFilename`. */
    method SetAlgFilename(filename: string)
      requires |config.benchmarks| > 0 && config.Valid()
      modifies config
      ensures config.Valid() && config.progRelPath == old(config.progRelPath)
      ensures config.benchmarks == old(WithLast(config.Last().(algFilename := filename)))
    {
      SetLast(config.Last().(algFilename := filename));
    }

    /** `addAlgParameter`: one more parameter for the algorithm. */
    method AddAlgParameter(value: real)
      requires |config.benchmarks| > 0 && config.Valid()
      modifies config
      ensures config.Valid() && config.progRelPath == old(config.progRelPath)
      ensures config.benchmarks == old(WithLast(config.Last().(algParameter := config.Last().algParameter + [value])))
    {
      var b := config.Last();
      SetLast(b.(algParameter := b.algParameter + [value]));
    }

    /** `addFieldStructure`: one more header field of the given bit width. */
    method AddFieldStructure(bitsize: nat)
      requires |config.benchmarks| > 0 && config.Valid()
      modifies config
      ensures config.Valid() && config.progRelPath == old(config.progRelPath)
      ensures config.benchmarks == old(WithLast(config.Last().(fieldStructure := config.Last().fieldStructure + [bitsize])))
    {
      var b := config.Last();
      AtomsFitMoreFields(b.rules, b.fieldStructure, bitsize);
      SetLast(b.(fieldStructure := b.fieldStructure + [bitsize]));
    }

    /** `addRule`: one more rule, with no atoms yet. */
    method AddRule()
      requires |config.benchmarks| > 0 && config.Valid()
      modifies config
      ensures config.Valid() && config.progRelPath == old(config.progRelPath)
      ensures config.benchmarks == old(WithLast(config.Last().(rules := config.Last().rules + [[]])))
    {
      var b := config.Last();
      SetLast(b.(rules := b.rules + [[]]));
    }

    /**
     * The atom a call adds can be placed: there is a rule, and the field
     * its position in the rule stands for is defined.
     */
    predicate CanAddAtom()
      reads this, config
    {
      |config.benchmarks| > 0 && |config.Last().rules| > 0 &&
      |config.Last().rules[|config.Last().rules| - 1]| < |config.Last().fieldStructure|
    }

    /** `_getCurrentAtomWidth`: the bit width of the field the next atom of the last rule belongs to. */
    function CurrentAtomWidth(): (w: nat)
      requires CanAddAtom()
      reads this, config
      ensures w in config.Last().fieldStructure
    {
      var b := config.Last();
      b.fieldStructure[|b.rules[|b.rules| - 1]|]
    }

    /** The last rule with one more atom. */
    function WithAtom(a: RuleAtom): (r: Benchmark)
      requires CanAddAtom()
      reads this, config
      ensures r == config.Last().(rules := r.rules) && |r.rules| == |config.Last().rules|
      ensures r.rules[..|r.rules| - 1] == config.Last().rules[..|r.rules| - 1]
      ensures r.rules[|r.rules| - 1] == config.Last().rules[|r.rules| - 1] + [a]
      ensures LockStep(r) == LockStep(config.Last())
      ensures AtomsFitFields(config.Last()) && a.width == CurrentAtomWidth() ==> AtomsFitFields(r)
    {
      var b := config.Last();
      var top := |b.rules| - 1;
      if AtomsFitFields(b) && a.width == CurrentAtomWidth() then
        AtomsFitAddAtom(b.rules, b.fieldStructure, a);
        b.(rules := b.rules[top := b.rules[top] + [a]])
      else
        b.(rules := b.rules[top := b.rules[top] + [a]])
    }

    /** `addRuleAtomExact`: an exact atom as wide as its field. */
    method AddRuleAtomExact(value: nat)
      requires CanAddAtom() && config.Valid()
      modifies config
      ensures config.Valid() && config.progRelPath == old(config.progRelPath)
      ensures config.benchmarks == old(WithLast(WithAtom(Exact(value, CurrentAtomWidth()))))
    {
      var width := CurrentAtomWidth();
      SetLast(WithAtom(Exact(value, width)));
    }

    /** `addRuleAtomRange`: a range atom as wide as its field. */
    method AddRuleAtomRange(minValue: nat, maxValue: nat)
      requires CanAddAtom() && config.Valid()
      modifies config
      ensures config.Valid() && config.progRelPath == old(config.progRelPath)
      ensures config.benchmarks == old(WithLast(WithAtom(Range(minValue, maxValue, CurrentAtomWidth()))))
    {
      var width := CurrentAtomWidth();
      SetLast(WithAtom(Range(minValue, maxValue, width)));
    }

    /** `addRuleAtomPrefix`: a prefix atom as wide as its field. */
    method AddRuleAtomPrefix(prefix: nat, mask: nat)
      requires CanAddAtom() && config.Valid()
      modifies config
      ensures config.Valid() && config.progRelPath == old(config.progRelPath)
      ensures config.benchmarks == old(WithLast(WithAtom(Prefix(prefix, mask, CurrentAtomWidth()))))
    {
      var width := CurrentAtomWidth();
      SetLast(WithAtom(Prefix(prefix, mask, width)));
    }

    /** `addHeader`: one more header, with no values yet. */
    method AddHeader()
      requires |config.benchmarks| > 0 && config.Valid()
      modifies config
      ensures config.Valid() && config.progRelPath == old(config.progRelPath)
      ensures config.benchmarks == old(WithLast(config.Last().(headers := config.Last().headers + [[]])))
    {
      var b := config.Last();
      SetLast(b.(headers := b.headers + [[]]));
    }

    /** `addHeaderValue`: one more value in the last header. */
    method AddHeaderValue(value: nat)
      requires |config.benchmarks| > 0 && |config.Last().headers| > 0 && config.Valid()
      modifies config
      ensures config.Valid() && config.progRelPath == old(config.progRelPath)
      ensures |config.benchmarks| == old(|config.benchmarks|)
      ensures config.benchmarks[..|config.benchmarks| - 1] == old(config.benchmarks[..|config.benchmarks| - 1])
      ensures var b := old(config.Last()); var top := |b.headers| - 1;
              config.Last() == b.(headers := b.headers[top := b.headers[top] + [value]])
    {
      var b := config.Last();
      var top := |b.headers| - 1;
      SetLast(b.(headers := b.headers[top := b.headers[top] + [value]]));
    }

    /** `setRandomHeaderAmount`: the amount is set, and a positive amount switches header generation on. */
    method SetRandomHeaderAmount(amount: nat)
      requires |config.benchmarks| > 0 && config.Valid()
      modifies config
      ensures config.Valid() && config.progRelPath == old(config.progRelPath)
      ensures |config.benchmarks| == old(|config.benchmarks|)
      ensures config.benchmarks[..|config.benchmarks| - 1] == old(config.benchmarks[..|config.benchmarks| - 1])
      ensures config.Last().rndHeaderConfig == old(config.Last().rndHeaderConfig).(totalHeaders := amount)
      ensures config.Last().generateHeaders == (amount > 0 || old(config.Last().generateHeaders))
      ensures config.Last().(generateHeaders := false, rndHeaderConfig := NewBenchmark.rndHeaderConfig) ==
              old(config.Last()).(generateHeaders := false, rndHeaderConfig := NewBenchmark.rndHeaderConfig)
    {
      var b := config.Last();
      if amount > 0 {
        b := b.(generateHeaders := true);
      }
      SetLast(b.(rndHeaderConfig := b.rndHeaderConfig.(totalHeaders := amount)));
    }

    /** `setRandomHeaderOutput`. */
    method SetRandomHeaderOutput(outputToFile: bool)
      requires |config.benchmarks| > 0 && config.Valid()
      modifies config
      ensures config.Valid() && config.progRelPath == old(config.progRelPath)
      ensures config.benchmarks ==
        old(WithLast(config.Last().(rndHeaderConfig := config.Last().rndHeaderConfig.(outputToFile := outputToFile))))
    {
      var b := config.Last();
      SetLast(b.(rndHeaderConfig := b.rndHeaderConfig.(outputToFile := outputToFile)));
    }

    /** `_pushBackRandomDistribution`: a distribution and its seed, appended together. */
    method PushBackRandomDistribution(seed: nat, dist: Distribution)
      requires |config.benchmarks| > 0 && config.Valid()
      modifies config
      ensures config.Valid() && config.progRelPath == old(config.progRelPath)
      ensures |config.benchmarks| == old(|config.benchmarks|)
      ensures config.benchmarks[..|config.benchmarks| - 1] == old(config.benchmarks[..|config.benchmarks| - 1])
      ensures config.Last().rndHeaderConfig.distributions == old(config.Last().rndHeaderConfig.distributions) + [dist]
      ensures config.Last().rndHeaderConfig.seeds == old(config.Last().rndHeaderConfig.seeds) + [seed]
      ensures config.Last().rndHeaderConfig.totalHeaders == old(config.Last().rndHeaderConfig.totalHeaders)
      ensures config.Last().rndHeaderConfig.outputToFile == old(config.Last().rndHeaderConfig.outputToFile)
      ensures config.Last().(rndHeaderConfig := NewBenchmark.rndHeaderConfig) ==
              old(config.Last()).(rndHeaderConfig := NewBenchmark.rndHeaderConfig)
    {
      var b := config.Last();
      var rnd := b.rndHeaderConfig;
      var rnd' := rnd.(distributions := rnd.distributions + [dist]);
      SetLast(b.(rndHeaderConfig := rnd'.(seeds := rnd.seeds + [seed])));
    }

    /** `addDistributionConstant`: a constant value, with seed 0. */
    method AddDistributionConstant(value: nat)
      requires |config.benchmarks| > 0 && config.Valid()
      modifies config
      ensures config.Valid() && |config.benchmarks| == old(|config.benchmarks|)
      ensures config.progRelPath == old(config.progRelPath)
      ensures config.benchmarks[..|config.benchmarks| - 1] == old(config.benchmarks[..|config.benchmarks| - 1])
      ensures config.Last().rndHeaderConfig.totalHeaders == old(config.Last().rndHeaderConfig.totalHeaders)
      ensures config.Last().rndHeaderConfig.outputToFile == old(config.Last().rndHeaderConfig.outputToFile)
      ensures config.Last().(rndHeaderConfig := NewBenchmark.rndHeaderConfig) ==
              old(config.Last()).(rndHeaderConfig := NewBenchmark.rndHeaderConfig)
      ensures config.Last().rndHeaderConfig.distributions == old(config.Last().rndHeaderConfig.distributions) + [Constant(value)]
      ensures config.Last().rndHeaderConfig.seeds == old(config.Last().rndHeaderConfig.seeds) + [0]
    {
      PushBackRandomDistribution(0, Constant(value));
    }

    /** `addDistributionUniform`. */
    method AddDistributionUniform(seed: nat, minValue: nat, maxValue: nat)
      requires |config.benchmarks| > 0 && config.Valid()
      modifies config
      ensures config.Valid() && |config.benchmarks| == old(|config.benchmarks|)
      ensures config.progRelPath == old(config.progRelPath)
      ensures config.benchmarks[..|config.benchmarks| - 1] == old(config.benchmarks[..|config.benchmarks| - 1])
      ensures config.Last().rndHeaderConfig.totalHeaders == old(config.Last().rndHeaderConfig.totalHeaders)
      ensures config.Last().rndHeaderConfig.outputToFile == old(config.Last().rndHeaderConfig.outputToFile)
      ensures config.Last().(rndHeaderConfig := NewBenchmark.rndHeaderConfig) ==
              old(config.Last()).(rndHeaderConfig := NewBenchmark.rndHeaderConfig)
      ensures config.Last().rndHeaderConfig.distributions ==
              old(config.Last().rndHeaderConfig.distributions) + [Uniform(minValue, maxValue)]
      ensures config.Last().rndHeaderConfig.seeds == old(config.Last().rndHeaderConfig.seeds) + [seed]
    {
      PushBackRandomDistribution(seed, Uniform(minValue, maxValue));
    }

    /** `addDistributionNormal`. */
    method AddDistributionNormal(seed: nat, mean: nat, stddev: nat)
      requires |config.benchmarks| > 0 && config.Valid()
      modifies config
      ensures config.Valid() && |config.benchmarks| == old(|config.benchmarks|)
      ensures config.progRelPath == old(config.progRelPath)
      ensures config.benchmarks[..|config.benchmarks| - 1] == old(config.benchmarks[..|config.benchmarks| - 1])
      ensures config.Last().rndHeaderConfig.totalHeaders == old(config.Last().rndHeaderConfig.totalHeaders)
      ensures config.Last().rndHeaderConfig.outputToFile == old(config.Last().rndHeaderConfig.outputToFile)
      ensures config.Last().(rndHeaderConfig := NewBenchmark.rndHeaderConfig) ==
              old(config.Last()).(rndHeaderConfig := NewBenchmark.rndHeaderConfig)
      ensures config.Last().rndHeaderConfig.distributions ==
              old(config.Last().rndHeaderConfig.distributions) + [Normal(mean, stddev)]
      ensures config.Last().rndHeaderConfig.seeds == old(config.Last().rndHeaderConfig.seeds) + [seed]
    {
      PushBackRandomDistribution(seed, Normal(mean, stddev));
    }

    /** `addDistributionLognormal`. */
    method AddDistributionLognormal(seed: nat, m: nat, s: nat)
      requires |config.benchmarks| > 0 && config.Valid()
      modifies config
      ensures config.Valid() && |config.benchmarks| == old(|config.benchmarks|)
      ensures config.progRelPath == old(config.progRelPath)
      ensures config.benchmarks[..|config.benchmarks| - 1] == old(config.benchmarks[..|config.benchmarks| - 1])
      ensures config.Last().rndHeaderConfig.totalHeaders == old(config.Last().rndHeaderConfig.totalHeaders)
      ensures config.Last().rndHeaderConfig.outputToFile == old(config.Last().rndHeaderConfig.outputToFile)
      ensures config.Last().(rndHeaderConfig := NewBenchmark.rndHeaderConfig) ==
              old(config.Last()).(rndHeaderConfig := NewBenchmark.rndHeaderConfig)
      ensures config.Last().rndHeaderConfig.distributions ==
              old(config.Last().rndHeaderConfig.distributions) + [Lognormal(m, s)]
      ensures config.Last().rndHeaderConfig.seeds == old(config.Last().rndHeaderConfig.seeds) + [seed]
    {
      PushBackRandomDistribution(seed, Lognormal(m, s));
    }

    /** `addDistributionExponential`; the rate, a `double`, is not modelled. */
    method AddDistributionExponential(seed: nat)
      requires |config.benchmarks| > 0 && config.Valid()
      modifies config
      ensures config.Valid() && |config.benchmarks| == old(|config.benchmarks|)
      ensures config.progRelPath == old(config.progRelPath)
      ensures config.benchmarks[..|config.benchmarks| - 1] == old(config.benchmarks[..|config.benchmarks| - 1])
      ensures config.Last().rndHeaderConfig.totalHeaders == old(config.Last().rndHeaderConfig.totalHeaders)
      ensures config.Last().rndHeaderConfig.outputToFile == old(config.Last().rndHeaderConfig.outputToFile)
      ensures config.Last().(rndHeaderConfig := NewBenchmark.rndHeaderConfig) ==
              old(config.Last()).(rndHeaderConfig := NewBenchmark.rndHeaderConfig)
      ensures config.Last().rndHeaderConfig.distributions ==
              old(config.Last().rndHeaderConfig.distributions) + [Exponential]
      ensures config.Last().rndHeaderConfig.seeds == old(config.Last().rndHeaderConfig.seeds) + [seed]
    {
      PushBackRandomDistribution(seed, Exponential);
    }

    /** `addDistributionCauchy`; the scale, a `double`, is not modelled. */
    method AddDistributionCauchy(seed: nat, a: nat)
      requires |config.benchmarks| > 0 && config.Valid()
      modifies config
      ensures config.Valid() && |config.benchmarks| == old(|config.benchmarks|)
      ensures config.progRelPath == old(config.progRelPath)
      ensures config.benchmarks[..|config.benchmarks| - 1] == old(config.benchmarks[..|config.benchmarks| - 1])
      ensures config.Last().rndHeaderConfig.totalHeaders == old(config.Last().rndHeaderConfig.totalHeaders)
      ensures config.Last().rndHeaderConfig.outputToFile == old(config.Last().rndHeaderConfig.outputToFile)
      ensures config.Last().(rndHeaderConfig := NewBenchmark.rndHeaderConfig) ==
              old(config.Last()).(rndHeaderConfig := NewBenchmark.rndHeaderConfig)
      ensures config.Last().rndHeaderConfig.distributions ==
              old(config.Last().rndHeaderConfig.distributions) + [Cauchy(a)]
      ensures config.Last().rndHeaderConfig.seeds == old(config.Last().rndHeaderConfig.seeds) + [seed]
    {
      PushBackRandomDistribution(seed, Cauchy(a));
    }

    /** `addDistributionPareto`; scale and shape, `double` values, are not modelled. */
    method AddDistributionPareto(seed: nat, offset: nat)
      requires |config.benchmarks| > 0 && config.Valid()
      modifies config
      ensures config.Valid() && |config.benchmarks| == old(|config.benchmarks|)
      ensures config.progRelPath == old(config.progRelPath)
      ensures config.benchmarks[..|config.benchmarks| - 1] == old(config.benchmarks[..|config.benchmarks| - 1])
      ensures config.Last().rndHeaderConfig.totalHeaders == old(config.Last().rndHeaderConfig.totalHeaders)
      ensures config.Last().rndHeaderConfig.outputToFile == old(config.Last().rndHeaderConfig.outputToFile)
      ensures config.Last().(rndHeaderConfig := NewBenchmark.rndHeaderConfig) ==
              old(config.Last()).(rndHeaderConfig := NewBenchmark.rndHeaderConfig)
      ensures config.Last().rndHeaderConfig.distributions ==
              old(config.Last().rndHeaderConfig.distributions) + [Pareto(offset)]
      ensures config.Last().rndHeaderConfig.seeds == old(config.Last().rndHeaderConfig.seeds) + [seed]
    {
      PushBackRandomDistribution(seed, Pareto(offset));
    }

    /** `setAmountRuns`. */
    method SetAmountRuns(amount: nat)
      requires |config.benchmarks| > 0 && config.Valid()
      modifies config
      ensures config.Valid() && config.progRelPath == old(config.progRelPath)
      ensures config.benchmarks == old(WithLast(config.Last().(amountRuns := amount)))
    {
      SetLast(config.Last().(amountRuns := amount));
    }

    /** `makeFullRelativePath`: the postfix, read relative to the program's directory. */
    method MakeFullRelativePath(postfix: string) returns (result: string)
      ensures |result| == |config.progRelPath| + |postfix|
      ensures result[..|config.progRelPath|] == config.progRelPath && result[|config.progRelPath|..] == postfix
    {
      result := config.progRelPath + postfix;
    }
  }

  /** The first benchmark of the two-benchmark test, set up on an empty configuration. */
  method SetUpFirstOfTwo(lua: LuaConfigurator)
    requires lua.config.Valid() && lua.config.benchmarks == []
    modifies lua.config
    ensures lua.config.Valid()
    ensures lua.config.benchmarks == [NewBenchmark.(caption := "first benchmark", algFilename := "file/one.so", algParameter := [0.4, 42.0, 123.456])]
  {
    lua.AddBenchmark();
    lua.SetCaption("first benchmark");
    lua.SetAlgFilename("file/one.so");
    assert lua.config.benchmarks == [NewBenchmark.(caption := "first benchmark", algFilename := "file/one.so")];
    lua.AddAlgParameter(0.4);
    lua.AddAlgParameter(42.0);
    lua.AddAlgParameter(123.456);
    assert lua.config.benchmarks[0].algParameter == [0.4, 42.0, 123.456];
  }

  /**
   * The test of two benchmarks: the settings of the second leave the first
   * as it was set.
   */
  method TwoBenchmarks() returns (first: Benchmark, second: Benchmark)
    ensures first == NewBenchmark.(caption := "first benchmark", algFilename := "file/one.so", algParameter := [0.4, 42.0, 123.456])
    ensures second == NewBenchmark.(caption := "second benchmark", algFilename := "file/sub/two.so", algParameter := [99.11])
  {
    var cfg := new Configuration();
    var lua := new LuaConfigurator(cfg);
    SetUpFirstOfTwo(lua);
    lua.AddBenchmark();
    lua.SetCaption("second benchmark");
    lua.SetAlgFilename("file/sub/two.so");
    lua.AddAlgParameter(99.11);
    first, second := cfg.benchmarks[0], cfg.benchmarks[1];
  }

  /** The relative-path test: the path of the program's directory is put in front. */
  method RelativePaths() returns (a: string, b: string)
    ensures a == "some example STRING" && b == "./sub/folder/deep/justAWordLong"
  {
    var cfg := new Configuration();
    var lua := new LuaConfigurator(cfg);
    a := lua.MakeFullRelativePath("some example STRING");
    cfg.SetProgRelativePath("./sub/folder/deep/");
    b := lua.MakeFullRelativePath("justAWordLong");
  }
}

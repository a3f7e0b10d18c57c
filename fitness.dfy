/** The fitness of one individual: `eval_one_max` (fishbuilder.py, lines 90-97). */
module Fitness {
  import opened Wrappers
  import opened Text
  import opened Bench
  import opened Catalog
  import opened Genome

  /** Python's `max` of a non-empty list of samples. */
  function Max(samples: seq<nat>): (m: nat)
    requires samples != []
    ensures m in samples
    ensures forall i :: 0 <= i < |samples| ==> samples[i] <= m
  {
    if |samples| == 1 then samples[0]
    else
      var rest := Max(samples[1..]);
      if samples[0] >= rest then samples[0] else rest
  }

  /** The decision of `eval_one_max`, given whether the build left an
      executable and the text that the bench runs of that executable printed:
      the fitness is the best sample of the runs, or 0 when the build
      produced nothing. An empty
      sample list raises `ValueError` from `max`; a marker line without
      digits raises it from `int`. */
  function Score(built: bool, benchOutput: seq<string>): (r: Result<seq<nat>>)
    ensures r.Ok? ==> |r.value| == 1
  {
    if !built then Ok([0])
    else
      match BenchLog(benchOutput)
      case Err(e) => Err(e)
      case Ok(samples) => if samples == [] then Err(ValueError) else Ok([Max(samples)])
  }

  /** A failed build scores exactly 0 and never raises. */
  lemma FailedBuildScoresZero(benchOutput: seq<string>)
    ensures Score(false, benchOutput) == Ok([0])
  {
  }

  /** After a successful build whose runs gave samples, the fitness is the
      best sample: no sample exceeds it and it is one of them. */
  lemma FitnessIsBestSample(benchOutput: seq<string>, samples: seq<nat>)
    requires BenchLog(benchOutput) == Ok(samples)
    requires samples != []
    ensures Score(true, benchOutput).Ok?
    ensures var f := Score(true, benchOutput).value[0];
      f in samples && forall i :: 0 <= i < |samples| ==> samples[i] <= f
  {
  }

  /** After a successful build, the decision raises exactly when parsing the
      bench output raises or the output has no marker line; either way the
      error is `ValueError`. */
  lemma ScoreRaisesIff(benchOutput: seq<string>)
    ensures Score(true, benchOutput).Err? <==>
      (BenchLog(benchOutput).Err? || MarkerLines(benchOutput) == [])
    ensures Score(true, benchOutput).Err? ==> Score(true, benchOutput).error == ValueError
  {
    BenchLogSpec(benchOutput);
  }

  /** A successful build whose runs printed no marker line raises instead of
      scoring: the failure is surfaced, not turned into a fitness. */
  lemma NoSampleRaises(benchOutput: seq<string>)
    requires forall i :: 0 <= i < |benchOutput| ==> !Contains(benchOutput[i], Marker)
    ensures Score(true, benchOutput) == Err(ValueError)
  {
    BenchLogSpec(benchOutput);
    MarkerLinesNone(benchOutput);
  }

  /** Whatever the runs report, the fitness is the largest report. */
  lemma FitnessOfReports(ns: seq<nat>)
    requires ns != []
    ensures Score(true, Reports(ns)) == Ok([Max(ns)])
  {
    ReportsSamples(ns);
  }

  /** Three runs reporting 900, 1000 and 950 nodes per
      second give the fitness 1000. */
  lemma BestOfThreeRuns(ns: seq<nat>)
    requires ns == [900, 1000, 950]
    ensures Score(true, Reports(ns)) == Ok([1000])
  {
    FitnessOfReports(ns);
    assert Max(ns) == 1000;
  }

  /** `eval_one_max(individual)`: decode the genome, build with the decoded
      arguments, then score. The toolchain and the bench runs are outside the
      model: `builds` tells whether a build with given arguments leaves an
      executable, `benchOutput` what the three bench runs of it print. */
  function EvalOneMax(options: seq<Group>, individual: seq<int>,
                      builds: seq<string> -> bool,
                      benchOutput: seq<string> -> seq<string>): (r: Result<seq<nat>>)
    ensures r.Ok? ==> |r.value| == 1
  {
    match Decode(options, individual)
    case Err(e) => Err(e)
    case Ok(arguments) => Score(builds(arguments), benchOutput(arguments))
  }

  /** Evaluating a genome raises exactly when decoding raises, with
      `IndexError`, or when the build succeeds and scoring its bench output
      raises, with `ValueError`. */
  lemma EvalOneMaxRaisesIff(options: seq<Group>, individual: seq<int>,
                            builds: seq<string> -> bool,
                            benchOutput: seq<string> -> seq<string>)
    ensures var r := EvalOneMax(options, individual, builds, benchOutput);
      r.Err? <==>
        (!Indexable(options, individual)
         || (Decode(options, individual).Ok?
             && builds(Decode(options, individual).value)
             && Score(true, benchOutput(Decode(options, individual).value)).Err?))
    ensures var r := EvalOneMax(options, individual, builds, benchOutput);
      r.Err? ==> r.error == (if Indexable(options, individual) then ValueError else IndexError)
  {
    DecodeSucceedsIff(options, individual);
    if Indexable(options, individual) {
      ScoreRaisesIff(benchOutput(Decode(options, individual).value));
    }
  }

  /** A valid genome whose selected flags make the build fail scores exactly 0. */
  lemma FailedBuildScoresZeroForGenome(options: seq<Group>, individual: seq<int>,
                                       builds: seq<string> -> bool,
                                       benchOutput: seq<string> -> seq<string>)
    requires ValidGenome(options, individual)
    requires !builds(Present(Chosen(options, individual)))
    ensures EvalOneMax(options, individual, builds, benchOutput) == Ok([0])
  {
    DecodeMatchesReference(options, individual);
  }

  /** A toolchain that rejects the second choice of
      the first group: genes `[2, 0]` score 0, genes `[1, 0]` score what
      their run reports. */
  lemma RejectedFlagScenario(n: nat)
    requires n > 0
    ensures var options := [[None, Some("-flagA1"), Some("-flagA2")], [None, Some("-flagB1")]];
      var builds := (arguments: seq<string>) => "-flagA2" !in arguments;
      var benchOutput := (arguments: seq<string>) => Reports([n]);
      EvalOneMax(options, [2, 0], builds, benchOutput) == Ok([0])
      && EvalOneMax(options, [1, 0], builds, benchOutput) == Ok([n])
  {
    var options := [[None, Some("-flagA1"), Some("-flagA2")], [None, Some("-flagB1")]];
    DecodeMatchesReference(options, [2, 0]);
    DecodeMatchesReference(options, [1, 0]);
    var c2 := Chosen(options, [2, 0]);
    assert c2 == [Some("-flagA2"), None];
    assert c2[1..][1..] == [];
    assert Present(c2) == ["-flagA2"];
    var c1 := Chosen(options, [1, 0]);
    assert c1 == [Some("-flagA1"), None];
    assert c1[1..][1..] == [];
    assert Present(c1) == ["-flagA1"];
    FitnessOfReports([n]);
  }
}

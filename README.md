# fishbuilder: flag catalog, genome decoding, bench parsing and fitness

fishbuilder tunes the GCC flags used to build the Stockfish chess engine with
a genetic algorithm. A genome is a list of integers, one per *flag group*.
A flag group is one line of `gcc_options.txt`: the alternative arguments for
one tunable dimension, preceded by `None`, the choice of passing no flag.
Evaluating a genome decodes it into compiler arguments, builds Stockfish with
them and runs `stockfish bench` three times. The `Nodes/second` figure of each
run is one sample, and the fitness is the best sample, or 0 when the build
produced no executable.

This project models the logic of that pipeline that does no I/O:

- `Catalog` reads the lines of `gcc_options.txt` into flag groups. Each line
  is stripped of newlines and split on single spaces, and `None` is put in
  front.
- `Genome` covers decoding (`individual_to_parameters`) with Python's
  subscript semantics, and the range of the gene generators registered in
  `launch_ga`.
- `Bench` covers the loop of `bench_engine` that turns the captured output
  lines into samples.
- `Fitness` covers the decision of `eval_one_max`, and the whole of
  `eval_one_max` with the toolchain and the bench runs as parameters.
- `Text` holds the Python string operations these rely on: `str.strip`,
  `str.split`, a literal `re.search`, `re.sub('[^0-9]', '', …)` and `int`
  on a digit string. It also defines `Join` (Python's `str.join`), which the
  modelled code does not call: it is the inverse used to state the round
  trip of `Split`.
- `Wrappers` holds `Option`, `Result` and the two Python exceptions that
  can occur, `IndexError` and `ValueError`.

The loops of the source are methods proved equal to specification functions:
`Catalog.LoadOptions`, `Genome.IndividualToParameters`,
`Genome.RegisterAttributes` and `Bench.ParseBenchOutput`. The lemmas state
what those functions promise. Where the Python code raises, the model returns
`Err`, and the lemmas say exactly when that happens: `Genome.DecodeSucceedsIff`,
`Bench.BenchLogSpec`, `Fitness.ScoreRaisesIff` and `Fitness.EvalOneMaxRaisesIff`.

Two behaviours of the code are worth stating:

- The catalog is split on single spaces (`line.split(' ')`), so two
  consecutive spaces give an empty alternative, which is kept
  (`Catalog.DoubleSpaceKeepsEmptyAlternative`).
- A bench output without samples makes `max` raise `ValueError`, and a
  marker line without digits makes `int('')` raise it. The model returns
  that error (`Fitness.ScoreRaisesIff`).

## Model

| member | source | states |
|---|---|---|
| Text.StripLeadingSpec | fishbuilder.py:37 | `strip('\n')` removes exactly the leading run of newlines; what remains is a suffix of the line that does not start with a newline |
| Text.StripTrailingSpec | fishbuilder.py:37 | `strip('\n')` removes exactly the trailing run of newlines; what remains is a prefix of the line that does not end with a newline |
| Text.StripIsTrimmedMiddle | fishbuilder.py:37 | the stripped line is a contiguous middle part of the line; everything cut off on either side is a newline, and the result neither starts nor ends with one |
| Text.StripReadLine | fishbuilder.py:36-37 | a line as `readlines` returns it, with or without its final newline, strips to its text |
| Text.SplitPiecesAvoidSep | fishbuilder.py:39 | no piece of `split(' ')` contains a space |
| Text.SplitCount | fishbuilder.py:39 | `split(' ')` yields one more piece than the line has spaces, so at least one piece |
| Text.JoinSplit | fishbuilder.py:39 | splitting loses nothing: joining the pieces with the separator gives the string back |
| Text.SplitJoin | fishbuilder.py:39 | joining space-free pieces and splitting again gives the same pieces back |
| Text.ContainsIff | fishbuilder.py:72 | the marker search succeeds exactly when some window of the line equals the marker |
| Text.KeepDigitsAppend | fishbuilder.py:74 | deleting non-digits works piece by piece and keeps the digits in order |
| Text.KeepDigitsOfDigits | fishbuilder.py:74 | a string of digits is left unchanged |
| Text.KeepDigitsOfNonDigits | fishbuilder.py:74 | a string without digits is deleted entirely |
| Text.DecimalOfNatToDigits | fishbuilder.py:75 | `int` reads back the decimal spelling of any number |
| Text.DecimalLeadingZero | fishbuilder.py:75 | leading zeros do not change the value `int` reads |
| Catalog.LoadOptions | fishbuilder.py:35-39 | the loading loop produces exactly the parsed catalog of the lines |
| Catalog.ParseCatalogLines | fishbuilder.py:38-39 | the catalog has exactly one group per line, in file order, and group `i` is `[None] + line_i.strip('\n').split(' ')` |
| Catalog.ParseLineShape | fishbuilder.py:39 | every group has the sentinel `None` at index 0 and at least one alternative after it; no alternative is `None`, and none contains a space |
| Catalog.CatalogWellFormed | fishbuilder.py:35-39 | every catalog read from any file has that shape in every group |
| Catalog.GroupSize | fishbuilder.py:39 | a group has two entries more than its stripped line has spaces |
| Catalog.ParseLineKeepsText | fishbuilder.py:37-39 | the alternatives of a group, joined with single spaces, give back the stripped line |
| Catalog.ParseFormattedLine | fishbuilder.py:35-39 | a line written from alternatives without spaces or newlines parses back to exactly those alternatives after the sentinel |
| Catalog.DoubleSpaceKeepsEmptyAlternative | fishbuilder.py:39 | `"-O2  -O3\n"` gives `[None, "-O2", "", "-O3"]`, so consecutive spaces give an empty alternative |
| Genome.PyIndex | fishbuilder.py:84 | a Python subscript succeeds exactly for indices from `-len` to `len - 1`, and a non-negative index selects that element |
| Genome.Decode | fishbuilder.py:81-86 | decoding emits at most one argument per gene |
| Genome.IndividualToParameters | fishbuilder.py:81-86 | the decoding loop, including its early `IndexError`, computes `Decode` |
| Genome.DecodeErrorPersists | fishbuilder.py:83-85 | once a prefix of the genome raises, decoding the whole genome raises the same error |
| Genome.DecodeSucceedsIff | fishbuilder.py:83-85 | decoding raises exactly when the genome is longer than the catalog or some gene is out of Python range for its group, and the error is `IndexError` |
| Genome.DecodeMatchesReference | fishbuilder.py:81-86 | on in-range genes, decoding equals the reference reading: each group's selected entry in group order, with the `None` sentinels dropped |
| Genome.PresentAppend | fishbuilder.py:83-85 | dropping sentinels works piece by piece and keeps order |
| Genome.PresentLength | fishbuilder.py:84-85 | at most one argument is emitted per choice |
| Genome.PresentMember | fishbuilder.py:84-85 | an argument is emitted exactly when some choice selects it |
| Genome.PresentOfSentinels | fishbuilder.py:84 | sentinel choices emit nothing |
| Genome.DecodeValidGenome | fishbuilder.py:81-86 | a valid genome always decodes, to at most one argument per gene, and an argument appears exactly when some gene selects it in its group |
| Genome.DecodeKeepsGroupOrder | fishbuilder.py:83-86 | the arguments of the first `k` groups come before those of the rest, so output order is group order |
| Genome.DecodeAllSentinels | fishbuilder.py:84 | an all-zero genome on any parsed-shape catalog decodes to the empty list |
| Genome.DecodeExample | fishbuilder.py:81-86 | on the two-group example, genes `[2, 1]` give `["-flagA2", "-flagB1"]` and genes `[0, 0]` give `[]` |
| Genome.RegisterAttributes | fishbuilder.py:108-111 | the registration loop gives one generator per group, in order, each drawing `randint(0, len(group) - 1)` |
| Genome.DrawableIffValid | fishbuilder.py:109-113 | the genomes `initCycle` can draw from those generators are exactly the valid genomes |
| Genome.RangesOfParsedCatalog | fishbuilder.py:39 | on a parsed catalog each generator's range starts at 0 and reaches at least 1, so `randint` never gets an empty range |
| Genome.DrawnGenomeDecodes | fishbuilder.py:84 | a genome drawn for a catalog read from any file decodes without `IndexError` |
| Bench.Sample | fishbuilder.py:74-75 | reading a marker line raises `ValueError` exactly when the line has no digit |
| Bench.BenchLog | fishbuilder.py:70-75 | there are never more samples than output lines |
| Bench.ParseBenchOutput | fishbuilder.py:70-75 | the parse loop, including the early `ValueError`, computes `BenchLog` |
| Bench.BenchLogErrorPersists | fishbuilder.py:74-75 | once a line raises, the whole parse raises |
| Bench.MarkerLinesAppend | fishbuilder.py:71-73 | selecting the marker lines works piece by piece and keeps order |
| Bench.MarkerLinesNone | fishbuilder.py:71-73 | output without the marker has no marker lines |
| Bench.MarkerLinesBound | fishbuilder.py:71-73 | there are no more marker lines than lines, and each one is a line of the output that contains the marker |
| Bench.BenchLogSpec | fishbuilder.py:70-75 | parsing fails exactly when some marker line has no digit, and the error is `ValueError`; otherwise there is one sample per marker line, in line order, each being the number spelled by all the digits of its line |
| Bench.BenchLogAppend | fishbuilder.py:71-75 | the samples of two stretches of output are those of the first followed by those of the second |
| Bench.SampleOfPrintedNumber | fishbuilder.py:74-75 | a line holding a number between text without digits yields exactly that number |
| Bench.ReportHasMarker | fishbuilder.py:72-73 | Stockfish's `Nodes/second    : N` line holds the marker |
| Bench.ReportSample | fishbuilder.py:72-75 | Stockfish's `Nodes/second    : N` line, as the only output, yields exactly the sample `N` |
| Bench.ReportsSamples | fishbuilder.py:71-75 | the report lines of several runs yield their numbers, in run order |
| Fitness.Max | fishbuilder.py:93 | `max` of the samples is one of them and no sample exceeds it |
| Fitness.Score | fishbuilder.py:92-97 | when the decision does not raise, the result is a one-element list |
| Fitness.FailedBuildScoresZero | fishbuilder.py:92-96 | a failed build scores exactly `[0]` and never raises |
| Fitness.FitnessIsBestSample | fishbuilder.py:92-93 | after a successful build with samples, the fitness is one of the samples and no sample exceeds it |
| Fitness.ScoreRaisesIff | fishbuilder.py:92-96 | after a successful build the decision raises exactly when parsing the bench output raises or the output has no marker line, and the error is always `ValueError` |
| Fitness.EvalOneMaxRaisesIff | fishbuilder.py:90-97 | evaluating a genome raises exactly when decoding raises (`IndexError`), or when the build succeeds and scoring its bench output raises (`ValueError`) |
| Fitness.NoSampleRaises | fishbuilder.py:93 | a successful build whose runs print no marker line raises `ValueError` rather than scoring |
| Fitness.FitnessOfReports | fishbuilder.py:93 | whatever numbers the runs report, the fitness is the largest of them |
| Fitness.BestOfThreeRuns | fishbuilder.py:93 | runs reporting 900, 1000 and 950 give the fitness 1000 |
| Fitness.EvalOneMax | fishbuilder.py:90-97 | decoding, building and scoring a genome, when it does not raise, gives a one-element list |
| Fitness.FailedBuildScoresZeroForGenome | fishbuilder.py:90-96 | a valid genome whose selected flags make the build fail scores exactly `[0]` |
| Fitness.RejectedFlagScenario | fishbuilder.py:90-97 | with a toolchain that rejects `-flagA2`, genes `[2, 0]` score 0 and genes `[1, 0]` score what their run reports |

## Left out

- `build` and `profile_build` (fishbuilder.py:43-59) run g++ and the profiling run as subprocesses. Here a build is a parameter: a function that tells whether a build with given arguments leaves an executable.
- The sampling loop of `bench_engine` (fishbuilder.py:64-68) runs the engine in subprocesses and captures its output in a temporary file. Here the captured lines are a parameter.
- Reading `gcc_options.txt` with `readlines` is not modelled. The lines are given as they would be returned, and `Text.StripReadLine` covers their final newline.
- `Fitness.Score`: removing the executable after benchmarking (fishbuilder.py:94) is file I/O and is not modelled.
- `launch_ga` (fishbuilder.py:101-139) is modelled only as far as its gene generators. DEAP's `eaSimple`, `selTournament`, `cxTwoPoint`, `mutFlipBit` and `HallOfFame` are library code that is not part of this model, and they are driven by randomness. The code registers `mutFlipBit`; mutation is not modelled, so no claim is made that mutated genomes stay valid.
- `Genome.Drawable` encodes what DEAP's `initCycle` does with the registered generators (one draw per generator, in order). The library code is not part of this model, so that behaviour is an assumption of the model.
- `Fitness.EvalOneMax` takes the bench output as a function of the decoded arguments, so in the model two evaluations of the same genome agree; in the program the measurement is noisy and two runs may differ.
- The `multiprocessing.Pool(3)` map (fishbuilder.py:120-121) exists only for concurrency.
- The numpy statistics (fishbuilder.py:125-129) and the percentage in `flag_test` (fishbuilder.py:158) are floating-point arithmetic.
- Writing `best_fit.txt`, downloading and unzipping the source and changing directory (fishbuilder.py:134-137, 163-187) are file and network I/O.
- Determinism of decoding needs no lemma of its own: `Decode` is a function of the catalog and the genome.

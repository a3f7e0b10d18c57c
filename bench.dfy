/** Reading throughput samples from the output of `stockfish bench`: the parse
    loop of `bench_engine` (fishbuilder.py, lines 70-75). */
module Bench {
  import opened Wrappers
  import opened Text

  /** The text that marks the throughput line of a bench run. */
  const Marker: string := "Nodes/second"

  /** `int(re.sub('[^0-9]', '', line))`: the number spelled by all the digits
      of the line; a line without digits makes `int('')` raise `ValueError`. */
  function Sample(line: string): (r: Result<nat>)
    ensures r.Err? <==> KeepDigits(line) == []
    ensures r.Err? ==> r.error == ValueError
  {
    var digits := KeepDigits(line);
    if digits == [] then Err(ValueError) else Ok(DecimalValue(digits))
  }

  /** `bench_log` after the loop has seen `content`. */
  function BenchLog(content: seq<string>): (r: Result<seq<nat>>)
    ensures r.Ok? ==> |r.value| <= |content|
  {
    if content == [] then Ok([])
    else
      match BenchLog(content[..|content| - 1])
      case Err(e) => Err(e)
      case Ok(log) =>
        var line := content[|content| - 1];
        if !Contains(line, Marker) then Ok(log)
        else
          match Sample(line)
          case Err(e) => Err(e)
          case Ok(v) => Ok(log + [v])
  }

  /** The loop over the captured output lines. */
  method ParseBenchOutput(content: seq<string>) returns (r: Result<seq<nat>>)
    ensures r == BenchLog(content)
  {
    var benchLog := [];
    var k := 0;
    while k < |content|
      invariant 0 <= k <= |content|
      invariant BenchLog(content[..k]) == Ok(benchLog)
    {
      var line := content[k];
      assert content[..k + 1][..k] == content[..k];
      if Contains(line, Marker) {
        var digits := KeepDigits(line);
        if digits == [] {
          BenchLogErrorPersists(content, k + 1);
          return Err(ValueError);
        }
        benchLog := benchLog + [DecimalValue(digits)];
      }
      k := k + 1;
    }
    assert content[..k] == content;
    r := Ok(benchLog);
  }

  /** Once a line raises, the whole parse raises the same error. */
  lemma {:induction false} BenchLogErrorPersists(content: seq<string>, k: nat)
    requires k <= |content|
    requires BenchLog(content[..k]).Err?
    ensures BenchLog(content) == BenchLog(content[..k])
    decreases |content| - k
  {
    if k < |content| {
      var n := |content| - 1;
      assert content[..n][..k] == content[..k];
      BenchLogErrorPersists(content[..n], k);
    } else {
      assert content[..k] == content;
    }
  }

  /** The lines that hold the marker, in their original order. */
  function MarkerLines(content: seq<string>): seq<string>
  {
    if content == [] then []
    else (if Contains(content[0], Marker) then [content[0]] else []) + MarkerLines(content[1..])
  }

  lemma {:induction false} MarkerLinesAppend(a: seq<string>, b: seq<string>)
    ensures MarkerLines(a + b) == MarkerLines(a) + MarkerLines(b)
  {
    if a != [] {
      assert (a + b)[0] == a[0];
      assert (a + b)[1..] == a[1..] + b;
      MarkerLinesAppend(a[1..], b);
    } else {
      assert a + b == b;
    }
  }

  /** Output without a marker line has no marker lines. */
  lemma {:induction false} MarkerLinesNone(content: seq<string>)
    requires forall i :: 0 <= i < |content| ==> !Contains(content[i], Marker)
    ensures MarkerLines(content) == []
  {
    if content != [] {
      MarkerLinesNone(content[1..]);
    }
  }

  /** Only lines of the output are marker lines, so there are never more of
      them than lines. */
  lemma {:induction false} MarkerLinesBound(content: seq<string>)
    ensures |MarkerLines(content)| <= |content|
    ensures forall l :: l in MarkerLines(content) ==> l in content && Contains(l, Marker)
  {
    if content != [] {
      MarkerLinesBound(content[1..]);
    }
  }

  /** The parse fails exactly when some marker line has no digit; otherwise it
      yields one sample per marker line, in order, each the number spelled by
      that line's digits. */
  lemma {:induction false} BenchLogSpec(content: seq<string>)
    ensures BenchLog(content).Ok? <==>
      forall i :: 0 <= i < |content| && Contains(content[i], Marker) ==> KeepDigits(content[i]) != []
    ensures BenchLog(content).Err? ==> BenchLog(content).error == ValueError
    ensures BenchLog(content).Ok? ==>
      var log := BenchLog(content).value;
      var lines := MarkerLines(content);
      |log| == |lines|
      && forall k :: 0 <= k < |log| ==>
        KeepDigits(lines[k]) != [] && log[k] == DecimalValue(KeepDigits(lines[k]))
  {
    if content != [] {
      var n := |content| - 1;
      var init := content[..n];
      var line := content[n];
      BenchLogSpec(init);
      assert content == init + [line];
      assert forall i :: 0 <= i < n ==> content[i] == init[i];
      MarkerLinesAppend(init, [line]);
      assert MarkerLines([line]) == if Contains(line, Marker) then [line] else [];
    }
  }

  /** Parsing works run by run: the samples of two stretches of output are
      the samples of the first followed by those of the second. */
  lemma {:induction false} BenchLogAppend(a: seq<string>, b: seq<string>)
    requires BenchLog(a).Ok? && BenchLog(b).Ok?
    ensures BenchLog(a + b) == Ok(BenchLog(a).value + BenchLog(b).value)
  {
    if b != [] {
      var n := |b| - 1;
      assert (a + b)[..|a| + n] == a + b[..n];
      assert (a + b)[|a| + n] == b[n];
      assert BenchLog(b[..n]).Ok?;
      BenchLogAppend(a, b[..n]);
      var left := BenchLog(a).value;
      var mid := BenchLog(b[..n]).value;
      if Contains(b[n], Marker) {
        var v := Sample(b[n]).value;
        assert BenchLog(b).value == mid + [v];
        assert BenchLog(a + b) == Ok(left + mid + [v]);
        assert left + mid + [v] == left + (mid + [v]);
      } else {
        assert BenchLog(b).value == mid;
        assert BenchLog(a + b) == Ok(left + mid);
      }
    } else {
      assert a + b == a;
      assert BenchLog(a).value + [] == BenchLog(a).value;
    }
  }

  /** A line holding a number between text without digits yields that number. */
  lemma SampleOfPrintedNumber(before: string, n: nat, after: string)
    requires KeepDigits(before) == [] && KeepDigits(after) == []
    ensures Sample(before + NatToDigits(n) + after) == Ok(n)
  {
    var d := NatToDigits(n);
    KeepDigitsAppend(before + d, after);
    KeepDigitsAppend(before, d);
    KeepDigitsOfDigits(d);
    assert KeepDigits(before + d + after) == d;
    DecimalOfNatToDigits(n);
  }

  /** The label of the throughput line Stockfish prints at the end of a bench run. */
  const ReportLabel: string := "Nodes/second    : "

  /** The throughput line itself. */
  function Report(n: nat): string
  {
    ReportLabel + NatToDigits(n) + "\n"
  }

  lemma ReportLabelHasNoDigit()
    ensures KeepDigits(ReportLabel) == []
  {
    KeepDigitsOfNonDigits(ReportLabel);
  }

  /** Every report line holds the marker. */
  lemma ReportHasMarker(n: nat)
    ensures Contains(Report(n), Marker)
  {
    assert Marker <= ReportLabel;
    assert Report(n) == ReportLabel + (NatToDigits(n) + "\n");
    assert Marker <= Report(n);
  }

  /** Each report line is found and yields the number it reports. */
  lemma ReportSample(n: nat)
    ensures BenchLog([Report(n)]) == Ok([n])
  {
    ReportHasMarker(n);
    ReportLabelHasNoDigit();
    SampleOfPrintedNumber(ReportLabel, n, "\n");
    BenchLogOneLine(Report(n), n);
  }

  /** A single marker line whose sample is `v` gives the log `[v]`. */
  lemma BenchLogOneLine(line: string, v: nat)
    requires Contains(line, Marker) && Sample(line) == Ok(v)
    ensures BenchLog([line]) == Ok([v])
  {
    assert [line][..0] == [];
    assert [] + [v] == [v];
  }

  /** The report lines of a sequence of runs. */
  function Reports(ns: seq<nat>): seq<string>
  {
    seq(|ns|, i requires 0 <= i < |ns| => Report(ns[i]))
  }

  /** The report lines of several runs give back their numbers, in order. */
  lemma {:induction false} ReportsSamples(ns: seq<nat>)
    ensures BenchLog(Reports(ns)) == Ok(ns)
  {
    var out := Reports(ns);
    if ns != [] {
      var n := |ns| - 1;
      var init := Reports(ns[..n]);
      ReportsSamples(ns[..n]);
      ReportSample(ns[n]);
      assert out == init + [Report(ns[n])];
      BenchLogAppend(init, [Report(ns[n])]);
      assert ns == ns[..n] + [ns[n]];
    }
  }
}

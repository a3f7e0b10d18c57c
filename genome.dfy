/** Genomes and their decoding into compiler arguments: `individual_to_parameters`
    (fishbuilder.py, lines 81-86) and the gene generators of `launch_ga`
    (lines 108-111). */
module Genome {
  import opened Wrappers
  import opened Catalog

  /** Python's subscript `s[i]`: a negative index counts from the end, and an
      index outside `-len(s) .. len(s) - 1` raises `IndexError`. */
  function PyIndex<T>(s: seq<T>, i: int): (r: Result<T>)
    ensures r.Ok? <==> -|s| <= i < |s|
    ensures 0 <= i < |s| ==> r == Ok(s[i])
  {
    if 0 <= i < |s| then Ok(s[i])
    else if -|s| <= i < 0 then Ok(s[|s| + i])
    else Err(IndexError)
  }

  /** `individual_to_parameters(individual)` against the catalog `options`:
      position by position, the selected entry of the position's group is
      emitted unless it is the `None` sentinel. */
  function Decode(options: seq<Group>, individual: seq<int>): (r: Result<seq<string>>)
    ensures r.Ok? ==> |r.value| <= |individual|
  {
    if individual == [] then Ok([])
    else
      var idx := |individual| - 1;
      match Decode(options, individual[..idx])
      case Err(e) => Err(e)
      case Ok(parameters) =>
        match PyIndex(options, idx)
        case Err(e) => Err(e)
        case Ok(group) =>
          match PyIndex(group, individual[idx])
          case Err(e) => Err(e)
          case Ok(choice) =>
            if choice.Some? then Ok(parameters + [choice.value]) else Ok(parameters)
  }

  /** The loop of `individual_to_parameters`. */
  method IndividualToParameters(options: seq<Group>, individual: seq<int>)
    returns (r: Result<seq<string>>)
    ensures r == Decode(options, individual)
  {
    var parameters := [];
    var idx := 0;
    while idx < |individual|
      invariant 0 <= idx <= |individual|
      invariant Decode(options, individual[..idx]) == Ok(parameters)
    {
      var val := individual[idx];
      assert individual[..idx + 1][..idx] == individual[..idx];
      var group := PyIndex(options, idx);
      if group.Err? {
        DecodeErrorPersists(options, individual, idx + 1);
        return Err(group.error);
      }
      var choice := PyIndex(group.value, val);
      if choice.Err? {
        DecodeErrorPersists(options, individual, idx + 1);
        return Err(choice.error);
      }
      if choice.value.Some? {
        parameters := parameters + [choice.value.value];
      }
      idx := idx + 1;
    }
    assert individual[..idx] == individual;
    r := Ok(parameters);
  }

  /** Once a prefix of the genome raises, the whole genome raises the same error. */
  lemma {:induction false} DecodeErrorPersists(options: seq<Group>, individual: seq<int>, k: nat)
    requires k <= |individual|
    requires Decode(options, individual[..k]).Err?
    ensures Decode(options, individual) == Decode(options, individual[..k])
    decreases |individual| - k
  {
    if k < |individual| {
      var n := |individual| - 1;
      assert individual[..n][..k] == individual[..k];
      DecodeErrorPersists(options, individual[..n], k);
    } else {
      assert individual[..k] == individual;
    }
  }

  /** Python evaluates every subscript of the loop without error: each
      position has a group and each gene is a Python index into it. */
  predicate Indexable(options: seq<Group>, individual: seq<int>)
  {
    |individual| <= |options|
    && forall i :: 0 <= i < |individual| ==> -|options[i]| <= individual[i] < |options[i]|
  }

  /** Decoding raises `IndexError` exactly when some subscript is out of range. */
  lemma {:induction false} DecodeSucceedsIff(options: seq<Group>, individual: seq<int>)
    ensures Decode(options, individual).Ok? <==> Indexable(options, individual)
    ensures Decode(options, individual).Err? ==> Decode(options, individual).error == IndexError
  {
    if individual != [] {
      var n := |individual| - 1;
      var init := individual[..n];
      DecodeSucceedsIff(options, init);
      assert forall i :: 0 <= i < n ==> init[i] == individual[i];
    }
  }

  /** The invariant of every genome of the search: one gene per group, each
      gene an index into its group; the generators of
      lines 109-111 draw genes this way. */
  predicate ValidGenome(options: seq<Group>, individual: seq<int>)
  {
    |individual| == |options|
    && forall i :: 0 <= i < |individual| ==> 0 <= individual[i] < |options[i]|
  }

  /** The reference reading of decoding: the options chosen by the genes ... */
  function Chosen(options: seq<Group>, individual: seq<int>): (c: seq<Option<string>>)
    requires |individual| <= |options|
    requires forall i :: 0 <= i < |individual| ==> 0 <= individual[i] < |options[i]|
    ensures |c| == |individual|
  {
    seq(|individual|, i requires 0 <= i < |individual| => options[i][individual[i]])
  }

  /** ... with the sentinels dropped. */
  function Present(choices: seq<Option<string>>): seq<string>
  {
    if choices == [] then []
    else (if choices[0].Some? then [choices[0].value] else []) + Present(choices[1..])
  }

  lemma {:induction false} PresentAppend(a: seq<Option<string>>, b: seq<Option<string>>)
    ensures Present(a + b) == Present(a) + Present(b)
  {
    if a != [] {
      assert (a + b)[0] == a[0];
      assert (a + b)[1..] == a[1..] + b;
      PresentAppend(a[1..], b);
    } else {
      assert a + b == b;
    }
  }

  /** Nothing is emitted but the present choices: at most one argument per gene. */
  lemma {:induction false} PresentLength(choices: seq<Option<string>>)
    ensures |Present(choices)| <= |choices|
  {
    if choices != [] {
      PresentLength(choices[1..]);
    }
  }

  /** An argument is emitted exactly when some gene chose it. */
  lemma {:induction false} PresentMember(choices: seq<Option<string>>, s: string)
    ensures s in Present(choices) <==> Some(s) in choices
  {
    if choices != [] {
      PresentMember(choices[1..], s);
      assert choices == [choices[0]] + choices[1..];
    }
  }

  /** Sentinel choices emit nothing. */
  lemma {:induction false} PresentOfSentinels(choices: seq<Option<string>>)
    requires forall i :: 0 <= i < |choices| ==> choices[i] == None
    ensures Present(choices) == []
  {
    if choices != [] {
      PresentOfSentinels(choices[1..]);
    }
  }

  /** On genomes whose genes are all in range, the loop computes the reference reading. */
  lemma {:induction false} DecodeMatchesReference(options: seq<Group>, individual: seq<int>)
    requires |individual| <= |options|
    requires forall i :: 0 <= i < |individual| ==> 0 <= individual[i] < |options[i]|
    ensures Decode(options, individual) == Ok(Present(Chosen(options, individual)))
  {
    if individual != [] {
      var n := |individual| - 1;
      var init := individual[..n];
      DecodeMatchesReference(options, init);
      var c := Chosen(options, individual);
      assert Chosen(options, init) == c[..n];
      assert c == c[..n] + [c[n]];
      PresentAppend(c[..n], [c[n]]);
      assert Decode(options, individual) ==
        if c[n].Some? then Ok(Present(c[..n]) + [c[n].value]) else Ok(Present(c[..n]));
      assert Present(c) == if c[n].Some? then Present(c[..n]) + [c[n].value] else Present(c[..n]);
    }
  }

  /** Decoding a valid genome never fails, emits at most one argument per
      group, and emits exactly the non-sentinel options its genes select. */
  lemma DecodeValidGenome(options: seq<Group>, individual: seq<int>)
    requires ValidGenome(options, individual)
    ensures Decode(options, individual).Ok?
    ensures |Decode(options, individual).value| <= |individual|
    ensures forall s :: s in Decode(options, individual).value <==>
      exists i :: 0 <= i < |individual| && options[i][individual[i]] == Some(s)
  {
    DecodeMatchesReference(options, individual);
    var c := Chosen(options, individual);
    PresentLength(c);
    forall s ensures s in Present(c) <==>
      exists i :: 0 <= i < |individual| && options[i][individual[i]] == Some(s)
    {
      PresentMember(c, s);
      if Some(s) in c {
        var i :| 0 <= i < |c| && c[i] == Some(s);
        assert options[i][individual[i]] == Some(s);
      }
      if exists i :: 0 <= i < |individual| && options[i][individual[i]] == Some(s) {
        var i :| 0 <= i < |individual| && options[i][individual[i]] == Some(s);
        assert c[i] == Some(s);
      }
    }
  }

  /** Decoding keeps group order: the arguments of the first `k` groups come
      first, followed by those of the remaining groups. */
  lemma DecodeKeepsGroupOrder(options: seq<Group>, individual: seq<int>, k: nat)
    requires ValidGenome(options, individual)
    requires k <= |individual|
    ensures Decode(options, individual).Ok?
    ensures Decode(options[..k], individual[..k]).Ok?
    ensures Decode(options[k..], individual[k..]).Ok?
    ensures Decode(options, individual).value ==
      Decode(options[..k], individual[..k]).value + Decode(options[k..], individual[k..]).value
  {
    var c := Chosen(options, individual);
    DecodeMatchesReference(options, individual);
    DecodeMatchesReference(options[..k], individual[..k]);
    DecodeMatchesReference(options[k..], individual[k..]);
    assert Chosen(options[..k], individual[..k]) == c[..k];
    assert Chosen(options[k..], individual[k..]) == c[k..];
    assert c == c[..k] + c[k..];
    PresentAppend(c[..k], c[k..]);
  }

  /** A genome selecting index 0 everywhere passes no flag at all. */
  lemma DecodeAllSentinels(options: seq<Group>, individual: seq<int>)
    requires WellFormed(options)
    requires ValidGenome(options, individual)
    requires forall i :: 0 <= i < |individual| ==> individual[i] == 0
    ensures Decode(options, individual) == Ok([])
  {
    DecodeMatchesReference(options, individual);
    PresentOfSentinels(Chosen(options, individual));
  }

  /** A two-group catalog: genes `[2, 1]` give both second
      choices, genes `[0, 0]` give nothing. */
  lemma DecodeExample()
    ensures var options := [[None, Some("-flagA1"), Some("-flagA2")], [None, Some("-flagB1")]];
      Decode(options, [2, 1]) == Ok(["-flagA2", "-flagB1"])
      && Decode(options, [0, 0]) == Ok([])
  {
    var options := [[None, Some("-flagA1"), Some("-flagA2")], [None, Some("-flagB1")]];
    DecodeMatchesReference(options, [2, 1]);
    DecodeMatchesReference(options, [0, 0]);
    var c := Chosen(options, [2, 1]);
    assert c == [Some("-flagA2"), Some("-flagB1")];
    assert c[1..][1..] == [];
    assert Present(c[1..]) == ["-flagB1"];
    assert Present(c) == ["-flagA2"] + ["-flagB1"];
    assert ["-flagA2"] + ["-flagB1"] == ["-flagA2", "-flagB1"];
    assert Decode(options, [2, 1]) == Ok(["-flagA2", "-flagB1"]);
    var z := Chosen(options, [0, 0]);
    assert z == [None, None];
    PresentOfSentinels(z);
  }

  /** `random.randint(lo, hi)`: a draw from `lo .. hi`, both ends included. */
  datatype GeneRange = GeneRange(lo: int, hi: int)

  /** The generator registered for each group: `randint(0, len(group) - 1)`. */
  function Ranges(options: seq<Group>): (ranges: seq<GeneRange>)
    ensures |ranges| == |options|
  {
    seq(|options|, i requires 0 <= i < |options| => GeneRange(0, |options[i]| - 1))
  }

  /** The loop of `launch_ga` that registers one gene generator per group. */
  method RegisterAttributes(options: seq<Group>) returns (attributes: seq<GeneRange>)
    ensures attributes == Ranges(options)
  {
    attributes := [];
    var idx := 0;
    while idx < |options|
      invariant 0 <= idx <= |options|
      invariant attributes == Ranges(options)[..idx]
    {
      attributes := attributes + [GeneRange(0, |options[idx]| - 1)];
      idx := idx + 1;
    }
  }

  /** A genome `initCycle` can build: one draw per generator, in order. */
  predicate Drawable(ranges: seq<GeneRange>, individual: seq<int>)
  {
    |individual| == |ranges|
    && forall i :: 0 <= i < |individual| ==> ranges[i].lo <= individual[i] <= ranges[i].hi
  }

  /** The genomes the generators can draw are exactly the valid genomes. */
  lemma DrawableIffValid(options: seq<Group>, individual: seq<int>)
    ensures Drawable(Ranges(options), individual) <==> ValidGenome(options, individual)
  {
    if |individual| == |options| {
      forall i | 0 <= i < |individual|
        ensures (Ranges(options)[i].lo <= individual[i] <= Ranges(options)[i].hi)
            <==> (0 <= individual[i] < |options[i]|)
      {
        assert Ranges(options)[i] == GeneRange(0, |options[i]| - 1);
      }
    }
  }

  /** On a parsed catalog every generator draws from at least two values, so
      `randint` is never handed an empty range and both 0 and 1 are valid. */
  lemma RangesOfParsedCatalog(lines: seq<string>)
    ensures |Ranges(ParseCatalog(lines))| == |lines|
    ensures forall i :: 0 <= i < |Ranges(ParseCatalog(lines))| ==>
      Ranges(ParseCatalog(lines))[i].lo == 0 && Ranges(ParseCatalog(lines))[i].hi >= 1
  {
    ParseCatalogLines(lines);
    CatalogWellFormed(lines);
  }

  /** End to end: a genome drawn for a catalog read from any file decodes
      without error. */
  lemma DrawnGenomeDecodes(lines: seq<string>, individual: seq<int>)
    requires Drawable(Ranges(ParseCatalog(lines)), individual)
    ensures Decode(ParseCatalog(lines), individual).Ok?
  {
    DrawableIffValid(ParseCatalog(lines), individual);
    DecodeValidGenome(ParseCatalog(lines), individual);
  }
}

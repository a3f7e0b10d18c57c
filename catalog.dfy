/** The flag catalog: gcc_options.txt read into the global `options` list
    (fishbuilder.py, lines 35-39). */
module Catalog {
  import opened Wrappers
  import opened Text

  /** One flag group: the alternatives of one line of gcc_options.txt,
      preceded by `None`, the choice of passing no flag at all. */
  type Group = seq<Option<string>>

  /** The shape every parsed group has: the sentinel at index 0, then at
      least one alternative argument. */
  predicate WellFormedGroup(g: Group)
  {
    |g| >= 2 && g[0] == None && forall j :: 1 <= j < |g| ==> g[j].Some?
  }

  predicate WellFormed(options: seq<Group>)
  {
    forall i :: 0 <= i < |options| ==> WellFormedGroup(options[i])
  }

  /** The alternatives of a group as a list of Python strings. */
  function Alternatives(tokens: seq<string>): (g: Group)
    ensures |g| == |tokens|
    ensures forall j :: 0 <= j < |g| ==> g[j] == Some(tokens[j])
  {
    if tokens == [] then [] else [Some(tokens[0])] + Alternatives(tokens[1..])
  }

  /** The arguments held by a run of present alternatives. */
  function Values(alts: Group): (ts: seq<string>)
    requires forall j :: 0 <= j < |alts| ==> alts[j].Some?
    ensures |ts| == |alts|
    ensures forall j :: 0 <= j < |ts| ==> alts[j] == Some(ts[j])
  {
    if alts == [] then [] else [alts[0].value] + Values(alts[1..])
  }

  /** `[None] + line.split(' ')` after `line.strip('\n')`. */
  function ParseLine(line: string): Group
  {
    [None] + Alternatives(Split(Strip(line, '\n'), ' '))
  }

  /** `[x.strip('\n') for x in data]`. */
  function StripLines(lines: seq<string>): (data: seq<string>)
    ensures |data| == |lines|
    ensures forall i :: 0 <= i < |lines| ==> data[i] == Strip(lines[i], '\n')
  {
    if lines == [] then [] else [Strip(lines[0], '\n')] + StripLines(lines[1..])
  }

  /** The catalog read from the lines of gcc_options.txt, one group per line. */
  function ParseCatalog(lines: seq<string>): seq<Group>
  {
    if lines == [] then []
    else ParseCatalog(lines[..|lines| - 1]) + [ParseLine(lines[|lines| - 1])]
  }

  /** The loop that fills the global `options`. */
  method LoadOptions(lines: seq<string>) returns (options: seq<Group>)
    ensures options == ParseCatalog(lines)
  {
    var data := StripLines(lines);
    options := [];
    var k := 0;
    while k < |data|
      invariant 0 <= k <= |data|
      invariant options == ParseCatalog(lines[..k])
    {
      var line := data[k];
      assert line == Strip(lines[k], '\n');
      options := options + [[None] + Alternatives(Split(line, ' '))];
      assert lines[..k + 1][..k] == lines[..k];
      k := k + 1;
    }
    assert lines[..k] == lines;
  }

  /** The catalog has exactly one group per line, in file order. */
  lemma {:induction false} ParseCatalogLines(lines: seq<string>)
    ensures |ParseCatalog(lines)| == |lines|
    ensures forall i :: 0 <= i < |lines| ==> ParseCatalog(lines)[i] == ParseLine(lines[i])
  {
    if lines != [] {
      var init := lines[..|lines| - 1];
      ParseCatalogLines(init);
      assert forall i :: 0 <= i < |init| ==> lines[i] == init[i];
    }
  }

  /** Every parsed group starts with the sentinel and has at least one
      alternative, none of which holds a space. */
  lemma ParseLineShape(line: string)
    ensures WellFormedGroup(ParseLine(line))
    ensures forall j :: 1 <= j < |ParseLine(line)| ==> ' ' !in ParseLine(line)[j].value
  {
    var tokens := Split(Strip(line, '\n'), ' ');
    var g := [None] + Alternatives(tokens);
    SplitPiecesAvoidSep(Strip(line, '\n'), ' ');
    assert forall j :: 1 <= j < |g| ==> g[j] == Some(tokens[j - 1]);
  }

  /** Every catalog read this way satisfies the shape decoding relies on. */
  lemma CatalogWellFormed(lines: seq<string>)
    ensures WellFormed(ParseCatalog(lines))
  {
    ParseCatalogLines(lines);
    var options := ParseCatalog(lines);
    forall i | 0 <= i < |options| ensures WellFormedGroup(options[i]) {
      ParseLineShape(lines[i]);
    }
  }

  /** A group has one alternative more than its stripped line has spaces. */
  lemma GroupSize(line: string)
    ensures |ParseLine(line)| == Count(Strip(line, '\n'), ' ') + 2
  {
    SplitCount(Strip(line, '\n'), ' ');
  }

  lemma {:induction false} ValuesOfAlternatives(tokens: seq<string>)
    ensures Values(Alternatives(tokens)) == tokens
  {
    if tokens != [] {
      ValuesOfAlternatives(tokens[1..]);
    }
  }

  /** Parsing loses nothing: the alternatives, joined with single spaces,
      give back the stripped line. */
  lemma ParseLineKeepsText(line: string)
    ensures Join(Values(ParseLine(line)[1..]), ' ') == Strip(line, '\n')
  {
    var tokens := Split(Strip(line, '\n'), ' ');
    assert ParseLine(line)[1..] == Alternatives(tokens);
    ValuesOfAlternatives(tokens);
    JoinSplit(Strip(line, '\n'), ' ');
  }

  lemma {:induction false} JoinAvoids(ts: seq<string>, sep: char, c: char)
    requires c != sep
    requires forall t :: t in ts ==> c !in t
    ensures c !in Join(ts, sep)
  {
    if |ts| > 1 {
      JoinAvoids(ts[1..], sep, c);
    }
  }

  /** Writing alternatives that hold no space and no newline as one line of
      the file, and parsing that line, gives back exactly those alternatives. */
  lemma ParseFormattedLine(alts: seq<string>)
    requires |alts| >= 1
    requires forall t :: t in alts ==> ' ' !in t && '\n' !in t
    ensures ParseLine(Join(alts, ' ') + "\n") == [None] + Alternatives(alts)
  {
    JoinAvoids(alts, ' ', '\n');
    StripReadLine(Join(alts, ' '));
    SplitJoin(alts, ' ');
  }

  /** Two consecutive spaces give an empty alternative, which is kept. */
  lemma DoubleSpaceKeepsEmptyAlternative()
    ensures ParseLine("-O2  -O3\n") == [None, Some("-O2"), Some(""), Some("-O3")]
  {
    var alts := ["-O2", "", "-O3"];
    assert alts[1..][1..] == ["-O3"];
    assert Join(alts[1..][1..], ' ') == "-O3";
    assert Join(alts[1..], ' ') == " -O3";
    assert Join(alts, ' ') == "-O2  -O3";
    ParseFormattedLine(alts);
    assert Join(alts, ' ') + "\n" == "-O2  -O3\n";
    assert Alternatives(alts) == [Some("-O2"), Some(""), Some("-O3")];
  }
}

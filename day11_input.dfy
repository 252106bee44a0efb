/** `get_strings_per_monke` of day-11/src/main.rs (main.rs:249-264): the input lines
    cut into one group per monkey at every empty line. */
module MonkeyNotes {

  /** The groups the loop builds, defined over ever longer prefixes of the input:
      an empty line closes the current group, any other line joins it. */
  function Grouped(lines: seq<string>): (groups: seq<seq<string>>)
    ensures |groups| == EmptyLines(lines) + 1
  {
    if lines == [] then [[]]
    else
      var g := Grouped(lines[..|lines| - 1]);
      var line := lines[|lines| - 1];
      if line == "" then g + [[]] else g[..|g| - 1] + [g[|g| - 1] + [line]]
  }

  function EmptyLines(lines: seq<string>): nat {
    if lines == [] then 0
    else EmptyLines(lines[..|lines| - 1]) + (if lines[|lines| - 1] == "" then 1 else 0)
  }

  /** The non-empty lines, in input order. */
  function NonEmpty(lines: seq<string>): seq<string> {
    if lines == [] then []
    else NonEmpty(lines[..|lines| - 1]) + (if lines[|lines| - 1] == "" then [] else [lines[|lines| - 1]])
  }

  function Flatten(groups: seq<seq<string>>): seq<string> {
    if groups == [] then [] else Flatten(groups[..|groups| - 1]) + groups[|groups| - 1]
  }

  lemma FlattenSnoc(groups: seq<seq<string>>, g: seq<string>)
    ensures Flatten(groups + [g]) == Flatten(groups) + g
  {
    assert (groups + [g])[..|groups|] == groups;
  }

  /** Concatenating the groups gives back the non-empty lines in their order. */
  lemma {:induction false} GroupedFlatten(lines: seq<string>)
    ensures Flatten(Grouped(lines)) == NonEmpty(lines)
  {
    if lines != [] {
      var init := lines[..|lines| - 1];
      var line := lines[|lines| - 1];
      var g := Grouped(init);
      GroupedFlatten(init);
      if line == "" {
        FlattenSnoc(g, []);
      } else {
        var front := g[..|g| - 1];
        assert g == front + [g[|g| - 1]];
        FlattenSnoc(front, g[|g| - 1]);
        FlattenSnoc(front, g[|g| - 1] + [line]);
      }
    }
  }

  /** No group holds an empty line. */
  lemma {:induction false} GroupedNoEmptyLine(lines: seq<string>)
    ensures forall i, j :: 0 <= i < |Grouped(lines)| && 0 <= j < |Grouped(lines)[i]| ==> Grouped(lines)[i][j] != ""
  {
    if lines != [] {
      GroupedNoEmptyLine(lines[..|lines| - 1]);
    }
  }

  /** `get_strings_per_monke`: the loop keeps the closed groups and the open one. */
  method GroupLines(lines: seq<string>) returns (monkeStrings: seq<seq<string>>)
    ensures monkeStrings == Grouped(lines)
    ensures |monkeStrings| == EmptyLines(lines) + 1
    ensures Flatten(monkeStrings) == NonEmpty(lines)
  {
    monkeStrings := [];
    var monke: seq<string> := [];
    for k := 0 to |lines|
      invariant monkeStrings + [monke] == Grouped(lines[..k])
    {
      assert lines[..k + 1][..k] == lines[..k];
      if lines[k] == "" {
        monkeStrings := monkeStrings + [monke];
        monke := [];
        continue;
      }
      monke := monke + [lines[k]];
    }
    monkeStrings := monkeStrings + [monke];
    assert lines[..|lines|] == lines;
    GroupedFlatten(lines);
  }
}

/** Camp cleanup of day-04/src/main.rs: section assignments `a-b`, whether one of
    a pair contains the other, whether they overlap, and the per-line 0/1 counts the
    two answers sum. */
module CampCleanup {
  import opened Wrappers
  import opened Text

  /** `struct Assignment` (main.rs:8-12): the sections `start` to `end`, both included. */
  datatype Assignment = Assignment(start: nat, end: nat)

  /** Section `x` belongs to the assignment. */
  predicate Covers(a: Assignment, x: int) {
    a.start <= x <= a.end
  }

  /** An assignment naming at least one section. */
  predicate WellFormed(a: Assignment) {
    a.start <= a.end
  }

  /** Every section of `b` is a section of `a`. */
  ghost predicate Contains(a: Assignment, b: Assignment) {
    forall x :: Covers(b, x) ==> Covers(a, x)
  }

  /** `overlaps_fully` (main.rs:33-36): for assignments naming at least one section,
      one of the two contains the other. */
  function OverlapsFully(a: Assignment, b: Assignment): (full: bool)
    ensures WellFormed(a) && WellFormed(b) ==> (full <==> Contains(a, b) || Contains(b, a))
  {
    ContainsByBounds(a, b);
    ContainsByBounds(b, a);
    (a.start <= b.start && a.end >= b.end) || (b.start <= a.start && b.end >= a.end)
  }

  /** `overlaps` (main.rs:37-39): for assignments naming at least one section, some
      section is in both. */
  function Overlaps(a: Assignment, b: Assignment): (shared: bool)
    ensures WellFormed(a) && WellFormed(b) ==> (shared <==> exists x :: Covers(a, x) && Covers(b, x))
  {
    var x := if a.start < b.start then b.start else a.start;
    assert WellFormed(a) && WellFormed(b) && !(a.end < b.start || a.start > b.end) ==> Covers(a, x) && Covers(b, x);
    !(a.end < b.start || a.start > b.end)
  }

  /** `overlaps_fully` does not depend on the order of the pair, even for reversed
      ranges such as "5-3"; for assignments naming at least one section it holds
      exactly when one contains the other. */
  lemma OverlapsFullyMeansContainment(a: Assignment, b: Assignment)
    ensures OverlapsFully(a, b) == OverlapsFully(b, a)
    ensures WellFormed(a) && WellFormed(b) ==> (OverlapsFully(a, b) <==> Contains(a, b) || Contains(b, a))
  {
    ContainsByBounds(a, b);
    ContainsByBounds(b, a);
  }

  /** A non-empty `b` is contained in `a` exactly when its bounds are within `a`'s. */
  lemma ContainsByBounds(a: Assignment, b: Assignment)
    ensures WellFormed(b) ==> (Contains(a, b) <==> a.start <= b.start && a.end >= b.end)
  {
    if WellFormed(b) && Contains(a, b) {
      assert Covers(b, b.start) && Covers(b, b.end);
    }
  }

  /** `overlaps` is symmetric, and for assignments naming at least one section it
      holds exactly when some section is in both. */
  lemma OverlapsMeansSharedSection(a: Assignment, b: Assignment)
    ensures Overlaps(a, b) == Overlaps(b, a)
    ensures WellFormed(a) && WellFormed(b) ==> (Overlaps(a, b) <==> exists x :: Covers(a, x) && Covers(b, x))
  {
    if Overlaps(a, b) && WellFormed(a) && WellFormed(b) {
      var x := if a.start < b.start then b.start else a.start;
      assert Covers(a, x) && Covers(b, x);
    }
  }

  /** For assignments that name at least one section, full overlap is overlap. */
  lemma FullyImpliesOverlaps(a: Assignment, b: Assignment)
    requires WellFormed(a) && WellFormed(b)
    ensures OverlapsFully(a, b) ==> Overlaps(a, b)
  {
  }

  // ---------------------------------------------------------------------------
  // Reading the input (main.rs:14-25, 42-56)
  // ---------------------------------------------------------------------------

  /** What `Assignment::from` accepts without panicking: every `-`-separated piece
      parses as a `u32` (the `expect`), and there are at least two (the indexing). */
  predicate IsAssignmentText(s: string) {
    var pieces := Split(s, '-');
    |pieces| >= 2 && forall k :: 0 <= k < |pieces| ==> ParseUnsigned(pieces[k], U32Max).Some?
  }

  /** `Assignment::from` (main.rs:14-25): the first two numbers; further ones are parsed
      and ignored. */
  function ParseAssignment(s: string): (a: Assignment)
    requires IsAssignmentText(s)
    ensures Some(a.start) == ParseUnsigned(Split(s, '-')[0], U32Max)
    ensures Some(a.end) == ParseUnsigned(Split(s, '-')[1], U32Max)
    ensures a.start <= U32Max && a.end <= U32Max
  {
    var pieces := Split(s, '-');
    Assignment(ParseUnsigned(pieces[0], U32Max).value, ParseUnsigned(pieces[1], U32Max).value)
  }

  /** The text `a-b` of an assignment. */
  function Format(a: Assignment): string {
    Decimal(a.start) + "-" + Decimal(a.end)
  }

  /** Digits hold no separator. */
  lemma DigitsAvoid(s: string, sep: char)
    requires AllDigits(s) && !IsDigit(sep)
    ensures forall i :: 0 <= i < |s| ==> s[i] != sep
  {
  }

  /** An assignment within `u32` is read back from its text. */
  lemma ParseFormat(a: Assignment)
    requires a.start <= U32Max && a.end <= U32Max
    ensures IsAssignmentText(Format(a)) && ParseAssignment(Format(a)) == a
  {
    var pieces := [Decimal(a.start), Decimal(a.end)];
    DigitsAvoid(pieces[0], '-');
    DigitsAvoid(pieces[1], '-');
    assert Join(pieces[1..], '-') == pieces[1];
    assert Join(pieces, '-') == Format(a);
    JoinSplit(pieces, '-');
    ParseDecimal(a.start, U32Max);
    ParseDecimal(a.end, U32Max);
  }

  /** What `check_full_overlap` and `check_overlap` accept without panicking: every
      `,`-separated piece is an assignment (the map is collected), at least two. */
  predicate IsPairText(line: string) {
    var pieces := Split(line, ',');
    |pieces| >= 2 && forall k :: 0 <= k < |pieces| ==> IsAssignmentText(pieces[k])
  }

  /** The two assignments of a line. */
  function Pair(line: string): (Assignment, Assignment)
    requires IsPairText(line)
  {
    var pieces := Split(line, ',');
    (ParseAssignment(pieces[0]), ParseAssignment(pieces[1]))
  }

  /** `check_full_overlap` (main.rs:42-48): 1 when one assignment of the line contains
      the other, else 0. */
  function CheckFullOverlap(line: string): (n: nat)
    requires IsPairText(line)
    ensures n <= 1
    ensures n == 1 <==> OverlapsFully(Pair(line).0, Pair(line).1)
  {
    if OverlapsFully(Pair(line).0, Pair(line).1) then 1 else 0
  }

  /** `check_overlap` (main.rs:50-56): 1 when the assignments of the line overlap, else 0. */
  function CheckOverlap(line: string): (n: nat)
    requires IsPairText(line)
    ensures n <= 1
    ensures n == 1 <==> Overlaps(Pair(line).0, Pair(line).1)
  {
    if Overlaps(Pair(line).0, Pair(line).1) then 1 else 0
  }

  /** The line `a-b,c-d` of two assignments within `u32` is read back as that pair. */
  lemma PairOfLine(a: Assignment, b: Assignment)
    requires a.start <= U32Max && a.end <= U32Max && b.start <= U32Max && b.end <= U32Max
    ensures IsPairText(Format(a) + "," + Format(b))
    ensures Pair(Format(a) + "," + Format(b)) == (a, b)
  {
    ParseFormat(a);
    ParseFormat(b);
    var pieces := [Format(a), Format(b)];
    FormatAvoidsComma(a);
    FormatAvoidsComma(b);
    assert Join(pieces[1..], ',') == pieces[1];
    assert Join(pieces, ',') == Format(a) + "," + Format(b);
    JoinSplit(pieces, ',');
  }

  lemma FormatAvoidsComma(a: Assignment)
    ensures forall i :: 0 <= i < |Format(a)| ==> Format(a)[i] != ','
  {
    DigitsAvoid(Decimal(a.start), ',');
    DigitsAvoid(Decimal(a.end), ',');
  }

  predicate AllPairs(lines: seq<string>) {
    forall k :: 0 <= k < |lines| ==> IsPairText(lines[k])
  }

  /** One line's pair overlaps fully. */
  predicate FullLine(line: string) {
    IsPairText(line) && OverlapsFully(Pair(line).0, Pair(line).1)
  }

  /** One line's pair overlaps. */
  predicate OverlapLine(line: string) {
    IsPairText(line) && Overlaps(Pair(line).0, Pair(line).1)
  }

  /** A property holds of every line exactly when it holds of every line but the
      last, and of the last. */
  lemma EveryLineSnoc(lines: seq<string>, p: string -> bool)
    requires lines != []
    ensures var init := lines[..|lines| - 1];
      (forall k :: 0 <= k < |lines| ==> p(lines[k])) <==>
        (forall k :: 0 <= k < |init| ==> p(init[k])) && p(lines[|lines| - 1])
  {
    var init := lines[..|lines| - 1];
    assert forall k :: 0 <= k < |init| ==> init[k] == lines[k];
  }

  /** The answer of `solve_1` (main.rs:58-66): the lines whose pair overlaps fully. */
  function FullOverlapTotal(lines: seq<string>): (total: nat)
    requires AllPairs(lines)
    ensures total <= |lines|
    ensures total == 0 <==> forall k :: 0 <= k < |lines| ==> !FullLine(lines[k])
    ensures total == |lines| <==> forall k :: 0 <= k < |lines| ==> FullLine(lines[k])
  {
    if lines == [] then 0
    else
      var init := lines[..|lines| - 1];
      var last := lines[|lines| - 1];
      assert forall k :: 0 <= k < |init| ==> init[k] == lines[k];
      assert CheckFullOverlap(last) == 1 <==> FullLine(last);
      EveryLineSnoc(lines, FullLine);
      EveryLineSnoc(lines, line => !FullLine(line));
      FullOverlapTotal(init) + CheckFullOverlap(last)
  }

  /** The answer of `solve_2` (main.rs:68-76): the lines whose pair overlaps. */
  function OverlapTotal(lines: seq<string>): (total: nat)
    requires AllPairs(lines)
    ensures total <= |lines|
    ensures total == 0 <==> forall k :: 0 <= k < |lines| ==> !OverlapLine(lines[k])
    ensures total == |lines| <==> forall k :: 0 <= k < |lines| ==> OverlapLine(lines[k])
  {
    if lines == [] then 0
    else
      var init := lines[..|lines| - 1];
      var last := lines[|lines| - 1];
      assert forall k :: 0 <= k < |init| ==> init[k] == lines[k];
      assert CheckOverlap(last) == 1 <==> OverlapLine(last);
      EveryLineSnoc(lines, OverlapLine);
      EveryLineSnoc(lines, line => !OverlapLine(line));
      OverlapTotal(init) + CheckOverlap(last)
  }

  /** Every line of the input names two assignments of at least one section each. */
  predicate WellFormedPairs(lines: seq<string>)
    requires AllPairs(lines)
  {
    forall k :: 0 <= k < |lines| ==> WellFormed(Pair(lines[k]).0) && WellFormed(Pair(lines[k]).1)
  }

  /** Each answer counts at most one per line, and the first never exceeds the second
      when every assignment is well formed. */
  lemma {:induction false} TotalsOrdered(lines: seq<string>)
    requires AllPairs(lines)
    ensures WellFormedPairs(lines) ==> FullOverlapTotal(lines) <= OverlapTotal(lines)
    ensures OverlapTotal(lines) <= |lines| && FullOverlapTotal(lines) <= |lines|
  {
    if lines != [] {
      var init := lines[..|lines| - 1];
      var last := lines[|lines| - 1];
      assert AllPairs(init);
      TotalsOrdered(init);
      if WellFormedPairs(lines) {
        assert WellFormedPairs(init) by {
          forall k | 0 <= k < |init|
            ensures WellFormed(Pair(init[k]).0) && WellFormed(Pair(init[k]).1)
          {
            assert init[k] == lines[k];
          }
        }
        FullyImpliesOverlaps(Pair(last).0, Pair(last).1);
      }
    }
  }
}

/** Calorie counting of day-01/src/main.rs: the input lines are tallied into one sum
    per elf, every line that is not a `u32` closing the current elf; the answers are
    the largest sum and the sum of the three largest. */
module CalorieCounting {
  import opened Wrappers
  import opened Text

  /** A line that `parse::<u32>()` fails on closes the current elf. */
  predicate IsSeparator(line: string) {
    ParseUnsigned(line, U32Max).None?
  }

  function Separators(lines: seq<string>): nat {
    if lines == [] then 0
    else Separators(lines[..|lines| - 1]) + (if IsSeparator(lines[|lines| - 1]) then 1 else 0)
  }

  function Sum(xs: seq<nat>): nat {
    if xs == [] then 0 else Sum(xs[..|xs| - 1]) + xs[|xs| - 1]
  }

  /** The state of the loop of `load_calories` after `lines`: the pushed sums
      (`all_elves`) and the running sum of the open elf (`one_elf`). */
  function Tally(lines: seq<string>): (t: (seq<nat>, nat))
    ensures |t.0| == Separators(lines)
  {
    if lines == [] then ([], 0)
    else
      var (elves, oneElf) := Tally(lines[..|lines| - 1]);
      match ParseUnsigned(lines[|lines| - 1], U32Max)
      case None => (elves + [oneElf], 0)
      case Some(calories) => (elves, oneElf + calories)
  }

  /** The rations of each elf: the values of the numeric lines, cut at every separator;
      the last batch is the one no separator has closed yet. */
  function Batches(lines: seq<string>): (b: seq<seq<nat>>)
    ensures |b| == Separators(lines) + 1
  {
    if lines == [] then [[]]
    else
      var b := Batches(lines[..|lines| - 1]);
      match ParseUnsigned(lines[|lines| - 1], U32Max)
      case None => b + [[]]
      case Some(calories) => b[..|b| - 1] + [b[|b| - 1] + [calories]]
  }

  /** Each pushed sum is the total of one closed batch, in order, and the running sum
      is the total of the open batch, which `load_calories` never pushes. */
  lemma {:induction false} TallySumsBatches(lines: seq<string>)
    ensures |Tally(lines).0| + 1 == |Batches(lines)|
    ensures forall k :: 0 <= k < |Tally(lines).0| ==> Tally(lines).0[k] == Sum(Batches(lines)[k])
    ensures Tally(lines).1 == Sum(Batches(lines)[|Batches(lines)| - 1])
  {
    if lines != [] {
      var init := lines[..|lines| - 1];
      TallySumsBatches(init);
      var b := Batches(init);
      var last := b[|b| - 1];
      match ParseUnsigned(lines[|lines| - 1], U32Max)
      case None =>
        assert Sum([]) == 0;
      case Some(calories) =>
        assert (last + [calories])[..|last|] == last;
    }
  }

  /** One more line: a separator pushes the running sum and restarts it, a number adds
      to it. */
  lemma TallyNext(lines: seq<string>, i: nat)
    requires i < |lines|
    ensures var (elves, oneElf) := Tally(lines[..i]);
      Tally(lines[..i + 1]) ==
        match ParseUnsigned(lines[i], U32Max)
        case None => (elves + [oneElf], 0)
        case Some(calories) => (elves, oneElf + calories)
  {
    assert lines[..i + 1][..i] == lines[..i];
  }

  /** `load_calories` (main.rs:7-25) on the lines of the file. */
  method LoadCalories(lines: seq<string>) returns (allElves: seq<nat>)
    ensures allElves == Tally(lines).0
    ensures |allElves| == Separators(lines)
    ensures forall k :: 0 <= k < |allElves| ==> allElves[k] == Sum(Batches(lines)[k])
  {
    allElves := [];
    var oneElf: nat := 0;
    for i := 0 to |lines|
      invariant (allElves, oneElf) == Tally(lines[..i])
    {
      TallyNext(lines, i);
      match ParseUnsigned(lines[i], U32Max)
      case None =>
        allElves := allElves + [oneElf];
        oneElf := 0;
      case Some(rationCalories) =>
        oneElf := oneElf + rationCalories;
    }
    assert lines[..|lines|] == lines;
    TallySumsBatches(lines);
  }

  /** `solve_1` (main.rs:27-30): the largest sum; `max()` of no elves is `None`, which
      the `expect` turns into a panic. */
  function MostCalories(calories: seq<nat>): (most: nat)
    requires |calories| > 0
    ensures most in calories
    ensures forall k :: 0 <= k < |calories| ==> calories[k] <= most
  {
    if |calories| == 1 then calories[0]
    else
      var rest := MostCalories(calories[..|calories| - 1]);
      if calories[|calories| - 1] > rest then calories[|calories| - 1] else rest
  }

  predicate Ascending(s: seq<nat>) {
    forall i, j :: 0 <= i < j < |s| ==> s[i] <= s[j]
  }

  /** Place `x` in front of the first larger entry. */
  function InsertAscending(x: nat, s: seq<nat>): (r: seq<nat>)
    ensures |r| == |s| + 1
    ensures multiset(r) == multiset(s) + multiset{x}
  {
    if s == [] || x <= s[0] then [x] + s
    else
      assert s == [s[0]] + s[1..];
      [s[0]] + InsertAscending(x, s[1..])
  }

  /** `calories.sort()` as an insertion sort on values. */
  function SortAscending(s: seq<nat>): (r: seq<nat>)
    ensures |r| == |s|
    ensures multiset(r) == multiset(s)
  {
    if s == [] then []
    else
      assert s == s[..|s| - 1] + [s[|s| - 1]];
      InsertAscending(s[|s| - 1], SortAscending(s[..|s| - 1]))
  }

  /** A lower bound of `x` and of every entry of `s` bounds every entry after the
      insertion. */
  lemma {:induction false} InsertAbove(x: nat, s: seq<nat>, b: nat)
    requires b <= x && forall k :: 0 <= k < |s| ==> b <= s[k]
    ensures forall k :: 0 <= k < |s| + 1 ==> b <= InsertAscending(x, s)[k]
  {
    if s != [] && x > s[0] {
      InsertAbove(x, s[1..], b);
      assert InsertAscending(x, s) == [s[0]] + InsertAscending(x, s[1..]);
    }
  }

  lemma {:induction false} InsertAscendingSorted(x: nat, s: seq<nat>)
    requires Ascending(s)
    ensures Ascending(InsertAscending(x, s))
  {
    if s != [] && x > s[0] {
      var t := s[1..];
      InsertAscendingSorted(x, t);
      InsertAbove(x, t, s[0]);
      assert InsertAscending(x, s) == [s[0]] + InsertAscending(x, t);
    }
  }

  /** The sort orders its input: an ascending permutation. */
  lemma {:induction false} SortAscendingSorted(s: seq<nat>)
    ensures Ascending(SortAscending(s))
  {
    if s != [] {
      SortAscendingSorted(s[..|s| - 1]);
      InsertAscendingSorted(s[|s| - 1], SortAscending(s[..|s| - 1]));
    }
  }

  function Reverse(s: seq<nat>): (r: seq<nat>)
    ensures |r| == |s|
    ensures forall k :: 0 <= k < |s| ==> r[k] == s[|s| - 1 - k]
  {
    if s == [] then [] else [s[|s| - 1]] + Reverse(s[..|s| - 1])
  }

  /** `solve_2` (main.rs:32-36): sort, walk from the back, add the first three. The
      three are some of the elves, so they carry no more than all elves together. */
  function TopThreeCalories(calories: seq<nat>): (total: nat)
    ensures total <= Sum(calories)
  {
    var order := Reverse(SortAscending(calories));
    var top := if |order| < 3 then order else order[..3];
    assert order == top + order[|top|..];
    SumAppend(top, order[|top|..]);
    SumReverse(SortAscending(calories));
    SumPermutation(SortAscending(calories), calories);
    Sum(top)
  }

  /** Three entries of `s` at distinct positions. */
  predicate DistinctPositions(s: seq<nat>, i: int, j: int, k: int) {
    0 <= i < |s| && 0 <= j < |s| && 0 <= k < |s| && i != j && j != k && i != k
  }

  /** With three elves or more, the second answer is the largest sum three different
      elves reach: it is reached by three distinct elves, and no three distinct elves
      carry more, counted both on the sorted list and on the elves themselves. With
      fewer than three it is the total of all. */
  lemma TopThreeLargest(calories: seq<nat>)
    ensures var s := SortAscending(calories);
      |calories| >= 3 ==>
        TopThreeCalories(calories) == s[|s| - 1] + s[|s| - 2] + s[|s| - 3] &&
        forall i, j, k :: DistinctPositions(s, i, j, k) ==> s[i] + s[j] + s[k] <= TopThreeCalories(calories)
    ensures |calories| >= 3 ==>
      forall i, j, k :: DistinctPositions(calories, i, j, k) ==>
        calories[i] + calories[j] + calories[k] <= TopThreeCalories(calories)
    ensures |calories| >= 3 ==>
      exists i, j, k :: DistinctPositions(calories, i, j, k) &&
        calories[i] + calories[j] + calories[k] == TopThreeCalories(calories)
    ensures |calories| < 3 ==> TopThreeCalories(calories) == Sum(SortAscending(calories))
    ensures |calories| < 3 ==> TopThreeCalories(calories) == Sum(calories)
  {
    if |calories| >= 3 {
      TopThreeMany(calories);
    } else {
      TopThreeFew(calories);
    }
  }

  lemma TopThreeMany(calories: seq<nat>)
    requires |calories| >= 3
    ensures var s := SortAscending(calories);
      TopThreeCalories(calories) == s[|s| - 1] + s[|s| - 2] + s[|s| - 3] &&
      forall i, j, k :: DistinctPositions(s, i, j, k) ==> s[i] + s[j] + s[k] <= TopThreeCalories(calories)
    ensures forall i, j, k :: DistinctPositions(calories, i, j, k) ==>
      calories[i] + calories[j] + calories[k] <= TopThreeCalories(calories)
    ensures exists i, j, k ::
              DistinctPositions(calories, i, j, k) &&
              calories[i] + calories[j] + calories[k] == TopThreeCalories(calories)
  {
    var s := SortAscending(calories);
    SortAscendingSorted(calories);
    var order := Reverse(s);
    var n := |s|;
    var top := order[..3];
    SumOfThree(top);
    assert top[0] == s[n - 1] && top[1] == s[n - 2] && top[2] == s[n - 3];
    forall i, j, k | DistinctPositions(s, i, j, k)
      ensures s[i] + s[j] + s[k] <= s[n - 1] + s[n - 2] + s[n - 3]
    {
      TopThreeBound(s, i, j, k);
    }
    ElvesBound(calories, s);
  }

  lemma TopThreeFew(calories: seq<nat>)
    requires |calories| < 3
    ensures TopThreeCalories(calories) == Sum(SortAscending(calories))
    ensures TopThreeCalories(calories) == Sum(calories)
  {
    var s := SortAscending(calories);
    SumReverse(s);
    SumPermutation(s, calories);
  }

  /** The last three entries of an ascending reordering `s` of `calories` bound any
      three distinct elves, and three distinct elves carry exactly them. */
  lemma ElvesBound(calories: seq<nat>, s: seq<nat>)
    requires multiset(calories) == multiset(s) && Ascending(s) && |s| >= 3
    ensures forall i, j, k :: DistinctPositions(calories, i, j, k) ==>
      calories[i] + calories[j] + calories[k] <= s[|s| - 1] + s[|s| - 2] + s[|s| - 3]
    ensures exists i, j, k ::
              DistinctPositions(calories, i, j, k) &&
              calories[i] + calories[j] + calories[k] == s[|s| - 1] + s[|s| - 2] + s[|s| - 3]
  {
    var n := |s|;
    forall i, j, k | DistinctPositions(calories, i, j, k)
      ensures calories[i] + calories[j] + calories[k] <= s[n - 1] + s[n - 2] + s[n - 3]
    {
      var qs := MatchPositions(calories, s, [i, j, k]);
      TopThreeBound(s, qs[0], qs[1], qs[2]);
    }
    var ps := MatchPositions(s, calories, [n - 1, n - 2, n - 3]);
    assert DistinctPositions(calories, ps[0], ps[1], ps[2]);
  }

  /** Three distinct positions of an ascending sequence add up to at most its last three entries. */
  lemma TopThreeBound(s: seq<nat>, i: int, j: int, k: int)
    requires Ascending(s) && DistinctPositions(s, i, j, k)
    ensures s[i] + s[j] + s[k] <= s[|s| - 1] + s[|s| - 2] + s[|s| - 3]
  {
    var n := |s|;
    // Name the positions in increasing order.
    var a, b, c := i, j, k;
    if a > b { a, b := b, a; }
    if b > c { b, c := c, b; }
    if a > b { a, b := b, a; }
    assert s[a] <= s[n - 3] && s[b] <= s[n - 2] && s[c] <= s[n - 1];
  }

  lemma SumOfThree(a: seq<nat>)
    requires |a| == 3
    ensures Sum(a) == a[0] + a[1] + a[2]
  {
    var p := a[..2];
    var q := p[..1];
    assert q[..0] == [];
    assert Sum(q) == a[0];
    assert p[1] == a[1];
    assert Sum(p) == Sum(q) + p[1];
  }

  lemma SumSingle(x: nat)
    ensures Sum([x]) == x
  {
    assert [x][..0] == [];
  }

  /** The sum of a concatenation is the sum of its parts. */
  lemma {:induction false} SumAppend(p: seq<nat>, q: seq<nat>)
    ensures Sum(p + q) == Sum(p) + Sum(q)
    decreases |q|
  {
    if q != [] {
      var init := q[..|q| - 1];
      SumAppend(p, init);
      assert (p + q)[..|p + q| - 1] == p + init;
    } else {
      assert p + q == p;
    }
  }

  /** Reversing does not change the sum. */
  lemma {:induction false} SumReverse(s: seq<nat>)
    ensures Sum(Reverse(s)) == Sum(s)
    decreases |s|
  {
    if s != [] {
      var init := s[..|s| - 1];
      SumReverse(init);
      assert Reverse(s) == [s[|s| - 1]] + Reverse(init);
      SumAppend([s[|s| - 1]], Reverse(init));
      SumSingle(s[|s| - 1]);
    }
  }

  /** Taking out the entry at `i` takes away one occurrence of it. */
  lemma RemoveAt(s: seq<nat>, i: int)
    requires 0 <= i < |s|
    ensures multiset(s) == multiset(s[..i] + s[i + 1..]) + multiset{s[i]}
    ensures multiset(s[..i] + s[i + 1..]) == multiset(s) - multiset{s[i]}
  {
    assert s == s[..i] + [s[i]] + s[i + 1..];
  }

  /** The sum of the others and the entry at `i` is the sum of all. */
  lemma SumRemoveAt(s: seq<nat>, i: int)
    requires 0 <= i < |s|
    ensures Sum(s) == Sum(s[..i] + s[i + 1..]) + s[i]
  {
    assert s == s[..i] + ([s[i]] + s[i + 1..]);
    SumAppend(s[..i], [s[i]] + s[i + 1..]);
    SumAppend([s[i]], s[i + 1..]);
    SumAppend(s[..i], s[i + 1..]);
    SumSingle(s[i]);
  }

  /** Reordering does not change the sum: two lists with the same entries, counted
      with multiplicity, have the same total. */
  lemma {:induction false} SumPermutation(a: seq<nat>, b: seq<nat>)
    requires multiset(a) == multiset(b)
    ensures Sum(a) == Sum(b)
    decreases |a|
  {
    if a != [] {
      var x := a[|a| - 1];
      var init := a[..|a| - 1];
      assert a == init + [x];
      assert x in multiset(b);
      var i :| 0 <= i < |b| && b[i] == x;
      var rest := b[..i] + b[i + 1..];
      RemoveAt(b, i);
      RemoveAt(a, |a| - 1);
      SumPermutation(init, rest);
      SumRemoveAt(b, i);
    } else {
      assert |multiset(b)| == 0;
    }
  }

  /** Positions of `s` other than `p`, renumbered for `s` without its entry at `p`. */
  function Shrink(ps: seq<int>, p: int): (r: seq<int>)
    ensures |r| == |ps|
    ensures forall t :: 0 <= t < |ps| ==> r[t] == if ps[t] < p then ps[t] else ps[t] - 1
  {
    seq(|ps|, t requires 0 <= t < |ps| => if ps[t] < p then ps[t] else ps[t] - 1)
  }

  /** Positions of `s` without its entry at `q`, renumbered for `s` itself. */
  function Grow(qs: seq<int>, q: int): (r: seq<int>)
    ensures |r| == |qs|
    ensures forall t :: 0 <= t < |qs| ==> r[t] == if qs[t] < q then qs[t] else qs[t] + 1
  {
    seq(|qs|, t requires 0 <= t < |qs| => if qs[t] < q then qs[t] else qs[t] + 1)
  }

  lemma ShrinkPositions(a: seq<nat>, ps: seq<int>)
    requires |ps| > 0 && forall t :: 0 <= t < |ps| ==> 0 <= ps[t] < |a|
    requires forall t, u :: 0 <= t < u < |ps| ==> ps[t] != ps[u]
    ensures var p := ps[0]; var a1, r := a[..p] + a[p + 1..], Shrink(ps[1..], p);
      (forall t :: 0 <= t < |r| ==> 0 <= r[t] < |a1| && a1[r[t]] == a[ps[t + 1]]) &&
      (forall t, u :: 0 <= t < u < |r| ==> r[t] != r[u])
  {
    var rest := ps[1..];
    assert forall t :: 0 <= t < |rest| ==> rest[t] == ps[t + 1];
  }

  /** Some position of `b` holds `x`. */
  lemma FindEntry(b: seq<nat>, x: nat) returns (q: int)
    requires x in multiset(b)
    ensures 0 <= q < |b| && b[q] == x
  {
    q :| 0 <= q < |b| && b[q] == x;
  }

  lemma GrowPositions(b: seq<nat>, q: int, qs: seq<int>)
    requires 0 <= q < |b|
    requires forall t :: 0 <= t < |qs| ==> 0 <= qs[t] < |b| - 1
    requires forall t, u :: 0 <= t < u < |qs| ==> qs[t] != qs[u]
    ensures var b1, r := b[..q] + b[q + 1..], Grow(qs, q);
      (forall t :: 0 <= t < |r| ==> 0 <= r[t] < |b| && r[t] != q && b[r[t]] == b1[qs[t]]) &&
      (forall t, u :: 0 <= t < u < |r| ==> r[t] != r[u])
  {
  }

  /** Matching `p` to `q` and the other positions as `qs` matches them on the
      sequences without the entries at `p` and `q`. */
  lemma ExtendMatch(a: seq<nat>, b: seq<nat>, ps: seq<int>, q: int, qs: seq<int>)
    requires |ps| > 0 && 0 <= ps[0] < |a| && 0 <= q < |b| && b[q] == a[ps[0]]
    requires forall t :: 0 <= t < |ps| ==> 0 <= ps[t] < |a|
    requires forall t, u :: 0 <= t < u < |ps| ==> ps[t] != ps[u]
    requires var a1, b1, shrunk := a[..ps[0]] + a[ps[0] + 1..], b[..q] + b[q + 1..], Shrink(ps[1..], ps[0]);
      |qs| == |shrunk| &&
      (forall t :: 0 <= t < |qs| ==> 0 <= shrunk[t] < |a1| && 0 <= qs[t] < |b1| && b1[qs[t]] == a1[shrunk[t]]) &&
      (forall t, u :: 0 <= t < u < |qs| ==> qs[t] != qs[u])
    ensures var r := [q] + Grow(qs, q);
      |r| == |ps| &&
      (forall t :: 0 <= t < |r| ==> 0 <= r[t] < |b| && b[r[t]] == a[ps[t]]) &&
      (forall t, u :: 0 <= t < u < |r| ==> r[t] != r[u])
  {
    ShrinkPositions(a, ps);
    GrowPositions(b, q, qs);
    var grown := Grow(qs, q);
    var r := [q] + grown;
    assert forall t :: 1 <= t < |r| ==> r[t] == grown[t - 1];
  }

  /** Distinct positions of `a` map to distinct positions of any reordering `b` of it
      holding the same entries. */
  lemma {:induction false} MatchPositions(a: seq<nat>, b: seq<nat>, ps: seq<int>) returns (qs: seq<int>)
    requires multiset(a) == multiset(b)
    requires forall t :: 0 <= t < |ps| ==> 0 <= ps[t] < |a|
    requires forall t, u :: 0 <= t < u < |ps| ==> ps[t] != ps[u]
    ensures |qs| == |ps|
    ensures forall t :: 0 <= t < |qs| ==> 0 <= qs[t] < |b| && b[qs[t]] == a[ps[t]]
    ensures forall t, u :: 0 <= t < u < |qs| ==> qs[t] != qs[u]
    decreases |ps|
  {
    if ps == [] {
      return [];
    }
    var p := ps[0];
    assert a[p] in multiset(a);
    var q := FindEntry(b, a[p]);
    RemoveAt(a, p);
    RemoveAt(b, q);
    ShrinkPositions(a, ps);
    var qs1 := MatchPositions(a[..p] + a[p + 1..], b[..q] + b[q + 1..], Shrink(ps[1..], p));
    ExtendMatch(a, b, ps, q, qs1);
    qs := [q] + Grow(qs1, q);
  }
}

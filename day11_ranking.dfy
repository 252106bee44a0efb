/** The end of `main` in day-11/src/main.rs (main.rs:141-147): the barrel is sorted by
    examination count, most first, with a stable sort, and the answer is the
    product of the first two counts. */
module MonkeyRanking {

  /** A monkey's position in the barrel before sorting, and its counter. */
  datatype Standing = Standing(monkey: nat, examinations: nat)

  /** The standings of a barrel whose counters are `counts`, in barrel order. */
  function Standings(counts: seq<nat>): (st: seq<Standing>)
    ensures |st| == |counts|
    ensures forall k :: 0 <= k < |counts| ==> st[k] == Standing(k, counts[k])
  {
    seq(|counts|, k requires 0 <= k < |counts| => Standing(k, counts[k]))
  }

  /** `a` comes before `b` in the order `sort_by(|a, b| b.examinations.cmp(&a.examinations))`
      produces: more examinations first, ties in their original order. */
  predicate Before(a: Standing, b: Standing) {
    a.examinations > b.examinations || (a.examinations == b.examinations && a.monkey < b.monkey)
  }

  /** Every pair of entries is in `Before` order. */
  predicate Ranked(s: seq<Standing>) {
    forall i, j :: 0 <= i < j < |s| ==> Before(s[i], s[j])
  }

  /** The original positions increase along `s`. */
  predicate InBarrelOrder(s: seq<Standing>) {
    forall i, j :: 0 <= i < j < |s| ==> s[i].monkey < s[j].monkey
  }

  /** Place `x` after every entry that has at least as many examinations. */
  function Insert(x: Standing, s: seq<Standing>): (r: seq<Standing>)
    ensures |r| == |s| + 1
    ensures multiset(r) == multiset(s) + multiset{x}
  {
    if s == [] then [x]
    else if s[0].examinations >= x.examinations then
      assert s == [s[0]] + s[1..];
      [s[0]] + Insert(x, s[1..])
    else [x] + s
  }

  /** A stable sort by descending count, as an insertion sort over the barrel. */
  function SortByExaminations(s: seq<Standing>): (r: seq<Standing>)
    ensures |r| == |s|
    ensures multiset(r) == multiset(s)
  {
    if s == [] then []
    else
      assert s == s[..|s| - 1] + [s[|s| - 1]];
      Insert(s[|s| - 1], SortByExaminations(s[..|s| - 1]))
  }

  lemma {:induction false} InsertRanked(x: Standing, s: seq<Standing>)
    requires Ranked(s)
    requires forall k :: 0 <= k < |s| ==> s[k].monkey < x.monkey
    ensures Ranked(Insert(x, s))
  {
    if s != [] && s[0].examinations >= x.examinations {
      var t := s[1..];
      InsertRanked(x, t);
      var u := Insert(x, t);
      forall j | 0 <= j < |u|
        ensures Before(s[0], u[j])
      {
        assert u[j] in multiset(u);
        if u[j] != x {
          assert u[j] in multiset(t);
          var k :| 0 <= k < |t| && t[k] == u[j];
          assert s[k + 1] == u[j];
        }
      }
      assert Insert(x, s) == [s[0]] + u;
    }
  }

  /** The sort is stable and descending: sorting standings given in barrel order
      yields them by decreasing count, ties keeping their barrel order. */
  lemma {:induction false} SortRanked(s: seq<Standing>)
    requires InBarrelOrder(s)
    ensures Ranked(SortByExaminations(s))
  {
    if s != [] {
      var init := s[..|s| - 1];
      var x := s[|s| - 1];
      SortRanked(init);
      var t := SortByExaminations(init);
      forall k | 0 <= k < |t|
        ensures t[k].monkey < x.monkey
      {
        assert t[k] in multiset(init);
      }
      InsertRanked(x, t);
    }
  }

  /** The first two counts of the ranking (`iter().take(2).map(..)`). */
  function TopCounts(ranking: seq<Standing>): (top: seq<nat>)
    ensures |top| == if |ranking| < 2 then |ranking| else 2
    ensures forall k :: 0 <= k < |top| ==> top[k] == ranking[k].examinations
  {
    if |ranking| == 0 then []
    else if |ranking| == 1 then [ranking[0].examinations]
    else [ranking[0].examinations, ranking[1].examinations]
  }

  function Product(xs: seq<nat>): nat {
    if xs == [] then 1 else Product(xs[..|xs| - 1]) * xs[|xs| - 1]
  }

  /** The multiplication loop of `main` (main.rs:144-147). */
  method MonkeyBusinessLevel(ranking: seq<Standing>) returns (business: nat)
    ensures business == Product(TopCounts(ranking))
    ensures |ranking| == 0 ==> business == 1
    ensures |ranking| == 1 ==> business == ranking[0].examinations
    ensures |ranking| >= 2 ==> business == ranking[0].examinations * ranking[1].examinations
  {
    var top := TopCounts(ranking);
    business := 1;
    for k := 0 to |top|
      invariant business == Product(top[..k])
    {
      assert top[..k + 1][..k] == top[..k];
      business := business * top[k];
    }
    assert top[..|top|] == top;
  }

  /** The level of monkey business of a barrel whose counters are `counts`. */
  function Business(counts: seq<nat>): nat {
    Product(TopCounts(SortByExaminations(Standings(counts))))
  }

  /** In any ranked permutation of the standings, the first entry has the largest
      count and the second the largest count among the other monkeys. */
  lemma RankedTop(counts: seq<nat>, r: seq<Standing>)
    requires |counts| >= 2 && Ranked(r) && multiset(r) == multiset(Standings(counts))
    ensures |r| == |counts|
    ensures r[0].monkey < |counts| && r[1].monkey < |counts| && r[0].monkey != r[1].monkey
    ensures r[0].examinations == counts[r[0].monkey] && r[1].examinations == counts[r[1].monkey]
    ensures forall k :: 0 <= k < |counts| ==> counts[k] <= counts[r[0].monkey]
    ensures forall k :: 0 <= k < |counts| && k != r[0].monkey ==> counts[k] <= counts[r[1].monkey]
  {
    var st := Standings(counts);
    assert |r| == |multiset(r)| == |st|;
    forall p | 0 <= p < |r|
      ensures r[p].monkey < |counts| && r[p] == st[r[p].monkey]
    {
      assert r[p] in multiset(st);
      var k :| 0 <= k < |st| && st[k] == r[p];
    }
    forall k | 0 <= k < |counts|
      ensures counts[k] <= counts[r[0].monkey]
      ensures k != r[0].monkey ==> counts[k] <= counts[r[1].monkey]
    {
      assert st[k] in multiset(r);
      var p :| 0 <= p < |r| && r[p] == st[k];
      if p > 1 {
        assert Before(r[1], r[p]);
      }
      if p > 0 {
        assert Before(r[0], r[p]);
      }
    }
    assert Before(r[0], r[1]);
  }

  lemma ProductOfTwo(a: nat, b: nat)
    ensures Product([a, b]) == a * b
  {
    assert [a][..0] == [];
    assert Product([a]) == a;
    assert [a, b][..1] == [a];
  }

  /** With at least two monkeys, the answer multiplies the largest count by the
      largest count among the other monkeys. */
  lemma TopTwoLargest(counts: seq<nat>)
    requires |counts| >= 2
    ensures var r := SortByExaminations(Standings(counts));
      r[0].monkey < |counts| && r[1].monkey < |counts| && r[0].monkey != r[1].monkey &&
      Business(counts) == counts[r[0].monkey] * counts[r[1].monkey] &&
      (forall k :: 0 <= k < |counts| ==> counts[k] <= counts[r[0].monkey]) &&
      (forall k :: 0 <= k < |counts| && k != r[0].monkey ==> counts[k] <= counts[r[1].monkey])
  {
    var r := SortByExaminations(Standings(counts));
    SortRanked(Standings(counts));
    RankedTop(counts, r);
    ProductOfTwo(r[0].examinations, r[1].examinations);
    assert TopCounts(r) == [r[0].examinations, r[1].examinations];
  }
}

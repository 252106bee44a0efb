/** The barrel of day-11/src/main.rs as the program keeps it: a vector of `Monke`
    objects whose queues and counters `shenanigans` updates in place. Every method
    is proved against the value model of module MonkeyBusiness. */
module MonkeyBarrel {
  import opened MonkeyMath
  import opened MonkeyBusiness
  import opened MonkeyRanking

  /** `struct Monke` (main.rs:99-106). The operation and the test are never
      reassigned, so they are constants here. */
  class Monke {
    const name: nat
    var items: seq<nat>
    const operation: Operation
    const test: Test
    var examinations: nat

    constructor (name: nat, items: seq<nat>, operation: Operation, test: Test)
      ensures this.name == name && this.items == items
      ensures this.operation == operation && this.test == test
      ensures examinations == 0
    {
      this.name := name;
      this.items := items;
      this.operation := operation;
      this.test := test;
      examinations := 0;
    }

    /** The fixed rules of this monkey. */
    function Rules(): Rule {
      Rule(operation, test)
    }

    /** `Monke::examine` (main.rs:109-114): count one examination, take the front
        item (the `unwrap` panics on an empty queue), and return where its new level
        goes together with that level. */
    method Examine() returns (target: nat, worry: nat)
      requires |items| > 0 && test.divisor > 0
      modifies this
      ensures examinations == old(examinations) + 1
      ensures items == old(items)[1..]
      ensures (target, worry) == Inspect(Rules(), old(items)[0])
    {
      examinations := examinations + 1;
      var front := items[0];
      items := items[1..];
      worry := Apply(operation, front);
      target := Perform(test, worry);
    }

    /** `Monke::therapy` (main.rs:116-118): every level reduced modulo the lcm, in
        place and in order. */
    method Therapy(therapyLcm: nat)
      requires therapyLcm > 0
      modifies this
      ensures items == Reduce(old(items), therapyLcm)
      ensures examinations == old(examinations)
    {
      items := Reduce(items, therapyLcm);
    }
  }

  /** The vector holds distinct monkeys: `get_mut(i)` and `get_mut(j)` never alias. */
  ghost predicate Distinct(barrel: seq<Monke>) {
    forall i, j :: 0 <= i < j < |barrel| ==> barrel[i] != barrel[j]
  }

  /** The rules of every monkey, in barrel order. */
  function RulesOf(barrel: seq<Monke>): (rules: seq<Rule>)
    ensures |rules| == |barrel|
    ensures forall i :: 0 <= i < |barrel| ==> rules[i] == barrel[i].Rules()
  {
    seq(|barrel|, i requires 0 <= i < |barrel| => barrel[i].Rules())
  }

  /** The divisors of every monkey (main.rs:131). */
  function Divisors(rules: seq<Rule>): (divisors: seq<nat>)
    ensures |divisors| == |rules|
    ensures forall i :: 0 <= i < |rules| ==> divisors[i] == rules[i].test.divisor
  {
    seq(|rules|, i requires 0 <= i < |rules| => rules[i].test.divisor)
  }

  /** The objects of the barrel hold the value state `hs`. */
  ghost predicate Models(barrel: seq<Monke>, hs: seq<Holding>)
    reads set m | m in barrel
  {
    |barrel| == |hs| &&
    forall i :: 0 <= i < |barrel| ==> barrel[i].items == hs[i].items && barrel[i].examinations == hs[i].examinations
  }

  /** `get_lcm` (main.rs:130-133): the lcm of all divisors. `lcm` panics on an empty
      barrel, and divides by zero once two divisors are zero. */
  method GetLcm(barrel: seq<Monke>) returns (therapyLcm: nat)
    requires |barrel| > 0 && AtMostOneZero(Divisors(RulesOf(barrel)))
    ensures therapyLcm == LcmOf(Divisors(RulesOf(barrel)))
    ensures forall i :: 0 <= i < |barrel| ==> Divides(barrel[i].test.divisor, therapyLcm)
    ensures ValidRules(RulesOf(barrel)) ==> ModulusFor(RulesOf(barrel), therapyLcm)
  {
    var divisors := Divisors(RulesOf(barrel));
    therapyLcm := Lcm(divisors);
  }

  /** The examine loop of `shenanigans` (main.rs:155-161): the monkey examines its
      whole queue front to back, and the passes come out in that order. */
  method ExamineAll(monke: Monke) returns (passed: seq<(nat, nat)>)
    requires monke.test.divisor > 0
    modifies monke
    ensures monke.items == []
    ensures monke.examinations == old(monke.examinations) + |old(monke.items)|
    ensures passed == Passes(monke.Rules(), old(monke.items))
  {
    passed := [];
    ghost var start := monke.items;
    var n := |monke.items|;
    for c := 0 to n
      invariant monke.items == start[c..]
      invariant monke.examinations == old(monke.examinations) + c
      invariant passed == Passes(monke.Rules(), start[..c])
    {
      var target, worry := monke.Examine();
      assert start[..c + 1] == start[..c] + [start[c]];
      passed := passed + [(target, worry)];
    }
    assert start[..n] == start;
  }

  /** The delivery loop of `shenanigans` (main.rs:163-165): every pass goes to the back
      of its target's queue, in order. */
  method DeliverAll(barrel: seq<Monke>, passed: seq<(nat, nat)>, ghost drained: seq<Holding>)
    requires Distinct(barrel) && Models(barrel, drained) && TargetsBelow(passed, |barrel|)
    modifies set m | m in barrel
    ensures Models(barrel, Deliver(drained, passed))
  {
    for p := 0 to |passed|
      invariant Models(barrel, Deliver(drained, passed[..p]))
    {
      var (target, item) := passed[p];
      assert passed[..p + 1][..p] == passed[..p];
      barrel[target].items := barrel[target].items + [item];
    }
    assert passed[..|passed|] == passed;
  }

  /** One turn of monkey `idx` (main.rs:152-166): examine, then deliver. */
  method TakeTurn(barrel: seq<Monke>, idx: nat, ghost rules: seq<Rule>, ghost before: seq<Holding>)
    requires Distinct(barrel) && rules == RulesOf(barrel) && Fits(rules, before)
    requires idx < |barrel| && Models(barrel, before)
    modifies set m | m in barrel
    ensures Models(barrel, Turn(rules, before, idx))
  {
    var monke := barrel[idx];
    assert monke.Rules() == rules[idx];
    var passed := ExamineAll(monke);
    ghost var drained := before[idx := Drained(before[idx])];
    PassesTargets(rules, idx, before[idx].items);
    DeliverAll(barrel, passed, drained);
  }

  /** The therapy loop of `shenanigans` (main.rs:167-169). */
  method TherapyForAll(barrel: seq<Monke>, therapyLcm: nat, ghost turned: seq<Holding>)
    requires Distinct(barrel) && therapyLcm > 0 && Models(barrel, turned)
    modifies set m | m in barrel
    ensures Models(barrel, TherapyAll(turned, therapyLcm))
  {
    for i := 0 to |barrel|
      invariant forall j :: 0 <= j < i ==>
        barrel[j].items == Reduce(turned[j].items, therapyLcm) && barrel[j].examinations == turned[j].examinations
      invariant forall j :: i <= j < |barrel| ==>
        barrel[j].items == turned[j].items && barrel[j].examinations == turned[j].examinations
    {
      barrel[i].Therapy(therapyLcm);
    }
  }

  /** The turn loop of `shenanigans` (main.rs:152-166): every monkey takes its turn,
      in index order. */
  method TakeTurns(barrel: seq<Monke>, ghost hs: seq<Holding>)
    requires Distinct(barrel) && Fits(RulesOf(barrel), hs) && Models(barrel, hs)
    modifies set m | m in barrel
    ensures Models(barrel, Turns(RulesOf(barrel), hs, |hs|))
  {
    ghost var rules := RulesOf(barrel);
    assert |hs| == |barrel|;
    for idx := 0 to |barrel|
      invariant Models(barrel, Turns(rules, hs, idx))
    {
      NextTurn(barrel, idx, rules, hs);
    }
  }

  /** The turn of monkey `idx` after those of monkeys `0 .. idx-1`. */
  method NextTurn(barrel: seq<Monke>, idx: nat, ghost rules: seq<Rule>, ghost hs: seq<Holding>)
    requires Distinct(barrel) && rules == RulesOf(barrel) && Fits(rules, hs)
    requires idx < |barrel| == |hs| && Models(barrel, Turns(rules, hs, idx))
    modifies set m | m in barrel
    ensures Models(barrel, Turns(rules, hs, idx + 1))
  {
    ghost var before := Turns(rules, hs, idx);
    TakeTurn(barrel, idx, rules, before);
    TurnsNext(rules, hs, idx);
  }

  /** `shenanigans` (main.rs:151-170): every monkey takes its turn in index order,
      then every queue gets its therapy. */
  method Shenanigans(barrel: seq<Monke>, therapyLcm: nat, ghost hs: seq<Holding>)
    requires Distinct(barrel) && Fits(RulesOf(barrel), hs) && therapyLcm > 0
    requires Models(barrel, hs)
    modifies set m | m in barrel
    ensures Models(barrel, Round(RulesOf(barrel), hs, therapyLcm))
  {
    TakeTurns(barrel, hs);
    TherapyForAll(barrel, therapyLcm, Turns(RulesOf(barrel), hs, |hs|));
  }

  /** The number of rounds `main` plays (main.rs:138). */
  const PlayedRounds: nat := 10_000

  /** The examination counters of a value state, in barrel order. */
  function Counts(hs: seq<Holding>): (counts: seq<nat>)
    ensures |counts| == |hs|
    ensures forall i :: 0 <= i < |hs| ==> counts[i] == hs[i].examinations
  {
    seq(|hs|, i requires 0 <= i < |hs| => hs[i].examinations)
  }

  /** The examination counters of the barrel's monkeys, in barrel order. */
  function CountsOf(barrel: seq<Monke>): (counts: seq<nat>)
    reads set m | m in barrel
    ensures |counts| == |barrel|
    ensures forall i :: 0 <= i < |barrel| ==> counts[i] == barrel[i].examinations
  {
    seq(|barrel|, i requires 0 <= i < |barrel| reads set m | m in barrel => barrel[i].examinations)
  }

  /** Valid rules have positive divisors, so `lcm` never divides by zero. */
  lemma ValidRulesLcm(rules: seq<Rule>)
    requires ValidRules(rules)
    ensures AtMostOneZero(Divisors(rules))
    ensures forall i :: 0 <= i < |rules| ==> Divisors(rules)[i] > 0
  {
  }

  /** The reduced simulation reports the counters of the unreduced one. */
  lemma RoundsCounts(rules: seq<Rule>, hs: seq<Holding>, m: nat, n: nat)
    requires Fits(rules, hs) && ModulusFor(rules, m)
    ensures Counts(Rounds(rules, hs, m, n)) == Counts(RawRounds(rules, hs, n))
  {
    RoundsCongruent(rules, hs, m, n);
  }

  /** `main` without its file reading and printing (main.rs:135-149): compute the lcm,
      play `rounds` rounds, rank the monkeys and multiply the two top counts. The
      answer is that of the simulation without therapy. */
  method Simulate(barrel: seq<Monke>, rounds: nat, ghost hs: seq<Holding>) returns (business: nat)
    requires |barrel| > 0 && Distinct(barrel) && Fits(RulesOf(barrel), hs) && Models(barrel, hs)
    modifies set m | m in barrel
    ensures Models(barrel, Rounds(RulesOf(barrel), hs, LcmOf(Divisors(RulesOf(barrel))), rounds))
    ensures business == Business(Counts(RawRounds(RulesOf(barrel), hs, rounds)))
  {
    ghost var rules := RulesOf(barrel);
    ValidRulesLcm(rules);
    var therapyLcm := GetLcm(barrel);
    for r := 0 to rounds
      invariant Models(barrel, Rounds(rules, hs, therapyLcm, r))
    {
      Shenanigans(barrel, therapyLcm, Rounds(rules, hs, therapyLcm, r));
    }
    var ranking := SortByExaminations(Standings(CountsOf(barrel)));
    business := MonkeyBusinessLevel(ranking);
    RoundsCounts(rules, hs, therapyLcm, rounds);
    assert CountsOf(barrel) == Counts(Rounds(rules, hs, therapyLcm, rounds));
  }

  /** `main` (main.rs:135-149) after `load_data`: the level of monkey business after
      `PlayedRounds` rounds. */
  method PlayRounds(barrel: seq<Monke>, ghost hs: seq<Holding>) returns (business: nat)
    requires |barrel| > 0 && Distinct(barrel) && Fits(RulesOf(barrel), hs) && Models(barrel, hs)
    modifies set m | m in barrel
    ensures business == Business(Counts(RawRounds(RulesOf(barrel), hs, PlayedRounds)))
  {
    business := Simulate(barrel, PlayedRounds, hs);
  }
}

/** The monkey exchange of day-11/src/main.rs, as values: a barrel of monkeys, each
    with fixed rules (an arithmetic operation and a divisibility test) and a changing
    holding (a queue of worry levels and an examination counter), simulated round by
    round. Worry levels are kept small by reducing them modulo a common multiple of
    all divisors after every round; the lemmas at the end of this module show that
    this reduction never changes where an item is thrown, so the examination counts
    are those of the unreduced simulation. The class that updates the barrel in place
    is in module MonkeyBarrel. */
module MonkeyBusiness {
  import opened Wrappers
  import opened MonkeyMath

  // ---------------------------------------------------------------------------
  // Operation (main.rs:10-42) and Test (main.rs:62-97)
  // ---------------------------------------------------------------------------

  datatype Operator = Addition | Multiplication

  /** `left operator right`; a missing operand (`None`) stands for the old worry level. */
  datatype Operation = Operation(left: Option<nat>, operator: Operator, right: Option<nat>)

  function Operand(operand: Option<nat>, worry: nat): (v: nat)
    ensures operand.None? ==> v == worry
    ensures operand.Some? ==> v == operand.value
  {
    match operand
    case None => worry
    case Some(c) => c
  }

  /** `Operation::result`. */
  function Apply(op: Operation, worry: nat): (level: nat)
    ensures op.operator == Addition ==> level == Operand(op.left, worry) + Operand(op.right, worry)
    ensures op.operator == Multiplication ==> level == Operand(op.left, worry) * Operand(op.right, worry)
  {
    var l, r := Operand(op.left, worry), Operand(op.right, worry);
    match op.operator
    case Addition => l + r
    case Multiplication => l * r
  }

  datatype TestKind = Divisible

  /** A divisibility test: `divisor` is the source's `value`, `onTrue`/`onFalse` the
      indices of the target monkeys. */
  datatype Test = Test(kind: TestKind, divisor: nat, onTrue: nat, onFalse: nat)

  /** `Test::perform` and `Test::divisble`; the `%` panics on a zero divisor. */
  function Perform(t: Test, worry: nat): (target: nat)
    requires t.divisor > 0
    ensures target == t.onTrue <== worry % t.divisor == 0
    ensures target == t.onFalse <== worry % t.divisor != 0
  {
    match t.kind
    case Divisible => if worry % t.divisor == 0 then t.onTrue else t.onFalse
  }

  /** The rules of one monkey; `shenanigans` never changes them. */
  datatype Rule = Rule(operation: Operation, test: Test)

  /** One examination: the monkey the new level is thrown to, and the new level
      (the pair `Monke::examine` returns). */
  function Inspect(rule: Rule, worry: nat): (pass: (nat, nat))
    requires rule.test.divisor > 0
    ensures pass.1 == Apply(rule.operation, worry)
    ensures pass.0 == Perform(rule.test, pass.1)
  {
    var level := Apply(rule.operation, worry);
    (Perform(rule.test, level), level)
  }

  // ---------------------------------------------------------------------------
  // The value view of the barrel
  // ---------------------------------------------------------------------------

  /** What changes in a `Monke`: its queue (front first) and its counter. */
  datatype Holding = Holding(items: seq<nat>, examinations: nat)

  /** The configuration `shenanigans` needs: every `%` has a positive divisor and
      every `get_mut(target).unwrap()` finds its monkey. */
  ghost predicate ValidRules(rules: seq<Rule>) {
    forall i :: 0 <= i < |rules| ==>
      rules[i].test.divisor > 0 && rules[i].test.onTrue < |rules| && rules[i].test.onFalse < |rules|
  }

  /** A barrel state that fits valid rules. */
  ghost predicate Fits(rules: seq<Rule>, hs: seq<Holding>) {
    ValidRules(rules) && |hs| == |rules|
  }

  /** The `(target, worry)` pairs a monkey emits when it examines `items` in order. */
  function Passes(rule: Rule, items: seq<nat>): (ps: seq<(nat, nat)>)
    requires rule.test.divisor > 0
    ensures |ps| == |items|
  {
    seq(|items|, k requires 0 <= k < |items| => Inspect(rule, items[k]))
  }

  /** Every pair of `ps` names a monkey of a barrel of size `n`. */
  ghost predicate TargetsBelow(ps: seq<(nat, nat)>, n: nat) {
    forall k :: 0 <= k < |ps| ==> ps[k].0 < n
  }

  lemma PassesTargets(rules: seq<Rule>, i: nat, items: seq<nat>)
    requires ValidRules(rules) && i < |rules|
    ensures TargetsBelow(Passes(rules[i], items), |rules|)
    ensures forall k :: 0 <= k < |items| ==>
      Passes(rules[i], items)[k].0 in {rules[i].test.onTrue, rules[i].test.onFalse}
  {
  }

  /** Appending `worry` to the queue of monkey `target` (`items.push_back`). */
  function Throw(hs: seq<Holding>, target: nat, worry: nat): (r: seq<Holding>)
    requires target < |hs|
    ensures |r| == |hs|
  {
    hs[target := hs[target].(items := hs[target].items + [worry])]
  }

  /** The second loop of a turn (main.rs:163-165): deliver the pairs in order. */
  function Deliver(hs: seq<Holding>, ps: seq<(nat, nat)>): (r: seq<Holding>)
    requires TargetsBelow(ps, |hs|)
    ensures |r| == |hs|
  {
    if ps == [] then hs
    else Throw(Deliver(hs, ps[..|ps| - 1]), ps[|ps| - 1].0, ps[|ps| - 1].1)
  }

  /** The worry levels of `ps` thrown to monkey `t`, in throwing order. */
  function Received(ps: seq<(nat, nat)>, t: nat): seq<nat> {
    if ps == [] then []
    else Received(ps[..|ps| - 1], t) + (if ps[|ps| - 1].0 == t then [ps[|ps| - 1].1] else [])
  }

  /** A monkey after examining every item it held at the start of its turn. */
  function Drained(h: Holding): Holding {
    Holding([], h.examinations + |h.items|)
  }

  /** One turn of monkey `idx` (main.rs:152-166): drain the queue it holds when the
      turn begins, collecting the passes, then deliver them. */
  function Turn(rules: seq<Rule>, hs: seq<Holding>, idx: nat): (r: seq<Holding>)
    requires Fits(rules, hs) && idx < |hs|
    ensures |r| == |hs|
  {
    PassesTargets(rules, idx, hs[idx].items);
    Deliver(hs[idx := Drained(hs[idx])], Passes(rules[idx], hs[idx].items))
  }

  /** The barrel after the turns of monkeys `0 .. k-1`, in index order. */
  function Turns(rules: seq<Rule>, hs: seq<Holding>, k: nat): (r: seq<Holding>)
    requires Fits(rules, hs) && k <= |hs|
    ensures |r| == |hs|
  {
    if k == 0 then hs else Turn(rules, Turns(rules, hs, k - 1), k - 1)
  }

  /** `Monke::therapy` on one queue. */
  function Reduce(items: seq<nat>, modulus: nat): (r: seq<nat>)
    requires modulus > 0
    ensures |r| == |items|
    ensures forall k :: 0 <= k < |r| ==> r[k] == items[k] % modulus < modulus
  {
    seq(|items|, k requires 0 <= k < |items| => items[k] % modulus)
  }

  /** The last loop of `shenanigans` (main.rs:167-169): every queue reduced. */
  function TherapyAll(hs: seq<Holding>, modulus: nat): (r: seq<Holding>)
    requires modulus > 0
    ensures |r| == |hs|
    ensures forall i :: 0 <= i < |r| ==>
      r[i].examinations == hs[i].examinations && |r[i].items| == |hs[i].items|
  {
    seq(|hs|, i requires 0 <= i < |hs| => hs[i].(items := Reduce(hs[i].items, modulus)))
  }

  /** One call of `shenanigans`. */
  function Round(rules: seq<Rule>, hs: seq<Holding>, modulus: nat): (r: seq<Holding>)
    requires Fits(rules, hs) && modulus > 0
    ensures |r| == |hs|
  {
    TherapyAll(Turns(rules, hs, |hs|), modulus)
  }

  /** `n` calls of `shenanigans`, as the loop of `main` makes. */
  function Rounds(rules: seq<Rule>, hs: seq<Holding>, modulus: nat, n: nat): (r: seq<Holding>)
    requires Fits(rules, hs) && modulus > 0
    ensures |r| == |hs|
  {
    if n == 0 then hs else Round(rules, Rounds(rules, hs, modulus, n - 1), modulus)
  }

  /** The reference the reduction is measured against: rounds without `therapy`. */
  function RawRounds(rules: seq<Rule>, hs: seq<Holding>, n: nat): (r: seq<Holding>)
    requires Fits(rules, hs)
    ensures |r| == |hs|
  {
    if n == 0 then hs
    else
      var prev := RawRounds(rules, hs, n - 1);
      Turns(rules, prev, |prev|)
  }

  // ---------------------------------------------------------------------------
  // What a turn does
  // ---------------------------------------------------------------------------

  /** Delivering `ps` keeps every counter and appends to monkey `t` exactly the
      values thrown to it. */
  lemma {:induction false} DeliverAt(hs: seq<Holding>, ps: seq<(nat, nat)>, t: nat)
    requires TargetsBelow(ps, |hs|) && t < |hs|
    ensures Deliver(hs, ps)[t].items == hs[t].items + Received(ps, t)
    ensures Deliver(hs, ps)[t].examinations == hs[t].examinations
  {
    if ps != [] {
      DeliverAt(hs, ps[..|ps| - 1], t);
    }
  }

  /** The snapshot rule: monkey `idx` examines exactly the items it held when its turn
      began; afterwards its queue holds only what it threw to itself, none of which it
      examined. Every other monkey keeps its queue and receives at its tail what was
      thrown to it, so a later monkey examines those items in the same round. */
  lemma TurnEffect(rules: seq<Rule>, hs: seq<Holding>, idx: nat, j: nat)
    requires Fits(rules, hs) && idx < |hs| && j < |hs|
    ensures Turn(rules, hs, idx)[j].examinations ==
            hs[j].examinations + (if j == idx then |hs[idx].items| else 0)
    ensures Turn(rules, hs, idx)[j].items ==
            (if j == idx then [] else hs[j].items) + Received(Passes(rules[idx], hs[idx].items), j)
  {
    PassesTargets(rules, idx, hs[idx].items);
    DeliverAt(hs[idx := Drained(hs[idx])], Passes(rules[idx], hs[idx].items), j);
  }

  lemma TurnsZero(rules: seq<Rule>, hs: seq<Holding>)
    requires Fits(rules, hs)
    ensures Turns(rules, hs, 0) == hs
  {
  }

  lemma TurnsNext(rules: seq<Rule>, hs: seq<Holding>, k: nat)
    requires Fits(rules, hs) && k < |hs|
    ensures Turns(rules, hs, k + 1) == Turn(rules, Turns(rules, hs, k), k)
  {
  }

  /** During a round, monkey `i` examines exactly the queue it holds when its own turn
      begins: before that turn its counter is untouched, after it the counter has
      grown by that queue's length. */
  lemma {:induction false} TurnsExaminations(rules: seq<Rule>, hs: seq<Holding>, k: nat, i: nat)
    requires Fits(rules, hs) && k <= |hs| && i < |hs|
    ensures Turns(rules, hs, k)[i].examinations ==
            hs[i].examinations + (if i < k then |Turns(rules, hs, i)[i].items| else 0)
  {
    if k == 0 {
      TurnsZero(rules, hs);
    } else {
      var prev := Turns(rules, hs, k - 1);
      TurnsExaminations(rules, hs, k - 1, i);
      TurnsNext(rules, hs, k - 1);
      TurnEffect(rules, prev, k - 1, i);
      var turned := Turn(rules, prev, k - 1)[i].examinations;
      assert Turns(rules, hs, k)[i].examinations == turned;
      if i == k - 1 {
        assert turned == prev[i].examinations + |prev[i].items|;
      } else {
        assert turned == prev[i].examinations;
      }
    }
  }

  // ---------------------------------------------------------------------------
  // Conservation
  // ---------------------------------------------------------------------------

  /** Number of items over all queues. */
  function TotalItems(hs: seq<Holding>): nat {
    if hs == [] then 0 else TotalItems(hs[..|hs| - 1]) + |hs[|hs| - 1].items|
  }

  /** Sum of all examination counters. */
  function TotalExaminations(hs: seq<Holding>): nat {
    if hs == [] then 0 else TotalExaminations(hs[..|hs| - 1]) + hs[|hs| - 1].examinations
  }

  lemma {:induction false} TotalsUpdate(hs: seq<Holding>, i: nat, h: Holding)
    requires i < |hs|
    ensures TotalItems(hs[i := h]) + |hs[i].items| == TotalItems(hs) + |h.items|
    ensures TotalExaminations(hs[i := h]) + hs[i].examinations == TotalExaminations(hs) + h.examinations
  {
    var n := |hs| - 1;
    var u := hs[i := h];
    assert u[..n] == if i == n then hs[..n] else hs[..n][i := h];
    if i < n {
      TotalsUpdate(hs[..n], i, h);
    }
  }

  /** Same queue lengths and counters give the same totals. */
  lemma {:induction false} TotalsAgree(a: seq<Holding>, b: seq<Holding>)
    requires |a| == |b|
    requires forall i :: 0 <= i < |a| ==> |a[i].items| == |b[i].items| && a[i].examinations == b[i].examinations
    ensures TotalItems(a) == TotalItems(b) && TotalExaminations(a) == TotalExaminations(b)
  {
    if a != [] {
      TotalsAgree(a[..|a| - 1], b[..|b| - 1]);
    }
  }

  lemma {:induction false} DeliverTotals(hs: seq<Holding>, ps: seq<(nat, nat)>)
    requires TargetsBelow(ps, |hs|)
    ensures TotalItems(Deliver(hs, ps)) == TotalItems(hs) + |ps|
    ensures TotalExaminations(Deliver(hs, ps)) == TotalExaminations(hs)
  {
    if ps != [] {
      var prev := Deliver(hs, ps[..|ps| - 1]);
      DeliverTotals(hs, ps[..|ps| - 1]);
      var t := ps[|ps| - 1].0;
      TotalsUpdate(prev, t, prev[t].(items := prev[t].items + [ps[|ps| - 1].1]));
    }
  }

  /** A turn moves items without creating or losing any, and adds to the counters
      exactly the number of items the monkey held. */
  lemma TurnTotals(rules: seq<Rule>, hs: seq<Holding>, idx: nat)
    requires Fits(rules, hs) && idx < |hs|
    ensures TotalItems(Turn(rules, hs, idx)) == TotalItems(hs)
    ensures TotalExaminations(Turn(rules, hs, idx)) == TotalExaminations(hs) + |hs[idx].items|
  {
    PassesTargets(rules, idx, hs[idx].items);
    TotalsUpdate(hs, idx, Drained(hs[idx]));
    DeliverTotals(hs[idx := Drained(hs[idx])], Passes(rules[idx], hs[idx].items));
  }

  /** Number of items examined by the turns of monkeys `0 .. k-1` of a round. */
  function Examined(rules: seq<Rule>, hs: seq<Holding>, k: nat): nat
    requires Fits(rules, hs) && k <= |hs|
  {
    if k == 0 then 0 else Examined(rules, hs, k - 1) + |Turns(rules, hs, k - 1)[k - 1].items|
  }

  lemma {:induction false} TurnsTotals(rules: seq<Rule>, hs: seq<Holding>, k: nat)
    requires Fits(rules, hs) && k <= |hs|
    ensures TotalItems(Turns(rules, hs, k)) == TotalItems(hs)
    ensures TotalExaminations(Turns(rules, hs, k)) == TotalExaminations(hs) + Examined(rules, hs, k)
  {
    if k == 0 {
      TurnsZero(rules, hs);
    } else {
      var prev := Turns(rules, hs, k - 1);
      TurnsTotals(rules, hs, k - 1);
      TurnTotals(rules, prev, k - 1);
      TurnsNext(rules, hs, k - 1);
    }
  }

  /** Conservation over a round: the barrel keeps its size and its number of items,
      and the counters grow by exactly the number of items examined. */
  lemma RoundTotals(rules: seq<Rule>, hs: seq<Holding>, modulus: nat)
    requires Fits(rules, hs) && modulus > 0
    ensures |Round(rules, hs, modulus)| == |hs|
    ensures TotalItems(Round(rules, hs, modulus)) == TotalItems(hs)
    ensures TotalExaminations(Round(rules, hs, modulus)) == TotalExaminations(hs) + Examined(rules, hs, |hs|)
  {
    TurnsTotals(rules, hs, |hs|);
    var t := Turns(rules, hs, |hs|);
    TotalsAgree(t, TherapyAll(t, modulus));
  }

  // ---------------------------------------------------------------------------
  // Therapy never changes a routing decision
  // ---------------------------------------------------------------------------

  /** `modulus` is a positive common multiple of every divisor of the barrel, as the
      lcm `get_lcm` computes is (main.rs:130-133). */
  ghost predicate ModulusFor(rules: seq<Rule>, modulus: nat) {
    modulus > 0 && forall i :: 0 <= i < |rules| ==> Divides(rules[i].test.divisor, modulus)
  }

  lemma ApplyCongruent(op: Operation, x: nat, y: nat, m: nat)
    requires m > 0 && Congruent(x, y, m)
    ensures Congruent(Apply(op, x), Apply(op, y), m)
  {
    var lx, rx := Operand(op.left, x), Operand(op.right, x);
    var ly, ry := Operand(op.left, y), Operand(op.right, y);
    assert Congruent(lx, ly, m) && Congruent(rx, ry, m);
    match op.operator
    case Addition => AddCongruent(lx, rx, ly, ry, m);
    case Multiplication => MulCongruent(lx, rx, ly, ry, m);
  }

  lemma PerformCongruent(t: Test, x: nat, y: nat, m: nat)
    requires t.divisor > 0 && m > 0 && Divides(t.divisor, m) && Congruent(x, y, m)
    ensures Perform(t, x) == Perform(t, y)
  {
    CongruentModDivisor(x, y, m, t.divisor);
  }

  /** Reducing a worry level modulo `modulus` changes neither the level's residue
      after the operation nor the monkey it is thrown to. */
  lemma ReductionKeepsRouting(rules: seq<Rule>, modulus: nat, i: nat, x: nat)
    requires ValidRules(rules) && ModulusFor(rules, modulus) && i < |rules|
    ensures (x % modulus) % rules[i].test.divisor == x % rules[i].test.divisor
    ensures Apply(rules[i].operation, x % modulus) % modulus == Apply(rules[i].operation, x) % modulus
    ensures Inspect(rules[i], x % modulus).0 == Inspect(rules[i], x).0
  {
    var d := rules[i].test.divisor;
    CongruentToRemainder(x, modulus);
    CongruentModDivisor(x % modulus, x, modulus, d);
    ApplyCongruent(rules[i].operation, x % modulus, x, modulus);
    PerformCongruent(rules[i].test, Apply(rules[i].operation, x % modulus), Apply(rules[i].operation, x), modulus);
  }

  /** Two queues that agree modulo `m`, position by position. */
  ghost predicate ItemsAgree(xs: seq<nat>, ys: seq<nat>, m: nat)
    requires m > 0
  {
    |xs| == |ys| && forall k :: 0 <= k < |xs| ==> Congruent(xs[k], ys[k], m)
  }

  /** Two barrel states with the same counters whose queues agree modulo `m`. */
  ghost predicate Agree(a: seq<Holding>, b: seq<Holding>, m: nat)
    requires m > 0
  {
    |a| == |b| &&
    forall i :: 0 <= i < |a| ==> a[i].examinations == b[i].examinations && ItemsAgree(a[i].items, b[i].items, m)
  }

  /** Two pass lists with the same targets whose levels agree modulo `m`. */
  ghost predicate PassesAgree(ps: seq<(nat, nat)>, qs: seq<(nat, nat)>, m: nat)
    requires m > 0
  {
    |ps| == |qs| && forall k :: 0 <= k < |ps| ==> ps[k].0 == qs[k].0 && Congruent(ps[k].1, qs[k].1, m)
  }

  lemma AgreeTransitive(a: seq<Holding>, b: seq<Holding>, c: seq<Holding>, m: nat)
    requires m > 0 && Agree(a, b, m) && Agree(b, c, m)
    ensures Agree(a, c, m)
  {
    forall i | 0 <= i < |a|
      ensures a[i].examinations == c[i].examinations && ItemsAgree(a[i].items, c[i].items, m)
    {
      assert ItemsAgree(a[i].items, b[i].items, m) && ItemsAgree(b[i].items, c[i].items, m);
    }
  }

  lemma PassesCongruent(rule: Rule, xs: seq<nat>, ys: seq<nat>, m: nat)
    requires rule.test.divisor > 0 && m > 0 && Divides(rule.test.divisor, m) && ItemsAgree(xs, ys, m)
    ensures PassesAgree(Passes(rule, xs), Passes(rule, ys), m)
  {
    forall k | 0 <= k < |xs|
      ensures Passes(rule, xs)[k].0 == Passes(rule, ys)[k].0
      ensures Congruent(Passes(rule, xs)[k].1, Passes(rule, ys)[k].1, m)
    {
      ApplyCongruent(rule.operation, xs[k], ys[k], m);
      PerformCongruent(rule.test, Apply(rule.operation, xs[k]), Apply(rule.operation, ys[k]), m);
    }
  }

  lemma ThrowCongruent(a: seq<Holding>, b: seq<Holding>, t: nat, x: nat, y: nat, m: nat)
    requires m > 0 && Agree(a, b, m) && t < |a| && Congruent(x, y, m)
    ensures Agree(Throw(a, t, x), Throw(b, t, y), m)
  {
    var a', b' := Throw(a, t, x), Throw(b, t, y);
    forall i | 0 <= i < |a'|
      ensures a'[i].examinations == b'[i].examinations && ItemsAgree(a'[i].items, b'[i].items, m)
    {
      if i == t {
        assert ItemsAgree(a[t].items, b[t].items, m);
        assert a'[t].items == a[t].items + [x] && b'[t].items == b[t].items + [y];
      }
    }
  }

  lemma {:induction false} DeliverCongruent(a: seq<Holding>, b: seq<Holding>, ps: seq<(nat, nat)>, qs: seq<(nat, nat)>, m: nat)
    requires m > 0 && Agree(a, b, m) && PassesAgree(ps, qs, m) && TargetsBelow(ps, |a|)
    ensures TargetsBelow(qs, |b|)
    ensures Agree(Deliver(a, ps), Deliver(b, qs), m)
  {
    if ps != [] {
      var n := |ps| - 1;
      assert PassesAgree(ps[..n], qs[..n], m);
      DeliverCongruent(a, b, ps[..n], qs[..n], m);
      ThrowCongruent(Deliver(a, ps[..n]), Deliver(b, qs[..n]), ps[n].0, ps[n].1, qs[n].1, m);
    }
  }

  lemma TurnCongruent(rules: seq<Rule>, a: seq<Holding>, b: seq<Holding>, idx: nat, m: nat)
    requires Fits(rules, a) && ModulusFor(rules, m) && Agree(a, b, m) && idx < |a|
    ensures Fits(rules, b)
    ensures Agree(Turn(rules, a, idx), Turn(rules, b, idx), m)
  {
    var da, db := a[idx := Drained(a[idx])], b[idx := Drained(b[idx])];
    assert ItemsAgree(a[idx].items, b[idx].items, m);
    assert Agree(da, db, m);
    PassesCongruent(rules[idx], a[idx].items, b[idx].items, m);
    PassesTargets(rules, idx, a[idx].items);
    DeliverCongruent(da, db, Passes(rules[idx], a[idx].items), Passes(rules[idx], b[idx].items), m);
  }

  lemma {:induction false} TurnsCongruent(rules: seq<Rule>, a: seq<Holding>, b: seq<Holding>, k: nat, m: nat)
    requires Fits(rules, a) && ModulusFor(rules, m) && Agree(a, b, m) && k <= |a|
    ensures Fits(rules, b)
    ensures Agree(Turns(rules, a, k), Turns(rules, b, k), m)
  {
    if k == 0 {
      TurnsZero(rules, a);
      TurnsZero(rules, b);
    } else {
      TurnsCongruent(rules, a, b, k - 1, m);
      TurnCongruent(rules, Turns(rules, a, k - 1), Turns(rules, b, k - 1), k - 1, m);
      TurnsNext(rules, a, k - 1);
      TurnsNext(rules, b, k - 1);
    }
  }

  lemma TherapyCongruent(hs: seq<Holding>, m: nat)
    requires m > 0
    ensures Agree(TherapyAll(hs, m), hs, m)
  {
    var r := TherapyAll(hs, m);
    forall i, k | 0 <= i < |hs| && 0 <= k < |hs[i].items|
      ensures Congruent(r[i].items[k], hs[i].items[k], m)
    {
      CongruentToRemainder(hs[i].items[k], m);
    }
  }

  /** A round with therapy, started from a state that agrees with `b`, ends in a state
      that agrees with the round of `b` without therapy. */
  lemma RoundCongruent(rules: seq<Rule>, a: seq<Holding>, b: seq<Holding>, m: nat)
    requires Fits(rules, a) && ModulusFor(rules, m) && Agree(a, b, m)
    ensures Fits(rules, b)
    ensures Agree(Round(rules, a, m), Turns(rules, b, |b|), m)
  {
    TurnsCongruent(rules, a, b, |a|, m);
    TherapyCongruent(Turns(rules, a, |a|), m);
    AgreeTransitive(Round(rules, a, m), Turns(rules, a, |a|), Turns(rules, b, |b|), m);
  }

  lemma AgreeReflexive(hs: seq<Holding>, m: nat)
    requires m > 0
    ensures Agree(hs, hs, m)
  {
  }

  /** The therapy invariant: after any number of rounds, the reduced simulation and
      the unreduced one agree modulo the lcm, and so have the same counters. */
  lemma {:induction false} RoundsCongruent(rules: seq<Rule>, hs: seq<Holding>, m: nat, n: nat)
    requires Fits(rules, hs) && ModulusFor(rules, m)
    ensures Agree(Rounds(rules, hs, m, n), RawRounds(rules, hs, n), m)
    ensures forall i :: 0 <= i < |hs| ==>
      Rounds(rules, hs, m, n)[i].examinations == RawRounds(rules, hs, n)[i].examinations
  {
    if n == 0 {
      AgreeReflexive(hs, m);
    } else {
      RoundsCongruent(rules, hs, m, n - 1);
      RoundCongruent(rules, Rounds(rules, hs, m, n - 1), RawRounds(rules, hs, n - 1), m);
    }
  }
}

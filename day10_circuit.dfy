/** Cathode-ray tube of day-10/src/main.rs: a one-register CPU whose queued
    instructions each take one cycle (`addx` is queued as a no-op followed by the
    addition), the signal strength sampled at cycles 20, 60, 100, ..., and a CRT that
    draws one pixel per cycle, lit when the 3-wide sprite centred on the register
    covers the beam, in rows of 40. */
module CathodeRayTube {
  import opened Wrappers

  const FirstCheck: nat := 20
  const SignalStep: nat := 40
  const CrtWidth: nat := 40
  const EmptyChar: char := ' '
  const FullChar: char := '\U{2588}'

  /** `sprite_range.contains`: the sprite covers `register - 1 .. register + 1`, so a
      pixel is lit exactly when the beam is at most one column from the register. */
  function Pixel(position: int, register: int): (c: char)
    ensures c == FullChar <==> -1 <= position - register <= 1
    ensures c in {FullChar, EmptyChar}
  {
    if register - 1 <= position < register + 2 then FullChar else EmptyChar
  }

  /** The text of the screen after drawing `pixels`: every full row of `CrtWidth`
      pixels is followed by a line break, the row in progress is not. */
  function Layout(pixels: seq<char>): (text: string)
    ensures |text| == |pixels| + |pixels| / CrtWidth
    ensures forall i :: 0 <= i < |pixels| ==> text[i + i / CrtWidth] == pixels[i]
    decreases |pixels|
  {
    if |pixels| < CrtWidth then pixels
    else
      var rest := pixels[CrtWidth..];
      var text := pixels[..CrtWidth] + "\n" + Layout(rest);
      assert forall i :: CrtWidth <= i < |pixels| ==> rest[i - CrtWidth] == pixels[i] && i / CrtWidth == (i - CrtWidth) / CrtWidth + 1;
      text
  }

  /** One more pixel goes at the end of the screen text, followed by a line break when
      it completes a row. */
  lemma {:induction false} LayoutSnoc(pixels: seq<char>, c: char)
    ensures Layout(pixels + [c]) ==
      Layout(pixels) + [c] + (if (|pixels| + 1) % CrtWidth == 0 then "\n" else "")
    decreases |pixels|
  {
    var q := pixels + [c];
    if |pixels| + 1 == CrtWidth {
      assert q[..CrtWidth] == q && q[CrtWidth..] == [];
    } else if |pixels| >= CrtWidth {
      assert q[..CrtWidth] == pixels[..CrtWidth];
      assert q[CrtWidth..] == pixels[CrtWidth..] + [c];
      LayoutSnoc(pixels[CrtWidth..], c);
    }
  }

  /** Drawing `c` on a screen whose text is the layout of `pixels`. */
  lemma ScreenStep(display: string, row: string, pixels: seq<char>, c: char)
    requires display + row == Layout(pixels) && |row| == |pixels| % CrtWidth && |row| < CrtWidth
    ensures |pixels + [c]| % CrtWidth == (|row| + 1) % CrtWidth
    ensures |row| + 1 < CrtWidth ==> display + (row + [c]) == Layout(pixels + [c])
    ensures |row| + 1 == CrtWidth ==> (display + (row + [c])) + "\n" + [] == Layout(pixels + [c])
  {
    LayoutSnoc(pixels, c);
    BeamAdvance(|pixels|);
    assert |pixels + [c]| == |pixels| + 1;
    assert display + (row + [c]) == Layout(pixels) + [c];
  }

  /** What one queue entry adds to the register. */
  function Value(entry: Option<int>): int {
    match entry
    case Some(v) => v
    case None => 0
  }

  /** The total a queue adds to the register. */
  function ValueSum(q: seq<Option<int>>): int {
    if q == [] then 0
    else ValueSum(q[..|q| - 1]) + Value(q[|q| - 1])
  }

  /** The cycles whose clock value the signal is sampled at: 20, 60, 100, ... */
  predicate IsCheckpoint(clock: int) {
    clock >= FirstCheck && (clock - FirstCheck) % SignalStep == 0
  }

  /** The signal strengths the first `n` cycles of a queue `q` add up to, starting from
      `register` and `clock`: cycle `j` runs at clock `clock + j + 1` with the
      register as the first `j` instructions left it. */
  function SignalSum(register: int, clock: nat, q: seq<Option<int>>, n: nat): int
    requires n <= |q|
  {
    if n == 0 then 0
    else
      var c := clock + n;
      SignalSum(register, clock, q, n - 1) +
        (if IsCheckpoint(c) then (register + ValueSum(q[..n - 1])) * c else 0)
  }

  /** The pixels the first `n` cycles draw from beam position `start` on. */
  function Beam(start: nat, register: int, q: seq<Option<int>>, n: nat): (b: seq<char>)
    requires n <= |q|
    ensures |b| == n
  {
    seq(n, j requires 0 <= j < n => Pixel((start + j) % CrtWidth, register + ValueSum(q[..j])))
  }

  /** The specification functions one cycle further on. */
  lemma CycleStep(start: nat, register: int, clock: nat, q: seq<Option<int>>, i: nat)
    requires i < |q|
    ensures ValueSum(q[..i + 1]) == ValueSum(q[..i]) + Value(q[i])
    ensures Beam(start, register, q, i + 1) ==
      Beam(start, register, q, i) + [Pixel((start + i) % CrtWidth, register + ValueSum(q[..i]))]
    ensures SignalSum(register, clock, q, i + 1) == SignalSum(register, clock, q, i) +
      (if IsCheckpoint(clock + i + 1) then (register + ValueSum(q[..i])) * (clock + i + 1) else 0)
  {
    assert q[..i + 1][..i] == q[..i];
  }

  /** One pass of the loop of `solve` keeps the loop's account of the register, the
      beam, the pixels and the sum. */
  lemma SolveStep(start: nat, register0: int, clock0: nat, q: seq<Option<int>>, i: nat,
                  crt: nat, register: int, strength: int, sum: int)
    requires i < |q| && crt == (start + i) % CrtWidth
    requires register == register0 + ValueSum(q[..i])
    requires strength == if IsCheckpoint(clock0 + i + 1) then register * (clock0 + i + 1) else 0
    requires sum == SignalSum(register0, clock0, q, i)
    ensures (crt + 1) % CrtWidth == (start + i + 1) % CrtWidth
    ensures register + Value(q[i]) == register0 + ValueSum(q[..i + 1])
    ensures Beam(start, register0, q, i + 1) == Beam(start, register0, q, i) + [Pixel(crt, register)]
    ensures sum + strength == SignalSum(register0, clock0, q, i + 1)
  {
    CycleStep(start, register0, clock0, q, i);
    BeamAdvance(start + i);
    BeamAdvance(crt);
  }

  /** The beam moves one column on, back to column 0 after the last. */
  lemma BeamAdvance(x: nat)
    ensures x % CrtWidth + 1 < CrtWidth ==> (x + 1) % CrtWidth == x % CrtWidth + 1
    ensures x % CrtWidth + 1 == CrtWidth ==> (x + 1) % CrtWidth == 0
  {
    var m := x / CrtWidth;
    assert x == CrtWidth * m + x % CrtWidth;
    if x % CrtWidth + 1 == CrtWidth {
      assert x + 1 == CrtWidth * (m + 1);
    } else {
      assert x + 1 == CrtWidth * m + (x % CrtWidth + 1);
    }
  }

  /** `checker` is the next sample point after `clock`. */
  predicate NextCheck(clock: nat, checker: nat) {
    clock < checker <= clock + SignalStep && checker >= FirstCheck && (checker - FirstCheck) % SignalStep == 0
  }

  /** When `checker` is the next sample point, the next cycle is sampled exactly when it
      reaches `checker`, and the checker advanced by one step is then the next one. */
  lemma NextCheckStep(clock: nat, checker: nat)
    requires NextCheck(clock, checker)
    ensures clock + 1 == checker <==> IsCheckpoint(clock + 1)
    ensures clock + 1 == checker ==> NextCheck(clock + 1, checker + SignalStep)
    ensures clock + 1 < checker ==> NextCheck(clock + 1, checker)
  {
    var m := (checker - FirstCheck) / SignalStep;
    assert checker == FirstCheck + SignalStep * m;
    if clock + 1 < checker && clock + 1 >= FirstCheck {
      var d := checker - (clock + 1);
      assert 0 < d < SignalStep;
      assert clock + 1 - FirstCheck == SignalStep * (m - 1) + (SignalStep - d);
    }
  }

  /** An instruction of the program text. */
  datatype Instr = Noop | Addx(value: int)

  /** The queue entries of a program: one cycle per `noop`, two per `addx`. */
  function Queue(program: seq<Instr>): seq<Option<int>> {
    if program == [] then []
    else
      Queue(program[..|program| - 1]) +
        match program[|program| - 1]
        case Noop => [None]
        case Addx(v) => [None, Some(v)]
  }

  function Cycles(program: seq<Instr>): nat {
    if program == [] then 0
    else Cycles(program[..|program| - 1]) + (if program[|program| - 1].Noop? then 1 else 2)
  }

  function AddxTotal(program: seq<Instr>): int {
    if program == [] then 0
    else AddxTotal(program[..|program| - 1]) + (match program[|program| - 1] case Noop => 0 case Addx(v) => v)
  }

  lemma {:induction false} ValueSumConcat(a: seq<Option<int>>, b: seq<Option<int>>)
    ensures ValueSum(a + b) == ValueSum(a) + ValueSum(b)
    decreases |b|
  {
    if b == [] {
      assert a + b == a;
    } else {
      ValueSumConcat(a, b[..|b| - 1]);
      assert (a + b)[..|a + b| - 1] == a + b[..|b| - 1];
    }
  }

  /** A program queues one entry per cycle it takes, and the register ends up moved by
      the sum of its `addx` values. */
  lemma {:induction false} QueueOfProgram(program: seq<Instr>)
    ensures |Queue(program)| == Cycles(program)
    ensures ValueSum(Queue(program)) == AddxTotal(program)
  {
    if program != [] {
      var init := program[..|program| - 1];
      QueueOfProgram(init);
      match program[|program| - 1]
      case Noop =>
        var tail: seq<Option<int>> := [None];
        ValueSumConcat(Queue(init), tail);
        assert tail[..0] == [];
      case Addx(v) =>
        var tail: seq<Option<int>> := [None, Some(v)];
        ValueSumConcat(Queue(init), tail);
        assert tail[..1][..0] == [] && tail[..1][0] == None;
        assert ValueSum(tail[..1]) == 0;
        assert ValueSum(tail) == v;
    }
  }

  /** `struct Circuit` (main.rs:7-23). The drawn pixels are kept alongside as a ghost
      history. */
  class Circuit {
    var register: int
    var clock: nat
    var signalChecker: nat
    var crtPosition: int
    var crtRow: string
    var crtDisplay: string
    var instructions: seq<Option<int>>
    ghost var pixels: seq<char>

    /** The screen: the beam is inside a row, the row holds the pixels drawn in it, and
        the flushed rows with the row in progress are the layout of every pixel drawn. */
    ghost predicate ScreenValid()
      reads this
    {
      0 <= crtPosition < CrtWidth && |crtRow| == crtPosition &&
      |pixels| % CrtWidth == crtPosition &&
      crtDisplay + crtRow == Layout(pixels)
    }

    /** Between cycles the checker is the next sample point. */
    ghost predicate Valid()
      reads this
    {
      ScreenValid() && NextCheck(clock, signalChecker)
    }

    /** `Circuit::new` (main.rs:26-45). */
    constructor ()
      ensures Valid()
      ensures register == 1 && clock == 0 && signalChecker == FirstCheck
      ensures crtPosition == 0 && crtRow == [] && crtDisplay == [] && instructions == [] && pixels == []
    {
      register := 1;
      clock := 0;
      signalChecker := FirstCheck;
      crtPosition := 0;
      crtRow := [];
      crtDisplay := [];
      instructions := [];
      pixels := [];
    }

    /** `add` (main.rs:47-50): a cycle of nothing, then a cycle adding `val`. */
    method Add(val: int)
      modifies this
      ensures instructions == old(instructions) + [None, Some(val)]
      ensures register == old(register) && clock == old(clock) && signalChecker == old(signalChecker)
      ensures crtPosition == old(crtPosition) && crtRow == old(crtRow) && crtDisplay == old(crtDisplay)
      ensures pixels == old(pixels)
    {
      instructions := instructions + [None, Some(val)];
    }

    /** `noop` (main.rs:68-70): a cycle of nothing. */
    method Noop()
      modifies this
      ensures instructions == old(instructions) + [None]
      ensures register == old(register) && clock == old(clock) && signalChecker == old(signalChecker)
      ensures crtPosition == old(crtPosition) && crtRow == old(crtRow) && crtDisplay == old(crtDisplay)
      ensures pixels == old(pixels)
    {
      instructions := instructions + [None];
    }

    /** The loop of `load_data` (main.rs:110-117) after the commands are read: each
        command queued in order. */
    method Load(program: seq<Instr>)
      modifies this
      ensures instructions == old(instructions) + Queue(program)
      ensures register == old(register) && clock == old(clock) && signalChecker == old(signalChecker)
      ensures crtPosition == old(crtPosition) && crtRow == old(crtRow) && crtDisplay == old(crtDisplay)
      ensures pixels == old(pixels)
    {
      for k := 0 to |program|
        invariant instructions == old(instructions) + Queue(program[..k])
        invariant register == old(register) && clock == old(clock) && signalChecker == old(signalChecker)
        invariant crtPosition == old(crtPosition) && crtRow == old(crtRow) && crtDisplay == old(crtDisplay)
        invariant pixels == old(pixels)
      {
        assert program[..k + 1][..k] == program[..k];
        match program[k]
        case Noop => Noop();
        case Addx(v) => Add(v);
      }
      assert program[..|program|] == program;
    }

    /** `draw_crt` (main.rs:52-66): one pixel at the beam, and a full row flushed with a
        line break. */
    method DrawCrt()
      requires ScreenValid()
      modifies this
      ensures ScreenValid()
      ensures pixels == old(pixels) + [Pixel(old(crtPosition), register)]
      ensures old(crtPosition) + 1 < CrtWidth ==>
        crtPosition == old(crtPosition) + 1 && crtRow == old(crtRow) + [Pixel(old(crtPosition), register)] &&
        crtDisplay == old(crtDisplay)
      ensures old(crtPosition) + 1 == CrtWidth ==>
        crtPosition == 0 && crtRow == [] &&
        crtDisplay == old(crtDisplay) + old(crtRow) + [Pixel(old(crtPosition), register)] + "\n"
      ensures register == old(register) && clock == old(clock) && signalChecker == old(signalChecker)
      ensures instructions == old(instructions)
    {
      var c := Pixel(crtPosition, register);
      ScreenStep(crtDisplay, crtRow, pixels, c);
      pixels := pixels + [c];
      if register - 1 <= crtPosition < register + 2 {
        crtRow := crtRow + [FullChar];
      } else {
        crtRow := crtRow + [EmptyChar];
      }
      crtPosition := crtPosition + 1;
      if crtPosition >= CrtWidth {
        crtDisplay := crtDisplay + crtRow;
        crtDisplay := crtDisplay + "\n";
        crtRow := [];
        crtPosition := 0;
      }
    }

    /** `signal_strength` (main.rs:72-74). */
    function SignalStrength(): int
      reads this
    {
      register * clock
    }

    /** `check_signal` (main.rs:84-91): before the checker nothing; from it on the
        strength, and the checker moves one step on. */
    method CheckSignal() returns (strength: int)
      modifies this
      ensures old(clock) < old(signalChecker) ==> strength == 0 && signalChecker == old(signalChecker)
      ensures old(clock) >= old(signalChecker) ==>
        strength == register * clock && signalChecker == old(signalChecker) + SignalStep
      ensures register == old(register) && clock == old(clock) && instructions == old(instructions)
      ensures crtPosition == old(crtPosition) && crtRow == old(crtRow) && crtDisplay == old(crtDisplay)
      ensures pixels == old(pixels)
    {
      if clock < signalChecker {
        return 0;
      }
      signalChecker := signalChecker + SignalStep;
      strength := SignalStrength();
    }

    /** `tick` (main.rs:76-82): the front instruction is executed; `unwrap` panics on
        an empty queue. */
    method Tick()
      requires |instructions| > 0
      modifies this
      ensures instructions == old(instructions)[1..]
      ensures register == old(register) + Value(old(instructions)[0])
      ensures clock == old(clock) && signalChecker == old(signalChecker)
      ensures crtPosition == old(crtPosition) && crtRow == old(crtRow) && crtDisplay == old(crtDisplay)
      ensures pixels == old(pixels)
    {
      var instruction := instructions[0];
      instructions := instructions[1..];
      match instruction
      case None =>
      case Some(val) => register := register + val;
    }

    /** One pass of the loop of `solve` (main.rs:95-100): the clock ticks, a pixel is
        drawn with the register as it is, the signal is sampled, and only then is the
        front instruction executed. */
    method Cycle() returns (strength: int)
      requires Valid() && |instructions| > 0
      modifies this
      ensures Valid()
      ensures instructions == old(instructions)[1..]
      ensures clock == old(clock) + 1
      ensures register == old(register) + Value(old(instructions)[0])
      ensures crtPosition == (old(crtPosition) + 1) % CrtWidth
      ensures pixels == old(pixels) + [Pixel(old(crtPosition), old(register))]
      ensures strength == if IsCheckpoint(old(clock) + 1) then old(register) * (old(clock) + 1) else 0
    {
      NextCheckStep(clock, signalChecker);
      BeamAdvance(crtPosition);
      clock := clock + 1;
      DrawCrt();
      strength := CheckSignal();
      Tick();
    }

    /** After `i` passes of the loop of `solve` over the queue `q`, started with the
        beam at `start`, the register at `register0`, the clock at `clock0` and the
        pixels `pixels0`: the state and the running `sum` are those the first `i`
        instructions give. */
    ghost predicate SolvedUpTo(q: seq<Option<int>>, i: nat, start: nat, register0: int, clock0: nat,
                               pixels0: seq<char>, sum: int)
      reads this
    {
      i <= |q| && Valid() &&
      instructions == q[i..] &&
      clock == clock0 + i &&
      register == register0 + ValueSum(q[..i]) &&
      crtPosition == (start + i) % CrtWidth &&
      pixels == pixels0 + Beam(start, register0, q, i) &&
      sum == SignalSum(register0, clock0, q, i)
    }

    /** One pass of the loop of `solve` (main.rs:95-100), with the running sum. */
    method SolvePass(ghost q: seq<Option<int>>, ghost i: nat, ghost start: nat, ghost register0: int,
                     ghost clock0: nat, ghost pixels0: seq<char>, sum: int) returns (next: int)
      requires i < |q| && SolvedUpTo(q, i, start, register0, clock0, pixels0, sum)
      modifies this
      ensures SolvedUpTo(q, i + 1, start, register0, clock0, pixels0, next)
    {
      assert q[i..][1..] == q[i + 1..];
      ghost var crt, reg := crtPosition, register;
      var strength := Cycle();
      SolveStep(start, register0, clock0, q, i, crt, reg, strength, sum);
      next := sum + strength;
    }

    /** `solve` (main.rs:93-102): one cycle per queued instruction; the register ends
        moved by the queue's total, the CRT has drawn one pixel per cycle, and the sum
        is that of the strengths at the sample points the cycles reach. */
    method Solve() returns (signalStrengthSum: int)
      requires Valid()
      modifies this
      ensures Valid()
      ensures instructions == []
      ensures clock == old(clock) + |old(instructions)|
      ensures register == old(register) + ValueSum(old(instructions))
      ensures pixels == old(pixels) + Beam(old(crtPosition), old(register), old(instructions), |old(instructions)|)
      ensures signalStrengthSum == SignalSum(old(register), old(clock), old(instructions), |old(instructions)|)
    {
      signalStrengthSum := 0;
      ghost var q := instructions;
      ghost var start := crtPosition;
      var n := |instructions|;
      assert q[..0] == [];
      for i := 0 to n
        invariant SolvedUpTo(q, i, start, old(register), old(clock), old(pixels), signalStrengthSum)
      {
        signalStrengthSum := SolvePass(q, i, start, old(register), old(clock), old(pixels), signalStrengthSum);
      }
      assert q[..n] == q;
    }
  }
}

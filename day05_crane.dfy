/** Supply stacks of day-05/src/main.rs: crane instructions read from `move a from b
    to c`, a ship whose stacks the two cranes rearrange in place, the tops of the
    stacks, and the parsing of one drawing row into the stacks. */
module SupplyStacks {
  import opened Wrappers
  import opened Text

  /** `struct CraneInstructions` (main.rs:8-13), with `from` and `to` 0-based. */
  datatype Instruction = Instruction(amount: nat, from: nat, to: nat)

  // ---------------------------------------------------------------------------
  // `try_from` (main.rs:15-43)
  // ---------------------------------------------------------------------------

  /** `parse::<usize>()` of a stack number, then `- 1`: the `expect` panics on a bad
      number and the subtraction on 0. */
  predicate IsStackNumber(w: string) {
    var n := ParseUnsigned(w, U64Max);
    n.Some? && n.value >= 1
  }

  /** What `try_from` needs of the words of a line not to panic: each of the words it
      reaches before a missing one parses. */
  predicate Parsable(words: seq<string>) {
    |words| >= 2 ==>
      ParseUnsigned(words[1], U32Max).Some? &&
      (|words| >= 4 ==> IsStackNumber(words[3]) && (|words| >= 6 ==> IsStackNumber(words[5])))
  }

  /** `try_from`: words 1, 3 and 5 of the line, with the error of the first one missing. */
  function ParseInstruction(line: string): (r: Result<Instruction, string>)
    requires Parsable(Words(line))
    ensures |Words(line)| < 2 <==> r == Err("Missing amount")
    ensures 2 <= |Words(line)| < 4 <==> r == Err("Missing from")
    ensures 4 <= |Words(line)| < 6 <==> r == Err("Missing to")
    ensures r.Ok? <==> |Words(line)| >= 6
    ensures r.Ok? ==> Some(r.value.amount) == ParseUnsigned(Words(line)[1], U32Max) &&
                      Some(r.value.from + 1) == ParseUnsigned(Words(line)[3], U64Max) &&
                      Some(r.value.to + 1) == ParseUnsigned(Words(line)[5], U64Max)
  {
    var words := Words(line);
    if |words| < 2 then Err("Missing amount")
    else
      var amount := ParseUnsigned(words[1], U32Max).value;
      if |words| < 4 then Err("Missing from")
      else
        var from := ParseUnsigned(words[3], U64Max).value - 1;
        if |words| < 6 then Err("Missing to")
        else
          var to := ParseUnsigned(words[5], U64Max).value - 1;
          Ok(Instruction(amount, from, to))
  }

  /** The text of an instruction, as the puzzle writes it. */
  function Format(ins: Instruction): string {
    Join(["move", Decimal(ins.amount), "from", Decimal(ins.from + 1), "to", Decimal(ins.to + 1)], ' ')
  }

  lemma DigitsAreWord(s: string)
    requires |s| > 0 && AllDigits(s)
    ensures IsWord(s)
  {
  }

  /** The words of the text are the six the text was joined from. */
  lemma FormatWords(ins: Instruction)
    ensures Words(Format(ins)) ==
      ["move", Decimal(ins.amount), "from", Decimal(ins.from + 1), "to", Decimal(ins.to + 1)]
  {
    var words := ["move", Decimal(ins.amount), "from", Decimal(ins.from + 1), "to", Decimal(ins.to + 1)];
    DigitsAreWord(words[1]);
    DigitsAreWord(words[3]);
    DigitsAreWord(words[5]);
    assert IsWord(words[0]) && IsWord(words[2]) && IsWord(words[4]);
    JoinWords(words);
  }

  /** An instruction within the integer types is read back from its text. */
  lemma ParseFormat(ins: Instruction)
    requires ins.amount <= U32Max && ins.from + 1 <= U64Max && ins.to + 1 <= U64Max
    ensures Parsable(Words(Format(ins)))
    ensures ParseInstruction(Format(ins)) == Ok(ins)
  {
    FormatWords(ins);
    ParseDecimal(ins.amount, U32Max);
    ParseDecimal(ins.from + 1, U64Max);
    ParseDecimal(ins.to + 1, U64Max);
  }

  // ---------------------------------------------------------------------------
  // The moves as functions of the stacks (main.rs:61-76)
  // ---------------------------------------------------------------------------

  function Reversed(s: seq<string>): (r: seq<string>)
    ensures |r| == |s|
  {
    seq(|s|, k requires 0 <= k < |s| => s[|s| - 1 - k])
  }

  lemma ReversedTwice(s: seq<string>)
    ensures Reversed(Reversed(s)) == s
  {
  }

  /** In which order the grip hands its crates over: `move_crate` appends them in the
      order they were popped, `move_crate2` reverses the grip first. */
  datatype GripOrder = PopOrder | StackOrder

  /** The crates the crane appends after lifting the top `amount` of `s`: in the
      order popped, top crate first, or in the order they stood on the stack. */
  function Grip(s: seq<string>, amount: nat, order: GripOrder): (g: seq<string>)
    requires amount <= |s|
    ensures |g| == amount
    ensures order == PopOrder ==> forall i :: 0 <= i < amount ==> g[i] == s[|s| - 1 - i]
    ensures order == StackOrder ==> forall i :: 0 <= i < amount ==> g[i] == s[|s| - amount + i]
  {
    match order
    case PopOrder => Reversed(s[|s| - amount..])
    case StackOrder => s[|s| - amount..]
  }

  /** What a move needs not to panic: the target stack exists (`append`), and when
      anything is lifted the source stack exists and holds enough (`pop().unwrap()`). */
  predicate CanMove(stacks: seq<seq<string>>, ins: Instruction) {
    ins.to < |stacks| && (ins.amount > 0 ==> ins.from < |stacks| && ins.amount <= |stacks[ins.from]|)
  }

  /** The stacks after one move: the top `amount` crates leave `from`, then the grip
      is appended to `to`. */
  function AfterMove(stacks: seq<seq<string>>, ins: Instruction, order: GripOrder): (r: seq<seq<string>>)
    requires CanMove(stacks, ins)
    ensures |r| == |stacks|
  {
    if ins.amount == 0 then stacks
    else
      var s := stacks[ins.from];
      var lifted := stacks[ins.from := s[..|s| - ins.amount]];
      lifted[ins.to := lifted[ins.to] + Grip(s, ins.amount, order)]
  }

  /** Between different stacks: `from` loses its top `amount` crates, `to` gains them
      reversed by `move_crate` and in their order by `move_crate2`, and every other
      stack is unchanged. */
  lemma MoveBetweenStacks(stacks: seq<seq<string>>, ins: Instruction, order: GripOrder)
    requires CanMove(stacks, ins) && ins.amount > 0 && ins.from != ins.to
    ensures var r := AfterMove(stacks, ins, order); var s := stacks[ins.from]; var n := |s| - ins.amount;
      r[ins.from] == s[..n] &&
      r[ins.to] == stacks[ins.to] + (if order == StackOrder then s[n..] else Reversed(s[n..])) &&
      forall j :: 0 <= j < |stacks| && j != ins.from && j != ins.to ==> r[j] == stacks[j]
  {
  }

  /** On one stack: `move_crate2` leaves it as it was, `move_crate` reverses its top
      `amount` crates; the other stacks are unchanged. */
  lemma MoveWithinStack(stacks: seq<seq<string>>, ins: Instruction, order: GripOrder)
    requires CanMove(stacks, ins) && ins.from == ins.to
    ensures var r := AfterMove(stacks, ins, order); var s := stacks[ins.to]; var n := |s| - ins.amount;
      (order == StackOrder ==> r == stacks) &&
      r[ins.to] == s[..n] + (if order == StackOrder then s[n..] else Reversed(s[n..])) &&
      forall j :: 0 <= j < |stacks| && j != ins.to ==> r[j] == stacks[j]
  {
    var s := stacks[ins.to];
    var n := |s| - ins.amount;
    assert s[..n] + s[n..] == s;
    if ins.amount == 0 {
      assert s[n..] == [] && Reversed(s[n..]) == [];
    }
  }

  /** The number of crates on the ship. */
  function TotalCrates(stacks: seq<seq<string>>): nat {
    if stacks == [] then 0 else TotalCrates(stacks[..|stacks| - 1]) + |stacks[|stacks| - 1]|
  }

  lemma {:induction false} TotalUpdate(stacks: seq<seq<string>>, j: nat, v: seq<string>)
    requires j < |stacks|
    ensures TotalCrates(stacks[j := v]) + |stacks[j]| == TotalCrates(stacks) + |v|
  {
    var n := |stacks|;
    if j < n - 1 {
      TotalUpdate(stacks[..n - 1], j, v);
      assert stacks[j := v][..n - 1] == stacks[..n - 1][j := v];
    } else {
      assert stacks[j := v][..n - 1] == stacks[..n - 1];
    }
  }

  /** A move neither makes nor loses crates. */
  lemma MoveConserves(stacks: seq<seq<string>>, ins: Instruction, order: GripOrder)
    requires CanMove(stacks, ins)
    ensures TotalCrates(AfterMove(stacks, ins, order)) == TotalCrates(stacks)
  {
    if ins.amount > 0 {
      var s := stacks[ins.from];
      var lifted := stacks[ins.from := s[..|s| - ins.amount]];
      TotalUpdate(stacks, ins.from, s[..|s| - ins.amount]);
      TotalUpdate(lifted, ins.to, lifted[ins.to] + Grip(s, ins.amount, order));
    }
  }

  /** The instructions can be carried out one after the other. */
  predicate CanRun(stacks: seq<seq<string>>, instructions: seq<Instruction>, order: GripOrder)
    decreases |instructions|, 0
  {
    instructions == [] ||
    (CanRun(stacks, instructions[..|instructions| - 1], order) &&
     CanMove(AfterCrane(stacks, instructions[..|instructions| - 1], order), instructions[|instructions| - 1]))
  }

  /** The stacks after the instructions, in queue order (`move_crane`, `move_crane2`). */
  function AfterCrane(stacks: seq<seq<string>>, instructions: seq<Instruction>, order: GripOrder): (r: seq<seq<string>>)
    requires CanRun(stacks, instructions, order)
    ensures |r| == |stacks|
    decreases |instructions|, 1
  {
    if instructions == [] then stacks
    else
      var init := instructions[..|instructions| - 1];
      AfterMove(AfterCrane(stacks, init, order), instructions[|instructions| - 1], order)
  }

  /** Craning conserves the crates. */
  lemma {:induction false} CraneConserves(stacks: seq<seq<string>>, instructions: seq<Instruction>, order: GripOrder)
    requires CanRun(stacks, instructions, order)
    ensures TotalCrates(AfterCrane(stacks, instructions, order)) == TotalCrates(stacks)
  {
    if instructions != [] {
      var init := instructions[..|instructions| - 1];
      CraneConserves(stacks, init, order);
      MoveConserves(AfterCrane(stacks, init, order), instructions[|instructions| - 1], order);
    }
  }

  /** `grab_tops` (main.rs:92-99): the last crate of every stack, `" "` for an empty one. */
  function Tops(stacks: seq<seq<string>>): (tops: seq<string>)
    ensures |tops| == |stacks|
    ensures forall k :: 0 <= k < |stacks| && stacks[k] != [] ==> tops[k] == stacks[k][|stacks[k]| - 1]
    ensures forall k :: 0 <= k < |stacks| && stacks[k] == [] ==> tops[k] == " "
  {
    seq(|stacks|, k requires 0 <= k < |stacks| => if stacks[k] == [] then " " else stacks[k][|stacks[k]| - 1])
  }

  /** After a move between different stacks, the top of `to` is the crate that was
      deepest in the grip for `move_crate`, and the old top of `from` for `move_crate2`. */
  lemma TopAfterMove(stacks: seq<seq<string>>, ins: Instruction, order: GripOrder)
    requires CanMove(stacks, ins) && ins.amount > 0 && ins.from != ins.to
    ensures var s := stacks[ins.from];
      Tops(AfterMove(stacks, ins, order))[ins.to] ==
        if order == StackOrder then s[|s| - 1] else s[|s| - ins.amount]
  {
    MoveBetweenStacks(stacks, ins, order);
  }

  // ---------------------------------------------------------------------------
  // A drawing row (main.rs:141-164)
  // ---------------------------------------------------------------------------

  /** The number of 4-character cells of a drawing row; the last one may lack its
      trailing space. */
  function Cells(line: string): nat {
    |line| / 4 + 1
  }

  /** What the row loop needs not to panic: the last cell reaches its letter
      (`crate_name[1]` after the loop), and every letter names an existing stack. */
  predicate IsRow(stacks: seq<seq<string>>, line: string) {
    |line| % 4 >= 2 &&
    forall k :: 0 <= k < Cells(line) && !IsWhitespace(line[4 * k + 1]) ==> k < |stacks|
  }

  /** The stacks after the first `n` cells of the row: cell `k`'s letter, when it is no
      whitespace, goes on top of stack `k`. */
  function PushCells(stacks: seq<seq<string>>, line: string, n: nat): (r: seq<seq<string>>)
    requires n <= Cells(line) && 4 * (Cells(line) - 1) + 1 < |line|
    ensures |r| == |stacks|
  {
    seq(|stacks|, j requires 0 <= j < |stacks| =>
      if j < n && !IsWhitespace(line[4 * j + 1]) then stacks[j] + [[line[4 * j + 1]]] else stacks[j])
  }

  /** A row only puts crates on top: every stack keeps its crates below the new ones. */
  lemma PushCellsGrows(stacks: seq<seq<string>>, line: string)
    requires IsRow(stacks, line)
    ensures 4 * (Cells(line) - 1) + 1 < |line|
    ensures forall j :: 0 <= j < |stacks| ==>
      var r := PushCells(stacks, line, Cells(line))[j];
      r[..|stacks[j]|] == stacks[j] && |r| <= |stacks[j]| + 1
  {
  }

  /** `struct Ship` (main.rs:45-48). */
  class Ship {
    var stacks: seq<seq<string>>

    /** `crate_amount` empty stacks (main.rs:135-139). */
    constructor (crateAmount: nat)
      ensures |stacks| == crateAmount
      ensures forall k :: 0 <= k < crateAmount ==> stacks[k] == []
    {
      stacks := seq(crateAmount, k => []);
    }

    /** `move_crate` (main.rs:61-67) and `move_crate2` (main.rs:69-76): pop `amount`
        crates into the grip, reverse it for the second crane, append it to `to`. */
    method Move(ins: Instruction, order: GripOrder)
      requires CanMove(stacks, ins)
      modifies this
      ensures stacks == AfterMove(old(stacks), ins, order)
    {
      ghost var s := if ins.amount > 0 then stacks[ins.from] else [];
      var grip: seq<string> := [];
      if ins.amount > 0 {
        assert s[..|s|] == s && old(stacks)[ins.from := s] == old(stacks);
      }
      for i := 0 to ins.amount
        invariant |stacks| == |old(stacks)|
        invariant ins.amount == 0 ==> stacks == old(stacks)
        invariant ins.amount > 0 ==> stacks == old(stacks)[ins.from := s[..|s| - i]]
        invariant grip == Reversed(s[|s| - i..])
      {
        var stack := stacks[ins.from];
        grip := grip + [stack[|stack| - 1]];
        stacks := stacks[ins.from := stack[..|stack| - 1]];
        assert s[..|s| - i][..|s| - i - 1] == s[..|s| - (i + 1)];
      }
      if order == StackOrder {
        grip := Reversed(grip);
        ReversedTwice(s[|s| - ins.amount..]);
      }
      if ins.amount == 0 {
        assert stacks[ins.to] + grip == stacks[ins.to];
      }
      stacks := stacks[ins.to := stacks[ins.to] + grip];
    }

    /** `move_crane` and `move_crane2` (main.rs:78-90): every instruction in queue order. */
    method MoveCrane(instructions: seq<Instruction>, order: GripOrder)
      requires CanRun(stacks, instructions, order)
      modifies this
      ensures stacks == AfterCrane(old(stacks), instructions, order)
      ensures TotalCrates(stacks) == TotalCrates(old(stacks))
    {
      for k := 0 to |instructions|
        invariant CanRun(old(stacks), instructions[..k], order)
        invariant stacks == AfterCrane(old(stacks), instructions[..k], order)
      {
        assert instructions[..k + 1][..k] == instructions[..k];
        PrefixCanRun(old(stacks), instructions, k + 1, order);
        Move(instructions[k], order);
      }
      assert instructions[..|instructions|] == instructions;
      CraneConserves(old(stacks), instructions, order);
    }

    /** The push of `build_ship` (main.rs:149-151, 158-161): the letter at offset 1 of
        the collected cell goes on top of stack `crateNum` unless it is whitespace. */
    method PushCrate(line: string, crateNum: nat, crateName: seq<char>, ghost start: seq<seq<string>>)
      requires IsRow(start, line) && crateNum < Cells(line)
      requires 2 <= |crateName| && 4 * crateNum + |crateName| <= |line|
      requires crateName == line[4 * crateNum..4 * crateNum + |crateName|]
      requires stacks == PushCells(start, line, crateNum)
      modifies this
      ensures stacks == PushCells(start, line, crateNum + 1)
    {
      RowShape(line);
      PushStep(start, line, crateNum);
      if !IsWhitespace(crateName[1]) {
        stacks := stacks[crateNum := stacks[crateNum] + [[crateName[1]]]];
      }
    }

    /** The row loop of `build_ship` (main.rs:144-161): the characters are collected in
        `crate_name` until a cell ends, then the letter at offset 1 is pushed. */
    method PushRow(line: string)
      requires IsRow(stacks, line)
      modifies this
      ensures 4 * (Cells(line) - 1) + 1 < |line|
      ensures stacks == PushCells(old(stacks), line, Cells(line))
    {
      RowShape(line);
      var crateNum := 0;
      var crateName: seq<char> := [];
      for idx := 0 to |line|
        invariant idx == 4 * crateNum + |crateName| && |crateName| <= 3
        invariant crateName == line[4 * crateNum..idx]
        invariant crateNum <= |line| / 4
        invariant stacks == PushCells(old(stacks), line, crateNum)
      {
        CellOffset(|line|, crateNum, |crateName|);
        if (idx + 1) % 4 == 0 && idx != 0 {
          PushCrate(line, crateNum, crateName, old(stacks));
          crateNum := crateNum + 1;
          crateName := [];
          continue;
        }
        crateName := crateName + [line[idx]];
      }
      CellOffset(|line|, crateNum, |crateName|);
      PushCrate(line, crateNum, crateName, old(stacks));
    }
  }

  lemma RowShape(line: string)
    requires |line| % 4 >= 2
    ensures 4 * (Cells(line) - 1) + 1 < |line|
  {
  }

  /** The position `4 * c + r` of the row loop, `r` characters into cell `c`. */
  lemma CellOffset(n: nat, c: nat, r: nat)
    requires r <= 3
    ensures (4 * c + r + 1) % 4 == 0 <==> r == 3
    ensures 4 * c + 3 < n ==> c + 1 <= n / 4
    ensures n == 4 * c + r ==> n / 4 == c && n % 4 == r
  {
  }

  /** Pushing one more cell changes at most the stack of that cell. */
  lemma PushStep(stacks: seq<seq<string>>, line: string, n: nat)
    requires n < Cells(line) && 4 * (Cells(line) - 1) + 1 < |line|
    ensures var p := PushCells(stacks, line, n); var c := line[4 * n + 1];
      PushCells(stacks, line, n + 1) ==
        if !IsWhitespace(c) && n < |stacks| then p[n := p[n] + [[c]]] else p
  {
  }

  lemma PrefixCanRun(stacks: seq<seq<string>>, instructions: seq<Instruction>, k: nat, order: GripOrder)
    requires k <= |instructions| && CanRun(stacks, instructions, order)
    ensures CanRun(stacks, instructions[..k], order)
    decreases |instructions| - k
  {
    if k < |instructions| {
      PrefixCanRun(stacks, instructions, k + 1, order);
      assert instructions[..k + 1][..k] == instructions[..k];
    } else {
      assert instructions[..k] == instructions;
    }
  }
}

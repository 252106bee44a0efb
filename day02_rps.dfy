/** Rock-paper-scissors scoring of day-02/src/rps.rs: signs with their codes, who
    beats whom (computed from the codes, as the source does), the score of a game,
    and the sign that fixes a game to a wanted outcome. */
module RockPaperScissors {
  import opened Text

  /** `enum RPS` with discriminants 1, 2, 3 (rps.rs:5-10), kept as its discriminant:
      the mechanics compute with `as i32`/`as u32`, and `RPS::from` on a code panics
      outside 1..3 (rps.rs:73-93), which the subset type rules out. */
  type Sign = code: int | 1 <= code <= 3 witness 1

  const Rock: Sign := 1
  const Paper: Sign := 2
  const Scissors: Sign := 3

  /** The rules of the game, as a table: rock beats scissors, scissors beat paper,
      paper beats rock. */
  predicate Beats(winner: Sign, loser: Sign) {
    (winner == Rock && loser == Scissors) ||
    (winner == Scissors && loser == Paper) ||
    (winner == Paper && loser == Rock)
  }

  /** `loses_to` (rps.rs:41-44): the sign that beats `s`, and the only one. */
  function LosesTo(s: Sign): (w: Sign)
    ensures forall t: Sign :: Beats(t, s) <==> t == w
  {
    s % 3 + 1
  }

  /** `wins_against` (rps.rs:45-48): the sign that `s` beats, and the only one. */
  function WinsAgainst(s: Sign): (l: Sign)
    ensures forall t: Sign :: Beats(s, t) <==> t == l
  {
    (s + 1) % 3 + 1
  }

  /** The code arithmetic gives the usual rules: rock beats scissors, paper beats
      rock, scissors beat paper, and `loses_to` names the winner over its argument. */
  lemma RulesOfTheGame()
    ensures WinsAgainst(Rock) == Scissors && WinsAgainst(Paper) == Rock && WinsAgainst(Scissors) == Paper
    ensures LosesTo(Rock) == Paper && LosesTo(Paper) == Scissors && LosesTo(Scissors) == Rock
  {
  }

  /** The two mechanics name the other two signs and undo each other. */
  lemma MechanicsInverse(s: Sign)
    ensures WinsAgainst(s) != s && LosesTo(s) != s && WinsAgainst(s) != LosesTo(s)
    ensures LosesTo(WinsAgainst(s)) == s && WinsAgainst(LosesTo(s)) == s
  {
  }

  datatype Ordering = Less | Equal | Greater

  /** `partial_cmp` (rps.rs:101-113): greater when `a` beats `b`, equal for the same
      sign, less otherwise. */
  function Compare(a: Sign, b: Sign): (o: Ordering)
    ensures o == Greater <==> Beats(a, b)
    ensures o == Equal <==> a == b
    ensures o == Less <==> Beats(b, a)
  {
    if WinsAgainst(a) == b then Greater else if a == b then Equal else Less
  }

  /** The order is that of the game: `a > b` exactly when `b > a` fails and the signs differ. */
  lemma CompareAntisymmetric(a: Sign, b: Sign)
    ensures Compare(a, b) == Greater <==> Compare(b, a) == Less
    ensures Compare(a, b) == Equal <==> a == b
    ensures Compare(a, b) == Less <==> LosesTo(a) == b
  {
  }

  /** `enum Result` with its point values (rps.rs:12-16). */
  datatype Outcome = Loss | Draw | Win

  function Points(o: Outcome): (p: nat)
    ensures p in {0, 3, 6}
  {
    match o
    case Loss => 0
    case Draw => 3
    case Win => 6
  }

  datatype Game = Game(player: Sign, opponent: Sign)

  /** The outcome for the player, as `Game::result` decides it with `>` and `==`. */
  function OutcomeOf(player: Sign, opponent: Sign): Outcome {
    if Compare(player, opponent) == Greater then Win
    else if player == opponent then Draw
    else Loss
  }

  /** `Game::result` (rps.rs:140-154): the player's sign value plus the points of the
      outcome; a win needs the player to beat the opponent, a draw the same sign. */
  function GameResult(g: Game): (score: nat)
    ensures 1 <= score <= 9
    ensures score == g.player + 6 <==> WinsAgainst(g.player) == g.opponent
    ensures score == g.player + 3 <==> g.player == g.opponent
    ensures score == g.player <==> LosesTo(g.player) == g.opponent
  {
    g.player + Points(OutcomeOf(g.player, g.opponent))
  }

  datatype FixedGame = FixedGame(opponent: Sign, result: Outcome)

  /** `fix_match` (rps.rs:156-164): to win, the sign that beats the opponent; to draw,
      the same sign; to lose, the sign the opponent beats. */
  function FixMatch(f: FixedGame): (s: Sign)
    ensures f.result == Win ==> Beats(s, f.opponent)
    ensures f.result == Draw ==> s == f.opponent
    ensures f.result == Loss ==> Beats(f.opponent, s)
  {
    match f.result
    case Draw => f.opponent
    case Loss => WinsAgainst(f.opponent)
    case Win => LosesTo(f.opponent)
  }

  /** The fixed sign really produces the wanted outcome, and it is the only sign that does. */
  lemma FixMatchCorrect(f: FixedGame, s: Sign)
    ensures OutcomeOf(FixMatch(f), f.opponent) == f.result
    ensures OutcomeOf(s, f.opponent) == f.result ==> s == FixMatch(f)
  {
  }

  /** `FixedGame::result` (rps.rs:166-174): the score of the fixed game. */
  function FixedGameResult(f: FixedGame): (score: nat)
    ensures score == FixMatch(f) + Points(f.result)
  {
    FixMatchCorrect(f, FixMatch(f));
    GameResult(Game(FixMatch(f), f.opponent))
  }

  // ---------------------------------------------------------------------------
  // Tokens (rps.rs:51-71, 115-138)
  // ---------------------------------------------------------------------------

  predicate IsSignToken(t: string) {
    t in {"A", "B", "C", "X", "Y", "Z"}
  }

  /** `From<&str>` for `RPS`; an unknown token panics. */
  function ParseSign(t: string): (s: Sign)
    requires IsSignToken(t)
    ensures s == Rock <==> t in {"A", "X"}
    ensures s == Paper <==> t in {"B", "Y"}
    ensures s == Scissors <==> t in {"C", "Z"}
  {
    if t == "A" || t == "X" then Rock else if t == "B" || t == "Y" then Paper else Scissors
  }

  predicate IsOutcomeToken(t: string) {
    t in {"X", "Y", "Z"}
  }

  /** `From<&str>` for `Result`; an unknown token panics. */
  function ParseOutcome(t: string): (o: Outcome)
    requires IsOutcomeToken(t)
    ensures o == Loss <==> t == "X"
    ensures o == Draw <==> t == "Y"
    ensures o == Win <==> t == "Z"
  {
    if t == "X" then Loss else if t == "Y" then Draw else Win
  }

  /** What `Game::from` accepts without panicking: exactly two space-separated sign tokens. */
  predicate IsGameLine(line: string) {
    var moves := Split(line, ' ');
    |moves| == 2 && IsSignToken(moves[0]) && IsSignToken(moves[1])
  }

  /** `Game::from` (rps.rs:115-127): the opponent's move first, then the player's. */
  function ParseGame(line: string): (g: Game)
    requires IsGameLine(line)
    ensures g.opponent == ParseSign(Split(line, ' ')[0]) && g.player == ParseSign(Split(line, ' ')[1])
  {
    var moves := Split(line, ' ');
    Game(ParseSign(moves[1]), ParseSign(moves[0]))
  }

  /** What `FixedGame::from` accepts without panicking: at least two space-separated
      pieces, a sign token then an outcome token; further pieces are ignored. */
  predicate IsFixedGameLine(line: string) {
    var entry := Split(line, ' ');
    |entry| >= 2 && IsSignToken(entry[0]) && IsOutcomeToken(entry[1])
  }

  /** `FixedGame::from` (rps.rs:129-138). */
  function ParseFixedGame(line: string): (f: FixedGame)
    requires IsFixedGameLine(line)
    ensures f.opponent == ParseSign(Split(line, ' ')[0]) && f.result == ParseOutcome(Split(line, ' ')[1])
  {
    var entry := Split(line, ' ');
    FixedGame(ParseSign(entry[0]), ParseOutcome(entry[1]))
  }

  /** A line `"<opponent> <player>"` is read back as that game. */
  lemma ParseGameLine(opponent: string, player: string)
    requires IsSignToken(opponent) && IsSignToken(player)
    ensures IsGameLine(opponent + " " + player)
    ensures ParseGame(opponent + " " + player) == Game(ParseSign(player), ParseSign(opponent))
  {
    var parts := [opponent, player];
    assert Join(parts[1..], ' ') == player;
    assert Join(parts, ' ') == opponent + " " + player;
    JoinSplit(parts, ' ');
  }

  /** A line `"<opponent> <outcome>"` is read back as that fixed game. */
  lemma ParseFixedGameLine(opponent: string, result: string)
    requires IsSignToken(opponent) && IsOutcomeToken(result)
    ensures IsFixedGameLine(opponent + " " + result)
    ensures ParseFixedGame(opponent + " " + result) == FixedGame(ParseSign(opponent), ParseOutcome(result))
  {
    var parts := [opponent, result];
    assert Join(parts[1..], ' ') == result;
    assert Join(parts, ' ') == opponent + " " + result;
    JoinSplit(parts, ' ');
  }
}

/** The rules of rock-paper-scissors and the two readings of a strategy guide
    (src/bin/day2.rs). */
module RockPaperScissors {
  import opened Wrappers

  datatype Action = Rock | Paper | Scissors

  /** `std::cmp::Ordering`, read as the outcome for the first argument of `Cmp`. */
  datatype Ordering = Less | Equal | Greater

  /** The single, payload-free parse error of the decoders. */
  datatype InputParsingError = InputParsingError

  /** The error of the line check: the characters left after removing
      whitespace, when they are not exactly two. */
  datatype Errors =
    | InputsSizeInvalid(chars: seq<char>)

  /** One line of the guide after validation: two characters. */
  type Round = (char, char)

  // ---------------------------------------------------------------------------
  // The game

  /** The intrinsic value of a move. */
  function Value(a: Action): (v: nat)
    ensures 1 <= v <= 3
  {
    match a
    case Rock => 1
    case Paper => 2
    case Scissors => 3
  }

  /** The game's comparison: `Greater` when `a` beats `b`. This is a 3-cycle,
      not a linear order. */
  function Cmp(a: Action, b: Action): (r: Ordering)
    ensures r == OrderingOfStep(Index(a) - Index(b))
  {
    if a == b then Equal
    else if (a, b) == (Rock, Scissors) || (a, b) == (Scissors, Paper) || (a, b) == (Paper, Rock) then Greater
    else Less
  }

  /** The score of playing `mine` against `other`. */
  function Score(mine: Action, other: Action): (s: nat)
    ensures 1 <= s <= 9
    ensures s % 3 == Value(mine) % 3
    ensures Cmp(mine, other) == Less <==> s <= 3
    ensures Cmp(mine, other) == Equal <==> 4 <= s <= 6
    ensures Cmp(mine, other) == Greater <==> 7 <= s
  {
    Value(mine) + match Cmp(mine, other)
                  case Less => 0
                  case Equal => 3
                  case Greater => 6
  }

  /** The move that gets `result` against `opponent`: unchanged for a draw, one
      step along the cycle to win, two steps to lose. */
  function ChooseActionFromResult(opponent: Action, result: Ordering): (b: Action)
    ensures Cmp(b, opponent) == result
    decreases if result == Less then 1 else 0
  {
    match result
    case Equal => opponent
    case Greater =>
      (match opponent
       case Rock => Paper
       case Paper => Scissors
       case Scissors => Rock)
    case Less =>
      ChooseActionFromResult(ChooseActionFromResult(opponent, Greater), Greater)
  }

  // ---------------------------------------------------------------------------
  // Properties of the cycle

  /** The comparison is a draw exactly on equal moves. */
  lemma CmpEqualIffSame(a: Action, b: Action)
    ensures Cmp(a, a) == Equal
    ensures Cmp(a, b) == Equal <==> a == b
  {
  }

  /** Swapping the arguments swaps win and loss. */
  lemma CmpAntisymmetric(a: Action, b: Action)
    ensures Cmp(a, b) == Greater <==> Cmp(b, a) == Less
    ensures Cmp(a, b) == Less <==> Cmp(b, a) == Greater
  {
  }

  /** The move `a` beats. */
  function Beaten(a: Action): Action
  {
    match a
    case Rock => Scissors
    case Paper => Rock
    case Scissors => Paper
  }

  /** Every move beats exactly one move and loses to exactly one move. */
  lemma BeatsExactlyOne(a: Action)
    ensures Cmp(a, Beaten(a)) == Greater
    ensures forall b :: Cmp(a, b) == Greater ==> b == Beaten(a)
    ensures Cmp(ChooseActionFromResult(a, Greater), a) == Greater
    ensures forall b :: Cmp(b, a) == Greater ==> b == ChooseActionFromResult(a, Greater)
  {
  }

  /** The relation is not transitive: it is a cycle. */
  lemma CmpIsCyclic()
    ensures Cmp(Rock, Scissors) == Greater
    ensures Cmp(Scissors, Paper) == Greater
    ensures Cmp(Paper, Rock) == Greater
  {
  }

  /** `ChooseActionFromResult` is the only right inverse of `Cmp`: it gives
      exactly the moves that get the requested result. */
  lemma ChooseActionIsUnique(a: Action, b: Action, r: Ordering)
    ensures Cmp(b, a) == r <==> b == ChooseActionFromResult(a, r)
  {
  }

  /** Losing is two winning steps, which in a 3-cycle is the move `a` beats. */
  lemma ChooseLessIsBeaten(a: Action)
    ensures ChooseActionFromResult(a, Less) == Beaten(a)
  {
  }

  /** The position of a move in the enumeration Rock, Paper, Scissors. */
  function Index(a: Action): (i: nat)
    ensures i < 3
  {
    match a
    case Rock => 0
    case Paper => 1
    case Scissors => 2
  }

  /** The outcome of a difference of positions, taken modulo 3. */
  function OrderingOfStep(d: int): Ordering
  {
    var k := d % 3;
    if k == 0 then Equal else if k == 1 then Greater else Less
  }

  /** By modular arithmetic, choosing a move walks 0, 1 or 2 positions
      forward; `Cmp` itself is tied to the same reference by its contract. */
  lemma CmpIsModular(b: Action, r: Ordering)
    ensures Index(ChooseActionFromResult(b, r))
         == (Index(b) + match r case Equal => 0 case Greater => 1 case Less => 2) % 3
  {
  }

  /** A score identifies the move played and the outcome. */
  lemma ScoreDeterminesRound(a: Action, b: Action, c: Action, d: Action)
    ensures Score(a, b) == Score(c, d) <==> a == c && Cmp(a, b) == Cmp(c, d)
  {
  }

  // ---------------------------------------------------------------------------
  // Decoding characters

  /** The opponent's letter for a move. */
  function OpponentCode(a: Action): char
  {
    match a
    case Rock => 'A'
    case Paper => 'B'
    case Scissors => 'C'
  }

  /** The player's letter for a move, under the first reading. */
  function OwnCode(a: Action): char
  {
    match a
    case Rock => 'X'
    case Paper => 'Y'
    case Scissors => 'Z'
  }

  /** The letter for a requested outcome, under the second reading. */
  function OutcomeCode(r: Ordering): char
  {
    match r
    case Less => 'X'
    case Equal => 'Y'
    case Greater => 'Z'
  }

  /** `TryFrom<&char> for Action`: both letter sets decode, in either
      position of a line. */
  function ActionFromChar(c: char): (r: Result<Action, InputParsingError>)
    ensures r.Ok? <==> c in "ABCXYZ"
    ensures r.Ok? ==> c == OpponentCode(r.value) || c == OwnCode(r.value)
  {
    match c
    case 'A' => Ok(Rock)
    case 'B' => Ok(Paper)
    case 'C' => Ok(Scissors)
    case 'X' => Ok(Rock)
    case 'Y' => Ok(Paper)
    case 'Z' => Ok(Scissors)
    case _ => Err(InputParsingError)
  }

  /** `try_result_from_char`: the requested outcome. */
  function OutcomeFromChar(c: char): (r: Result<Ordering, InputParsingError>)
    ensures r.Ok? <==> c in "XYZ"
    ensures r.Ok? ==> c == OutcomeCode(r.value)
  {
    match c
    case 'X' => Ok(Less)
    case 'Y' => Ok(Equal)
    case 'Z' => Ok(Greater)
    case _ => Err(InputParsingError)
  }

  /** Encoding then decoding gives back the move or the outcome. */
  lemma DecodeEncode(a: Action, r: Ordering)
    ensures ActionFromChar(OpponentCode(a)) == Ok(a)
    ensures ActionFromChar(OwnCode(a)) == Ok(a)
    ensures OutcomeFromChar(OutcomeCode(r)) == Ok(r)
  {
  }

  // ---------------------------------------------------------------------------
  // The two readings of the guide

  /** Both characters of a round decode as moves. */
  predicate DecodesAsMoves(round: Round)
  {
    ActionFromChar(round.0).Ok? && ActionFromChar(round.1).Ok?
  }

  /** The first character decodes as a move and the second as an outcome. */
  predicate DecodesAsMoveAndOutcome(round: Round)
  {
    ActionFromChar(round.0).Ok? && OutcomeFromChar(round.1).Ok?
  }

  /** `use_strategy_guide_v1`: both characters are moves (opponent, own). */
  function UseStrategyGuideV1(guide: seq<Round>): (r: Result<seq<(Action, Action)>, InputParsingError>)
    ensures r.Ok? <==> forall i :: 0 <= i < |guide| ==> DecodesAsMoves(guide[i])
    ensures r.Ok? ==> |r.value| == |guide|
    ensures r.Ok? ==> forall i :: 0 <= i < |guide| ==>
              r.value[i] == (ActionFromChar(guide[i].0).value, ActionFromChar(guide[i].1).value)
  {
    if guide == [] then Ok([])
    else
      var a := ActionFromChar(guide[0].0);
      var b := ActionFromChar(guide[0].1);
      if a.Err? then Err(a.error)
      else if b.Err? then Err(b.error)
      else
        var rest := UseStrategyGuideV1(guide[1..]);
        if rest.Err? then Err(rest.error)
        else Ok([(a.value, b.value)] + rest.value)
  }

  /** `use_strategy_guide_v2`: the first character is the opponent's move,
      the second the outcome wanted; the own move is chosen to get it. */
  function UseStrategyGuideV2(guide: seq<Round>): (r: Result<seq<(Action, Action)>, InputParsingError>)
    ensures r.Ok? <==> forall i :: 0 <= i < |guide| ==> DecodesAsMoveAndOutcome(guide[i])
    ensures r.Ok? ==> |r.value| == |guide|
    ensures r.Ok? ==> forall i :: 0 <= i < |guide| ==>
              r.value[i].0 == ActionFromChar(guide[i].0).value &&
              Cmp(r.value[i].1, r.value[i].0) == OutcomeFromChar(guide[i].1).value
  {
    if guide == [] then Ok([])
    else
      var a := ActionFromChar(guide[0].0);
      if a.Err? then Err(a.error)
      else
        var o := OutcomeFromChar(guide[0].1);
        if o.Err? then Err(o.error)
        else
          var rest := UseStrategyGuideV2(guide[1..]);
          if rest.Err? then Err(rest.error)
          else Ok([(a.value, ChooseActionFromResult(a.value, o.value))] + rest.value)
  }

  /** The outcome bonus of each round under the second reading is the one
      the guide's second letter asks for. */
  lemma V2BonusIsRequested(guide: seq<Round>, i: nat)
    requires UseStrategyGuideV2(guide).Ok?
    requires i < |guide|
    ensures var p := UseStrategyGuideV2(guide).value[i];
            Score(p.1, p.0) == Value(p.1) + match guide[i].1 case 'X' => 0 case 'Y' => 3 case _ => 6
  {
    var p := UseStrategyGuideV2(guide).value[i];
    assert Cmp(p.1, p.0) == OutcomeFromChar(guide[i].1).value;
  }

  /** The second reading fully determines the own move of each round. */
  lemma V2ChoosesTheMove(guide: seq<Round>, i: nat)
    requires UseStrategyGuideV2(guide).Ok?
    requires i < |guide|
    ensures var p := UseStrategyGuideV2(guide).value[i];
            p.1 == ChooseActionFromResult(p.0, OutcomeFromChar(guide[i].1).value)
  {
    var p := UseStrategyGuideV2(guide).value[i];
    ChooseActionIsUnique(p.0, p.1, OutcomeFromChar(guide[i].1).value);
  }

  /** A guide the second reading accepts is accepted by the first, but not
      the other way round. */
  lemma V2AcceptsLess(guide: seq<Round>)
    ensures UseStrategyGuideV2(guide).Ok? ==> UseStrategyGuideV1(guide).Ok?
    ensures UseStrategyGuideV1([('A', 'A')]).Ok? && UseStrategyGuideV2([('A', 'A')]).Err?
  {
    if UseStrategyGuideV2(guide).Ok? {
      forall i | 0 <= i < |guide| ensures DecodesAsMoves(guide[i]) {
        assert DecodesAsMoveAndOutcome(guide[i]);
      }
    }
  }

  // ---------------------------------------------------------------------------
  // Total score

  /** `total_score`: the sum over rounds of the own move's score. */
  function TotalScore(rounds: seq<(Action, Action)>): (t: nat)
    ensures |rounds| <= t <= 9 * |rounds|
  {
    if rounds == [] then 0
    else Score(rounds[0].1, rounds[0].0) + TotalScore(rounds[1..])
  }

  /** Playing one more round adds its score. */
  lemma {:induction false} TotalScoreAppend(rounds: seq<(Action, Action)>, p: (Action, Action))
    ensures TotalScore(rounds + [p]) == TotalScore(rounds) + Score(p.1, p.0)
    decreases |rounds|
  {
    if rounds == [] {
      assert [] + [p] == [p];
    } else {
      assert (rounds + [p])[1..] == rounds[1..] + [p];
      TotalScoreAppend(rounds[1..], p);
    }
  }

  /** The total of a concatenation is the sum of the totals. */
  lemma {:induction false} TotalScoreConcat(xs: seq<(Action, Action)>, ys: seq<(Action, Action)>)
    ensures TotalScore(xs + ys) == TotalScore(xs) + TotalScore(ys)
    decreases |xs|
  {
    if xs == [] {
      assert [] + ys == ys;
    } else {
      assert (xs + ys)[1..] == xs[1..] + ys;
      TotalScoreConcat(xs[1..], ys);
    }
  }

  /** The worked example `A Y / B X / C Z` under the first reading: the
      rounds rock–paper, paper–rock, scissors–scissors, 15 points. */
  lemma WorkedExampleV1()
    ensures UseStrategyGuideV1([('A', 'Y'), ('B', 'X'), ('C', 'Z')]) == Ok([(Rock, Paper), (Paper, Rock), (Scissors, Scissors)])
    ensures TotalScore([(Rock, Paper), (Paper, Rock), (Scissors, Scissors)]) == 15
  {
    var g := [('A', 'Y'), ('B', 'X'), ('C', 'Z')];
    assert DecodesAsMoves(g[0]) && DecodesAsMoves(g[1]) && DecodesAsMoves(g[2]);
    var r1 := UseStrategyGuideV1(g).value;
    assert r1[0] == (Rock, Paper) && r1[1] == (Paper, Rock) && r1[2] == (Scissors, Scissors);
    var v1 := [(Rock, Paper), (Paper, Rock), (Scissors, Scissors)];
    assert v1[1..] == [(Paper, Rock), (Scissors, Scissors)];
    assert v1[1..][1..] == [(Scissors, Scissors)];
    assert r1 == v1;
    assert TotalScore(v1[1..][1..]) == 6 by {
      assert v1[1..][1..][1..] == [];
    }
    assert TotalScore(v1[1..]) == 7;
  }

  /** The same guide under the second reading: draw, lose and win give
      rock–rock, paper–rock, scissors–rock, 12 points. */
  lemma WorkedExampleV2()
    ensures UseStrategyGuideV2([('A', 'Y'), ('B', 'X'), ('C', 'Z')]) == Ok([(Rock, Rock), (Paper, Rock), (Scissors, Rock)])
    ensures TotalScore([(Rock, Rock), (Paper, Rock), (Scissors, Rock)]) == 12
  {
    var g := [('A', 'Y'), ('B', 'X'), ('C', 'Z')];
    assert DecodesAsMoveAndOutcome(g[0]) && DecodesAsMoveAndOutcome(g[1]) && DecodesAsMoveAndOutcome(g[2]);
    var r2 := UseStrategyGuideV2(g).value;
    ChooseActionIsUnique(Rock, r2[0].1, Equal);
    ChooseActionIsUnique(Paper, r2[1].1, Less);
    ChooseActionIsUnique(Scissors, r2[2].1, Greater);
    assert r2[0] == (Rock, Rock) && r2[1] == (Paper, Rock) && r2[2] == (Scissors, Rock);
    var v2 := [(Rock, Rock), (Paper, Rock), (Scissors, Rock)];
    assert v2[1..] == [(Paper, Rock), (Scissors, Rock)];
    assert v2[1..][1..] == [(Scissors, Rock)];
    assert r2 == v2;
    assert TotalScore(v2[1..][1..]) == 7 by {
      assert v2[1..][1..][1..] == [];
    }
    assert TotalScore(v2[1..]) == 8;
  }

  // ---------------------------------------------------------------------------
  // Reading one line

  /** `char::is_whitespace`: the Unicode White_Space property. */
  predicate IsWhitespace(c: char)
    ensures IsWhitespace(c) ==> c as int <= 0x3000
    ensures IsWhitespace(c) ==> !('0' <= c <= '9') && !('A' <= c <= 'Z') && !('a' <= c <= 'z')
  {
    ('\U{9}' <= c <= '\U{D}') || c == ' ' || c == '\U{85}' || c == '\U{A0}' || c == '\U{1680}'
    || ('\U{2000}' <= c <= '\U{200A}') || c == '\U{2028}' || c == '\U{2029}' || c == '\U{202F}'
    || c == '\U{205F}' || c == '\U{3000}'
  }

  /** The characters of `s` that are not whitespace, in order. */
  function RemoveWhitespace(s: seq<char>): (r: seq<char>)
    ensures |r| <= |s|
    ensures forall i :: 0 <= i < |r| ==> !IsWhitespace(r[i])
  {
    if s == [] then []
    else if IsWhitespace(s[0]) then RemoveWhitespace(s[1..])
    else [s[0]] + RemoveWhitespace(s[1..])
  }

  /** Every character that is not whitespace is kept as often as it occurs. */
  lemma {:induction false} RemoveWhitespaceCounts(s: seq<char>)
    ensures forall c :: !IsWhitespace(c) ==> multiset(RemoveWhitespace(s))[c] == multiset(s)[c]
  {
    if s != [] {
      RemoveWhitespaceCounts(s[1..]);
      assert s == [s[0]] + s[1..];
    }
  }

  /** Removing whitespace distributes over concatenation. */
  lemma {:induction false} RemoveWhitespaceConcat(s: seq<char>, t: seq<char>)
    ensures RemoveWhitespace(s + t) == RemoveWhitespace(s) + RemoveWhitespace(t)
    decreases |s|
  {
    if s == [] {
      assert [] + t == t;
    } else {
      assert (s + t)[1..] == s[1..] + t;
      RemoveWhitespaceConcat(s[1..], t);
    }
  }

  /** A string without whitespace is left as it is. */
  lemma {:induction false} RemoveWhitespaceKeeps(s: seq<char>)
    requires forall i :: 0 <= i < |s| ==> !IsWhitespace(s[i])
    ensures RemoveWhitespace(s) == s
  {
    if s != [] {
      assert forall i :: 0 <= i < |s[1..]| ==> s[1..][i] == s[i + 1];
      RemoveWhitespaceKeeps(s[1..]);
    }
  }

  /** A string of whitespace vanishes. */
  lemma {:induction false} RemoveWhitespaceBlank(s: seq<char>)
    requires forall i :: 0 <= i < |s| ==> IsWhitespace(s[i])
    ensures RemoveWhitespace(s) == []
  {
    if s != [] {
      assert forall i :: 0 <= i < |s[1..]| ==> s[1..][i] == s[i + 1];
      RemoveWhitespaceBlank(s[1..]);
    }
  }

  /** The line check of `load_strategy_guide`: after removing whitespace,
      exactly two characters must remain; otherwise the error carries what
      remained. */
  function ParseRound(line: seq<char>): (r: Result<Round, Errors>)
    ensures r.Ok? <==> |RemoveWhitespace(line)| == 2
    ensures r.Ok? ==> [r.value.0, r.value.1] == RemoveWhitespace(line)
    ensures r.Err? ==> r.error == InputsSizeInvalid(RemoveWhitespace(line))
  {
    var chars := RemoveWhitespace(line);
    if |chars| == 2 then Ok((chars[0], chars[1])) else Err(InputsSizeInvalid(chars))
  }

  /** Two non-whitespace characters with any whitespace around and between
      them read as that round. */
  lemma ParseRoundPadded(before: seq<char>, a: char, between: seq<char>, b: char, after: seq<char>)
    requires !IsWhitespace(a) && !IsWhitespace(b)
    requires forall i :: 0 <= i < |before| ==> IsWhitespace(before[i])
    requires forall i :: 0 <= i < |between| ==> IsWhitespace(between[i])
    requires forall i :: 0 <= i < |after| ==> IsWhitespace(after[i])
    ensures ParseRound(before + [a] + between + [b] + after) == Ok((a, b))
  {
    var w1 := before + [a];
    var w2 := w1 + between;
    var w3 := w2 + [b];
    assert RemoveWhitespace([a]) == [a] && RemoveWhitespace([b]) == [b];
    assert RemoveWhitespace(w1) == [a] by {
      RemoveWhitespaceConcat(before, [a]);
      RemoveWhitespaceBlank(before);
    }
    assert RemoveWhitespace(w2) == [a] by {
      RemoveWhitespaceConcat(w1, between);
      RemoveWhitespaceBlank(between);
    }
    assert RemoveWhitespace(w3) == [a, b] by {
      RemoveWhitespaceConcat(w2, [b]);
    }
    RemoveWhitespaceConcat(w3, after);
    RemoveWhitespaceBlank(after);
  }
}

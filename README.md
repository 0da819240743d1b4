# Advent of Code 2022, days 1 and 2, in Dafny

This project is a verified model of two small Rust programs.

**Day 1, calorie counting (`src/bin/day1.rs`).** An inventory is a list of
lines. A number is one snack's calories, and an empty line ends an elf's
group. `total_calories_of_elves` scans the inventory with a sentinel
separator appended. It keeps a running total, pushes each non-zero group
total into a heap, and drops groups that sum to zero.
`extract_best_elves_total` fails with `NotEnoughInputs` when the heap holds
fewer than `n` totals. Otherwise it sums the `n` largest. The line rule of
`load_inventory` maps the empty line to `None` and any other line to a
decimal `u64`.

The model (module `CalorieCounting`, `day1.dfy`):
- The scan is a method with a loop over an `array<Option<nat>>`, proved against a pure definition.
- That definition splits the inventory into runs of values between separators (`Runs`). `Runs` is characterised by a join/split round trip.
- It then keeps the non-zero run sums (`GroupSums`).
- The heap is a `multiset<nat>`.
- `into_iter_sorted().take(n)` is `Largest`, which repeatedly takes the maximum.

**Day 2, rock-paper-scissors (`src/bin/day2.rs`).**
- A move has a value of 1, 2 or 3.
- Moves are compared by a hand-written cyclic `cmp`.
- A round scores the move's value plus 0, 3 or 6 for a loss, draw or win.
- `choose_action_from_result` picks the move that gets a wanted outcome.
- A strategy guide is a list of two-character lines. It is read in two ways:
  - v1: both characters are moves.
  - v2: the second character is the wanted outcome.
- `total_score` adds up the rounds.
- The line check of `load_strategy_guide` drops whitespace and demands exactly two characters.

The model (module `RockPaperScissors`, `day2.dfy`) is pure: datatypes, functions and lemmas. Rust's `Option` and `Result` are in `wrappers.dfy`.

The code and the puzzle text disagree in one place, and the model follows the code. `TryFrom<&char> for Action` accepts `A`/`B`/`C` and `X`/`Y`/`Z` alike. So the first reading also accepts a round such as `X A`, and the second reading accepts `X` as the opponent's move.

`u64::from_str_radix` is modelled as Rust's core library behaves for unsigned types:
- an optional leading `+`;
- then at least one ASCII digit;
- a value of at most 2^64 − 1.

A lone `+`, a `-` sign, and any other character are errors.

## Model

| member | source | states |
|---|---|---|
| RockPaperScissors.Value | src/bin/day2.rs:59-65 | a move's value is between 1 and 3 |
| RockPaperScissors.Score | src/bin/day2.rs:67-74 | the score is between 1 and 9 and congruent to the move's value mod 3; a loss scores at most 3, a draw 4 to 6, a win at least 7, each in both directions |
| RockPaperScissors.ScoreDeterminesRound | src/bin/day2.rs:67-74 | two rounds score the same exactly when they have the same own move and the same outcome |
| RockPaperScissors.ChooseActionFromResult | src/bin/day2.rs:76-88 | the chosen move gets exactly the requested result against the opponent (a right inverse of the comparison), including the two-step `Less` case |
| RockPaperScissors.ChooseActionIsUnique | src/bin/day2.rs:76-101 | a move gets result `r` against `a` if and only if it is the chosen move: the right inverse is unique |
| RockPaperScissors.ChooseLessIsBeaten | src/bin/day2.rs:84-86 | two winning steps give the move the opponent beats |
| RockPaperScissors.Cmp | src/bin/day2.rs:91-101 | the comparison agrees with the difference of the moves' positions modulo 3: 0 is a draw, 1 a win, 2 a loss |
| RockPaperScissors.CmpEqualIffSame | src/bin/day2.rs:94 | a move draws against itself, and only against itself |
| RockPaperScissors.CmpAntisymmetric | src/bin/day2.rs:91-101 | `a` beats `b` if and only if `b` loses to `a`, and the other way round |
| RockPaperScissors.BeatsExactlyOne | src/bin/day2.rs:91-101 | each move beats exactly one move and loses to exactly one move |
| RockPaperScissors.CmpIsCyclic | src/bin/day2.rs:95-97 | rock beats scissors, scissors beats paper, paper beats rock |
| RockPaperScissors.CmpIsModular | src/bin/day2.rs:76-88 | choosing a move walks 0, 1 or 2 positions forward along Rock, Paper, Scissors, modulo 3 |
| RockPaperScissors.ActionFromChar | src/bin/day2.rs:103-117 | decoding succeeds exactly on `A B C X Y Z`, and the decoded move has that letter as its opponent or own code |
| RockPaperScissors.OutcomeFromChar | src/bin/day2.rs:164-171 | decoding succeeds exactly on `X Y Z`, and the decoded outcome has that letter as its code |
| RockPaperScissors.DecodeEncode | src/bin/day2.rs:103-117 | every move's letters and every outcome's letter decode back to it |
| RockPaperScissors.UseStrategyGuideV1 | src/bin/day2.rs:142-149 | succeeds exactly when every character of every round decodes as a move; the result has one pair per round, the decoded opponent and own move |
| RockPaperScissors.UseStrategyGuideV2 | src/bin/day2.rs:151-162 | succeeds exactly when every round holds a move and an outcome; the result has one pair per round, the decoded opponent move first, and the own move gets the requested outcome against it |
| RockPaperScissors.V2ChoosesTheMove | src/bin/day2.rs:156-159 | the own move of each round of the second reading is the one `ChooseActionFromResult` gives |
| RockPaperScissors.V2BonusIsRequested | src/bin/day2.rs:151-162 | each round's score under the second reading is the move's value plus 0, 3 or 6 as its outcome letter asks |
| RockPaperScissors.V2AcceptsLess | src/bin/day2.rs:142-162 | every guide the second reading accepts is accepted by the first; `A A` is accepted by the first and refused by the second |
| RockPaperScissors.TotalScore | src/bin/day2.rs:173-175 | the total of `k` rounds lies between `k` and `9k` |
| RockPaperScissors.TotalScoreAppend | src/bin/day2.rs:173-175 | one more round adds its score to the total |
| RockPaperScissors.TotalScoreConcat | src/bin/day2.rs:173-175 | the total of two lists of rounds is the sum of their totals |
| RockPaperScissors.WorkedExampleV1 | src/bin/day2.rs:142-149 | the guide `A Y`, `B X`, `C Z` reads as rock–paper, paper–rock, scissors–scissors under the first reading, for 15 points |
| RockPaperScissors.WorkedExampleV2 | src/bin/day2.rs:151-162 | the same guide reads as rock–rock, paper–rock, scissors–rock under the second reading, for 12 points |
| RockPaperScissors.IsWhitespace | src/bin/day2.rs:183 | a whitespace character is at most U+3000 and is never an ASCII digit or letter, so no move or outcome letter is dropped |
| RockPaperScissors.RemoveWhitespace | src/bin/day2.rs:182-184 | the result is no longer than the line and holds no whitespace |
| RockPaperScissors.RemoveWhitespaceCounts | src/bin/day2.rs:182-184 | every character that is not whitespace occurs in the result as often as in the line |
| RockPaperScissors.RemoveWhitespaceConcat | src/bin/day2.rs:182-184 | removing whitespace distributes over concatenation |
| RockPaperScissors.RemoveWhitespaceKeeps | src/bin/day2.rs:182-184 | a line without whitespace is kept as it is |
| RockPaperScissors.RemoveWhitespaceBlank | src/bin/day2.rs:182-184 | a line of whitespace vanishes |
| RockPaperScissors.ParseRound | src/bin/day2.rs:180-187 | a line is accepted exactly when two characters remain after removing whitespace; the round is those two in order, and otherwise the error carries exactly what remained |
| RockPaperScissors.ParseRoundPadded | src/bin/day2.rs:180-187 | two non-whitespace characters with any whitespace before, between and after them read as that round |
| CalorieCounting.SumConcat | src/bin/day1.rs:90 | the sum of a concatenation is the sum of the sums |
| CalorieCounting.SumZeroIff | src/bin/day1.rs:79-82 | a sum of naturals is zero exactly when every term is |
| CalorieCounting.FromStrRadix10 | src/bin/day1.rs:57 | succeeds exactly on an optional `+` followed by one or more decimal digits whose value fits in a `u64`, and gives that value; every failure is `InvalidInteger` |
| CalorieCounting.ParseInventoryLine | src/bin/day1.rs:55-57 | gives `None` exactly for the empty line; any other line gives `Some` of the parsed value (a `u64`), or an error exactly when the decimal parse fails |
| CalorieCounting.DecimalRoundTrip | src/bin/day1.rs:57 | the decimal rendering of a number is a digit string that reads back as that number |
| CalorieCounting.ParseInventoryLineRoundTrip | src/bin/day1.rs:55-57 | every `u64` in decimal, with or without `+`, reads back as `Some` of itself; a larger number is an error |
| CalorieCounting.ParseInventoryLineRejects | src/bin/day1.rs:57 | a lone `+`, a negative number and a trailing letter are errors |
| CalorieCounting.RunsCount | src/bin/day1.rs:62-78 | the inventory splits into one more run than it has separators |
| CalorieCounting.JoinRuns | src/bin/day1.rs:62-78 | joining the runs with separators between them gives back the inventory |
| CalorieCounting.RunsJoin | src/bin/day1.rs:62-78 | splitting any joined list of runs gives back exactly those runs, so `Runs` finds the maximal runs between separators |
| CalorieCounting.NonZeroSums | src/bin/day1.rs:79-82 | at most one sum per run, each of them positive |
| CalorieCounting.TotalCaloriesOfElves | src/bin/day1.rs:62-84 | the scan with its running total and the appended sentinel collects exactly the multiset of the non-zero run sums, all of them positive |
| CalorieCounting.ScanStep | src/bin/day1.rs:66-82 | if the collected totals are the non-zero sums of the closed runs and the running total is the sum of the open run, then after one more entry that still holds, where a separator collects a non-zero running total and resets it, and a value adds to it |
| CalorieCounting.GroupSumsPositive | src/bin/day1.rs:79-82 | every collected group total is positive |
| CalorieCounting.GroupSumsConserve | src/bin/day1.rs:62-84 | the group sums add up to the sum of all values of the inventory |
| CalorieCounting.GroupCountBound | src/bin/day1.rs:62-84 | there are at most one more groups than separators |
| CalorieCounting.NoGroupsIffAllZero | src/bin/day1.rs:79-82 | an inventory yields no groups exactly when it holds no non-zero value |
| CalorieCounting.ExampleGroups | src/bin/day1.rs:62-84 | groups 3, 4 and 5 separated by blank lines give the group sums 3, 4, 5 |
| CalorieCounting.ZeroGroupDropped | src/bin/day1.rs:79-82 | two blank lines in a row make an empty group, which is dropped |
| CalorieCounting.MaxOf | src/bin/day1.rs:90 | the top of the heap is an element that no element exceeds |
| CalorieCounting.Largest | src/bin/day1.rs:90 | taking `n` from the heap yields `n` elements |
| CalorieCounting.LargestSubset | src/bin/day1.rs:90 | the `n` taken are elements of the heap, multiplicities respected |
| CalorieCounting.LargestIsTop | src/bin/day1.rs:90 | the `n` taken come in non-increasing order and no element left in the heap exceeds any of them |
| CalorieCounting.ExtractBestElvesTotal | src/bin/day1.rs:86-92 | fails with `NotEnoughInputs` if and only if the heap holds fewer than `n` totals; otherwise it is the sum of a choice of `n` elements that nothing left out exceeds |
| CalorieCounting.LargestDominates | src/bin/day1.rs:90 | no choice of `n` elements of the heap sums to more than the `n` taken |
| CalorieCounting.BestIsMaximal | src/bin/day1.rs:86-92 | the result is at least the sum of any `n` elements of the heap |
| CalorieCounting.BestOfOneIsMax | src/bin/day1.rs:86-92 | for `n = 1` the result is the largest group |
| CalorieCounting.LargestPrefix | src/bin/day1.rs:90 | taking fewer from the heap gives a prefix of taking more |
| CalorieCounting.BestMonotone | src/bin/day1.rs:43-46 | when asking for `n2` succeeds, asking for `n1 <= n2` succeeds too and gives no more; so part 1 is at most part 2 |
| CalorieCounting.ExampleBest | src/bin/day1.rs:86-92 | for the totals 3, 4 and 5 the best one is 5, the best three 12, and four is too many |

## Left out

- Reading standard input, the `std::io::Error` cases (`InputsInvalid`, `InvalidInputs`) and the `?` propagation in `load_inventory`/`load_strategy_guide`: I/O. Only the per-line rules are modelled (`ParseInventoryLine`, `ParseRound`).
- `main` and its `println!` output: I/O. The facts `main` relies on are stated instead: part 1 is the largest group and at most part 2, and the heap is passed by value.
- The `Display` impls and error-message strings: formatting only.
- The kinds of `ParseIntError` (empty, invalid digit, overflow): every failed parse is the single `InvalidInteger`.
- TotalCaloriesOfElves: does not model the `u64` overflow of `*acc += c` (a panic in debug builds, wrap-around in release), because totals are unbounded naturals. The same holds for the `u64` sum in `extract_best_elves_total`.
- TotalScore: does not model the `u32` overflow of the sum, because totals are unbounded naturals.
- The internals of `BinaryHeap` and `into_iter_sorted`: the heap is a multiset and popping in order is repeated removal of a maximum.
- The derived `PartialOrd` on `Action`: it orders by declaration, disagrees with the cyclic `cmp`, and nothing uses it.
- The `#![feature(...)]` gates.
- The `InputParsingError` variant of day 2's `Errors` and its `From` conversion: the conversion happens only in `main`, so the model's `Errors` keeps only `InputsSizeInvalid`, the error of the line check.

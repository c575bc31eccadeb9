# Dead & Wounded — a verified model of the game core

Dead & Wounded is a code-breaking game. Each player hides a Digit-Code:
four different digits 0-9, such as `1743`. A guess is answered with a
count of **dead** digits (right digit, right place) and **wounded** digits
(a digit of the secret, but in another place). Four dead wins.

This Dafny project models the core of the game server:

- `game_logic.dfy` (module `GameLogic`, from `lib/game-logic.js`)
  - validating a secret or guess, with its three error messages;
  - scoring a guess against a secret;
  - detecting a win;
  - drawing a random secret by a Fisher-Yates shuffle over an array.
- `candidates.dfy` (module `Candidates`) holds the specification functions the computer opponent is proved against:
  - the universe of all 5040 Digit-Codes;
  - filtering it by the feedback received so far;
  - grouping it by the outcome a guess would produce;
  - the worst case and minimax choice of the hard opponent.
- `ai_opponent.dfy` (module `AI`, from `lib/ai-opponent.js`): the class `AIOpponent` and its easy, medium and hard guessing strategies.
- `progression.dfy` (module `Progression`, from `lib/progression.js`):
  - the level reached with an amount of XP;
  - the XP a finished game awards.
- `tournament.dfy` (module `Tournament`, from `lib/tournament.js`):
  - the round-robin scheduler (the circle method);
  - the standings order.
- `common.dfy` (module `Common`): `Option` and facts about sequences without repetitions.

Modelling conventions:

- JavaScript strings are `string`.
- An answer `{dead, wounded}` is the datatype `Feedback`.
- Each `Math.random()` draw is an arbitrary choice (`:|`) within its range.
- The expected information of a guess is the function parameter `info`. In the source it is a floating-point entropy.
- Loops that update variables are methods with loop invariants. Each is proved against a specification function, and the properties the game relies on are proved about those functions.

The code is followed where it differs from the game's written description:

- The hard opponent always opens with `0167`.
- It picks by strict minimax over at most 300 sampled guesses. Ties on the worst case are broken by a larger `info`. There is no tolerance margin and no shortlist.
- The wounded count does not consume secret positions. Each guess digit counts once if it occurs at another non-dead place of the secret.

## Model

| member | source | states |
|---|---|---|
| GameLogic.Validate | lib/game-logic.js:14-32 | Each error is reported exactly when its condition is the first to fail: not a 4-character string, then a non-digit, then a repeated digit. The result is valid exactly for Digit-Codes. |
| GameLogic.CharSetSize | lib/game-logic.js:26-29 | The set of characters has as many elements as the string exactly when no character repeats. |
| GameLogic.AllDigitsMeaning | lib/game-logic.js:21-23 | The digit test holds exactly when every character is 0-9. |
| GameLogic.Message | lib/game-logic.js:17-28 | Each failure has its own message, the text of lines 17, 22 and 28 word for word: a non-empty sentence starting with a capital letter. |
| GameLogic.MessagesDiffer | lib/game-logic.js:17-28 | The three error messages are pairwise different. |
| GameLogic.ValidateAccepts | lib/game-logic.js:14-32 | `1234`, `0123` and `9876` are valid. |
| GameLogic.ValidateRejects | lib/game-logic.js:16-29 | Short, long, empty and non-string inputs fail the length check. `12ab` fails the digit check. `1123` and `1111` fail the repetition check. |
| GameLogic.CalculateDeadWounded | lib/game-logic.js:40-72 | The two-pass loop returns exactly `Score`: dead counts equal places, and wounded counts the other non-dead guess places whose digit sits at a different non-dead place of the secret. |
| GameLogic.ScoreBounds | lib/game-logic.js:40-72 | dead + wounded never exceeds 4. |
| GameLogic.CountsBounded | lib/game-logic.js:49-69 | After n places, dead + wounded is at most n. |
| GameLogic.CountDeadFull | lib/game-logic.js:49-54 | The dead count reaches n exactly when all n places match. |
| GameLogic.NoWoundedWhenAllDead | lib/game-logic.js:57-69 | When every place is dead, nothing is wounded. |
| GameLogic.ScoreSelf | lib/game-logic.js:40-72 | A code scored against itself is 4 dead, 0 wounded. |
| GameLogic.WoundedBy | lib/game-logic.js:62-67 | A non-dead guess digit that occurs at another non-dead secret place is wounded. |
| GameLogic.ScoreFixtures | lib/game-logic.js:40-72 | Known scorings, such as `1743` against `3845` giving 1 dead and 1 wounded. |
| GameLogic.IsWinningGuess | lib/game-logic.js:79-81 | A Dead count wins exactly when it is 4. For any four-character secret and guess that produce the given Dead count, the verdict is a win exactly when the guess equals the secret. |
| GameLogic.WinningGuessIsSecret | lib/game-logic.js:40-72 | A guess scores 4 Dead exactly when it equals the secret. |
| GameLogic.ShuffledPrefixIsCode | lib/game-logic.js:96 | The first four entries of any arrangement of the ten digits form a Digit-Code. |
| GameLogic.GenerateRandomSecret | lib/game-logic.js:87-97 | The Fisher-Yates loop keeps the array an arrangement of the ten digits, so the secret is a Digit-Code that validation accepts. |
| Candidates.CodeIsDigitCode | lib/ai-opponent.js:19-26 | The code built from i, j, k, l is a Digit-Code exactly when the four digits differ, and it is the only code with those digits. |
| Candidates.NextRound | lib/ai-opponent.js:19-30 | Each round of the outer loop appends, in increasing order, exactly the Digit-Codes starting with that digit. |
| Candidates.AllRounds | lib/ai-opponent.js:17-32 | After ten rounds the list holds every Digit-Code exactly once (5040 of them), in increasing order. |
| Candidates.SurvivorsMembers | lib/ai-opponent.js:72-75 | A code survives one filter step exactly when it was in the pool and scores the recorded dead and wounded against that guess. |
| Candidates.PoolMembers | lib/ai-opponent.js:68-76 | After all filter steps, the pool is the universe codes consistent with every recorded answer. |
| Candidates.PoolAscending | lib/ai-opponent.js:68-76 | Filtering keeps the increasing order. |
| Candidates.SecretSurvives | lib/ai-opponent.js:68-76 | Given truthful answers, the opponent's secret is never filtered out, so the pool is never empty. |
| Candidates.GroupSizeMeaning | lib/ai-opponent.js:148-152 | An outcome group is non-empty exactly when some candidate produces that outcome. |
| Candidates.LargestGroupMeaning | lib/ai-opponent.js:155 | The largest group is at least every candidate's group and is attained. |
| Candidates.WorstCaseBounds | lib/ai-opponent.js:145-156 | For a non-empty pool, the worst case lies between 1 and the pool size and bounds every candidate's group. |
| Candidates.WorstCaseUnique | lib/ai-opponent.js:155 | Any attained upper bound of the group sizes is the worst case. |
| Candidates.GroupedStep | lib/ai-opponent.js:149-151 | Incrementing one key keeps the map equal to the group sizes of the candidates scanned so far. |
| Candidates.WorstCaseOfGroups | lib/ai-opponent.js:155 | The largest value of the completed map is the worst case. |
| Candidates.AllOutcomes | lib/ai-opponent.js:151 | The 25 (dead, wounded) pairs up to 4 are listed once each. |
| Candidates.GroupsPartitionPool | lib/ai-opponent.js:147-152 | The outcome groups add up to the whole pool. |
| Candidates.MinimaxStep | lib/ai-opponent.js:126-137 | One loop step keeps the best guess a minimax choice over the guesses scored so far. The best guess has minimal worst case, and the largest `info` among equal worst cases. |
| AI.GenerateAllPossibleNumbers | lib/ai-opponent.js:17-32 | The four nested loops build the universe round by round, as specified by `FirstRounds`. |
| AI.PushRound | lib/ai-opponent.js:20-29 | The three inner loops append exactly the codes of one outer round. |
| AI.KeepConsistent | lib/ai-opponent.js:72-75 | One `filter` pass returns exactly `Survivors`. |
| AI.SampleArray | lib/ai-opponent.js:190-193 | The sample has min(count, length) entries, all drawn from the input without repetition. |
| AI.CalculateWorstCase | lib/ai-opponent.js:145-156 | The counting loop and the maximum return exactly `WorstCase`, which lies between 1 and the pool size. |
| AI.LargestValue | lib/ai-opponent.js:155 | Returns a value of the map at least as large as every value. |
| AI.AIOpponent.constructor | lib/ai-opponent.js:9-12 | Stores the difficulty and the universe: every Digit-Code once, in increasing order. |
| AI.AIOpponent.MakeGuess | lib/ai-opponent.js:37-48 | Easy gives a Digit-Code. Hard gives a `HardOutcome`. Medium, and any other difficulty, give a `MediumOutcome`. |
| AI.AIOpponent.EasyGuess | lib/ai-opponent.js:53-57 | The first four of a shuffle of the ten digits form a Digit-Code. |
| AI.AIOpponent.FilterCandidates | lib/ai-opponent.js:68-76 | Returns exactly the pool consistent with the history. |
| AI.AIOpponent.MediumGuess | lib/ai-opponent.js:62-85 | Opens with `0123`. Otherwise the guess is a Digit-Code, and it lies in the consistent pool whenever that pool is non-empty. |
| AI.AIOpponent.HardGuess | lib/ai-opponent.js:92-140 | Opens with `0167`. A single consistent candidate is returned as is. Otherwise the guess is a minimax choice from the consistent pool. Every result is a Digit-Code. |
| AI.AIOpponent.MinimaxGuess | lib/ai-opponent.js:112-139 | Over the whole pool, or a 300-element sample of it, the loop returns a guess of minimal worst case with the largest `info` among ties. |
| AI.AIOpponent.GenerateSecret | lib/ai-opponent.js:198-200 | The secret is a Digit-Code that validation accepts. |
| Progression.GetLevelFromXP | lib/progression.js:4-21 | The level is the one whose band contains the XP. The band for level L runs from 50·L·(L−1) up to, but not including, 50·L·(L+1). nextLevelXP is 100·L, currentLevelXP is the XP above the band's start, and totalXPForNextLevel is the band's end. For XP ≥ 0, 0 ≤ currentLevelXP < nextLevelXP. |
| Progression.ThresholdStep | lib/progression.js:9-13 | Each level costs 100 XP more than the one before. |
| Progression.LevelUnique | lib/progression.js:4-21 | An amount of XP lies in exactly one level band. |
| Progression.LevelMonotone | lib/progression.js:4-21 | More XP never gives a lower level. |
| Progression.FirstLevels | lib/progression.js:4-21 | Below 100 XP the level is 1. 100 and 299 XP give level 2, and 300 XP gives level 3. |
| Progression.CalculateXP | lib/progression.js:24-47 | The award is always one of 10, 20, 50, 100, 150. |
| Progression.AiAwards | lib/progression.js:28-38 | An AI win pays 150 (hard), 100 (medium), 50 (easy), and 100 for any other or missing difficulty. An AI loss pays 20. |
| Progression.OtherAwards | lib/progression.js:41-46 | Practice pays 10 win or lose. A PvP win pays 100 and a loss 20. |
| Progression.WinPaysAtLeastLoss | lib/progression.js:24-47 | Winning a game never pays less than losing it. |
| Tournament.Padded | lib/tournament.js:14-19 | The padded field is always even, with at most one entry added. |
| Tournament.PaddedKeeps | lib/tournament.js:14-19 | The players keep their places. The BYE (no id) is appended exactly when the count is odd. |
| Tournament.RotatePermutes | lib/tournament.js:46 | Popping the last entrant and splicing it in at index 1 rearranges the field and keeps its length. |
| Tournament.ArrangementPermutes | lib/tournament.js:24-47 | The field of every round is a rearrangement of the padded field. |
| Tournament.ArrangementAt | lib/tournament.js:46 | After r rotations, index 0 still holds entrant 0, and every other index holds the entrant r places back around the circle of n − 1 places. |
| Tournament.GenerateRoundRobinPairings | lib/tournament.js:13-50 | There are n − 1 rounds (none for no players), and round r is the pairing of the field rotated r times. |
| Tournament.PairRound | lib/tournament.js:26-41 | On an even field, which is all the scheduler passes it, the inner loop returns exactly `RoundPairings`: slot i against slot n−1−i, skipping pairs with a falsy id. |
| Tournament.RotateField | lib/tournament.js:46 | The pop and splice compute `Rotate`. |
| Tournament.ScheduleAt | lib/tournament.js:24-47 | The schedule has one entry per round, and entry r pairs the field rotated r times. |
| Tournament.RoundSize | lib/tournament.js:28-41 | A round has at most n/2 matches, and no one is paired with themself. |
| Tournament.RoundDisjoint | lib/tournament.js:28-41 | Two matches of a round share no player. |
| Tournament.RoundMeets | lib/tournament.js:28-41 | Two entrants with ids meet in a round exactly when their indices add up to n − 1. |
| Tournament.FacingOnce | lib/tournament.js:24-47 | Over n − 1 rounds, two different entrants face each other in exactly one round. |
| Tournament.EveryPairMeetsOnce | lib/tournament.js:13-50 | Every two players with different truthy ids meet in exactly one round of the schedule. |
| Tournament.ScheduledRoundsDisjoint | lib/tournament.js:13-50 | In every scheduled round there are at most n/2 matches, and no player plays themself or plays twice. |
| Tournament.Compare | lib/tournament.js:58-67 | The comparator is non-positive exactly when `a` outranks `b`: more points, or equal points and more wins, or both equal and no lower level. It is zero exactly when all three keys agree. |
| Tournament.OutranksTotal | lib/tournament.js:58-67 | Any two records are comparable, and two records that outrank each other compare as equal. |
| Tournament.CalculateStandings | lib/tournament.js:57-68 | Sorts the array in place and returns it. The result is a permutation, ordered by points, then wins, then level, all descending. |
| Tournament.Insert | lib/tournament.js:57-68 | One insertion step extends the ranked prefix by one entry. The new prefix is a rearrangement of the old one, and the entries after it are unchanged. |

## Left out

- Database access, sockets, HTTP routes and the rest of `lib/tournament.js` (tournament creation, joining, match results) are not part of this model. The same holds for the rest of `lib/progression.js` (achievements, streaks).
- `calculateExpectedInformation` is floating-point entropy (`Math.log2`). It is the uninterpreted parameter `info`, so its value is not modelled.
- The randomness of `Math.random()`, including the `sort(() => Math.random() - 0.5)` shuffles, is an arbitrary choice. Nothing is stated about distributions.
- `makeGuess`'s `opponentSecret` parameter is unused in the source and is dropped.
- The grouping map is keyed by `Feedback` values instead of the strings `"dead-wounded"`. This key is one-to-one.
- JavaScript's dynamic typing is reduced to the `Arg` datatype (a string or not) for `validateNumber`. Game flags are booleans. The difficulty passed to `calculateXP` is an optional string, with `None` for null. The opponent's `difficulty` is a plain string: a null difficulty reaches the `default:` branch of the `switch` like any unknown string, so the medium strategy it gets is the one the model gives every other string.
- GameLogic.Validate: strings are sequences of Unicode scalar values, while JavaScript's `length` counts UTF-16 code units. For a string with characters outside the Basic Multilingual Plane the length check differs from the source. For example, `"1😀2"` has length 4 in JavaScript and fails the digit check, but has length 3 in the model and fails the length check. Lone surrogates cannot be represented.
- AI.CalculateWorstCase: requires a non-empty pool. On an empty pool the source returns `-Infinity`, but the hard opponent never calls it so.
- AI.AIOpponent.MakeGuess: requires that every recorded guess has four characters (`WellFormed`). The same holds for MediumGuess, HardGuess and FilterCandidates. The source would compare `undefined` characters for shorter guesses.
- GameLogic.CalculateDeadWounded: requires four-character inputs. The source reads `undefined` past the end of shorter ones. For longer ones it scores the first four places and ignores the rest, because both passes run over indices 0-3 only.
- AI.AIOpponent.MediumGuess: when no candidate is left it falls back to `EasyGuess`. Only the Digit-Code property is stated then.
- Tournament.PairRound: requires an even field. On an odd field, JavaScript's bound `i < playersCopy.length / 2` would also pair the middle slot with itself. The scheduler always pads the field to an even length first, so this case never arises.
- AI.PushRound, AI.AIOpponent.MinimaxGuess, Tournament.PairRound and Tournament.RotateField are inner loops or steps of the source functions, split out as methods of their own. The control flow is unchanged.
- Tournament.CalculateStandings: the sort is specified by order and permutation only. Stability (the order of fully tied records) is not stated, and the sort algorithm of the JavaScript engine is replaced by an insertion sort.
- Tournament.EveryPairMeetsOnce: requires the truthy ids to be distinct, as user ids are. Players with a falsy id are never paired at all.
- Tournament.GenerateRoundRobinPairings: the field is a sequence value, so the copy `[...players]` is implicit and the caller's list is never changed. Aliasing of the player objects is not modelled.
- `public/app.js`, the browser client, is not part of this model.

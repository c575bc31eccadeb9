/** The computer opponent: it keeps the universe of Digit-Codes and guesses
    at random (easy), by elimination (medium) or by minimax over the
    outcome groups (hard). Every `Math.random()` draw is an arbitrary choice
    within its range; the expected information of a guess, a floating-point
    entropy, is the parameter `info`. */
module AI {
  import opened Common
  import opened GameLogic
  import opened Candidates

  /** The universe of Digit-Codes, pushed by four nested loops over the
      digits 0..9 that skip digits already used: after the ten rounds of the
      outermost loop it holds every Digit-Code once, in increasing order
      (see `AllRounds`). */
  method GenerateAllPossibleNumbers() returns (numbers: seq<string>)
    ensures FirstRounds(numbers, 10)
  {
    numbers := [];
    NoRounds();
    for i := 0 to 10
      invariant FirstRounds(numbers, i)
    {
      ghost var before := numbers;
      numbers := PushRound(numbers, i);
      NextRound(before, i);
    }
  }

  /** One round of the outermost loop: the three inner loops push, in
      order, every code that starts with digit `i` and repeats no digit. */
  method PushRound(start: seq<string>, i: nat) returns (numbers: seq<string>)
    requires i < 10
    ensures numbers == start + Row2(i, 10)
  {
    numbers := start;
    for j := 0 to 10
      invariant numbers == start + Row2(i, j)
    {
      if j == i {
        Extend2(start, i, j);
        continue;
      }
      ghost var before2 := numbers;
      for k := 0 to 10
        invariant numbers == before2 + Row3(i, j, k)
      {
        if k == i || k == j {
          Extend3(before2, i, j, k);
          continue;
        }
        ghost var before3 := numbers;
        for l := 0 to 10
          invariant numbers == before3 + Row4(i, j, k, l)
        {
          Extend4(before3, i, j, k, l);
          if l == i || l == j || l == k {
            continue;
          }
          numbers := numbers + [Code(i, j, k, l)];
        }
        Extend3(before2, i, j, k);
      }
      Extend2(start, i, j);
    }
  }

  /** One `candidates.filter(...)`: keep the candidates that, taken as the
      secret, would have given the recorded feedback. */
  method KeepConsistent(pool: seq<string>, r: GuessRecord) returns (kept: seq<string>)
    requires Sized(pool) && |r.guess| == 4
    ensures kept == Survivors(pool, r)
  {
    kept := [];
    for n := 0 to |pool|
      invariant Sized(pool[..n])
      invariant kept == Survivors(pool[..n], r)
    {
      assert pool[..n + 1] == pool[..n] + [pool[n]];
      assert pool[..n + 1][..n] == pool[..n];
      var dead, wounded := CalculateDeadWounded(pool[n], r.guess);
      if dead == r.dead && wounded == r.wounded {
        kept := kept + [pool[n]];
      }
    }
    assert pool[..|pool|] == pool;
  }

  /** `[...items].sort(() => Math.random() - 0.5).slice(0, count)`: the
      randomly ordered copy is some rearrangement of the array. */
  method SampleArray<T(==)>(items: seq<T>, count: nat) returns (sample: seq<T>)
    ensures |sample| == if count < |items| then count else |items|
    ensures multiset(sample) <= multiset(items)
  {
    var shuffled :| multiset(shuffled) == multiset(items);
    assert |shuffled| == |multiset(shuffled)| == |items|;
    if count < |shuffled| {
      sample := shuffled[..count];
      assert shuffled == sample + shuffled[count..];
    } else {
      sample := shuffled;
    }
  }

  /** calculateWorstCase: count the candidates per feedback outcome, then
      take the largest count. */
  method CalculateWorstCase(guess: string, candidates: seq<string>) returns (worst: nat)
    requires |guess| == 4 && Sized(candidates) && candidates != []
    ensures worst == WorstCase(guess, candidates)
    ensures 1 <= worst <= |candidates|
  {
    var outcomeGroups: map<Feedback, nat> := map[];
    for n := 0 to |candidates|
      invariant Sized(candidates[..n])
      invariant Grouped(guess, candidates[..n], outcomeGroups)
    {
      assert candidates[..n + 1] == candidates[..n] + [candidates[n]];
      var dead, wounded := CalculateDeadWounded(candidates[n], guess);
      var key := Feedback(dead, wounded);
      GroupedStep(guess, candidates[..n], candidates[n], outcomeGroups);
      outcomeGroups := outcomeGroups[key := (if key in outcomeGroups then outcomeGroups[key] else 0) + 1];
    }
    assert candidates[..|candidates|] == candidates;
    GroupSizeMeaning(guess, candidates, Score(candidates[0], guess));
    assert candidates[0] in candidates;
    worst := LargestValue(outcomeGroups);
    WorstCaseOfGroups(guess, candidates, outcomeGroups, worst);
  }

  /** `Math.max(...Object.values(groups))` for a non-empty table. */
  method LargestValue(groups: map<Feedback, nat>) returns (largest: nat)
    requires groups != map[]
    ensures forall f :: f in groups ==> groups[f] <= largest
    ensures exists f :: f in groups && groups[f] == largest
  {
    var keys := groups.Keys;
    var first :| first in keys;
    largest := groups[first];
    while keys != {}
      invariant keys <= groups.Keys
      invariant forall f :: f in groups && f !in keys ==> groups[f] <= largest
      invariant exists f :: f in groups && groups[f] == largest
      decreases |keys|
    {
      var key :| key in keys;
      if groups[key] > largest {
        largest := groups[key];
      }
      keys := keys - {key};
    }
  }

  /** The opponent, with its difficulty and the universe it guesses from. */
  class AIOpponent {
    const difficulty: string
    const possibleNumbers: seq<string>

    /** The universe holds every Digit-Code exactly once, in increasing order. */
    ghost predicate Valid() {
      && (forall s :: s in possibleNumbers <==> IsDigitCode(s))
      && |possibleNumbers| == 5040
      && Sized(possibleNumbers) && Ascending(possibleNumbers)
    }

    constructor(difficulty: string := "medium")
      ensures this.difficulty == difficulty && Valid()
    {
      this.difficulty := difficulty;
      var numbers := GenerateAllPossibleNumbers();
      AllRounds(numbers);
      possibleNumbers := numbers;
    }

    /** The candidates still possible after the history: every Digit-Code
        consistent with all recorded feedback. */
    ghost function Remaining(history: seq<GuessRecord>): seq<string>
      requires Valid() && WellFormed(history)
    {
      Pool(possibleNumbers, history)
    }

    /** What mediumGuess promises: the opener "0123"; afterwards a remaining
        candidate, or any Digit-Code when none remains. */
    ghost predicate MediumOutcome(guess: string, history: seq<GuessRecord>)
      requires Valid() && WellFormed(history)
    {
      && IsDigitCode(guess)
      && (history == [] ==> guess == "0123")
      && (history != [] && Remaining(history) != [] ==> guess in Remaining(history))
    }

    /** What hardGuess promises: the opener "0167"; afterwards the only
        remaining candidate, or the minimax choice among the scored ones,
        or any Digit-Code when none remains. */
    ghost predicate HardOutcome(guess: string, history: seq<GuessRecord>, info: (string, seq<string>) -> real)
      requires Valid() && WellFormed(history)
    {
      && IsDigitCode(guess)
      && (history == [] ==> guess == "0167")
      && (history != [] && |Remaining(history)| == 1 ==> guess == Remaining(history)[0])
      && (history != [] && |Remaining(history)| >= 2 ==>
            && guess in Remaining(history)
            && exists checked :: EvaluationSample(checked, Remaining(history)) && Sized(checked) &&
                 MinimaxChoice(guess, checked, Remaining(history), info))
    }

    /** makeGuess: dispatch on the difficulty; any value other than "easy"
        and "hard" plays medium. */
    method MakeGuess(previousGuesses: seq<GuessRecord> := [], info: (string, seq<string>) -> real)
      returns (guess: string)
      requires Valid() && WellFormed(previousGuesses)
      ensures difficulty == "easy" ==> IsDigitCode(guess)
      ensures difficulty == "hard" ==> HardOutcome(guess, previousGuesses, info)
      ensures difficulty != "easy" && difficulty != "hard" ==> MediumOutcome(guess, previousGuesses)
    {
      if difficulty == "easy" {
        guess := EasyGuess();
      } else if difficulty == "medium" {
        guess := MediumGuess(previousGuesses);
      } else if difficulty == "hard" {
        guess := HardGuess(previousGuesses, info);
      } else {
        guess := MediumGuess(previousGuesses);
      }
    }

    /** easyGuess: shuffle the ten digit characters and keep the first four. */
    method EasyGuess() returns (guess: string)
      ensures IsDigitCode(guess)
    {
      var digits := DigitChars();
      var shuffled :| multiset(shuffled) == multiset(digits);
      ShuffledPrefixIsCode(shuffled);
      guess := shuffled[..4];
    }

    /** The filter loop shared by mediumGuess and hardGuess. */
    method FilterCandidates(previousGuesses: seq<GuessRecord>) returns (candidates: seq<string>)
      requires Valid() && WellFormed(previousGuesses)
      ensures candidates == Remaining(previousGuesses)
    {
      candidates := possibleNumbers;
      for n := 0 to |previousGuesses|
        invariant WellFormed(previousGuesses[..n])
        invariant candidates == Pool(possibleNumbers, previousGuesses[..n])
      {
        assert previousGuesses[n] in previousGuesses;
        assert previousGuesses[..n + 1][..n] == previousGuesses[..n];
        candidates := KeepConsistent(candidates, previousGuesses[n]);
      }
      assert previousGuesses[..|previousGuesses|] == previousGuesses;
    }

    /** mediumGuess: open with "0123", then pick a random remaining
        candidate, falling back to an easy guess when none remains. */
    method MediumGuess(previousGuesses: seq<GuessRecord>) returns (guess: string)
      requires Valid() && WellFormed(previousGuesses)
      ensures MediumOutcome(guess, previousGuesses)
    {
      if |previousGuesses| == 0 {
        guess := "0123";
        assert IsDigitCode(guess) by {
          assert guess[0] < guess[1] < guess[2] < guess[3];
        }
        return;
      }
      var candidates := FilterCandidates(previousGuesses);
      if |candidates| == 0 {
        guess := EasyGuess();
        return;
      }
      var index :| 0 <= index < |candidates|;
      guess := candidates[index];
      PoolMembers(possibleNumbers, previousGuesses);
    }

    /** hardGuess: open with "0167"; afterwards score the remaining
        candidates (a sample of 300 when more remain) and keep the one with
        the smallest worst case, breaking ties by larger expected
        information. */
    method HardGuess(previousGuesses: seq<GuessRecord>, info: (string, seq<string>) -> real)
      returns (guess: string)
      requires Valid() && WellFormed(previousGuesses)
      ensures HardOutcome(guess, previousGuesses, info)
    {
      if |previousGuesses| == 0 {
        guess := "0167";
        assert IsDigitCode(guess) by {
          assert guess[0] < guess[1] < guess[2] < guess[3];
        }
        return;
      }
      var candidates := FilterCandidates(previousGuesses);
      if |candidates| == 0 {
        guess := EasyGuess();
        return;
      }
      if |candidates| == 1 {
        guess := candidates[0];
        PoolMembers(possibleNumbers, previousGuesses);
        return;
      }

      guess := MinimaxGuess(candidates, info);
      PoolMembers(possibleNumbers, previousGuesses);
    }

    /** The minimax part of hardGuess, for two or more candidates: score
        every candidate, or a sample of 300 when more remain, and keep the
        first with the smallest worst case, replacing it only by a guess
        with a smaller worst case or with the same worst case and more
        expected information. */
    method MinimaxGuess(candidates: seq<string>, info: (string, seq<string>) -> real)
      returns (bestGuess: string)
      requires Sized(candidates) && |candidates| >= 2
      ensures bestGuess in candidates
      ensures exists checked :: EvaluationSample(checked, candidates) && Sized(checked) &&
                MinimaxChoice(bestGuess, checked, candidates, info)
    {
      bestGuess := candidates[0];
      var minWorstCase: Option<nat> := None;  // Infinity
      var bestEntropy: real := -1.0;

      var guessesToCheck;
      if |candidates| > 300 {
        guessesToCheck := SampleArray(candidates, 300);
      } else {
        guessesToCheck := candidates;
      }
      forall g | g in guessesToCheck ensures g in candidates {
        assert g in multiset(guessesToCheck);
      }

      for n := 0 to |guessesToCheck|
        invariant bestGuess in candidates
        invariant n == 0 ==> minWorstCase == None
        invariant n > 0 ==> && minWorstCase == Some(WorstCase(bestGuess, candidates))
                            && bestEntropy == info(bestGuess, candidates)
                            && MinimaxChoice(bestGuess, guessesToCheck[..n], candidates, info)
      {
        var g := guessesToCheck[n];
        assert guessesToCheck[..n + 1] == guessesToCheck[..n] + [g];
        MinimaxStep(bestGuess, g, guessesToCheck[..n], candidates, info);
        var worstCase := CalculateWorstCase(g, candidates);
        var entropy := info(g, candidates);
        if minWorstCase.None? || worstCase < minWorstCase.value
          || (worstCase == minWorstCase.value && entropy > bestEntropy)
        {
          minWorstCase := Some(worstCase);
          bestEntropy := entropy;
          bestGuess := g;
        }
      }
      assert guessesToCheck[..|guessesToCheck|] == guessesToCheck;
      assert EvaluationSample(guessesToCheck, candidates);
    }

    /** generateSecret: the opponent's secret is an easy guess. */
    method GenerateSecret() returns (secret: string)
      ensures IsDigitCode(secret)
      ensures Validate(Text(secret)) == Validation.Valid
    {
      secret := EasyGuess();
    }
  }
}

/** Player progression: the level reached with a given amount of XP, and the
    XP a finished game awards. */
module Progression {
  import opened Common

  /** What getLevelFromXP reports. */
  datatype LevelInfo = LevelInfo(level: int, currentLevelXP: int, nextLevelXP: int, totalXPForNextLevel: int)

  /** The XP needed to reach `level` from level 1:
      100 + 200 + ... + 100 * (level - 1). */
  function Threshold(level: nat): nat {
    50 * level * (level - 1)
  }

  /** Going up one level costs 100 XP per level already held. */
  lemma ThresholdStep(level: nat)
    ensures Threshold(level + 1) == Threshold(level) + 100 * level
  {
    calc {
      Threshold(level + 1);
      50 * (level + 1) * level;
      50 * level * level + 50 * level;
      { assert 50 * level * (level - 1) == 50 * level * level - 50 * level; }
      Threshold(level) + 100 * level;
    }
  }

  /** The thresholds strictly increase from level 1 on. */
  lemma {:induction false} ThresholdIncreasing(a: nat, b: nat)
    requires 1 <= a < b
    ensures Threshold(a) < Threshold(b)
  {
    ThresholdStep(b - 1);
    if a < b - 1 {
      ThresholdIncreasing(a, b - 1);
    }
  }

  /** `level` is the level of a player holding `xp`: the highest level whose
      threshold is reached, and level 1 below the first threshold (also for
      a negative amount). */
  predicate InLevel(xp: int, level: int) {
    level >= 1 && (level == 1 || Threshold(level) <= xp) && xp < Threshold(level + 1)
  }

  /** getLevelFromXP: climb level by level while the next threshold is
      reached. */
  method GetLevelFromXP(xp: int) returns (info: LevelInfo)
    ensures InLevel(xp, info.level)
    ensures info.nextLevelXP == 100 * info.level
    ensures info.currentLevelXP == xp - Threshold(info.level)
    ensures info.totalXPForNextLevel == Threshold(info.level + 1)
    ensures xp >= 0 ==> 0 <= info.currentLevelXP < info.nextLevelXP
  {
    var level := 1;
    var xpNeeded := 0;
    var increment := 100;

    while xp >= xpNeeded + increment
      invariant level >= 1
      invariant xpNeeded == Threshold(level) && increment == 100 * level
      invariant level == 1 || xpNeeded <= xp
      decreases xp - xpNeeded
    {
      ThresholdStep(level);
      xpNeeded := xpNeeded + increment;
      level := level + 1;
      increment := increment + 100;
    }
    ThresholdStep(level);

    info := LevelInfo(level, xp - xpNeeded, increment, xpNeeded + increment);
  }

  /** Every amount of XP has exactly one level. */
  lemma LevelUnique(xp: int, a: int, b: int)
    requires InLevel(xp, a) && InLevel(xp, b)
    ensures a == b
  {
    if a < b {
      ThresholdIncreasing(a + 1, b);
    } else if b < a {
      ThresholdIncreasing(b + 1, a);
    }
  }

  /** More XP never means a lower level. */
  lemma LevelMonotone(xp1: int, xp2: int, a: int, b: int)
    requires xp1 <= xp2 && InLevel(xp1, a) && InLevel(xp2, b)
    ensures a <= b
  {
    if b < a {
      ThresholdIncreasing(b + 1, a);
    }
  }

  /** Below 100 XP a player is at level 1; with exactly 100 at level 2. */
  lemma FirstLevels(xp: int)
    ensures xp < 100 ==> InLevel(xp, 1)
    ensures InLevel(100, 2) && InLevel(299, 2) && InLevel(300, 3)
  {
  }

  // ---------------------------------------------------------------------
  // XP awards

  /** The two flags of a game record that decide its award. */
  datatype Game = Game(isAi: bool, isPractice: bool)

  /** calculateXP: the player is the winner when the ids are identical; the
      difficulty is absent (null) unless given. */
  function CalculateXP<Id(==)>(game: Game, winnerId: Id, userId: Id, aiDifficulty: Option<string> := None): (xp: nat)
    ensures xp in {10, 20, 50, 100, 150}
  {
    var isWinner := winnerId == userId;
    if game.isAi then
      if isWinner then
        match aiDifficulty
        case Some("hard") => 150
        case Some("medium") => 100
        case Some("easy") => 50
        case _ => 100
      else 20
    else if game.isPractice then 10
    else if isWinner then 100
    else 20
  }

  /** The award table of an AI game: a win pays by difficulty, any other
      difficulty pays as medium, and a loss pays 20. */
  lemma AiAwards<Id>(winner: Id, loser: Id, difficulty: string)
    requires winner != loser
    ensures CalculateXP(Game(true, false), winner, winner, Some("hard")) == 150
    ensures CalculateXP(Game(true, false), winner, winner, Some("medium")) == 100
    ensures CalculateXP(Game(true, false), winner, winner, Some("easy")) == 50
    ensures difficulty !in {"hard", "medium", "easy"} ==>
      CalculateXP(Game(true, false), winner, winner, Some(difficulty)) == 100
    ensures CalculateXP(Game(true, false), winner, winner, None) == 100
    ensures CalculateXP(Game(true, false), winner, loser, Some(difficulty)) == 20
  {
  }

  /** Outside AI games: practice pays 10 either way; otherwise a win pays
      100 and a loss 20. */
  lemma OtherAwards<Id>(game: Game, winner: Id, loser: Id, difficulty: Option<string>)
    requires !game.isAi && winner != loser
    ensures game.isPractice ==> CalculateXP(game, winner, winner, difficulty) == 10
    ensures game.isPractice ==> CalculateXP(game, winner, loser, difficulty) == 10
    ensures !game.isPractice ==> CalculateXP(game, winner, winner, difficulty) == 100
    ensures !game.isPractice ==> CalculateXP(game, winner, loser, difficulty) == 20
  {
  }

  /** Winning never pays less than losing the same game. */
  lemma WinPaysAtLeastLoss<Id>(game: Game, winner: Id, loser: Id, difficulty: Option<string>)
    requires winner != loser
    ensures CalculateXP(game, winner, winner, difficulty) >= CalculateXP(game, winner, loser, difficulty)
  {
  }
}

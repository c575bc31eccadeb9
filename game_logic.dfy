/** The scoring engine of Dead & Wounded: validation of 4-digit codes,
    the Dead/Wounded feedback, the win test and the random secret. */
module GameLogic {
  import opened Common

  /** The value handed to the validator: a string, or any other value
      (a number, null, ...), which is never a valid code. */
  datatype Arg = Text(s: string) | NonString

  /** The three failures of validation, checked in this order. */
  datatype InvalidReason = WrongLength | NonDigit | DuplicateDigit

  datatype Validation = Valid | Invalid(reason: InvalidReason)

  /** Dead/Wounded feedback of one guess. */
  datatype Feedback = Feedback(dead: nat, wounded: nat)

  /** The character of a digit value (`${d}`). */
  function DigitChar(d: nat): char
    requires d < 10
  {
    ('0' as int + d) as char
  }

  /** "0123456789": the character of each digit value at its own index. */
  function DigitChars(): (digits: string)
    ensures |digits| == 10
  {
    seq(10, i requires 0 <= i < 10 => DigitChar(i))
  }

  predicate IsDigit(c: char) {
    '0' <= c <= '9'
  }

  /** A Digit-Code: four characters, all decimal digits, pairwise distinct. */
  predicate IsDigitCode(s: string) {
    |s| == 4 && (forall i :: 0 <= i < 4 ==> IsDigit(s[i])) && Distinct(s)
  }

  /** The user-facing message of each failure. */
  function Message(reason: InvalidReason): (m: string)
    ensures |m| > 0 && 'A' <= m[0] <= 'Z'
  {
    match reason
    case WrongLength => "Must be exactly 4 digits"
    case NonDigit => "Must contain only digits 0-9"
    case DuplicateDigit => "Digits must be unique (no repetition)"
  }

  /** Each failure renders a message of its own. */
  lemma MessagesDiffer(a: InvalidReason, b: InvalidReason)
    requires a != b
    ensures Message(a) != Message(b)
  {
    match a
    case WrongLength => assert Message(a)[0] == 'M' && Message(a)[5] == 'b';
      if b == NonDigit { assert Message(b)[5] == 'c'; } else { assert Message(b)[0] == 'D'; }
    case NonDigit => assert Message(a)[5] == 'c';
      if b == WrongLength { assert Message(b)[5] == 'b'; } else { assert Message(b)[0] == 'D'; }
    case DuplicateDigit => assert Message(a)[0] == 'D'; assert Message(b)[0] == 'M';
  }

  // ---------------------------------------------------------------------
  // Validation

  /** The test `/^[0-9]{4}$/` on a string already known to have length 4. */
  predicate AllDigits(s: string) {
    s == [] || (IsDigit(s[0]) && AllDigits(s[1..]))
  }

  lemma {:induction false} AllDigitsMeaning(s: string)
    ensures AllDigits(s) <==> forall i :: 0 <= i < |s| ==> IsDigit(s[i])
  {
    if s != [] {
      AllDigitsMeaning(s[1..]);
      assert forall i :: 1 <= i < |s| ==> s[i] == s[1..][i - 1];
    }
  }

  /** The set built from the characters of `s` (`new Set(number.split(''))`). */
  function CharSet(s: string): set<char> {
    if s == [] then {} else {s[0]} + CharSet(s[1..])
  }

  lemma {:induction false} CharSetMembers(s: string)
    ensures forall c :: c in CharSet(s) <==> c in s
  {
    if s != [] {
      CharSetMembers(s[1..]);
      assert s == [s[0]] + s[1..];
    }
  }

  /** The set has as many members as the string has characters exactly when
      no character repeats. */
  lemma {:induction false} CharSetSize(s: string)
    ensures |CharSet(s)| <= |s|
    ensures |CharSet(s)| == |s| <==> Distinct(s)
  {
    if s != [] {
      var t := s[1..];
      CharSetSize(t);
      CharSetMembers(t);
      assert forall i :: 1 <= i < |s| ==> s[i] == t[i - 1];
      if s[0] in t {
        var k :| 0 <= k < |t| && t[k] == s[0];
        assert s[0] == s[k + 1];
        assert CharSet(s) == CharSet(t);
      } else {
        assert CharSet(s) == {s[0]} + CharSet(t) && s[0] !in CharSet(t);
        assert Distinct(s) <==> Distinct(t) by {
          if Distinct(t) {
            forall i, j | 0 <= i < j < |s| ensures s[i] != s[j] {
              if i == 0 { assert s[j] in t; }
            }
          }
          if Distinct(s) {
            forall i, j | 0 <= i < j < |t| ensures t[i] != t[j] {
              assert t[i] == s[i + 1] && t[j] == s[j + 1];
            }
          }
        }
      }
    }
  }

  /** validateNumber: the length check, then the digit check, then the
      uniqueness check; the first that fails decides the error. */
  function Validate(arg: Arg): (r: Validation)
    ensures r == Invalid(WrongLength) <==> !(arg.Text? && |arg.s| == 4)
    ensures r == Invalid(NonDigit) <==>
      arg.Text? && |arg.s| == 4 && exists i :: 0 <= i < 4 && !IsDigit(arg.s[i])
    ensures r == Invalid(DuplicateDigit) <==>
      arg.Text? && |arg.s| == 4 && (forall i :: 0 <= i < 4 ==> IsDigit(arg.s[i])) && !Distinct(arg.s)
    ensures r == Valid <==> arg.Text? && IsDigitCode(arg.s)
  {
    if !arg.Text? || |arg.s| != 4 then Invalid(WrongLength)
    else
      AllDigitsMeaning(arg.s);
      CharSetSize(arg.s);
      if !AllDigits(arg.s) then Invalid(NonDigit)
      else if |CharSet(arg.s)| != 4 then Invalid(DuplicateDigit)
      else Valid
  }

  /** The accepted examples of the validator's unit tests. */
  lemma ValidateAccepts()
    ensures Validate(Text("1234")) == Valid
    ensures Validate(Text("0123")) == Valid
    ensures Validate(Text("9876")) == Valid
  {
    assert IsDigitCode("1234");
    assert IsDigitCode("0123");
    assert IsDigitCode("9876");
  }

  /** The rejected examples of the validator's unit tests, each with the
      error the first failing check gives. */
  lemma ValidateRejects()
    ensures Validate(Text("123")) == Invalid(WrongLength)
    ensures Validate(Text("12345")) == Invalid(WrongLength)
    ensures Validate(Text("")) == Invalid(WrongLength)
    ensures Validate(NonString) == Invalid(WrongLength)
    ensures Validate(Text("12ab")) == Invalid(NonDigit)
    ensures Validate(Text("1123")) == Invalid(DuplicateDigit)
    ensures Validate(Text("1111")) == Invalid(DuplicateDigit)
  {
    assert !IsDigit("12ab"[2]);
    assert !Distinct("1123") by { assert "1123"[0] == "1123"[1]; }
    assert !Distinct("1111") by { assert "1111"[0] == "1111"[1]; }
  }

  // ---------------------------------------------------------------------
  // Dead and Wounded

  /** Position `i` is Dead: the guess has the secret's digit there. */
  predicate DeadAt(secret: string, guess: string, i: nat)
    requires |secret| == 4 && |guess| == 4 && i < 4
  {
    guess[i] == secret[i]
  }

  /** Guess position `i` is Wounded: it is not Dead and its digit sits at some
      other secret position `j` that is not Dead either. */
  predicate WoundedAt(secret: string, guess: string, i: nat)
    requires |secret| == 4 && |guess| == 4 && i < 4
  {
    !DeadAt(secret, guess, i) &&
    exists j :: 0 <= j < 4 && j != i && !DeadAt(secret, guess, j) && guess[i] == secret[j]
  }

  /** Number of Dead positions among the first `n`. */
  function CountDead(secret: string, guess: string, n: nat): nat
    requires |secret| == 4 && |guess| == 4 && n <= 4
  {
    if n == 0 then 0
    else CountDead(secret, guess, n - 1) + (if DeadAt(secret, guess, n - 1) then 1 else 0)
  }

  /** Number of Wounded positions among the first `n`. */
  function CountWounded(secret: string, guess: string, n: nat): nat
    requires |secret| == 4 && |guess| == 4 && n <= 4
  {
    if n == 0 then 0
    else CountWounded(secret, guess, n - 1) + (if WoundedAt(secret, guess, n - 1) then 1 else 0)
  }

  /** The feedback the rules define for `guess` against `secret`. */
  function Score(secret: string, guess: string): Feedback
    requires |secret| == 4 && |guess| == 4
  {
    Feedback(CountDead(secret, guess, 4), CountWounded(secret, guess, 4))
  }

  /** calculateDeadWounded: a Dead pass that records the Dead positions, then
      a Wounded pass that skips them on both sides and stops at the first
      match for each guess position. */
  method CalculateDeadWounded(secret: string, guess: string) returns (dead: nat, wounded: nat)
    requires |secret| == 4 && |guess| == 4
    ensures Feedback(dead, wounded) == Score(secret, guess)
  {
    dead, wounded := 0, 0;
    var deadPositions: set<nat> := {};
    for i := 0 to 4
      invariant dead == CountDead(secret, guess, i)
      invariant forall k :: 0 <= k < 4 ==> (k in deadPositions <==> k < i && DeadAt(secret, guess, k))
    {
      if guess[i] == secret[i] {
        dead := dead + 1;
        deadPositions := deadPositions + {i};
      }
    }
    for i := 0 to 4
      invariant wounded == CountWounded(secret, guess, i)
    {
      if i in deadPositions {
        continue;
      }
      for j := 0 to 4
        invariant wounded == CountWounded(secret, guess, i)
        invariant forall k :: 0 <= k < j && k !in deadPositions ==> !(i != k && guess[i] == secret[k])
      {
        if j in deadPositions {
          continue;
        }
        if i != j && guess[i] == secret[j] {
          assert WoundedAt(secret, guess, i);
          wounded := wounded + 1;
          break;
        }
      }
    }
  }

  lemma {:induction false} CountsBounded(secret: string, guess: string, n: nat)
    requires |secret| == 4 && |guess| == 4 && n <= 4
    ensures CountDead(secret, guess, n) + CountWounded(secret, guess, n) <= n
  {
    if n > 0 {
      CountsBounded(secret, guess, n - 1);
    }
  }

  /** Dead and Wounded are never more than four together: a Wounded position
      is never a Dead one. */
  lemma ScoreBounds(secret: string, guess: string)
    requires |secret| == 4 && |guess| == 4
    ensures Score(secret, guess).dead <= 4 && Score(secret, guess).wounded <= 4
    ensures Score(secret, guess).dead + Score(secret, guess).wounded <= 4
  {
    CountsBounded(secret, guess, 4);
  }

  lemma {:induction false} CountDeadFull(secret: string, guess: string, n: nat)
    requires |secret| == 4 && |guess| == 4 && n <= 4
    ensures CountDead(secret, guess, n) <= n
    ensures CountDead(secret, guess, n) == n <==> forall k :: 0 <= k < n ==> DeadAt(secret, guess, k)
  {
    if n > 0 {
      CountDeadFull(secret, guess, n - 1);
    }
  }

  lemma {:induction false} NoWoundedWhenAllDead(secret: string, guess: string, n: nat)
    requires |secret| == 4 && |guess| == 4 && n <= 4
    requires forall k :: 0 <= k < 4 ==> DeadAt(secret, guess, k)
    ensures CountWounded(secret, guess, n) == 0
  {
    if n > 0 {
      NoWoundedWhenAllDead(secret, guess, n - 1);
    }
  }

  /** A code scored against itself is four Dead and no Wounded. */
  lemma ScoreSelf(code: string)
    requires |code| == 4
    ensures Score(code, code) == Feedback(4, 0)
  {
    CountDeadFull(code, code, 4);
    NoWoundedWhenAllDead(code, code, 4);
  }

  /** isWinningGuess: whatever secret and guess produced the Dead count, the
      guess wins exactly when it is the secret itself. */
  function IsWinningGuess(dead: int): (won: bool)
    ensures won <==> dead == 4
    ensures forall secret, guess :: |secret| == 4 && |guess| == 4 && Score(secret, guess).dead == dead ==>
      (won <==> guess == secret)
  {
    assert forall secret, guess :: |secret| == 4 && |guess| == 4 ==>
      (Score(secret, guess).dead == 4 <==> guess == secret) by {
      forall secret, guess | |secret| == 4 && |guess| == 4
        ensures Score(secret, guess).dead == 4 <==> guess == secret
      {
        WinningGuessIsSecret(secret, guess);
      }
    }
    dead == 4
  }

  /** Four Dead happens exactly when the guess is the secret itself. */
  lemma WinningGuessIsSecret(secret: string, guess: string)
    requires |secret| == 4 && |guess| == 4
    ensures Score(secret, guess).dead == 4 <==> guess == secret
  {
    CountDeadFull(secret, guess, 4);
    if guess == secret {
      ScoreSelf(secret);
    }
    if forall k :: 0 <= k < 4 ==> DeadAt(secret, guess, k) {
      forall k | 0 <= k < 4 ensures guess[k] == secret[k] {
        assert DeadAt(secret, guess, k);
      }
    }
  }

  /** Guess position `i` is Wounded by secret position `j`. */
  lemma WoundedBy(secret: string, guess: string, i: nat, j: nat)
    requires |secret| == 4 && |guess| == 4 && i < 4 && j < 4 && i != j
    requires !DeadAt(secret, guess, i) && !DeadAt(secret, guess, j) && guess[i] == secret[j]
    ensures WoundedAt(secret, guess, i)
  {
  }

  /** The feedback examples of the unit tests. */
  lemma ScoreFixtures()
    ensures Score("1234", "5678") == Feedback(0, 0)
    ensures Score("1234", "1234") == Feedback(4, 0)
    ensures Score("1234", "1567") == Feedback(1, 0)
    ensures Score("1234", "4321") == Feedback(0, 4)
    ensures Score("1743", "3854") == Feedback(0, 2)
    ensures Score("1743", "3845") == Feedback(1, 1)
    ensures Score("1234", "1324") == Feedback(2, 2)
    ensures Score("1234", "1243") == Feedback(2, 2)
    ensures Score("0123", "0456") == Feedback(1, 0)
    ensures Score("1234", "0234") == Feedback(3, 0)
  {
    WoundedBy("1234", "4321", 0, 3);
    WoundedBy("1234", "4321", 1, 2);
    WoundedBy("1234", "4321", 2, 1);
    WoundedBy("1234", "4321", 3, 0);
    WoundedBy("1743", "3854", 0, 3);
    WoundedBy("1743", "3854", 3, 2);
    WoundedBy("1743", "3845", 0, 3);
    WoundedBy("1234", "1324", 1, 2);
    WoundedBy("1234", "1324", 2, 1);
    WoundedBy("1234", "1243", 2, 3);
    WoundedBy("1234", "1243", 3, 2);
  }

  // ---------------------------------------------------------------------
  // Random secret

  /** `s` holds the ten digit characters in some order. */
  ghost predicate IsDigitArrangement(s: seq<char>) {
    multiset(s) == multiset(DigitChars())
  }

  /** Exchanging two entries keeps an arrangement of the ten digits one. */
  lemma SwapKeepsArrangement(before: seq<char>, after: seq<char>, i: nat, j: nat)
    requires i < |before| && j < |before| && IsDigitArrangement(before)
    requires after == before[i := before[j]][j := before[i]]
    ensures IsDigitArrangement(after)
  {
  }

  /** The ten digit characters are digits and pairwise different. */
  lemma DigitCharsDistinct()
    ensures Distinct(DigitChars())
    ensures forall c :: c in DigitChars() ==> IsDigit(c)
  {
  }

  /** The first four of any arrangement of the ten digit characters form a
      Digit-Code. */
  lemma ShuffledPrefixIsCode(digits: seq<char>)
    requires IsDigitArrangement(digits)
    ensures |digits| == 10
    ensures IsDigitCode(digits[..4])
  {
    DigitCharsDistinct();
    PermutationOfDistinct(digits, DigitChars());
    var code := digits[..4];
    forall k | 0 <= k < 4 ensures IsDigit(code[k]) {
      assert code[k] == digits[k] && digits[k] in digits;
    }
    assert Distinct(code) by {
      forall i, j | 0 <= i < j < 4 ensures code[i] != code[j] {
        assert code[i] == digits[i] && code[j] == digits[j];
      }
    }
  }

  /** generateRandomSecret: a Fisher-Yates shuffle of the ten digit
      characters, of which the first four are kept. Each `Math.random()`
      draw is an arbitrary index in range. */
  method GenerateRandomSecret() returns (secret: string)
    ensures IsDigitCode(secret)
    ensures Validate(Text(secret)) == Valid
  {
    var digits := new char[10] ['0', '1', '2', '3', '4', '5', '6', '7', '8', '9'];
    assert IsDigitArrangement(digits[..]) by {
      assert digits[..] == DigitChars();
    }
    var i := digits.Length - 1;
    while i > 0
      invariant 0 <= i < digits.Length
      invariant IsDigitArrangement(digits[..])
    {
      var j :| 0 <= j <= i;
      ghost var before := digits[..];
      digits[i], digits[j] := digits[j], digits[i];
      SwapKeepsArrangement(before, digits[..], i, j);
      i := i - 1;
    }
    secret := digits[..4];
    ShuffledPrefixIsCode(digits[..]);
    assert secret == digits[..][..4];
  }
}

/** What the solver computes, stated as functions: the universe of the 5040
    Digit-Codes in the order the four nested loops produce them, the
    candidate pool left by a guess history, and the worst-case outcome group
    of a guess. The class in module AI is proved against these. */
module Candidates {
  import opened Common
  import opened GameLogic

  // ---------------------------------------------------------------------
  // Digits and codes

  /** The value of a digit character. */
  function DigitValue(c: char): int {
    c as int - '0' as int
  }

  lemma DigitRoundTrip(d: nat, c: char)
    requires d < 10
    ensures IsDigit(DigitChar(d)) && DigitValue(DigitChar(d)) == d
    ensures IsDigit(c) ==> 0 <= DigitValue(c) < 10 && DigitChar(DigitValue(c)) == c
    ensures IsDigit(c) ==> (c == DigitChar(d) <==> DigitValue(c) == d)
  {
  }

  /** The code `${a}${b}${c}${d}` pushed by the innermost loop. */
  function Code(a: nat, b: nat, c: nat, d: nat): string
    requires a < 10 && b < 10 && c < 10 && d < 10
  {
    [DigitChar(a), DigitChar(b), DigitChar(c), DigitChar(d)]
  }

  /** The number a four-character code spells. For codes made of digits,
      ordering by this number is dictionary order on the strings. */
  function Value(s: string): int
    requires |s| == 4
  {
    1000 * DigitValue(s[0]) + 100 * DigitValue(s[1]) + 10 * DigitValue(s[2]) + DigitValue(s[3])
  }

  /** Every code is four characters long. */
  predicate Sized(codes: seq<string>) {
    forall c :: c in codes ==> |c| == 4
  }

  /** Strictly increasing numeric (equivalently, dictionary) order, hence no
      code twice. */
  predicate Ascending(codes: seq<string>) {
    forall p, q :: 0 <= p < q < |codes| ==>
      |codes[p]| == 4 && |codes[q]| == 4 && Value(codes[p]) < Value(codes[q])
  }

  lemma AscendingIsDistinct(codes: seq<string>)
    requires Ascending(codes)
    ensures Distinct(codes)
  {
  }

  lemma {:induction false} AscendingAppend(a: seq<string>, b: seq<string>)
    requires Ascending(a) && Ascending(b) && Sized(a) && Sized(b)
    requires forall x, y :: x in a && y in b ==> Value(x) < Value(y)
    ensures Ascending(a + b)
  {
    forall p, q | 0 <= p < q < |a + b|
      ensures |(a + b)[p]| == 4 && |(a + b)[q]| == 4 && Value((a + b)[p]) < Value((a + b)[q])
    {
      if q < |a| {
        assert (a + b)[p] == a[p] && (a + b)[q] == a[q];
      } else if p >= |a| {
        assert (a + b)[p] == b[p - |a|] && (a + b)[q] == b[q - |a|];
      } else {
        assert (a + b)[p] == a[p] && a[p] in a;
        assert (a + b)[q] == b[q - |a|] && b[q - |a|] in b;
      }
    }
  }

  // ---------------------------------------------------------------------
  // The universe, loop by loop. RowN(..., n) is what the N-th nested loop
  // has pushed after its first n iterations.

  function Row4(i: nat, j: nat, k: nat, n: nat): seq<string>
    requires i < 10 && j < 10 && k < 10 && n <= 10
  {
    if n == 0 then []
    else Row4(i, j, k, n - 1) + (if n - 1 == i || n - 1 == j || n - 1 == k then [] else [Code(i, j, k, n - 1)])
  }

  function Row3(i: nat, j: nat, n: nat): seq<string>
    requires i < 10 && j < 10 && n <= 10
  {
    if n == 0 then []
    else Row3(i, j, n - 1) + (if n - 1 == i || n - 1 == j then [] else Row4(i, j, n - 1, 10))
  }

  function Row2(i: nat, n: nat): seq<string>
    requires i < 10 && n <= 10
  {
    if n == 0 then []
    else Row2(i, n - 1) + (if n - 1 == i then [] else Row3(i, n - 1, 10))
  }

  /** A Digit-Code that starts with the given digits. */
  predicate Starts3(s: string, i: nat, j: nat, k: nat)
    requires i < 10 && j < 10 && k < 10
  {
    IsDigitCode(s) && s[0] == DigitChar(i) && s[1] == DigitChar(j) && s[2] == DigitChar(k)
  }

  predicate Starts2(s: string, i: nat, j: nat)
    requires i < 10 && j < 10
  {
    IsDigitCode(s) && s[0] == DigitChar(i) && s[1] == DigitChar(j)
  }

  predicate Starts1(s: string, i: nat)
    requires i < 10
  {
    IsDigitCode(s) && s[0] == DigitChar(i)
  }

  /** `Code(i, j, k, l)` is a Digit-Code exactly when its digits differ; and
      every Digit-Code is the code of its own digits. */
  lemma CodeIsDigitCode(s: string, i: nat, j: nat, k: nat, l: nat)
    requires i < 10 && j < 10 && k < 10 && l < 10
    ensures IsDigitCode(Code(i, j, k, l)) <==> i != j && i != k && i != l && j != k && j != l && k != l
    ensures Starts3(s, i, j, k) && DigitValue(s[3]) == l ==> s == Code(i, j, k, l)
  {
    var c := Code(i, j, k, l);
    if |s| == 4 {
      DigitRoundTrip(i, s[0]);
      DigitRoundTrip(j, s[1]);
      DigitRoundTrip(k, s[2]);
      DigitRoundTrip(l, s[3]);
    }
    if i != j && i != k && i != l && j != k && j != l && k != l {
      assert DigitValue(c[0]) == i && DigitValue(c[1]) == j && DigitValue(c[2]) == k && DigitValue(c[3]) == l;
      assert Distinct(c);
    }
    if IsDigitCode(c) {
      assert c[0] != c[1] && c[0] != c[2] && c[0] != c[3] && c[1] != c[2] && c[1] != c[3] && c[2] != c[3];
    }
  }

  lemma {:induction false} Row4Members(i: nat, j: nat, k: nat, n: nat)
    requires i < 10 && j < 10 && k < 10 && n <= 10
    requires i != j && i != k && j != k
    ensures forall s :: s in Row4(i, j, k, n) <==> Starts3(s, i, j, k) && DigitValue(s[3]) < n
  {
    if n > 0 {
      Row4Members(i, j, k, n - 1);
      var l := n - 1;
      forall s ensures s in Row4(i, j, k, n) <==> Starts3(s, i, j, k) && DigitValue(s[3]) < n {
        CodeIsDigitCode(s, i, j, k, l);
        if Starts3(s, i, j, k) {
          DigitRoundTrip(l, s[3]);
          assert DigitValue(s[3]) == l ==> l != i && l != j && l != k by {
            if DigitValue(s[3]) == l {
              assert s[3] == DigitChar(l);
              assert s[0] != s[3] && s[1] != s[3] && s[2] != s[3];
            }
          }
        }
        var c := Code(i, j, k, l);
        if s == c && l != i && l != j && l != k {
          DigitRoundTrip(l, c[3]);
        }
      }
    }
  }

  lemma {:induction false} Row3Members(i: nat, j: nat, n: nat)
    requires i < 10 && j < 10 && n <= 10 && i != j
    ensures forall s :: s in Row3(i, j, n) <==> Starts2(s, i, j) && DigitValue(s[2]) < n
  {
    if n > 0 {
      Row3Members(i, j, n - 1);
      var k := n - 1;
      if k != i && k != j {
        Row4Members(i, j, k, 10);
      }
      forall s ensures s in Row3(i, j, n) <==> Starts2(s, i, j) && DigitValue(s[2]) < n {
        if Starts2(s, i, j) {
          DigitRoundTrip(k, s[2]);
          DigitRoundTrip(k, s[3]);
          if DigitValue(s[2]) == k {
            assert s[0] != s[2] && s[1] != s[2];
            assert Starts3(s, i, j, k);
          }
        }
      }
    }
  }

  lemma {:induction false} Row2Members(i: nat, n: nat)
    requires i < 10 && n <= 10
    ensures forall s :: s in Row2(i, n) <==> Starts1(s, i) && DigitValue(s[1]) < n
  {
    if n > 0 {
      Row2Members(i, n - 1);
      var j := n - 1;
      if j != i {
        Row3Members(i, j, 10);
      }
      forall s ensures s in Row2(i, n) <==> Starts1(s, i) && DigitValue(s[1]) < n {
        if Starts1(s, i) {
          DigitRoundTrip(j, s[1]);
          DigitRoundTrip(j, s[2]);
          if DigitValue(s[1]) == j {
            assert s[0] != s[1];
            assert Starts2(s, i, j);
          }
        }
      }
    }
  }

  /** How many of i, j, k are below n. */
  function Below(x: nat, n: nat): nat {
    if x < n then 1 else 0
  }

  lemma {:induction false} Row4Length(i: nat, j: nat, k: nat, n: nat)
    requires i < 10 && j < 10 && k < 10 && n <= 10
    requires i != j && i != k && j != k
    ensures |Row4(i, j, k, n)| == n - Below(i, n) - Below(j, n) - Below(k, n)
  {
    if n > 0 {
      Row4Length(i, j, k, n - 1);
    }
  }

  lemma {:induction false} Row3Length(i: nat, j: nat, n: nat)
    requires i < 10 && j < 10 && n <= 10 && i != j
    ensures |Row3(i, j, n)| == 7 * (n - Below(i, n) - Below(j, n))
  {
    if n > 0 {
      Row3Length(i, j, n - 1);
      if n - 1 != i && n - 1 != j {
        Row4Length(i, j, n - 1, 10);
      }
    }
  }

  lemma {:induction false} Row2Length(i: nat, n: nat)
    requires i < 10 && n <= 10
    ensures |Row2(i, n)| == 56 * (n - Below(i, n))
  {
    if n > 0 {
      Row2Length(i, n - 1);
      if n - 1 != i {
        Row3Length(i, n - 1, 10);
      }
    }
  }

  lemma {:induction false} Row4Ascending(i: nat, j: nat, k: nat, n: nat)
    requires i < 10 && j < 10 && k < 10 && n <= 10
    requires i != j && i != k && j != k
    ensures Ascending(Row4(i, j, k, n)) && Sized(Row4(i, j, k, n))
  {
    if n > 0 {
      Row4Ascending(i, j, k, n - 1);
      Row4Members(i, j, k, n - 1);
      var l := n - 1;
      if l != i && l != j && l != k {
        var c := Code(i, j, k, l);
        DigitRoundTrip(i, c[0]);
        DigitRoundTrip(j, c[1]);
        DigitRoundTrip(k, c[2]);
        DigitRoundTrip(l, c[3]);
        forall x | x in Row4(i, j, k, n - 1) ensures Value(x) < Value(c) {
          DigitRoundTrip(i, x[0]);
          DigitRoundTrip(j, x[1]);
          DigitRoundTrip(k, x[2]);
        }
        AscendingAppend(Row4(i, j, k, n - 1), [c]);
      }
    }
  }

  lemma {:induction false} Row3Ascending(i: nat, j: nat, n: nat)
    requires i < 10 && j < 10 && n <= 10 && i != j
    ensures Ascending(Row3(i, j, n)) && Sized(Row3(i, j, n))
  {
    if n > 0 {
      Row3Ascending(i, j, n - 1);
      Row3Members(i, j, n - 1);
      var k := n - 1;
      if k != i && k != j {
        Row4Ascending(i, j, k, 10);
        Row4Members(i, j, k, 10);
        forall x, y | x in Row3(i, j, n - 1) && y in Row4(i, j, k, 10) ensures Value(x) < Value(y) {
          DigitRoundTrip(i, x[0]);
          DigitRoundTrip(j, x[1]);
          DigitRoundTrip(0, x[3]);
          DigitRoundTrip(i, y[0]);
          DigitRoundTrip(j, y[1]);
          DigitRoundTrip(k, y[2]);
          DigitRoundTrip(0, y[3]);
        }
        AscendingAppend(Row3(i, j, n - 1), Row4(i, j, k, 10));
      }
    }
  }

  lemma {:induction false} Row2Ascending(i: nat, n: nat)
    requires i < 10 && n <= 10
    ensures Ascending(Row2(i, n)) && Sized(Row2(i, n))
  {
    if n > 0 {
      Row2Ascending(i, n - 1);
      Row2Members(i, n - 1);
      var j := n - 1;
      if j != i {
        Row3Ascending(i, j, 10);
        Row3Members(i, j, 10);
        forall x, y | x in Row2(i, n - 1) && y in Row3(i, j, 10) ensures Value(x) < Value(y) {
          DigitRoundTrip(i, x[0]);
          DigitRoundTrip(0, x[2]);
          DigitRoundTrip(0, x[3]);
          DigitRoundTrip(i, y[0]);
          DigitRoundTrip(j, y[1]);
          DigitRoundTrip(0, y[2]);
          DigitRoundTrip(0, y[3]);
        }
        AscendingAppend(Row2(i, n - 1), Row3(i, j, 10));
      }
    }
  }

  /** One more iteration of each loop appends its row to what was pushed
      before. */
  lemma Extend4(prefix: seq<string>, i: nat, j: nat, k: nat, l: nat)
    requires i < 10 && j < 10 && k < 10 && l < 10
    ensures prefix + Row4(i, j, k, l + 1) ==
      prefix + Row4(i, j, k, l) + (if l == i || l == j || l == k then [] else [Code(i, j, k, l)])
  {
  }

  lemma Extend3(prefix: seq<string>, i: nat, j: nat, k: nat)
    requires i < 10 && j < 10 && k < 10
    ensures prefix + Row3(i, j, k + 1) ==
      prefix + Row3(i, j, k) + (if k == i || k == j then [] else Row4(i, j, k, 10))
  {
  }

  lemma Extend2(prefix: seq<string>, i: nat, j: nat)
    requires i < 10 && j < 10
    ensures prefix + Row2(i, j + 1) == prefix + Row2(i, j) + (if j == i then [] else Row3(i, j, 10))
  {
  }

  /** What the outermost loop has pushed after its first `n` rounds: the
      Digit-Codes whose first digit is below `n`, 504 per round, in strictly
      increasing order. */
  ghost predicate FirstRounds(codes: seq<string>, n: nat) {
    && (forall s :: s in codes <==> IsDigitCode(s) && DigitValue(s[0]) < n)
    && Sized(codes) && Ascending(codes) && |codes| == 504 * n
    && (forall s :: s in codes ==> Value(s) < 1000 * n)
  }

  lemma NoRounds()
    ensures FirstRounds([], 0)
  {
    forall s | IsDigitCode(s) ensures DigitValue(s[0]) >= 0 {
      DigitRoundTrip(0, s[0]);
    }
  }

  /** One more round of the outermost loop appends the codes starting with
      digit `i`. */
  lemma {:induction false} NextRound(codes: seq<string>, i: nat)
    requires i < 10 && FirstRounds(codes, i)
    ensures FirstRounds(codes + Row2(i, 10), i + 1)
  {
    var row := Row2(i, 10);
    Row2Members(i, 10);
    Row2Length(i, 10);
    Row2Ascending(i, 10);
    forall s ensures s in codes + row <==> IsDigitCode(s) && DigitValue(s[0]) < i + 1 {
      if IsDigitCode(s) {
        DigitRoundTrip(i, s[0]);
        DigitRoundTrip(i, s[1]);
      }
    }
    forall s | s in row ensures 1000 * i <= Value(s) < 1000 * (i + 1) {
      DigitRoundTrip(i, s[0]);
      DigitRoundTrip(0, s[1]);
      DigitRoundTrip(0, s[2]);
      DigitRoundTrip(0, s[3]);
    }
    AscendingAppend(codes, row);
  }

  /** After its ten rounds the outermost loop has produced the universe:
      every Digit-Code exactly once, 10 * 9 * 8 * 7 = 5040 of them, in
      strictly increasing order. */
  lemma AllRounds(codes: seq<string>)
    requires FirstRounds(codes, 10)
    ensures forall s :: s in codes <==> IsDigitCode(s)
    ensures |codes| == 5040
    ensures Sized(codes) && Ascending(codes) && Distinct(codes)
  {
    forall s | IsDigitCode(s) ensures DigitValue(s[0]) < 10 {
      DigitRoundTrip(0, s[0]);
    }
  }

  // ---------------------------------------------------------------------
  // Filtering by the feedback history

  /** One earlier guess of the solver with the feedback it received. */
  datatype GuessRecord = GuessRecord(guess: string, dead: int, wounded: int)

  /** Every recorded guess is four characters long (guesses are validated
      before they are scored). */
  predicate WellFormed(history: seq<GuessRecord>) {
    forall r :: r in history ==> |r.guess| == 4
  }

  /** Had `c` been the secret, guess `r.guess` would have received exactly
      the recorded feedback. */
  predicate Consistent(c: string, r: GuessRecord)
    requires |c| == 4 && |r.guess| == 4
  {
    Score(c, r.guess).dead == r.dead && Score(c, r.guess).wounded == r.wounded
  }

  predicate ConsistentWithAll(c: string, history: seq<GuessRecord>)
    requires |c| == 4 && WellFormed(history)
  {
    forall r :: r in history ==> Consistent(c, r)
  }

  /** `candidates.filter(...)` for one record: the members of `pool`
      consistent with `r`, in their original order. */
  function Survivors(pool: seq<string>, r: GuessRecord): (kept: seq<string>)
    requires Sized(pool) && |r.guess| == 4
    ensures Sized(kept) && |kept| <= |pool|
  {
    if pool == [] then []
    else
      var last := pool[|pool| - 1];
      assert last in pool;
      Survivors(pool[..|pool| - 1], r) + (if Consistent(last, r) then [last] else [])
  }

  /** The filter keeps exactly the consistent members. */
  lemma {:induction false} SurvivorsMembers(pool: seq<string>, r: GuessRecord)
    requires Sized(pool) && |r.guess| == 4
    ensures forall c :: c in Survivors(pool, r) <==> c in pool && Consistent(c, r)
  {
    if pool != [] {
      var front := pool[..|pool| - 1];
      var last := pool[|pool| - 1];
      assert pool == front + [last];
      assert forall c :: c in pool <==> c in front || c == last;
      SurvivorsMembers(front, r);
    }
  }

  /** Filtering keeps the order: the survivors of an ascending pool ascend. */
  lemma {:induction false} SurvivorsAscending(pool: seq<string>, r: GuessRecord)
    requires Sized(pool) && |r.guess| == 4 && Ascending(pool)
    ensures Ascending(Survivors(pool, r))
  {
    if pool != [] {
      var front := pool[..|pool| - 1];
      var last := pool[|pool| - 1];
      assert Ascending(front);
      SurvivorsAscending(front, r);
      SurvivorsMembers(front, r);
      forall x | x in Survivors(front, r) ensures Value(x) < Value(last) {
        var p :| 0 <= p < |front| && front[p] == x;
        assert pool[p] == x;
      }
      AscendingAppend(Survivors(front, r), if Consistent(last, r) then [last] else []);
    }
  }

  /** The candidate pool after the whole history: the filter applied once
      per record, in order. */
  function Pool(universe: seq<string>, history: seq<GuessRecord>): (pool: seq<string>)
    requires Sized(universe) && WellFormed(history)
    ensures Sized(pool) && |pool| <= |universe|
  {
    if history == [] then universe
    else
      var last := history[|history| - 1];
      assert last in history;
      Survivors(Pool(universe, history[..|history| - 1]), last)
  }

  /** The pool holds exactly the members of the universe consistent with
      every record of the history. */
  lemma {:induction false} PoolMembers(universe: seq<string>, history: seq<GuessRecord>)
    requires Sized(universe) && WellFormed(history)
    ensures forall c :: c in Pool(universe, history) <==> c in universe && ConsistentWithAll(c, history)
  {
    if history != [] {
      var front := history[..|history| - 1];
      var last := history[|history| - 1];
      assert history == front + [last];
      assert forall r :: r in history <==> r in front || r == last;
      PoolMembers(universe, front);
      SurvivorsMembers(Pool(universe, front), last);
    }
  }

  lemma {:induction false} PoolAscending(universe: seq<string>, history: seq<GuessRecord>)
    requires Sized(universe) && WellFormed(history) && Ascending(universe)
    ensures Ascending(Pool(universe, history))
  {
    if history != [] {
      var front := history[..|history| - 1];
      assert WellFormed(front);
      PoolAscending(universe, front);
      SurvivorsAscending(Pool(universe, front), history[|history| - 1]);
    }
  }

  /** Soundness of the filter: when the opponent has answered truthfully,
      its secret is never filtered out, so the pool is never empty. */
  lemma SecretSurvives(universe: seq<string>, history: seq<GuessRecord>, secret: string)
    requires Sized(universe) && WellFormed(history)
    requires secret in universe && |secret| == 4 && ConsistentWithAll(secret, history)
    ensures secret in Pool(universe, history)
    ensures |Pool(universe, history)| >= 1
  {
    PoolMembers(universe, history);
  }

  // ---------------------------------------------------------------------
  // Outcome groups of a guess

  /** How many members of `pool` would answer `guess` with feedback `f`:
      the size of one outcome group. */
  function GroupSize(guess: string, pool: seq<string>, f: Feedback): (n: nat)
    requires |guess| == 4 && Sized(pool)
    ensures n <= |pool|
  {
    if pool == [] then 0
    else
      var last := pool[|pool| - 1];
      assert last in pool;
      GroupSize(guess, pool[..|pool| - 1], f) + (if Score(last, guess) == f then 1 else 0)
  }

  /** An outcome group is non-empty exactly when some candidate gives that
      outcome. */
  lemma {:induction false} GroupSizeMeaning(guess: string, pool: seq<string>, f: Feedback)
    requires |guess| == 4 && Sized(pool)
    ensures GroupSize(guess, pool, f) > 0 <==> exists c :: c in pool && Score(c, guess) == f
  {
    if pool != [] {
      var front := pool[..|pool| - 1];
      var last := pool[|pool| - 1];
      assert pool == front + [last];
      assert forall c :: c in pool <==> c in front || c == last;
      GroupSizeMeaning(guess, front, f);
    }
  }

  /** The largest group size among the outcomes of the `members`. */
  function LargestGroup(guess: string, pool: seq<string>, members: seq<string>): (n: nat)
    requires |guess| == 4 && Sized(pool) && Sized(members)
    ensures n <= |pool|
  {
    if members == [] then 0
    else
      var last := members[|members| - 1];
      assert last in members;
      var front := LargestGroup(guess, pool, members[..|members| - 1]);
      var here := GroupSize(guess, pool, Score(last, guess));
      if front < here then here else front
  }

  /** `LargestGroup` bounds the group of every member and is the group of
      one of them. */
  lemma {:induction false} LargestGroupMeaning(guess: string, pool: seq<string>, members: seq<string>)
    requires |guess| == 4 && Sized(pool) && Sized(members)
    ensures forall c :: c in members ==> GroupSize(guess, pool, Score(c, guess)) <= LargestGroup(guess, pool, members)
    ensures members != [] ==>
      exists c :: c in members && GroupSize(guess, pool, Score(c, guess)) == LargestGroup(guess, pool, members)
    ensures members == [] ==> LargestGroup(guess, pool, members) == 0
  {
    if members != [] {
      var front := members[..|members| - 1];
      var last := members[|members| - 1];
      assert members == front + [last];
      assert forall c :: c in members <==> c in front || c == last;
      LargestGroupMeaning(guess, pool, front);
    }
  }

  /** calculateWorstCase: the size of the largest outcome group of `guess`
      over `pool` (only outcomes that occur form a group). */
  function WorstCase(guess: string, pool: seq<string>): nat
    requires |guess| == 4 && Sized(pool)
  {
    LargestGroup(guess, pool, pool)
  }

  /** The worst case is a real group: at least one candidate and at most all
      of them, and no candidate's group is larger. */
  lemma WorstCaseBounds(guess: string, pool: seq<string>)
    requires |guess| == 4 && Sized(pool) && pool != []
    ensures 1 <= WorstCase(guess, pool) <= |pool|
    ensures forall c :: c in pool ==> GroupSize(guess, pool, Score(c, guess)) <= WorstCase(guess, pool)
  {
    LargestGroupMeaning(guess, pool, pool);
    var c :| c in pool && GroupSize(guess, pool, Score(c, guess)) == WorstCase(guess, pool);
    GroupSizeMeaning(guess, pool, Score(c, guess));
  }

  /** A group size that bounds every candidate's group and is attained by
      one of them is the worst case. */
  lemma WorstCaseUnique(guess: string, pool: seq<string>, w: nat)
    requires |guess| == 4 && Sized(pool)
    requires forall c :: c in pool ==> GroupSize(guess, pool, Score(c, guess)) <= w
    requires exists c :: c in pool && GroupSize(guess, pool, Score(c, guess)) == w
    ensures w == WorstCase(guess, pool)
  {
    LargestGroupMeaning(guess, pool, pool);
    var c :| c in pool && GroupSize(guess, pool, Score(c, guess)) == w;
    var d :| d in pool && GroupSize(guess, pool, Score(d, guess)) == WorstCase(guess, pool);
  }

  /** The table `outcomeGroups` of calculateWorstCase after scanning
      `scanned`: one entry per outcome that occurred, holding its group size. */
  ghost predicate Grouped(guess: string, scanned: seq<string>, groups: map<Feedback, nat>)
    requires |guess| == 4 && Sized(scanned)
  {
    && (forall f :: f in groups ==> 1 <= groups[f] == GroupSize(guess, scanned, f))
    && (forall f :: f !in groups ==> GroupSize(guess, scanned, f) == 0)
  }

  /** Scanning one more candidate adds one to the entry of its outcome. */
  lemma GroupedStep(guess: string, scanned: seq<string>, c: string, groups: map<Feedback, nat>)
    requires |guess| == 4 && Sized(scanned) && |c| == 4 && Grouped(guess, scanned, groups)
    ensures Sized(scanned + [c])
    ensures var key := Score(c, guess);
      Grouped(guess, scanned + [c], groups[key := (if key in groups then groups[key] else 0) + 1])
  {
    assert (scanned + [c])[..|scanned|] == scanned;
  }

  /** The largest entry of the finished table is the worst case. */
  lemma WorstCaseOfGroups(guess: string, pool: seq<string>, groups: map<Feedback, nat>, largest: nat)
    requires |guess| == 4 && Sized(pool) && pool != [] && Grouped(guess, pool, groups)
    requires forall f :: f in groups ==> groups[f] <= largest
    requires exists f :: f in groups && groups[f] == largest
    ensures largest == WorstCase(guess, pool)
    ensures 1 <= largest <= |pool|
  {
    forall c | c in pool ensures GroupSize(guess, pool, Score(c, guess)) <= largest {
      GroupSizeMeaning(guess, pool, Score(c, guess));
    }
    var f :| f in groups && groups[f] == largest;
    GroupSizeMeaning(guess, pool, f);
    var c :| c in pool && Score(c, guess) == f;
    WorstCaseUnique(guess, pool, largest);
  }

  /** The feedback value at position `k` of the list of all 25. */
  function Outcome(k: nat): (f: Feedback)
    requires k < 25
    ensures f.dead <= 4 && f.wounded <= 4 && 5 * f.dead + f.wounded == k
  {
    Feedback(k / 5, k % 5)
  }

  /** The 25 conceivable feedback values, dead and wounded each 0..4. */
  function AllOutcomes(): (outcomes: seq<Feedback>)
    ensures |outcomes| == 25 && Distinct(outcomes)
    ensures forall f :: f in outcomes <==> f.dead <= 4 && f.wounded <= 4
  {
    var outcomes := seq(25, k requires 0 <= k < 25 => Outcome(k));
    assert forall f: Feedback :: f.dead <= 4 && f.wounded <= 4 ==> outcomes[5 * f.dead + f.wounded] == f;
    outcomes
  }

  /** The sizes of the groups of the given outcomes, added up. */
  function GroupTotal(guess: string, pool: seq<string>, outcomes: seq<Feedback>): nat
    requires |guess| == 4 && Sized(pool)
  {
    if outcomes == [] then 0
    else GroupTotal(guess, pool, outcomes[..|outcomes| - 1]) + GroupSize(guess, pool, outcomes[|outcomes| - 1])
  }

  /** How many of the outcomes equal `f`. */
  function Hits(f: Feedback, outcomes: seq<Feedback>): nat {
    if outcomes == [] then 0
    else Hits(f, outcomes[..|outcomes| - 1]) + (if outcomes[|outcomes| - 1] == f then 1 else 0)
  }

  lemma {:induction false} HitsOfDistinct(f: Feedback, outcomes: seq<Feedback>)
    requires Distinct(outcomes)
    ensures Hits(f, outcomes) == if f in outcomes then 1 else 0
  {
    if outcomes != [] {
      var front := outcomes[..|outcomes| - 1];
      assert outcomes == front + [outcomes[|outcomes| - 1]];
      HitsOfDistinct(f, front);
    }
  }

  /** Adding one candidate to the pool adds one to the total of every
      outcome list, once per occurrence of its own outcome. */
  lemma {:induction false} GroupTotalStep(guess: string, pool: seq<string>, c: string, outcomes: seq<Feedback>)
    requires |guess| == 4 && Sized(pool) && |c| == 4
    ensures GroupTotal(guess, pool + [c], outcomes) == GroupTotal(guess, pool, outcomes) + Hits(Score(c, guess), outcomes)
  {
    if outcomes != [] {
      GroupTotalStep(guess, pool, c, outcomes[..|outcomes| - 1]);
      assert (pool + [c])[..|pool + [c]| - 1] == pool;
    }
  }

  lemma {:induction false} GroupTotalIsSize(guess: string, pool: seq<string>, outcomes: seq<Feedback>)
    requires |guess| == 4 && Sized(pool) && Distinct(outcomes)
    requires forall c :: c in pool ==> Score(c, guess) in outcomes
    ensures GroupTotal(guess, pool, outcomes) == |pool|
  {
    if pool == [] {
      GroupTotalEmpty(guess, outcomes);
    } else {
      var front := pool[..|pool| - 1];
      var last := pool[|pool| - 1];
      assert pool == front + [last];
      GroupTotalIsSize(guess, front, outcomes);
      GroupTotalStep(guess, front, last, outcomes);
      HitsOfDistinct(Score(last, guess), outcomes);
    }
  }

  lemma {:induction false} GroupTotalEmpty(guess: string, outcomes: seq<Feedback>)
    requires |guess| == 4
    ensures GroupTotal(guess, [], outcomes) == 0
  {
    if outcomes != [] {
      GroupTotalEmpty(guess, outcomes[..|outcomes| - 1]);
    }
  }

  /** The outcome groups of a guess partition the pool: their sizes over
      all 25 feedback values add up to the pool size. */
  lemma GroupsPartitionPool(guess: string, pool: seq<string>)
    requires |guess| == 4 && Sized(pool)
    ensures GroupTotal(guess, pool, AllOutcomes()) == |pool|
  {
    forall c | c in pool ensures Score(c, guess) in AllOutcomes() {
      ScoreBounds(c, guess);
    }
    GroupTotalIsSize(guess, pool, AllOutcomes());
  }

  // ---------------------------------------------------------------------
  // What the hard solver promises

  /** The guesses the hard solver scores: the whole pool, or a 300-element
      sample of it when the pool is larger than 300. */
  ghost predicate EvaluationSample(checked: seq<string>, pool: seq<string>) {
    if |pool| > 300 then |checked| == 300 && multiset(checked) <= multiset(pool)
    else checked == pool
  }

  /** `choice` is among the scored guesses, has the smallest worst case of
      them, and among those with that worst case the largest expected
      information. */
  ghost predicate MinimaxChoice(choice: string, checked: seq<string>, pool: seq<string>,
                                info: (string, seq<string>) -> real)
    requires Sized(checked) && Sized(pool)
  {
    && choice in checked
    && |choice| == 4
    && (forall g :: g in checked ==> WorstCase(choice, pool) <= WorstCase(g, pool))
    && (forall g :: g in checked && WorstCase(g, pool) == WorstCase(choice, pool) ==>
          info(g, pool) <= info(choice, pool))
  }

  /** One round of the scoring loop of hardGuess: a guess with a smaller
      worst case, or the same worst case and more expected information,
      replaces the current choice, and the choice stays minimax over the
      guesses scored so far. */
  lemma MinimaxStep(best: string, g: string, scored: seq<string>, pool: seq<string>,
                    info: (string, seq<string>) -> real)
    requires Sized(scored) && Sized(pool) && |best| == 4 && |g| == 4
    requires scored != [] ==> MinimaxChoice(best, scored, pool, info)
    ensures Sized(scored + [g])
    ensures var replace := scored == [] || WorstCase(g, pool) < WorstCase(best, pool) ||
                           (WorstCase(g, pool) == WorstCase(best, pool) && info(g, pool) > info(best, pool));
            MinimaxChoice(if replace then g else best, scored + [g], pool, info)
  {
    assert forall x :: x in scored + [g] <==> x in scored || x == g;
  }
}

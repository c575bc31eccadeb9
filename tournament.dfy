/** The round-robin scheduler (circle method) and the standings order of a
    tournament. */
module Tournament {
  import opened Common

  /** A tournament entrant; the BYE filler has no id. */
  datatype Player = Player(id: Option<int>, username: string)

  /** A player takes part in a match only when its id is truthy: present and
      not zero. */
  predicate HasId(p: Player) {
    p.id.Some? && p.id.value != 0
  }

  /** One scheduled match. */
  datatype Pairing = Pairing(player1Id: int, player2Id: int, player1Username: string, player2Username: string)

  /** The filler added to an odd field. */
  function Bye(): Player {
    Player(None, "BYE")
  }

  /** The field after the BYE filler is added: always even, the players
      first and in their order. */
  function Padded(players: seq<Player>): (padded: seq<Player>)
    ensures |padded| % 2 == 0 && |players| <= |padded| <= |players| + 1
  {
    if |players| % 2 == 1 then players + [Bye()] else players
  }

  /** Padding keeps the players in their places and adds the BYE only
      to an odd field. */
  lemma PaddedKeeps(players: seq<Player>)
    ensures |Padded(players)| > |players| <==> |players| % 2 == 1
    ensures forall i :: 0 <= i < |players| ==> Padded(players)[i] == players[i]
    ensures |Padded(players)| > |players| ==> Padded(players)[|players|] == Bye()
  {
  }

  // ---------------------------------------------------------------------
  // Rotation

  /** One rotation of the circle: the last entrant is popped and put back
      at index 1, index 0 stays where it is. */
  function Rotate(s: seq<Player>): (r: seq<Player>)
    requires |s| >= 2
  {
    [s[0], s[|s| - 1]] + s[1..|s| - 1]
  }

  /** A rotation only rearranges the field. */
  lemma RotatePermutes(s: seq<Player>)
    requires |s| >= 2
    ensures |Rotate(s)| == |s|
    ensures multiset(Rotate(s)) == multiset(s)
  {
    var last := s[|s| - 1];
    assert s == s[..|s| - 1] + [last];
    assert s[..|s| - 1] == [s[0]] + s[1..|s| - 1];
  }

  /** The field as it stands in round `r` (counting from 0). */
  function Arrangement(s: seq<Player>, r: nat): (t: seq<Player>)
    requires |s| >= 2
    ensures |t| == |s|
  {
    if r == 0 then s else Rotate(Arrangement(s, r - 1))
  }

  /** Every round's field is a rearrangement of the padded field. */
  lemma {:induction false} ArrangementPermutes(s: seq<Player>, r: nat)
    requires |s| >= 2
    ensures multiset(Arrangement(s, r)) == multiset(s)
  {
    if r > 0 {
      var previous := Arrangement(s, r - 1);
      ArrangementPermutes(s, r - 1);
      RotatePermutes(previous);
      assert Arrangement(s, r) == Rotate(previous);
    }
  }

  /** The entrants at indices 1 .. n-1 turn around a circle of m = n - 1
      places: `Wrap` folds a place back onto it. */
  function Wrap(x: int, m: int): int
    requires 0 <= x < 2 * m
  {
    if x < m then x else x - m
  }

  /** The index that entrant `p` of the padded field holds in round `r`. */
  function Seat(p: nat, r: nat, n: nat): (k: nat)
    requires p < n && r < n - 1
    ensures k < n
  {
    if p == 0 then 0 else 1 + Wrap(p - 1 + r, n - 1)
  }

  /** The entrant of the padded field found at index `k` in round `r`. */
  function Occupant(k: nat, r: nat, n: nat): (p: nat)
    requires k < n && r < n - 1
    ensures p < n
  {
    if k == 0 then 0 else if k - 1 - r >= 0 then k - r else k - r + (n - 1)
  }

  /** Seats and occupants are inverse to each other. */
  lemma SeatOccupant(p: nat, k: nat, r: nat, n: nat)
    requires p < n && k < n && r < n - 1
    ensures Occupant(Seat(p, r, n), r, n) == p
    ensures Seat(Occupant(k, r, n), r, n) == k
  {
  }

  /** Where a rotation takes each index from. */
  lemma RotateAt(s: seq<Player>, k: nat)
    requires |s| >= 2 && k < |s|
    ensures Rotate(s)[k] == if k == 0 then s[0] else if k == 1 then s[|s| - 1] else s[k - 1]
  {
  }

  /** What index `k` holds after `r` rotations. */
  lemma {:induction false} ArrangementAt(s: seq<Player>, r: nat, k: nat)
    requires |s| >= 2 && r < |s| - 1 && k < |s|
    ensures Arrangement(s, r)[k] == s[Occupant(k, r, |s|)]
  {
    if r > 0 {
      var previous := if k == 0 then 0 else if k == 1 then |s| - 1 else k - 1;
      RotateAt(Arrangement(s, r - 1), k);
      ArrangementAt(s, r - 1, previous);
      assert Occupant(previous, r - 1, |s|) == Occupant(k, r, |s|);
    }
  }

  /** Entrant `p` sits at its seat in round `r`. */
  lemma SeatHolds(s: seq<Player>, r: nat, p: nat)
    requires |s| >= 2 && r < |s| - 1 && p < |s|
    ensures Arrangement(s, r)[Seat(p, r, |s|)] == s[p]
  {
    SeatOccupant(p, 0, r, |s|);
    ArrangementAt(s, r, Seat(p, r, |s|));
  }

  // ---------------------------------------------------------------------
  // Pairing one round

  /** Entrants that take part in matches carry different ids. */
  predicate DistinctIds(s: seq<Player>) {
    forall i, j :: 0 <= i < j < |s| && HasId(s[i]) && HasId(s[j]) ==> s[i].id != s[j].id
  }

  /** The BYE filler never disturbs distinct ids. */
  lemma PaddedDistinctIds(players: seq<Player>)
    requires DistinctIds(players)
    ensures DistinctIds(Padded(players))
  {
  }

  /** Rotating keeps ids distinct. */
  lemma ArrangementDistinctIds(s: seq<Player>, r: nat)
    requires |s| >= 2 && r < |s| - 1 && DistinctIds(s)
    ensures DistinctIds(Arrangement(s, r))
  {
    var t := Arrangement(s, r);
    forall i, j | 0 <= i < j < |t| && HasId(t[i]) && HasId(t[j])
      ensures t[i].id != t[j].id
    {
      ArrangementAt(s, r, i);
      ArrangementAt(s, r, j);
      SeatOccupant(0, i, r, |s|);
      SeatOccupant(0, j, r, |s|);
      var pi, pj := Occupant(i, r, |s|), Occupant(j, r, |s|);
      assert pi != pj;
      if pi < pj {
        assert s[pi].id != s[pj].id;
      } else {
        assert s[pj].id != s[pi].id;
      }
    }
  }

  /** The match between two entrants with ids. */
  function Match(a: Player, b: Player): Pairing
    requires HasId(a) && HasId(b)
  {
    Pairing(a.id.value, b.id.value, a.username, b.username)
  }

  /** The matches of the first `k` slots of a round: slot i faces the
      entrant at n-1-i, and a slot holding an entrant without id is
      skipped. */
  function Pairs(s: seq<Player>, k: nat): seq<Pairing>
    requires k <= |s| / 2
  {
    if k == 0 then []
    else
      var a, b := s[k - 1], s[|s| - k];
      Pairs(s, k - 1) + (if HasId(a) && HasId(b) then [Match(a, b)] else [])
  }

  /** The slots the matches of `Pairs(s, k)` come from, in order. */
  ghost function Slots(s: seq<Player>, k: nat): seq<nat>
    requires k <= |s| / 2
  {
    if k == 0 then []
    else
      var a, b := s[k - 1], s[|s| - k];
      Slots(s, k - 1) + (if HasId(a) && HasId(b) then [k - 1] else [])
  }

  /** There is one slot per match, and at most one match per slot. */
  lemma {:induction false} SlotsLength(s: seq<Player>, k: nat)
    requires k <= |s| / 2
    ensures |Slots(s, k)| == |Pairs(s, k)| <= k
  {
    if k > 0 {
      SlotsLength(s, k - 1);
    }
  }

  /** Match `j` comes from slot `Slots(s, k)[j]`, whose entrants have ids. */
  lemma {:induction false} SlotsAt(s: seq<Player>, k: nat, j: nat)
    requires k <= |s| / 2 && j < |Slots(s, k)|
    ensures |Slots(s, k)| == |Pairs(s, k)|
    ensures Slots(s, k)[j] < k
    ensures HasId(s[Slots(s, k)[j]]) && HasId(s[|s| - 1 - Slots(s, k)[j]])
    ensures Pairs(s, k)[j] == Match(s[Slots(s, k)[j]], s[|s| - 1 - Slots(s, k)[j]])
  {
    SlotsLength(s, k);
    SlotsLength(s, k - 1);
    if j < |Slots(s, k - 1)| {
      SlotsAt(s, k - 1, j);
      assert Slots(s, k)[j] == Slots(s, k - 1)[j];
      assert Pairs(s, k)[j] == Pairs(s, k - 1)[j];
    }
  }

  /** The slots are listed in increasing order. */
  lemma {:induction false} SlotsIncrease(s: seq<Player>, k: nat, j1: nat, j2: nat)
    requires k <= |s| / 2 && j1 < j2 < |Slots(s, k)|
    ensures Slots(s, k)[j1] < Slots(s, k)[j2]
  {
    if j2 < |Slots(s, k - 1)| {
      SlotsIncrease(s, k - 1, j1, j2);
    } else {
      SlotsLength(s, k - 1);
      SlotsAt(s, k - 1, j1);
    }
  }

  /** Every slot whose two entrants have ids gives a match. */
  lemma {:induction false} SlotsComplete(s: seq<Player>, k: nat, i: nat) returns (j: nat)
    requires k <= |s| / 2 && i < k && HasId(s[i]) && HasId(s[|s| - 1 - i])
    ensures j < |Slots(s, k)| && Slots(s, k)[j] == i
  {
    if i == k - 1 {
      j := |Slots(s, k - 1)|;
    } else {
      j := SlotsComplete(s, k - 1, i);
    }
  }

  /** The matches of one round. */
  function RoundPairings(s: seq<Player>): seq<Pairing> {
    Pairs(s, |s| / 2)
  }

  /** The matches of round `r` of the schedule of a padded field. */
  function ScheduleRound(padded: seq<Player>, r: nat): seq<Pairing>
    requires |padded| >= 2
  {
    RoundPairings(Arrangement(padded, r))
  }

  /** Two matches with a player in common. */
  predicate Shares(x: Pairing, y: Pairing) {
    x.player1Id == y.player1Id || x.player1Id == y.player2Id ||
    x.player2Id == y.player1Id || x.player2Id == y.player2Id
  }

  /** Two different entrants with ids have different id values. */
  lemma IdsDiffer(s: seq<Player>, i: nat, j: nat)
    requires DistinctIds(s) && i < |s| && j < |s| && i != j && HasId(s[i]) && HasId(s[j])
    ensures s[i].id.value != s[j].id.value
  {
    if i < j {
      assert s[i].id != s[j].id;
    } else {
      assert s[j].id != s[i].id;
    }
  }

  /** In a round no one plays themself, and there are at most n/2 matches. */
  lemma RoundSize(s: seq<Player>, j: nat)
    requires |s| % 2 == 0 && DistinctIds(s)
    ensures |RoundPairings(s)| <= |s| / 2
    ensures j < |RoundPairings(s)| ==> RoundPairings(s)[j].player1Id != RoundPairings(s)[j].player2Id
  {
    var n := |s|;
    SlotsLength(s, n / 2);
    if j < |RoundPairings(s)| {
      SlotsAt(s, n / 2, j);
      IdsDiffer(s, Slots(s, n / 2)[j], n - 1 - Slots(s, n / 2)[j]);
    }
  }

  /** In a round no one plays twice. */
  lemma RoundDisjoint(s: seq<Player>, j1: nat, j2: nat)
    requires |s| % 2 == 0 && DistinctIds(s)
    requires j1 < j2 < |RoundPairings(s)|
    ensures !Shares(RoundPairings(s)[j1], RoundPairings(s)[j2])
  {
    var n := |s|;
    SlotsLength(s, n / 2);
    SlotsAt(s, n / 2, j1);
    SlotsAt(s, n / 2, j2);
    SlotsIncrease(s, n / 2, j1, j2);
    var i1, i2 := Slots(s, n / 2)[j1], Slots(s, n / 2)[j2];
    IdsDiffer(s, i1, i2);
    IdsDiffer(s, i1, n - 1 - i2);
    IdsDiffer(s, n - 1 - i1, i2);
    IdsDiffer(s, n - 1 - i1, n - 1 - i2);
  }

  /** `x` is the match between ids `a` and `b`, in either order. */
  predicate Seats(x: Pairing, a: int, b: int) {
    (x.player1Id == a && x.player2Id == b) || (x.player1Id == b && x.player2Id == a)
  }

  /** Ids `a` and `b` meet in the round. */
  predicate InRound(round: seq<Pairing>, a: int, b: int) {
    exists x :: x in round && Seats(x, a, b)
  }

  /** Entrants whose indices add up to n - 1 meet. */
  lemma OppositeMeet(s: seq<Player>, x: nat, y: nat)
    requires |s| % 2 == 0 && x < |s| && y < |s| && x != y && HasId(s[x]) && HasId(s[y])
    requires x + y == |s| - 1
    ensures InRound(RoundPairings(s), s[x].id.value, s[y].id.value)
  {
    var n := |s|;
    var i := if x < y then x else y;
    var j := SlotsComplete(s, n / 2, i);
    SlotsAt(s, n / 2, j);
    var round := RoundPairings(s);
    assert round[j] in round && Seats(round[j], s[x].id.value, s[y].id.value);
  }

  /** Entrants that meet sit at indices adding up to n - 1. */
  lemma MeetOpposite(s: seq<Player>, x: nat, y: nat)
    requires |s| % 2 == 0 && DistinctIds(s)
    requires x < |s| && y < |s| && x != y && HasId(s[x]) && HasId(s[y])
    requires InRound(RoundPairings(s), s[x].id.value, s[y].id.value)
    ensures x + y == |s| - 1
  {
    var n := |s|;
    var a, b := s[x].id.value, s[y].id.value;
    var round := RoundPairings(s);
    var m :| m in round && Seats(m, a, b);
    var j :| 0 <= j < |round| && round[j] == m;
    SlotsLength(s, n / 2);
    SlotsAt(s, n / 2, j);
    var i := Slots(s, n / 2)[j];
    if s[i].id.value == a {
      assert i == x by { if i != x { IdsDiffer(s, i, x); } }
    } else {
      assert i == y by { if i != y { IdsDiffer(s, i, y); } }
    }
  }

  /** Two entrants with ids meet in a round exactly when their indices add
      up to n - 1. */
  lemma RoundMeets(s: seq<Player>, x: nat, y: nat)
    requires |s| % 2 == 0 && DistinctIds(s)
    requires x < |s| && y < |s| && x != y && HasId(s[x]) && HasId(s[y])
    ensures InRound(RoundPairings(s), s[x].id.value, s[y].id.value) <==> x + y == |s| - 1
  {
    if x + y == |s| - 1 {
      OppositeMeet(s, x, y);
    }
    if InRound(RoundPairings(s), s[x].id.value, s[y].id.value) {
      MeetOpposite(s, x, y);
    }
  }

  // ---------------------------------------------------------------------
  // Every pair meets once

  /** Entrants `p` and `q` face each other in round `r`. */
  predicate Facing(p: nat, q: nat, r: nat, n: nat)
    requires p < n && q < n && r < n - 1
  {
    Seat(p, r, n) + Seat(q, r, n) == n - 1
  }

  /** The entrant at index 0 faces entrant `q` only in round n - 1 - q. */
  lemma FixedFacing(q: nat, r: nat, n: nat)
    requires 0 < q < n && r < n - 1
    ensures Facing(0, q, r, n) <==> r == n - 1 - q
  {
  }

  /** Two entrants on the circle face each other in a round where twice
      the round number closes the gap to a multiple of the circle size
      m = n - 1. */
  lemma FacingAtMultiple(p: nat, q: nat, n: nat, r: nat)
    requires 0 < p < n && 0 < q < n && p != q && r < n - 1
    requires 2 * r + p + q in {n - 1, 2 * (n - 1), 3 * (n - 1)}
    ensures Facing(p, q, r, n)
  {
  }

  /** Such a round exists because the circle size is odd. */
  lemma MovingFacingExists(p: nat, q: nat, n: nat) returns (r: nat)
    requires n % 2 == 0 && 0 < p < n && 0 < q < n && p != q
    ensures r < n - 1 && Facing(p, q, r, n)
  {
    var m := n - 1;
    var sum := p + q;
    if sum <= m {
      r := if (m - sum) % 2 == 0 then (m - sum) / 2 else (2 * m - sum) / 2;
    } else {
      r := if (2 * m - sum) % 2 == 0 then (2 * m - sum) / 2 else (3 * m - sum) / 2;
    }
    FacingAtMultiple(p, q, n, r);
  }

  /** ... and in one round only: two such rounds would be half a circle
      apart, which an odd circle does not allow. */
  lemma MovingFacingUnique(p: nat, q: nat, n: nat, r1: nat, r2: nat)
    requires n % 2 == 0 && 0 < p < n && 0 < q < n && p != q
    requires r1 < r2 < n - 1 && Facing(p, q, r1, n)
    ensures !Facing(p, q, r2, n)
  {
  }

  /** Over the n - 1 rounds of an even field, two different entrants face
      each other in exactly one round. */
  lemma FacingOnce(p: nat, q: nat, n: nat) returns (r: nat)
    requires n % 2 == 0 && p < n && q < n && p != q
    ensures r < n - 1 && Facing(p, q, r, n)
    ensures forall r' :: 0 <= r' < n - 1 && Facing(p, q, r', n) ==> r' == r
  {
    if p == 0 {
      r := n - 1 - q;
      forall r' | 0 <= r' < n - 1 ensures Facing(p, q, r', n) <==> r' == r {
        FixedFacing(q, r', n);
      }
    } else if q == 0 {
      r := n - 1 - p;
      forall r' | 0 <= r' < n - 1 ensures Facing(p, q, r', n) <==> r' == r {
        FixedFacing(p, r', n);
      }
    } else {
      r := MovingFacingExists(p, q, n);
      forall r' | 0 <= r' < n - 1 && Facing(p, q, r', n)
        ensures r' == r
      {
        if r' < r {
          MovingFacingUnique(p, q, n, r', r);
        } else if r < r' {
          MovingFacingUnique(p, q, n, r, r');
        }
      }
    }
  }

  /** Two entrants of the padded field with ids meet in round `r` exactly
      when they face each other there. */
  lemma MeetsWhenFacing(s: seq<Player>, r: nat, p: nat, q: nat)
    requires |s| >= 2 && |s| % 2 == 0 && DistinctIds(s) && r < |s| - 1
    requires p < |s| && q < |s| && p != q && HasId(s[p]) && HasId(s[q])
    ensures InRound(ScheduleRound(s, r), s[p].id.value, s[q].id.value) <==> Facing(p, q, r, |s|)
  {
    var t := Arrangement(s, r);
    ArrangementDistinctIds(s, r);
    SeatHolds(s, r, p);
    SeatHolds(s, r, q);
    SeatOccupant(p, 0, r, |s|);
    SeatOccupant(q, 0, r, |s|);
    RoundMeets(t, Seat(p, r, |s|), Seat(q, r, |s|));
  }

  /** The same, read off the whole schedule. */
  lemma MeetsInSchedule(s: seq<Player>, r: nat, p: nat, q: nat)
    requires |s| >= 2 && |s| % 2 == 0 && DistinctIds(s) && r < |s| - 1
    requires p < |s| && q < |s| && p != q && HasId(s[p]) && HasId(s[q])
    ensures |Schedule(s, |s| - 1)| == |s| - 1
    ensures InRound(Schedule(s, |s| - 1)[r], s[p].id.value, s[q].id.value) <==> Facing(p, q, r, |s|)
  {
    ScheduleAt(s, |s| - 1, r);
    MeetsWhenFacing(s, r, p, q);
  }

  /** Every two players with different truthy ids meet in exactly one round
      of the schedule. */
  lemma EveryPairMeetsOnce(players: seq<Player>, rounds: seq<seq<Pairing>>, p: nat, q: nat) returns (r: nat)
    requires DistinctIds(players)
    requires p < |players| && q < |players| && p != q && HasId(players[p]) && HasId(players[q])
    requires rounds == Schedule(Padded(players), |Padded(players)| - 1)
    ensures r < |rounds| && InRound(rounds[r], players[p].id.value, players[q].id.value)
    ensures forall r' :: 0 <= r' < |rounds| && InRound(rounds[r'], players[p].id.value, players[q].id.value) ==> r' == r
  {
    var s := Padded(players);
    PaddedDistinctIds(players);
    PaddedKeeps(players);
    assert s[p] == players[p] && s[q] == players[q];
    r := FacingOnce(p, q, |s|);
    MeetsInSchedule(s, r, p, q);
    forall r' | 0 <= r' < |rounds| && InRound(rounds[r'], players[p].id.value, players[q].id.value)
      ensures r' == r
    {
      MeetsInSchedule(s, r', p, q);
    }
  }

  /** In every round of the schedule there are at most n/2 matches, and no
      player plays themself or plays twice. */
  lemma ScheduledRoundsDisjoint(players: seq<Player>, rounds: seq<seq<Pairing>>, r: nat)
    requires DistinctIds(players) && players != []
    requires rounds == Schedule(Padded(players), |Padded(players)| - 1)
    requires r < |rounds|
    ensures |rounds[r]| <= |Padded(players)| / 2
    ensures forall j :: 0 <= j < |rounds[r]| ==> rounds[r][j].player1Id != rounds[r][j].player2Id
    ensures forall j1, j2 :: 0 <= j1 < j2 < |rounds[r]| ==> !Shares(rounds[r][j1], rounds[r][j2])
  {
    var s := Padded(players);
    PaddedDistinctIds(players);
    ScheduleAt(s, |s| - 1, r);
    var t := Arrangement(s, r);
    var round := rounds[r];
    assert round == RoundPairings(t) && |t| == |s|;
    ArrangementDistinctIds(s, r);
    RoundSize(t, 0);
    forall j | 0 <= j < |round| ensures round[j].player1Id != round[j].player2Id {
      RoundSize(t, j);
    }
    forall j1, j2 | 0 <= j1 < j2 < |round| ensures !Shares(round[j1], round[j2]) {
      RoundDisjoint(t, j1, j2);
    }
  }

  // ---------------------------------------------------------------------
  // generateRoundRobinPairings

  /** The first `k` rounds of the schedule of a padded field. */
  function Schedule(padded: seq<Player>, k: nat): seq<seq<Pairing>>
    requires k == 0 || |padded| >= 2
  {
    if k == 0 then [] else Schedule(padded, k - 1) + [ScheduleRound(padded, k - 1)]
  }

  /** Round `r` of the schedule is the pairing of the field rotated `r`
      times. */
  lemma {:induction false} ScheduleAt(padded: seq<Player>, k: nat, r: nat)
    requires k == 0 || |padded| >= 2
    ensures |Schedule(padded, k)| == k
    ensures r < k ==> Schedule(padded, k)[r] == ScheduleRound(padded, r)
  {
    if k > 0 {
      ScheduleAt(padded, k - 1, r);
    }
  }

  /** One more round appends the pairing of the current field, and the
      field of the next round is its rotation. */
  lemma ScheduleNext(padded: seq<Player>, r: nat)
    requires |padded| >= 2
    ensures Schedule(padded, r + 1) == Schedule(padded, r) + [RoundPairings(Arrangement(padded, r))]
    ensures Arrangement(padded, r + 1) == Rotate(Arrangement(padded, r))
  {
  }

  /** The schedule: the field is copied and padded, each of the n - 1
      rounds pairs slot i with slot n-1-i, and the field is then rotated. */
  method GenerateRoundRobinPairings(players: seq<Player>) returns (rounds: seq<seq<Pairing>>)
    ensures |rounds| == if players == [] then 0 else |Padded(players)| - 1
    ensures rounds == Schedule(Padded(players), |rounds|)
  {
    var playersCopy := players;
    if |playersCopy| % 2 == 1 {
      playersCopy := playersCopy + [Bye()];
    }
    ghost var padded := Padded(players);
    assert playersCopy == padded;

    rounds := [];
    var totalRounds := |playersCopy| - 1;
    var round := 0;
    while round < totalRounds
      invariant |playersCopy| == |padded|
      invariant |playersCopy| % 2 == 0
      invariant round <= totalRounds || round == 0
      invariant |padded| >= 2 ==> playersCopy == Arrangement(padded, round)
      invariant (round == 0 || |padded| >= 2) && rounds == Schedule(padded, round)
    {
      ScheduleNext(padded, round);
      var roundPairings := PairRound(playersCopy);
      rounds := rounds + [roundPairings];
      playersCopy := RotateField(playersCopy);
      round := round + 1;
    }
    ScheduleAt(padded, round, 0);
  }

  /** The inner loop of generateRoundRobinPairings: one round's matches. */
  method PairRound(playersCopy: seq<Player>) returns (roundPairings: seq<Pairing>)
    requires |playersCopy| % 2 == 0
    ensures roundPairings == RoundPairings(playersCopy)
  {
    roundPairings := [];
    var i := 0;
    while i < |playersCopy| / 2
      invariant 0 <= i <= |playersCopy| / 2
      invariant roundPairings == Pairs(playersCopy, i)
    {
      var player1 := playersCopy[i];
      var player2 := playersCopy[|playersCopy| - 1 - i];
      if HasId(player1) && HasId(player2) {
        roundPairings := roundPairings + [Pairing(player1.id.value, player2.id.value, player1.username, player2.username)];
      }
      i := i + 1;
    }
  }

  /** The rotation step of generateRoundRobinPairings: pop the last entrant
      and splice it in at index 1. */
  method RotateField(playersCopy: seq<Player>) returns (rotated: seq<Player>)
    requires |playersCopy| >= 2
    ensures rotated == Rotate(playersCopy)
  {
    var last := playersCopy[|playersCopy| - 1];
    rotated := playersCopy[..|playersCopy| - 1];
    rotated := rotated[..1] + [last] + rotated[1..];
  }

  // ---------------------------------------------------------------------
  // calculateStandings

  /** A tournament entrant's record. */
  datatype Standing = Standing(userId: int, username: string, points: int, wins: int, losses: int, level: int)

  /** The comparator handed to the sort: negative when `a` goes first. It
      puts `a` no lower than `b` exactly when `a` outranks `b`, and calls
      them even exactly when all three keys agree. */
  function Compare(a: Standing, b: Standing): (c: int)
    ensures c <= 0 <==> Outranks(a, b)
    ensures c == 0 <==> (a.points == b.points && a.wins == b.wins && a.level == b.level)
  {
    if b.points != a.points then b.points - a.points
    else if b.wins != a.wins then b.wins - a.wins
    else b.level - a.level
  }

  /** `a` may stand above `b`: more points, or as many points and more wins,
      or as many of both and at least the level. */
  predicate Outranks(a: Standing, b: Standing) {
    a.points > b.points ||
    (a.points == b.points && a.wins > b.wins) ||
    (a.points == b.points && a.wins == b.wins && a.level >= b.level)
  }

  /** Any two records are comparable, and two records that outrank each
      other agree on all three keys. */
  lemma OutranksTotal(a: Standing, b: Standing)
    ensures Outranks(a, b) || Outranks(b, a)
    ensures Outranks(a, b) && Outranks(b, a) ==> Compare(a, b) == 0
  {
  }

  /** A standings table: every record outranks the ones below it. */
  predicate Ranked(s: seq<Standing>) {
    forall i, j :: 0 <= i < j < |s| ==> Outranks(s[i], s[j])
  }

  /** calculateStandings sorts the given array in place and returns it. */
  method CalculateStandings(players: array<Standing>) returns (standings: array<Standing>)
    modifies players
    ensures standings == players
    ensures Ranked(players[..])
    ensures multiset(players[..]) == multiset(old(players[..]))
  {
    var i := 0;
    while i < players.Length
      invariant 0 <= i <= players.Length
      invariant Ranked(players[..i])
      invariant multiset(players[..]) == multiset(old(players[..]))
    {
      Insert(players, i);
      i := i + 1;
    }
    assert players[..i] == players[..];
    standings := players;
  }

  /** Midway through sinking entry `j` of `s[..i + 1]`: the other entries
      are ranked, and the sinking entry outranks everything after it. */
  ghost predicate Sinking(s: seq<Standing>, j: int, i: int) {
    0 <= j <= i < |s| &&
    (forall p, q :: 0 <= p < q <= i && p != j && q != j ==> Outranks(s[p], s[q])) &&
    (forall q :: j < q <= i ==> Outranks(s[j], s[q]))
  }

  /** Sinking starts with the new entry on top of a ranked prefix. */
  lemma SinkStart(s: seq<Standing>, i: int)
    requires 0 <= i < |s| && Ranked(s[..i])
    ensures Sinking(s, i, i)
  {
    forall p, q | 0 <= p < q < i ensures Outranks(s[p], s[q]) {
      assert s[..i][p] == s[p] && s[..i][q] == s[q];
    }
  }

  /** Swapping the sinking entry with a lower-ranked predecessor keeps
      sinking one place further up. */
  lemma SinkSwap(s: seq<Standing>, j: int, i: int)
    requires Sinking(s, j, i) && j > 0 && !Outranks(s[j - 1], s[j])
    ensures Sinking(s[j - 1 := s[j]][j := s[j - 1]], j - 1, i)
  {
  }

  /** Sinking stops at the top, or below an entry that outranks it; then
      the whole prefix is ranked. */
  lemma SinkDone(s: seq<Standing>, j: int, i: int)
    requires Sinking(s, j, i) && (j == 0 || Outranks(s[j - 1], s[j]))
    ensures Ranked(s[..i + 1])
  {
    forall p, q | 0 <= p < q <= i ensures Outranks(s[p], s[q]) {
      if q == j && p < j - 1 {
        assert Outranks(s[p], s[j - 1]);
      }
    }
  }

  /** Swapping two neighbours inside `s[..i + 1]` rearranges that prefix
      and leaves the rest alone. */
  lemma SwapKeeps(s: seq<Standing>, j: int, i: int)
    requires 0 < j <= i < |s|
    ensures var t := s[j - 1 := s[j]][j := s[j - 1]];
      multiset(t[..i + 1]) == multiset(s[..i + 1]) && t[i + 1..] == s[i + 1..]
  {
    var t := s[j - 1 := s[j]][j := s[j - 1]];
    assert t[..i + 1] == s[..i + 1][j - 1 := s[j]][j := s[j - 1]];
  }

  /** Sinks `a[i]` into the ranked prefix `a[..i]`, swapping it with each
      predecessor the comparator puts after it. */
  method Insert(a: array<Standing>, i: int)
    requires 0 <= i < a.Length && Ranked(a[..i])
    modifies a
    ensures Ranked(a[..i + 1])
    ensures multiset(a[..i + 1]) == multiset(old(a[..i + 1]))
    ensures a[i + 1..] == old(a[i + 1..])
    ensures multiset(a[..]) == multiset(old(a[..]))
  {
    SinkStart(a[..], i);
    var j := i;
    while j > 0 && Compare(a[j - 1], a[j]) > 0
      invariant Sinking(a[..], j, i)
      invariant multiset(a[..i + 1]) == multiset(old(a[..i + 1]))
      invariant a[i + 1..] == old(a[i + 1..])
    {
      SinkSwap(a[..], j, i);
      SwapKeeps(a[..], j, i);
      a[j - 1], a[j] := a[j], a[j - 1];
      j := j - 1;
    }
    SinkDone(a[..], j, i);
    assert a[..] == a[..i + 1] + a[i + 1..];
    assert old(a[..]) == old(a[..i + 1]) + old(a[i + 1..]);
  }
}

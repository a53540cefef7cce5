/** payload/game/race/DriverManager.cc: how a player did at the end of a race. */
module DriverManagerModule {

  datatype Player = Player(team: nat, battleScore: nat, rank: nat)

  datatype Outcome = Bad | Draw | Good | Best

  const MAX_TEAMS: nat := 6

  /** The score of a team: the sum over its players. */
  function Total(players: seq<Player>, team: nat): nat {
    if players == [] then 0
    else
      var last := players[|players| - 1];
      Total(players[..|players| - 1], team) + if last.team == team then last.battleScore else 0
  }

  function TeamCount(playerCount: nat, maxTeamSize: nat): nat
    requires maxTeamSize > 0
  {
    (playerCount + maxTeamSize - 1) / maxTeamSize
  }

  /** Each of the first |order| teams stands at exactly one place. */
  ghost predicate Ranking(order: seq<nat>) {
    && (forall i :: 0 <= i < |order| ==> order[i] < |order|)
    && (forall i, j :: 0 <= i < j < |order| ==> order[i] != order[j])
    && (forall t :: 0 <= t < |order| ==> Placed(order, t))
  }

  ghost predicate Placed(order: seq<nat>, t: nat) {
    exists i :: 0 <= i < |order| && order[i] == t
  }

  ghost predicate Descending(order: seq<nat>, scores: seq<nat>) {
    && (forall i :: 0 <= i < |order| ==> order[i] < |scores|)
    && (forall i, j :: 0 <= i < j < |order| ==> scores[order[i]] >= scores[order[j]])
  }

  /** The teams in front share one score that the rest fall short of. */
  ghost predicate Tied(players: seq<Player>, order: seq<nat>, draw: nat) {
    && draw < |order|
    && (forall i, j :: 0 <= i < j < |order| ==> Total(players, order[i]) >= Total(players, order[j]))
    && (forall i :: 0 <= i <= draw ==> Total(players, order[i]) == Total(players, order[0]))
    && (draw + 1 < |order| ==> Total(players, order[draw + 1]) != Total(players, order[0]))
  }

  /** Some team did better than `team`. */
  ghost predicate Beaten(players: seq<Player>, teamCount: nat, team: nat) {
    exists t :: 0 <= t < teamCount && Total(players, t) > Total(players, team)
  }

  /** Some other team did as well as `team`. */
  ghost predicate Equalled(players: seq<Player>, teamCount: nat, team: nat) {
    exists t :: 0 <= t < teamCount && t != team && Total(players, t) == Total(players, team)
  }

  /** A place behind the tie means exactly that some team did better, however the sort ordered equal teams. */
  lemma BehindTheTie(players: seq<Player>, order: seq<nat>, draw: nat, place: nat)
    requires Ranking(order) && Tied(players, order, draw) && place < |order|
    ensures place >= draw + 1 <==> Beaten(players, |order|, order[place])
  {
    hide Total;
    if place >= draw + 1 {
      assert Total(players, order[draw + 1]) >= Total(players, order[place]);
      assert Total(players, order[0]) >= Total(players, order[draw + 1]);
      assert Total(players, order[0]) > Total(players, order[place]);
    } else {
      forall t | 0 <= t < |order| ensures Total(players, t) <= Total(players, order[place]) {
        assert Placed(order, t);
        var i :| 0 <= i < |order| && order[i] == t;
        assert Total(players, order[0]) >= Total(players, order[i]);
      }
    }
  }

  /** A tie in front means exactly that the teams there equal one another. */
  lemma InTheTie(players: seq<Player>, order: seq<nat>, draw: nat, place: nat)
    requires Ranking(order) && Tied(players, order, draw) && place <= draw
    ensures draw > 0 <==> Equalled(players, |order|, order[place])
  {
    hide Total;
    if draw > 0 {
      var other := if place == 0 then 1 else 0;
      assert order[other] != order[place];
      assert Total(players, order[other]) == Total(players, order[place]);
    } else {
      forall t | 0 <= t < |order| && t != order[place]
        ensures Total(players, t) != Total(players, order[place])
      {
        assert Placed(order, t);
        var i :| 0 <= i < |order| && order[i] == t;
        assert i == 1 || Total(players, order[1]) >= Total(players, order[i]);
        assert Total(players, order[0]) >= Total(players, order[1]);
      }
    }
  }

  /** Some player has a higher score than that. */
  ghost predicate Outscored(players: seq<Player>, score: nat) {
    exists i :: 0 <= i < |players| && players[i].battleScore > score
  }

  /** What the outcome of a team race says. */
  ghost predicate Judged(players: seq<Player>, teamCount: nat, playerId: nat, outcome: Outcome)
    requires playerId < |players|
  {
    var team := players[playerId].team;
    && (outcome == Bad <==> Beaten(players, teamCount, team))
    && (outcome == Draw <==> !Beaten(players, teamCount, team) && Equalled(players, teamCount, team))
    && (outcome == Good <==> !Beaten(players, teamCount, team) && !Equalled(players, teamCount, team)
                             && Outscored(players, players[playerId].battleScore))
  }

  lemma BeatenMeans(players: seq<Player>, totals: seq<nat>, team: nat)
    requires team < |totals| && forall t :: 0 <= t < |totals| ==> totals[t] == Total(players, t)
    ensures Beaten(players, |totals|, team) <==> exists t :: 0 <= t < |totals| && totals[t] > totals[team]
  {
    if Beaten(players, |totals|, team) {
      var t :| 0 <= t < |totals| && Total(players, t) > Total(players, team);
      assert totals[t] > totals[team];
    }
  }

  lemma EqualledMeans(players: seq<Player>, totals: seq<nat>, team: nat)
    requires team < |totals| && forall t :: 0 <= t < |totals| ==> totals[t] == Total(players, t)
    ensures Equalled(players, |totals|, team) <==> exists t :: 0 <= t < |totals| && t != team && totals[t] == totals[team]
  {
    if Equalled(players, |totals|, team) {
      var t :| 0 <= t < |totals| && t != team && Total(players, t) == Total(players, team);
      assert totals[t] == totals[team];
    }
  }

  /** In full: what each outcome says about the team totals and the players' scores. */
  lemma JudgedMeans(players: seq<Player>, totals: seq<nat>, playerId: nat, outcome: Outcome)
    requires playerId < |players| && players[playerId].team < |totals| && Judged(players, |totals|, playerId, outcome)
    requires forall t :: 0 <= t < |totals| ==> totals[t] == Total(players, t)
    ensures var mine := totals[players[playerId].team];
            outcome == Bad <==> exists t :: 0 <= t < |totals| && totals[t] > mine
    ensures var team, mine := players[playerId].team, totals[players[playerId].team];
            outcome == Draw <==>
            && (forall t :: 0 <= t < |totals| ==> totals[t] <= mine)
            && exists t :: 0 <= t < |totals| && t != team && totals[t] == mine
    ensures var team, mine := players[playerId].team, totals[players[playerId].team];
            outcome == Best <==>
            && (forall t :: 0 <= t < |totals| && t != team ==> totals[t] < mine)
            && forall i :: 0 <= i < |players| ==> players[i].battleScore <= players[playerId].battleScore
  {
    hide Beaten, Equalled;
    BeatenMeans(players, totals, players[playerId].team);
    EqualledMeans(players, totals, players[playerId].team);
  }

  /** So the outcome is determined, whatever order the sort gave equal teams. */
  lemma JudgedOnce(players: seq<Player>, teamCount: nat, playerId: nat, a: Outcome, b: Outcome)
    requires playerId < |players|
    requires Judged(players, teamCount, playerId, a) && Judged(players, teamCount, playerId, b)
    ensures a == b
  {
  }

  /** Players of one team do badly together, and draw together. */
  lemma TeamFaresAlike(players: seq<Player>, teamCount: nat, p: nat, q: nat, a: Outcome, b: Outcome)
    requires p < |players| && q < |players| && players[p].team == players[q].team
    requires Judged(players, teamCount, p, a) && Judged(players, teamCount, q, b)
    ensures (a == Bad <==> b == Bad) && (a == Draw <==> b == Draw)
  {
  }

  /** Some team is always unbeaten, so its players do not all do badly. */
  lemma {:induction false} SomeTeamUnbeaten(players: seq<Player>, teamCount: nat) returns (team: nat)
    requires 0 < teamCount
    ensures team < teamCount && !Beaten(players, teamCount, team)
    decreases teamCount
  {
    hide Total;
    team := 0;
    if teamCount > 1 {
      var other := SomeTeamUnbeaten(players, teamCount - 1);
      team := if Total(players, teamCount - 1) > Total(players, other) then teamCount - 1 else other;
    }
  }

  // ----- Teams without players

  function Members(players: seq<Player>, team: nat): nat {
    if players == [] then 0
    else Members(players[..|players| - 1], team) + if players[|players| - 1].team == team then 1 else 0
  }

  function AllMembers(players: seq<Player>, teamCount: nat): nat {
    if teamCount == 0 then 0 else AllMembers(players, teamCount - 1) + Members(players, teamCount - 1)
  }

  lemma {:induction false} OneMore(players: seq<Player>, teamCount: nat)
    requires players != []
    ensures AllMembers(players, teamCount) ==
            AllMembers(players[..|players| - 1], teamCount) + if players[|players| - 1].team < teamCount then 1 else 0
    decreases teamCount
  {
    if teamCount != 0 {
      OneMore(players, teamCount - 1);
    }
  }

  lemma {:induction false} EveryoneCounted(players: seq<Player>, teamCount: nat)
    requires forall i :: 0 <= i < |players| ==> players[i].team < teamCount
    ensures AllMembers(players, teamCount) == |players|
    decreases |players|
  {
    if players == [] {
      NobodyCounted(teamCount);
    } else {
      OneMore(players, teamCount);
      EveryoneCounted(players[..|players| - 1], teamCount);
    }
  }

  lemma {:induction false} NobodyCounted(teamCount: nat)
    ensures AllMembers([], teamCount) == 0
    decreases teamCount
  {
    if teamCount != 0 {
      NobodyCounted(teamCount - 1);
    }
  }

  lemma {:induction false} MembersBound(players: seq<Player>, teamCount: nat, maxTeamSize: nat, empty: nat)
    requires forall t :: 0 <= t < teamCount ==> Members(players, t) <= maxTeamSize
    requires empty < teamCount ==> Members(players, empty) == 0
    ensures AllMembers(players, teamCount) + (if empty < teamCount then maxTeamSize else 0) <= teamCount * maxTeamSize
    decreases teamCount
  {
    hide Members;
    if teamCount != 0 {
      MembersBound(players, teamCount - 1, maxTeamSize, empty);
      OneTeamMore(teamCount, maxTeamSize);
    }
  }

  lemma OneTeamMore(teamCount: nat, maxTeamSize: nat)
    requires teamCount > 0
    ensures (teamCount - 1) * maxTeamSize + maxTeamSize == teamCount * maxTeamSize
  {
  }

  lemma PlacesInTeams(playerCount: nat, maxTeamSize: nat)
    requires maxTeamSize > 0
    ensures TeamCount(playerCount, maxTeamSize) * maxTeamSize < playerCount + maxTeamSize
  {
    var all := playerCount + maxTeamSize - 1;
    assert all == all / maxTeamSize * maxTeamSize + all % maxTeamSize;
  }

  /** As long as no team exceeds the maximal size, every team below the count has a player. */
  lemma NoTeamIsEmpty(players: seq<Player>, maxTeamSize: nat, team: nat)
    requires maxTeamSize > 0 && team < TeamCount(|players|, maxTeamSize)
    requires forall i :: 0 <= i < |players| ==> players[i].team < TeamCount(|players|, maxTeamSize)
    requires forall t :: 0 <= t < TeamCount(|players|, maxTeamSize) ==> Members(players, t) <= maxTeamSize
    ensures Members(players, team) > 0
  {
    hide Members, AllMembers, TeamCount;
    var teamCount := TeamCount(|players|, maxTeamSize);
    EveryoneCounted(players, teamCount);
    PlacesInTeams(|players|, maxTeamSize);
    if Members(players, team) == 0 {
      MembersBound(players, teamCount, maxTeamSize, team);
      assert false;
    }
  }

  /** The team count is the least number of teams of that size with a place for everyone. */
  lemma TeamCountIs(playerCount: nat, maxTeamSize: nat)
    requires maxTeamSize > 0
    ensures TeamCount(playerCount, maxTeamSize) * maxTeamSize >= playerCount
    ensures TeamCount(playerCount, maxTeamSize) > 0 ==> (TeamCount(playerCount, maxTeamSize) - 1) * maxTeamSize < playerCount
  {
    var all := playerCount + maxTeamSize - 1;
    assert all == all / maxTeamSize * maxTeamSize + all % maxTeamSize;
    if TeamCount(playerCount, maxTeamSize) > 0 {
      OneTeamMore(TeamCount(playerCount, maxTeamSize), maxTeamSize);
    }
  }

  lemma NoPlayers(team: nat)
    ensures Members([], team) == 0 && Total([], team) == 0
  {
  }

  /** A team's members and its total count the players of that team, each with their score. */
  lemma OnePlayerMore(players: seq<Player>, last: Player, team: nat)
    ensures Members(players + [last], team) == Members(players, team) + if last.team == team then 1 else 0
    ensures Total(players + [last], team) == Total(players, team) + if last.team == team then last.battleScore else 0
  {
    assert (players + [last])[..|players|] == players;
  }

  /** Without that cap a team without players can share the first place with a total of 0. */
  lemma EmptyTeamDraws()
    ensures var players := [Player(0, 0, 1)] + [Player(0, 0, 2)] + [Player(0, 0, 3)];
            TeamCount(3, 2) == 2 && Members(players, 1) == 0 && Judged(players, 2, 0, Draw)
  {
    var one, two := [Player(0, 0, 1)], [Player(0, 0, 1)] + [Player(0, 0, 2)];
    var players := two + [Player(0, 0, 3)];
    assert [] + one == one;
    forall t ensures Total(players, t) == 0 && (t == 1 ==> Members(players, t) == 0) {
      OnePlayerMore([], Player(0, 0, 1), t);
      OnePlayerMore(one, Player(0, 0, 2), t);
      OnePlayerMore(two, Player(0, 0, 3), t);
    }
    assert Total(players, 1) == Total(players, 0);
  }

  // ----- The program

  /**
    Stands for `std::sort` with the comparison by score: callers rely only on the contract, which says
    nothing about the order of equal teams.
   */
  method Sort(teamIds: array<nat>, teamCount: nat, scores: seq<nat>)
    requires teamCount <= teamIds.Length && teamCount <= |scores| && Ranking(teamIds[..teamCount])
    modifies teamIds
    ensures Ranking(teamIds[..teamCount]) && Descending(teamIds[..teamCount], scores)
  {
    var i := 0;
    while i < teamCount
      invariant i <= teamCount && Ranking(teamIds[..teamCount])
      invariant forall j, k :: 0 <= j < i && j < k < teamCount ==> scores[teamIds[..teamCount][j]] >= scores[teamIds[..teamCount][k]]
    {
      var best := BestFrom(teamIds, teamCount, scores, i);
      Swapped(teamIds[..teamCount], i, best);
      ghost var was := teamIds[..teamCount];
      teamIds[i], teamIds[best] := teamIds[best], teamIds[i];
      assert teamIds[..teamCount] == was[i := was[best]][best := was[i]];
      i := i + 1;
    }
  }

  method BestFrom(teamIds: array<nat>, teamCount: nat, scores: seq<nat>, i: nat) returns (best: nat)
    requires i < teamCount <= teamIds.Length && forall k :: 0 <= k < teamCount ==> teamIds[..teamCount][k] < |scores|
    ensures i <= best < teamCount
    ensures forall k :: i <= k < teamCount ==> scores[teamIds[..teamCount][best]] >= scores[teamIds[..teamCount][k]]
  {
    best := i;
    var j := i + 1;
    while j < teamCount
      invariant i <= best < j <= teamCount
      invariant forall k :: i <= k < j ==> scores[teamIds[..teamCount][best]] >= scores[teamIds[..teamCount][k]]
    {
      if scores[teamIds[..teamCount][j]] > scores[teamIds[..teamCount][best]] {
        best := j;
      }
      j := j + 1;
    }
  }

  lemma Swapped(order: seq<nat>, i: nat, j: nat)
    requires i < |order| && j < |order| && Ranking(order)
    ensures Ranking(order[i := order[j]][j := order[i]])
  {
    var now := order[i := order[j]][j := order[i]];
    forall t | 0 <= t < |now| ensures Placed(now, t) {
      assert Placed(order, t);
      var k :| 0 <= k < |order| && order[k] == t;
      assert now[if k == i then j else if k == j then i else k] == t;
    }
  }

  method GetTeamPlayerOutcome(players: seq<Player>, maxTeamSize: nat, playerId: nat) returns (outcome: Outcome)
    requires playerId < |players|
    requires maxTeamSize >= 2 ==>
               && TeamCount(|players|, maxTeamSize) <= MAX_TEAMS
               && forall i :: 0 <= i < |players| ==> players[i].team < TeamCount(|players|, maxTeamSize)
    ensures maxTeamSize < 2 ==>
              && (outcome == Best <==> players[playerId].rank == 1)
              && (outcome == Bad <==> players[playerId].rank != 1
                                      && (players[playerId].rank > 5 || 2 * players[playerId].rank > |players| + 1))
              && outcome != Draw
    ensures maxTeamSize >= 2 ==> Judged(players, TeamCount(|players|, maxTeamSize), playerId, outcome)
  {
    var playerCount := |players|;
    if maxTeamSize < 2 {
      var rank := players[playerId].rank;
      var half := (playerCount + 1) / 2;
      if rank == 1 {
        return Best;
      } else if rank <= (if half < 5 then half else 5) {
        return Good;
      } else {
        return Bad;
      }
    }
    var teamCount := TeamCount(playerCount, maxTeamSize);
    var team := players[playerId].team;
    var place, draw, order := RankTeams(players, teamCount, team);
    BehindTheTie(players, order, draw, place);
    if place >= draw + 1 {
      return Bad;
    }
    InTheTie(players, order, draw, place);
    if draw > 0 {
      return Draw;
    }
    var score := players[playerId].battleScore;
    var i := 0;
    while i < playerCount
      invariant i <= playerCount && forall k :: 0 <= k < i ==> players[k].battleScore <= score
    {
      if players[i].battleScore > score {
        return Good;
      }
      i := i + 1;
    }
    return Best;
  }

  /** Lines 44-69: the place of a team in the sorted order, and how far the tie in front goes. */
  method RankTeams(players: seq<Player>, teamCount: nat, team: nat) returns (place: nat, draw: nat, ghost order: seq<nat>)
    requires team < teamCount <= MAX_TEAMS && forall i :: 0 <= i < |players| ==> players[i].team < teamCount
    ensures |order| == teamCount && Ranking(order) && Tied(players, order, draw)
    ensures place < teamCount && order[place] == team
  {
    hide Total;
    var teamScores := AddScores(players, teamCount);
    var teamIds := new nat[MAX_TEAMS](_ => 0);
    Iota(teamIds, teamCount);
    Sort(teamIds, teamCount, teamScores[..]);
    order := teamIds[..teamCount];
    var teamIndices := Indices(teamIds, teamCount);
    draw := TiedInFront(teamIds, teamCount, teamScores);
    TiedByScores(players, teamScores[..], order, draw);
    place := teamIndices[team];
  }

  ghost predicate InFront(order: seq<nat>, scores: seq<nat>, draw: nat)
    requires draw < |order| && forall k :: 0 <= k < |order| ==> order[k] < |scores|
  {
    && (forall k :: 0 <= k <= draw ==> scores[order[k]] == scores[order[0]])
    && (draw + 1 < |order| ==> scores[order[draw + 1]] != scores[order[0]])
  }

  lemma TiedByScores(players: seq<Player>, scores: seq<nat>, order: seq<nat>, draw: nat)
    requires draw < |order| && Descending(order, scores) && forall t :: 0 <= t < |scores| ==> scores[t] == Total(players, t)
    requires InFront(order, scores, draw)
    ensures Tied(players, order, draw)
  {
    hide Total;
    assert forall k :: 0 <= k < |order| ==> scores[order[k]] == Total(players, order[k]);
  }

  method TiedInFront(teamIds: array<nat>, teamCount: nat, teamScores: array<nat>) returns (draw: nat)
    requires 0 < teamCount <= teamIds.Length
    requires forall k :: 0 <= k < teamCount ==> teamIds[..teamCount][k] < teamScores.Length
    ensures draw < teamCount && InFront(teamIds[..teamCount], teamScores[..], draw)
  {
    ghost var order := teamIds[..teamCount];
    assert forall k :: 0 <= k < teamCount ==> teamIds[k] == order[k];
    draw := 0;
    while draw + 1 < teamCount && teamScores[teamIds[draw]] == teamScores[teamIds[draw + 1]]
      invariant draw < teamCount && forall k :: 0 <= k <= draw ==> teamScores[order[k]] == teamScores[order[0]]
    {
      draw := draw + 1;
    }
  }

  method Iota(teamIds: array<nat>, teamCount: nat)
    requires teamCount <= teamIds.Length
    modifies teamIds
    ensures Ranking(teamIds[..teamCount])
  {
    var i := 0;
    while i < teamCount
      invariant i <= teamCount && forall k :: 0 <= k < i ==> teamIds[k] == k
    {
      teamIds[i] := i;
      i := i + 1;
    }
    Counting(teamIds[..teamCount]);
  }

  /** The inverse of the sorted order. */
  method Indices(teamIds: array<nat>, teamCount: nat) returns (teamIndices: array<nat>)
    requires teamCount <= MAX_TEAMS == teamIds.Length && Ranking(teamIds[..teamCount])
    ensures fresh(teamIndices) && teamIndices.Length == MAX_TEAMS
    ensures forall t :: 0 <= t < teamCount ==> teamIndices[t] < teamCount && teamIds[..teamCount][teamIndices[t]] == t
  {
    teamIndices := new nat[MAX_TEAMS](_ => 0);
    ghost var order := teamIds[..teamCount];
    var i := 0;
    while i < teamCount
      invariant i <= teamCount && forall k :: 0 <= k < i ==> teamIndices[order[k]] == k
    {
      assert teamIds[i] == order[i];
      teamIndices[teamIds[i]] := i;
      i := i + 1;
    }
    forall t | 0 <= t < teamCount ensures teamIndices[t] < teamCount && order[teamIndices[t]] == t {
      assert Placed(order, t);
    }
  }

  lemma Counting(order: seq<nat>)
    requires forall i :: 0 <= i < |order| ==> order[i] == i
    ensures Ranking(order)
  {
    forall t | 0 <= t < |order| ensures Placed(order, t) {
      assert order[t] == t;
    }
  }

  /** The loop that fills `teamScores`. */
  method AddScores(players: seq<Player>, teamCount: nat) returns (teamScores: array<nat>)
    requires teamCount <= MAX_TEAMS && forall i :: 0 <= i < |players| ==> players[i].team < teamCount
    ensures fresh(teamScores) && teamScores.Length == MAX_TEAMS
    ensures forall t :: 0 <= t < MAX_TEAMS ==> teamScores[t] == Total(players, t)
  {
    teamScores := new nat[MAX_TEAMS](_ => 0);
    var i := 0;
    while i < |players|
      invariant i <= |players|
      invariant forall t :: 0 <= t < MAX_TEAMS ==> teamScores[t] == Total(players[..i], t)
    {
      assert players[..i + 1][..i] == players[..i];
      teamScores[players[i].team] := teamScores[players[i].team] + players[i].battleScore;
      i := i + 1;
    }
    assert players[..i] == players;
  }
}

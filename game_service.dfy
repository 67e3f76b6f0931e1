/** The round, target and kill-confirmation engine: target assignment,
    round-end elimination, revival, kill-claim submission, jury voting, kill
    confirmation, win detection and the two read-only queries. Each operation
    is a method over the store; its new state is tied to a specification
    function of the old state, and the lemmas state what those functions
    guarantee. */
module GameService {
  import opened Models
  import opened Store

  /** A claim expires 24 hours (in one-second ticks) after it is submitted. */
  const ClaimWindow: int := 24 * 60 * 60

  // ----- random.shuffle -----

  function Swap(s: seq<TeamId>, i: nat, j: nat): (r: seq<TeamId>)
    requires i < |s| && j < |s|
    ensures multiset(r) == multiset(s)
    ensures Distinct(s) ==> Distinct(r)
  {
    s[i := s[j]][j := s[i]]
  }

  /** Fisher-Yates as the standard library runs it: positions i, i-1, ..., 1,
      each swapped with a position below or equal to it. The random generator's
      draw for position i is draw(i), reduced to the range 0..i. */
  function ShuffleDown(s: seq<TeamId>, i: nat, draw: nat -> nat): (r: seq<TeamId>)
    requires i < |s|
    ensures multiset(r) == multiset(s)
    ensures Distinct(s) ==> Distinct(r)
    decreases i
  {
    if i == 0 then s else ShuffleDown(Swap(s, i, draw(i) % (i + 1)), i - 1, draw)
  }

  /** The shuffled list is a permutation of the list it was given. */
  function Shuffle(s: seq<TeamId>, draw: nat -> nat): (r: seq<TeamId>)
    ensures multiset(r) == multiset(s)
    ensures |r| == |s|
    ensures forall x :: x in r <==> x in s
    ensures Distinct(s) ==> Distinct(r)
  {
    var r := if |s| < 2 then s else ShuffleDown(s, |s| - 1, draw);
    assert forall x :: x in r <==> x in multiset(r);
    r
  }

  // ----- assign_targets -----

  /** Position of the next team in the circular order: the one after k, wrapping to 0. */
  function Succ(k: nat, n: nat): (r: nat)
    requires k < n
    ensures r < n
  {
    if k + 1 < n then k + 1 else 0
  }

  /** Succ is assign_targets' `(i + 1) % len(alive_teams)`. */
  lemma SuccIsMod(k: nat, n: nat)
    requires k < n
    ensures Succ(k, n) == (k + 1) % n
  {
    if k + 1 == n {
      assert (k + 1) % n == 0;
    }
  }

  /** Position of x in s. */
  function IndexOf(s: seq<TeamId>, x: TeamId): (k: nat)
    requires x in s
    ensures k < |s| && s[k] == x
  {
    if s[0] == x then 0 else 1 + IndexOf(s[1..], x)
  }

  /** The shuffled alive teams. */
  function TargetOrder(ts: seq<Team>, draw: nat -> nat): (order: seq<TeamId>)
    ensures forall x: nat {:trigger x in order} :: x in order <==> x < |ts| && ts[x].IsAlive()
    ensures forall j :: 0 <= j < |order| ==> order[j] < |ts| && ts[order[j]].IsAlive()
    ensures Distinct(order)
    ensures |order| == AliveCount(ts)
  {
    var alive := AliveTeamIds(ts);
    var order := Shuffle(alive, draw);
    assert forall j :: 0 <= j < |order| ==> order[j] in alive;
    order
  }

  /** Each team of order targets the team after it in order, wrapping around. */
  function CycleTargets(ts: seq<Team>, order: seq<TeamId>): (r: seq<Team>)
    ensures |r| == |ts|
  {
    seq(|ts|, i requires 0 <= i < |ts| =>
      if i in order then ts[i].(target := Some(order[Succ(IndexOf(order, i), |order|)])) else ts[i])
  }

  /** The teams after assign_targets: with two or more alive teams, a cycle
      over them in shuffled order; otherwise nothing changes. */
  function AssignedTeams(ts: seq<Team>, draw: nat -> nat): seq<Team>
  {
    if AliveCount(ts) < 2 then ts else CycleTargets(ts, TargetOrder(ts, draw))
  }

  /** Each team of order targets the team after it, wrapping; nothing else changes. */
  predicate CycleAssigned(ts0: seq<Team>, ts: seq<Team>, order: seq<TeamId>)
  {
    |ts| == |ts0|
    && (forall k :: 0 <= k < |order| ==> order[k] < |ts|)
    && (forall k {:trigger ts[order[k]]} :: 0 <= k < |order| ==>
          ts[order[k]] == ts0[order[k]].(target := Some(order[Succ(k, |order|)])))
    && (forall i {:trigger ts[i]} :: 0 <= i < |ts| && i !in order ==> ts[i] == ts0[i])
  }

  /** The order a cycle is assigned over: distinct, and exactly the alive teams. */
  ghost predicate CycleOrder(ts0: seq<Team>, order: seq<TeamId>)
  {
    Distinct(order) && |order| >= 2
    && forall x: nat {:trigger x in order} :: x in order <==> x < |ts0| && ts0[x].IsAlive()
  }

  /** The comprehension assigns exactly the cycle over a distinct order. */
  lemma CycleTargetsAssigned(ts: seq<Team>, order: seq<TeamId>)
    requires Distinct(order)
    requires forall k :: 0 <= k < |order| ==> order[k] < |ts|
    ensures CycleAssigned(ts, CycleTargets(ts, order), order)
  {
    var r := CycleTargets(ts, order);
    forall k | 0 <= k < |order|
      ensures r[order[k]] == ts[order[k]].(target := Some(order[Succ(k, |order|)]))
    {
      assert order[k] in order;
      assert IndexOf(order, order[k]) == k;
    }
  }

  /** Conversely, any cycle over a distinct order is the comprehension. */
  lemma CycleAssignedUnique(ts0: seq<Team>, ts: seq<Team>, order: seq<TeamId>)
    requires Distinct(order) && CycleAssigned(ts0, ts, order)
    ensures ts == CycleTargets(ts0, order)
  {
    var r := CycleTargets(ts0, order);
    forall x | 0 <= x < |ts0| ensures ts[x] == r[x] {
      if x in order {
        var k := IndexOf(order, x);
        assert ts[order[k]] == ts0[order[k]].(target := Some(order[Succ(k, |order|)]));
      }
    }
  }

  lemma AssignedIsCycle(ts: seq<Team>, draw: nat -> nat)
    requires AliveCount(ts) >= 2
    ensures CycleAssigned(ts, AssignedTeams(ts, draw), TargetOrder(ts, draw))
    ensures CycleOrder(ts, TargetOrder(ts, draw))
  {
    CycleTargetsAssigned(ts, TargetOrder(ts, draw));
  }

  /** Every target assign_targets sets names an existing team. */
  lemma AssignedTargetsInRange(ts: seq<Team>, draw: nat -> nat)
    requires forall i :: 0 <= i < |ts| && ts[i].target.Some? ==> ts[i].target.value < |ts|
    ensures var r := AssignedTeams(ts, draw);
            |r| == |ts| && forall i :: 0 <= i < |r| && r[i].target.Some? ==> r[i].target.value < |r|
  {
  }

  /** Following targets from team t, k hops. */
  function Hop(ts: seq<Team>, t: TeamId, k: nat): Option<TeamId>
  {
    if k == 0 then Some(t)
    else match Hop(ts, t, k - 1)
      case None => None
      case Some(u) => if u < |ts| then ts[u].target else None
  }

  /** In a cycle every alive team targets another alive team. */
  lemma CycleTargetsAlive(ts0: seq<Team>, ts: seq<Team>, order: seq<TeamId>, t: TeamId)
    requires CycleAssigned(ts0, ts, order) && CycleOrder(ts0, order)
    requires t < |ts| && ts[t].IsAlive()
    ensures ts[t].target.Some? && ts[t].target.value != t
    ensures ts[t].target.value < |ts| && ts[ts[t].target.value].IsAlive()
  {
    var n := |order|;
    assert t in order;
    var k :| 0 <= k < n && order[k] == t;
    var nx := Succ(k, n);
    assert ts[t].target == Some(order[nx]);
    assert order[nx] in order;
    assert ts[order[nx]].state == ts0[order[nx]].state;
  }

  /** In a cycle every alive team is targeted by some alive team. */
  lemma CycleHunterExists(ts0: seq<Team>, ts: seq<Team>, order: seq<TeamId>, t: TeamId)
    requires CycleAssigned(ts0, ts, order) && CycleOrder(ts0, order)
    requires t < |ts| && ts[t].IsAlive()
    ensures exists h :: 0 <= h < |ts| && ts[h].IsAlive() && ts[h].target == Some(t)
  {
    var n := |order|;
    assert t in order;
    var k :| 0 <= k < n && order[k] == t;
    var pk := if k == 0 then n - 1 else k - 1;
    assert Succ(pk, n) == k;
    assert ts[order[pk]].target == Some(t);
    assert order[pk] in order;
    assert ts[order[pk]].IsAlive();
  }

  /** In a cycle no two alive teams share a target. */
  lemma CycleHunterUnique(ts0: seq<Team>, ts: seq<Team>, order: seq<TeamId>, h1: TeamId, h2: TeamId)
    requires CycleAssigned(ts0, ts, order) && CycleOrder(ts0, order)
    requires h1 < |ts| && h2 < |ts| && ts[h1].IsAlive() && ts[h2].IsAlive()
    requires ts[h1].target == ts[h2].target
    ensures h1 == h2
  {
    var n := |order|;
    assert h1 in order && h2 in order;
    var a :| 0 <= a < n && order[a] == h1;
    var b :| 0 <= b < n && order[b] == h2;
    assert order[Succ(a, n)] == order[Succ(b, n)];
  }

  /** Each team of order targets the team after it, wrapping. */
  predicate Ring(ts: seq<Team>, order: seq<TeamId>)
  {
    (forall j :: 0 <= j < |order| ==> order[j] < |ts|)
    && (forall j {:trigger ts[order[j]]} :: 0 <= j < |order| ==>
          ts[order[j]].target == Some(order[Succ(j, |order|)]))
  }

  /** Following a ring from its first team, k hops reach its k-th team, and
      n hops come back to the start. */
  lemma {:induction false} RingHops(ts: seq<Team>, order: seq<TeamId>, k: nat)
    requires Ring(ts, order) && |order| > 0
    requires k <= |order|
    ensures Hop(ts, order[0], k) == Some(order[if k < |order| then k else 0])
  {
    if k > 0 {
      RingHops(ts, order, k - 1);
      var j := k - 1;
      assert ts[order[j]].target == Some(order[Succ(j, |order|)]);
    }
  }

  /** A cycle changes targets only: names, states and eliminations stay, and
      teams outside the order are untouched. */
  lemma CycleKeepsFields(ts0: seq<Team>, ts: seq<Team>, order: seq<TeamId>, i: nat)
    requires CycleAssigned(ts0, ts, order) && CycleOrder(ts0, order)
    requires i < |ts|
    ensures ts[i].name == ts0[i].name && ts[i].state == ts0[i].state && ts[i].eliminations == ts0[i].eliminations
    ensures !ts0[i].IsAlive() ==> ts[i] == ts0[i]
  {
    if i in order {
      var k :| 0 <= k < |order| && order[k] == i;
      assert ts[order[k]] == ts0[order[k]].(target := Some(order[Succ(k, |order|)]));
    }
  }

  /** assign_targets changes targets only, and only those of alive teams. */
  lemma AssignedTeamsKeepFields(ts: seq<Team>, draw: nat -> nat)
    requires AliveCount(ts) >= 2
    ensures var r := AssignedTeams(ts, draw);
            |r| == |ts|
            && (forall i :: 0 <= i < |ts| ==>
                  r[i].name == ts[i].name && r[i].state == ts[i].state && r[i].eliminations == ts[i].eliminations)
            && (forall i :: 0 <= i < |ts| && !ts[i].IsAlive() ==> r[i] == ts[i])
  {
    AssignedIsCycle(ts, draw);
    var r := AssignedTeams(ts, draw);
    forall i | 0 <= i < |ts|
      ensures r[i].name == ts[i].name && r[i].state == ts[i].state && r[i].eliminations == ts[i].eliminations
      ensures !ts[i].IsAlive() ==> r[i] == ts[i]
    {
      CycleKeepsFields(ts, r, TargetOrder(ts, draw), i);
    }
  }

  /** After assign_targets every alive team targets an alive team other than itself. */
  lemma AssignedTargetsAlive(ts: seq<Team>, draw: nat -> nat)
    requires AliveCount(ts) >= 2
    ensures var r := AssignedTeams(ts, draw);
            forall t :: 0 <= t < |r| && r[t].IsAlive() ==>
              r[t].target.Some? && r[t].target.value != t
              && r[t].target.value < |r| && r[r[t].target.value].IsAlive()
  {
    AssignedIsCycle(ts, draw);
    var r := AssignedTeams(ts, draw);
    forall t | 0 <= t < |r| && r[t].IsAlive()
      ensures r[t].target.Some? && r[t].target.value != t
      ensures r[t].target.value < |r| && r[r[t].target.value].IsAlive()
    {
      CycleTargetsAlive(ts, r, TargetOrder(ts, draw), t);
    }
  }

  /** After assign_targets every alive team is hunted by some alive team. */
  lemma AssignedHunterExists(ts: seq<Team>, draw: nat -> nat)
    requires AliveCount(ts) >= 2
    ensures var r := AssignedTeams(ts, draw);
            forall t :: 0 <= t < |r| && r[t].IsAlive() ==>
              exists h :: 0 <= h < |r| && r[h].IsAlive() && r[h].target == Some(t)
  {
    AssignedIsCycle(ts, draw);
    var r := AssignedTeams(ts, draw);
    forall t | 0 <= t < |r| && r[t].IsAlive()
      ensures exists h :: 0 <= h < |r| && r[h].IsAlive() && r[h].target == Some(t)
    {
      CycleHunterExists(ts, r, TargetOrder(ts, draw), t);
    }
  }

  /** After assign_targets no two alive teams hunt the same team. */
  lemma AssignedHunterUnique(ts: seq<Team>, draw: nat -> nat)
    requires AliveCount(ts) >= 2
    ensures var r := AssignedTeams(ts, draw);
            forall h1, h2 ::
              (0 <= h1 < |r| && 0 <= h2 < |r| && r[h1].IsAlive() && r[h2].IsAlive()
               && r[h1].target == r[h2].target) ==> h1 == h2
  {
    AssignedIsCycle(ts, draw);
    var r := AssignedTeams(ts, draw);
    forall h1, h2 | 0 <= h1 < |r| && 0 <= h2 < |r| && r[h1].IsAlive() && r[h2].IsAlive()
      && r[h1].target == r[h2].target
      ensures h1 == h2
    {
      CycleHunterUnique(ts, r, TargetOrder(ts, draw), h1, h2);
    }
  }

  /** The assignment is a single cycle through all alive teams: from the first
      team of the shuffled order, k hops reach its k-th team and n hops return
      to the start. */
  lemma AssignedTeamsSingleCycle(ts: seq<Team>, draw: nat -> nat, k: nat)
    requires AliveCount(ts) >= 2
    requires k <= AliveCount(ts)
    ensures var order := TargetOrder(ts, draw);
            Hop(AssignedTeams(ts, draw), order[0], k) == Some(order[if k < |order| then k else 0])
  {
    AssignedIsCycle(ts, draw);
    RingHops(AssignedTeams(ts, draw), TargetOrder(ts, draw), k);
  }

  /** The loop of assign_targets: each team of order gets the next one as its
      target, the last one the first. */
  method LinkCycle(ts: seq<Team>, order: seq<TeamId>) returns (teams: seq<Team>)
    requires Distinct(order) && |order| > 0
    requires forall k :: 0 <= k < |order| ==> order[k] < |ts|
    ensures CycleAssigned(ts, teams, order)
  {
    var n := |order|;
    teams := ts;
    var i := 0;
    while i < n
      invariant 0 <= i <= n
      invariant |teams| == |ts|
      invariant forall k {:trigger teams[order[k]]} :: 0 <= k < i ==>
                  teams[order[k]] == ts[order[k]].(target := Some(order[Succ(k, n)]))
      invariant forall x {:trigger teams[x]} :: 0 <= x < |ts| && x !in order[..i] ==> teams[x] == ts[x]
    {
      SuccIsMod(i, n);
      var target := order[(i + 1) % n];
      teams := teams[order[i] := teams[order[i]].(target := Some(target))];
      assert order[..i + 1] == order[..i] + [order[i]];
      i := i + 1;
    }
    assert order[..i] == order;
  }

  /** The teams assign_targets leaves, computed by its loop. */
  method AssignedTargets(ts: seq<Team>, draw: nat -> nat) returns (teams: seq<Team>)
    requires AliveCount(ts) >= 2
    ensures teams == AssignedTeams(ts, draw)
  {
    var order := TargetOrder(ts, draw);  // random.shuffle of the alive teams
    teams := LinkCycle(ts, order);
    CycleAssignedUnique(ts, teams, order);
  }

  method AssignTargets(s: Store, draw: nat -> nat) returns (ok: bool)
    requires s.Valid()
    modifies s
    ensures s.Valid()
    ensures ok <==> AliveCount(old(s.teams)) >= 2
    ensures s.teams == AssignedTeams(old(s.teams), draw)
    ensures s.players == old(s.players) && s.claims == old(s.claims)
    ensures s.votes == old(s.votes) && s.game == old(s.game)
  {
    var alive := AliveTeamIds(s.teams);
    if |alive| < 2 {
      return false;
    }
    var teams := AssignedTargets(s.teams, draw);
    AssignedTargetsInRange(s.teams, draw);
    s.teams := teams;
    ok := true;
  }

  // ----- kill_teams -----

  /** Team i is alive and its target team is still alive. */
  predicate Doomed(ts: seq<Team>, i: nat)
  {
    i < |ts| && ts[i].IsAlive() && ts[i].target.Some?
    && ts[i].target.value < |ts| && ts[ts[i].target.value].IsAlive()
  }

  /** Some alive team has no target: looking its target up fails. */
  predicate MissingTarget(ts: seq<Team>)
  {
    exists i :: 0 <= i < |ts| && ts[i].IsAlive() && ts[i].target.None?
  }

  function KilledTeams(ts: seq<Team>): (r: seq<Team>)
    ensures |r| == |ts|
  {
    seq(|ts|, i requires 0 <= i < |ts| => if Doomed(ts, i) then ts[i].(state := TeamState.Dead) else ts[i])
  }

  function KilledPlayers(ts: seq<Team>, ps: seq<Player>): (r: seq<Player>)
    ensures |r| == |ps|
  {
    seq(|ps|, i requires 0 <= i < |ps| =>
      if Doomed(ts, ps[i].team) then ps[i].(state := PlayerState.Dead) else ps[i])
  }

  /** Round-end elimination never brings a team back: the alive count cannot rise. */
  lemma KillTeamsShrinks(ts: seq<Team>)
    ensures AliveCount(KilledTeams(ts)) <= AliveCount(ts)
  {
    var r := KilledTeams(ts);
    WhereMonotone(|ts|, (i: nat) => i < |r| && r[i].IsAlive(), (i: nat) => i < |ts| && ts[i].IsAlive());
  }

  /** The survivors are exactly the alive teams whose target was not alive, and
      every player of an eliminated team is dead. */
  lemma KillTeamsOutcome(ts: seq<Team>, ps: seq<Player>)
    requires forall i :: 0 <= i < |ps| ==> ps[i].team < |ts|
    ensures var r := KilledTeams(ts);
            var q := KilledPlayers(ts, ps);
            (forall t :: 0 <= t < |ts| ==>
               (r[t].IsAlive() <==> ts[t].IsAlive() && !Doomed(ts, t)))
            && (forall i :: 0 <= i < |ps| && r[ps[i].team].IsDead() ==>
                  !q[i].IsAlive() || ts[ps[i].team].IsDead())
  {
  }

  /** When every alive team targets an alive team (a full cycle and no team
      wiped out during the round), round-end elimination leaves no team alive. */
  lemma KillTeamsAfterQuietRound(ts: seq<Team>, draw: nat -> nat)
    requires AliveCount(ts) >= 2
    ensures AliveCount(KilledTeams(AssignedTeams(ts, draw))) == 0
  {
    var a := AssignedTeams(ts, draw);
    var r := KilledTeams(a);
    if AliveCount(r) > 0 {
      var t := AliveTeamIds(r)[0];
      assert a[t].IsAlive() && !Doomed(a, t);
      AssignedIsCycle(ts, draw);
      CycleTargetsAlive(ts, a, TargetOrder(ts, draw), t);
      assert false;
    }
  }

  /** The first loop of kill_teams: the alive teams whose target is alive, and
      all of their players. Looking up the target of an alive team that has
      none raises. */
  method CollectDoomed(teams: seq<Team>, players: seq<Player>)
    returns (crashed: bool, doomedTeams: seq<TeamId>, doomedPlayers: seq<PlayerId>)
    requires forall i :: 0 <= i < |teams| && teams[i].target.Some? ==> teams[i].target.value < |teams|
    ensures crashed <==> MissingTarget(teams)
    ensures !crashed ==> forall t: nat :: t in doomedTeams <==> Doomed(teams, t)
    ensures !crashed ==> forall k :: 0 <= k < |doomedTeams| ==> doomedTeams[k] < |teams|
    ensures !crashed ==> forall p: nat :: p in doomedPlayers <==> p < |players| && Doomed(teams, players[p].team)
    ensures !crashed ==> forall k :: 0 <= k < |doomedPlayers| ==> doomedPlayers[k] < |players|
  {
    var alive := AliveTeamIds(teams);
    doomedTeams, doomedPlayers := [], [];
    var k := 0;
    while k < |alive|
      invariant 0 <= k <= |alive|
      invariant forall j :: 0 <= j < k ==> teams[alive[j]].target.Some?
      invariant forall t: nat :: t in doomedTeams <==> t in alive[..k] && Doomed(teams, t)
      invariant forall j :: 0 <= j < |doomedTeams| ==> doomedTeams[j] < |teams|
      invariant forall p: nat :: p in doomedPlayers <==> p < |players| && players[p].team in doomedTeams
      invariant forall j :: 0 <= j < |doomedPlayers| ==> doomedPlayers[j] < |players|
    {
      var team := alive[k];
      if teams[team].target.None? {
        assert teams[team].IsAlive();
        return true, [], [];
      }
      var target := teams[team].target.value;
      if teams[target].IsAlive() {
        doomedTeams := doomedTeams + [team];
        doomedPlayers := doomedPlayers + RosterIds(players, team);
      }
      assert alive[..k + 1] == alive[..k] + [team];
      k := k + 1;
    }
    assert alive[..k] == alive;
    forall i | 0 <= i < |teams| && teams[i].IsAlive() ensures teams[i].target.Some? {
      assert i in alive;
    }
    crashed := false;
  }

  /** The second loop of kill_teams: every listed team is marked dead. */
  method MarkTeamsDead(teams: seq<Team>, ids: seq<TeamId>) returns (r: seq<Team>)
    requires forall k :: 0 <= k < |ids| ==> ids[k] < |teams|
    ensures |r| == |teams|
    ensures forall i :: 0 <= i < |teams| ==>
              r[i] == if i in ids then teams[i].(state := TeamState.Dead) else teams[i]
  {
    r := teams;
    var j := 0;
    while j < |ids|
      invariant 0 <= j <= |ids|
      invariant |r| == |teams|
      invariant forall i :: 0 <= i < |teams| ==>
                  r[i] == if i in ids[..j] then teams[i].(state := TeamState.Dead) else teams[i]
    {
      r := r[ids[j] := r[ids[j]].(state := TeamState.Dead)];
      assert ids[..j + 1] == ids[..j] + [ids[j]];
      j := j + 1;
    }
    assert ids[..j] == ids;
  }

  /** The third loop of kill_teams: every listed player is marked dead. */
  method MarkPlayersDead(players: seq<Player>, ids: seq<PlayerId>) returns (r: seq<Player>)
    requires forall k :: 0 <= k < |ids| ==> ids[k] < |players|
    ensures |r| == |players|
    ensures forall i :: 0 <= i < |players| ==>
              r[i] == if i in ids then players[i].(state := PlayerState.Dead) else players[i]
  {
    r := players;
    var j := 0;
    while j < |ids|
      invariant 0 <= j <= |ids|
      invariant |r| == |players|
      invariant forall i :: 0 <= i < |players| ==>
                  r[i] == if i in ids[..j] then players[i].(state := PlayerState.Dead) else players[i]
    {
      r := r[ids[j] := r[ids[j]].(state := PlayerState.Dead)];
      assert ids[..j + 1] == ids[..j] + [ids[j]];
      j := j + 1;
    }
    assert ids[..j] == ids;
  }

  method KillTeams(s: Store, now: Tick) returns (crashed: bool)
    requires s.Valid()
    modifies s
    ensures s.Valid()
    ensures crashed <==> MissingTarget(old(s.teams))
    ensures crashed ==> s.Snapshot() == old(s.Snapshot())
    ensures !crashed ==>
              s.teams == KilledTeams(old(s.teams))
              && s.players == KilledPlayers(old(s.teams), old(s.players))
              && s.game == old(s.game).(roundStart := Some(now))
    ensures s.claims == old(s.claims) && s.votes == old(s.votes)
  {
    var doomedTeams, doomedPlayers;
    crashed, doomedTeams, doomedPlayers := CollectDoomed(s.teams, s.players);
    if crashed {
      // the request fails and its transaction is rolled back
      return;
    }
    s.game := s.game.(roundStart := Some(now));
    var teams := MarkTeamsDead(s.teams, doomedTeams);
    var players := MarkPlayersDead(s.players, doomedPlayers);
    assert teams == KilledTeams(s.teams);
    assert players == KilledPlayers(s.teams, s.players);
    s.teams, s.players := teams, players;
  }

  // ----- increment_rounds, revive_players -----

  method IncrementRounds(s: Store, now: Tick)
    requires s.Valid()
    modifies s
    ensures s.Valid()
    ensures s.game == old(s.game).(round := old(s.game).round + 1, roundStart := Some(now))
    ensures s.teams == old(s.teams) && s.players == old(s.players)
    ensures s.claims == old(s.claims) && s.votes == old(s.votes)
  {
    s.game := s.game.(roundStart := Some(now));
    s.game := s.game.(round := s.game.round + 1);
  }

  /** Every dead player of an alive team is alive again; nothing else changes. */
  function RevivedPlayers(ts: seq<Team>, ps: seq<Player>): (r: seq<Player>)
    ensures |r| == |ps|
  {
    seq(|ps|, i requires 0 <= i < |ps| =>
      if ps[i].team < |ts| && ts[ps[i].team].IsAlive() then ps[i].(state := PlayerState.Alive) else ps[i])
  }

  /** The inner loop of revive_players: every dead player of team t is made alive. */
  method ReviveTeam(players: seq<Player>, t: TeamId) returns (r: seq<Player>)
    ensures |r| == |players|
    ensures forall i :: 0 <= i < |players| ==>
              r[i] == if players[i].team == t then players[i].(state := PlayerState.Alive) else players[i]
  {
    var roster := RosterIds(players, t);
    r := players;
    var j := 0;
    while j < |roster|
      invariant 0 <= j <= |roster|
      invariant |r| == |players|
      invariant forall i :: 0 <= i < |players| ==>
                  r[i] == if i in roster[..j] then players[i].(state := PlayerState.Alive) else players[i]
    {
      var p := roster[j];
      if !r[p].IsAlive() {
        r := r[p := r[p].(state := PlayerState.Alive)];
      }
      assert roster[..j + 1] == roster[..j] + [p];
      j := j + 1;
    }
    assert roster[..j] == roster;
  }

  method RevivePlayers(s: Store)
    requires s.Valid()
    modifies s
    ensures s.Valid()
    ensures s.players == RevivedPlayers(old(s.teams), old(s.players))
    ensures s.teams == old(s.teams) && s.claims == old(s.claims)
    ensures s.votes == old(s.votes) && s.game == old(s.game)
  {
    var alive := AliveTeamIds(s.teams);
    var players := s.players;
    var k := 0;
    while k < |alive|
      modifies {}
      invariant 0 <= k <= |alive|
      invariant |players| == |s.players|
      invariant forall i :: 0 <= i < |players| ==>
                  players[i] == if s.players[i].team in alive[..k] then s.players[i].(state := PlayerState.Alive) else s.players[i]
    {
      players := ReviveTeam(players, alive[k]);
      assert alive[..k + 1] == alive[..k] + [alive[k]];
      k := k + 1;
    }
    assert alive[..k] == alive;
    forall i | 0 <= i < |players| ensures players[i] == RevivedPlayers(s.teams, s.players)[i] {
      var t := s.players[i].team;
      assert t in alive <==> t < |s.teams| && s.teams[t].IsAlive();
    }
    assert players == RevivedPlayers(s.teams, s.players);
    s.players := players;
  }

  // ----- check_game_complete -----

  /** The game is live and exactly one team is alive. */
  predicate Decided(g: GameState, ts: seq<Team>)
  {
    g.phase == Live && AliveCount(ts) == 1
  }

  function AfterWinCheck(g: GameState, ts: seq<Team>): GameState
  {
    if Decided(g, ts) then g.(phase := Post) else g
  }

  /** The win check moves the phase only from live to post, only when exactly
      one team is alive, and that team is the winner: the only alive team. */
  lemma WinCheckOutcome(g: GameState, ts: seq<Team>)
    ensures var r := AfterWinCheck(g, ts);
            r.(phase := g.phase) == g
            && (r.phase != g.phase <==> g.phase == Live && AliveCount(ts) == 1)
            && (r.phase != g.phase ==> r.phase == Post)
            && (r.phase != g.phase ==>
                  exists w :: 0 <= w < |ts| && ts[w].IsAlive()
                    && forall u :: 0 <= u < |ts| && ts[u].IsAlive() ==> u == w)
  {
    if Decided(g, ts) {
      var ids := AliveTeamIds(ts);
      var w := ids[0];
      forall u | 0 <= u < |ts| && ts[u].IsAlive() ensures u == w {
        assert u in ids;
      }
    }
  }

  method CheckGameComplete(s: Store) returns (done: bool)
    requires s.Valid()
    modifies s
    ensures s.Valid()
    ensures done <==> Decided(old(s.game), old(s.teams))
    ensures s.game == AfterWinCheck(old(s.game), old(s.teams))
    ensures s.teams == old(s.teams) && s.players == old(s.players)
    ensures s.claims == old(s.claims) && s.votes == old(s.votes)
  {
    if s.game.phase != Live {
      return false;
    }
    var alive := AliveTeamIds(s.teams);
    if |alive| == 1 {
      s.game := s.game.(phase := Post);
      return true;
    }
    return false;
  }

  // ----- confirm_kill -----

  function ConfirmedPlayers(ps: seq<Player>, c: Claim): seq<Player>
    requires c.victim < |ps| && c.attacker < |ps|
  {
    ps[c.victim := ps[c.victim].(state := PlayerState.Dead,
                                 obituary := Some(Obituary(c.round, ps[c.attacker].name, c.killTime)))]
  }

  function ConfirmedTeams(ts: seq<Team>, ps: seq<Player>, c: Claim): seq<Team>
    requires c.victim < |ps| && c.attacker < |ps|
    requires ps[c.victim].team < |ts| && ps[c.attacker].team < |ts|
  {
    var at := ps[c.attacker].team;
    var vt := ps[c.victim].team;
    var ts1 := ts[at := ts[at].(eliminations := ts[at].eliminations + 1)];
    if AllDead(Roster(ConfirmedPlayers(ps, c), vt)) then ts1[vt := ts1[vt].(state := TeamState.Dead)] else ts1
  }

  /** The whole store after confirm_kill on claim cid, win check included. */
  function ConfirmedDb(db: Db, cid: ClaimId): Db
    requires WellFormed(db) && cid < |db.claims|
  {
    var c := db.claims[cid];
    var ts := ConfirmedTeams(db.teams, db.players, c);
    db.(teams := ts, players := ConfirmedPlayers(db.players, c), game := AfterWinCheck(db.game, ts))
  }

  lemma ConfirmedDbWellFormed(db: Db, cid: ClaimId)
    requires WellFormed(db) && cid < |db.claims|
    ensures WellFormed(ConfirmedDb(db, cid))
  {
  }

  /** confirm_kill kills the victim and stores its obituary, credits the
      attacker's team with exactly one elimination, marks the victim's team
      dead exactly when none of its players is alive any more (otherwise leaves
      its state), never raises the alive-team count, runs the win check on the
      new teams, and touches nothing else. */
  lemma ConfirmKillOutcome(db: Db, cid: ClaimId)
    requires WellFormed(db) && cid < |db.claims|
    ensures var c := db.claims[cid];
            var r := ConfirmedDb(db, cid);
            var at := db.players[c.attacker].team;
            var vt := db.players[c.victim].team;
            |r.players| == |db.players| && |r.teams| == |db.teams|
            && !r.players[c.victim].IsAlive()
            && r.players[c.victim].GetObituary() == Some(Obituary(c.round, db.players[c.attacker].name, c.killTime))
            && (forall i :: 0 <= i < |db.players| && i != c.victim ==> r.players[i] == db.players[i])
            && r.teams[at].eliminations == db.teams[at].eliminations + 1
            && (r.teams[vt].IsDead() <==>
                  db.teams[vt].IsDead()
                  || forall i :: 0 <= i < |r.players| && r.players[i].team == vt ==> !r.players[i].IsAlive())
            && (!r.teams[vt].IsDead() ==> r.teams[vt].state == db.teams[vt].state)
            && (at != vt ==> r.teams[at] == db.teams[at].(eliminations := db.teams[at].eliminations + 1))
            && (forall t :: 0 <= t < |db.teams| && t != at && t != vt ==> r.teams[t] == db.teams[t])
            && AliveCount(r.teams) <= AliveCount(db.teams)
            && r.game == AfterWinCheck(db.game, r.teams)
            && r.claims == db.claims && r.votes == db.votes
  {
    var c := db.claims[cid];
    var r := ConfirmedDb(db, cid);
    var vt := db.players[c.victim].team;
    TeamAllDeadIff(ConfirmedPlayers(db.players, c), vt);
    WhereMonotone(|db.teams|, (i: nat) => i < |r.teams| && r.teams[i].IsAlive(),
                  (i: nat) => i < |db.teams| && db.teams[i].IsAlive());
  }

  method ConfirmKill(s: Store, cid: ClaimId) returns (ok: bool)
    requires s.Valid() && cid < |s.claims|
    modifies s
    ensures s.Valid() && ok
    ensures s.Snapshot() == ConfirmedDb(old(s.Snapshot()), cid)
  {
    ghost var db := s.Snapshot();
    var c := s.claims[cid];
    var players, teams := s.players, s.teams;
    var victim, attacker := c.victim, c.attacker;
    players := players[victim := players[victim].(state := PlayerState.Dead)];
    players := players[victim := players[victim].(obituary := Some(Obituary(c.round, players[attacker].name, c.killTime)))];
    var at := players[attacker].team;
    teams := teams[at := teams[at].(eliminations := teams[at].eliminations + 1)];
    var vt := players[victim].team;
    if AllDead(Roster(players, vt)) {
      teams := teams[vt := teams[vt].(state := TeamState.Dead)];
    }
    assert players == ConfirmedPlayers(db.players, c);
    assert teams == ConfirmedTeams(db.teams, db.players, c);
    ConfirmedDbWellFormed(db, cid);
    s.players, s.teams := players, teams;
    var _ := CheckGameComplete(s);
    ok := true;
  }

  // ----- submit_kill -----

  /** All of submit_kill's checks pass: both players exist and are alive, the
      attacker's team targets the victim's team, and no pending claim names the
      same victim and attacker. */
  predicate SubmitAllowed(db: Db, victim: nat, attacker: nat)
    requires WellFormed(db)
  {
    victim < |db.players| && attacker < |db.players|
    && db.players[victim].IsAlive() && db.players[attacker].IsAlive()
    && db.teams[db.players[attacker].team].target == Some(db.players[victim].team)
    && !HasPendingClaim(db.claims, victim, attacker)
  }

  /** The claim submit_kill creates. */
  function NewClaim(db: Db, victim: PlayerId, attacker: PlayerId, killTime: Tick, video: string, now: Tick): Claim
  {
    Claim(victim, attacker, killTime, db.game.round, video, ClaimStatus.Pending, now + ClaimWindow)
  }

  /** Once a claim is accepted, the same submission is refused while it is pending. */
  lemma SubmitTwiceRefused(db: Db, victim: nat, attacker: nat, killTime: Tick, video: string, now: Tick)
    requires WellFormed(db) && SubmitAllowed(db, victim, attacker)
    ensures var db2 := db.(claims := db.claims + [NewClaim(db, victim, attacker, killTime, video, now)]);
            WellFormed(db2) && !SubmitAllowed(db2, victim, attacker)
  {
    var db2 := db.(claims := db.claims + [NewClaim(db, victim, attacker, killTime, video, now)]);
    assert db2.claims[|db.claims|].victim == victim;
  }

  method SubmitKill(s: Store, victim: nat, attacker: nat, killTime: Tick, video: string, now: Tick)
    returns (claim: Option<ClaimId>)
    requires s.Valid()
    modifies s
    ensures s.Valid()
    ensures claim.Some? <==> SubmitAllowed(old(s.Snapshot()), victim, attacker)
    ensures claim.None? ==> s.Snapshot() == old(s.Snapshot())
    ensures claim.Some? ==>
              claim.value == |old(s.claims)|
              && s.claims == old(s.claims) + [NewClaim(old(s.Snapshot()), victim, attacker, killTime, video, now)]
    ensures s.teams == old(s.teams) && s.players == old(s.players)
    ensures s.votes == old(s.votes) && s.game == old(s.game)
  {
    if victim >= |s.players| || attacker >= |s.players| {
      return None;
    }
    if !s.players[victim].IsAlive() || !s.players[attacker].IsAlive() {
      return None;
    }
    var attackerTeam := s.players[attacker].team;
    var victimTeam := s.players[victim].team;
    if s.teams[attackerTeam].target != Some(victimTeam) {
      return None;
    }
    var k := 0;
    while k < |s.claims|
      invariant 0 <= k <= |s.claims|
      invariant forall j :: 0 <= j < k ==>
                  !(s.claims[j].victim == victim && s.claims[j].attacker == attacker && s.claims[j].IsPending())
    {
      if s.claims[k].victim == victim && s.claims[k].attacker == attacker && s.claims[k].IsPending() {
        return None;
      }
      k := k + 1;
    }
    claim := Some(|s.claims|);
    s.claims := s.claims + [Claim(victim, attacker, killTime, s.game.round, video, ClaimStatus.Pending, now + ClaimWindow)];
  }

  // ----- vote_on_kill -----

  datatype VoteOutcome =
    | InvalidClaimOrVoter
    | NoLongerPending
    | Expired
    | OwnClaim
    | AlreadyVoted
    | KillConfirmed
    | KillRejected
    | VoteRecorded

  /** The first of vote_on_kill's checks that fails, in the order they are made. */
  function VoteRefusal(db: Db, cid: nat, voter: nat, now: Tick): (r: Option<VoteOutcome>)
    ensures r.Some? ==> r.value in {InvalidClaimOrVoter, NoLongerPending, Expired, OwnClaim, AlreadyVoted}
  {
    if cid >= |db.claims| || voter >= |db.players| then Some(InvalidClaimOrVoter)
    else if !db.claims[cid].IsPending() then Some(NoLongerPending)
    else if db.claims[cid].expiration < now then Some(Expired)
    else if voter == db.claims[cid].victim || voter == db.claims[cid].attacker then Some(OwnClaim)
    else if HasVoted(db.votes, cid, voter) then Some(AlreadyVoted)
    else None
  }

  function SetStatus(db: Db, cid: ClaimId, st: ClaimStatus): Db
    requires cid < |db.claims|
  {
    db.(claims := db.claims[cid := db.claims[cid].(status := st)])
  }

  /** Approvals and rejections on claim cid once the ballot is counted. */
  function TallyWith(db: Db, cid: ClaimId, voter: PlayerId, approve: bool): (nat, nat)
  {
    var on := VotesOn(db.votes + [Vote(cid, voter, approve)], cid);
    (ApproveVotes(on), RejectVotes(on))
  }

  /** The store after an admitted ballot: recorded, then the claim is approved
      (and the kill confirmed) when approvals reach the threshold, else
      rejected when rejections reach it, else left pending. */
  function RecordVote(db: Db, cid: ClaimId, voter: PlayerId, approve: bool): Db
    requires WellFormed(db) && cid < |db.claims| && voter < |db.players|
  {
    var db1 := db.(votes := db.votes + [Vote(cid, voter, approve)]);
    var tally := TallyWith(db, cid, voter, approve);
    if tally.0 >= db.game.threshold then ConfirmedDb(SetStatus(db1, cid, ClaimStatus.Approved), cid)
    else if tally.1 >= db.game.threshold then SetStatus(db1, cid, ClaimStatus.Rejected)
    else db1
  }

  function VoteMessage(db: Db, cid: ClaimId, voter: PlayerId, approve: bool): VoteOutcome
  {
    var tally := TallyWith(db, cid, voter, approve);
    if tally.0 >= db.game.threshold then KillConfirmed
    else if tally.1 >= db.game.threshold then KillRejected
    else VoteRecorded
  }

  /** The counted ballot adds one to the tally it belongs to. */
  lemma {:induction false} TallyWithCounts(db: Db, cid: ClaimId, voter: PlayerId, approve: bool)
    ensures var on := VotesOn(db.votes, cid);
            TallyWith(db, cid, voter, approve)
              == (ApproveVotes(on) + (if approve then 1 else 0), RejectVotes(on) + (if approve then 0 else 1))
  {
    var vs := db.votes + [Vote(cid, voter, approve)];
    assert vs[..|vs| - 1] == db.votes;
    TallyAppend(VotesOn(db.votes, cid), Vote(cid, voter, approve));
  }

  /** An admitted ballot is recorded, the store keeps its integrity, and the
      claim table keeps its size. */
  lemma RecordVoteKeepsStore(db: Db, cid: ClaimId, voter: PlayerId, approve: bool)
    requires WellFormed(db) && cid < |db.claims| && voter < |db.players|
    ensures var r := RecordVote(db, cid, voter, approve);
            WellFormed(r) && r.votes == db.votes + [Vote(cid, voter, approve)]
            && |r.claims| == |db.claims|
            && (forall c :: 0 <= c < |db.claims| && c != cid ==> r.claims[c] == db.claims[c])
  {
    var db1 := db.(votes := db.votes + [Vote(cid, voter, approve)]);
    assert WellFormed(db1);
    var tally := TallyWith(db, cid, voter, approve);
    if tally.0 >= db.game.threshold {
      var db2 := SetStatus(db1, cid, ClaimStatus.Approved);
      assert WellFormed(db2);
      ConfirmedDbWellFormed(db2, cid);
    } else if tally.1 >= db.game.threshold {
      assert WellFormed(SetStatus(db1, cid, ClaimStatus.Rejected));
    }
  }

  /** Quorum: after an admitted ballot the claim is approved exactly when the
      approvals, this ballot included, reach the threshold; rejected exactly
      when they do not and the rejections do; unchanged otherwise. Only an
      approval touches teams, players or the game record. */
  lemma RecordVoteQuorum(db: Db, cid: ClaimId, voter: PlayerId, approve: bool)
    requires WellFormed(db) && cid < |db.claims| && voter < |db.players|
    requires db.claims[cid].IsPending()
    ensures var r := RecordVote(db, cid, voter, approve);
            var on := VotesOn(db.votes, cid);
            var a := ApproveVotes(on) + (if approve then 1 else 0);
            var j := RejectVotes(on) + (if approve then 0 else 1);
            var t := db.game.threshold;
            |r.claims| == |db.claims|
            && (r.claims[cid].IsApproved() <==> a >= t)
            && (r.claims[cid].IsRejected() <==> a < t && j >= t)
            && (a < t && j < t ==> r.claims[cid] == db.claims[cid])
            && (a < t ==> r.teams == db.teams && r.players == db.players && r.game == db.game)
  {
    TallyWithCounts(db, cid, voter, approve);
    var db1 := db.(votes := db.votes + [Vote(cid, voter, approve)]);
    var tally := TallyWith(db, cid, voter, approve);
    var r := RecordVote(db, cid, voter, approve);
    if tally.0 >= db.game.threshold {
      assert r.claims == SetStatus(db1, cid, ClaimStatus.Approved).claims;
    } else if tally.1 >= db.game.threshold {
      assert r == SetStatus(db1, cid, ClaimStatus.Rejected);
    } else {
      assert r == db1;
    }
  }

  /** Once admitted, the same juror's second ballot on the same claim is refused. */
  lemma SecondVoteRefused(db: Db, cid: ClaimId, voter: PlayerId, approve: bool, now: Tick)
    requires WellFormed(db) && VoteRefusal(db, cid, voter, now) == None
    ensures VoteRefusal(RecordVote(db, cid, voter, approve), cid, voter, now) in
              {Some(NoLongerPending), Some(AlreadyVoted)}
  {
    RecordVoteKeepsStore(db, cid, voter, approve);
    RecordVoteQuorum(db, cid, voter, approve);
    var r := RecordVote(db, cid, voter, approve);
    assert r.votes[|db.votes|] == Vote(cid, voter, approve);
    assert HasVoted(r.votes, cid, voter);
  }

  /** The counting half of vote_on_kill, once every check has passed. */
  method CastBallot(s: Store, cid: ClaimId, voter: PlayerId, approve: bool) returns (outcome: VoteOutcome)
    requires s.Valid() && cid < |s.claims| && voter < |s.players|
    modifies s
    ensures s.Valid()
    ensures outcome == VoteMessage(old(s.Snapshot()), cid, voter, approve)
    ensures s.Snapshot() == RecordVote(old(s.Snapshot()), cid, voter, approve)
  {
    ghost var db := s.Snapshot();
    s.votes := s.votes + [Vote(cid, voter, approve)];
    var on := VotesOn(s.votes, cid);
    var approvals := ApproveVotes(on);
    var rejections := RejectVotes(on);
    assert (approvals, rejections) == TallyWith(db, cid, voter, approve);
    if approvals >= s.game.threshold {
      s.claims := s.claims[cid := s.claims[cid].(status := ClaimStatus.Approved)];
      var _ := ConfirmKill(s, cid);
      outcome := KillConfirmed;
    } else if rejections >= s.game.threshold {
      s.claims := s.claims[cid := s.claims[cid].(status := ClaimStatus.Rejected)];
      outcome := KillRejected;
    } else {
      outcome := VoteRecorded;
    }
  }

  method VoteOnKill(s: Store, cid: nat, voter: nat, approve: bool, now: Tick)
    returns (ok: bool, outcome: VoteOutcome)
    requires s.Valid()
    modifies s
    ensures s.Valid()
    ensures ok <==> VoteRefusal(old(s.Snapshot()), cid, voter, now).None?
    ensures !ok ==> outcome == VoteRefusal(old(s.Snapshot()), cid, voter, now).value
    ensures !ok && outcome == Expired ==> s.Snapshot() == SetStatus(old(s.Snapshot()), cid, ClaimStatus.Rejected)
    ensures !ok && outcome != Expired ==> s.Snapshot() == old(s.Snapshot())
    ensures ok ==> outcome == VoteMessage(old(s.Snapshot()), cid, voter, approve)
                   && s.Snapshot() == RecordVote(old(s.Snapshot()), cid, voter, approve)
  {
    if cid >= |s.claims| || voter >= |s.players| {
      return false, InvalidClaimOrVoter;
    }
    var claim := s.claims[cid];
    if !claim.IsPending() {
      return false, NoLongerPending;
    }
    if claim.expiration < now {
      s.claims := s.claims[cid := claim.(status := ClaimStatus.Rejected)];
      return false, Expired;
    }
    if voter == claim.victim || voter == claim.attacker {
      return false, OwnClaim;
    }
    var k := 0;
    while k < |s.votes|
      invariant 0 <= k <= |s.votes|
      invariant forall j :: 0 <= j < k ==> !(s.votes[j].claim == cid && s.votes[j].voter == voter)
    {
      if s.votes[k].claim == cid && s.votes[k].voter == voter {
        return false, AlreadyVoted;
      }
      k := k + 1;
    }
    ok := true;
    outcome := CastBallot(s, cid, voter, approve);
  }

  // ----- get_kill_confirmations_for_voter -----

  /** The claims a juror may still vote on: pending, not yet voted on by the
      juror, not naming the juror, and not past their expiration. */
  function VotableClaims(db: Db, voter: PlayerId, now: Tick): (r: seq<ClaimId>)
    ensures forall c: nat :: c in r <==>
              c < |db.claims| && db.claims[c].IsPending() && !HasVoted(db.votes, c, voter)
              && db.claims[c].victim != voter && db.claims[c].attacker != voter
              && db.claims[c].expiration > now
    ensures Distinct(r)
  {
    Where(|db.claims|, (c: nat) =>
      c < |db.claims| && db.claims[c].IsPending() && !HasVoted(db.votes, c, voter)
      && db.claims[c].victim != voter && db.claims[c].attacker != voter
      && db.claims[c].expiration > now)
  }

  /** Every listed claim admits the juror's ballot. */
  lemma VotableClaimsAdmitVote(db: Db, voter: PlayerId, now: Tick, cid: ClaimId)
    requires voter < |db.players| && cid in VotableClaims(db, voter, now)
    ensures VoteRefusal(db, cid, voter, now) == None
  {
  }

  /** The converse fails at the boundary instant: the listing drops a claim
      whose expiration equals now, while a ballot cast at that instant is
      still admitted. */
  lemma ExpiryBoundary()
    ensures var c := Claim(0, 1, 0, 1, "", ClaimStatus.Pending, 100);
            var db := Db([Team("a", TeamState.Alive, None, 0)],
                         [Player("v", 0, PlayerState.Alive, None), Player("k", 0, PlayerState.Alive, None),
                          Player("j", 0, PlayerState.Alive, None)],
                         [c], [], GameState(Live, 1, 3, None, None));
            VoteRefusal(db, 0, 2, 100) == None && 0 !in VotableClaims(db, 2, 100)
  {
  }

  // ----- get_leaderboard -----

  datatype PlayerRow = PlayerRow(id: PlayerId, name: string, state: PlayerState)
  datatype Standing = Standing(team: TeamId, name: string, state: TeamState, eliminations: int,
                               players: seq<PlayerRow>)

  function Rows(ps: seq<Player>, t: TeamId): seq<PlayerRow>
  {
    var ids := RosterIds(ps, t);
    seq(|ids|, k requires 0 <= k < |ids| => PlayerRow(ids[k], ps[ids[k]].name, ps[ids[k]].state))
  }

  /** One standing per team, in table order. */
  function Standings(ts: seq<Team>, ps: seq<Player>): seq<Standing>
  {
    seq(|ts|, i requires 0 <= i < |ts| => Standing(i, ts[i].name, ts[i].state, ts[i].eliminations, Rows(ps, i)))
  }

  /** The sort key: alive teams first, then more eliminations first. */
  function Rank(e: Standing): (int, int)
  {
    (if e.state == TeamState.Alive then 0 else 1, -e.eliminations)
  }

  predicate RankLe(a: Standing, b: Standing)
  {
    Rank(a).0 < Rank(b).0 || (Rank(a).0 == Rank(b).0 && Rank(a).1 <= Rank(b).1)
  }

  predicate SortedByRank(s: seq<Standing>)
  {
    forall j, k :: 0 <= j < k < |s| ==> RankLe(s[j], s[k])
  }

  /** Inserts e before the first entry it does not rank after. */
  function InsertByRank(e: Standing, s: seq<Standing>): (r: seq<Standing>)
    ensures multiset(r) == multiset(s) + multiset{e}
  {
    if s == [] then [e]
    else if RankLe(e, s[0]) then [e] + s
    else
      assert s == [s[0]] + s[1..];
      [s[0]] + InsertByRank(e, s[1..])
  }

  lemma {:induction false} InsertByRankSorted(e: Standing, s: seq<Standing>)
    requires SortedByRank(s)
    ensures SortedByRank(InsertByRank(e, s))
  {
    if s != [] && !RankLe(e, s[0]) {
      var t := InsertByRank(e, s[1..]);
      InsertByRankSorted(e, s[1..]);
      forall k | 0 <= k < |t| ensures RankLe(s[0], t[k]) {
        assert t[k] in multiset(t);
        if t[k] != e {
          assert t[k] in multiset(s[1..]);
        }
      }
      var r := [s[0]] + t;
      forall j, k | 0 <= j < k < |r| ensures RankLe(r[j], r[k]) {
        if j > 0 {
          assert r[j] == t[j - 1] && r[k] == t[k - 1];
        }
      }
    }
  }

  /** A stable insertion sort by Rank. */
  function SortByRank(s: seq<Standing>): (r: seq<Standing>)
    ensures multiset(r) == multiset(s)
    ensures SortedByRank(r)
  {
    if s == [] then []
    else
      assert s == [s[0]] + s[1..];
      InsertByRankSorted(s[0], SortByRank(s[1..]));
      InsertByRank(s[0], SortByRank(s[1..]))
  }

  /** The entries of s that have sort key k, in order. */
  function WithRank(s: seq<Standing>, k: (int, int)): seq<Standing>
  {
    if s == [] then [] else (if Rank(s[0]) == k then [s[0]] else []) + WithRank(s[1..], k)
  }

  lemma WithRankCons(x: Standing, t: seq<Standing>, k: (int, int))
    ensures WithRank([x] + t, k) == (if Rank(x) == k then [x] else []) + WithRank(t, k)
  {
    assert ([x] + t)[1..] == t;
  }

  lemma SortedTail(s: seq<Standing>)
    requires SortedByRank(s) && s != []
    ensures SortedByRank(s[1..])
  {
    forall j, k | 0 <= j < k < |s| - 1 ensures RankLe(s[1..][j], s[1..][k]) {
      assert s[1..][j] == s[j + 1] && s[1..][k] == s[k + 1];
    }
  }

  lemma {:induction false} InsertByRankStable(e: Standing, s: seq<Standing>, k: (int, int))
    requires SortedByRank(s)
    ensures WithRank(InsertByRank(e, s), k) == (if Rank(e) == k then [e] else []) + WithRank(s, k)
  {
    if s == [] {
      WithRankCons(e, [], k);
    } else if RankLe(e, s[0]) {
      WithRankCons(e, s, k);
    } else {
      var t := s[1..];
      var x: seq<Standing> := if Rank(s[0]) == k then [s[0]] else [];
      var y: seq<Standing> := if Rank(e) == k then [e] else [];
      assert s == [s[0]] + t;
      assert x == [] || y == [] by {
        assert Rank(s[0]) != Rank(e);
      }
      calc {
        WithRank(InsertByRank(e, s), k);
        { assert InsertByRank(e, s) == [s[0]] + InsertByRank(e, t);
          WithRankCons(s[0], InsertByRank(e, t), k); }
        x + WithRank(InsertByRank(e, t), k);
        { SortedTail(s);
          InsertByRankStable(e, t, k); }
        x + (y + WithRank(t, k));
        y + (x + WithRank(t, k));
        { WithRankCons(s[0], t, k); }
        y + WithRank(s, k);
      }
    }
  }

  /** The sort is stable: teams with equal keys keep their table order. */
  lemma {:induction false} SortByRankStable(s: seq<Standing>, k: (int, int))
    ensures WithRank(SortByRank(s), k) == WithRank(s, k)
  {
    if s != [] {
      SortByRankStable(s[1..], k);
      InsertByRankStable(s[0], SortByRank(s[1..]), k);
    }
  }

  /** The leaderboard: every team once, alive teams first, then by eliminations, descending. */
  function Leaderboard(db: Db): (r: seq<Standing>)
    ensures multiset(r) == multiset(Standings(db.teams, db.players))
    ensures SortedByRank(r)
  {
    SortByRank(Standings(db.teams, db.players))
  }
}

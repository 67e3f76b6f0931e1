/** The organiser's controls: accepting teams, moving the game between its
    phases, starting rounds, toggling teams and players, deciding a claim by
    hand, changing the voting threshold and wiping the game. As in the game
    service, every operation is a method over the store tied to a
    specification function of the old state. */
module AdminService {
  import opened Models
  import opened Store
  import opened GameService

  /** A team's alive count moves by one exactly when its state crosses alive. */
  lemma AliveCountSet(ts: seq<Team>, t: TeamId, st: TeamState)
    requires t < |ts|
    ensures var r := ts[t := ts[t].(state := st)];
            AliveCount(r) + (if ts[t].IsAlive() then 1 else 0)
              == AliveCount(ts) + (if st == TeamState.Alive then 1 else 0)
  {
    var r := ts[t := ts[t].(state := st)];
    var p := (i: nat) => i < |ts| && ts[i].IsAlive();
    var q := (i: nat) => i < |r| && r[i].IsAlive();
    if ts[t].IsAlive() == (st == TeamState.Alive) {
      WhereSame(|ts|, p, q);
    } else if st == TeamState.Alive {
      WhereFlip(|ts|, p, q, t);
    } else {
      WhereFlip(|ts|, q, p, t);
    }
  }

  // ----- start_round -----

  datatype RoundOutcome =
    | Crashed   // kill_teams raised: an alive team had no target; nothing is kept
    | GameOver  // the win check ended the game; no new targets
    | Started   // targets reassigned and players revived

  datatype RoundStep = RoundStep(outcome: RoundOutcome, db: Db)

  /** The store after kill_teams when it does not raise. */
  function KilledDb(db: Db, now: Tick): Db
  {
    db.(teams := KilledTeams(db.teams), players := KilledPlayers(db.teams, db.players),
        game := db.game.(roundStart := Some(now)))
  }

  /** assign_targets, then increment_rounds when asked, then revive_players. */
  function NewRoundDb(db: Db, increment: bool, now: Tick, draw: nat -> nat): Db
  {
    var ts := AssignedTeams(db.teams, draw);
    var g := if increment then db.game.(round := db.game.round + 1, roundStart := Some(now)) else db.game;
    db.(teams := ts, players := RevivedPlayers(ts, db.players), game := g)
  }

  /** start_round: round-end elimination unless no round has been played,
      then the win check, then, unless the game is over, a new round. */
  function StartRoundSpec(db: Db, increment: bool, now: Tick, draw: nat -> nat): RoundStep
  {
    if db.game.round != 0 && MissingTarget(db.teams) then RoundStep(Crashed, db)
    else
      var db1 := if db.game.round == 0 then db else KilledDb(db, now);
      if Decided(db1.game, db1.teams) then RoundStep(GameOver, db1.(game := AfterWinCheck(db1.game, db1.teams)))
      else RoundStep(Started, NewRoundDb(db1, increment, now, draw))
  }

  /** Only a round after the first can raise, and only when an alive team has no target. */
  lemma StartRoundCrash(db: Db, increment: bool, now: Tick, draw: nat -> nat)
    ensures var r := StartRoundSpec(db, increment, now, draw);
            (r.outcome == Crashed <==> db.game.round != 0 && MissingTarget(db.teams))
            && (r.outcome == Crashed ==> r.db == db)
  {
  }

  /** Before the first round nobody is eliminated: the first call never
      raises and leaves every team's state as it was. */
  lemma FirstRoundKillsNobody(db: Db, increment: bool, now: Tick, draw: nat -> nat)
    requires db.game.round == 0
    ensures var r := StartRoundSpec(db, increment, now, draw);
            r.outcome != Crashed
            && |r.db.teams| == |db.teams|
            && forall t :: 0 <= t < |db.teams| ==> r.db.teams[t].state == db.teams[t].state
  {
    var r := StartRoundSpec(db, increment, now, draw);
    if r.outcome == Started && AliveCount(db.teams) >= 2 {
      AssignedTeamsKeepFields(db.teams, draw);
    }
  }

  /** When the round change decides the game, the phase becomes post, exactly
      one team is alive, and the round number and targets stay. */
  lemma StartRoundGameOver(db: Db, increment: bool, now: Tick, draw: nat -> nat)
    requires StartRoundSpec(db, increment, now, draw).outcome == GameOver
    ensures var r := StartRoundSpec(db, increment, now, draw).db;
            r.game.phase == Post && db.game.phase == Live && AliveCount(r.teams) == 1
            && r.game.round == db.game.round
            && |r.teams| == |db.teams|
            && (forall t :: 0 <= t < |db.teams| ==> r.teams[t].target == db.teams[t].target)
            && r.claims == db.claims && r.votes == db.votes
  {
  }

  /** The new targets keep the alive count, and with two or more teams left
      every alive team hunts another alive team. */
  lemma AssignedTeamsHunt(ts: seq<Team>, draw: nat -> nat)
    ensures var r := AssignedTeams(ts, draw);
            |r| == |ts| && AliveCount(r) == AliveCount(ts)
            && (AliveCount(r) >= 2 ==>
                  forall t :: 0 <= t < |r| && r[t].IsAlive() ==>
                    r[t].target.Some? && r[t].target.value != t
                    && r[t].target.value < |r| && r[r[t].target.value].IsAlive())
  {
    var r := AssignedTeams(ts, draw);
    if AliveCount(ts) >= 2 {
      AssignedTeamsKeepFields(ts, draw);
      WhereSame(|r|, (i: nat) => i < |r| && r[i].IsAlive(), (i: nat) => i < |ts| && ts[i].IsAlive());
      AssignedTargetsAlive(ts, draw);
    }
  }

  /** A started round keeps the phase, advances the round number by one only
      when asked, and leaves every player of an alive team alive; with two or
      more teams left, every alive team hunts another alive team. */
  lemma StartRoundStarted(db: Db, increment: bool, now: Tick, draw: nat -> nat)
    requires StartRoundSpec(db, increment, now, draw).outcome == Started
    ensures var r := StartRoundSpec(db, increment, now, draw).db;
            r.game.phase == db.game.phase
            && r.game.round == db.game.round + (if increment then 1 else 0)
            && |r.teams| == |db.teams| && |r.players| == |db.players|
            && (forall i :: (0 <= i < |r.players| && r.players[i].team < |r.teams|
                  && r.teams[r.players[i].team].IsAlive()) ==> r.players[i].IsAlive())
            && (AliveCount(r.teams) >= 2 ==>
                  forall t :: 0 <= t < |r.teams| && r.teams[t].IsAlive() ==>
                    r.teams[t].target.Some? && r.teams[t].target.value != t
                    && r.teams[t].target.value < |r.teams| && r.teams[r.teams[t].target.value].IsAlive())
            && r.claims == db.claims && r.votes == db.votes
  {
    var db1 := if db.game.round == 0 then db else KilledDb(db, now);
    assert StartRoundSpec(db, increment, now, draw).db == NewRoundDb(db1, increment, now, draw);
    AssignedTeamsHunt(db1.teams, draw);
  }

  /** A round in which nobody scores a kill ends the whole field: when the
      targets of a started round are still in place at the next round change,
      every team is eliminated, the game stays live and no winner is declared. */
  lemma QuietRoundEliminatesAll(db: Db, increment: bool, now: Tick, draw: nat -> nat, draw2: nat -> nat)
    requires db.game.round != 0 && db.game.phase == Live && AliveCount(db.teams) >= 2
    ensures var r := StartRoundSpec(db.(teams := AssignedTeams(db.teams, draw)), increment, now, draw2);
            r.outcome == Started && AliveCount(r.db.teams) == 0 && r.db.game.phase == Live
  {
    var ts := AssignedTeams(db.teams, draw);
    AssignedTargetsAlive(db.teams, draw);
    assert !MissingTarget(ts);
    KillTeamsAfterQuietRound(db.teams, draw);
  }

  method StartRound(s: Store, increment: bool, now: Tick, draw: nat -> nat) returns (outcome: RoundOutcome)
    requires s.Valid()
    modifies s
    ensures s.Valid()
    ensures RoundStep(outcome, s.Snapshot()) == StartRoundSpec(old(s.Snapshot()), increment, now, draw)
  {
    ghost var db := s.Snapshot();
    if s.game.round != 0 {
      var crashed := KillTeams(s, now);
      if crashed {
        return Crashed;
      }
    }
    ghost var db1 := s.Snapshot();
    assert db1 == if db.game.round == 0 then db else KilledDb(db, now);
    var done := CheckGameComplete(s);
    if done {
      return GameOver;
    }
    var _ := AssignTargets(s, draw);
    if increment {
      IncrementRounds(s, now);
    }
    RevivePlayers(s);
    outcome := Started;
  }

  // ----- change_game_state -----

  /** The name of each phase as the game-state record stores it. */
  function PhaseName(p: Phase): string
  {
    match p
    case Pre => "pre"
    case Live => "live"
    case Post => "post"
    case Forced => "forced"
  }

  /** Reads a requested phase; any other name is refused. */
  function ParsePhase(name: string): (r: Option<Phase>)
    ensures r.Some? <==> name in {"pre", "live", "post", "forced"}
    ensures r.Some? ==> PhaseName(r.value) == name
    ensures forall p :: r == Some(p) <==> name == PhaseName(p)
  {
    if name == "pre" then Some(Pre)
    else if name == "live" then Some(Live)
    else if name == "post" then Some(Post)
    else if name == "forced" then Some(Forced)
    else None
  }

  /** The store after change_game_state to phase p; None when the round
      change it starts raises, and the whole change is rolled back. */
  function StateChange(db: Db, p: Phase, now: Tick, draw: nat -> nat): Option<Db>
  {
    var db1 := db.(game := db.game.(phase := p));
    if p == Live && db.game.phase == Pre then
      var step := StartRoundSpec(db1, true, now, draw);
      if step.outcome == Crashed then None else Some(step.db)
    else if p == Post then Some(db1.(game := AfterWinCheck(db1.game, db1.teams)))
    else Some(db1)
  }

  /** Every change other than pre to live only sets the phase: the win check
      that follows a change to post finds the game no longer live. */
  lemma StateChangeSetsPhase(db: Db, p: Phase, now: Tick, draw: nat -> nat)
    requires !(p == Live && db.game.phase == Pre)
    ensures StateChange(db, p, now, draw) == Some(db.(game := db.game.(phase := p)))
  {
  }

  /** Going live from a fresh game starts round one: every alive team gets an
      alive target other than itself, unless only one team is alive, which
      ends the game at once. */
  lemma GoLiveStartsRoundOne(db: Db, now: Tick, draw: nat -> nat)
    requires db.game.phase == Pre && db.game.round == 0
    ensures var r := StateChange(db, Live, now, draw);
            r.Some?
            && ((r.value.game.phase == Live && r.value.game.round == 1 && r.value.game.roundStart == Some(now)
                 && (AliveCount(r.value.teams) >= 2 ==>
                       forall t :: 0 <= t < |r.value.teams| && r.value.teams[t].IsAlive() ==>
                         r.value.teams[t].target.Some? && r.value.teams[t].target.value < |r.value.teams|
                         && r.value.teams[r.value.teams[t].target.value].IsAlive()))
                || (r.value.game.phase == Post && r.value.game.round == 0 && AliveCount(r.value.teams) == 1))
  {
    var db1 := db.(game := db.game.(phase := Live));
    var step := StartRoundSpec(db1, true, now, draw);
    if step.outcome == Started {
      StartRoundStarted(db1, true, now, draw);
    } else {
      StartRoundGameOver(db1, true, now, draw);
    }
  }

  /** change_game_state. raised stands for the exception a failing round
      change propagates; ok is false for an unknown phase name. */
  method ChangeGameState(s: Store, name: string, now: Tick, draw: nat -> nat) returns (ok: bool, raised: bool)
    requires s.Valid()
    modifies s
    ensures s.Valid()
    ensures ParsePhase(name).None? ==> !ok && !raised && s.Snapshot() == old(s.Snapshot())
    ensures ParsePhase(name).Some? ==>
              var r := StateChange(old(s.Snapshot()), ParsePhase(name).value, now, draw);
              (ok <==> r.Some?) && (raised <==> r.None?)
              && (r.None? ==> s.Snapshot() == old(s.Snapshot()))
              && (r.Some? ==> s.Snapshot() == r.value)
  {
    var p := ParsePhase(name);
    if p.None? {
      return false, false;
    }
    var oldGame := s.game;
    s.game := s.game.(phase := p.value);
    if p.value == Live && oldGame.phase == Pre {
      var outcome := StartRound(s, true, now, draw);
      if outcome == Crashed {
        // the request's transaction is rolled back
        s.game := oldGame;
        return false, true;
      }
    }
    if p.value == Post {
      var _ := CheckGameComplete(s);
    }
    ok, raised := true, false;
  }

  // ----- accept_team -----

  /** A team can be accepted while the game has not started and it is pending. */
  predicate CanAccept(db: Db, t: nat)
  {
    db.game.IsPre() && t < |db.teams| && db.teams[t].IsPending()
  }

  function Accepted(db: Db, t: TeamId): Db
    requires t < |db.teams|
  {
    db.(teams := db.teams[t := db.teams[t].(state := TeamState.Alive)])
  }

  /** Accepting makes the team alive, adds exactly one to the alive count,
      and cannot be repeated. */
  lemma AcceptTeamOutcome(db: Db, t: TeamId)
    requires CanAccept(db, t)
    ensures var r := Accepted(db, t);
            r.teams[t].IsAlive() && AliveCount(r.teams) == AliveCount(db.teams) + 1
            && !CanAccept(r, t)
  {
    AliveCountSet(db.teams, t, TeamState.Alive);
  }

  method AcceptTeam(s: Store, t: nat) returns (ok: bool)
    requires s.Valid()
    modifies s
    ensures s.Valid()
    ensures ok <==> CanAccept(old(s.Snapshot()), t)
    ensures !ok ==> s.Snapshot() == old(s.Snapshot())
    ensures ok ==> s.Snapshot() == Accepted(old(s.Snapshot()), t)
  {
    if !s.game.IsPre() {
      return false;
    }
    if t >= |s.teams| || !s.teams[t].IsPending() {
      return false;
    }
    s.teams := s.teams[t := s.teams[t].(state := TeamState.Alive)];
    ok := true;
  }

  // ----- toggle_team_state -----

  /** Every player of team t set to state st. */
  function WithRosterState(ps: seq<Player>, t: TeamId, st: PlayerState): (r: seq<Player>)
    ensures |r| == |ps|
    ensures forall i :: 0 <= i < |ps| ==> r[i].team == ps[i].team
  {
    seq(|ps|, i requires 0 <= i < |ps| => if ps[i].team == t then ps[i].(state := st) else ps[i])
  }

  /** The loop over a team's players. */
  method SetRosterState(players: seq<Player>, t: TeamId, st: PlayerState) returns (r: seq<Player>)
    ensures |r| == |players|
    ensures forall i :: 0 <= i < |players| ==>
              r[i] == if players[i].team == t then players[i].(state := st) else players[i]
  {
    var roster := RosterIds(players, t);
    r := players;
    var j := 0;
    while j < |roster|
      invariant 0 <= j <= |roster|
      invariant |r| == |players|
      invariant forall i :: 0 <= i < |players| ==>
                  r[i] == if i in roster[..j] then players[i].(state := st) else players[i]
    {
      r := r[roster[j] := r[roster[j]].(state := st)];
      assert roster[..j + 1] == roster[..j] + [roster[j]];
      j := j + 1;
    }
    assert roster[..j] == roster;
  }

  /** An alive team dies with all its players; a pending or dead team comes
      alive with all its players. */
  function ToggledTeam(db: Db, t: TeamId): Db
    requires t < |db.teams|
  {
    if db.teams[t].IsAlive() then
      db.(teams := db.teams[t := db.teams[t].(state := TeamState.Dead)],
          players := WithRosterState(db.players, t, PlayerState.Dead))
    else
      db.(teams := db.teams[t := db.teams[t].(state := TeamState.Alive)],
          players := WithRosterState(db.players, t, PlayerState.Alive))
  }

  /** Toggling flips whether the team is alive, moves the alive count by one
      accordingly, brings every player of the team into the team's new state
      and touches no other team or player. */
  lemma ToggleTeamOutcome(db: Db, t: TeamId)
    requires t < |db.teams|
    ensures var r := ToggledTeam(db, t);
            |r.teams| == |db.teams| && |r.players| == |db.players|
            && (r.teams[t].IsAlive() <==> !db.teams[t].IsAlive())
            && (r.teams[t].IsDead() <==> db.teams[t].IsAlive())
            && AliveCount(r.teams) + (if db.teams[t].IsAlive() then 1 else 0)
                 == AliveCount(db.teams) + (if db.teams[t].IsAlive() then 0 else 1)
            && (forall i :: 0 <= i < |db.players| && db.players[i].team == t ==>
                  (r.players[i].IsAlive() <==> r.teams[t].IsAlive()))
            && (forall i :: 0 <= i < |db.players| && db.players[i].team != t ==> r.players[i] == db.players[i])
            && (forall u :: 0 <= u < |db.teams| && u != t ==> r.teams[u] == db.teams[u])
  {
    AliveCountSet(db.teams, t, if db.teams[t].IsAlive() then TeamState.Dead else TeamState.Alive);
  }

  /** Toggling twice restores an alive or dead team; its players end in the
      team's state whatever theirs was before. */
  lemma ToggleTeamTwice(db: Db, t: TeamId)
    requires t < |db.teams| && !db.teams[t].IsPending()
    ensures var r := ToggledTeam(ToggledTeam(db, t), t);
            r.teams == db.teams
            && r.players == WithRosterState(db.players, t,
                              if db.teams[t].IsAlive() then PlayerState.Alive else PlayerState.Dead)
  {
    var r := ToggledTeam(ToggledTeam(db, t), t);
    assert r.teams[t] == db.teams[t];
  }

  method ToggleTeamState(s: Store, t: nat) returns (ok: bool)
    requires s.Valid()
    modifies s
    ensures s.Valid()
    ensures ok <==> t < |old(s.teams)|
    ensures !ok ==> s.Snapshot() == old(s.Snapshot())
    ensures ok ==> s.Snapshot() == ToggledTeam(old(s.Snapshot()), t)
  {
    if t >= |s.teams| {
      return false;
    }
    var players;
    if s.teams[t].IsAlive() {
      s.teams := s.teams[t := s.teams[t].(state := TeamState.Dead)];
      players := SetRosterState(s.players, t, PlayerState.Dead);
      assert players == WithRosterState(s.players, t, PlayerState.Dead);
    } else {
      s.teams := s.teams[t := s.teams[t].(state := TeamState.Alive)];
      players := SetRosterState(s.players, t, PlayerState.Alive);
      assert players == WithRosterState(s.players, t, PlayerState.Alive);
    }
    s.players := players;
    ok := true;
  }

  // ----- toggle_player_state -----

  /** An alive player dies, and the team with it once none of its players is
      alive; a dead player comes alive, and the team with it. */
  function ToggledPlayer(db: Db, p: PlayerId): (r: Db)
    requires WellFormed(db) && p < |db.players|
    ensures WellFormed(r) && |r.players| == |db.players|
  {
    var pl := db.players[p];
    var t := pl.team;
    if pl.IsAlive() then
      var ps := db.players[p := pl.(state := PlayerState.Dead)];
      db.(players := ps,
          teams := if AllDead(Roster(ps, t)) then db.teams[t := db.teams[t].(state := TeamState.Dead)] else db.teams)
    else
      db.(players := db.players[p := pl.(state := PlayerState.Alive)],
          teams := db.teams[t := db.teams[t].(state := TeamState.Alive)])
  }

  lemma TogglePlayerOutcome(db: Db, p: PlayerId)
    requires WellFormed(db) && p < |db.players|
    ensures var r := ToggledPlayer(db, p);
            var t := db.players[p].team;
            WellFormed(r) && |r.players| == |db.players| && |r.teams| == |db.teams|
            && (r.players[p].IsAlive() <==> !db.players[p].IsAlive())
            && (forall i :: 0 <= i < |db.players| && i != p ==> r.players[i] == db.players[i])
            && (forall u :: 0 <= u < |db.teams| && u != t ==> r.teams[u] == db.teams[u])
            && (r.players[p].IsAlive() ==> r.teams[t].IsAlive())
            && (!r.players[p].IsAlive() ==>
                  (r.teams[t].IsDead() <==>
                     db.teams[t].IsDead()
                     || forall i :: 0 <= i < |r.players| && r.players[i].team == t ==> !r.players[i].IsAlive())
                  && (!r.teams[t].IsDead() ==> r.teams[t] == db.teams[t]))
  {
    var pl := db.players[p];
    if pl.IsAlive() {
      TeamAllDeadIff(db.players[p := pl.(state := PlayerState.Dead)], pl.team);
    }
  }

  /** Toggling a player twice restores the player. */
  lemma TogglePlayerTwice(db: Db, p: PlayerId)
    requires WellFormed(db) && p < |db.players|
    ensures ToggledPlayer(ToggledPlayer(db, p), p).players == db.players
  {
    TogglePlayerOutcome(db, p);
    var r := ToggledPlayer(db, p);
    TogglePlayerOutcome(r, p);
    var r2 := ToggledPlayer(r, p);
    assert r2.players[p] == db.players[p];
  }

  method TogglePlayerState(s: Store, p: nat) returns (ok: bool)
    requires s.Valid()
    modifies s
    ensures s.Valid()
    ensures ok <==> p < |old(s.players)|
    ensures !ok ==> s.Snapshot() == old(s.Snapshot())
    ensures ok ==> s.Snapshot() == ToggledPlayer(old(s.Snapshot()), p)
  {
    if p >= |s.players| {
      return false;
    }
    ghost var db := s.Snapshot();
    TogglePlayerOutcome(db, p);
    var t := s.players[p].team;
    if s.players[p].IsAlive() {
      s.players := s.players[p := s.players[p].(state := PlayerState.Dead)];
      if AllDead(Roster(s.players, t)) {
        s.teams := s.teams[t := s.teams[t].(state := TeamState.Dead)];
      }
    } else {
      s.players := s.players[p := s.players[p].(state := PlayerState.Alive)];
      s.teams := s.teams[t := s.teams[t].(state := TeamState.Alive)];
    }
    ok := true;
  }

  // ----- force_vote_decision -----

  /** Only a pending claim can be decided by hand. */
  predicate CanForce(db: Db, cid: nat)
  {
    cid < |db.claims| && db.claims[cid].IsPending()
  }

  /** The claim is approved or rejected; an approval confirms the kill. */
  function ForcedDb(db: Db, cid: ClaimId, approve: bool): Db
    requires WellFormed(db) && cid < |db.claims|
  {
    if approve then ConfirmedDb(SetStatus(db, cid, ClaimStatus.Approved), cid)
    else SetStatus(db, cid, ClaimStatus.Rejected)
  }

  /** A hand decision is final: the claim is approved exactly when the
      decision says so, and neither a ballot nor a second decision is
      admitted afterwards. */
  lemma ForcedIsFinal(db: Db, cid: ClaimId, approve: bool, voter: nat, now: Tick)
    requires WellFormed(db) && CanForce(db, cid)
    ensures var r := ForcedDb(db, cid, approve);
            |r.claims| == |db.claims|
            && (r.claims[cid].IsApproved() <==> approve)
            && (r.claims[cid].IsRejected() <==> !approve)
            && !CanForce(r, cid)
            && VoteRefusal(r, cid, voter, now).Some?
  {
  }

  /** Forcing an approval does to the store what a quorum of approvals does. */
  lemma ForcedApprovalIsQuorum(db: Db, cid: ClaimId, voter: PlayerId, approve: bool)
    requires WellFormed(db) && cid < |db.claims| && voter < |db.players|
    requires TallyWith(db, cid, voter, approve).0 >= db.game.threshold
    ensures var db1 := db.(votes := db.votes + [Vote(cid, voter, approve)]);
            WellFormed(db1) && RecordVote(db, cid, voter, approve) == ForcedDb(db1, cid, true)
  {
  }

  method ForceVoteDecision(s: Store, cid: nat, approve: bool) returns (ok: bool)
    requires s.Valid()
    modifies s
    ensures s.Valid()
    ensures ok <==> CanForce(old(s.Snapshot()), cid)
    ensures !ok ==> s.Snapshot() == old(s.Snapshot())
    ensures ok ==> s.Snapshot() == ForcedDb(old(s.Snapshot()), cid, approve)
  {
    if cid >= |s.claims| || !s.claims[cid].IsPending() {
      return false;
    }
    s.claims := s.claims[cid := s.claims[cid].(status := if approve then ClaimStatus.Approved else ClaimStatus.Rejected)];
    if approve {
      var _ := ConfirmKill(s, cid);
    }
    ok := true;
  }

  // ----- wipe_game, update_voting_threshold -----

  /** Every table emptied and the game record reset to a fresh pre-game
      record; only the voting threshold survives. */
  function Wiped(db: Db): Db
  {
    Db([], [], [], [], GameState(Pre, 0, db.game.threshold, None, None))
  }

  /** A wiped store is well formed, equals a fresh store but for the threshold,
      and wiping again changes nothing. */
  lemma WipeGameOutcome(db: Db)
    ensures var r := Wiped(db);
            WellFormed(r) && r.teams == [] && r.players == [] && r.claims == [] && r.votes == []
            && r.game == GameState(Pre, 0, DefaultThreshold, None, None).(threshold := db.game.threshold)
            && Wiped(r) == r
  {
  }

  method WipeGame(s: Store) returns (ok: bool)
    requires s.Valid()
    modifies s
    ensures s.Valid() && ok
    ensures s.Snapshot() == Wiped(old(s.Snapshot()))
  {
    s.votes := [];
    s.claims := [];
    s.players := [];
    s.teams := [];
    s.game := s.game.(phase := Pre, round := 0, roundStart := None, roundEnd := None);
    ok := true;
  }

  /** The threshold is taken as given; with none above zero even a rejecting
      ballot confirms the kill, since no tally can be below it. */
  lemma NonPositiveThresholdConfirmsAnyBallot(db: Db, cid: ClaimId, voter: PlayerId, approve: bool)
    requires db.game.threshold <= 0
    ensures VoteMessage(db, cid, voter, approve) == KillConfirmed
  {
  }

  method UpdateVotingThreshold(s: Store, threshold: int) returns (ok: bool)
    requires s.Valid()
    modifies s
    ensures s.Valid() && ok
    ensures s.game == old(s.game).(threshold := threshold)
    ensures s.teams == old(s.teams) && s.players == old(s.players)
    ensures s.claims == old(s.claims) && s.votes == old(s.votes)
  {
    s.game := s.game.(threshold := threshold);
    ok := true;
  }
}

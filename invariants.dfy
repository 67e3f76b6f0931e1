/** A store-wide property: no player of a dead team is alive. Each lemma
    below shows that one operation of the game engine or of the organiser's
    controls keeps it, stated on the specification function the operation's
    method is tied to. Registering a player (Store.AddPlayer) is the one
    operation that can break it, by adding an alive player to a dead team. */
module Invariants {
  import opened Models
  import opened Store
  import opened GameService
  import opened AdminService

  predicate DeadTeamsHaveNoAlivePlayers(db: Db)
  {
    forall i :: (0 <= i < |db.players| && db.players[i].team < |db.teams|
                 && db.teams[db.players[i].team].IsDead()) ==> !db.players[i].IsAlive()
  }

  /** Round-end elimination takes an eliminated team's players with it. */
  lemma KillTeamsKeepsInvariant(db: Db, now: Tick)
    requires DeadTeamsHaveNoAlivePlayers(db)
    ensures DeadTeamsHaveNoAlivePlayers(KilledDb(db, now))
  {
  }

  /** A new round changes no team's state and revives only players of alive teams. */
  lemma NewRoundKeepsInvariant(db: Db, increment: bool, now: Tick, draw: nat -> nat)
    requires DeadTeamsHaveNoAlivePlayers(db)
    ensures DeadTeamsHaveNoAlivePlayers(NewRoundDb(db, increment, now, draw))
  {
    if AliveCount(db.teams) >= 2 {
      AssignedTeamsKeepFields(db.teams, draw);
    }
  }

  lemma StartRoundKeepsInvariant(db: Db, increment: bool, now: Tick, draw: nat -> nat)
    requires DeadTeamsHaveNoAlivePlayers(db)
    ensures DeadTeamsHaveNoAlivePlayers(StartRoundSpec(db, increment, now, draw).db)
  {
    if !(db.game.round != 0 && MissingTarget(db.teams)) {
      var db1 := if db.game.round == 0 then db else KilledDb(db, now);
      if db.game.round != 0 {
        KillTeamsKeepsInvariant(db, now);
      }
      NewRoundKeepsInvariant(db1, increment, now, draw);
    }
  }

  /** A confirmed kill marks a team dead only once none of its players is alive. */
  lemma ConfirmKillKeepsInvariant(db: Db, cid: ClaimId)
    requires WellFormed(db) && cid < |db.claims| && DeadTeamsHaveNoAlivePlayers(db)
    ensures DeadTeamsHaveNoAlivePlayers(ConfirmedDb(db, cid))
  {
    ConfirmKillOutcome(db, cid);
  }

  /** A submitted claim only adds a row to the claim table. */
  lemma SubmitKillKeepsInvariant(db: Db, victim: PlayerId, attacker: PlayerId, killTime: Tick, video: string, now: Tick)
    requires DeadTeamsHaveNoAlivePlayers(db)
    ensures DeadTeamsHaveNoAlivePlayers(db.(claims := db.claims + [NewClaim(db, victim, attacker, killTime, video, now)]))
  {
  }

  /** Rejecting an expired claim on a vote only changes that claim's status. */
  lemma VoteExpiryKeepsInvariant(db: Db, cid: ClaimId)
    requires cid < |db.claims| && DeadTeamsHaveNoAlivePlayers(db)
    ensures DeadTeamsHaveNoAlivePlayers(SetStatus(db, cid, ClaimStatus.Rejected))
  {
  }

  lemma RecordVoteKeepsInvariant(db: Db, cid: ClaimId, voter: PlayerId, approve: bool)
    requires WellFormed(db) && cid < |db.claims| && voter < |db.players| && DeadTeamsHaveNoAlivePlayers(db)
    ensures DeadTeamsHaveNoAlivePlayers(RecordVote(db, cid, voter, approve))
  {
    var db1 := db.(votes := db.votes + [Vote(cid, voter, approve)]);
    if TallyWith(db, cid, voter, approve).0 >= db.game.threshold {
      ConfirmKillKeepsInvariant(SetStatus(db1, cid, ClaimStatus.Approved), cid);
    }
  }

  lemma StateChangeKeepsInvariant(db: Db, p: Phase, now: Tick, draw: nat -> nat)
    requires DeadTeamsHaveNoAlivePlayers(db)
    ensures var r := StateChange(db, p, now, draw);
            r.Some? ==> DeadTeamsHaveNoAlivePlayers(r.value)
  {
    if p == Live && db.game.phase == Pre {
      StartRoundKeepsInvariant(db.(game := db.game.(phase := p)), true, now, draw);
    }
  }

  lemma AcceptTeamKeepsInvariant(db: Db, t: TeamId)
    requires CanAccept(db, t) && DeadTeamsHaveNoAlivePlayers(db)
    ensures DeadTeamsHaveNoAlivePlayers(Accepted(db, t))
  {
  }

  lemma ToggleTeamKeepsInvariant(db: Db, t: TeamId)
    requires t < |db.teams| && DeadTeamsHaveNoAlivePlayers(db)
    ensures DeadTeamsHaveNoAlivePlayers(ToggledTeam(db, t))
  {
    ToggleTeamOutcome(db, t);
  }

  /** Killing a player can mark its team dead only when nobody of it is left
      alive; reviving one brings its team alive. */
  lemma TogglePlayerKeepsInvariant(db: Db, p: PlayerId)
    requires WellFormed(db) && p < |db.players| && DeadTeamsHaveNoAlivePlayers(db)
    ensures DeadTeamsHaveNoAlivePlayers(ToggledPlayer(db, p))
  {
    TogglePlayerOutcome(db, p);
  }

  lemma ForceVoteKeepsInvariant(db: Db, cid: ClaimId, approve: bool)
    requires WellFormed(db) && cid < |db.claims| && DeadTeamsHaveNoAlivePlayers(db)
    ensures DeadTeamsHaveNoAlivePlayers(ForcedDb(db, cid, approve))
  {
    if approve {
      ConfirmKillKeepsInvariant(SetStatus(db, cid, ClaimStatus.Approved), cid);
    }
  }

  /** The win check only changes the game record. */
  lemma WinCheckKeepsInvariant(db: Db)
    requires DeadTeamsHaveNoAlivePlayers(db)
    ensures DeadTeamsHaveNoAlivePlayers(db.(game := AfterWinCheck(db.game, db.teams)))
  {
  }

  /** A wiped store has no players at all. */
  lemma WipeGameKeepsInvariant(db: Db)
    ensures DeadTeamsHaveNoAlivePlayers(Wiped(db))
  {
  }

  /** A threshold change only changes the game record. */
  lemma UpdateThresholdKeepsInvariant(db: Db, threshold: int)
    requires DeadTeamsHaveNoAlivePlayers(db)
    ensures DeadTeamsHaveNoAlivePlayers(db.(game := db.game.(threshold := threshold)))
  {
  }
}

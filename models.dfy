/** Record shapes of the assassin game's entity store (teams, players, kill
    claims, votes and the single game-state record) and the properties the
    records derive from their fields. Every state that the store keeps as a
    free-text tag is a closed enumeration here. */
module Models {

  datatype Option<+T> = None | Some(value: T)

  /** Record identities: the position of the record in its table. */
  type TeamId = nat
  type PlayerId = nat
  type ClaimId = nat

  datatype TeamState = Pending | Alive | Dead
  datatype PlayerState = Alive | Dead
  datatype ClaimStatus = Pending | Approved | Rejected
  datatype Phase = Pre | Live | Post | Forced

  /** Timestamps are integer ticks of one second. */
  type Tick = int

  datatype Team = Team(name: string, state: TeamState, target: Option<TeamId>, eliminations: int)
  {
    predicate IsAlive() { state == TeamState.Alive }
    predicate IsPending() { state == TeamState.Pending }
    predicate IsDead() { state == TeamState.Dead }
  }

  /** The kill information a player's obituary records; its JSON text is abstracted away. */
  datatype Obituary = Obituary(round: int, killer: string, time: Tick)

  datatype Player = Player(name: string, team: TeamId, state: PlayerState, obituary: Option<Obituary>)
  {
    predicate IsAlive() { state == PlayerState.Alive }

    /** The stored obituary, or None when none was ever set. */
    function GetObituary(): Option<Obituary> { obituary }
  }

  datatype Claim = Claim(victim: PlayerId, attacker: PlayerId, killTime: Tick, round: int,
                         video: string, status: ClaimStatus, expiration: Tick)
  {
    predicate IsPending() { status == ClaimStatus.Pending }
    predicate IsApproved() { status == ClaimStatus.Approved }
    predicate IsRejected() { status == ClaimStatus.Rejected }
  }

  /** One juror's ballot: approve is true for approve, false for reject. */
  datatype Vote = Vote(claim: ClaimId, voter: PlayerId, approve: bool)

  datatype GameState = GameState(phase: Phase, round: int, threshold: int,
                                 roundStart: Option<Tick>, roundEnd: Option<Tick>)
  {
    predicate IsPre() { phase == Pre }
    predicate IsLive() { phase == Live }
    predicate IsPost() { phase == Post }
    predicate IsForced() { phase == Forced }
  }

  /** Default number of matching votes that decides a claim. */
  const DefaultThreshold: int := 3

  /** A team's players that are alive, in roster order. */
  function AlivePlayers(roster: seq<Player>): (r: seq<Player>)
    ensures |r| <= |roster|
    ensures forall p :: p in r <==> p in roster && p.IsAlive()
  {
    if roster == [] then []
    else (if roster[0].IsAlive() then [roster[0]] else []) + AlivePlayers(roster[1..])
  }

  /** No player of the roster is alive (vacuously true of an empty roster). */
  predicate AllDead(roster: seq<Player>)
  {
    forall i :: 0 <= i < |roster| ==> !roster[i].IsAlive()
  }

  lemma {:induction false} AllDeadIffNoAlivePlayers(roster: seq<Player>)
    ensures AllDead(roster) <==> AlivePlayers(roster) == []
  {
    if roster != [] {
      AllDeadIffNoAlivePlayers(roster[1..]);
      if roster[0].IsAlive() {
        assert !AllDead(roster);
      } else {
        assert AllDead(roster) <==> AllDead(roster[1..]) by {
          assert forall i :: 1 <= i < |roster| ==> roster[i] == roster[1..][i - 1];
        }
      }
    }
  }

  /** Filtering distributes over concatenation: together with the singleton
      cases this says AlivePlayers keeps exactly the alive players, in order. */
  lemma {:induction false} AlivePlayersAppend(a: seq<Player>, b: seq<Player>)
    ensures AlivePlayers(a + b) == AlivePlayers(a) + AlivePlayers(b)
  {
    if a != [] {
      assert (a + b)[1..] == a[1..] + b;
      AlivePlayersAppend(a[1..], b);
    } else {
      assert a + b == b;
    }
  }

  lemma {:induction false} AlivePlayersOfLiving(roster: seq<Player>)
    requires forall i :: 0 <= i < |roster| ==> roster[i].IsAlive()
    ensures AlivePlayers(roster) == roster
  {
    if roster != [] {
      AlivePlayersOfLiving(roster[1..]);
      assert [roster[0]] + roster[1..] == roster;
    }
  }

  function ApproveVotes(votes: seq<Vote>): nat
  {
    if votes == [] then 0 else (if votes[0].approve then 1 else 0) + ApproveVotes(votes[1..])
  }

  function RejectVotes(votes: seq<Vote>): nat
  {
    if votes == [] then 0 else (if votes[0].approve then 0 else 1) + RejectVotes(votes[1..])
  }

  /** Every vote is counted exactly once, as an approval or a rejection. */
  lemma {:induction false} TallyTotal(votes: seq<Vote>)
    ensures ApproveVotes(votes) + RejectVotes(votes) == |votes|
  {
    if votes != [] {
      TallyTotal(votes[1..]);
    }
  }

  /** Adding one ballot raises exactly one of the two tallies by one. */
  lemma {:induction false} TallyAppend(votes: seq<Vote>, v: Vote)
    ensures ApproveVotes(votes + [v]) == ApproveVotes(votes) + (if v.approve then 1 else 0)
    ensures RejectVotes(votes + [v]) == RejectVotes(votes) + (if v.approve then 0 else 1)
  {
    if votes == [] {
      assert votes + [v] == [v];
    } else {
      assert (votes + [v])[1..] == votes[1..] + [v];
      TallyAppend(votes[1..], v);
    }
  }

  /** A claim is in exactly one of its three states. */
  lemma ExactlyOneStatus(c: Claim)
    ensures (c.IsPending() && !c.IsApproved() && !c.IsRejected())
         || (!c.IsPending() && c.IsApproved() && !c.IsRejected())
         || (!c.IsPending() && !c.IsApproved() && c.IsRejected())
  {
  }
}

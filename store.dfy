/** The entity store: one table per record kind plus the single game-state
    record. A record's identity is its position in its table; only a full wipe
    ever deletes records, so identities never dangle. */
module Store {
  import opened Models

  /** Ascending indices below n that satisfy keep: a table scan with a filter. */
  function Where(n: nat, keep: nat -> bool): (r: seq<nat>)
    ensures forall i: nat {:trigger i in r} :: i in r <==> i < n && keep(i)
    ensures forall k :: 0 <= k < |r| ==> r[k] < n && keep(r[k])
    ensures forall j, k :: 0 <= j < k < |r| ==> r[j] < r[k]
    ensures |r| <= n
  {
    if n == 0 then []
    else
      var w := Where(n - 1, keep);
      assert forall k :: 0 <= k < |w| ==> w[k] < n - 1;
      w + (if keep(n - 1) then [n - 1] else [])
  }

  /** A scan keeps at least as many rows under a weaker filter. */
  lemma {:induction false} WhereMonotone(n: nat, p: nat -> bool, q: nat -> bool)
    requires forall i: nat :: i < n && p(i) ==> q(i)
    ensures |Where(n, p)| <= |Where(n, q)|
  {
    if n > 0 {
      WhereMonotone(n - 1, p, q);
    }
  }

  /** Filters that agree below n select the same rows. */
  lemma {:induction false} WhereSame(n: nat, p: nat -> bool, q: nat -> bool)
    requires forall i: nat :: i < n ==> (p(i) <==> q(i))
    ensures Where(n, p) == Where(n, q)
  {
    if n > 0 {
      WhereSame(n - 1, p, q);
    }
  }

  /** Admitting one more row, and changing nothing else, adds exactly one row to the scan. */
  lemma {:induction false} WhereFlip(n: nat, p: nat -> bool, q: nat -> bool, t: nat)
    requires t < n && !p(t) && q(t)
    requires forall i: nat :: i < n && i != t ==> (p(i) <==> q(i))
    ensures |Where(n, q)| == |Where(n, p)| + 1
  {
    if t == n - 1 {
      WhereSame(n - 1, p, q);
    } else {
      WhereFlip(n - 1, p, q, t);
    }
  }

  predicate Distinct<T(==)>(s: seq<T>)
  {
    forall j, k :: 0 <= j < k < |s| ==> s[j] != s[k]
  }

  /** The alive teams, in table order. */
  function AliveTeamIds(ts: seq<Team>): (r: seq<TeamId>)
    ensures forall t: nat {:trigger t in r} :: t in r <==> t < |ts| && ts[t].IsAlive()
    ensures forall k :: 0 <= k < |r| ==> r[k] < |ts| && ts[r[k]].IsAlive()
    ensures Distinct(r)
  {
    Where(|ts|, (i: nat) => i < |ts| && ts[i].IsAlive())
  }

  /** Number of alive teams. */
  function AliveCount(ts: seq<Team>): nat
  {
    |AliveTeamIds(ts)|
  }

  /** The identities of a team's players, in table order. */
  function RosterIds(ps: seq<Player>, t: TeamId): (r: seq<PlayerId>)
    ensures forall i: nat {:trigger i in r} :: i in r <==> i < |ps| && ps[i].team == t
    ensures forall k :: 0 <= k < |r| ==> r[k] < |ps| && ps[r[k]].team == t
    ensures Distinct(r)
  {
    Where(|ps|, (i: nat) => i < |ps| && ps[i].team == t)
  }

  /** A team's players, in table order. */
  function Roster(ps: seq<Player>, t: TeamId): seq<Player>
  {
    var ids := RosterIds(ps, t);
    seq(|ids|, k requires 0 <= k < |ids| => ps[ids[k]])
  }

  /** all_dead of team t, read off the player table directly. */
  lemma TeamAllDeadIff(ps: seq<Player>, t: TeamId)
    ensures AllDead(Roster(ps, t)) <==> forall i :: 0 <= i < |ps| && ps[i].team == t ==> !ps[i].IsAlive()
  {
    var ids := RosterIds(ps, t);
    var r := Roster(ps, t);
    if AllDead(r) {
      forall i | 0 <= i < |ps| && ps[i].team == t ensures !ps[i].IsAlive() {
        assert i in ids;
        var k :| 0 <= k < |ids| && ids[k] == i;
        assert r[k] == ps[i];
      }
    }
  }

  /** The votes cast on claim c, in table order. */
  function VotesOn(vs: seq<Vote>, c: ClaimId): (r: seq<Vote>)
    ensures forall v :: v in r <==> v in vs && v.claim == c
  {
    if vs == [] then []
    else VotesOn(vs[..|vs| - 1], c) + (if vs[|vs| - 1].claim == c then [vs[|vs| - 1]] else [])
  }

  /** VotesOn keeps every ballot on claim c as often as it was cast, and no other. */
  lemma {:induction false} VotesOnCounts(vs: seq<Vote>, c: ClaimId)
    ensures forall v :: multiset(VotesOn(vs, c))[v] == if v.claim == c then multiset(vs)[v] else 0
  {
    if vs != [] {
      VotesOnCounts(vs[..|vs| - 1], c);
      assert vs == vs[..|vs| - 1] + [vs[|vs| - 1]];
    }
  }

  /** Some vote on claim c was cast by voter. */
  predicate HasVoted(vs: seq<Vote>, c: ClaimId, voter: PlayerId)
  {
    exists k :: 0 <= k < |vs| && vs[k].claim == c && vs[k].voter == voter
  }

  /** A pending claim names this victim and this attacker. */
  predicate HasPendingClaim(cs: seq<Claim>, victim: PlayerId, attacker: PlayerId)
  {
    exists k :: 0 <= k < |cs| && cs[k].victim == victim && cs[k].attacker == attacker && cs[k].IsPending()
  }

  /** The whole store as one value. */
  datatype Db = Db(teams: seq<Team>, players: seq<Player>, claims: seq<Claim>,
                   votes: seq<Vote>, game: GameState)

  /** Referential integrity: every stored reference names an existing record. */
  predicate WellFormed(db: Db)
  {
    (forall i :: 0 <= i < |db.teams| && db.teams[i].target.Some? ==> db.teams[i].target.value < |db.teams|)
    && (forall i :: 0 <= i < |db.players| ==> db.players[i].team < |db.teams|)
    && (forall i :: 0 <= i < |db.claims| ==>
          db.claims[i].victim < |db.players| && db.claims[i].attacker < |db.players|)
    && (forall i :: 0 <= i < |db.votes| ==>
          db.votes[i].claim < |db.claims| && db.votes[i].voter < |db.players|)
  }

  class Store {
    var teams: seq<Team>
    var players: seq<Player>
    var claims: seq<Claim>
    var votes: seq<Vote>
    var game: GameState

    function Snapshot(): Db
      reads this
    {
      Db(teams, players, claims, votes, game)
    }

    ghost predicate Valid()
      reads this
    {
      WellFormed(Snapshot())
    }

    /** An empty store whose game record has its defaults. */
    constructor ()
      ensures Valid()
      ensures teams == [] && players == [] && claims == [] && votes == []
      ensures game == GameState(Pre, 0, DefaultThreshold, None, None)
    {
      teams, players, claims, votes := [], [], [], [];
      game := GameState(Pre, 0, DefaultThreshold, None, None);
    }

    /** Registers a team: pending, no target, no eliminations. */
    method AddTeam(name: string) returns (id: TeamId)
      requires Valid()
      modifies this
      ensures Valid()
      ensures id == |old(teams)|
      ensures teams == old(teams) + [Team(name, TeamState.Pending, None, 0)]
      ensures players == old(players) && claims == old(claims) && votes == old(votes) && game == old(game)
    {
      id := |teams|;
      teams := teams + [Team(name, TeamState.Pending, None, 0)];
    }

    /** Registers a player of an existing team: alive, without obituary. */
    method AddPlayer(name: string, team: TeamId) returns (id: PlayerId)
      requires Valid()
      requires team < |teams|
      modifies this
      ensures Valid()
      ensures id == |old(players)|
      ensures players == old(players) + [Player(name, team, PlayerState.Alive, None)]
      ensures teams == old(teams) && claims == old(claims) && votes == old(votes) && game == old(game)
    {
      id := |players|;
      players := players + [Player(name, team, PlayerState.Alive, None)];
    }

    /** Stores the obituary of a player and marks the player dead. */
    method SetObituary(pid: PlayerId, info: Obituary)
      requires Valid()
      requires pid < |players|
      modifies this
      ensures Valid()
      ensures |players| == |old(players)|
      ensures !players[pid].IsAlive() && players[pid].GetObituary() == Some(info)
      ensures players == old(players)[pid := old(players)[pid].(state := PlayerState.Dead, obituary := Some(info))]
      ensures teams == old(teams) && claims == old(claims) && votes == old(votes) && game == old(game)
    {
      players := players[pid := players[pid].(obituary := Some(info))];
      players := players[pid := players[pid].(state := PlayerState.Dead)];
    }
  }
}

# Senior Assassin game engine, modelled in Dafny

This project models the engine of a team-based "assassin" game. Teams register and are accepted
by an organiser. Once the game is live, every alive team is given another alive team as its
target, and the targets form a single shuffled cycle. A player who eliminates a member of the
target team submits a kill claim. Other players vote on the claim. When approvals reach the
voting threshold the kill is confirmed, and when rejections reach it the claim is rejected.
A claim that is past its 24-hour window is rejected when someone tries to vote on it. At each
round change after the first, every alive team whose target team is still alive is eliminated. The game ends
when exactly one team is left alive.

The organiser can:
- accept teams and move the game between the phases pre, live, post and forced;
- start rounds;
- toggle a team or a player between alive and dead;
- approve or reject a claim by hand;
- change the threshold;
- wipe the game.

The model has five modules.
- `Models` holds the records of the game store and their derived predicates: teams, players,
  kill claims, votes and the one game-state record.
- `Store` holds the store itself. The class `Store` has one `seq` field per table. A record's
  identity is its position in its table. `Db` is the whole store as one value, and
  `WellFormed` says that every stored reference names an existing record.
- `GameService` holds the round, target and kill-confirmation engine.
- `AdminService` holds the organiser's controls.
- `Invariants` holds one store-wide property, no player of a dead team is alive, and proves
  that every operation of the engine and of the organiser's controls keeps it.

Every operation that changes the store is a method taking the `Store` object. Its postcondition ties the new
store to a specification function of the old store (`StartRoundSpec`, `ConfirmedDb`,
`RecordVote`, `ToggledTeam`, …). The lemmas state what those functions guarantee. The loops of the
Python code (the target cycle, the three loops of round-end elimination, revival, and a team's
players being set dead or alive) are methods with loop invariants over sequences.

Three things become parameters:
- The wall clock is an integer tick `now`, in seconds.
- The standard library's `random.shuffle` is a Fisher–Yates pass driven by a parameter
  `draw: nat -> nat`, and the result is proved to be a permutation.
- A call that raises (looking up the target of an alive team that has none) is a `crashed`,
  `raised` or `Crashed` outcome. In that case the store is left exactly as it was, because the
  request's transaction is rolled back.

## Model

| member | source | states |
|---|---|---|
| Models.AlivePlayers | app/models.py:44-46 | the result is no longer than the roster and holds exactly the roster's alive players |
| Models.AlivePlayersAppend | app/models.py:44-46 | filtering distributes over concatenation, so the alive players keep their roster order |
| Models.AlivePlayersOfLiving | app/models.py:44-46 | a roster of alive players is its own alive-player list |
| Models.AllDead | app/models.py:48-50 | defines all_dead as "no player of the roster is alive"; AllDeadIffNoAlivePlayers proves it agrees with the alive-player list |
| Models.AllDeadIffNoAlivePlayers | app/models.py:48-50 | all_dead holds exactly when the alive-player list is empty, and vacuously for an empty team |
| Models.TallyTotal | app/models.py:125-131 | approvals plus rejections equal the number of votes |
| Models.ApproveVotes | app/models.py:125-127 | defines approve_votes as the number of approving ballots; TallyTotal and TallyAppend prove how it counts |
| Models.RejectVotes | app/models.py:129-131 | defines reject_votes as the number of rejecting ballots; TallyTotal and TallyAppend prove how it counts |
| Models.TallyAppend | app/models.py:125-131 | one more ballot raises exactly the tally of its kind by one |
| Models.ExactlyOneStatus | app/models.py:113-123 | exactly one of pending, approved and rejected holds of a claim |
| Store.Store.constructor | app/models.py:146-156 | a fresh store is empty, and its game record is in phase pre, at round 0, with threshold 3 and no round times |
| Store.Store.AddTeam | app/models.py:13-27 | a new team is pending, has no target and no eliminations, and is appended to the team table |
| Store.Store.AddPlayer | app/models.py:52-68 | a new player of an existing team is alive, has no obituary, and is appended to the player table |
| Store.Store.SetObituary | app/models.py:83-90 | the player is dead and get_obituary returns the stored record; nothing else changes |
| Store.AliveTeamIds | app/services/game_service.py:19 | exactly the alive teams, each once |
| Store.AliveCount | app/services/game_service.py:19-22 | defines `len(alive_teams)`, the number of alive teams; AliveCountSet, KillTeamsShrinks and WinCheckOutcome prove how operations move it |
| Store.RosterIds | app/models.py:26 | exactly the players of a team, each once |
| Store.Roster | app/models.py:26 | defines `team.players`, a team's players in table order; TeamAllDeadIff proves all_dead over it reads the player table directly |
| Store.TeamAllDeadIff | app/models.py:48-50 | all_dead of a team holds exactly when no player whose team it is, is alive |
| Store.VotesOn | app/models.py:108 | exactly the votes cast on a claim; VotesOnCounts proves each is kept as often as it was cast |
| Store.VotesOnCounts | app/models.py:108 | every ballot on the claim appears in the claim's vote list as many times as in the vote table, and no ballot on another claim appears |
| Store.HasVoted | app/services/game_service.py:228-233 | defines the existing-vote query of vote_on_kill; SecondVoteRefused proves a recorded ballot makes it hold |
| Store.HasPendingClaim | app/services/game_service.py:146-153 | defines the duplicate-claim query of submit_kill; SubmitTwiceRefused proves an accepted claim makes it hold |
| GameService.Shuffle | app/services/game_service.py:26 | the shuffle is a permutation: same multiset, same length, same members, and still duplicate-free |
| GameService.TargetOrder | app/services/game_service.py:18-26 | the shuffled order holds each alive team exactly once and nothing else |
| GameService.SuccIsMod | app/services/game_service.py:31 | the next position in the cycle is (i + 1) mod n |
| GameService.LinkCycle | app/services/game_service.py:29-32 | the loop gives each team in the order the next team in the order as target, the last one the first, and changes no other team |
| GameService.CycleTargets | app/services/game_service.py:29-32 | defines the teams after the linking loop over a given order; CycleTargetsAssigned and CycleAssignedUnique prove it is exactly the successor linking |
| GameService.AssignedTeams | app/services/game_service.py:18-32 | defines the teams after assign_targets: nothing changes below two alive teams, else the cycle over the shuffled order; AssignedTargetsAlive, AssignedHunterUnique and AssignedTeamsSingleCycle prove it forms one hunt cycle |
| GameService.AssignedTargets | app/services/game_service.py:25-32 | the shuffle followed by the loop produces exactly the assigned-teams specification |
| GameService.CycleTargetsAssigned | app/services/game_service.py:29-32 | the cycle specification assigns each team in the order its successor in the order |
| GameService.CycleAssignedUnique | app/services/game_service.py:29-32 | any assignment with that property is the cycle specification |
| GameService.AssignTargets | app/services/game_service.py:11-45 | returns True exactly when at least two teams are alive; with fewer, nothing changes; otherwise the teams become the cycle over the shuffled alive teams, and no other table or the game record changes |
| GameService.AssignedIsCycle | app/services/game_service.py:18-32 | with two or more teams alive, the assignment is a cycle over an order holding exactly the alive teams |
| GameService.AssignedTargetsInRange | app/services/game_service.py:29-32 | every target set names an existing team |
| GameService.AssignedTeamsKeepFields | app/services/game_service.py:29-32 | only targets change, and only those of alive teams |
| GameService.AssignedTargetsAlive | app/services/game_service.py:29-32 | every alive team targets an alive team other than itself |
| GameService.AssignedHunterExists | app/services/game_service.py:29-32 | every alive team is targeted by some alive team |
| GameService.AssignedHunterUnique | app/services/game_service.py:29-32 | no two alive teams share a target, so every alive team has exactly one hunter |
| GameService.RingHops | app/services/game_service.py:29-32 | in a ring, k hops from the first team reach the k-th team, and n hops come back to the start |
| GameService.AssignedTeamsSingleCycle | app/services/game_service.py:29-32 | from the first team of the shuffled order, k hops reach its k-th team for every k below the number of alive teams, and that many hops return to the start: one cycle through all alive teams |
| GameService.CollectDoomed | app/services/game_service.py:59-66 | the first loop raises exactly when an alive team has no target; otherwise it lists exactly the alive teams whose target is alive, and exactly their players |
| GameService.Doomed | app/services/game_service.py:59-66 | defines which teams kill_teams eliminates: alive, with an alive target; KillTeamsOutcome proves exactly these die |
| GameService.MissingTarget | app/services/game_service.py:59-61 | defines when kill_teams raises: an alive team has no target; KillTeams and StartRoundCrash prove the store is then unchanged |
| GameService.KilledTeams | app/services/game_service.py:59-77 | defines the team table after elimination, decided from the states before any change; KillTeamsOutcome and KillTeamsShrinks prove who survives and that the alive count cannot rise |
| GameService.KilledPlayers | app/services/game_service.py:59-81 | defines the player table after elimination: every player of an eliminated team dead; KillTeamsOutcome proves it |
| GameService.MarkTeamsDead | app/services/game_service.py:69-77 | exactly the listed teams become dead, and nothing else changes |
| GameService.MarkPlayersDead | app/services/game_service.py:80-81 | exactly the listed players become dead, and nothing else changes |
| GameService.KillTeams | app/services/game_service.py:48-84 | raises, with the store unchanged, exactly when an alive team has no target; otherwise it sets the round start and eliminates, from the states before any change, every alive team whose target is alive, together with its players |
| GameService.KillTeamsOutcome | app/services/game_service.py:59-81 | a team survives exactly when it was alive and its target was not; every player of an eliminated team is dead |
| GameService.KillTeamsShrinks | app/services/game_service.py:59-81 | elimination never raises the number of alive teams |
| GameService.KillTeamsAfterQuietRound | app/services/game_service.py:59-81 | with two or more teams alive, elimination applied directly to the assigned targets (no kill confirmed in between) leaves no team alive |
| GameService.IncrementRounds | app/services/game_service.py:87-90 | the round number rises by one and the round start is set; nothing else changes |
| GameService.ReviveTeam | app/services/game_service.py:96-99 | every dead player of the team is alive again, and no other player changes |
| GameService.RevivedPlayers | app/services/game_service.py:93-99 | defines the player table after revive_players: exactly the players of alive teams made alive; RevivePlayers and StartRoundStarted prove every player of an alive team ends alive |
| GameService.RevivePlayers | app/services/game_service.py:93-110 | exactly the players of alive teams are made alive, and nothing else changes |
| GameService.WinCheckOutcome | app/services/game_service.py:333-371 | only the phase can change, and only from live to post, exactly when one team is alive; that team is the unique winner |
| GameService.Decided | app/services/game_service.py:344-351 | defines the win condition: the game is live and exactly one team is alive; WinCheckOutcome proves that team is the unique winner |
| GameService.AfterWinCheck | app/services/game_service.py:344-371 | defines the game record after check_game_complete; WinCheckOutcome proves only the phase moves, and only from live to post |
| GameService.CheckGameComplete | app/services/game_service.py:333-371 | returns True exactly when the game is live with exactly one team alive, and then sets the phase to post; otherwise nothing changes |
| GameService.ConfirmKillOutcome | app/services/game_service.py:282-331 | the victim is dead with the obituary stored; the attacker's team gains exactly one elimination; the victim's team becomes dead exactly when none of its players is alive, and otherwise keeps its state; no other player or team changes; the alive count does not rise |
| GameService.ConfirmedDbWellFormed | app/services/game_service.py:282-331 | a confirmed kill keeps the store's references valid |
| GameService.ConfirmKill | app/services/game_service.py:282-331 | the store becomes the confirmed-kill specification, including the win check that follows |
| GameService.ConfirmedPlayers | app/services/game_service.py:294-305 | defines the player table after confirm_kill: the victim dead, with the obituary of round, attacker name and kill time; ConfirmKillOutcome proves no other player changes |
| GameService.ConfirmedTeams | app/services/game_service.py:307-314 | defines the team table after confirm_kill: one more elimination for the attacker's team, and the victim's team dead once its roster is all dead; ConfirmKillOutcome proves it |
| GameService.ConfirmedDb | app/services/game_service.py:294-329 | defines the whole store after confirm_kill, win check included; ConfirmKillOutcome and ConfirmedDbWellFormed prove what changes and that references stay valid |
| GameService.SubmitKill | app/services/game_service.py:112-182 | a claim is created exactly when both players exist and are alive, the attacker's team targets the victim's team, and no pending claim names the same victim and attacker; the new claim is pending, carries the current round and expires 24 hours after now; otherwise nothing changes |
| GameService.SubmitTwiceRefused | app/services/game_service.py:146-153 | once a claim is accepted, the same submission is refused |
| GameService.SubmitAllowed | app/services/game_service.py:132-153 | defines when submit_kill accepts: both players exist and are alive, the attacker's team targets the victim's team, no pending duplicate; SubmitKill proves a claim is created exactly then |
| GameService.NewClaim | app/services/game_service.py:155-163 | defines the created claim: pending, in the current round, expiring 24 hours after now; SubmitKill proves it is the one row appended |
| GameService.VoteRefusal | app/services/game_service.py:200-234 | the first failing check, in the order vote_on_kill tests them, is one of the five refusals |
| GameService.SetStatus | app/services/game_service.py:260-267 | defines the status write of a claim, as in the quorum branches, the expiry rejection and the hand decision; RecordVoteQuorum and ForcedIsFinal prove the resulting status |
| GameService.VoteOnKill | app/services/game_service.py:184-280 | a ballot is admitted exactly when no check fails. A refusal returns the first failing check; an expired claim is rejected and no vote is recorded; any other refusal changes nothing. An admitted ballot gives the quorum outcome |
| GameService.CastBallot | app/services/game_service.py:236-270 | the ballot is recorded and counted, and the message and new store follow the quorum rule |
| GameService.TallyWith | app/services/game_service.py:257-259 | defines the tally read after the flush; TallyWithCounts proves it is the old tally plus this ballot |
| GameService.RecordVote | app/services/game_service.py:236-270 | defines the store after an admitted ballot, the quorum rule included; RecordVoteQuorum, RecordVoteKeepsStore and SecondVoteRefused prove what it does |
| GameService.VoteMessage | app/services/game_service.py:258-270 | defines the message returned after an admitted ballot; CastBallot proves it is the message the quorum rule picks |
| GameService.TallyWithCounts | app/services/game_service.py:257-259 | the recount after the flush is the old tally plus this ballot |
| GameService.RecordVoteKeepsStore | app/services/game_service.py:236-270 | the ballot is appended, the store stays well formed, and no other claim changes |
| GameService.RecordVoteQuorum | app/services/game_service.py:258-270 | approved exactly when approvals reach the threshold; rejected exactly when they do not and rejections do; unchanged otherwise; only an approval touches teams, players or the game record |
| GameService.SecondVoteRefused | app/services/game_service.py:227-234 | after an admitted ballot, the same juror's next ballot on that claim is refused |
| GameService.VotableClaims | app/services/game_service.py:373-396 | exactly the pending claims the voter has not voted on, does not appear in, and that expire after now, each once |
| GameService.VotableClaimsAdmitVote | app/services/game_service.py:373-396 | every listed claim admits the voter's ballot |
| GameService.ExpiryBoundary | app/services/game_service.py:208 | a claim whose expiry equals now is not listed, yet a ballot on it is admitted |
| GameService.Rows | app/services/game_service.py:413-424 | defines a team's player rows: id, name and state of each of its players, in table order |
| GameService.Standings | app/services/game_service.py:409-426 | defines one standing per team, in table order; Leaderboard proves the result is a sorted permutation of them |
| GameService.Rank | app/services/game_service.py:431-434 | defines the sort key: alive before not alive, then more eliminations first; SortByRank and SortByRankStable prove the sort follows it |
| GameService.InsertByRank | app/services/game_service.py:431-434 | insertion adds exactly the one entry |
| GameService.InsertByRankSorted | app/services/game_service.py:431-434 | inserting into a sorted list keeps it sorted |
| GameService.SortByRank | app/services/game_service.py:431-434 | the sort is a permutation, and alive teams come first, then more eliminations first |
| GameService.InsertByRankStable | app/services/game_service.py:431-434 | insertion places the new entry before the existing entries of the same key |
| GameService.SortByRankStable | app/services/game_service.py:431-434 | the sort is stable: entries with equal keys keep their table order |
| GameService.Leaderboard | app/services/game_service.py:398-436 | every team's standing appears once, sorted by the key |
| AdminService.StartRound | app/services/admin_service.py:300-341 | the outcome and the new store are the start-round specification: elimination unless round is 0, then the win check, then assignment, the optional increment and revival |
| AdminService.KilledDb | app/services/admin_service.py:314-317 | defines the store after kill_teams when it does not raise; KillTeamsOutcome and KillTeamsKeepsInvariant prove what it does |
| AdminService.NewRoundDb | app/services/admin_service.py:322-329 | defines assignment, the optional increment and revival; StartRoundStarted proves the new round's guarantees |
| AdminService.StartRoundSpec | app/services/admin_service.py:300-341 | defines start_round: elimination unless round is 0, the win check, then a new round; StartRoundCrash, StartRoundGameOver and StartRoundStarted prove each outcome |
| AdminService.StartRoundCrash | app/services/admin_service.py:314-317 | a round change fails exactly when the round is not 0 and an alive team has no target, and it then leaves the store as it was |
| AdminService.FirstRoundKillsNobody | app/services/admin_service.py:314-315 | before the first round nothing fails and no team changes state |
| AdminService.StartRoundGameOver | app/services/admin_service.py:320 | when the win check ends the game, the phase is post, exactly one team is alive, and the round number and targets stay |
| AdminService.AssignedTeamsHunt | app/services/admin_service.py:322 | assignment keeps the alive count, and every alive team hunts another alive team |
| AdminService.StartRoundStarted | app/services/admin_service.py:320-341 | a started round keeps the phase, raises the round number by exactly 1 exactly when asked, leaves every player of an alive team alive, and gives every alive team an alive target other than itself |
| AdminService.QuietRoundEliminatesAll | app/services/admin_service.py:314-322 | if no kill is confirmed during a round, the next round change eliminates every team, and the game stays live with no winner |
| AdminService.ParsePhase | app/services/admin_service.py:263-264 | exactly the four phase names are accepted, each read back to its own phase |
| AdminService.PhaseName | app/models.py:150 | defines the stored names of the four phases; ParsePhase proves every name reads back to its own phase |
| AdminService.ChangeGameState | app/services/admin_service.py:252-297 | an unknown phase name is refused with nothing changed; otherwise the store becomes the state-change specification, and a failing round start rolls the whole change back |
| AdminService.StateChange | app/services/admin_service.py:262-281 | defines the store after change_game_state, None when the round change raises; StateChangeSetsPhase and GoLiveStartsRoundOne prove what each change does |
| AdminService.StateChangeSetsPhase | app/services/admin_service.py:271-281 | every change other than pre to live only sets the phase, because the win check after a change to post finds the game no longer live |
| AdminService.GoLiveStartsRoundOne | app/services/admin_service.py:274-276 | going live from a fresh game starts round 1, with every alive team holding an alive target, or ends the game at once when one team is alive |
| AdminService.AcceptTeam | app/services/admin_service.py:210-249 | succeeds exactly when the game is in pre and the team is pending, and then makes only that team alive; otherwise nothing changes |
| AdminService.CanAccept | app/services/admin_service.py:223-231 | defines when accept_team succeeds: the game is in pre and the team is pending |
| AdminService.Accepted | app/services/admin_service.py:232-233 | defines the store after acceptance; AcceptTeamOutcome proves the alive count rises by one and acceptance cannot be repeated |
| AdminService.AcceptTeamOutcome | app/services/admin_service.py:224-233 | acceptance adds exactly one to the alive count and cannot be repeated |
| AdminService.SetRosterState | app/services/admin_service.py:404-412 | the loop sets exactly the team's players to the given state |
| AdminService.WithRosterState | app/services/admin_service.py:404-412 | defines every player of the team set to one state; SetRosterState proves the loop computes it |
| AdminService.ToggledTeam | app/services/admin_service.py:399-412 | defines toggle_team_state: an alive team dies with its players, any other team comes alive with them; ToggleTeamOutcome and ToggleTeamTwice prove it |
| AdminService.ToggleTeamState | app/services/admin_service.py:383-428 | refused for a missing team; otherwise the store becomes the toggled-team specification |
| AdminService.ToggleTeamOutcome | app/services/admin_service.py:399-412 | an alive team becomes dead and any other team alive; the alive count moves by one; every player of the team ends in the team's new state; nothing else changes |
| AdminService.ToggleTeamTwice | app/services/admin_service.py:399-412 | toggling twice restores an alive or dead team, and its players all end in its state |
| AdminService.ToggledPlayer | app/services/admin_service.py:447-461 | the toggled store is well formed and keeps its players |
| AdminService.TogglePlayerState | app/services/admin_service.py:431-477 | refused for a missing player; otherwise the store becomes the toggled-player specification |
| AdminService.TogglePlayerOutcome | app/services/admin_service.py:447-461 | the player's state flips. A revived player's team is alive. A killed player's team becomes dead exactly when none of its players is alive, and otherwise is unchanged. Nothing else changes |
| AdminService.TogglePlayerTwice | app/services/admin_service.py:447-461 | toggling a player twice restores every player |
| AdminService.ForceVoteDecision | app/services/admin_service.py:480-519 | refused for a missing or decided claim; otherwise the claim is approved or rejected as asked, and an approval confirms the kill |
| AdminService.CanForce | app/services/admin_service.py:492-494 | defines when a hand decision is allowed: the claim exists and is pending |
| AdminService.ForcedDb | app/services/admin_service.py:496-502 | defines the store after a hand decision; ForcedIsFinal and ForcedApprovalIsQuorum prove it is final and matches a quorum approval |
| AdminService.ForcedIsFinal | app/services/admin_service.py:493-502 | the claim is approved exactly when the decision says so, and neither a second decision nor any ballot on it is admitted afterwards |
| AdminService.ForcedApprovalIsQuorum | app/services/admin_service.py:497-502 | a hand approval changes the store exactly as a quorum of approvals does |
| AdminService.WipeGame | app/services/admin_service.py:144-207 | the store becomes the wiped store |
| AdminService.Wiped | app/services/admin_service.py:157-175 | defines the wiped store; WipeGameOutcome proves it is empty, well formed and a fixed point |
| AdminService.WipeGameOutcome | app/services/admin_service.py:157-175 | all four tables are empty; the game record is a fresh one except that the threshold is kept; the store is well formed; wiping again changes nothing |
| AdminService.UpdateVotingThreshold | app/services/admin_service.py:102-141 | only the threshold changes, to the given value |
| AdminService.NonPositiveThresholdConfirmsAnyBallot | app/services/admin_service.py:120-121 | because the threshold is not validated, with a threshold of 0 or less even a rejecting ballot confirms the kill |
| Invariants.KillTeamsKeepsInvariant | app/services/game_service.py:59-81 | round-end elimination keeps every player of a dead team dead |
| Invariants.NewRoundKeepsInvariant | app/services/admin_service.py:322-329 | assignment, increment and revival keep it |
| Invariants.StartRoundKeepsInvariant | app/services/admin_service.py:300-341 | a whole round change keeps it |
| Invariants.ConfirmKillKeepsInvariant | app/services/game_service.py:297-314 | a confirmed kill keeps it |
| Invariants.SubmitKillKeepsInvariant | app/services/game_service.py:155-163 | a submitted claim keeps it |
| Invariants.VoteExpiryKeepsInvariant | app/services/game_service.py:207-210 | rejecting an expired claim keeps it |
| Invariants.RecordVoteKeepsInvariant | app/services/game_service.py:236-270 | an admitted ballot keeps it |
| Invariants.StateChangeKeepsInvariant | app/services/admin_service.py:252-297 | a phase change keeps it |
| Invariants.AcceptTeamKeepsInvariant | app/services/admin_service.py:224-233 | accepting a team keeps it |
| Invariants.ToggleTeamKeepsInvariant | app/services/admin_service.py:399-412 | toggling a team keeps it |
| Invariants.TogglePlayerKeepsInvariant | app/services/admin_service.py:447-461 | toggling a player keeps it |
| Invariants.ForceVoteKeepsInvariant | app/services/admin_service.py:493-502 | a hand decision keeps it |
| Invariants.WinCheckKeepsInvariant | app/services/game_service.py:344-371 | the win check keeps it |
| Invariants.WipeGameKeepsInvariant | app/services/admin_service.py:157-175 | a wiped store satisfies it |
| Invariants.UpdateThresholdKeepsInvariant | app/services/admin_service.py:120-121 | a threshold change keeps it |

## Left out

- Email, SMS and Instagram notifications, the ActionLog table and logger calls are left out. They are side channels that the engine never reads.
- The scheduler jobs that start and end rounds on a timer call start_round. `AdminService.StartRound` models that call, with `increment` false for the start job and true for the end job. Left out are when the jobs fire and the end job's guard that returns unless the game is live (app/services/game_service.py:516-517), because they are timing and concurrency.
- set_round_schedule (app/services/admin_service.py:344-380) is left out. It only sets the round start and end times and then reschedules the jobs.
- Deleting the uploaded videos in wipe_game is left out, because it is filesystem I/O.
- Database backups, raw SQL commands and admin password checks are left out. They are foreign calls and do not belong to the engine.
- The dashboard counts (app/services/admin_service.py:37-50) are left out. They are read-only count queries outside the engine. The database file size it reports (app/services/admin_service.py:53-57) is file-system I/O.
- `Store.Store.constructor` seeds the game record with the default threshold of 3. The application seeds it from the configured voting threshold (app/config.py:16, read from the environment), which is not part of this model. No property depends on the value.
- The organiser route's check that the threshold is at least 1 is not part of this model.
- The signup flow is not part of this model. Teams and players enter only through `Store.AddTeam` and `Store.AddPlayer`.
- `Invariants.DeadTeamsHaveNoAlivePlayers` is proved for round changes, kill confirmation, claim submission, ballots (the expiry rejection included), the win check, phase changes, acceptance, both toggles, hand decisions, wipes and threshold changes. It is not proved for registration: `Store.AddPlayer` can add an alive player to a dead team.
- The game-state record is assumed always to exist. Two consequences follow:
  - update_voting_threshold's False return, for a missing record, is not modelled;
  - wipe_game's guard around the reset is not modelled.
- The exception handlers of update_voting_threshold and wipe_game only roll back and return False. Nothing in the modelled store can raise there, so they are not modelled.
- Identities are table positions, not UUID strings. A lookup of a missing id is an index at or past the end of its table.
- The obituary's JSON text is an abstract `Obituary` record. Its time is a tick, not an ISO string.
- Timestamps are whole seconds, and `now` is a parameter.
- `random.shuffle` is a Fisher–Yates pass whose choices come from the `draw` parameter. Which permutations the standard generator actually produces is not modelled.
- `GameService.VoteOnKill` assumes that the claim's vote list, read after the flush, includes the ballot just added.
- `GameService.KillTeams`, `AdminService.StartRound` and `AdminService.ChangeGameState` do not model which other effects an exception would leave behind. A raised call is modelled as a fully rolled-back request.
- The round-end rule follows the code: a team dies when its target team is still alive. No rule per eliminated player is modelled, because none appears in the code.
- The duplicate-claim check follows the code: it is keyed on the (victim, attacker) pair, not on the victim alone.
- The claim listing follows the code: it does not expire or reject claims itself. It only leaves out those whose expiry is not after now.

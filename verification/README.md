# fbsim-core in Dafny

A model of the deterministic core of fbsim-core, an American-football game
and league simulator written in Rust. The model covers two halves of the
program.

The game side:

- team attributes, coaches and their validators;
- the game context (`GameContext`): score, down, distance, yard line,
  quarter, clock, timeouts and possession, with every `next_*`
  transition;
- the situational predicates of the play context;
- the results of each play type, with their validators, net yards,
  turnovers, scoring and follow-up flags;
- the pause between plays;
- drive classification and the statistics of drives and games;
- final scores and the score-frequency table.

The league side:

- conferences and divisions;
- weeks and season matchups, with their results;
- the season validator, its admission rules and the simulator guards;
- the round-robin (circle method) and structured schedule generators,
  including week packing;
- standings and playoff-field selection;
- playoff teams and seeding;
- bracket arithmetic (first-round size, wild cards, byes), round
  generation and completion;
- the playoff picture: clinching, elimination, magic number and games
  back;
- the league: team admission, season rollover and season lookup.

Everything is modelled as immutable datatypes and pure functions. Each
`*Raw::validate` becomes a function that returns a `Result`, and each
`try_from` is the validator followed by a copy of the fields. A panic
(`unwrap`, an index out of range, an unsigned underflow) becomes an `Err`.
Randomness is always an input:

- a coin flip is a `bool` or a `nat -> bool` parameter;
- a shuffle is an arbitrary permutation;
- a random play is an arbitrary play result;
- the game simulation in the season simulators is an arbitrary step
  function.

Integer fields are `nat` for Rust's unsigned types and `int` for signed
ones. Floating-point win percentages are compared exactly, by
cross-multiplication. Games back are exact rationals (`real`). The
averages of the attributes are integer floor divisions, which is what the
`f32` code computes for values in range.

Where files of the program disagree, each file's own meaning is kept:

- divisions are a sequence indexed by position;
- a matchup is complete when its context says the game is over;
- calls that the season code makes to methods that do not exist
  (`gen_next_round`, `add_division(i, d)`, `matchup.complete()`) are read
  as the nearest existing method.

## Model

| member | source | states |
|---|---|---|
| Attributes.CheckAttributes | src/team/offense.rs:27-110 | attributes are checked in declaration order; the result is Ok exactly when every value is at most 100, and otherwise names the first attribute out of range with its value |
| Attributes.FirstAttributeReported | src/team/offense.rs:27-40 | when the first attribute is out of range, it is the one reported, whatever follows |
| Coach.Validate | src/team/coach.rs:21-48 | Ok exactly when risk taking, run-pass and up-tempo are all at most 100; the first failing one, in that order, is reported by name and value |
| Coach.TryFrom | src/team/coach.rs:65-80 | conversion from the raw coach succeeds exactly on valid input, keeps every field, and passes the validator's message through |
| Coach.Build | src/team/coach.rs:276-283 | the builder succeeds exactly when all three tendencies are at most 100 and then yields a coach with the requested values |
| Coach.DefaultBuilds | src/team/coach.rs:94-124 | the default coach (50/50/50) is valid and the builder accepts it and partial overrides of it |
| Offense.Validate | src/team/offense.rs:27-110 | Ok exactly when all ten offensive attributes are at most 100; otherwise the first out-of-range attribute in declaration order is named |
| Offense.ValidIsAllInRange | src/team/offense.rs:27-110 | the offense's validity predicate agrees with the shared per-attribute range check |
| Offense.TryFrom | src/team/offense.rs:134-156 | raw-to-offense conversion succeeds exactly on valid input and keeps the values |
| Offense.FromOverall | src/team/offense.rs:219-233 | every attribute set to one value x: Ok with overall x when x <= 100, else the passing attribute is reported out of range |
| Offense.Overall | src/team/offense.rs:245-254 | the overall rating of a valid offense is at most 100 |
| Offense.OverallBetween | src/team/offense.rs:245-254 | the overall (integer mean of the ten attributes) lies between the least and the greatest attribute |
| Offense.Build | src/team/offense.rs:644-658 | the builder succeeds exactly when validation does, returning the values set |
| Offense.DefaultIsValid | src/team/offense.rs:170-207 | the default offense is valid, its overall is 50, and the builder accepts it |
| Defense.Validate | src/team/defense.rs:24-75 | Ok exactly when all six defensive attributes are at most 100; otherwise the first out-of-range attribute in declaration order is named |
| Defense.ValidIsAllInRange | src/team/defense.rs:24-75 | the defense's validity predicate agrees with the shared per-attribute range check |
| Defense.TryFrom | src/team/defense.rs:95-113 | raw-to-defense conversion succeeds exactly on valid input and keeps the values |
| Defense.FromOverall | src/team/defense.rs:172-182 | every attribute set to x: Ok with overall x when x <= 100, else blitzing is reported out of range |
| Defense.Overall | src/team/defense.rs:194-201 | the overall rating of a valid defense is at most 100 |
| Defense.OverallBetween | src/team/defense.rs:194-201 | the overall (integer mean of the six attributes) lies between the least and the greatest attribute |
| Defense.Build | src/team/defense.rs:455-465 | the builder succeeds exactly when validation does, returning the values set |
| Defense.DefaultIsValid | src/team/defense.rs:158-160 | the default defense is valid, its overall is 50, and the builder accepts it |
| Team.Validate | src/team.rs:36-57 | a team is valid exactly when its name has at most 64 and its short name at most 4 characters; the name is checked first and each failure message carries the offending name |
| Team.TryFrom | src/team.rs:76-93 | raw-to-team conversion succeeds exactly on valid input and keeps every field |
| Team.New | src/team.rs:206-214 | the default team is valid, has the default names, and its offense and defense overalls are both 50 |
| Team.FromOveralls | src/team.rs:225-237 | an offense overall above 100 is refused first, then a defense overall above 100; otherwise the team has the given names, the default coach and exactly the requested overalls |
| Team.FromOverallsRoundTrip | src/team.rs:225-237 | building from overalls 25 and 75 and reading the overalls back gives 25 and 75 |
| Team.FromOverallsSkipsNameCheck | src/team.rs:225-237 | from_overalls does not check the name length, so it can return a team its own validator refuses |
| Team.FromProperties | src/team.rs:254-262 | the team holds exactly the names, coach, offense and defense it was given |
| FinalScore.Validate | src/game/score.rs:68-87 | a final score is valid exactly when both team names have at most 64 characters; the home name is checked first |
| FinalScore.TryFrom | src/game/score.rs:105-121 | raw-to-score conversion succeeds exactly on valid input, keeps the fields, and passes the validator's message through |
| FinalScore.Build | src/game/score.rs:346-354 | the builder succeeds exactly on valid names and keeps the four fields set |
| ScoreFrequency.Insert | src/game/score/freq.rs:17-21 | after inserting, the score maps to the given frequency and every other entry is unchanged |
| ScoreFrequency.Create | src/game/score/freq.rs:24-88 | every score of the historical table maps to its observed frequency; entries above the table are kept |
| ScoreFrequency.Frequency | src/game/score/freq.rs:91-96 | a known score gives its frequency and an unknown one gives 1; the lookup never fails |
| ScoreFrequency.CreatedTableFrequencies | src/game/score/freq.rs:24-96 | after `create`, score 0 has frequency 443, score 1 has 0, table scores read back their table entry and all others read 1 |
| ScoreFrequency.InsertThenFrequency | src/game/score/freq.rs:17-96 | reading back an inserted score gives the inserted frequency; other scores read as before |
| Records.IncrementWins | src/league/matchup.rs:88-90 | adding n wins adds n to the games played and leaves losses and ties alone |
| Records.IncrementLosses | src/league/matchup.rs:117-119 | adding n losses adds n to the games played and leaves wins and ties alone |
| Records.IncrementTies | src/league/matchup.rs:146-148 | adding n ties adds n to the games played and leaves wins and losses alone |
| Records.NewRecordIsIdentity | src/league/matchup.rs:55-61 | the 0-0-0 record changes nothing when added on either side |
| Records.SumAppend | src/league/matchup.rs:207-220 | the total of the per-season records does not depend on how the seasons are grouped: summing a concatenation adds the two sums |
| Records.SumGames | src/league/matchup.rs:207-220 | the games in the total record are the sum of the games in each season's record |
| Stats.IncrementRushingYards | src/game/stat.rs:141-143 | the rushing yards change by exactly the signed amount given; the other rushing counters stay |
| Stats.IncrementTargets | src/game/stat.rs:432-434 | targets grow by the given count; every other receiving counter stays |
| Stats.NewStatsAreZero | src/game/stat.rs:29-31 | new rushing, passing and receiving records have every counter at zero |
| Stats.ReceivingIncrementsCompose | src/game/stat.rs:432-546 | receiving increments add up, commute across counters, and a yardage change undone by its negation restores the record |
| Context.Validate | src/game/context.rs:48-222 | Ok exactly on a consistent game state (short names, quarter and clock, down and distance, ball on the field, distance within the goal line, flag combinations); a long home short name is the first failure reported, and a distance past the goal line is reported only once the clock and the yard line have passed |
| Context.ValidateReportsFirstFailure | src/game/context.rs:48-222 | the checks run in the source's order: the reported check fails and every check before it passes |
| Context.TryFrom | src/game/context.rs:323-360 | raw-to-context conversion succeeds exactly on valid input, keeps every field, and passes the validator's error through: the first failing check in the source's order, every earlier one passing |
| Context.DefaultIsValid | src/game/context.rs:280-318 | the default context (kickoff at the 35, first quarter, 1800 seconds) is valid and unstarted, with 65 yards to a touchdown and 35 to a safety |
| Context.GoalLinesApart | src/game/context.rs:851-886 | the two goal lines are always 100 yards apart, and in a valid context the ball is between them |
| Context.SidesPartition | src/game/context.rs:764-850 | offense and defense timeouts are the two teams' timeouts; at most one side has the home advantage, none at a neutral site, exactly one elsewhere |
| Context.Clock | src/game/context.rs:951-960 | the clock after a play never exceeds the clock before it, and runs out exactly when the play lasts at least the time left |
| Context.ScoresCredited | src/game/context.rs:891-918 | the offense's points go to the team in possession, the defense's to the other team, and the total grows by exactly both |
| Context.NextHalfSeconds | src/game/context.rs:951-981 | the next clock is the run-down clock or one of the turnover values 0, 600, 900 or 1800, and never exceeds 1800 |
| Context.NextQuarter | src/game/context.rs:1038-1054 | the quarter stays or advances by one, and a touchdown never ends a quarter before its try |
| Context.NextDown | src/game/context.rs:1095-1145 | the down never exceeds 4; it only advances, by one, on a play without a turnover that falls short of the line to gain; it is 0 when the half ends or a try follows |
| Context.NextYardLine | src/game/context.rs:1209-1307 | the next spot is on the field, and a half that ends puts the ball at the 35 or the 65 for the kickoff |
| Context.NextHomeTimeouts | src/game/context.rs:1390-1405 | home timeouts reset to 3 at the end of a half; otherwise they drop by at most one, and only for a timeout home called (offense's when home has the ball, defense's otherwise) |
| Context.NextAwayTimeouts | src/game/context.rs:1419-1431 | away timeouts reset to 3 at the end of a half and otherwise drop by at most one; the rule is written as the source has it, charging away for an offensive timeout whoever has the ball |
| Context.NextAwayTimeoutsCorrected | src/game/context.rs:1419-1431 | the corrected away rule: away is charged only for a timeout it called |
| Context.TimeoutsSymmetric | src/game/context.rs:1390-1431 | with the correction, the away rule is the home rule with the teams exchanged, in both directions |
| Context.HomeOffenseTimeoutChargesAway | src/game/context.rs:1419-1431 | as written, an offensive timeout called by home (in possession) costs both teams a timeout |
| Context.CapDistance | src/game/context.rs:1322-1376 | corrected: the source sets no cap here; the corrected transition cuts the distance back to the yards left to the goal line when it exceeds them, and otherwise keeps it |
| Context.OptionsFrom | src/game/context.rs:1434-1460 | the update options carry the play's duration and net yards, and a kickoff out of bounds exactly when both flags are set |
| Context.NextContext | src/game/context.rs:1434-1494 | `next_context` yields the assembled next state exactly when that state passes validation (the source unwraps it) |
| PlayContext.From | src/game/play/context.rs:37-77 | the play caller's view: the score margin and timeouts from the side of the team with the ball, the spot measured from its own goal line (100 minus the yards to a touchdown), the clock and the down copied |
| PlayContext.FromIgnoresTeams | src/game/play/context.rs:37-77 | the view depends only on which side has the ball, not on which team is home |
| PlayContext.ClockManagementSides | src/game/play/context.rs:205-287 | hurrying up is the offense conserving the clock; offense and defense never both conserve it, hurrying and draining never coincide; a defense conserving the clock faces a leading offense, which drains the clock once 30 seconds per point of lead cover the time left |
| PlayContext.ConserveSwapsWithPossession | src/game/play/context.rs:267-287 | the defense conserves the clock exactly when the offense would if possession were swapped |
| PlayContext.CanKneel | src/game/play/context.rs:333-337 | defined exactly when the down plus the defense's timeouts is at most 4 (the source's `u32` subtraction fails otherwise); true exactly when the remaining kneels, at 42 seconds each, run out the clock |
| PlayContext.MustScore | src/game/play/context.rs:351-371 | never when the offense is not behind; undefined when more than three offensive timeouts make the `u32` subtraction fail; true when the clock is within the time the offense's timeouts can save |
| PlayContext.FieldPosition | src/game/play/context.rs:385-406 | in a valid context the spot is on the field, field-goal range is 55 yards or fewer from the goal line, and going for it needs 4 or fewer yards |
| PlayResult.Points | src/game/play/result.rs:337-346 | points lie between 0 and 6, and only the absence of a score is worth nothing |
| PlayResult.PointsTable | src/game/play/result.rs:337-346 | extra point 1, two-point conversion 2, safety 2, field goal 3, touchdown 6, no score 0 |
| Pass.Validate | src/game/play/result/pass.rs:159-314 | Ok exactly on a consistent pass result; a duration over 100 is reported first, a sack needs pressure, and a play cannot be both a touchdown and a safety |
| Pass.TryFrom | src/game/play/result/pass.rs:345-372 | raw-to-result conversion succeeds exactly on valid input and keeps every field |
| Pass.Effects | src/game/play/result/pass.rs:485-549 | a completion gains the air yards plus the run after the catch, anything else only the scramble; returns and sack yards are lost; a fumble or an interception turns the ball over; the touchdown belongs to whoever holds the ball at the end |
| Pass.ValidEffects | src/game/play/result/pass.rs:159-314 | a valid pass scores for at most one side, never asks for both a kickoff and a try next, reports consistent effects, and moves the ball at most 300 yards either way |
| Run.Validate | src/game/play/result/run.rs:62-127 | Ok exactly on a consistent run result; a duration over 100 is reported first |
| Run.TryFrom | src/game/play/result/run.rs:149-169 | raw-to-result conversion succeeds exactly on valid input and keeps every field |
| Run.Effects | src/game/play/result/run.rs:247-305 | the net yards are the yards gained minus the return; a fumble turns the ball over; the offense scores exactly on a touchdown it keeps, the defense on a fumble returned for a touchdown or a safety |
| Run.ValidEffects | src/game/play/result/run.rs:62-127 | a valid run scores for at most one side, never asks for both a kickoff and a try next, reports consistent effects, and moves the ball at most 200 yards either way |
| Run.OutOfBoundsIsHidden | src/game/play/result/run.rs:247-305 | a run out of bounds is valid, yet the result does not report it to the game state |
| Kickoff.Validate | src/game/play/result/kickoff.rs:87-149 | Ok exactly on a consistent kickoff; kick distance over 100 is reported first |
| Kickoff.TryFrom | src/game/play/result/kickoff.rs:172-193 | raw-to-result conversion succeeds exactly on valid input and keeps every field |
| Kickoff.Effects | src/game/play/result/kickoff.rs:284-338 | the ball travels the kick, less the return, plus a fumble return; possession changes unless the receiver fumbles; a return touchdown scores for the receiving team and a fumble touchdown for the kicking team |
| Kickoff.EffectsScoreOnce | src/game/play/result/kickoff.rs:284-338 | a kickoff scores for at most one side, a try follows exactly when it scores, and its effects are consistent |
| FieldGoal.Validate | src/game/play/result/fieldgoal.rs:57-119 | Ok exactly on a consistent attempt; a made kick returned for a touchdown is refused |
| FieldGoal.TryFrom | src/game/play/result/fieldgoal.rs:140-159 | raw-to-result conversion succeeds exactly on valid input and keeps every field |
| FieldGoal.Missed | src/game/play/result/fieldgoal.rs:241-297 | on a valid attempt, a miss is exactly a kick neither made nor blocked, with no return |
| FieldGoal.Effects | src/game/play/result/fieldgoal.rs:241-297 | an extra point takes no clock; a field goal that is not made hands the ball over and a try never does; a made kick scores 1 or 3 |
| FieldGoal.ValidEffects | src/game/play/result/fieldgoal.rs:57-119 | a valid attempt is exactly one of made, missed or blocked, scores for at most one side, and reports consistent effects |
| BetweenPlay.Validate | src/game/play/result/betweenplay.rs:54-72 | a pause is valid exactly when at most one side calls a timeout and it lasts at most 100 seconds; two timeouts are reported before the duration |
| BetweenPlay.TryFrom | src/game/play/result/betweenplay.rs:93-111 | raw-to-result conversion succeeds exactly on valid input and keeps every field |
| BetweenPlay.DefaultBuilds | src/game/play/result/betweenplay.rs:134-145 | the default pause lasts 20 seconds with no timeout and no situational flag, and is valid |
| BetweenPlay.Effects | src/game/play/result/betweenplay.rs:181-256 | a pause reports no yards, no score, no turnover and no kick to the game state |
| BetweenPlay.NextContext | src/game/play/result/betweenplay.rs:182-255 | before a try the state is left as it is; otherwise the paused state is returned exactly when it validates, and the score never changes |
| BetweenPlay.NextContextPreserves | src/game/play/result/betweenplay.rs:182-255 | a pause keeps the score, the team names and the opening kickoff, records a timeout exactly when one was called, and ends the half exactly when the clock runs out in the second or fourth quarter |
| BetweenPlay.ExpiringFourthQuarterAtAwayEnd | src/game/play/result/betweenplay.rs:182-255 | a pause that runs out the fourth quarter turns possession over and spots the ball at the 65 for the kickoff |
| BetweenPlay.TimeoutAfterKickoffPanics | src/game/play/result/betweenplay.rs:182-255 | as written, a timeout right after a kickoff keeps the kickoff flag beside the timeout flag, the state fails validation and the source's unwrap panics |
| BetweenPlay.NeutralSiteLost | src/game/play/result/betweenplay.rs:182-255 | as written, a neutral-site game is no longer neutral after a pause |
| BetweenPlay.NextRawCorrected | src/game/play/result/betweenplay.rs:182-255 | the corrected pause keeps the venue, drops the kickoff flag when a timeout is called, and caps the distance at the goal line |
| BetweenPlay.NextContextCorrectedValid | src/game/play/result/betweenplay.rs:182-255 | the corrected pause never fails validation on a valid state and a valid pause, outside a state already turned over at a half's end |
| BetweenPlay.CorrectedOnCounterexamples | src/game/play/result/betweenplay.rs:182-255 | on the two inputs above the corrected pause succeeds and keeps the venue |
| PlayType.Effects | src/game/play/result.rs:93-303 | each query is answered by the wrapped result: a pause is neutral, only a kickoff reports a kickoff, runs and kneels never stop the clock by incompletion or sideline, every non-punt result is consistent |
| PlayType.NextContext | src/game/play/result.rs:93-303 | a pause goes through the pause's own transition and every other play through the game state's; the score never goes down |
| PlayType.NextContextCorrectedAlwaysValid | src/game/play/result.rs:93-303 | with both corrections, any play from any reachable valid state yields a valid next state, so the unwrap cannot panic |
| Transitions.LongLossPanics | src/game/context.rs:1434-1494 | as written, a 95-yard loss from the opponent's 10 clamps the spot to the goal line but leaves the distance at 105 with 100 to go, so the next state fails validation and the unwrap panics |
| Transitions.QuarterBoundaryPanics | src/game/context.rs:951-981 | as written, a 5-second touchdown with exactly 900 seconds left in the first quarter leaves 895 seconds in the first quarter, below its floor, and the unwrap panics |
| Transitions.NextHalfSecondsCorrected | src/game/context.rs:951-981 | the corrected clock caps at 900 whenever the play crosses or reaches the quarter break from at least 900, and otherwise agrees with the source |
| Transitions.NextRawCorrected | src/game/context.rs:1322-1376 | the corrected next state has a distance no larger than the source's and never beyond the goal line |
| Transitions.NextContextCorrectedValid | src/game/context.rs:1434-1494 | from any valid state except the end of the first half, the corrected transition yields a valid state for every consistent play |
| Transitions.CorrectedOnCounterexamples | src/game/context.rs:1434-1494 | on the two failing inputs the corrected transition puts the ball at the goal line with 100 to go, and keeps 900 seconds with the try pending |
| Transitions.HalftimeNeedsPause | src/game/context.rs:1038-1054 | a play from the end of the first half is refused; only a pause turns the half over |
| Drives.PlayStep | src/game/play.rs:252-296 | one snap: the play's result moves the state on and the pause after it moves it again; it succeeds only when both transitions validate, and the score never goes down |
| Drives.Classify | src/game/play.rs:683-785 | the outcome a play gives its drive: a touchdown kind only on a touchdown, nothing on a play that neither scores nor is a punt, and the end of the half exactly when the second or fourth quarter (or overtime) turns over or the game ends; the drive is over exactly on a terminal outcome |
| Drives.PlayOutcome | src/game/play.rs:683-767 | the scoring, kicking and turnover outcomes in the source's order of precedence; the drive is over exactly on a terminal outcome |
| Drives.SimPlay | src/game/play.rs:658-798 | a decided drive refuses another play unless its last play was a touchdown; otherwise the play is appended, and after a touchdown the next play (the try) closes the drive with the touchdown kept |
| Drives.TryEndsDrive | src/game/play.rs:786-789 | after a touchdown drive the try is recorded and the drive closes with the touchdown as its result |
| Drives.FieldGoalEndsDrive | src/game/play.rs:683-691 | a made field goal in the first quarter ends the drive with a field-goal result |
| Drives.PuntReturnTouchdown | src/game/play.rs:683-767 | a punt returned for a touchdown gives the drive a touchdown outcome and leaves it open for the try |
| Drives.DriveRushingStats | src/game/play.rs:454-495 | the drive's rushing statistics are the per-play rushing contributions summed over its plays |
| Drives.DrivePassingStats | src/game/play.rs:508-545 | the drive's passing statistics are the per-play passing contributions summed over its plays |
| Drives.RushingBounds | src/game/play.rs:454-495 | a drive never records more rushing touchdowns or fumbles than rushes |
| Drives.PassingBounds | src/game/play.rs:508-545 | completions and interceptions never exceed attempts, and passing touchdowns never exceed completions |
| Drives.ReceivingMirrorsPassing | src/game/play.rs:1100-1137 | targets equal pass attempts, receptions equal completions, receiving touchdowns equal passing touchdowns, and receiving fumbles never exceed receptions |
| Drives.TotalYards | src/game/play.rs:557-571 | the drive's total yards are the net yards of its plays from scrimmage, 0 for an empty drive |
| Drives.TotalYardsSplit | src/game/play.rs:557-571 | total yards add up over consecutive parts of a drive |
| Drives.NonScrimmagePlay | src/game/play.rs:454-571 | kickoffs, punts, kicks and pauses add no yards and no rushing or passing statistics |
| Drives.OnlyScrimmageCounts | src/game/play.rs:454-571 | a drive of only non-scrimmage plays has no yards and no rushes |
| Games.GameRushingStats | src/game/play.rs:988-1033 | a team's rushing statistics for the game are the contributions of exactly the plays on which it had the ball |
| Games.GamePassingStats | src/game/play.rs:1046-1087 | a team's passing statistics for the game are the contributions of exactly the plays on which it had the ball |
| Games.GameReceivingStats | src/game/play.rs:1100-1137 | a team's receiving statistics for the game are the contributions of exactly the plays on which it had the ball |
| Games.DriveRushing | src/game/play.rs:988-1033 | the inner loop over one drive's plays extends the running rushing total by exactly that drive's plays |
| Games.TeamRushingIsPossessed | src/game/play.rs:988-1033 | a team's rushing total is the rushing of the sub-list of plays it possessed |
| Games.RushingPartition | src/game/play.rs:988-1033 | home and away rushing statistics add up to the whole game's, counter by counter |
| Games.PassingPartition | src/game/play.rs:1046-1087 | home and away passing statistics add up to the whole game's, counter by counter |
| Games.ReceivingPartition | src/game/play.rs:1100-1137 | home and away receiving statistics add up to the whole game's, counter by counter |
| Games.Advance | src/game/play.rs:1252-1351 | a finished game refuses; otherwise the open drive is continued in place, or a new drive is opened and appended, and every earlier drive is kept |
| Games.SimPlay | src/game/play.rs:1252-1290 | `sim_play` on a game refuses once the game is over |
| Games.SimDrive | src/game/play.rs:1313-1351 | `sim_drive` on a game refuses once the game is over |
| Games.SimPlayRecordsPlay | src/game/play.rs:1252-1290 | a simulated play is appended to the game's record of plays, and nothing recorded before it changes |
| Conferences.ValidateDivision | src/league/season/conference.rs:33-54 | a division is valid exactly when its name has at most 64 characters and no team appears twice; a reported duplicate really occurs at least twice |
| Conferences.NewDivision | src/league/season/conference.rs:182-187 | a new division has no teams and is valid when its name fits |
| Conferences.AddTeam | src/league/season/conference.rs:252-254 | adding a team makes the division contain it, grows it by one, and changes membership for no other team |
| Conferences.AddTeamUnchecked | src/league/season/conference.rs:252-254 | `add_team` does not check for duplicates: a valid division stays valid exactly when the team was not already in it |
| Conferences.AllTeamsOf | src/league/season/conference.rs:469-474 | the conference's team list holds exactly the teams of its divisions |
| Conferences.ValidateConference | src/league/season/conference.rs:94-117 | a conference is valid exactly when its name fits and no team appears twice across all its divisions |
| Conferences.ConferenceTeamsDistinct | src/league/season/conference.rs:94-117 | the combined team list is duplicate-free exactly when every division is and no two divisions share a team |
| Conferences.AddDivision | src/league/season/conference.rs:416-418 | the new division is appended at the next index, earlier divisions keep their indices, and the team count grows by the division's size |
| Conferences.DivisionAt | src/league/season/conference.rs:431-433 | a division is found exactly for an index below the number of divisions |
| Conferences.TeamDivision | src/league/season/conference.rs:508-515 | the index of the first division holding the team, and none exactly when no division holds it |
| Conferences.AllTeamsContains | src/league/season/conference.rs:469-547 | the team list's length is the team count, and a team is in it exactly when the conference contains it and exactly when it has a division |
| Conferences.TeamDivisionUnique | src/league/season/conference.rs:508-515 | in a valid conference, the division found is the only one holding the team |
| Conferences.TestConferenceExample | src/league/season/conference.rs:347-547 | the two-division example of the source's documentation has four teams, places them in their divisions, finds no division for an outsider, and is valid |
| Weeks.IsStarted | src/league/season/week.rs:84-97 | a week has started exactly when one of its matchups has |
| Weeks.IsComplete | src/league/season/week.rs:108-121 | a week is complete exactly when every one of its matchups is |
| Weeks.CompleteImpliesStarted | src/league/season/week.rs:84-121 | a complete week has started |
| Weeks.TeamMatchup | src/league/season/week.rs:124-131 | the first matchup of the week the team plays in, or none exactly when it plays in none |
| Weeks.FromFixtures | src/league/season/matchup.rs:40-61 | a week of fresh matchups, one per fixture in order, exists exactly when every short name fits the game context; none of them has started |
| SeasonMatchups.NewMatchup | src/league/season/matchup.rs:40-61 | a new matchup exists exactly when both short names fit; it has the given teams, no game, and a valid unstarted context |
| SeasonMatchups.TakeGame | src/league/season/matchup.rs:157-159 | taking the game returns it and leaves the matchup without one, everything else unchanged |
| SeasonMatchups.Result | src/league/season/matchup.rs:265-287 | a result exists exactly for a participant of a finished game; a tie exactly on equal scores, and a win only for the side with more points |
| SeasonMatchups.Winner | src/league/season/matchup.rs:300-317 | no winner for an unfinished or tied game; otherwise the winner took part and its result is a win |
| SeasonMatchups.ResultsAgree | src/league/season/matchup.rs:265-317 | in a finished game one side wins exactly when the other loses, ties are shared, and the winner's opponent lost |
| SeasonMatchups.RecordCountsEachGame | src/league/season/matchup.rs:369-384 | a team's season record counts exactly its finished games, once each |
| SeasonMatchups.RecordCountsEachResult | src/league/season/matchup.rs:369-384 | the wins, losses and ties of a team's season record are exactly the numbers of its finished games it won, lost and tied |
| SeasonMatchups.RecordAppend | src/league/season/matchup.rs:369-384 | the record over consecutive parts of a season is the sum of their records |
| SeasonMatchups.ByeWeeksIgnored | src/league/season/matchup.rs:369-384 | bye weeks contribute nothing to a record |
| Seasons.New | src/league/season.rs:390-398 | a new season of the given year has no teams, no conferences and no weeks |
| Seasons.CompleteImpliesStarted | src/league/season.rs:83-137 | a complete season has a complete regular season, and a complete regular season has started |
| Seasons.CheckMatchups | src/league/season.rs:226-275 | the matchup loop accepts a week exactly when every matchup names two season teams neither of which appeared in an earlier matchup of that week |
| Seasons.CheckWeeks | src/league/season.rs:199-276 | the week loop accepts exactly when every week is started or complete only if its predecessor is, and every week's matchups fit |
| Seasons.Validate | src/league/season.rs:148-278 | validation succeeds exactly when a non-empty schedule has between n and 3(n-1) weeks, a started season has an even number of at least 4 teams, and the weeks are in order with fitting matchups; the week-count errors come first with their bounds |
| Seasons.ValidWeeksInOrder | src/league/season.rs:199-224 | although only neighbouring weeks are compared, in a valid season a started (complete) week is preceded only by started (complete) weeks |
| Seasons.WeekFitsIffApart | src/league/season.rs:226-275 | the per-matchup check is equivalent to every team being a season team and no two matchups of a week sharing a team |
| Seasons.AddTeam | src/league/season.rs:478-492 | adding fails with AlreadyStarted on a started season, otherwise fails exactly when the ID is taken; on success exactly that team is added and nothing else changes |
| Seasons.AddTeamKeepsValid | src/league/season.rs:478-492 | after admitting a team to a valid season, it stays valid exactly when the week count still lies in [n, 3(n-1)] for the new team count |
| Seasons.TeamConference | src/league/season.rs:658-665 | the result is the first conference containing the team, None exactly when none does |
| Seasons.TeamDivision | src/league/season.rs:684-691 | the result is the first conference whose division lookup finds the team, together with that division's index, None exactly when none does |
| Seasons.DivisionWithinConference | src/league/season.rs:658-691 | a team has a division exactly when it has a conference, and the division lies in that conference |
| Seasons.SameDivisionImpliesSameConference | src/league/season.rs:715-762 | same-division implies same-conference, both relations are symmetric, and a team in no conference shares neither with anyone |
| Seasons.TeamMatchups | src/league/season.rs:2949-2967 | fails exactly for a non-season team; otherwise has one entry per week holding that week's first matchup of the team, if any |
| Schedules.CircleWeekSeatsEveryone | src/league/season.rs:1029-1075 | for an even field, every week of the circle method seats every team in exactly one matchup |
| Schedules.CircleCycleMeetsOnce | src/league/season.rs:1029-1075 | for an even field, two distinct teams meet in exactly one week of every cycle of n-1 weeks |
| Schedules.SecondCycleSwapsSides | src/league/season.rs:1063-1067 | a week of the second cycle repeats the matching week of the first with home and away swapped |
| Schedules.CircleMatchups | src/league/season.rs:1269-1311 | fewer than two teams give no games; otherwise the list has cycles·(n-1)·(n/2) games |
| Schedules.OddCircleMissesAPair | src/league/season.rs:1269-1311 | with three teams 10, 11, 12, one cycle plays (10, 12) and (10, 11) and never pairs 11 with 12 |
| Schedules.CircleRoundCorrected | src/league/season.rs:1269-1311 | the circle method over the field padded with a bye to an even size, with bye games dropped |
| Schedules.CorrectedMeetsOnce | src/league/season.rs:1269-1311 | for any field size, two distinct teams meet in exactly one round of the padded cycle |
| Schedules.RoundRobinPlan | src/league/season.rs:950-1013 | the checks as written: fewer than 4 or an odd number of teams fail first, and the plan is accepted exactly for weeks in [n-1, 3(n-1)] (default 2(n-1)), shift at most weeks (default 0) and an unstarted season |
| Schedules.RoundRobinPlanCorrected | src/league/season.rs:981-988 | the same checks with the validator's lower bound n instead of n-1 |
| Schedules.RotateRight | src/league/season.rs:1083-1085 | rotation keeps length and contents and moves element i to position (i + k) mod n |
| Schedules.RotateRightMoves | src/league/season.rs:1083-1085 | element i of the input lands at position (i + k) mod n |
| Schedules.Permuted | src/league/season.rs:1087-1092 | a shuffle given as a permutation: same length, element i is input element perm[i] |
| Schedules.Pass | src/league/season.rs:1341-1371 | one greedy week: the taken and kept games together are the remaining games, the taken games avoid the busy teams and are pairwise apart, and a non-empty remainder yields a non-empty week |
| Schedules.PackedPlacesEveryGame | src/league/season.rs:1314-1403 | the packed weeks together hold every input game exactly as often as given, every week is non-empty, and no team plays twice in a week when no game pits a team against itself |
| Schedules.Interleave | src/league/season.rs:1314-1403 | packing succeeds exactly when it needs at most 10·n weeks and then returns the greedy packing; otherwise it fails on week 10·n+1 |
| SeasonSchedules.BuildWeek | src/league/season.rs:1051-1076 | a week of unplayed matchups is built exactly when all teams are season teams, and it realises the given pairs in order |
| SeasonSchedules.BuildWeeks | src/league/season.rs:1029-1081 | weeks are built exactly when every week's pairs name season teams, one week per list |
| SeasonSchedules.FreshWeek | src/league/season/matchup.rs:40-61 | a week built from new matchups is neither started nor complete |
| SeasonSchedules.Shifted | src/league/season.rs:1083-1085 | the shifted schedule has the same length and week i is the source week the rotation moves there |
| SeasonSchedules.RoundRobinWeeksOf | src/league/season.rs:1029-1085 | the circle-method weeks succeed exactly when all circle pairings name season teams, and week i realises the circle week the shift moves to i |
| SeasonSchedules.GenerateRoundRobin | src/league/season.rs:948-1094 | the plan's error is returned unchanged; on success the weeks are the shifted circle-method weeks and the teams, conferences, playoffs and year are kept |
| SeasonSchedules.ScheduleRounds | src/league/season.rs:1012-1085 | the weeks are replaced by the shifted circle weeks and nothing else changes |
| SeasonSchedules.CircleWeekFits | src/league/season.rs:1029-1075 | a circle-method week over an even field passes the validator's week check and is unplayed |
| SeasonSchedules.UnplayedScheduleValid | src/league/season.rs:148-278 | an unstarted schedule of fitting weeks whose count lies in [n, 3(n-1)] validates |
| SeasonSchedules.RoundRobinSeatsEveryone | src/league/season.rs:1029-1075 | every generated week has a matchup for every season team |
| SeasonSchedules.SingleRoundRobinAccepted | src/league/season.rs:981-988 | for an even field of at least 4 whose short names fit, the generator accepts a single round robin and builds n-1 weeks over the same teams |
| SeasonSchedules.ShortScheduleRejected | src/league/season.rs:164-171 | validate rejects every season of n >= 4 teams and n-1 weeks as too few weeks |
| SeasonSchedules.GenerateRoundRobinCorrected | src/league/season.rs:981-988 | the generator with the validator's lower bound; success implies the corrected plan accepted, and teams, conferences, playoffs and year are kept |
| SeasonSchedules.CorrectedRoundRobinIsValid | src/league/season.rs:948-1094 | every schedule the corrected generator produces passes validate |
| SeasonSchedules.PermuteWeeks | src/league/season.rs:1087-1092 | the permute option reorders the weeks by a permutation and changes nothing else |
| SeasonSchedules.PermuteUnstartedKeepsValid | src/league/season.rs:1087-1092 | reordering an unplayed valid schedule keeps it valid |
| StructuredSchedules.CircleMatchupsWithin | src/league/season.rs:1269-1311 | every circle-method game pairs two teams of the list it was built from |
| StructuredSchedules.DivisionGames | src/league/season.rs:1154-1173 | every division game pairs two teams of one division of one conference |
| StructuredSchedules.DivisionsGames | src/league/season.rs:1157-1170 | within a conference, every game pairs two teams of one of its divisions |
| StructuredSchedules.DivisionRivalsMeet | src/league/season.rs:1154-1173 | with at least one cycle, two distinct teams of an even division of distinct teams meet in the division games |
| StructuredSchedules.CircleMeeting | src/league/season.rs:1285-1307 | with at least one cycle over an even field of distinct teams, every pair of teams has a game, in one orientation or the other |
| StructuredSchedules.PairGames | src/league/season.rs:1199-1206 | g games between two teams alternate home and away, the first team hosting the even-numbered ones |
| StructuredSchedules.RowGames | src/league/season.rs:1189-1207 | every game of one row of the pair table pairs two conference teams in different divisions |
| StructuredSchedules.TableGames | src/league/season.rs:1188-1208 | every game of the pair table pairs two conference teams in different divisions |
| StructuredSchedules.ConferenceGames | src/league/season.rs:1176-1214 | zero games per opponent gives no conference games |
| StructuredSchedules.ConferenceGamesFrom | src/league/season.rs:1183-1209 | every conference game pairs two teams of one conference that are not in the same division |
| StructuredSchedules.ConferenceGamesCover | src/league/season.rs:1176-1214 | every pair of conference teams in different divisions has a game hosted by the earlier team, and also one hosted by the later team when at least two games are asked for |
| StructuredSchedules.ConferenceGamesSound | src/league/season.rs:1176-1214 | every conference game pairs two different teams of one conference that are not division rivals |
| StructuredSchedules.Greedy | src/league/season.rs:1249-1263 | the greedy pass keeps the counter table's teams, and fails only on a drawn pair naming a team without a counter (the source's unwrap panics there) |
| StructuredSchedules.GreedyCounts | src/league/season.rs:1249-1263 | each counter ends at its start value plus the team's appearances in the chosen games |
| StructuredSchedules.GreedyDrawn | src/league/season.rs:1249-1263 | every chosen game is one of the offered pairs, either way round, and names two counted teams |
| StructuredSchedules.GreedyBounded | src/league/season.rs:1253 | no counter passes the per-team limit when none did at the start and no pair is a self-pair |
| StructuredSchedules.CrossPairs | src/league/season.rs:1231-1243 | every candidate pair takes its first team from an earlier conference and its second from a later one |
| StructuredSchedules.CrossGames | src/league/season.rs:1217-1266 | fewer than two conferences or zero games per team give no cross-conference games |
| StructuredSchedules.CrossGamesBounded | src/league/season.rs:1249-1263 | no season team gets more cross-conference games than asked for |
| StructuredSchedules.CrossGamesBetweenConferences | src/league/season.rs:1217-1266 | every cross-conference game pairs teams of two different conferences |
| StructuredSchedules.StructuredGames | src/league/season.rs:1097-1134 | fewer than 4 teams fail first, then a started season; on success the games contain all division games (2 cycles by default) and all conference games (1 by default) |
| StructuredSchedules.Pushed | src/league/season.rs:1394-1399 | the weeks pushed before the loop stops: all of them, or the first 10·n+1 when more are needed |
| StructuredSchedules.PackSchedule | src/league/season.rs:1137-1143 | packing fails with too many weeks exactly when more than 10·n are needed (once the pushed weeks build); success changes only the weeks, one per packed week |
| StructuredSchedules.GamesOf | src/league/season/week.rs:84-131 | the home and away teams of every matchup of a week, in order |
| StructuredSchedules.ScheduleGamesOfRealized | src/league/season.rs:1376-1394 | the games of weeks built from game lists are those lists concatenated |
| StructuredSchedules.ShiftedKeepsGames | src/league/season.rs:1139-1143 | rotating the weeks keeps the multiset of games |
| StructuredSchedules.PackScheduleKeepsGames | src/league/season.rs:1314-1403 | a successful packing holds exactly the given games, in non-empty, unplayed weeks |
| StructuredSchedules.PackedWeeksFit | src/league/season.rs:1314-1403 | without a team against itself, every packed week has each team at most once and only season teams |
| StructuredSchedules.GenerateStructured | src/league/season.rs:1097-1151 | only the weeks change; fewer than 4 teams or a started season leave the season as it was; success exactly when generation and packing succeed; a later failure leaves either no weeks or the partially pushed weeks of a packing failure |
| StructuredSchedules.PackingFailureLeavesPushedWeeks | src/league/season.rs:1109-1111 | when packing needs too many weeks, the old schedule is gone and the first 10·n+1 packed weeks stay on the season |
| StructuredSchedules.GenerateStructuredKeepsGames | src/league/season.rs:1097-1151 | a generated schedule holds exactly the generated games, including every division and conference game, in non-empty unplayed weeks |
| StructuredSchedules.StructuredDivisionRivalsMeet | src/league/season.rs:1097-1173 | two teams of an even division of distinct teams meet in a generated schedule whenever at least one division cycle is asked for |
| StructuredSchedules.RealizedWeekFits | src/league/season.rs:226-275 | a week built from games naming season teams, no team twice, passes the validator's week check |
| SeasonScheduler.AddTeams | src/league/season.rs:888-890 | adding the ids one by one appends them in order and keeps the division's name |
| SeasonScheduler.DefaultConference | src/league/season.rs:884-897 | the default conference is "Default" with a single division "Default" holding every team of the season exactly once, in key order |
| SeasonScheduler.Defaulted | src/league/season.rs:935-937 | a season with no conferences gets the default one and nothing else changes; a season with conferences is left alone |
| SeasonScheduler.GenerateSchedule | src/league/season.rs:933-945 | teams, playoffs and year are kept; the default conference stays on the season whatever the outcome; fewer than 4 teams is refused on either route with the season otherwise unchanged |
| SeasonScheduler.DefaultNeedsNothing | src/league/season.rs:900-908 | the structured route is taken exactly when the season has several conferences, a conference with several divisions, or a cross-conference count; the default conference never triggers it |
| SeasonScheduler.StructuredWhenShaped | src/league/season.rs:939-941 | such a season is scheduled by the structured scheduler, over the season as given |
| SeasonScheduler.RoundRobinWhenFlat | src/league/season.rs:939-944 | every other season is scheduled by the round robin; its success is returned, and its error leaves the defaulted season unscheduled |
| SeasonScheduler.NoConferencesRoundRobin | src/league/season.rs:933-945 | a season without conferences or cross-conference count keeps the default conference and succeeds exactly when the round robin does |
| Standings.AboveIsHigherPct | src/league/season.rs:1449-1463 | the exact cross-multiplied comparison agrees with comparing (wins + ties/2)/games, a team without games counting 0 |
| Standings.BeforeIsLexicographic | src/league/season.rs:1444-1479 | the standings order is win percentage descending, then wins descending, then ID ascending |
| Standings.BeforeIsStrictTotal | src/league/season.rs:1444-1479 | the standings order is irreflexive, asymmetric and transitive, its negation is transitive, and any two entries of different teams are ordered |
| Standings.Insert | src/league/season.rs:1445-1479 | insertion adds exactly the entry and keeps the list ordered and free of repeated teams |
| Standings.Sort | src/league/season.rs:1445-1479 | sorting permutes the entries into order and keeps them free of repeated teams |
| Standings.RankedIsUnique | src/league/season.rs:1445-1479 | two ranked lists with the same entries are equal, so the sort result does not depend on the algorithm |
| Standings.Entries | src/league/season.rs:1436-1442 | the entries are exactly the listed season teams with their season records, one per team |
| Standings.SeasonStandings | src/league/season.rs:1433-1482 | the standings list every season team exactly once with its season record, in standings order |
| Standings.Only | src/league/season.rs:1493-1539 | filtering keeps exactly the entries of the group, in standings order |
| Standings.DivisionStandings | src/league/season.rs:1493-1512 | fails for a missing conference, then a missing division; succeeds exactly when both exist, and then lists exactly that division's season teams with their records, in standings order |
| Standings.ConferenceStandings | src/league/season.rs:1522-1539 | fails exactly for a missing conference; otherwise lists exactly the conference's season teams with their records, in standings order |
| Standings.RecordAgainstCounts | src/league/season.rs:1564-1593 | a record against a group counts every finished game of the team against it once, and is componentwise at most the record against any wider group |
| Standings.RecordAgainstTallies | src/league/season.rs:1564-1593 | the wins, losses and ties against a group are exactly the numbers of the team's finished games against the group that it won, lost and tied |
| Standings.DivisionRecord | src/league/season.rs:1549-1596 | fails exactly for a team without a division; otherwise its wins, losses and ties are exactly the team's finished games won, lost and tied against teams of its division |
| Standings.ConferenceRecord | src/league/season.rs:1606-1652 | fails exactly for a team without a conference; otherwise its wins, losses and ties are exactly the team's finished games won, lost and tied against teams of its conference |
| Standings.DivisionRecordWithinConferenceRecord | src/league/season.rs:1549-1652 | a team with a division record has a conference record at least as large in wins, losses and ties |
| Selection.ByPositionIsWinners | src/league/season.rs:1994-2003 | the winners sorted by standing are exactly the winners found in the conference standings, none twice |
| Selection.ByPositionFollowsStandings | src/league/season.rs:1994-2003 | the sorted winners appear in the order of their positions in the conference standings |
| Selection.Index | src/league/season.rs:1997-2000 | the position of a team is the index of its first occurrence, or the length when it is absent |
| Selection.Take | src/league/season.rs:2005-2009 | the winners pushed while the field has room are the first k of them, or all when fewer |
| Selection.Fill | src/league/season.rs:2012-2019 | the wild-card pass keeps the field as a prefix, never grows it past k, only adds standings teams, adds no repeats, and when it ends short of k every standings team is in the field |
| Selection.FillIsBestRemaining | src/league/season.rs:2012-2019 | the wild cards are exactly the best-standing teams not yet in the field, as many as there is room for |
| Selection.Select | src/league/season.rs:1989-2019 | the field has at most k teams, each a winner or a standings team |
| Selection.SelectIsField | src/league/season.rs:1989-2019 | the field has no repeats, exactly k teams when the standings hold k, the first k winners first and then the best remaining teams |
| Selection.FieldOf | src/league/season.rs:1978-2019 | the field chosen from the division winners and the conference standings is repetition-free, winners first in standings order, then the best remaining teams, exactly k when the standings are large enough |
| PlayoffField.TeamIds | src/league/season.rs:1861-1864 | the IDs of the standings entries, in order |
| PlayoffField.SeedTeams | src/league/season.rs:1861-1875 | seeding changes only the teams of the target conference and reports a missing team only for a listed ID that is not a season team |
| PlayoffField.SeedTeamsSeeds | src/league/season.rs:2022-2027 | seeding distinct season teams new to the conference into unstarted playoffs succeeds and gives them the next seeds in list order |
| PlayoffField.SeedTeamsIntoEmpty | src/league/season.rs:2022-2027 | seeding into an empty conference gives the listed teams seeds 1, 2, … in order and leaves the playoffs unstarted |
| PlayoffField.AddTeamStep | src/league/season/playoffs.rs:1030-1038 | one admission adds exactly that team with the next seed and keeps the others |
| PlayoffField.TopTeams | src/league/season.rs:1855-1864 | the first n standings entries, exactly n IDs |
| PlayoffField.TopTeamsOutrankRest | src/league/season.rs:1855-1864 | the top n are distinct season teams, and each stands before every season team left out |
| PlayoffField.TopTeamsSeeded | src/league/season.rs:1857-1875 | seeding the top n into fresh playoffs succeeds and fills only conference 0, with seeds in standings order |
| PlayoffField.GeneratePlayoffs | src/league/season.rs:1832-1880 | refused before the regular season is complete, then once the playoffs started, then for fewer than 2 or more than all season teams; success changes only the playoffs |
| PlayoffField.GeneratePlayoffsSeedsTopTeams | src/league/season.rs:1832-1880 | past the guards only the round draw can fail; generated playoffs hold exactly the top n teams, seeded 1 to n in standings order in one bracket |
| PlayoffField.DivisionWinners | src/league/season.rs:1980-1987 | every division winner is a season team on top of its own division's standings |
| PlayoffField.DivisionWinnersDistinct | src/league/season.rs:1980-1987 | with disjoint divisions no team wins twice |
| PlayoffField.ConferenceField | src/league/season.rs:1963-2019 | refused exactly when k exceeds the conference's team count; otherwise at most k teams, all season teams of the conference |
| PlayoffField.ConferenceIdsAreTeams | src/league/season.rs:1976 | the conference standings list each season team of the conference once |
| PlayoffField.ConferenceFieldIsField | src/league/season.rs:1989-2019 | the field is the first k sorted winners topped up with the best remaining conference teams |
| PlayoffField.ConferenceFieldIsFull | src/league/season.rs:1989-2019 | in a valid conference whose teams are all season teams, the field has exactly k teams |
| PlayoffField.ConferenceFieldDistinct | src/league/season.rs:1989-2019 | the field has no team twice |
| PlayoffField.SeedConferences | src/league/season.rs:1963-2028 | seeding the conferences in turn leaves the brackets untouched |
| PlayoffField.SeedConferencesSeeds | src/league/season.rs:1963-2028 | every conference from c on gets its own field, seeded 1 to k in field order |
| PlayoffField.GeneratePlayoffsWithConferences | src/league/season.rs:1933-2033 | refused without conferences, before the regular season is complete, once the playoffs started, and for fewer than 1 team per conference; success changes only the playoffs |
| PlayoffField.ConferencePlayoffsSeedFields | src/league/season.rs:1933-2033 | when every conference is valid and large enough only the round draw can fail, and every conference is seeded with its field |
| PlayoffField.GenerateNextPlayoffRound | src/league/season.rs:2091-2117 | refused before the regular season is complete, then with fewer than 2 playoff teams, then once the playoffs are complete; success keeps the field and changes only the playoffs |
| PlayoffField.GenerateNextConferencePlayoffRound | src/league/season.rs:2043-2061 | refused unless the playoffs are split by conference, and once complete; success keeps the field and only names field teams |
| PlayoffField.TeamInPlayoffs | src/league/season.rs:1704-1709 | refused exactly for a non-season team; otherwise true exactly when some conference of the playoffs holds the team |
| PlayoffField.SeasonPlayoffRecord | src/league/season.rs:1746-1753 | refused exactly for a non-season team; 0-0-0 for a team outside the playoffs, its playoff record otherwise |
| PlayoffField.TeamInChampionship | src/league/season.rs:1771-1777 | refused exactly for a non-season team; otherwise true exactly when the team is in the playoffs and plays in the championship game |
| PlayoffField.TeamWonChampionship | src/league/season.rs:1795-1802 | refused exactly for a non-season team; otherwise true exactly when the team is in the playoffs and is the champion |
| PlayoffField.ChampionPlayedFinal | src/league/season.rs:1771-1802 | a champion played in the championship game |
| PlayoffTeams.ValidatePlayoffTeam | src/league/season/playoffs.rs:39-47 | a playoff team is valid exactly when its short name has at most 4 characters |
| PlayoffTeams.New | src/league/season/playoffs.rs:255-257 | new playoff teams are empty, with length 0 |
| PlayoffTeams.ValidateTeams | src/league/season/playoffs.rs:81-95 | valid exactly when no team is in two conferences; a reported duplicate occurs at least twice |
| PlayoffTeams.IterDistinct | src/league/season/playoffs.rs:81-95 | the listing of all teams is repetition-free exactly when the conferences are disjoint |
| PlayoffTeams.Add | src/league/season/playoffs.rs:276-288 | refused exactly when the ID is already in that conference; otherwise adds it with seed = conference size + 1 and leaves every other conference untouched |
| PlayoffTeams.AddKeepsSeedsDense | src/league/season/playoffs.rs:276-288 | when seeds are 1..size in every conference, they still are after an admission |
| PlayoffTeams.SeedingExample | src/league/season/playoffs.rs:446-453 | admitting 5, 2, 9 gives seeds 1, 2, 3, and admitting 5 again to the same conference is refused |
| PlayoffTeams.AddAcceptsCrossConferenceDuplicate | src/league/season/playoffs.rs:276-288 | team 7 is admitted to conference 0 and then to conference 1, leaving teams that the validator rejects |
| PlayoffTeams.AddChecked | src/league/season/playoffs.rs:81-95 | the admission as evidently intended: refused exactly when the team is in any conference, and otherwise the same as add |
| PlayoffTeams.AddCheckedKeepsValid | src/league/season/playoffs.rs:81-95 | the checked admission keeps the conferences disjoint |
| PlayoffTeams.TeamConference | src/league/season/playoffs.rs:698-722 | the lowest conference holding the team, None exactly when none does |
| PlayoffTeams.Get | src/league/season/playoffs.rs:306-313 | a team is found exactly when some conference holds it, and the result is that conference's entry |
| PlayoffTeams.ContainsIffListed | src/league/season/playoffs.rs:349-351 | contains holds exactly when the team is in the listing of all teams |
| PlayoffTeams.GetInValidField | src/league/season/playoffs.rs:306-313 | with disjoint conferences, get returns the team's entry of its conference |
| PlayoffTeams.LenIsIterLength | src/league/season/playoffs.rs:363-382 | len is the length of the listing of all teams, and is_empty holds exactly when len is 0 |
| PlayoffTeams.SizeSumIsLength | src/league/season/playoffs.rs:363-365 | the sum of the conference sizes is the length of the listing |
| PlayoffTeams.GetBySeed | src/league/season/playoffs.rs:490-496 | a team is found exactly when the conference has one with that seed; the result carries that seed and is the lowest such ID |
| PlayoffTeams.SeedLookup | src/league/season/playoffs.rs:490-496 | with seeds 1..size, a seed is found exactly when it is in 1..size, and it names the team holding it |
| Brackets.NextPowerOfTwo | src/league/season/playoffs.rs:1050-1052 | the smallest power of two at least n |
| Brackets.NumFirstRoundTeams | src/league/season/playoffs.rs:1041-1060 | fails exactly for fewer than 2 teams; otherwise a power of two f with f ≤ n < 2f |
| Brackets.FirstRoundIsLargestPowerOfTwo | src/league/season/playoffs.rs:1041-1060 | the first-round size is the largest power of two not above n |
| Brackets.FirstRoundExamples | src/league/season/playoffs.rs:1070-1078 | 3 teams give 2, 8 give 8, 13 give 8, and 1 team is refused |
| Brackets.NumWildCardTeams | src/league/season/playoffs.rs:1117-1125 | 0 for a lone team without a first round; otherwise fails exactly when the first round is larger than the field, else twice the excess |
| Brackets.NumByeTeams | src/league/season/playoffs.rs:1180-1191 | 0 for the special case (0, 1); otherwise fails exactly when either checked subtraction would underflow, else the byes plus twice the excess make up the field |
| Brackets.ConferenceWildCards | src/league/season/playoffs.rs:1145-1150 | a conference bracket's wild cards are defined exactly for at least 2 teams |
| Brackets.ConferenceByes | src/league/season/playoffs.rs:1211-1216 | a conference bracket's byes are defined exactly for at least 2 teams |
| Brackets.ByesAndWildCards | src/league/season/playoffs.rs:1117-1191 | with first round f, n ≥ 2 teams give 2(n-f) wild cards and 2f-n byes, which add up to n, and byes plus wild-card winners fill the first round |
| Brackets.ThreeTeamBracket | src/league/season/playoffs.rs:1135-1209 | 3 teams give 2 wild cards and 1 bye |
| Brackets.FirstRoundWinners | src/league/season/playoffs.rs:1107-1114 | fails exactly without conferences; 0 for one conference; the first-round size of the conference count otherwise |
| Brackets.WildCardWinners | src/league/season/playoffs.rs:1173-1177 | fails exactly without conferences, and is 0 for one |
| Brackets.WinnersBracketByes | src/league/season/playoffs.rs:1238-1242 | for two or more conferences the winners-bracket byes and wild cards add up to the conference count |
| Brackets.ThreeConferenceWinnersBracket | src/league/season/playoffs.rs:1225-1236 | 3 conferences give a first round of 2, 2 wild-card teams and 1 bye |
| Brackets.SingleConferenceByesFail | src/league/season/playoffs.rs:1180-1242 | one conference: the wild cards take their special case and give 0, but the byes' special case is (0, 1), so 1 - 2 underflows and the call fails |
| Brackets.NumByeTeamsCorrected | src/league/season/playoffs.rs:1180-1191 | the bye count with the special case (1, 0) the wild-card count uses |
| Brackets.WinnersBracketByesCorrectedTotal | src/league/season/playoffs.rs:1238-1242 | corrected, the winners-bracket byes are defined exactly for at least one conference, 0 for one, and add up with the wild cards to the conference count |
| Brackets.Folded | src/league/season/playoffs.rs:1286-1289 | count pairings, the i-th putting lo+i at home against hi-i |
| Brackets.FoldedCoversRange | src/league/season/playoffs.rs:1286-1289 | folding lo..hi pairs the better seed at home, schedules every seed of the range once and no seed outside it |
| Brackets.PowerOfTwoFirstRound | src/league/season/playoffs.rs:1439-1442 | a power-of-two round has n/2 pairings |
| Brackets.PowerOfTwoFirstRoundCovers | src/league/season/playoffs.rs:1419-1468 | for a power of two n ≥ 2, pairing i is seed i+1 at home against seed n-i, and every seed 1..n plays exactly once |
| Brackets.WildCardRound | src/league/season/playoffs.rs:1245-1317 | the wild-card pairings are defined exactly for at least 2 teams |
| Brackets.WildCardRoundCovers | src/league/season/playoffs.rs:1286-1289 | the wild-card round schedules every seed after the byes exactly once and no bye seed |
| Brackets.FirstRoundSlotsShape | src/league/season/playoffs.rs:1773-1905 | the first round after a wild-card round: the best byes host the winners in reverse order, then the leftover winners (or byes) meet folded |
| Brackets.FirstRoundSlotsCover | src/league/season/playoffs.rs:1773-1905 | when byes and winners add up to an even number, the round has half that many pairings, each entrant in the field, all of them scheduled, none twice |
| Brackets.ConferenceFirstRoundSlotsAsWritten | src/league/season/playoffs.rs:1497-1573 | the conference first round as written: byes host the winners in reverse order, then winner i meets the winner at index diff - i + 1; the lookup fails exactly when there is at most one bye and two winners meet, reporting index winners - byes + 1 |
| Brackets.AsWrittenMissesWinner | src/league/season/playoffs.rs:1532-1545 | with at most one bye and at least two winners beyond the byes, the written lookup fails at index winners - byes + 1 |
| Brackets.AsWrittenAgreesIff | src/league/season/playoffs.rs:1532-1545 | the written lookup gives the same round as the winners bracket's fold exactly when no two winners meet each other |
| Brackets.SevenTeamFirstRoundFails | src/league/season/playoffs.rs:1531-1544 | 7 teams (1 bye, 3 wild-card winners): the written index asks for winner 3 of 3 and the round fails, where the intended round has 2 games |
| Brackets.ThirteenTeamFirstRoundMisses | src/league/season/playoffs.rs:1531-1544 | 13 teams (3 byes, 5 winners): the written index pairs winner 0 with winner 3, who already plays, and winner 1 gets no game |
| Brackets.NextRound | src/league/season/playoffs.rs:1929-2001 | fails exactly when at most one winner remains; otherwise pairs the winners of games 2i and 2i+1, the lower seed at home |
| Brackets.NextRoundHalves | src/league/season/playoffs.rs:1929-2001 | an even number of winners is halved and every winner plays in the game of its pair |
| Playoffs.New | src/league/season/playoffs.rs:551-558 | new playoffs have no teams and no brackets |
| Playoffs.Validate | src/league/season/playoffs.rs:136-183 | valid exactly when every bracket matchup names registered playoff teams; a reported team is not registered |
| Playoffs.ValidateBrackets | src/league/season/playoffs.rs:136-183 | accepts exactly when every conference bracket's rounds name registered teams |
| Playoffs.ValidateRounds | src/league/season/playoffs.rs:136-183 | accepts exactly when every round from k on names registered teams |
| Playoffs.ValidateMatchups | src/league/season/playoffs.rs:136-183 | accepts exactly when both sides of every matchup from k on are registered |
| Playoffs.RegisteredTeamsContained | src/league/season/playoffs.rs:136-183 | in valid playoffs both teams of every bracket matchup are playoff teams |
| Playoffs.NewIsValid | src/league/season/playoffs.rs:551-558 | new playoffs validate |
| Playoffs.IsConferenceBracketComplete | src/league/season/playoffs.rs:818-848 | the scan answers true exactly when the bracket has rounds, each started and complete, and its matchups plus one equal the conference's team count |
| Playoffs.BracketsCompleteEach | src/league/season/playoffs.rs:859-888 | when all brackets are complete, each bracket with rounds is complete |
| Playoffs.ConferenceChampion | src/league/season/playoffs.rs:899-914 | a champion exists only for a complete bracket and took part in its final, finished game; in a complete bracket there is none exactly when the final was tied |
| Playoffs.ChampionIsRegistered | src/league/season/playoffs.rs:899-914 | in valid playoffs a conference champion is a playoff team |
| Playoffs.CompleteImpliesStarted | src/league/season/playoffs.rs:982-1009 | complete playoffs have started |
| Playoffs.AddTeam | src/league/season/playoffs.rs:1030-1038 | refused once play has started, otherwise exactly when the team is already in that conference; the new team gets seed = conference size + 1 |
| Playoffs.AddTeamKeepsRegistered | src/league/season/playoffs.rs:1030-1038 | admitting a team keeps valid playoffs valid and makes the team a playoff team |
| Playoffs.TeamSeed | src/league/season/playoffs.rs:676-681 | fails exactly for a team outside the playoffs; otherwise the seed it holds in a conference |
| Playoffs.TeamConference | src/league/season/playoffs.rs:698-722 | fails exactly for a team outside the playoffs; otherwise the lowest conference holding it |
| Playoffs.Championship | src/league/season/playoffs.rs:2171-2202 | the final is the single game of the last winners-bracket round (conference playoffs) or of conference 0's last round, never a first round that cannot be the last |
| Playoffs.Champion | src/league/season/playoffs.rs:2241-2246 | a champion is the winner of a finished championship game |
| Playoffs.ChampionOfCompletePlayoffs | src/league/season/playoffs.rs:2171-2246 | complete conference playoffs have a finished final, the single game of the last winners-bracket round, and their champion is its winner |
| Playoffs.InChampionship | src/league/season/playoffs.rs:2219-2230 | fails exactly for a team outside the playoffs; otherwise true exactly when the team plays in the championship game |
| Playoffs.ChampionInChampionship | src/league/season/playoffs.rs:2219-2246 | a champion who is a playoff team played in the championship game |
| Playoffs.PlayoffRecord | src/league/season/playoffs.rs:2264-2293 | fails exactly for a team outside the playoffs; otherwise counts each of the team's finished playoff games once, its wins, losses and ties being exactly the playoff games it won, lost and tied |
| Playoffs.PlayoffRecordSplits | src/league/season/playoffs.rs:2264-2293 | the playoff record is the conference-bracket record plus the winners-bracket record |
| Playoffs.BracketRecordOfAbsentTeam | src/league/season/playoffs.rs:2264-2293 | a team that plays in no round of a bracket has a 0-0-0 record there |
| PlayoffRounds.LookupSeed | src/league/season/playoffs.rs:1290-1301 | succeeds exactly when the conference has a team with that seed, with that team; otherwise reports the conference and the seed |
| PlayoffRounds.SeedFixtures | src/league/season/playoffs.rs:1286-1312 | succeeds exactly when every seed pair is held in the conference, one fixture per pair naming the teams that hold the seeds |
| PlayoffRounds.TeamFixture | src/league/season/playoffs.rs:2094-2110 | succeeds exactly when both teams are playoff teams, with their IDs and short names |
| PlayoffRounds.Build | src/league/season/playoffs.rs:1303-1311 | succeeds exactly when every fixture's short names are accepted; one unfinished matchup per fixture with its home and away team, so the week has not started |
| PlayoffRounds.WinnerIds | src/league/season/playoffs.rs:2052-2062 | succeeds exactly when every game of the round has a winner, listing the winners in game order |
| PlayoffRounds.SeedsOf | src/league/season/playoffs.rs:2080-2092 | succeeds exactly when every team holds a seed, listing the seeds in order |
| PlayoffRounds.SeededWeek | src/league/season/playoffs.rs:1286-1312 | a built week seats the teams holding each seed pair, is unstarted and names only playoff teams; with dense seeds and accepted names it is always built |
| PlayoffRounds.GenConferenceWildCardRound | src/league/season/playoffs.rs:1245-1317 | refused below 2 teams, for a power of two and once play has started; otherwise the bracket becomes one round seating the wild-card pairings, and registration is kept |
| PlayoffRounds.WildCardRoundBuilt | src/league/season/playoffs.rs:1245-1317 | for a field entered through add, a wild-card round of a non-power-of-two bracket is always built before play starts |
| PlayoffRounds.WinnerSeeds | src/league/season/playoffs.rs:1497-1530 | a success gives, for every game of the round, the seed of its winner |
| PlayoffRounds.GenConferenceFirstRound | src/league/season/playoffs.rs:1406-1642 | power of two: refused once started, else the bracket becomes one round seating seed i+1 against n-i; otherwise refused unless exactly the wild-card round is there, then the byes and winners are seated by the as-written slots, and the round is refused whenever the written winner lookup fails |
| PlayoffRounds.FirstRoundAfterWildCard | src/league/season/playoffs.rs:1492-1640 | after a decided wild-card round: a successful round seats the as-written slots on top of the existing bracket; when the written winner lookup fails the round is refused, and once the byes' games are seated the refusal carries the lookup's own error |
| PlayoffRounds.FirstRoundRefusedAsWritten | src/league/season/playoffs.rs:1492-1545 | a conference whose decided wild-card round leaves at most one bye and two winners to meet is refused; once the byes' games are seated the refusal names the missing winner at index winners - byes + 1 (7 teams: 1 bye, 3 winners) |
| PlayoffRounds.AfterWildCardRefused | src/league/season/playoffs.rs:1532-1545 | with at most one bye and two winners to meet, the round after the wild-card round is refused whatever the winners' seeds |
| PlayoffRounds.AfterWildCardMissesWinner | src/league/season/playoffs.rs:1497-1545 | with the byes' games seated, that refusal reports the missing winner at index winners - byes + 1 |
| PlayoffRounds.ByeGamesSeated | src/league/season/playoffs.rs:1497-1527 | in a densely seeded conference whose short names fit, every bye's game against a wild-card winner can be seated |
| PlayoffRounds.GenConferenceFirstRoundCorrected | src/league/season/playoffs.rs:1532-1545 | corrected: agrees with the as-written generator everywhere except after a wild-card round, where the byes and winners are seated by the winners bracket's fold diff - (i + 1) |
| PlayoffRounds.CorrectedFirstRoundBuilt | src/league/season/playoffs.rs:1532-1545 | corrected: for the same densely seeded conference and any numbers of byes and winners, the corrected first round is always built |
| PlayoffRounds.PowerOfTwoFirstRoundBuilt | src/league/season/playoffs.rs:1419-1469 | for a field entered through add, the first round of a power-of-two bracket is always built before play starts |
| PlayoffRounds.GenNextConferenceRound | src/league/season/playoffs.rs:1908-2004 | dispatches an empty bracket to the wild-card or the first round, a bracket holding only its wild-card round to the first round, and otherwise pairs the last round's winners by seed, refusing a last round of at most one game; the field and winners bracket never change |
| PlayoffRounds.FirstRoundIsWholeField | src/league/season/playoffs.rs:1041-1060 | the first round takes the whole field exactly when the field is a power of two |
| PlayoffRounds.NextRoundsFrom | src/league/season/playoffs.rs:2007-2013 | the loop keeps the field and winners bracket and the registration, and a refusal of the first conference is its result |
| PlayoffRounds.GenNextConferenceRounds | src/league/season/playoffs.rs:2007-2013 | a success keeps the field, the winners bracket and the registration |
| PlayoffRounds.ChampionPairs | src/league/season/playoffs.rs:1373-1397 | succeeds exactly when every conference named has a champion, pairing the two champions of each pair of conferences |
| PlayoffRounds.GenWinnersWildCardRound | src/league/season/playoffs.rs:1320-1403 | refused below 2 conferences, for a power of two, before all conference brackets are complete and once the winners bracket has started; otherwise the winners bracket becomes one round of the wild-card conferences' champions |
| PlayoffRounds.SlotPair | src/league/season/playoffs.rs:1740-1900 | a bye slot stands for its conference's champion and a winner slot for that winner; a bye hosts a winner, and two other entrants are ordered by seed |
| PlayoffRounds.WinnerPairFindsWinners | src/league/season/playoffs.rs:1777-1808 | two winner slots are seated with the better-seeded winner at home |
| PlayoffRounds.GenWinnersFirstRound | src/league/season/playoffs.rs:1645-1905 | refused below 2 conferences and before all conference brackets are complete; then the folded champions round for a power of two, and the round after the wild-card round otherwise |
| PlayoffRounds.FoldedChampionsRound | src/league/season/playoffs.rs:1664-1713 | refused once the winners bracket has started; otherwise the winners bracket becomes one round with the champion of conference i hosting that of conference C-(i+1) |
| PlayoffRounds.AfterWildCardRound | src/league/season/playoffs.rs:1714-1904 | refused unless exactly the wild-card round is on the winners bracket; then the byes' champions and the wild-card winners are seated by the first-round slots |
| PlayoffRounds.GenNextWinnersRound | src/league/season/playoffs.rs:2016-2116 | dispatches an empty winners bracket to the wild-card or first round, one holding only the wild-card round to the first round, and otherwise pairs the last round's winners by seed; the field and the conference brackets never change |
| PlayoffRounds.GenNextPlayoffRound | src/league/season/playoffs.rs:2138-2158 | refused once complete; the winners bracket advances in conference playoffs whose brackets are complete, every conference bracket otherwise; the field never changes and registration is kept |
| PlayoffStates.Cleared | src/league/season/playoffs.rs:1275 | the conference's bracket is present and holds no rounds |
| PlayoffStates.NextConferenceRoundState | src/league/season/playoffs.rs:1908-2004 | agrees with the generator's outcome; a refusal leaves an emptied bracket when the round would have restarted it and the playoffs unchanged otherwise |
| PlayoffStates.RefusedRoundChangesNoRounds | src/league/season/playoffs.rs:1245-1317 | a refused conference round leaves every bracket's rounds, the field and the winners bracket as they were, and keeps registration |
| PlayoffStates.NextRoundsState | src/league/season/playoffs.rs:2007-2013 | the loop's outcome agrees with the all-or-refusal result of `PlayoffRounds.NextRoundsFrom`, and a refusal is the same error |
| PlayoffStates.NextRoundsStateKeepsField | src/league/season/playoffs.rs:2007-2013 | whether the loop finishes or stops, the field and winners bracket are untouched and registration is kept |
| PlayoffStates.GenNextConferenceRoundsState | src/league/season/playoffs.rs:2007-2013 | succeeds exactly when the conference rounds can all be generated, with the same playoffs |
| PlayoffStates.RetryAfterPartialRounds | src/league/season/playoffs.rs:1929-2013 | four teams in conference 0 and one in conference 1: the first call leaves conference 0's new round on its bracket and refuses conference 1; a second call fails on conference 0's unplayed games instead of refusing conference 1 again |
| PlayoffStates.FirstCallBuildsRound | src/league/season/playoffs.rs:2007-2013 | in that example the first call builds conference 0's two-game first round and then refuses conference 1 for too few teams |
| PlayoffStates.GenNextConferenceRoundsAtomic | src/league/season/playoffs.rs:2007-2013 | the loop as intended: the same outcome, but a refusal leaves the playoffs unchanged |
| PlayoffStates.AtomicRetryRepeats | src/league/season/playoffs.rs:2007-2013 | with the atomic loop a retry after a refusal refuses in the same way and leaves the same playoffs |
| Leagues.NewLeague | src/league.rs:120-141 | a new league has no teams, no current season and no archived seasons |
| Leagues.FirstUnknown | src/league.rs:36-46 | none exactly when every season team is a league team; otherwise the smallest season team ID the league lacks |
| Leagues.CheckSeasons | src/league.rs:50-61 | accepts exactly when every archived season names only league teams; otherwise reports the first such season and its smallest unknown team |
| Leagues.Validate | src/league.rs:34-98 | a raw league converts exactly when it is well-formed; an unknown team of the current season is reported first |
| Leagues.NextTeamId | src/league.rs:152-161 | the new ID is not taken: 0 for no teams, one past the largest ID otherwise |
| Leagues.AddTeam | src/league.rs:152-161 | adds exactly one team, a new one under the next ID, and changes no other team or season |
| Leagues.AddTeamsNumbersInOrder | src/league.rs:152-161 | adding n teams to an empty league numbers them 0 to n-1 |
| Leagues.AddTeamKeepsWellFormed | src/league.rs:152-161 | adding a team keeps a well-formed league well-formed |
| Leagues.FindYear | src/league.rs:232 | finds the first archived season of that year, and none exactly when no archived season has it |
| Leagues.SeasonOf | src/league.rs:223-233 | the current season when its year matches, else the first archived season of that year; none exactly when neither exists |
| Leagues.WeekOf | src/league.rs:251-256 | present exactly when the season exists and has that week, which it returns |
| Leagues.MatchupOf | src/league.rs:274-279 | present exactly when the week exists and has that matchup, which it returns |
| Leagues.LatestYear | src/league.rs:315-325 | the largest archived year, 0 with nothing archived |
| Leagues.MostRecentYear | src/league.rs:315-325 | the loop's running maximum is the largest archived year |
| Leagues.AddSeason | src/league.rs:341-381 | refused exactly while the current season is in progress; a complete season is archived and followed one year later; with no current season the clock year opens the first season and one past the latest archived year otherwise; the teams never change |
| Leagues.AddSeasonKeepsInvariants | src/league.rs:341-381 | opening a season keeps the league well-formed and every archived year below the current one |
| Leagues.InProgressRefusedAgain | src/league.rs:357-363 | an unscheduled current season is refused whatever the clock says, so a retry is refused alike |
| Leagues.AddSeasonTeam | src/league.rs:403-416 | refused for an unknown ID, then without a current season, then with the season's own refusal; a success only adds the team to the current season |
| Leagues.AddSeasonTeamKeepsWellFormed | src/league.rs:403-416 | adding a season team keeps a well-formed league well-formed |
| SeasonSims.MatchupGuard | src/league/season.rs:2515-2560 | passes exactly when the previous week exists and is complete, the week and matchup exist, the matchup is unfinished and both teams are season teams; the first failing check is reported |
| SeasonSims.Replace | src/league/season.rs:2631-2706 | only the given matchup of the given week changes |
| SeasonSims.SimMatchup | src/league/season.rs:2631-2706 | refused as the guard refuses; a success replaces only that matchup, with the simulated game |
| SeasonSims.SimPlay | src/league/season.rs:2513-2605 | refused as the guard refuses, leaving the season; otherwise the matchup gets a game record and the play, and a failed play still leaves the new record |
| SeasonSims.SimMatchupsFrom | src/league/season.rs:2761-2807 | the week keeps its length and every matchup before the loop position |
| SeasonSims.SimWeek | src/league/season.rs:2732-2809 | refused, unchanged, for a missing or unfinished previous week, a missing week and a complete week; no other week ever changes |
| SeasonSims.WeekFitsSameTeams | src/league/season.rs:226-270 | whether a week passes the validator's per-week checks depends only on its pairings |
| SeasonSims.ReplaceKeepsProgression | src/league/season.rs:199-224 | replacing an open matchup of a playable week by one between the same teams keeps weeks starting and finishing in order |
| SeasonSims.SimMatchupKeepsProgression | src/league/season.rs:2631-2706 | simulating a matchup keeps weeks starting and finishing in order |
| SeasonSims.SimPlayKeepsProgression | src/league/season.rs:2513-2605 | simulating a play keeps weeks in order whether the play succeeds or fails |
| SeasonSims.SimMatchupStartsWeek | src/league/season.rs:2631-2706 | a fully simulated matchup is finished and its week has started |
| SeasonSims.SimMatchupsFromKeeps | src/league/season.rs:2761-2807 | the loop keeps the pairings and finished games, and finishes every game from its position when it is not refused |
| SeasonSims.SimWeekKeepsProgression | src/league/season.rs:2732-2809 | simulating a week keeps weeks in order whether it finishes or stops, and a week simulated without refusal is complete |
| SeasonSims.SimMatchupKeepsValid | src/league/season.rs:148-278 | with an even field of at least four, simulating a matchup keeps a valid season valid |
| Picture.PctMonotone | src/league/season/playoffs/picture.rs:210-219 | a record worth more (two points a win, one a tie) never has a lower percentage over the same games |
| Picture.FromRecord | src/league/season/playoffs/picture.rs:201-233 | the bounds keep the team, its games left and wins; the fewest wins are the current ones and the most add every game left, and the bounds are ordered |
| Picture.BoundsCoverOutcomes | src/league/season/playoffs/picture.rs:201-233 | every split of the games left into wins, ties and losses ends between the least and the most wins and the least and the most percentage |
| Picture.WouldFinishAhead | src/league/season/playoffs/picture.rs:757-777 | a higher percentage finishes ahead, a lower one never does; ties fall to wins and then to the lower ID |
| Picture.WouldFinishAheadIsStrictTotal | src/league/season/playoffs/picture.rs:757-777 | the order is irreflexive, asymmetric, total on different teams and transitive |
| Picture.AheadMonotone | src/league/season/playoffs/picture.rs:757-777 | more wins and a higher percentage for the first team, fewer for the second, keep the first ahead |
| Picture.SurelyAheadCanPass | src/league/season/playoffs/picture.rs:721-754 | a rival surely ahead, at its worst against the team's best, can also pass the team |
| Picture.Find | src/league/season/playoffs/picture.rs:660-663 | none exactly when no bounds carry the ID; otherwise bounds with that ID |
| Picture.CountPassers | src/league/season/playoffs/picture.rs:666-687 | zero exactly when no other team at its best can finish ahead of the team at its worst |
| Picture.CountSurelyAhead | src/league/season/playoffs/picture.rs:732-753 | zero exactly when no other team at its worst finishes ahead of the team at its best |
| Picture.SurelyAheadAtMostPassers | src/league/season/playoffs/picture.rs:655-754 | with sound bounds, the rivals surely ahead are never more than those that can pass |
| Picture.AnyPasserIffCount | src/league/season/playoffs/picture.rs:691-715 | some rival can pass exactly when the count of passers is positive |
| Picture.TopSeedClinchesBerth | src/league/season/playoffs/picture.rs:691-715 | the top seed is clinched exactly when the team is listed and nobody can pass it, and then the berth is clinched for one or more berths |
| Picture.ClinchedNotEliminated | src/league/season/playoffs/picture.rs:655-754 | with sound bounds a team that has clinched a berth is not eliminated |
| Picture.ComputeStatus | src/league/season/playoffs/picture.rs:618-649 | the status is Eliminated exactly when the team is eliminated; a clinched status exactly when clinched and not eliminated; in position or in the hunt by position otherwise; the top seed only for the leader; seeds are positions from 1 |
| Picture.InsertBest | src/league/season/playoffs/picture.rs:817-822 | inserting keeps the elements plus the new one and keeps the best-first order |
| Picture.SortBest | src/league/season/playoffs/picture.rs:817-822 | a permutation of the rivals ordered best first by percentage, then wins, then lower ID |
| Picture.Rivals | src/league/season/playoffs/picture.rs:811-814 | exactly the bounds of the other teams |
| Picture.Blocker | src/league/season/playoffs/picture.rs:833 | the rival at place n of the best-first order: none after it is better and none before it is worse |
| Picture.MagicNumber | src/league/season/playoffs/picture.rs:780-851 | absent for an unlisted team; with no games left 0 exactly when clinched and absent otherwise; 0 with fewer rivals than berths; otherwise the wins needed to pass the blocker's best, capped at the games left |
| Picture.GamesBack | src/league/season/playoffs/picture.rs:593-615 | 0 inside the cutoff; otherwise half the win gap plus the loss gap to the team at the cutoff |
| Picture.GamesBackOfEqualGames | src/league/season/playoffs/picture.rs:593-615 | between records of equally many games it is half the points gap, never negative in ordered standings |
| Picture.GamesBackNegativeExample | src/league/season/playoffs/picture.rs:593-615 | with the cutoff team 0-1 and a team below it 0-0, games back is -0.5 |
| Picture.SeasonRemaining | src/league/season/playoffs/picture.rs:350-361 | at most the number of matchups, and 0 exactly when every matchup is finished |
| Picture.TeamRemainingAtMostSeason | src/league/season/playoffs/picture.rs:350-361 | a team's games left are at most the season's (at most twice with self games), and 0 when the season has none |
| Picture.Bounds | src/league/season/playoffs/picture.rs:364-370 | one sound set of bounds per standings entry, from its record and its unfinished games |
| Picture.EntryAt | src/league/season/playoffs/picture.rs:375-416 | the entry carries the team and record, the computed status, 0 games back inside the cutoff, no magic number when eliminated, and a magic number at most the games left |
| Picture.Entries | src/league/season/playoffs/picture.rs:375-416 | one entry per standings position, in standings order |
| Picture.NonConferencePicture | src/league/season/playoffs/picture.rs:326-423 | refuses no berths, more berths than teams and no schedule, in that order, and nothing else; a picture has one entry per team from the season standings and counts the unfinished matchups |
| Picture.MinConferenceSize | src/league/season/playoffs/picture.rs:446-451 | the fewest teams of any conference, 0 without conferences |
| Picture.ConferenceEntries | src/league/season/playoffs/picture.rs:481-582 | one entry per conference standings position with that team and record |
| Picture.ConferencePicture | src/league/season/playoffs/picture.rs:426-590 | refuses no conferences, no schedule, no berths and more berths than the smallest conference, in that order, and nothing else; the berths are k per conference |
| Picture.GuaranteeChangesNothing | src/league/season/playoffs/picture.rs:562-571 | the guaranteed-division-winner adjustment leaves every entry unchanged |
| Picture.ConferencePictureIgnoresGuarantee | src/league/season/playoffs/picture.rs:488-571 | the conference picture is the same whether division winners are guaranteed or not |
| Picture.FromSeason | src/league/season/playoffs/picture.rs:302-323 | by conference when asked, or by default with more than one conference; succeeds exactly when that picture's checks pass, with n or n per conference berths |
| Picture.Matching | src/league/season/playoffs/picture.rs:961-1067 | exactly the entries whose status passes the filter |
| Picture.PlayoffTeams | src/league/season/playoffs/picture.rs:961-971 | exactly the entries that clinched or are in position |
| Picture.ClinchedTeams | src/league/season/playoffs/picture.rs:997-1005 | exactly the entries that clinched |
| Picture.InTheHuntTeams | src/league/season/playoffs/picture.rs:1031-1036 | exactly the entries in the hunt |
| Picture.EliminatedTeams | src/league/season/playoffs/picture.rs:1062-1067 | exactly the eliminated entries |
| Picture.StatusesPartition | src/league/season/playoffs/picture.rs:961-1067 | the berth holders, the teams in the hunt and the eliminated teams add up to all entries |
| Picture.TeamStatus | src/league/season/playoffs/picture.rs:1094-1096 | none exactly when no entry has the ID; otherwise an entry of that team |

## Left out

- The random simulators (every `*ResultSimulator`, the play and play-call simulators, the final-score simulator) are left out. They are floating-point regressions over random samples. Their outputs enter the model as arbitrary inputs: a play result, a coin flip, a permutation, a game step.
- `sim_regular_season`, `sim`, `sim_playoff_matchup`, `sim_playoff_play`, `sim_playoff_round` and `sim_playoffs` in src/league/season.rs are left out. They only loop over the guarded simulators and the playoff round generators, which are modelled.
- The league-level simulation calls that delegate to the current season, and the archiving of game statistics into matchups, are left out. Both only move data.
- `playoff_picture` delegation and the display of the picture are left out. `from_season`'s parameter checks and every computation behind it are modelled.
- The conference picture builds a list `conf_playoff_teams` that is never read afterwards. The model does not build it.
- The guaranteed-division-winner pass of the conference picture reassigns only values that are already in place. The model proves that it changes no entry (Picture.GuaranteeChangesNothing) rather than carrying it into the computed picture.
- The fallback team name `Team {id}` of the picture cannot arise in the model: the standings only ever list season teams.
- Serialization, `Display` formatting, the derive-based schema plumbing and the JavaScript bindings (src/wasm) are left out. They do not decide anything.
- src/game/play/result/punt.rs does not compile: `defense_score` lacks a `return`. A punt is therefore carried as arbitrary play effects plus a fumble flag.
- The wall-clock default year (`chrono::Utc::now()`) is a parameter.
- Panics (an `unwrap` on a failed validation, an unsigned underflow, a missing map entry) are modelled as an `Err` with a distinct error value. A panic aborts the program, where an `Err` would let the caller go on.
- Conferences.ValidateDivision: name limits count characters, while the source's `len()` counts UTF-8 bytes. A 64-character name containing a non-ASCII character is accepted here and rejected by the source.
- Conferences.ValidateConference: the conference name limit counts characters, not the UTF-8 bytes the source's `len()` counts, so a long non-ASCII name can pass here and fail in the source.
- PlayoffTeams.ValidatePlayoffTeam: the short-name limit counts characters, not UTF-8 bytes as in the source.
- Team.Validate: the name and short-name limits count characters, not UTF-8 bytes as in the source.
- FinalScore.Validate: the team-name limits count characters, not UTF-8 bytes as in the source.
- Context.Validate: the short-name limits count characters, not UTF-8 bytes as in the source.
- PlayContext.From: the `match` that turns the flipped yard line into a `u32` (src/game/play/context.rs:57-60) lacks the pattern of its second arm and does not compile as written. The model reads it as giving 0 when `100 - yard_line` is negative.
- SeasonScheduler.GenerateSchedule: the closing week shuffle of the `permute` option is not applied here. It is modelled on its own by SeasonSchedules.PermuteWeeks.
- Pass.Validate: the yardage bounds use mathematical absolute values. In the source, `i32::MIN.abs()` wraps in a release build, so a sack of −2147483648 yards passes the source's bound and is rejected here. The `i32` fields are otherwise unbounded integers.
- Seasons.Validate: a non-empty schedule with no teams returns `Err(NoTeams)`. In the source, `num_teams - 1` underflows a `usize` and panics.
- Leagues.AddTeam: `max ID + 1` is computed on unbounded naturals. The source's `usize` addition would overflow at `usize::MAX`.
- PlayoffField.GeneratePlayoffs: the source resets the playoffs and then admits teams one by one. An admission that fails part-way leaves the playoffs reset and partly seeded; the model returns only the error.
- PlayoffField.GeneratePlayoffsWithConferences: as for `generate_playoffs`, a failure after the reset leaves partly seeded playoffs in the source. Here only the error is returned.
- PlayoffRounds.GenWinnersWildCardRound: the source empties the winners bracket before the seed and winner lookups that can fail. On such a failure the model returns only the error, not the emptied bracket. The same holds for PlayoffRounds.GenWinnersFirstRound.
- PlayoffRounds.GenNextConferenceRounds: returns only the error on a refusal. The state the source leaves behind (earlier conferences already advanced, an emptied bracket) is modelled separately by PlayoffStates.GenNextConferenceRoundsState and PlayoffStates.NextConferenceRoundState.
- SeasonSims.SimMatchupKeepsValid: it requires an even field of at least four teams. The simulator guards do not check this, and the validator demands it once any week has started. A valid, unstarted season of three teams therefore becomes invalid after one simulated game, in the source as here.
- The season code calls `gen_next_round`, `gen_next_conference_round`, `rounds()`, `add_division(i, d)` and `matchup.complete()`, which are not defined in the files they call into. Each is modelled on the nearest existing method. The current-round completeness check that `gen_next_round` would make is not modelled.
- src/boxscore.rs, src/sim.rs, src/league/matchups.rs and src/league/season/team.rs are not declared in the module tree. They are not part of this model.
- The league's teams and the game-level matchup results are plain records without logic. A league team carries only its win and loss counts, which Leagues.AddTeam starts at zero; nothing in the modelled core updates them.

## Findings

| source | as written | input that shows it | evidently intended | confidence | as-written member | corrected member |
|---|---|---|---|---|---|---|
| src/game/context.rs:1434-1494 | `next_context` clamps the yard line at the goal line but not the distance, and caps the clock at the quarter boundary only above 900 s; it then unwraps the validation of its own result | a valid 10-yard-line first-and-10 with a run of −95 yards gives distance 105 with 100 to go; a first quarter at 900 s with a touchdown gives 895 s in quarter 1 | the distance limited to the yards left to the goal line, and the quarter's clock floor respected, so the unwrap never fires | not executed | Transitions.LongLossPanics | Transitions.NextContextCorrectedValid |
| src/game/context.rs:1419-1431 | `next_away_timeouts` also takes a timeout when the offense calls one while home has the ball | the default context (home possession) with an offensive timeout leaves both teams at 2 | only the team that called the timeout is charged, symmetric with `next_home_timeouts` | not executed | Context.HomeOffenseTimeoutChargesAway | Context.TimeoutsSymmetric |
| src/game/play/result/betweenplay.rs:182-255 | the pause rebuilds the context through the builder: the kickoff flag stays beside a new timeout flag, and `neutral_site` resets to false | a timeout called right after a kickoff yields kickoff and timeout together, which validation rejects, so the unwrap panics; a neutral-site game loses its neutral site | the venue carried over and the timeout replacing the kickoff as the last play, so the result always validates | not executed | BetweenPlay.TimeoutAfterKickoffPanics | BetweenPlay.NextContextCorrectedValid |
| src/league/season.rs:1269-1311 | the circle method is applied to divisions of any size, and for an odd count it drops the middle team each round | teams 10, 11, 12: two rounds of one game each, and 11 never meets 12 | every pair meets once per cycle; for an odd count a bye slot stands in for the missing team | not executed | Schedules.OddCircleMissesAPair | Schedules.CorrectedMeetsOnce |
| src/league/season.rs:981-988 | the round-robin generator accepts n − 1 weeks, while the validator (season.rs:164-171) needs at least n | four or more teams with `weeks = n − 1`: generation succeeds and validation then fails with too few weeks | the generator's lower bound equal to the validator's | not executed | SeasonSchedules.SingleRoundRobinAccepted | SeasonSchedules.CorrectedRoundRobinIsValid |
| src/league/season/playoffs.rs:1540-1541 | the first round of a conference pairs wild-card winner i with winner `diff - i + 1` | 7 teams: the pairing asks for winner 3 of 3 and the round fails; 13 teams: winner 3 plays twice and winner 1 gets no game | winner i against winner `diff - (i + 1)`, as in the winners-bracket twin at playoffs.rs:1784 | not executed | PlayoffRounds.FirstRoundRefusedAsWritten | PlayoffRounds.CorrectedFirstRoundBuilt |
| src/league/season/playoffs.rs:1180-1183 | `num_bye_teams` special-cases (0, 1) where `num_wild_card_teams` special-cases (1, 0) | a single conference: 0 wild-card winners, but the bye count computes 1 − 2 and fails | the same special case as the wild-card count, giving one bye | not executed | Brackets.SingleConferenceByesFail | Brackets.WinnersBracketByesCorrectedTotal |
| src/league/season/playoffs.rs:276-288 | `add` checks for the ID only in the conference it adds to, though the validator (playoffs.rs:81-95) refuses a team in two conferences | team 7 added to conference 0 and then to conference 1 is accepted; the resulting field fails validation | admission refused when the team is in any conference | not executed | PlayoffTeams.AddAcceptsCrossConferenceDuplicate | PlayoffTeams.AddCheckedKeepsValid |
| src/league/season/playoffs.rs:2007-2013 | `gen_next_conference_rounds` pushes each conference's round as it goes and stops at the first refusal | conference 0 with 4 teams and conference 1 with 1: the first call adds conference 0's round and refuses conference 1; a second call then asks unplayed games for winners and panics | all conferences advance or none, so a retry refuses the same way | not executed | PlayoffStates.RetryAfterPartialRounds | PlayoffStates.AtomicRetryRepeats |

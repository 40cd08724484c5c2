# A verified model of the TripleO promoter and its neighbours

The DLRN promoter (`ci-scripts/dlrnapi_promoter`) moves label names such as `current-tripleo` to
newer builds. For every configured target it selects candidate hashes, judges them by the CI jobs
they passed, drives four clients in a fixed order, checks before each of them that nobody else
moved a watched label, and finally posts the label on the DLRN API server. This project models
that protocol with its state: the criteria sets held by the configuration and edited while
judging, the map of stored hash objects, the label histories on the server, the image directory
with its links, and an environment that may write labels, fail calls and report any votes at any
step. What is proved is proved for every agenda of that environment.

Around it stand models of the code beside the promoter: the hash classes, the layered
configuration, the containers exclude lists, the artifact promoter's file transaction, the log
collector with goroutines and a channel, the dashboard's own computation of the criteria, the
review-note bot, the package diff and the playbook comparison.

## Main results

* **Safety of a whole run** (`PromoterTheorems.WholeRunIsSafe`). In every interleaving and for
  every failure pattern: a hash is handed to the clients only right after a verdict with nothing
  missing; every job of the criteria as configured is then answered for by a job that passed, at
  the end of a chain of alternatives, although earlier verdicts edited the shared set; every call of
  every client carries the hash and target of the latest such attempt and follows at once on a check
  passed since; every label post belongs to it too and comes after all other allowed clients
  finished; a failed check is the last thing that happens.
* **What the check sees** (`DlrnClientTheorems.CheckVerdictIff`,
  `PromoterTheorems.OutsideChangeStopsPromotion`), in every interleaving, as an if-and-only-if.
* **The promoter never trips over itself** (`SyncTheorems.UndisturbedRunNeverTrips`): without other
  writers and with a server that stores what it is sent, no check ever fails, whatever calls fail and
  whatever replies cannot be read.
  This rests on the stored hash object getting its timestamp back after it was put in the map.
  `DlrnClientTheorems.CheckAfterRestampedPost` says exactly what happens with a server that stamps.
* **Every verdict is exact** (`VerdictTheorems.VerdictsAreExact`): in any environment, each verdict's
  missing jobs are those of the configured criteria as the earlier verdicts for that target edited them.
* **Progress** (`ProgressTheorems.CalmRunEndsNormally`, `MetCandidateIsPromoted`): when nothing
  fails and nobody interferes a run ends normally, and the outcome of each label is given by the
  criteria and the votes: the first selected candidate that meets the criteria as those before it left
  them is promoted, or the guard against promoting the incumbent again refuses it. When exactly the
  guard can be hit is stated below.
* **Which step ends a run, and how.** In any environment, turn by turn: the first label that ends in
  an exception other than PromotionError ends the run in that exception and in that label's state
  (`RunLaws.RunOutcome`); a label ends as the first of its candidates to decide does
  (`RunLaws.LabelOutcome`); a candidate's promotion ends at the first client whose check or call
  fails, without a post, a stored hash or a later call (`DrivingLaws.FailedClientStops`,
  `FailedCheckStops`), and it returns normally, or posts at all, only when all the other clients got
  through (`DrivingLaws.ReturnsIff`); and the DLRN client's own promotion ends at the first post that
  does not work (`DlrnClientLaws.PromoteOutcome`).
* **Everything is accounted for** (`RecordTheorems.RunIsAccountedFor`): at the end of any run each
  label's history is the one at the start with exactly the recorded writes of others and posts of the
  promoter on top, in order; and every check compared with what the first fetch stored, or, for labels
  posted since, with the promoter's own last post.
* **What is reported happened** (`CompletionTheorems.ReportedPairsAreCompleted`).
* **Label histories** over any number of promotions, faults and retries
  (`DlrnClientTheorems.RepeatedPromotions`, `RetryReachesFaultFreeLabels`).
* **File operations under any faults**: an image or artifact promotion ends in the exception of the
  first operation that does not work and is not tolerated (`QcowClients.EndsAsFirstFailure`,
  `ArtifactPromoters.EndsAsFirstFailure`, which also gives the directory it leaves).
* **Flattening refines the layers** of the configuration (`LayeredConfig.FlatteningRefines`), with
  termination for acyclic references; what a setting reads as is given by the layers, the constructors,
  the filters and the settings it refers to (`LayeredConfig.ReadIs`).
* **Schedule independence** of the log collector (`FanIn.TotalsAreScheduleIndependent`): what is filed
  counts the failures and the other results in the logs, without deadlock and with every schedule
  bounded.
* **Two implementations of one rule** agree (`RuckRover.DashboardAgreesWithPromoter`), and settled
  reports give the dashboard's colour in any order (`RuckRover.ColourOfReports`).

Seven expectations turned out to hold only under a condition, which is proved exact, with an input
that fails:

* A later candidate is judged as the configured criteria would judge it if and only if the edited set
  and the configured one cover each other: each job of one is met by whatever meets some job of the
  other (`Criteria.LaterVerdictsAgreeIff`, for all alternatives). When alternatives have none of their
  own, that means that no job from outside has been switched in (`OneLevelVerdictsAgreeIff`). It can
  fail both ways (`CarriedOverSubstitutionRefuses`, `TwoLevelsLetPass`).
* The guard against promoting the incumbent again, which the code takes to be unreachable: over all
  votes, and without any interference, some make a label end in its PromotionError if and only if the
  DLRN client is allowed and some selected candidate heads the target, the first one when nothing is
  required (`ProgressTheorems.SomeVotesHitGuardIff`). When the server lists at least one entry of the target,
  such candidates are exactly the aggregates whose
  commit, distro, extended hash, timestamp and component are those of a commit/distro incumbent
  (`SelectedHeadsIff`, `NoVotesHitGuardIffNoTwin`), as in `TwinsHitTheGuard`. With hashes of one class
  there are none (`OneClassNeverHitsGuard`).
* No rollback runs on the image directory, and a later client's failure makes the next run promote the
  same candidate again. Whatever faults the first attempt had, a second, fault-free one reaches what one
  fault-free promotion reaches if and only if (`QcowClients.RetryRepairsIff`): when the first attempt
  made its last link, there is no previous link to move, or it would have been at the candidate
  anyhow; when it did not, the target link was not removed, or there is no previous link to move, or it
  was moved already, or it still stands at the old target. Otherwise the previous link does not end up at the old target,
  as after a success that is repeated (`RepeatingLosesTheIncumbent`, `SwallowedReadLosesTheIncumbent`)
  or a fault between the links (`IncumbentIsLost`).
* A failed artifact promotion restores the files if and only if the artifact's name is not a
  dangling link (`ArtifactPromoters.FailuresRestoreIffNotDangling`, `DanglingIsNotRestored`); a success
  leads to a file if and only if the name does not lead through the label (`SuccessLeadsToFileIff`,
  `SuccessClosesLoop`).
* Whether a job counts as passed on the dashboard is independent of the order of its reports if and
  only if it has no success, no failure, or a success newer than every failure
  (`RuckRover.VerdictIsOrderIndependentIff`, `OrderDecides`).
* Adding a review to any note twice on one day changes nothing the second time if and only if it was
  there today already, or neither stands before the place of insertion nor clashes with the date
  heading (`ReviewNotes.SecondAddIsNoOpIff`, `DateWordIsAddedAgain`, `OlderReviewIsAddedAgain`).
* Applying a package diff rebuilds the test build if and only if no changed package has the very
  version that marks absence (`PackageDiffs.ApplyRebuildsIff`, `MarkerVersionIsLost`); versions the
  tool produces have none.

## How the model is built

Code that changes objects is modelled by classes and methods (`DlrnClients`, `Promoters`,
`QcowClients`, `ArtifactPromoters`, `FanIn`, and loops elsewhere). Each method is proved equal to a
function on values, and the properties are lemmas about these functions, over sequences of
operations. `PromotionApi` holds the server and the environment: each call that leaves the promoter
consumes one `Turn` of an arbitrary agenda, in which others write labels, the call may fail in any
exception, the server may store something else than it was sent or answer with something unreadable, and CI
reports some set of passed jobs. Events are recorded in a trace that the safety statements are
about; the trace is the model's own. What ends an operation, and in which exception, is stated on the
turns themselves (`DlrnClientLaws`, `DrivingLaws`, `RunLaws`), so that it does not rest on what was
recorded.

Where code and comments differ the model follows the code: `QcowClient.promote` returns normally
when its last symlink fails, it updates a previous link only when there is one, the notes for its
rollback file the old target under the literal word `target_label`, and the artifact promoter's
rollback unlinks a label that is gone already and so never links it again.

## Model

| member | source | states |
|---|---|---|
| DlrnHashes.Build | ci-scripts/dlrnapi_promoter/dlrn_hash.py:61-127 | A hash that can be built passed the sanity check of its class |
| DlrnHashes.New | ci-scripts/dlrnapi_promoter/dlrn_hash.py:418-447 | The dispatch yields only hashes that passed the check of the class chosen |
| DlrnHashes.RebuildFromDict | ci-scripts/dlrnapi_promoter/dlrn_hash.py:228-241 | Building a hash from the dictionary another one dumps succeeds, with the same class, an equal hash in both directions, the same full hash and the same dump |
| DlrnHashes.RebuildFromApi | ci-scripts/dlrnapi_promoter/dlrn_hash.py:377-387 | The same through the parameters posted to the API, so a post that the server echoes is fetched as an equal hash |
| DlrnHashes.EqSymmetry | ci-scripts/dlrnapi_promoter/dlrn_hash.py:314-332 | Exactly when equality gives the same answer from both sides, across the two classes |
| DlrnHashes.EqualHashesShareNames | ci-scripts/dlrnapi_promoter/dlrn_hash.py:192-226 | Equal hashes of one class have one full hash and post the same parameters; what a full hash is made of is stated by SharedFullHashIff |
| DlrnHashes.SharedFullHashIff | ci-scripts/dlrnapi_promoter/dlrn_hash.py:211-226 | Two hashes of one class have one full hash if and only if they are the same build: equal aggregates; or equal commits, distro hashes equal in their first eight characters, and extended hashes both missing or equal in the first eight characters of each half |
| DlrnHashes.ExtendedHashesAreKeptApart | ci-scripts/dlrnapi_promoter/dlrn_hash.py:211-226 | Two hashes that differ only in the second half of the extended hash, with their different full hashes |
| DlrnHashes.HexDigitsParse | ci-scripts/dlrnapi_promoter/dlrn_hash.py:14-24 | Every string of hexadecimal digits but the empty one is accepted |
| DlrnHashes.OnlyHexParses | ci-scripts/dlrnapi_promoter/dlrn_hash.py:14-24 | An accepted string has a digit, and beside digits only blanks, signs, underscores and the letter of a prefix |
| DlrnHashes.ExtendedPassesIff | ci-scripts/dlrnapi_promoter/dlrn_hash.py:27-40 | An extended hash passes if and only if it is unset or two hexadecimal halves around an underscore; other text is a DlrnHashError |
| DlrnHashes.SanityIff | ci-scripts/dlrnapi_promoter/dlrn_hash.py:140-149 | The sanity check passes if and only if commit and distro, and for an aggregate its hash, are hexadecimal and the extended hash passes |
| DlrnHashes.SourceDecides | ci-scripts/dlrnapi_promoter/dlrn_hash.py:100-114 | A source with every attribute decides alone, whatever keywords are given beside it |
| DlrnClients.HashesToHashes | ci-scripts/dlrnapi_promoter/dlrn_client.py:237-259 | The loop builds fresh objects whose values are the specified conversion of the answer |
| DlrnClientSpec.FetchOne | ci-scripts/dlrnapi_promoter/dlrn_client.py:275-335 | A fetch with count 1 reads the newest entry alone: a hash, or an empty list when there is none or it has the old format |
| DlrnClients.DlrnClient.FetchPromotions | ci-scripts/dlrnapi_promoter/dlrn_client.py:275-335 | One call to the API; returns the converted answer as fresh objects, or raises what the call, with any exception, or the conversion raises |
| DlrnClients.DlrnClient.FetchLatest | ci-scripts/dlrnapi_promoter/dlrn_client.py:275-286 | The fetch with count 1, as an optional object |
| DlrnClients.DlrnClient.FetchCurrentNamedHashes | ci-scripts/dlrnapi_promoter/dlrn_client.py:117-140 | One fetch per configured target in order; what was fetched before an error is stored already |
| DlrnClients.DlrnClient.CheckNamedHashesUnchanged | ci-scripts/dlrnapi_promoter/dlrn_client.py:142-164 | Raises HashChangedError exactly when a stored and fetched label compares unequal, and never changes what is stored |
| DlrnClients.DlrnClient.GetPromotionAggregateHashes | ci-scripts/dlrnapi_promoter/dlrn_client.py:427-502 | Takes one step outside and succeeds, or raises a PromotionError or another exception |
| DlrnClients.DlrnClient.PostHash | ci-scripts/dlrnapi_promoter/dlrn_client.py:537-582 | The map gets the very object promoted; its timestamp, cleared in between, is back on return, and lost only when the reply cannot be read |
| DlrnClients.DlrnClient.PromoteHash | ci-scripts/dlrnapi_promoter/dlrn_client.py:504-582 | The same, after the components of an aggregate were collected, which may fail |
| DlrnClients.DlrnClient.Promote | ci-scripts/dlrnapi_promoter/dlrn_client.py:337-382 | New server state, stored values and error are the specified ones, and the promoted object keeps its value |
| DlrnClientTheorems.ConvertDump | ci-scripts/dlrnapi_promoter/dlrn_client.py:237-250 | A posted hash in the long format is fetched back equal |
| DlrnClientTheorems.FetchNamedReads | ci-scripts/dlrnapi_promoter/dlrn_client.py:117-140 | Without other writers, fetching the named hashes reads each label's newest entry, and fails only because a call or a label cannot be read |
| DlrnClientTheorems.StoringSyncs | ci-scripts/dlrnapi_promoter/dlrn_client.py:117-140 | Fetching with store puts the client in agreement with the server, whatever it stored before |
| DlrnClientTheorems.CheckInSync | ci-scripts/dlrnapi_promoter/dlrn_client.py:142-164 | In agreement, the check fails only because a call fails |
| DlrnClientTheorems.FetchReadsEach | ci-scripts/dlrnapi_promoter/dlrn_client.py:117-140 | In any interleaving, the fetched map is what each label reads as at its own fetch, or the first error |
| DlrnClientTheorems.CheckVerdictIff | ci-scripts/dlrnapi_promoter/dlrn_client.py:142-164 | In any interleaving, the check passes if and only if every label reads as nothing or as its stored hash at its fetch, and reports a change if and only if all can be read and one differs |
| DlrnClientTheorems.PromoteHashKeepsSync | ci-scripts/dlrnapi_promoter/dlrn_client.py:552-582 | Posting a hash to an echoing server keeps the agreement, thanks to the restored timestamp |
| DlrnClientTheorems.PromoteKeepsSync | ci-scripts/dlrnapi_promoter/dlrn_client.py:337-382 | So does a promotion with its previous label, completed or failed half-way |
| DlrnClientTheorems.SessionKeepsSync | ci-scripts/dlrnapi_promoter/dlrn_client.py:111-164 | So does any sequence of own promotions |
| DlrnClientTheorems.OwnPromotionsNeverTripTheCheck | ci-scripts/dlrnapi_promoter/dlrn_client.py:111-164 | After storing and any own promotions, to any targets, whose replies can be read, the check never reports a change, and passes when no call fails |
| DlrnClientTheorems.CheckComparesOne | ci-scripts/dlrnapi_promoter/dlrn_client.py:148-164 | When every other label agrees, the verdict is the comparison of this one |
| DlrnClientTheorems.CheckAfterRestampedPost | ci-scripts/dlrnapi_promoter/dlrn_client.py:552-582 | After a post to a server that may stamp it, the next check passes exactly when what the server kept equals what was sent, timestamp included |
| DlrnClientTheorems.PromoteEffect | ci-scripts/dlrnapi_promoter/dlrn_client.py:337-382 | A completed promotion heads the target with the candidate and the previous label with the incumbent, and touches nothing else |
| DlrnClientTheorems.RepeatedPromotions | ci-scripts/dlrnapi_promoter/dlrn_client.py:337-382 | After n promotions the target's history is c_n to c_1 on the old one, the previous label's c_(n-1) to c_1 and the first incumbent on the old one; others are untouched |
| DlrnClientTheorems.LatestAndPrevious | ci-scripts/dlrnapi_promoter/dlrn_client.py:365-382 | The two newest entries are then c_n and c_(n-1) |
| DlrnClientTheorems.RepromotingPostsNothing | ci-scripts/dlrnapi_promoter/dlrn_client.py:352-362 | So a second call right after a completed one raises PromotionError and changes neither labels nor stored hashes |
| DlrnClientTheorems.FailedAttemptEffect | ci-scripts/dlrnapi_promoter/dlrn_client.py:365-382 | A promotion that failed in whatever exception leaves all labels but the previous one, and that at its old head or the incumbent |
| DlrnClientTheorems.FailedAttemptsEffect | ci-scripts/dlrnapi_promoter/dlrn_client.py:365-382 | So do any number of failed attempts |
| DlrnClientTheorems.CalmPromotionCompletes | ci-scripts/dlrnapi_promoter/dlrn_client.py:337-382 | Without faults a promotion completes unless the candidate heads the label already or the label cannot be read |
| DlrnClientTheorems.RetryReachesFaultFreeLabels | ci-scripts/dlrnapi_promoter/dlrn_client.py:504-582 | After any failed attempts, in whatever exceptions, a completed retry leaves every label's head as one fault-free promotion does, and that one completes |
| DlrnClientLaws.ConvertReads | ci-scripts/dlrnapi_promoter/dlrn_client.py:237-250 | What an entry of a label reads as: a TypeError without an extended hash, nothing in the old format, a DlrnHashError when a part is malformed, and else a hash with its attributes, of the class its aggregate says |
| DlrnClientLaws.FetchIs | ci-scripts/dlrnapi_promoter/dlrn_client.py:275-335 | A fetch of the newest entry ends in its turn's exception, if any; otherwise it reads the label's newest entry after the others' writes of that turn |
| DlrnClientLaws.CheckOutcome | ci-scripts/dlrnapi_promoter/dlrn_client.py:142-164 | A check ends in the exception of the first label that cannot be read, without a further turn; when all can be read it passes or reports a change |
| DlrnClientLaws.PostOutcome | ci-scripts/dlrnapi_promoter/dlrn_client.py:504-582 | A post is made if and only if none of its turns fails, is stored if and only if its reply can be read as well, and ends in the exception of the first turn that fails |
| DlrnClientLaws.PromoteOutcome | ci-scripts/dlrnapi_promoter/dlrn_client.py:337-382 | In any interleaving: error, stored hashes, posts and number of turns of a promotion, which ends at the fetch when that fails or finds an equal hash, and else at the first post that does not work |
| DlrnClientLaws.PostsArePlanned | ci-scripts/dlrnapi_promoter/dlrn_client.py:351-382 | In any interleaving a promotion posts a prefix of: the incumbent as previous, then the candidate; a normal return means all of it |
| Criteria.MissingAfterSubstitution | ci-scripts/dlrnapi_promoter/logic.py:248-262 | What is missing after the switches is exactly what was required, did not pass, and has no passed alternative |
| Criteria.FindPassing | ci-scripts/dlrnapi_promoter/logic.py:254-259 | The search through the alternatives of a job finds the first that passed: none before it did; and none if and only if none passed |
| Criteria.SwitchAlternatives | ci-scripts/dlrnapi_promoter/logic.py:249-259 | The set edited in place, in any order of the missing jobs, holds exactly what the required jobs now are, a job without a pass the first of its alternatives that passed; removing never misses its key |
| Criteria.SubstituteIs | ci-scripts/dlrnapi_promoter/logic.py:249-259 | The specified set holds exactly, for each required job, the job itself when it passed or no alternative did, and else the first alternative that passed, which is one job |
| Criteria.FirstAlternativeIsSwitchedIn | ci-scripts/dlrnapi_promoter/logic.py:254-259 | A run in which both alternatives passed, the first is switched in, and a later candidate passes by it |
| Criteria.SubstituteRepresents | ci-scripts/dlrnapi_promoter/logic.py:253-259 | One candidate's switches keep every original job represented at the end of a chain of alternatives |
| Criteria.AfterCandidatesRepresents | ci-scripts/dlrnapi_promoter/logic.py:232-259 | So do the switches of any sequence of candidates on the one shared set |
| Criteria.NothingMissing | ci-scripts/dlrnapi_promoter/logic.py:249-271 | A candidate without missing jobs against the edited set has a passed job for each original job, its own or an alternative of its own when alternatives have one level |
| Criteria.RequiredNeverGrows | ci-scripts/dlrnapi_promoter/logic.py:253-259 | However many candidates are judged, the shared set has at most its first size |
| Criteria.OneLevelEntries | ci-scripts/dlrnapi_promoter/logic.py:253-259 | With one-level alternatives each original job, or one of its alternatives, is still in the set |
| Criteria.MetLaterIsMetOriginally | ci-scripts/dlrnapi_promoter/logic.py:232-271 | With one-level alternatives, meeting the edited criteria implies meeting the configured ones |
| Criteria.AlwaysMeetsIff | ci-scripts/dlrnapi_promoter/logic.py:248-265 | For any two sets of required jobs, whoever meets one meets the other if and only if each job of the other is met by whatever meets some job of the one |
| Criteria.FirstMetIs | ci-scripts/dlrnapi_promoter/logic.py:236-283 | The first candidate to be attempted is the first that meets the set as the candidates before it left it |
| Criteria.LaterVerdictsAgreeIff | ci-scripts/dlrnapi_promoter/logic.py:232-271 | For all alternatives, edited and configured criteria give the same verdict on every candidate if and only if they cover each other |
| Criteria.OneLevelVerdictsAgreeIff | ci-scripts/dlrnapi_promoter/logic.py:232-271 | With one-level alternatives, if and only if the edited set is within the configured one |
| Criteria.TwoLevelsLetPass | ci-scripts/dlrnapi_promoter/logic.py:253-259 | A run with alternatives of alternatives in which a candidate passes that does not meet the configured criteria |
| Criteria.CarriedOverSubstitutionRefuses | ci-scripts/dlrnapi_promoter/logic.py:257-258 | A run in which a candidate that passed every configured job is refused |
| ClientOrder.SortDescending | ci-scripts/dlrnapi_promoter/logic.py:173-177 | The sort is a permutation in descending order |
| ClientOrder.LessIs | ci-scripts/dlrnapi_promoter/logic.py:177 | The order is alphabetical: one string is less exactly when at the first place where they differ it ends or has the smaller character |
| ClientOrder.DlrnComesLast | ci-scripts/dlrnapi_promoter/logic.py:173-177 | Among the known clients, sorted, nothing comes after the DLRN client |
| ClientOrder.SortKeepsClients | ci-scripts/dlrnapi_promoter/logic.py:177 | Sorting keeps the clients, each once |
| Promoters.Promoter.SelectCandidates | ci-scripts/dlrnapi_promoter/logic.py:95-149 | The candidates returned, or the error, and the server afterwards are the specified ones, which RunLaws.SelectionOutcome and CandidateTheorems.SelectedAreNew give |
| Promoters.Promoter.MapCandidates | ci-scripts/dlrnapi_promoter/logic.py:110-114 | The map has every candidate's full hash, with the candidate label |
| Promoters.Promoter.MarkPromoted | ci-scripts/dlrnapi_promoter/logic.py:125-131 | Exactly those full hashes of the map that occur in the target's history get the target label |
| Promoters.Promoter.FirstPromoted | ci-scripts/dlrnapi_promoter/logic.py:110-140 | The map of labels finds the first candidate whose full hash occurs in the target's history, or whose label is the target |
| Promoters.SelectStops | ci-scripts/dlrnapi_promoter/logic.py:135-140 | Cutting the list at the first promoted candidate is the specified selection |
| Promoters.Promoter.RunClient | ci-scripts/dlrnapi_promoter/logic.py:188-199 | One client's promotion reaches the specified state and raises the specified exception, which DrivingLaws gives by the turn the call meets |
| Promoters.Promoter.Promote | ci-scripts/dlrnapi_promoter/logic.py:170-204 | Driving the sorted clients with a check before each reaches the specified state, which DrivingLaws gives turn by turn |
| Promoters.Promoter.JudgeCandidate | ci-scripts/dlrnapi_promoter/logic.py:248-265 | The configuration's own set is edited, and the missing jobs are those of the edited set |
| Promoters.Promoter.AttemptCandidate | ci-scripts/dlrnapi_promoter/logic.py:273-278 | The attempt is recorded, and driving the clients follows on it |
| Promoters.Promoter.TryOne | ci-scripts/dlrnapi_promoter/logic.py:237-278 | One round of the loop: a failed call stops it, missing jobs let it go on, and otherwise the candidate is attempted |
| Promoters.Promoter.TryCandidates | ci-scripts/dlrnapi_promoter/logic.py:236-283 | The loop over the candidates reaches the specified state and returns the promoted object |
| Promoters.Promoter.PromoteLabelToLabel | ci-scripts/dlrnapi_promoter/logic.py:206-287 | So does one label |
| Promoters.Promoter.PromoteAll | ci-scripts/dlrnapi_promoter/logic.py:289-320 | So does a whole run, with its list of promoted pairs, which RunLaws.RunOutcome gives label by label |
| PromoterTheorems.PromotionIsSafe | ci-scripts/dlrnapi_promoter/logic.py:170-204 | In any interleaving and under any failures, a passed check directly precedes each call, a recorded post comes only after all the other clients are recorded as finished, and a failed check ends the promotion; that they are recorded so only when their calls did not fail is DrivingLaws.ReturnsIff |
| PromoterTheorems.OutsideChangeStopsPromotion | ci-scripts/dlrnapi_promoter/logic.py:185-199 | When the check before a client reads a stored label as another hash, neither it nor a later client is called and nothing is posted |
| PromoterTheorems.JudgingIsLawful | ci-scripts/dlrnapi_promoter/logic.py:248-271 | A verdict keeps all invariants of a run and edits one configured set |
| PromoterTheorems.AttemptIsLawful | ci-scripts/dlrnapi_promoter/logic.py:265-278 | An attempt is justified by the verdict right before it |
| PromoterTheorems.TryingIsSafe | ci-scripts/dlrnapi_promoter/logic.py:236-283 | Trying candidates keeps the invariants of a run |
| PromoterTheorems.LabelIsSafe | ci-scripts/dlrnapi_promoter/logic.py:206-287 | So does one label |
| PromoterTheorems.RestIsSafe | ci-scripts/dlrnapi_promoter/logic.py:299-316 | So do the remaining labels; which of them are reached is RunLaws.RestOutcome |
| PromoterTheorems.WholeRunIsSafe | ci-scripts/dlrnapi_promoter/logic.py:289-320 | The safety of any run from any state in any environment, as described under Main results |
| DrivingLaws.FailedClientStops | ci-scripts/dlrnapi_promoter/logic.py:185-199 | When the checks and calls before it got through and the turn that a client's call meets fails, the promotion ends in that turn's exception, having called exactly the clients up to it, posted nothing and stored nothing |
| DrivingLaws.FailedCheckStops | ci-scripts/dlrnapi_promoter/logic.py:185-187 | A check that does not pass ends the promotion before its client is called, in the exception of the first label that cannot be read, or in HashChangedError |
| DrivingLaws.UnknownClientStops | ci-scripts/dlrnapi_promoter/logic.py:186 | A name that is no client ends the promotion in an AttributeError before its check |
| DrivingLaws.DlrnClientDecides | ci-scripts/dlrnapi_promoter/logic.py:185-204 | When all the others got through, the promotion ends as the DLRN client's own promotion from there, with its previous label kept |
| DrivingLaws.ReturnsIff | ci-scripts/dlrnapi_promoter/logic.py:170-204 | A post or a normal return needs every other client to have got through, check and call; and it returns normally if and only if they did and the DLRN client, if there is one, completed |
| DrivingLaws.DrivingReturnsIff | ci-scripts/dlrnapi_promoter/logic.py:170-204 | The same for the allowed clients of any configuration |
| RunLaws.ConvertAllRaises | ci-scripts/dlrnapi_promoter/dlrn_client.py:237-259 | Converting an answer fails if and only if some entry cannot be converted, and as the first such entry does |
| RunLaws.SelectionOutcome | ci-scripts/dlrnapi_promoter/logic.py:95-149 | In any environment: selecting ends in the exception of the turn or conversion that fails first, of the candidates' query or the target's, in a TypeError for one hash instead of a list, and else in the selection from the two answers |
| RunLaws.TryingOutcome | ci-scripts/dlrnapi_promoter/logic.py:236-283 | In any environment: the first candidate whose jobs cannot be fetched, or that misses nothing of the set as those before it left it, decides; the outcome is the failing query's exception, or that of driving the clients from exactly that state, or nothing |
| RunLaws.LabelOutcome | ci-scripts/dlrnapi_promoter/logic.py:206-287 | One label ends as its selection does when that fails or finds nothing, in a KeyError without criteria, and else as trying the selected candidates does |
| RunLaws.RestOutcome | ci-scripts/dlrnapi_promoter/logic.py:299-316 | The labels of a run: the first that ends in an exception other than PromotionError ends the run with it, in the state it left, reporting the labels before it; otherwise all are tried and the run ends normally |
| RunLaws.RunOutcome | ci-scripts/dlrnapi_promoter/logic.py:289-320 | A whole run: it ends in the exception of the first fetch that fails, with what was read before it stored, or else as its labels do |
| RecordTheorems.RunIsAccountedFor | ci-scripts/dlrnapi_promoter/logic.py:289-320 | In any environment: histories change by exactly the recorded writes and posts, when the server stores what it is sent; every check compares with what the first fetch stored, or with the last own post of the label, and passes exactly when nothing fetched differs |
| VerdictTheorems.JudgingKeepsExact | ci-scripts/dlrnapi_promoter/logic.py:248-265 | A verdict's missing jobs are those of the set that the earlier verdicts left, and it leaves that set edited by its own passed jobs |
| VerdictTheorems.VerdictsAreExact | ci-scripts/dlrnapi_promoter/logic.py:232-265 | In any environment, every verdict of a run is exact in the configured criteria, the earlier verdicts for the target and the passed jobs, and the configuration ends up with the sets that they left |
| CandidateTheorems.ConvertAllReads | ci-scripts/dlrnapi_promoter/dlrn_client.py:237-259 | The converted list is in the answer's order, without repetitions, and leaves out only old-format entries and repetitions |
| CandidateTheorems.SelectIsLongestUnpromotedPrefix | ci-scripts/dlrnapi_promoter/logic.py:133-140 | The selection is the longest prefix of the candidates without a full hash of the target's history, and empty when both labels are one |
| CandidateTheorems.SelectedAreNew | ci-scripts/dlrnapi_promoter/logic.py:110-140 | For hashes of one class without underscores in commit and distro: a candidate is selected if and only if neither it nor a newer one is the same build as anything in the target's history |
| CandidateTheorems.SelectedAre | ci-scripts/dlrnapi_promoter/logic.py:95-149 | The same for what a selection returns from the server, for any histories; nothing when both labels are one |
| CandidateTheorems.TriedInOrder | ci-scripts/dlrnapi_promoter/logic.py:236-283 | Candidates are judged newest first, at most one is attempted, every newer one had a missing job in its verdict; without a promotion and error all were judged |
| CandidateTheorems.LabelDecidesInOrder | ci-scripts/dlrnapi_promoter/logic.py:206-287 | The same for a label, on the selected candidates |
| CompletionTheorems.ClientsCalledInOrder | ci-scripts/dlrnapi_promoter/logic.py:185-204 | The clients called, with the hash and the target, are a prefix of the sorted list; a normal return means all were called and finished, and the DLRN client posted the hash |
| CompletionTheorems.TryingCompletes | ci-scripts/dlrnapi_promoter/logic.py:276-283 | A hash returned as promoted is a candidate whose promotion was completed by all clients |
| CompletionTheorems.ReportedPairsAreCompleted | ci-scripts/dlrnapi_promoter/logic.py:295-320 | For every reported pair the hash was attempted, every allowed client then finished, and the label was posted; targets come in their order, each at most once |
| SyncTheorems.DrivingIsClean | ci-scripts/dlrnapi_promoter/logic.py:185-199 | Without other writers, driving the clients never sees a changed hash and stays in agreement |
| SyncTheorems.UndisturbedRunNeverTrips | ci-scripts/dlrnapi_promoter/logic.py:289-320 | A whole run without other writers on an echoing server never sees a changed hash, whatever calls fail |
| ProgressTheorems.DlrnPromoteCalm | ci-scripts/dlrnapi_promoter/dlrn_client.py:351-382 | On a calm server the DLRN client fails exactly when the hash heads the target already |
| ProgressTheorems.DrivingCalm | ci-scripts/dlrnapi_promoter/logic.py:185-204 | So does driving all clients |
| ProgressTheorems.SelectingCalm | ci-scripts/dlrnapi_promoter/logic.py:95-149 | Selecting succeeds, and changes no label |
| ProgressTheorems.SelectedHeadsIff | ci-scripts/dlrnapi_promoter/logic.py:133-140 | The selected candidates that head the target are exactly the aggregates equal to a commit/distro incumbent in the five compared attributes |
| ProgressTheorems.TryingCalm | ci-scripts/dlrnapi_promoter/logic.py:236-283 | The outcome of trying candidates is given by the criteria and the votes |
| ProgressTheorems.MetCandidateIsPromoted | ci-scripts/dlrnapi_promoter/logic.py:206-287 | The outcome of one label from the criteria and the votes: nothing when no selected candidate meets the criteria in its turn; otherwise the first that does, or a PromotionError when that one heads the target and the DLRN client is allowed |
| ProgressTheorems.SomeVotesHitGuardIff | ci-scripts/dlrnapi_promoter/dlrn_client.py:352-362 | Some votes make a label end in PromotionError if and only if the DLRN client is allowed and some selected candidate heads the target, the first one when nothing is required |
| ProgressTheorems.NoVotesHitGuardIffNoTwin | ci-scripts/dlrnapi_promoter/dlrn_client.py:352-362 | With some criteria, no votes do if and only if no selected candidate is a twin of the incumbent |
| ProgressTheorems.OneClassNeverHitsGuard | ci-scripts/dlrnapi_promoter/dlrn_client.py:352-362 | With hashes of one class in both labels the guard is never hit |
| ProgressTheorems.TwinsHitTheGuard | ci-scripts/dlrnapi_promoter/dlrn_client.py:352-362 | A run with a commit/distro incumbent and its aggregate twin as candidate, which hits the guard |
| ProgressTheorems.CalmRunEndsNormally | ci-scripts/dlrnapi_promoter/logic.py:289-320 | A run on a calm server with readable histories ends without an exception |
| QcowClients.QcowClient.Prepare | ci-scripts/dlrnapi_promoter/qcow_client.py:179-201 | What ends the promotion before the links are looked at |
| QcowClients.QcowClient.MovePrevious | ci-scripts/dlrnapi_promoter/qcow_client.py:238-265 | The previous link becomes the old target, or is as before or gone when an operation failed |
| QcowClients.QcowClient.MoveLinks | ci-scripts/dlrnapi_promoter/qcow_client.py:203-282 | Moving the links reaches the specified directory, error and rollback notes under every combination of faults |
| QcowClients.QcowClient.Promote | ci-scripts/dlrnapi_promoter/qcow_client.py:165-284 | So does the whole promotion, where each operation works, raises an EnvironmentError, or raises another exception |
| QcowClients.NormalReturn | ci-scripts/dlrnapi_promoter/qcow_client.py:203-284 | After a normal return the target links to the candidate unless the last symlink failed, and the previous link is the old target exactly when both links were read and it was asked for |
| QcowClients.EveryExit | ci-scripts/dlrnapi_promoter/qcow_client.py:190-284 | On every exit no third name changed, an absent previous link was not created, the previous link is as its last operation left it, and an exception leaves the target as it was or removed |
| QcowClients.EndsAsFirstFailure | ci-scripts/dlrnapi_promoter/qcow_client.py:165-284 | For any faults: a promotion returns normally if and only if no operation it comes to ends it, and otherwise raises as the first that does; reads, the last link and the look at the images are tolerated to fail |
| QcowClients.NotesAre | ci-scripts/dlrnapi_promoter/qcow_client.py:211-241 | What is noted for a rollback: the old target under a word that is no label, when it was read, and the old previous link when its move is come to |
| QcowClients.JoinIs | ci-scripts/dlrnapi_promoter/qcow_client.py:268-271 | A directory's name and the hash are joined by one slash, whether the directory ends in one or not |
| QcowClients.TargetAndPrevious | ci-scripts/dlrnapi_promoter/qcow_client.py:203-284 | After n fault-free promotions from both links, the links are at c_n and c_(n-1) and nothing else changed |
| QcowClients.RetryRepairsIff | ci-scripts/dlrnapi_promoter/qcow_client.py:165-284 | For any faults and any directory, a fault-free promotion after an attempt reaches what one fault-free promotion reaches, if and only if the attempt was harmless, when it made its last link, or repairable, when it did not |
| QcowClients.RepeatingLosesTheIncumbent | ci-scripts/dlrnapi_promoter/qcow_client.py:238-271 | A directory in which repeating a successful promotion leaves no link to the old target |
| QcowClients.SwallowedReadLosesTheIncumbent | ci-scripts/dlrnapi_promoter/qcow_client.py:225-234 | A directory in which a swallowed failure to read the previous link does |
| QcowClients.RetryLosesTheIncumbent | ci-scripts/dlrnapi_promoter/qcow_client.py:213-265 | A retry moves the target and leaves the previous link as the failed attempt left it |
| QcowClients.IncumbentIsLost | ci-scripts/dlrnapi_promoter/qcow_client.py:253-265 | A directory in which no link leads to the old target after a fault and a retry |
| ArtifactPromoters.FileArtifactPromoter.Validate | ci-scripts/infra-setup/roles/artifact_promoter/module_utils/artifact_promoter/artifact_promoter.py:80-95 | True exactly for a listed pair, or when nothing is listed |
| ArtifactPromoters.FileArtifactPromoter.Rollback | ci-scripts/infra-setup/roles/artifact_promoter/module_utils/artifact_promoter/artifact_promoter.py:97-123 | Removes what is there, and links a label again only if it could unlink it |
| ArtifactPromoters.FileArtifactPromoter.CreateArtifact | ci-scripts/infra-setup/roles/artifact_promoter/module_utils/artifact_promoter/artifact_promoter.py:218-236 | The file as created so far and what a rollback must remove, for each fault |
| ArtifactPromoters.FileArtifactPromoter.MoveLabel | ci-scripts/infra-setup/roles/artifact_promoter/module_utils/artifact_promoter/artifact_promoter.py:238-277 | Unlinking and linking reach the specified directory and error under every fault |
| ArtifactPromoters.FileArtifactPromoter.PromoteFileArtifact | ci-scripts/infra-setup/roles/artifact_promoter/module_utils/artifact_promoter/artifact_promoter.py:196-277 | The whole promotion is the specified transaction under every combination of faults |
| ArtifactPromoters.FailureRestores | ci-scripts/infra-setup/roles/artifact_promoter/module_utils/artifact_promoter/artifact_promoter.py:196-277 | A PromoterError exit restores the directory exactly, except that the label is gone when the file was provided and the new link failed after the unlink |
| ArtifactPromoters.EndsAsFirstFailure | ci-scripts/infra-setup/roles/artifact_promoter/module_utils/artifact_promoter/artifact_promoter.py:184-278 | For any faults: a promotion succeeds if and only if no operation it comes to ends it, and otherwise ends in the exception of the first that does, PromoterError or another, leaving the directory as that operation found it less what the rollback removed |
| ArtifactPromoters.RelinkRestores | ci-scripts/infra-setup/roles/artifact_promoter/module_utils/artifact_promoter/artifact_promoter.py:238-277 | The same for the part after the file was provided |
| ArtifactPromoters.FailuresRestoreIffNotDangling | ci-scripts/infra-setup/roles/artifact_promoter/module_utils/artifact_promoter/artifact_promoter.py:207-236 | Failures restore for all contents and faults if and only if the artifact's name is no dangling link |
| ArtifactPromoters.DanglingIsNotRestored | ci-scripts/infra-setup/roles/artifact_promoter/module_utils/artifact_promoter/artifact_promoter.py:221-236 | A directory with a dangling link that a failure does not restore |
| ArtifactPromoters.OldFilesSurvive | ci-scripts/infra-setup/roles/artifact_promoter/module_utils/artifact_promoter/artifact_promoter.py:97-123 | No exit of any kind removes or rewrites a file that was there before |
| ArtifactPromoters.SuccessChanges | ci-scripts/infra-setup/roles/artifact_promoter/module_utils/artifact_promoter/artifact_promoter.py:196-277 | After a success the label links to the artifact, its file is new with the content or as it was, and nothing else changed |
| ArtifactPromoters.SuccessLeadsToFileIff | ci-scripts/infra-setup/roles/artifact_promoter/module_utils/artifact_promoter/artifact_promoter.py:265-268 | The linked name leads to that file if and only if it did not lead through the label |
| ArtifactPromoters.SuccessClosesLoop | ci-scripts/infra-setup/roles/artifact_promoter/module_utils/artifact_promoter/artifact_promoter.py:255-268 | A directory in which a success leaves a loop |
| ArtifactPromoters.FaultFreeSucceedsIff | ci-scripts/infra-setup/roles/artifact_promoter/module_utils/artifact_promoter/artifact_promoter.py:196-277 | When a promotion without faults succeeds, as an if-and-only-if on the directory |
| ArtifactPromoters.RepeatingIsNoOp | ci-scripts/infra-setup/roles/artifact_promoter/module_utils/artifact_promoter/artifact_promoter.py:246-252 | Repeating a success never changes the directory, and succeeds again exactly when the label led to a file |
| FanIn.StepKeepsInv | ci-scripts/infra-setup/roles/rrcockpit/files/mariadb/skiplist.go:58-90 | Every step of receiver and goroutines keeps: each job looked at and not skipped has arrived or is pending, not both |
| FanIn.ScheduleKeepsInv | ci-scripts/infra-setup/roles/rrcockpit/files/mariadb/skiplist.go:58-90 | So does every schedule |
| FanIn.NoDeadlock | ci-scripts/infra-setup/roles/rrcockpit/files/mariadb/skiplist.go:59-69 | In every reachable unfinished state some step can be taken |
| FanIn.FinishedMeansAllSent | ci-scripts/infra-setup/roles/rrcockpit/files/mariadb/skiplist.go:141-168 | At the end no sender is left blocked, and one message per job not skipped was taken |
| FanIn.SchedulesAreBounded | ci-scripts/infra-setup/roles/rrcockpit/files/mariadb/skiplist.go:58-90 | No schedule is longer than three steps per job |
| FanIn.Collector.Receive | ci-scripts/infra-setup/roles/rrcockpit/files/mariadb/skiplist.go:69-88 | Filing one message through the nested maps is the specified filing, in which a failed result is a 0 and any other a 1 (FanIn.FailureIsZero, FanIn.CollectedTotals) |
| FanIn.Collector.CollectData | ci-scripts/infra-setup/roles/rrcockpit/files/mariadb/skiplist.go:68-89 | So is filing all messages in the order of arrival |
| FanIn.FilingAppendsMarks | ci-scripts/infra-setup/roles/rrcockpit/files/mariadb/skiplist.go:70-88 | Filing appends to each test of the message's release its own marks, in order, and to no other list |
| FanIn.CollectedTotals | ci-scripts/infra-setup/roles/rrcockpit/files/mariadb/skiplist.go:68-89 | Each list has exactly as many 0s as there are results of its test with status FAILED in the messages of its release, and as many 1s as there are others |
| FanIn.FailureIsZero | ci-scripts/infra-setup/roles/rrcockpit/files/mariadb/skiplist.go:79-86 | One failed result is filed as 0, and one passed result as 1 |
| FanIn.NotSkippedAre | ci-scripts/infra-setup/roles/rrcockpit/files/mariadb/skiplist.go:59-66 | The messages expected are exactly those of the jobs whose status is not SKIPPED, each as often as it is listed |
| FanIn.TotalsIgnoreOrder | ci-scripts/infra-setup/roles/rrcockpit/files/mariadb/skiplist.go:68-89 | Totals are the same for any order of the messages |
| FanIn.TotalsAreScheduleIndependent | ci-scripts/infra-setup/roles/rrcockpit/files/mariadb/skiplist.go:58-90 | Every finished schedule took exactly the jobs not skipped, and each list has a 0 for each FAILED result of its test in their logs and a 1 for each other one |
| FanIn.Reverse | ci-scripts/infra-setup/roles/rrcockpit/files/mariadb/skiplist.go:113-119 | The reversed list |
| FanIn.SumResults | ci-scripts/infra-setup/roles/rrcockpit/files/mariadb/skiplist.go:121-139 | Passing is the sum, failing the rest, and the last figures are the sum and the zeros of the ten results appended last |
| FanIn.LastTenAre | ci-scripts/infra-setup/roles/rrcockpit/files/mariadb/skiplist.go:129-137 | The last figures are about the end of the list, ten of it or all |
| FanIn.LastTenSplit | ci-scripts/infra-setup/roles/rrcockpit/files/mariadb/skiplist.go:121-139 | On filed marks failing counts the failures, and the last figures add up to the smaller of ten and the length |
| LayeredConfig.SearchLayers | ci-scripts/dlrnapi_promoter/config.py:95-124 | The loop finds the setting of the first layer that has it, skips what cannot be indexed, and raises a TypeError at a list or text reached before |
| LayeredConfig.SearchFindsFirst | ci-scripts/dlrnapi_promoter/config.py:95-124 | A search finds what the first layer that has the name, or cannot be searched by name, gives; and nothing if and only if there is no such layer |
| LayeredConfig.GetIs | ci-scripts/dlrnapi_promoter/config.py:154-171 | A value is what the layers have, and only when they have nothing what the constructor builds from the settings it reads |
| LayeredConfig.ReadIs | ci-scripts/dlrnapi_promoter/config.py:195-211 | A setting reads as its value, filtered by its own filter and rendered when it is text; a failing filter or constructor is an AttributeError |
| LayeredConfig.RenderJoinsParts | ci-scripts/dlrnapi_promoter/config.py:173-193 | Rendering joins the texts of its parts in order, or fails as the first part that has none: a literal is its text, a reference the text of the setting it reads, nothing when neither the layers nor a constructor have it, and an error otherwise |
| LayeredConfig.JoinIs | ci-scripts/dlrnapi_promoter/config.py:173-193 | A join has text if and only if all parts have, and else fails as the first that has none |
| LayeredConfig.ReadIsUnique | ci-scripts/dlrnapi_promoter/config.py:195-211 | The value read does not depend on how acyclicity was shown |
| LayeredConfig.AgreeingReads | ci-scripts/dlrnapi_promoter/config.py:154-211 | Configurations that find the same settings read the same values, through constructors, filters and templates |
| LayeredConfig.FlattenFinds | ci-scripts/dlrnapi_promoter/config.py:95-124 | Searching the one flattened dictionary, with what stops the search below it, is searching the layers |
| LayeredConfig.OneDictionary | ci-scripts/dlrnapi_promoter/config.py:95-124 | Without lists and texts among the layers that is one dictionary alone |
| LayeredConfig.FlatteningRefines | ci-scripts/dlrnapi_promoter/config.py:154-211 | Reading a setting from the layers equals reading it from the flattened configuration, failures included, and that is acyclic too |
| LayeredConfig.SearchAfterChange | ci-scripts/dlrnapi_promoter/config.py:102-112 | Changing an entry under a higher one changes no search |
| LayeredConfig.UnseenEntriesDoNotMatter | ci-scripts/dlrnapi_promoter/config.py:154-211 | Changing, adding or removing a shadowed or unreachable entry never changes what a setting reads as |
| RuckRover.GetDlrnResults | ci-scripts/infra-setup/roles/rrcockpit/files/telegraf_py3/ruck_rover.py:245-269 | The loop is the specified fold over the reports |
| RuckRover.ResultsAreNewest | ci-scripts/infra-setup/roles/rrcockpit/files/telegraf_py3/ruck_rover.py:245-269 | For any order, one report per eligible job is kept; a kept success is the newest success, a kept failure the newest report |
| RuckRover.EligibleStarts | ci-scripts/infra-setup/roles/rrcockpit/files/telegraf_py3/ruck_rover.py:245-252 | The jobs counted are those whose names start with periodic or pipeline_ |
| RuckRover.SettledVerdict | ci-scripts/infra-setup/roles/rrcockpit/files/telegraf_py3/ruck_rover.py:260-266 | Settled reports give one verdict in every order |
| RuckRover.UnsettledVerdict | ci-scripts/infra-setup/roles/rrcockpit/files/telegraf_py3/ruck_rover.py:260-266 | Other reports have two orders with different verdicts |
| RuckRover.VerdictIsOrderIndependentIff | ci-scripts/infra-setup/roles/rrcockpit/files/telegraf_py3/ruck_rover.py:245-269 | The verdict is the same in all orders if and only if the reports are settled |
| RuckRover.OrderDecides | ci-scripts/infra-setup/roles/rrcockpit/files/telegraf_py3/ruck_rover.py:254-266 | Two reports that pass in one order and fail in the other |
| RuckRover.PrepareJobs | ci-scripts/infra-setup/roles/rrcockpit/files/telegraf_py3/ruck_rover.py:400-436 | Exactly one row for each reported or required job, with its status and alternatives |
| RuckRover.ToPromote | ci-scripts/infra-setup/roles/rrcockpit/files/telegraf_py3/ruck_rover.py:472-495 | The set shrunk in place is the required jobs that neither passed nor have a passed alternative, and the status follows from it and the failures |
| RuckRover.ColourOfReports | ci-scripts/infra-setup/roles/rrcockpit/files/telegraf_py3/ruck_rover.py:472-495 | From settled reports in any order: red if and only if some job was reported and never as a success; else green if and only if every required job or one of its alternatives succeeded |
| RuckRover.DashboardAgreesWithPromoter | ci-scripts/infra-setup/roles/rrcockpit/files/telegraf_py3/ruck_rover.py:472-488 | The dashboard's jobs to promote are the promoter's missing jobs |
| ReviewNotes.FindIsFirst | ci-scripts/reviewbot/utils.py:12-22 | The search used throughout finds the leftmost occurrence, or none exists |
| ReviewNotes.TagsEndIsLeftmost | ci-scripts/reviewbot/utils.py:27-30 | The tags position is the end of the leftmost part the pattern matches |
| ReviewNotes.TitleEndIs | ci-scripts/reviewbot/utils.py:33-36 | The title position is the end of a first line that the pattern matches |
| ReviewNotes.DateIndexIs | ci-scripts/reviewbot/utils.py:24-39 | A new heading goes after the first tags line, else after the title, else to the start |
| ReviewNotes.OnlyInserts | ci-scripts/reviewbot/utils.py:8-49 | Taking the inserted part out gives back the note; nothing is inserted exactly when the review is present today; what is inserted has the review |
| ReviewNotes.UnderTodaysHeading | ci-scripts/reviewbot/utils.py:41-47 | An added review stands as a bullet right under the first heading of its day |
| ReviewNotes.FirstOccurrence | ci-scripts/reviewbot/utils.py:12-19 | Where a review that did not stand before the place of insertion is found the next time |
| ReviewNotes.SecondAddIsNoOpIff | ci-scripts/reviewbot/utils.py:8-49 | For any note, a second call on the same day returns its input if and only if the review was present today, or neither stands before the place of insertion nor clashes with the date heading, in every heading, tags and title case |
| ReviewNotes.OtherReviewsAreAddedOnce | ci-scripts/reviewbot/utils.py:8-49 | A review that is not in the note and no part of the heading line is added once |
| ReviewNotes.DateWordIsAddedAgain | ci-scripts/reviewbot/utils.py:14-19 | The word Mar is added again on a day in March |
| ReviewNotes.OlderReviewIsAddedAgain | ci-scripts/reviewbot/utils.py:14-19 | A review in an older section above today's is added again |
| PackageDiffs.FullVersion | ci-scripts/infra-setup/roles/rrcockpit/files/compare_rpms/diff_tripleo_builds/diff_builds.py:410-421 | Every full version has a dash |
| PackageDiffs.FindHighestVersion | ci-scripts/infra-setup/roles/rrcockpit/files/compare_rpms/diff_tripleo_builds/diff_builds.py:395-423 | One entry per package from the running maximum, and an IndexError exactly for an empty list |
| PackageDiffs.HighestIsUnbeaten | ci-scripts/infra-setup/roles/rrcockpit/files/compare_rpms/diff_tripleo_builds/diff_builds.py:398-408 | The running maximum is an element no other beats, for any total preorder |
| PackageDiffs.HighestIgnoresOrderUpToTies | ci-scripts/infra-setup/roles/rrcockpit/files/compare_rpms/diff_tripleo_builds/diff_builds.py:398-408 | In any order of the same elements the choices tie |
| PackageDiffs.DiffPackages | ci-scripts/infra-setup/roles/rrcockpit/files/compare_rpms/diff_tripleo_builds/diff_builds.py:440-470 | The three loops, over sets in any order, build the specified difference |
| PackageDiffs.ApplyRebuildsIff | ci-scripts/infra-setup/roles/rrcockpit/files/compare_rpms/diff_tripleo_builds/diff_builds.py:440-470 | Applying the difference rebuilds the test build if and only if no changed package has the version that marks absence |
| PackageDiffs.MarkerVersionIsLost | ci-scripts/infra-setup/roles/rrcockpit/files/compare_rpms/diff_tripleo_builds/diff_builds.py:459-468 | A build with the marker version whose package is lost |
| PackageDiffs.NoDifferenceIff | ci-scripts/infra-setup/roles/rrcockpit/files/compare_rpms/diff_tripleo_builds/diff_builds.py:440-470 | The difference is empty exactly for equal builds |
| PackageDiffs.DiffIsFaithful | ci-scripts/infra-setup/roles/rrcockpit/files/compare_rpms/diff_tripleo_builds/diff_builds.py:425-470 | On produced versions the difference rebuilds either build from the other, is empty exactly for equal builds, and swaps its pairs with its arguments |
| PlaybookTimes.SimplifyDropsRole | jcomparison/perfcomp/ansbile_playbook.py:9-13 | The name is what follows the role, or unchanged without one |
| PlaybookTimes.AddUp | jcomparison/perfcomp/ansbile_playbook.py:26-31 | The dictionary has each name's whole time |
| PlaybookTimes.Normalize | jcomparison/perfcomp/ansbile_playbook.py:16-43 | Each simplified name once, with its whole time |
| PlaybookTimes.MergingKeepsTotal | jcomparison/perfcomp/ansbile_playbook.py:26-37 | Normalizing keeps the total and every name's time |
| PlaybookTimes.Combine | jcomparison/perfcomp/ansbile_playbook.py:46-59 | Exactly one row for each name of either run, with its times in both, although partners are taken out of the second list |
| PlaybookTimes.CombiningConservesTime | jcomparison/perfcomp/ansbile_playbook.py:46-59 | The two columns add up to the total durations of the two inputs |
| ContainerLists.NameList.Remove | ci-scripts/dlrnapi_promoter/repo_client.py:250-254 | Removes the first occurrence from the list object, and reports whether there was one |
| ContainerLists.NameList.RemoveAll | ci-scripts/dlrnapi_promoter/repo_client.py:249-254 | Removing the names one by one is the specified removal, and leaves the excludes as they are |
| ContainerLists.LoadExcludes | ci-scripts/dlrnapi_promoter/repo_client.py:248-266 | Two new list objects are made from the full list; no list that was there before changes, whichever of them are one object |
| ContainerLists.ExcludedIsTheRest | ci-scripts/dlrnapi_promoter/repo_client.py:248-264 | What is left is a subsequence in which each name occurs as often as before less its exclusions, and never less than zero times |

## Left out

- DlrnClients.DlrnClient.GetPromotionAggregateHashes: does not model the download of an aggregate's components and their sorting by timestamp; it is one step outside that succeeds or fails, and the batch post of the components is a post of the aggregate, since how the server computes aggregates is not in these files. A server that stores something else is covered by the environment.
- DlrnClients.HashesToHashes: only with duplicates removed and without sorting, as the promoter calls it.
- DlrnClients.DlrnClient.PostHash: posts an aggregate whole instead of its components.
- DlrnClients.DlrnClient.PromoteHash: posts an aggregate whole instead of its components.
- DlrnClientTheorems.OwnPromotionsNeverTripTheCheck: for promotions whose replies can be read; an unreadable one leaves a label that the client did not store, and ends a run.
- DlrnClientTheorems.RetryReachesFaultFreeLabels: for failures between which nobody else writes and the server's replies can be read.
- DlrnClients.DlrnClient.Promote: leaves the stored hashes open after a reply that does not describe a hash; the candidate has lost its timestamp then, and the run is over. The comparison of the reply with the request only logs and is not modelled.
- Promoters.Promoter.Promote: without dry runs and clients passed by the caller.
- Promoters.Promoter.PromoteAll: without dry runs, forced promotions and clients passed by the caller; the same openness after an unreadable reply.
- DlrnHashes.SharedFullHashIff: for two hashes of one class, without underscores in commit and distro; with them, which the hexadecimal check lets through between digits, different parts can join to one text.
- CandidateTheorems.SelectedAreNew: under the same assumptions; SelectIsLongestUnpromotedPrefix says it for all hashes by their full hashes.
- RecordTheorems.RunIsAccountedFor: the histories for a server that stores what it is sent; the comparisons for any server.
- RuckRover.ColourOfReports: for reports settled for every job, since for others the colour depends on their order.
- CandidateTheorems.SelectedAre: assumes a count other than 1; with count 1 the code raises a TypeError, which the model keeps.
- ReviewNotes.SecondAddIsNoOpIff: assumes a review and a date without line breaks, and a date that is not empty.
- RuckRover.PrepareJobs: without log links, durations and the order of the rows.
- RuckRover.ToPromote: without the set of criteria grown by passed alternatives, which nothing reads afterwards.
- LayeredConfig.RenderJoinsParts: templates are literals and references, without the rest of Jinja.
- PackageDiffs.FullVersion: says only that a dash occurs, which is what the difference needs.
- ArtifactPromoters.RepeatingIsNoOp: assumes that the artifact's name is not empty, as file names are.
- FanIn.SumResults: gives numbers; their text form is left out.
- PackageDiffs.HighestIsUnbeaten: assumes that the label comparison is a total preorder; the comparison library is not part of this model.
- DlrnHashes: digits outside ASCII in hexadecimal text, the `label` attribute, `dt_commit` and `commit_dir`.
- Promoter configuration: criteria start as sets; turning lists into sets, the concrete constructors and filters, and reading files are left out. Constructors are any functions of the settings they read.
- The registries, image and dockerfile clients inside the promotion protocol return or raise as the environment decides; the image client's links are modelled on their own, and the dockerfile client follows the same protocol.
- The image client's `rollback`, whose calls are commented out, and the result of `validate_qcows`.
- File operations are atomic: one that fails has no effect. Names lie in the working directory. Closing connections is left out.
- The artifact promoter's `promote`, which connects, validates and calls the transaction, and the compose lookup.
- Log parsing in the collector: a job comes with the results its log parses to.
- Job history, durations, tables and other output of the dashboard.
- Parsing of package lists, and the comparison of nodes and repositories.
- Parsing of durations, the temporary file and the final filter of the playbook comparison.
- Downloading and choosing the exclude lists, and building the containers list.
- HTTP, SFTP, Ansible, Zuul, logging, argument parsing and all other input and output.

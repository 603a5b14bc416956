# RedLaunch: verified models of retention, deletion, jobs, sessions and text handling

This project models the parts of the repository that decide what is deleted, what is
remembered and what is let through, and proves what they promise. Verify with
`dafny verify dfyconfig.toml`.

**Registry retention** is the core. A copied repository tree is read into rows
(`RegistryPaths`, `RegistryTree`), rows are grouped into versions (`Versions`), a quota,
a downward closure over the manifest graph and a depth-first walk make a plan
(`Selection`, `ManifestGraph`, `Planner`), and the plan is carried out one command at a
time against a container whose commands may fail anywhere (`RegistryStore`,
`Maintenance`). The container keeps a ghost history of every tree it ever had, so a
statement about the history is a statement about every point at which a run can stop.
`RetentionLaws` proves what an interruption leaves. At every tree a run can stop in, in
whatever order versions are listed, no manifest refers to a missing one and no tag newly
names one. With the listing order that pushes produce, any number of interrupted runs
also keep every version that the first one kept. That promise fails without the listing
order; `RetentionLaws.NewerOrphanTakesSlot` is the input, and
`RetentionLaws.RetainedSurvivesIff` is the exact condition: every version that won a
quota slot and finds no room behind the orphaned children listed ahead of it is still
reachable from something that is chosen again. What is chosen again is told from the
interrupted plan and from how far it got (`RetentionLaws.NextChosen`), so the condition
is known before the later run starts.

**Application deletion** (`ApplicationDeletion`, `DeleteProgress`) is a workflow of five
destructive operations with checkpoints between them. Operations happen in order through
any number of crashes, and a resumed run performs exactly what was left. The progress
page rebuilt from the checkpoint need not show what the job showed: `RunJob` states
exactly when they agree, from the checkpoint found, the pattern of failing calls, and how
far the request gets. They disagree when refreshing the routing fails, since that stage is
never reported to the job (`RoutingFailureIsMisplaced` is a run); when a checkpoint or the
record of a failure cannot be written, unless the checkpoint said failed before and this
attempt had recorded nothing yet; when releasing the leases fails after all else
succeeded; and when a request that is refused or finds its leases busy stands at a later
stage, or its checkpoint does not say failed.

**Job stores** (`JobStores`) are modelled twice: as a class with the loops over a map in
any order, and as a machine whose steps are the points between which goroutines may
interleave. **The login limiter** (`LoginLimiter`) decides by the history of attempts
alone; its sliding-window bounds and runs that reach them are proved. **Sessions**
(`Encoding`, `Sessions`) are issued for whoever is identified and show that user again.
**Image references** (`Interpolation`, `ImageReferences`) have a grammar; the validator
admits exactly the grammar, and the scanner finds exactly the grammar's variables.
**Output handling** (`Terminal`, `Streams`) covers the terminal sanitizer, the cut to
valid UTF-8 (RFC 3629), the two bounded buffers and the limited log download.

Where the source changes state step by step the model does so too: classes for the walks
of the planner, the container, the limiter, the stores, the jobs, the deletion and the
buffers; methods with loops for the rest. Digests are strings, times are naturals with 0
for the zero time, strings are sequences of bytes. Go's random map order is an arbitrary
choice at every step. Clocks, random identifiers, signatures and the success of outside
commands are parameters or arbitrary choices. Sorting library calls are represented by
insertion, with a lemma that the result is the only one.

Where the code and its comments differ, the model follows the code: selection looks at
untagged children before it looks at protection, so a protected digest that is an
untagged child is not selected for itself; the tail buffer reports truncation also after
a single write of exactly its size; a fallback such as `${V:--x}` is admitted although
`-x` is no valid tag.

## Model

| member | source | states |
|---|---|---|
| Selection.SelectRegistryVersions | internal/application/registry_retention.go:26-52 | refuses exactly a keep count outside 0 to 100; otherwise chooses exactly the versions that the rule written out keeps: at 0 all, else nothing excluded, every version with a key `repository\0digest` or `repository\0tag` in the protection or without a time, and of the rest each with fewer than keep of its kind ahead |
| Selection.RegistryVersionProtected | internal/application/registry_retention.go:178-188 | a version is protected exactly if the key of its digest or of one of its tags, written out, is in the protection |
| Selection.SelectedAreKept | internal/application/registry_retention.go:26-52 | the chosen versions are those of the rule written out, without the counting along the list |
| Selection.SelectionFillsQuota | internal/application/registry_retention.go:33-52 | exactly min(keep, competitors) positions win a quota slot |
| Selection.SelectionMonotone | internal/application/registry_retention.go:26-52 | the selection only grows when keep (0 being largest) or the protection grows |
| ManifestGraph.ClosureIsClosed | internal/application/registry_retention.go:82-96 | the retained set contains the selection and is closed under references |
| ManifestGraph.ClosureIsLeast | internal/application/registry_retention.go:82-96 | it lies inside every closed set that contains the selection |
| ManifestGraph.ClosureMonotone | internal/application/registry_retention.go:82-96 | more selected versions retain no less, even if references outside the retained set change |
| ManifestGraph.ReachedByPath | internal/application/registry_retention.go:82-96 | the retained set is what a path of references from the selection leads to |
| Planner.RetainWalk.RetainChildren | internal/application/registry_retention.go:84-92 | the recursive walk ends on cyclic graphs too and adds nothing outside the closure |
| Planner.RetainWalk.RetainAll | internal/application/registry_retention.go:93-96 | whichever elements a range over the growing set visits, and in whatever order, the set ends as the closure |
| Planner.OrderWalk.OrderDeletion | internal/application/registry_retention.go:111-130 | the depth-first walk keeps the order parents-first, or returns a reference circle |
| Planner.PlanRegistryRetention | internal/application/registry_retention.go:57-155 | each of the three refusals exactly under its condition; otherwise kept, purged and delete order are as a plan promises |
| Planner.PlanKeepsWhatIsReached | internal/application/registry_retention.go:57-155 | a plan keeps exactly the versions at the end of a path of references from one that the rule keeps when untagged children of indexes are set aside, and purges the others |
| Planner.PlanCountsPurged | internal/application/registry_retention.go:138-154 | the count it reports is that of the purged versions that no index owns |
| Planner.TopologicalHasNoCycle | internal/application/registry_retention.go:98-136 | a plan with its parents-first order exists only where nothing that is not retained refers to itself in a circle |
| Planner.CircleIsCycle | internal/application/registry_retention.go:111-130 | the circle that the walk reports is a cycle of references between versions that are not retained |
| RetentionLaws.PlanSplitsListing | internal/application/registry_retention.go:138-154 | kept and purged versions split the listing, and the delete order rearranges the purged ones |
| RetentionLaws.PreviewedIsRetained | internal/application/registry_retention.go:157-176 | what the preview keeps and is no untagged child the plan retains, if it keeps and protects at least as much |
| RetentionLaws.PrefixIsInterruption | internal/application/registry_retention.go:98-136 | stopping after any prefix of the delete order, also amid the tags of the next version, touches only purged versions, each after all its parents are gone |
| RetentionLaws.SlotSurvivesIff | internal/application/registry_retention.go:26-52 | for any listing order, a quota slot is won again after an interruption exactly if the orphans ahead leave room |
| RetentionLaws.ChosenSurvivesIff | internal/application/registry_retention.go:57-155 | every choice of the interrupted plan is made again if and only if the orphans leave room |
| RetentionLaws.NextChosen | internal/application/registry_retention.go:26-52 | for any listing order, what the later run chooses: the survivors that nothing excludes any more and that need no quota slot or find room |
| RetentionLaws.NextRetained | internal/application/registry_retention.go:82-96 | what the later run retains is all that is reachable from that in the graph as it was |
| RetentionLaws.RetainedSurvivesIff | internal/application/registry_retention.go:57-155 | for any listing order, nothing retained is lost if and only if every quota winner without room is reachable from something chosen again |
| RetentionLaws.RoomDecidesForRoots | internal/application/registry_retention.go:57-155 | where no quota winner is a child, nothing retained is lost if and only if the orphans leave room |
| RetentionLaws.NothingRescuedIff | internal/application/registry_retention.go:57-155 | for any listing order, nothing is retained beyond the interrupted plan if and only if no orphan is chosen |
| RetentionLaws.ResumeSucceeds | internal/application/registry_retention.go:57-155 | where nothing retained is lost, planning again after an interruption is refused neither for its graph nor for a circle |
| RetentionLaws.OrderLeavesRoom | internal/application/registry_retention.go:57-155 | where parents are listed before their children, orphans always leave room |
| RetentionLaws.ResumeKeeps | internal/application/registry_retention.go:57-155 | where the orphans leave room, planning again after an interruption is not refused and retains everything the first plan retained |
| RetentionLaws.ResumeFinishesIff | internal/application/registry_retention.go:57-155 | where parents are listed first, the resumed run purges exactly the rest if and only if no orphan is exempt from the quota |
| RetentionLaws.OrphanIsRescued | internal/application/registry_retention.go:39-46 | an orphan without a time, or protected by its digest, is kept by the resumed run although the first plan purged it |
| RetentionLaws.ReplanningKeptPurgesNothing | internal/application/registry_retention.go:57-155 | planning over the kept versions, with the references as before, restricted to what is retained, or anything in between, succeeds and purges nothing; references may hold more digests than are listed |
| RetentionLaws.NewerOrphanTakesSlot | internal/application/registry_retention.go:57-155 | a listing with a child ahead of its index on which an interrupted run makes the next one purge a kept version |
| Ordering.OrderedIsUnique | internal/application/versions.go:131-143 | an ordered arrangement of given elements is unique, so the sort algorithm does not matter |
| Ordering.FirstDifferenceDecides | internal/application/versions.go:131-143 | the order of digests and tags is decided by the first differing byte, and a proper prefix comes first |
| Versions.GroupRegistryVersions | internal/application/versions.go:109-144 | the rows of a repository become one version per digest, strictly ordered, with sorted tags and latest time |
| Versions.GroupingMeaning | internal/application/versions.go:109-144 | distinct digests, tags kept without loss with their multiplicity, the time the maximum of the group |
| Versions.LatestPushIsMax | internal/application/versions.go:122-127 | the time of a version is reached by one of its rows and exceeded by none |
| Versions.GroupingIgnoresRowOrder | internal/application/versions.go:109-144 | every permutation of the rows gives the same versions |
| Versions.DigestForTag | internal/application/versions.go:148-157 | the digest of the first version with the tag, or nothing |
| Versions.TagIffNamed | internal/application/versions.go:148-157 | a version carries a tag exactly if a row names its digest under the tag |
| Versions.LookUpTag | internal/application/versions.go:109-157 | looking a tag up among the grouped versions finds a digest some row puts it on, hence exactly the one a scan finds where the tag has one digest |
| Versions.PreviewRegistryRetention | internal/application/registry_retention.go:157-176 | the preview splits the grouped versions, in order, by a selection without exclusions, or refuses the keep count |
| RegistryPaths.TagLinkRoundTrip | internal/compose/registry.go:154-156 | a printed tag link reads back as its repository and tag |
| RegistryPaths.RevisionRoundTrip | internal/compose/registry.go:147-150 | a printed revision link reads back as its repository and digest |
| RegistryPaths.PathsAreSpelledOut | internal/compose/registry.go:130-156 | the directories and links of tags and revisions, spelled out |
| RegistryPaths.TagLinkReadsOnlyItself | internal/compose/registry.go:377-405 | whatever reads as a tag link is the printed link of a valid pair |
| RegistryPaths.RevisionReadsOnlyItself | internal/compose/registry.go:344-372 | whatever reads as a revision link is the printed link of a valid pair |
| RegistryPaths.LinksAreTold | internal/compose/registry.go:344-405 | no path reads as both kinds, and a staged link reads as neither |
| RegistryTree.ReadRegistryContents | internal/compose/registry.go:257-341 | refuses beyond the cap; otherwise the rows are the tag links and the revisions that no tag names, stamped with manifest times |
| RegistryTree.ListingMeaning | internal/compose/registry.go:257-341 | for any order of the walk, one row per valid tag link plus one per valid revision that no tag of its repository names, and no others |
| RegistryStore.TagDirectoryOwnsLinks | internal/compose/registry.go:108-139 | of all link paths, only the tag's own lies under its directory |
| RegistryStore.RevisionDirectoryOwnsLinks | internal/compose/registry_retention.go:74-97 | of all link paths, only the revision's own lies under its directory |
| RegistryStore.Registry.DeleteRegistryTag | internal/compose/registry.go:108-139 | the refusals in order; at every tree on the way at most this tag's link is gone, and on success it is |
| RegistryStore.Registry.MoveRegistryTag | internal/compose/registry.go:166-249 | at every tree on the way, failures included, at most this tag's link differs and then holds the whole new digest; the image counts as absent exactly if its revision cannot be read or does not hold the digest; where the old link can be read, the previous digest is what it held, or nothing if that was none |
| RegistryStore.RepointedMeaning | internal/compose/registry.go:194-248 | seen from a listing the tag is at its old or its new digest, every other row of a tag and every revision is unchanged |
| RegistryStore.StagedLinkAlone | internal/compose/registry.go:225-246 | removing the staged file removes nothing a listing reads |
| RegistryStore.Registry.ListRegistryContents | internal/compose/registry.go:55-90 | a listing has exactly the listed rows of the current tree, each once |
| RegistryStore.Registry.DeleteRegistryVersion | internal/compose/registry_retention.go:74-97 | at every tree on the way only tags that named the digest are gone, and the revision only when no tag names it; on success both are |
| RegistryStore.NothingNamesDigest | internal/compose/registry_retention.go:84-93 | when the listed tags of a digest are gone, no tag names it |
| RegistryStore.RevisionStep | internal/compose/registry_retention.go:93-96 | removing the revision then leaves no tag that names a missing revision |
| Maintenance.ListRegistryVersionImages | internal/service/registry.go:118-152 | the images are the rows without their link times, rearranged |
| Maintenance.GroupedListing | internal/service/registry_maintenance.go:501-531 | grouping a listing gives the versions of the tree, described by its tags and revision times |
| Maintenance.VersionsAreUnique | internal/application/versions.go:109-144 | a tree has one list of versions |
| Maintenance.InspectManifests | internal/service/registry_maintenance.go:528-537 | the references are exactly those of the listed digests; it fails exactly if a manifest cannot be read |
| Maintenance.PlanRepository | internal/service/registry_maintenance.go:526-542 | a batch is what planning its repository orders; failing has one of the planner's reasons or an unreadable manifest |
| Maintenance.DeleteInOrder | internal/service/registry_maintenance.go:549-558 | every tree on the way is a stage of the order, other repositories keep their view, and success is the last stage |
| Maintenance.ReachedIsInterruption | internal/service/registry_maintenance.go:549-558 | every stage of a plan's order lists as an interruption of the plan |
| Maintenance.NothingDangles | internal/service/registry_maintenance.go:549-558 | at every tree a run can stop in, in any listing order, no surviving manifest refers to a missing one, and no tag names a missing revision if none did before |
| Maintenance.NothingEverDangles | internal/service/registry_maintenance.go:501-561 | the same through any number of interrupted runs, whatever the policy of each |
| Maintenance.LaterRequest | internal/service/registry_maintenance.go:501-561 | what the next run plans at such a tree, in any listing order, and exactly when it retains all that was retained |
| Maintenance.ResumeFromReachedTree | internal/service/registry_maintenance.go:501-561 | where parents are listed first, the next run's planning is not refused, retains all that was retained, and lists parents first again |
| Maintenance.ManyInterruptedRuns | internal/service/registry_maintenance.go:501-561 | where parents are listed first, each of any number of interrupted runs keeps every version the first one kept |
| Maintenance.CountsAdd | internal/service/registry_maintenance.go:546-560 | the number a run reports counts each batch once, wherever the batches are cut |
| Maintenance.BatchIsRun | internal/service/registry_maintenance.go:546-558 | every batch at every tree it reaches is such a run of its repository |
| Maintenance.BatchesKeep | internal/service/registry_maintenance.go:546-558 | batches at their stages keep in every repository what was promised to be retained, and leave nothing dangling |
| Maintenance.BatchFollowsSetting | internal/application/registry.go:132-139 | a batch comes from a request whose keep count is its repository's own setting, or the global one without such a setting; at 0 it is empty |
| Maintenance.RetainVersions | internal/service/registry_maintenance.go:501-561 | everything is planned before anything is deleted, and every repository with anything to delete has its batch, under its own keep setting or else the global one; a repository whose own setting is 0 keeps its view throughout; at every tree on the way each batch is at a stage, repositories without one are as they were, and what was promised to be retained still is |
| LoginLimiter.Limiter.Allow | internal/auth/local.go:32-64 | under an advancing clock an attempt is denied exactly if five allowed attempts of this user or twenty from this address belong to the open window, or a window would be needed beyond the 4096 that are open; and the new table is that of an attempt on the old one |
| LoginLimiter.HistoryDecides | internal/auth/local.go:32-64 | the same for every run of attempts, over users, addresses and times only |
| LoginLimiter.TableIsWindows | internal/auth/local.go:40-62 | the live entries are, one to one, the users and addresses with an open window |
| LoginLimiter.NewcomerIsAllowed | internal/auth/local.go:38-64 | whoever did not try within the last minute, from an address nobody tried from, is allowed as long as there is room |
| LoginLimiter.AttemptKeepsSound | internal/auth/local.go:32-64 | no attempt takes the table above 4096 entries, and a denied one changes no live counter |
| LoginLimiter.TableStaysBounded | internal/auth/local.go:32-64 | the table has at most 4096 entries after every run of attempts |
| LoginLimiter.RunKeepsBudget | internal/auth/local.go:38-64 | in a run with an advancing clock, what a window still admits is bounded by the live counter and its expiry |
| LoginLimiter.SlidingWindowBound | internal/auth/local.go:32-64 | any one-minute interval admits at most 9 attempts of a user and 39 of an address |
| LoginLimiter.NineAreReached | internal/auth/local.go:32-64 | a run with an advancing clock in which an interval admits nine attempts of one user |
| LoginLimiter.ThirtyNineAreReached | internal/auth/local.go:32-64 | a run with an advancing clock in which an interval admits thirty-nine attempts from one address |
| JobStores.Job.Finish | internal/handler/backup_job.go:130-150 | a running job gets this outcome and this time, an ended one keeps its own |
| JobStores.Job.End | internal/handler/backup_job.go:130-150 | a running job shows the outcome and the time of its ending, an ended one keeps its own, and the channel is closed once and behind it |
| JobStores.Store.FindRunning | internal/handler/backup_job.go:75-91 | in any map order the loop finds the running job of the key if there is one, and forgets only expired jobs |
| JobStores.Store.CreateUnique | internal/handler/application_version_job.go:75-109 | joins the key's running job, or is refused if its subject differs, or files a new job, and keeps one running job per key |
| JobStores.Store.Get | internal/handler/backup_job.go:96-115 | returns a job to its owner only, and forgets it if it expired |
| JobStores.Store.Expire | internal/handler/api_run_job.go:103-114 | forgets exactly the jobs that ended more than an hour ago |
| JobStores.StepKeepsInv | internal/handler/api_run_job.go:48-136 | every step of every interleaving keeps one running job per key, all running jobs listed, ended jobs unchanged, and closed channels to ended jobs |
| JobStores.AnswerReflectsRunningJobs | internal/handler/application_version_job.go:89-107 | the answer to a request is decided by the running jobs at the moment it is given, not by map order |
| JobStores.JobsEndOnce | internal/handler/backup_job.go:61-150 | between any two moments of any run an outcome never changes, a running job is never forgotten, and a channel is closed at most once and only when the job ended |
| JobStores.FirstFinishCounts | internal/handler/backup_job.go:130-150 | in any run an ended job shows the outcome and the time of the first step that ended it, as long as it is remembered |
| JobStores.RunningUntilFinished | internal/handler/backup_job.go:130-150 | in any run a job is running exactly as long as no step ended it |
| DeleteProgress.DeleteJob.Update | internal/handler/application_delete_job.go:140-164 | closes the open steps before the stage and makes it the active one; an unknown stage changes only the caption |
| DeleteProgress.DeleteJob.Complete | internal/handler/application_delete_job.go:166-180 | closes every open step of a running job and ends it |
| DeleteProgress.DeleteJob.Fail | internal/handler/application_delete_job.go:182-205 | fails the first active step and names it, or what was shown last |
| DeleteProgress.ProgressFromIntent | internal/handler/application_delete_job.go:235-285 | the page a checkpoint stands for |
| DeleteProgress.ToldShape | internal/handler/application_delete_job.go:140-164 | for stages in any order: complete up to the last known one, active there, begun up to the furthest, untouched beyond |
| DeleteProgress.CheckpointShowsJob | internal/handler/application_delete_job.go:140-285 | a running or failed job equals the page rebuilt from its last stage if and only if that stage is known and none overtook it; a completed one always does |
| DeleteProgress.ForwardShape | internal/handler/application_delete_job.go:140-164 | the steps are complete, one active, remaining exactly in forward runs |
| ApplicationDeletion.Deletion.TakeStage | internal/service/applications.go:2054-2118 | the operation, then the next checkpoint, or the record of its failure, for every pattern of failing calls |
| ApplicationDeletion.Deletion.PassStage | internal/service/applications.go:2054-2137 | a stage is passed exactly if none of its calls fails; otherwise the stage stays, with the status that the first failure leaves |
| ApplicationDeletion.Deletion.Resume | internal/service/applications.go:2037-2139 | ends well exactly if no call fails, having performed once and in order what the checkpoint left to do; otherwise it stops where the first call fails |
| ApplicationDeletion.Deletion.Begin | internal/store/store.go:605-623 | the request finds the recorded intent, or records the first checkpoint, before it looks at anything else |
| ApplicationDeletion.Deletion.Delete | internal/service/applications.go:1928-1991 | once the intent is recorded: a refusal leaves the checkpoint as it is, busy leases are recorded, a finished deletion succeeds at once, and a failing release fails it |
| ApplicationDeletion.Deletion.RunJob | internal/handler/application_delete_job.go:287-302 | what the job shows after its run, and, from what is known before it, exactly when the page rebuilt from the checkpoint shows the same |
| ApplicationDeletion.RoutingFailureIsMisplaced | internal/service/applications.go:2103-2111 | a run in which refreshing the routing fails: the job blames the metadata, the checkpoint names the routing |
| ApplicationDeletion.DeletionInOrder | internal/service/applications.go:2037-2139 | through any number of attempts and crashes no operation is performed before all earlier ones, the checkpoint never goes back, and a finished deletion has performed all |
| Encoding.Base64RoundTrip | internal/auth/auth.go:516-523 | decoding undoes encoding for all bytes |
| Encoding.EncodedShape | internal/auth/auth.go:516-518 | the length of an encoded text, and the separators it cannot hold |
| Encoding.ThreeBytesAreNumber | internal/auth/auth.go:516-523 | three bytes are encoded as the four six-bit letters of the 24-bit number they make |
| Encoding.LastBytesAreNumber | internal/auth/auth.go:516-523 | one or two bytes at the end are encoded as with zero bytes behind them, cut to the letters that hold a bit of them |
| Encoding.IntRoundTrip | internal/auth/auth.go:332-342 | parsing undoes formatting for all 64-bit integers |
| Encoding.DecimalNotation | internal/auth/auth.go:332-342 | decimal notation: a digit behind a number makes ten times the number and the digit, and negative numbers alone have a sign |
| Sessions.FieldedIsKept | internal/auth/auth.go:436-493 | normalizing what a session's fields say gives what the session keeps |
| Sessions.FieldsRoundTrip | internal/auth/auth.go:525-602 | the fields of each issued format parse back |
| Sessions.SignedRoundTrip | internal/auth/auth.go:604-622 | a signed value decodes to its payload and signature |
| Sessions.SessionRoundTrip | internal/auth/auth.go:318-413 | an issued session is read as what it keeps of the normalized user exactly if it is not expired and at most 4096 bytes long, which its payload's length decides |
| Sessions.SessionShowsUser | internal/auth/auth.go:318-493 | what is read shows the user given: an account keeps id, provider and credential version, a local user the credential version; address and user name are the validated ones, and name and picture survive within 256 and 1024 bytes or are replaced as stated |
| Sessions.IssuedIffIdentified | internal/auth/auth.go:436-493 | a session is issued exactly if the identity checks, written out, pass |
| Sessions.ReadIsSigned | internal/auth/auth.go:347-413 | whatever is read carries, behind a dot, the signature of its payload |
| Sessions.LegacyIsRead | internal/auth/auth.go:566-602 | the oldest format, with its address in the clear, is read as that address |
| Sessions.SessionsFit | internal/auth/auth.go:318-345 | sessions of local users and of accounts with an address of at most 320 bytes are read; a family of longer ones never is |
| Interpolation.ValidImageTagPlaceholderInner | internal/application/application.go:878-912 | admits exactly a name with an optional fallback of tag characters |
| Interpolation.ValidImageTagWithInterpolation | internal/application/application.go:825-876 | admits exactly the tags that parse into tokens and are valid with an x for each placeholder |
| Interpolation.ParsedIsRendered | internal/application/application.go:825-876 | what parses is the rendering of well-formed tokens |
| Interpolation.RenderedParses | internal/application/application.go:825-876 | every well-formed sequence of tokens parses to itself, so a tag has one reading |
| Interpolation.SubstitutionIsTag | internal/application/application.go:821-876 | words for the placeholders make a valid tag exactly if its length and first byte are legal; words that start like a tag do whenever it stays within 128 bytes |
| Interpolation.AnyFallbackIsAdmitted | internal/application/application.go:889-911 | every word of tag characters is admitted as a fallback, also one that is no valid tag |
| ImageReferences.ComposeInterpolationVariables | internal/compose/runner.go:1495-1540 | the variables found in a file are those of the token-wise scan |
| ImageReferences.ScanTokens | internal/compose/runner.go:1501-1538 | in front of anything that cannot continue a name, the scanner finds exactly the names of the tokens |
| ImageReferences.LastImageSeparatorsOutsideInterpolation | internal/application/application.go:755-782 | the last slash and the last colon outside braces |
| ImageReferences.LastInTokens | internal/application/application.go:752-782 | no separator stands outside the braces of an admitted tag |
| ImageReferences.ValidateImageNameWithInterpolation | internal/application/application.go:712-750 | admits exactly the references of the grammar, for any grammars of repositories and digests |
| ImageReferences.ReadIsText | internal/application/application.go:712-750 | reading a reference loses nothing |
| ImageReferences.TextIsRead | internal/application/application.go:712-750 | every reference of the grammar is read back as itself |
| ImageReferences.ScanFindsPlaceholders | internal/compose/runner.go:1495-1540 | in an admitted reference inside a file the scanner finds exactly the variables of its placeholders |
| Terminal.SkipTerminalEscape | internal/compose/oneoff.go:187-215 | moves to the last rune of the escape sequence |
| Terminal.SanitizeTerminalOutput | internal/compose/oneoff.go:149-182 | the loop computes the rune-wise cleaning |
| Terminal.SanitizedIsClean | internal/compose/oneoff.go:149-182 | no control character is left but newline and tab, and the text never grows |
| Terminal.CleanPassesThrough | internal/compose/oneoff.go:149-182 | clean text stays as it is, whatever follows |
| Terminal.SanitizeIsIdempotent | internal/compose/oneoff.go:149-182 | cleaning twice is cleaning once |
| Terminal.SequenceVanishes | internal/compose/oneoff.go:187-224 | a complete control sequence, control string, designator or escape behind clean text vanishes, and nothing with it |
| Terminal.BackspaceErases | internal/compose/oneoff.go:149-182 | a backspace behind clean text removes its last character, and nothing at the start |
| Terminal.ReturnEndsLine | internal/compose/oneoff.go:149-182 | a carriage return, alone or in front of a line feed, acts as one line feed |
| Terminal.ControlVanishes | internal/compose/oneoff.go:149-182 | any other control character that starts no sequence vanishes alone |
| Terminal.TruncateUTF8 | internal/compose/oneoff.go:253-265 | the longest valid prefix within the limit, at most three bytes shorter than it for a valid text |
| Terminal.ValidIffEncoded | internal/compose/oneoff.go:253-265 | the texts it counts as valid are exactly the encodings of sequences of Unicode scalar values |
| Streams.TailBuffer.Write | internal/compose/runner.go:101-118 | the buffer holds the end of everything written, and says truncated if that is longer or a write filled it |
| Streams.BoundedBuffer.Write | internal/compose/runner.go:140-156 | the buffer holds the beginning of everything written, and says truncated exactly if that is longer |
| Streams.LogStream.Read | internal/compose/runner.go:182-215 | delivers the next part of the text within the limit, and fails exactly if the limit is reached and there is more |
| Streams.LogStream.Download | internal/compose/runner.go:182-215 | a whole download delivers the text up to the limit and fails exactly if it was longer |

## Left out

- Selection.SelectRegistryVersions: protection is stated for versions that are no untagged children, because the code excludes those first.
- RegistryTree.ListingMeaning: white space around link contents is ASCII; Unicode spaces, unreadable files and a failing walk are not modelled.
- RegistryStore.Registry.Copy: shell quoting, temporary files and timeouts of container commands are not modelled; a command succeeds, fails, or fails half-way.
- Maintenance.InspectManifests: the JSON of manifests and the schema checks on it are a given relation from digests to references.
- Maintenance.ManyInterruptedRuns: pushes, garbage collection and read-only switching between runs are not modelled; the manifests stay the same.
- Maintenance.ListRegistryVersionImages: rows are keyed by pairs where the source joins the two parts with a NUL byte.
- JobStores.JobsEndOnce: identifiers are fresh by assumption; error texts, parameters and waiting with a timeout are not modelled.
- DeleteProgress.ProgressFromIntent: the five step names and the two fixed captions are constructors, and error details and addresses of pages are not modelled.
- ApplicationDeletion.Deletion.Delete: a request refused before any intent is recorded is not told apart from one refused after; no checkpoint exists then, and Begin says what the next request finds.
- ApplicationDeletion.Deletion.Resume: an operation either succeeds or counts as not performed; what it touches inside Docker, Caddy, the database or the file system is not modelled, nor are checkpoints with texts the service never writes.
- Sessions.SessionRoundTrip: email and user name validation, trimming and the suggested name are parameters with stated laws; account lookups after reading and the strength of signatures are not modelled.
- Sessions.SessionsFit: for users without an account the length of the suggested name is a parameter, so no bound is stated for them.
- Encoding.Base64RoundTrip: which other texts decode to the same bytes is not characterised.
- ImageReferences.ValidateImageNameWithInterpolation: repository, registry and digest grammars are parameters; the checks on white space and quotes before it are not modelled.
- Terminal.SanitizeTerminalOutput: the replacement of invalid UTF-8 before the loop is not modelled; its input is a sequence of runes.
- Streams.LogStream.Read: the exit status of the process and closing are not modelled; the pipe hands over at least one byte as long as there are any.
- Version tags of applications across services, deployment steps of version and container jobs, proxy settings, field validators and presets would add only easier members.
- HTTP handlers, templates, cookies, OAuth and release clients, password hashing, redaction by regular expressions and the SQL store are not part of this model.

# flowctl core, modelled in Dafny

This project models the logic at the heart of flowctl, a workflow runner.
flowctl's scheduler takes flow executions off a Postgres-backed job queue.
It fires cron-scheduled flows once a minute and runs a flow's actions in order.
An action may wait behind an approval gate, and its results are folded into the flow's outputs.
The HTTP API answers with structured errors.
It validates and paginates approval and credential requests.
The core layer checks credentials and users before they reach the store.
The web front end aggregates a user's permissions and keeps a list of notifications.
The SDK keeps a registry of remote-client protocols.
The Docker executor assembles its container's environment, command and mounts.

There is one module per source file:

- `SchedulerHandlers` is `internal/scheduler/handlers.go`.
- `JobQueue` is `internal/scheduler/storage/postgres.go`.
- `Cron` is `internal/scheduler/cron.go`.
- `Errors` is `internal/handlers/errors.go`.
- `Handlers` is `internal/handlers/handlers.go`.
- `Approvals` is `internal/handlers/approvals.go`.
- `CredentialHandlers` is `internal/handlers/credentials.go`.
- `CoreCredentials` is `internal/core/credentials.go`.
- `CoreUsers` is `internal/core/users.go`.
- `Permissions` is `site/src/lib/utils/permissions.ts`.
- `Notifications` is `site/src/lib/stores/notifications.ts`.
- `Registry` is `sdk/remoteclient/registry.go`.
- `DockerExecutor` is `internal/executor/docker_executor.go`.
- `Common` holds shared definitions: `Option`, `Result`, nullable strings, joining and substring search.

Code that changes state step by step is modelled as imperative Dafny:

- the job table, as a class over a sequence of rows;
- the notification list, the protocol registry and the Docker executor, as classes;
- the loops of `executeFlow`, `processActionResults`, `prefixResultKeys`, `checkPeriodicTasks`, `formatValidationErrors`, the list handlers, the user conversions and the permission check, as methods with loop invariants.

Each such method is proved against a specification function, and the properties of that function are proved as lemmas.

A Go map is walked in an unspecified order. Loops over one pick their next key with `:|`, so every contract holds for every order.

Collaborators are parameters of the model:

- the store's queries;
- `uuid.Parse`;
- `cron.ParseStandard` and `schedule.Next`;
- the JSON decoder;
- the authorizer's `can`;
- `crypto.randomUUID`;
- `filepath.Clean`;
- a registered protocol's factory.

Where the source and its design description disagree, the model follows the source. These are the places:

- `permissionChecker` keeps the flags raised before an authorizer error. The comment there says they remain false.
- `internal/handlers/credentials.go` calls a `wrapError` whose code is an HTTP status. `internal/handlers/errors.go` defines one whose code is an error-code string. Each file is modelled on its own terms: `CredentialHandlers.StatusError` for the first, `Errors.WrapError` for the second.

## Model

| member | source | states |
|---|---|---|
| SchedulerHandlers.ClampStart | internal/scheduler/handlers.go:32-37 | the starting index lies in [0, count]: kept when already inside, 0 below, count above |
| SchedulerHandlers.ExecuteFlow | internal/scheduler/handlers.go:31-75 | actions are tried in index order from the clamped start; the first is given empty outputs, and each later one the fold of the previous outputs with the previous action's results (whenever that fold cannot panic); every action tried before the last succeeded; the flow stops at the first error, which it reports with that action's index; a panic in the fold is reported only for results that clash; it completes only after the last action, with empty outputs when nothing ran and otherwise the fold of the last action's results |
| SchedulerHandlers.ExecuteSingleAction | internal/scheduler/handlers.go:93-127 | a cancelled context answers ErrExecutionCancelled before the approval check and the run; an approval error is returned without running; a cancelled run, a failed run and a failed checkpoint are errors; results are returned only after a successful run and checkpoint |
| SchedulerHandlers.CheckApproval | internal/scheduler/handlers.go:384-436 | a non-UUID namespace is an error; the action passes iff it needs no approval or its request is approved; rejected is an error naming the action; a request is created iff none exists; a new or still-pending request answers ErrPendingApproval |
| SchedulerHandlers.Sanitise | internal/scheduler/handlers.go:244 | the sanitised key holds only [a-zA-Z0-9_]; it is empty iff the key is, and no longer than it |
| SchedulerHandlers.SanitiseKeepsWordKeys | internal/scheduler/handlers.go:244 | a key already made of word characters is unchanged |
| SchedulerHandlers.SanitiseCollapsesRuns | internal/scheduler/handlers.go:244 | a run of two or more disallowed characters becomes one "_", just as one disallowed character does |
| SchedulerHandlers.SanitisedHasNoAt | internal/scheduler/handlers.go:244-247 | a sanitised key never contains '@' |
| SchedulerHandlers.PrefixResultKeys | internal/scheduler/handlers.go:240-252 | every result is stored under its sanitised key, suffixed with "@node" when the node name is non-empty; every stored value is the value of a key that maps there, for any walk order |
| SchedulerHandlers.PrefixingKeepsValues | internal/scheduler/handlers.go:240-252 | when no two keys sanitise alike, each value sits unchanged under its own suffixed key |
| SchedulerHandlers.SuffixedInjective | internal/scheduler/handlers.go:245-249 | different sanitised keys get different suffixed keys for the same node |
| SchedulerHandlers.SplitAtFirst | internal/scheduler/handlers.go:132-137 | splitting at the first '@' fails iff there is no '@'; otherwise the parts joined by '@' give the key back, and the first part has no '@' |
| SchedulerHandlers.SplitAtFirstJoin | internal/scheduler/handlers.go:132-137 | a key without '@', joined to a node name by '@', splits back into exactly those two parts |
| SchedulerHandlers.ProcessActionResults | internal/scheduler/handlers.go:130-146 | when no stored value would make the type assertion panic, the outputs after the loop are the order-independent fold of the results, for any walk order |
| SchedulerHandlers.FoldedEntries | internal/scheduler/handlers.go:130-146 | a key without '@' is stored at the top level; a key k@n is stored as outputs[n][k], keeping what outputs[n] held; every other entry is untouched |
| SchedulerHandlers.PrefixedResultsLandUnderNode | internal/scheduler/handlers.go:132-141 | for a non-empty node name, prefixResultKeys followed by processActionResults never panics, adds no top-level value, touches no entry but outputs[node], and stores every result at outputs[node][sanitised key] |
| SchedulerHandlers.LocalArtifactPath | internal/scheduler/handlers.go:367-371 | the local path is artifactDir/nodeName/artifact for a named node, and artifactDir/artifact otherwise |
| SchedulerHandlers.JoinTwo | internal/scheduler/handlers.go:370 | joining two non-empty parts puts one "/" between them, and an empty middle part is skipped |
| SchedulerHandlers.JoinThree | internal/scheduler/handlers.go:368 | joining three non-empty parts separates them by "/" |
| SchedulerHandlers.UnnamedNodeBranchAgrees | internal/scheduler/handlers.go:367-371 | the unnamed-node branch gives the same path as joining with the empty node name |
| JobQueue.Without | internal/scheduler/storage/postgres.go:91-102 | a DELETE keeps exactly the rows its WHERE clause does not match, in their order |
| JobQueue.OldestIsNotLocked | internal/scheduler/storage/postgres.go:61-72 | the job Get takes is not among the jobs already locked |
| JobQueue.WithoutKeepsDistinct | internal/scheduler/storage/postgres.go:91-102 | a DELETE keeps ids distinct, and exactly the matched ids leave the ids and the locked ids |
| JobQueue.DroppedById | internal/scheduler/storage/postgres.go:92 | DELETE WHERE id = $1 matches exactly that id |
| JobQueue.PostgresStorage.constructor | internal/scheduler/storage/postgres.go:16-18 | the storage wraps the table as it is, rows included, and the SERIAL continues where it stands |
| JobQueue.PostgresStorage.Put | internal/scheduler/storage/postgres.go:41-50 | on a database error that error and no change; otherwise one unlocked row is appended, with a fresh id and the job's exec id, payload and creation time, and no lock changes |
| JobQueue.PostgresStorage.FindOldest | internal/scheduler/storage/postgres.go:61-70 | no row is found iff every row is locked or held by another transaction; a found row is neither, and no such row was created before it |
| JobQueue.PostgresStorage.Get | internal/scheduler/storage/postgres.go:53-88 | a failed BEGIN or UPDATE returns its error; ErrNoJobs iff no row is takeable (unlocked and not held by another transaction), before any COMMIT; a failed COMMIT returns its error; every error leaves the table as it was; otherwise the oldest takeable row's job is returned and exactly that row becomes locked, so a later Get never returns it again |
| JobQueue.PostgresStorage.Delete | internal/scheduler/storage/postgres.go:91-95 | on a database error that error and no change; otherwise exactly the row with that id is removed, and the rest keep their order |
| JobQueue.PostgresStorage.CancelByExecID | internal/scheduler/storage/postgres.go:98-102 | on a database error that error and no change; otherwise every row of that execution is removed, and the other rows are unchanged |
| JobQueue.PostgresStorage.Close | internal/scheduler/storage/postgres.go:105-108 | nothing changes |
| Cron.Truncate | internal/scheduler/cron.go:53 | the truncated instant is the minute boundary at or below now, less than one minute below it |
| Cron.TruncateOfWindow | internal/scheduler/cron.go:53 | every instant of the minute starting at m minutes truncates to that boundary |
| Cron.ShouldRunNow | internal/scheduler/cron.go:43-61 | an expression that fails to parse never runs; otherwise it runs iff the next fire after the previous minute lands in the current minute |
| Cron.SameMinuteSameAnswer | internal/scheduler/cron.go:53-57 | two instants of the same minute get the same answer |
| Cron.ValidateCronExpression | internal/scheduler/cron.go:106-109 | the expression is valid exactly when the parser accepts it |
| Cron.RejectedNeverRuns | internal/scheduler/cron.go:45-49 | an expression the validator refuses never runs, at any instant |
| Cron.ScheduledPayload | internal/scheduler/cron.go:75-93 | a scheduled run starts at action 0 with no actions or inputs, triggered as scheduled by the all-zero user, in the looked-up namespace, carrying the flow's id, slug and name |
| Cron.CreateImmediateTask | internal/scheduler/cron.go:66-103 | a missing namespace is an error; a queued task carries the scheduled payload built from the flow, the namespace the lookup found and the execution id drawn for it, and the queue accepted it; the queue's refusal is an error |
| Cron.DueIndicesExact | internal/scheduler/cron.go:25-37 | a flow is tried iff its schedule is non-null, non-empty and due this minute |
| Cron.QueuedAreScheduled | internal/scheduler/cron.go:32-36 | every queued payload is, field for field, the scheduled payload of a due flow, with that flow's looked-up namespace and its execution id, and the queue accepted it |
| Cron.CheckPeriodicTasks | internal/scheduler/cron.go:15-40 | a failed fetch is the only error; otherwise exactly the due flows are tried in order, a failure for one does not stop the rest, and the payloads queued are those of the flows the queue accepted |
| Errors.StatusOf | internal/handlers/errors.go:36-57 | validation codes give 400, authentication codes 401, authorization codes 403, not-found 404, server codes 500, and an unknown code 500 |
| Errors.WrapError | internal/handlers/errors.go:73-97 | the status is the code's table status; the message, the wrapped error, the code and the details are kept verbatim |
| Errors.ErrorHandler | internal/handlers/errors.go:99-150 | nothing is written once the response is committed; a path containing "/view" gets an error page, any other path JSON with "error" and "code"; "details" is present iff the error has details; an error that is not an HTTPError becomes 500, the generic message and INTERNAL_ERROR |
| Handlers.Entries | internal/handlers/handlers.go:86-89 | one "Field: tag" entry per validation error, in order |
| Handlers.FormatValidationErrors | internal/handlers/handlers.go:76-92 | no error gives ""; an error that is not a validation list gives its own text; validation errors give their entries joined by "; " |
| Handlers.FormattedShape | internal/handlers/handlers.go:86-91 | the formatted text begins with the first entry and ends with the last, with exactly one "; " between consecutive entries and no trailing separator |
| Handlers.SingleErrorFormat | internal/handlers/handlers.go:86-91 | a single validation error is reported as "Field: tag" alone |
| Handlers.EchoErrorHandler | internal/handlers/handlers.go:44-61 | nothing is written once committed; an echo.HTTPError keeps its code and message (a non-string message panics); any other error becomes 500 "error processing the request" |
| Approvals.Decide | internal/handlers/approvals.go:31-39 | the action "approve" gives approved with the approval message; any other action gives rejected with the rejection message |
| Approvals.HandleApprovalAction | internal/handlers/approvals.go:11-51 | a missing namespace is REQUIRED_FIELD_MISSING before the body is bound; a binding or validation failure is refused; otherwise the response echoes the approval id and the chosen status iff the core accepts the decision |
| Approvals.ToResp | internal/handlers/approvals.go:122-134 | every field of an approval is copied into its response entry |
| Approvals.CorePage | internal/handlers/approvals.go:109-111 | the core is asked for page max(page, 1), so pages 0 and 1 both ask for page 1 |
| Approvals.EffectiveCount | internal/handlers/approvals.go:113-115 | a count of 0 becomes the default page size; a positive count is kept |
| Approvals.HandleListApprovals | internal/handlers/approvals.go:90-141 | a negative page or count is INVALID_PAGINATION before any core call; the core is called iff every check passes, with the normalised page and count; the response has one entry per approval, in order |
| CoreCredentials.ValidateCredential | internal/core/credentials.go:14-25 | an empty name is refused first, then a credential with neither secret, then one with both; a credential is valid iff it has a name and exactly one secret |
| CoreCredentials.ToNull | internal/core/credentials.go:29-36 | a stored nullable column is valid iff its input string is non-empty |
| CoreCredentials.Params | internal/core/credentials.go:29-36 | the create and update queries receive the name and both secrets as nullable columns |
| CoreCredentials.ValidStoresOneSecret | internal/core/credentials.go:19-36 | a valid credential stores exactly one non-NULL secret column |
| CoreCredentials.StoredRoundTrip | internal/core/credentials.go:27-47 | storing a credential and reading its row back keeps the name and both secrets |
| CoreCredentials.CreateCredential | internal/core/credentials.go:13-48 | an invalid credential fails with its validation error before the store is called; otherwise the result is the stored row read back |
| CoreCredentials.UpdateCredential | internal/core/credentials.go:95-134 | every field is validated before the id is parsed; a malformed id fails before the store is called |
| CoreCredentials.GetCredentialById | internal/core/credentials.go:50-67 | a malformed id fails before the store is read; otherwise the stored row read back |
| CoreCredentials.DeleteCredential | internal/core/credentials.go:136-142 | a malformed id fails before the store is called; otherwise the store's answer |
| CoreCredentials.Int32Of | internal/core/credentials.go:71-72 | int32(x) lies in the signed 32-bit range and agrees with x modulo 2^32 |
| CoreCredentials.Int32OfInRange | internal/core/credentials.go:71-72 | a limit or offset already in range reaches the store unchanged |
| CoreCredentials.ListCredentials | internal/core/credentials.go:69-93 | the store is asked with int32 limit and offset; a store error gives no results and counts -1, -1; otherwise one credential per row in row order, with the first row's page and total counts, or 0, 0 for no rows |
| CredentialHandlers.ToCredential | internal/handlers/credentials.go:25-29 | the core receives the request's name and both secrets |
| CredentialHandlers.HandleCreateCredential | internal/handlers/credentials.go:11-37 | binding and validation failures and a request with both secrets are refused with 400 before the core is called; success answers 201 with the created credential |
| CredentialHandlers.BothSecretsRefusedTwice | internal/handlers/credentials.go:21-23 | a request with both secrets is refused by the handler, and the core's validation would refuse it too |
| CredentialHandlers.HandleGetCredential | internal/handlers/credentials.go:39-51 | an empty id is refused with 400 before the core is called; a core failure is 404 |
| CredentialHandlers.HandleUpdateCredential | internal/handlers/credentials.go:83-110 | an empty id is refused with 400 before the body is bound; a binding or validation failure is 400; success answers 200 with the updated credential |
| CredentialHandlers.HandleDeleteCredential | internal/handlers/credentials.go:112-124 | an empty id is refused with 400; a successful delete answers 200 with no content; a core failure is 500 |
| CredentialHandlers.Offset | internal/handlers/credentials.go:63-71 | the offset is count × (page − 1) for page ≥ 1 and 0 for page 0 |
| CredentialHandlers.HandleListCredentials | internal/handlers/credentials.go:53-81 | a negative page or count is refused with 400; otherwise the core is called with the default count for 0 and the page's offset |
| CredentialHandlers.PagesAreAdjacent | internal/handlers/credentials.go:63-71 | consecutive pages ask for adjacent, non-overlapping windows |
| CoreUsers.LoginTypeOf | internal/core/users.go:127-135 | oidc maps to Oidc and standard to Standard; anything else is "unknown login type" |
| CoreUsers.RoleOf | internal/core/users.go:137-145 | admin maps to Admin and user to User; anything else is "unknown role type" |
| CoreUsers.CreateUser | internal/core/users.go:126-162 | the login type is checked before the role, and the store is called only when both are known; the new user has the store's UUID and the given name and username |
| CoreUsers.CreatedUserHasKnownNames | internal/core/users.go:127-147 | a user is created only for a known login type and a known role |
| CoreUsers.GetUserByUsername | internal/core/users.go:25-41 | a NULL stored password is returned as ""; the UUID and username are the stored ones |
| CoreUsers.GetUserByUuid | internal/core/users.go:94-111 | a malformed UUID fails before the store is read |
| CoreUsers.DeleteUserByUuid | internal/core/users.go:113-124 | a malformed UUID fails before the store is called |
| CoreUsers.GroupsOf | internal/core/users.go:51-56 | a NULL groups column gives no groups; otherwise the decoded JSON, or the decoder's error |
| CoreUsers.UsersFromRows | internal/core/users.go:49-64 | one user per row in row order, each with its decoded groups; the first row whose groups fail to decode ends the loop with its error |
| CoreUsers.GetAllUsersWithGroups | internal/core/users.go:43-67 | a store failure is wrapped; otherwise one user per row, in order, with the row's uuid, name and username, no password, and the decoded groups (none for a NULL column); the first row whose groups do not decode gives that row's wrapped decode error |
| CoreUsers.SearchUser | internal/core/users.go:69-92 | a store failure is returned as it is; otherwise one user per matching row, in order, with the row's uuid, name and username, no password, and the decoded groups (none for a NULL column); the first row whose groups do not decode gives that row's wrapped decode error |
| Permissions.Raise | site/src/lib/utils/permissions.ts:42-58 | a granted action raises its own flag and leaves the others |
| Permissions.GroupSubjects | site/src/lib/utils/permissions.ts:63-64 | one "group:<id>" subject per group, in order |
| Permissions.ApplyBatchFlag | site/src/lib/utils/permissions.ts:42-58 | after one subject's answers, a flag is raised iff it was already raised or the action is listed and granted |
| Permissions.AggregateFlag | site/src/lib/utils/permissions.ts:36-89 | with no authorizer error, a flag is raised iff its action is listed and some subject is granted it |
| Permissions.AggregateMonotone | site/src/lib/utils/permissions.ts:70-87 | a raised flag is never lowered, by a later subject or by an error |
| Permissions.OnlyListedActions | site/src/lib/utils/permissions.ts:37-38 | an action not in the list never raises its flag |
| Permissions.RunBatch | site/src/lib/utils/permissions.ts:37-59 | every action is asked about; the batch fails iff any answer throws, and otherwise the answers are mapped onto the flags |
| Permissions.PermissionChecker | site/src/lib/utils/permissions.ts:22-95 | all flags start false; the user is asked about first, then each group in order when there are groups; the first error ends the check, keeping the flags raised before it |
| Permissions.CheckerIsOr | site/src/lib/utils/permissions.ts:36-89 | with no errors, a flag is true iff the user or one of the user's groups is granted that action |
| Permissions.DefaultActionsDecideEveryFlag | site/src/lib/utils/permissions.ts:22 | with the default action list and no errors, each of the four flags is raised iff the user or a group is granted its action |
| Permissions.UserAskedFirst | site/src/lib/utils/permissions.ts:36-64 | the user is always asked about first, and groups only when the user has some |
| Notifications.Or | site/src/lib/stores/notifications.ts:19-24 | a field the caller supplied overrides the default |
| Notifications.Merge | site/src/lib/stores/notifications.ts:19-24 | the new notification has the fresh id, the caller's kind, title and message, duration 5000 and dismissible true unless supplied; when the caller supplies no id it is exactly the notification built as written |
| Notifications.WithoutId | site/src/lib/stores/notifications.ts:38 | filtering by id keeps exactly the notifications with another id |
| Notifications.WithoutIdKeepsUnmatched | site/src/lib/stores/notifications.ts:38 | notifications with other ids stay, in order |
| Notifications.WithoutIdAppend | site/src/lib/stores/notifications.ts:38 | filtering distributes over concatenation |
| Notifications.AsWrittenReturnedIdMisses | site/src/lib/stores/notifications.ts:18-35 | as written, a caller-supplied id replaces the fresh one, so removal by the returned id misses the new notification |
| Notifications.AsWrittenSuccessHelperExample | site/src/lib/stores/notifications.ts:29-33 | as written, the success helper given an id stores that id with the 5000 ms default, and the removal its timer runs, filtering by the generated id, leaves it |
| Notifications.HelperInput | site/src/lib/stores/notifications.ts:48-59 | a helper passes its kind, title and message, and for error duration 0, each overridden by any option given |
| Notifications.HelperDurations | site/src/lib/stores/notifications.ts:48-59 | error notifications are persistent unless a duration is given; the other helpers keep the 5000 default |
| Notifications.Removal | site/src/lib/stores/notifications.ts:29-33 | an auto-removal is scheduled iff the duration is positive, for the notification's id after its duration |
| Notifications.NotificationStore.Add | site/src/lib/stores/notifications.ts:17-36 | exactly one notification is appended at the end, the one built as written whenever the input has no id; its removal by the returned id is scheduled when its duration is positive |
| Notifications.NotificationStore.Remove | site/src/lib/stores/notifications.ts:37-39 | the notifications with that id are dropped and the others kept in order |
| Notifications.NotificationStore.Clear | site/src/lib/stores/notifications.ts:40-42 | the list is empty |
| Notifications.NotificationStore.Success | site/src/lib/stores/notifications.ts:48-50 | adds a success notification with the options applied |
| Notifications.NotificationStore.Error | site/src/lib/stores/notifications.ts:51-53 | adds an error notification, persistent unless the options give a duration |
| Notifications.NotificationStore.Warning | site/src/lib/stores/notifications.ts:54-56 | adds a warning notification with the options applied |
| Notifications.NotificationStore.Info | site/src/lib/stores/notifications.ts:57-59 | adds an info notification with the options applied |
| Notifications.AddThenRemove | site/src/lib/stores/notifications.ts:17-39 | removing by the id add returned drops the new notification and restores the list as it was |
| Registry.ProtocolRegistry.Register | sdk/remoteclient/registry.go:19-26 | a new name gains its factory and the other entries stay; an already-registered name panics and changes nothing |
| Registry.ProtocolRegistry.GetClient | sdk/remoteclient/registry.go:29-37 | an unregistered name is a "not registered" error; a registered name gives that factory's result for the node |
| DockerExecutor.EnvOfSingletons | internal/executor/docker_executor.go:65-77 | each one-entry map becomes exactly its "k=v" string, in order |
| DockerExecutor.EnumerationCovers | internal/executor/docker_executor.go:174-177 | walking the inputs in any order reaches every input |
| DockerExecutor.EveryInputPassed | internal/executor/docker_executor.go:174-183 | every input reaches the container as its "k=v" variable, ahead of OUTPUT |
| DockerExecutor.OutputLast | internal/executor/docker_executor.go:178-183 | the environment Execute builds is the inputs' assignments followed by OUTPUT=/tmp/flow/output, and none of its maps is fatal |
| DockerExecutor.InputVariables | internal/executor/docker_executor.go:174-177 | one one-entry map per input, each input exactly once, in the map's walk order |
| DockerExecutor.DockerExecutor.constructor | internal/executor/docker_executor.go:113-120 | a new executor has its name and options and nothing else set |
| DockerExecutor.DockerExecutor.WithImage | internal/executor/docker_executor.go:55-58 | sets the image and nothing else |
| DockerExecutor.DockerExecutor.WithSrc | internal/executor/docker_executor.go:60-63 | sets the cleaned source path and nothing else |
| DockerExecutor.DockerExecutor.WithCmd | internal/executor/docker_executor.go:79-82 | sets the command and nothing else |
| DockerExecutor.DockerExecutor.WithEntrypoint | internal/executor/docker_executor.go:84-87 | sets the entrypoint and nothing else |
| DockerExecutor.DockerExecutor.WithCredentials | internal/executor/docker_executor.go:89-101 | sets the registry credentials and nothing else |
| DockerExecutor.DockerExecutor.WithMount | internal/executor/docker_executor.go:103-106 | appends the mount and keeps the earlier ones |
| DockerExecutor.DockerExecutor.WithEnv | internal/executor/docker_executor.go:65-77 | a map with more than one entry is fatal and stores nothing; otherwise the env list is replaced by one "k=v" per one-entry map, in order |
| DockerExecutor.DockerExecutor.PrepareRun | internal/executor/docker_executor.go:168-183 | a bind mount of the temp file at /tmp/flow/output is appended; the env is one variable per input in any order, then OUTPUT=/tmp/flow/output last; the image and the script command are set |
| DockerExecutor.DockerExecutor.CreateContainer | internal/executor/docker_executor.go:317-346 | the script lines are joined by "\n" and run as [script] with an entrypoint, else as /bin/sh -c script; the docker socket is mounted iff asked for; the working directory is /app |

## Left out

- Goroutine fan-out over nodes, the merging of their results and the one-hour timeout in `runAction`: concurrency whose merge order is not determined.
- Node drivers, artifact transfer, temporary directories, stream-logger I/O, SSH tunnels and the Docker client calls (pull, create, start, logs, wait, reading the output file): I/O. Their outcomes are boolean or result parameters where a modelled operation branches on them.
- `interpolateVariables` is not part of this model: it evaluates expressions through a library that is not modelled.
- Cron expression parsing and `schedule.Next` are abstract functions of the model.
- `getFlowSecrets` and `executeOnNode` are not part of this model: they are store and driver I/O.
- `HandleGetApproval` is not part of this model: it is not among the approval operations modelled here.
- The approval status strings are not modelled: they are defined outside the modelled files, so statuses are an enumeration.
- The conversion `coreCredentialToCredentialResp` is not part of this model: its file is not modelled, so a credential response carries the core credential.
- `CountPerPage` is defined outside the modelled files; it is a positive parameter.
- The caller's file and line recorded by `wrapError` through `runtime.Caller` is debug metadata, and is not modelled.
- `Errors.ErrorHandler`: the log line is not modelled.
- `Handlers.FormatValidationErrors`: the validator's own error text is represented by the formatted text.
- `CoreUsers.UsersFromRows`: the panic of the `v.Groups.([]byte)` type assertion on a non-byte column is not modelled; the column is a string or NULL.
- `SchedulerHandlers.ProcessActionResults`: the result is stated only when no stored value makes the type assertion panic and no plain key names a node. In the other cases the outcome depends on the walk order (None stands for the panic).
- `SchedulerHandlers.PrefixResultKeys`: when two keys sanitise alike, which value survives depends on the walk order; the contract says only that it is the value of one of them.
- `SchedulerHandlers.JoinPath`: `filepath.Join`'s lexical cleaning (collapsing "..", "." and repeated separators) is not modelled; the parts are assumed clean.
- `DockerExecutor.DockerExecutor.WithSrc`: `filepath.Clean` is a parameter.
- `DockerExecutor.DockerExecutor.WithCredentials`: the JSON and base64 encoding of the credentials is not modelled; the pair itself is stored.
- `DockerExecutor.DockerExecutor.WithEnv`: values are already rendered strings; the rendering of other value types by `fmt.Sprint` is not modelled.
- `DockerExecutor.DockerExecutor.constructor`: the executor name derived from the job name and a random unique suffix is a parameter.
- The container's security option `label=disable` and image pulling are not modelled: they are passed straight to Docker.
- Go nil slices are modelled as empty sequences.
- `Registry.ProtocolRegistry.Register`: the mutex guarding the registry is not modelled; concurrency is left out.
- `Notifications.NotificationStore.Add`: builds the notification with the corrected rule of the Findings table: an id in the input does not replace the fresh id, where the code as written stores the input's id. The returned id and the scheduled removal are the source's either way.
- `Notifications.NotificationStore.Success`: follows the corrected rule, so an id in the options is not stored, as it is in the code as written.
- `Notifications.NotificationStore.Error`: follows the corrected rule, so an id in the options is not stored, as it is in the code as written.
- `Notifications.NotificationStore.Warning`: follows the corrected rule, so an id in the options is not stored, as it is in the code as written.
- `Notifications.NotificationStore.Info`: follows the corrected rule, so an id in the options is not stored, as it is in the code as written.
- The notification timers are not modelled: a scheduled removal is recorded with its delay, not executed later. Ids come from a parameter in place of `crypto.randomUUID`.
- A TypeScript field that is present but `undefined` is not distinguished from an absent one.
- `Cron.CheckPeriodicTasks`: the log lines are not modelled.
- `JobQueue.PostgresStorage.constructor`: the existing table is a parameter. Its rows are required to have distinct ids below the SERIAL's next value, which the primary key and the SERIAL guarantee for ids the SERIAL issued. `Initialize`'s CREATE TABLE IF NOT EXISTS and its indexes are not modelled: they change no row.
- `JobQueue.PostgresStorage.Put`: a failed insert leaves the SERIAL where it was, though PostgreSQL may have consumed a value.
- `JobQueue.PostgresStorage.Get`: other transactions are represented only by the ids whose row locks they hold, a parameter that FOR UPDATE SKIP LOCKED passes over. Their later commit or rollback is not modelled. Ties in created_at are broken by table order, where the database may take any of the tied rows.
- The database errors are parameters of `Put`, `Get`, `Delete` and `CancelByExecID`. Their causes (connection loss, constraint violations) are not modelled.

## Findings

| source | as written | input that shows it | evidently intended | confidence | as-written member | corrected member |
|---|---|---|---|---|---|---|
| site/src/lib/stores/notifications.ts:19-24 | the notification is built as `{ id, duration: 5000, dismissible: true, ...notification }`, so an `id` in the helpers' `options` (typed `Partial<Notification>`) replaces the generated id, while `add` returns, schedules and removes by the generated id | `notifications.success("t", "m", { id: "mine" })`: the stored notification has id "mine" and duration 5000; `remove` with the returned id, and the auto-removal scheduled after 5000 ms, both filter by the generated id and never drop it | the generated id is the notification's id, so the returned id always removes it | not executed; medium (callers may never pass an id) | Notifications.AsWrittenReturnedIdMisses | Notifications.AddThenRemove |

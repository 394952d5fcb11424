# unicloud sync-state engine in Dafny

unicloud is a small server that coordinates file synchronisation clients. Clients register, get
activated by an administrator, and then report the start and the end of each sync run. The server
keeps two SQLite tables:

- `clients`: the registry, with each client's cached freshness label;
- `events`: one row per sync run.

It also keeps an OpenSSH authorized-keys file. Two background jobs work on this state: one
recomputes each client's freshness, and one blanks old logs.

This project models that engine and proves its properties. The tables are held as values instead
of query text:

- `Tables` (tables.dfy): the row types `Event` and `ClientRow`, the status constants, and the id
  rule of an `INTEGER PRIMARY KEY` table (a new row gets the largest id plus one, or 1).
- `ClientMgt` (client_mgt.dfy): every statement of `ClientMgt` that the engine uses, as a function. A `SELECT` is a
  read. An `UPDATE` or a `DELETE` returns the new table. This module also holds the freshness
  classification, the `info` counts and the key-line format and filter.
- `Unicloud` (unicloud.dfy): the request handlers' decisions and statements. These are
  `sync_start` and `sync_end`, `client_status`, `event_id`, `client_register` and the `events`
  listing.
- `SchedulerTasks` (scheduler_tasks.dfy): what one run of each background job produces.
- `Store` (store.dfy): the class `Database`. Its fields are `events`, `clients` and
  `authorizedKeys` (the lines of the key file). Its methods run the statements of one source
  function in order and update the fields in place. `Valid()` is the table invariant: ids are
  positive and increasing, every OK event has an end timestamp, and every client status is
  `Active` or `Registered`.

The clock is a parameter `now`. A missing form field is `None`. Python's `'%s' % None` renders it
as the text "None", and the model does the same (`Tables.Text`).

The model follows the code as written, including these behaviours:

- `sync_end` checks only that the client exists. It overwrites every row with that client and
  start timestamp, whatever the row's status. It accepts a negative duration, and it answers 201
  even when no row matched.
- Interrupted syncs are recovered only by the sweep inside `sync_start`.
- `client_status` answers 200 only for a stored status "OK". The registry never writes that
  status, so every existing client gets 401.
- `remove` matches key lines by substring. Removing "bob" also drops the key line of "bobby".
- `clients.name` has no UNIQUE constraint. An update by name changes every row with that name, and
  a read by name sees the first such row. `Register` and `Remove` keep names unique.
- The log purge does not guard against an empty table or a table without a logged row. On an
  empty table it raises at the comparison `maxid[0][0] > int(max_log_events)` (`None > int`).
  Past the limit with no logged row it raises while building the update (`'%d' % None`). Within
  the limit it does nothing, logged rows or not. In both failures nothing has changed yet; the
  model returns `Crashed` and leaves the table as it was.
- `info` raises when the client has events and none of them has a duration, because it formats
  a NULL average as a float. The model's `Info` returns `None` exactly then.
- `total` in `info` is the OK count plus the KO count. It leaves out SYNCING events and any
  status `sync_end` stored that is neither OK nor KO (a missing status is stored as "None").
- The classification tests `if lastok[0][0]:` on the largest OK id. Under `Valid()` ids are
  positive, so that test is the same as "the client has an OK event", which is what the model uses.

## Model

| member | source | states |
|---|---|---|
| Tables.Text | app/unicloud.py:545 | a given form field is its own text; a missing one renders as "None" |
| Tables.MaxId | app/scheduler_tasks.py:37-38 | `max(id)` of a non-empty table bounds every id and is the id of some row |
| Tables.NextId | app/unicloud.py:46-47 | the id SQLite gives the next row exceeds every existing id, and is positive when ids are positive |
| Tables.AppendNextIdKeepsIncreasing | app/unicloud.py:545-547 | inserting a row under the next id keeps ids positive and increasing |
| ClientMgt.Exist | app/client_mgt.py:52-55 | the count of rows with the name is zero exactly when no row has it |
| ClientMgt.FirstIndex | app/client_mgt.py:115-117 | the row a `[0]` read sees has the name, and no earlier row has it |
| ClientMgt.Row | app/client_mgt.py:115-117 | the row a read by name sees is in the table and has the name; with unique names it is the client's one row |
| ClientMgt.SyncStatusDb | app/client_mgt.py:112-117 | with unique names, the cached label read is that of the client's row |
| ClientMgt.ListClientsThreshold | app/client_mgt.py:176-179 | a name is listed exactly when some row with that name has a non-zero threshold |
| ClientMgt.Label | app/client_mgt.py:126-131 | the three classes map one-to-one to "In Sync", "Out of Sync" and "Never synced" |
| ClientMgt.Latest | app/client_mgt.py:121-122 | the result is a matching event with the greatest id; None exactly when no event matches |
| ClientMgt.Classify | app/client_mgt.py:121-131 | "Never synced" exactly when the client has no OK event; otherwise the OK event of greatest id decides, and the client is "In Sync" if and only if `now - end_ts <= threshold` |
| ClientMgt.SyncStatusReal | app/client_mgt.py:118-131 | with unique names the class is the classification at the client's own threshold |
| ClientMgt.ClassifyBoundary | app/client_mgt.py:124-129 | exactly `threshold` seconds after the deciding end the client is in sync; one second later it is out of sync |
| ClientMgt.LatestIgnoresOthers | app/client_mgt.py:121 | adding an event that is not an OK event of the client does not change the deciding event |
| ClientMgt.ScenarioAlice | app/client_mgt.py:119-131 | threshold 120 after an end at 1050: in sync at 1169 and 1170, out of sync at 1171; an unknown client is never synced |
| ClientMgt.GreatestIdNotLatestEnd | app/client_mgt.py:121-126 | the greatest-id OK event decides even when an older OK event ended later |
| ClientMgt.SetSyncStatus | app/client_mgt.py:144 | rows with the name get the label; every other row and every name is unchanged |
| ClientMgt.UpdateSyncStatus | app/client_mgt.py:138-147 | when the cached label differs the table is exactly the UPDATE's (every row with the name gets `s` in `sync_status` and nothing else changes); otherwise the table is unchanged; afterwards the cached label is `s` |
| ClientMgt.UpdateSyncStatusOnce | app/client_mgt.py:138-147 | after one call the cached label is `s`; a second call with the same `s` writes nothing and changes nothing |
| ClientMgt.SweepPending | app/client_mgt.py:154 | no SYNCING event of the client remains; those become KO with "Sync was interrupted"; all other events are unchanged |
| ClientMgt.CheckPending | app/client_mgt.py:149-156 | the guarded update has the same effect as the unguarded sweep, and changes the table exactly when the client has a SYNCING event |
| ClientMgt.CheckPendingIdempotent | app/client_mgt.py:149-156 | a second `check_pending` changes nothing |
| ClientMgt.SweepKeepsInvariants | app/client_mgt.py:154 | the sweep keeps ids increasing and every OK event closed |
| ClientMgt.Count | app/client_mgt.py:16-19 | the count is the number of positions in the table holding an event of the client, with the given status when one is given |
| ClientMgt.Info | app/client_mgt.py:14-44 | no result (the source raises) exactly when the client has events and none has a duration; otherwise `ok` and `ko` are the client's OK and KO counts, `total` is their sum, and `lastseen` is "Never" exactly when the client has no event |
| ClientMgt.CountZero | app/client_mgt.py:21-22 | a count is zero exactly when no event of the client (with that status) is in the table |
| ClientMgt.TotalExcludesSyncing | app/client_mgt.py:37 | the OK, KO and SYNCING counts plus the events with any other status give all of the client's events, so `total` leaves out exactly the SYNCING events and the other statuses |
| ClientMgt.TotalAfterCheckPending | app/client_mgt.py:37-41 | after `check_pending` no SYNCING event is left, so `total` plus the events of other statuses counts every event of the client |
| ClientMgt.NewClientRow | app/client_mgt.py:70-82 | the new row has the name, the key and share as text (a missing one as "None"), threshold 0, no cached label and the given join time; its status is Active if and only if the type is "ui", otherwise Registered |
| ClientMgt.AddFreshKeepsUnique | app/unicloud.py:289-295 | inserting a name not yet present keeps names unique |
| ClientMgt.SetActive | app/client_mgt.py:97 | rows with the name become Active; nothing else changes |
| ClientMgt.SetThreshold | app/client_mgt.py:107 | rows with the name get the threshold; nothing else changes |
| ClientMgt.DeleteClient | app/client_mgt.py:160 | the rows with the name are gone; every other row remains, and no row is added |
| ClientMgt.DeleteKeepsUnique | app/client_mgt.py:160 | deleting a client keeps the remaining names unique |
| ClientMgt.DeleteClientAppend | app/client_mgt.py:160 | deletion distributes over concatenation, so the rows that remain keep their order and their multiplicity |
| ClientMgt.KeyLine | app/client_mgt.py:88-90 | the appended line starts with the forced command `command="/usr/bin/unison -server"` and a space, then the key, and ends with `CLIENT:<name>` |
| ClientMgt.KeyLineIsTagged | app/client_mgt.py:84-91 | the line written for a client is one that removing that client drops |
| ClientMgt.KeepKeyLines | app/client_mgt.py:163-169 | exactly the lines not containing `CLIENT:<name>` are kept, and they come from the file |
| ClientMgt.KeepKeyLinesAppend | app/client_mgt.py:166-168 | filtering distributes over concatenation, so the kept lines keep their order |
| ClientMgt.RemoveBobDropsBobby | app/client_mgt.py:167 | removing "bob" also drops the key line of "bobby" |
| Unicloud.NewSyncEvent | app/unicloud.py:544-545 | the new event is SYNCING, carries the client, share and start and nothing else, and its id exceeds every id |
| Unicloud.OpenEvent | app/unicloud.py:542-548 | `sync_start` is the pending sweep followed by the insert |
| Unicloud.OpenEventLeavesOnePending | app/unicloud.py:542-549 | afterwards the client has exactly one SYNCING event, the new last row; its id exceeds all earlier ids; the earlier rows are the swept table |
| Unicloud.ScenarioBob | app/unicloud.py:543-547 | bob's orphaned SYNCING run becomes KO when bob starts again, and the new run gets id 2 |
| Unicloud.CloseEvents | app/unicloud.py:559-566 | every row of the client with that start gets status, sync status, end, `duration = end - start` and log; every other row is unchanged |
| Unicloud.CloseEventsKeepsInvariants | app/unicloud.py:565 | closing keeps ids increasing and every OK event closed |
| Unicloud.CloseWithoutMatchChangesNothing | app/unicloud.py:564-568 | a close that matches no row leaves the table as it was |
| Unicloud.NegativeDurationAccepted | app/unicloud.py:559 | an end before the start is stored with a negative duration |
| Unicloud.ClientStatusCode | app/unicloud.py:236-249 | 404 exactly for an unknown client; 200 exactly when its stored status is "OK"; 401 otherwise |
| Unicloud.ExistingClientsGet401 | app/unicloud.py:246-249 | with the statuses the registry writes, every existing client gets 401 |
| Unicloud.EventView | app/unicloud.py:522-531 | a shown event exists, has the id and is not SYNCING; 404 means every event with that id is SYNCING |
| Unicloud.EventViewShowsTheEvent | app/unicloud.py:525-529 | with unique ids an event's page shows that event, or 404 while it is SYNCING |
| Unicloud.Register | app/unicloud.py:279-301 | incomplete exactly when the name or the key is missing; refused exactly for an existing name; accepted otherwise |
| Unicloud.RegisterCode | app/unicloud.py:285-301 | 200 exactly for an accepted registration, 500 exactly for an incomplete request or an existing name |
| Unicloud.SelectQuery | app/unicloud.py:491-514 | the eight branches constrain exactly the fields not given as "ALL", each compared as text; a request with no field lists everything |
| Unicloud.SelectQueryMatches | app/unicloud.py:491-514 | a row is listed exactly when no field is given, or each field other than "ALL" equals its column, a missing field matching only "None" and a sync_status condition never matching NULL |
| Unicloud.Filter | app/unicloud.py:493-514 | every kept event is selected, and each selected event is kept as many times as the table holds it |
| Unicloud.Insert | app/unicloud.py:493 | insertion adds exactly one copy of the event |
| Unicloud.InsertSorted | app/unicloud.py:493 | insertion into a list sorted by descending start keeps it sorted |
| Unicloud.SortByStartDesc | app/unicloud.py:493 | the result is ordered by start_ts descending and is a permutation of the input |
| Unicloud.RowLimit | app/unicloud.py:487-493 | a missing limit keeps at most 50 rows, a negative limit keeps every row, any other limit keeps that many rows or all there are |
| Unicloud.ListEvents | app/unicloud.py:481-516 | the listing holds only selected events, newest start first; a missing limit shows at most 50, a negative limit shows all, any other limit shows that many or all there are; it is drawn from the selection, and every selected event left out started no later than any event shown |
| Unicloud.ListEventsComplete | app/unicloud.py:487-516 | with a limit that covers the selection, a negative limit, or no limit and at most 50 selected events, each selected event is listed as many times as the table holds it, and nothing else |
| SchedulerTasks.Refreshed | app/scheduler_tasks.py:7-18 | after a refresh, a client with threshold 0 keeps its row untouched; every other client carries its classification at `now`, and only that label changes |
| SchedulerTasks.RefreshedIdempotent | app/scheduler_tasks.py:13-18 | a second refresh at the same time changes nothing |
| SchedulerTasks.RefreshStep | app/scheduler_tasks.py:13-18 | one loop iteration brings exactly the listed client's row to its refreshed value |
| SchedulerTasks.Cutoff | app/scheduler_tasks.py:40-42 | NULL exactly when no row has a non-empty log; otherwise the largest `id - N` over rows with a non-empty log |
| SchedulerTasks.PurgeBelow | app/scheduler_tasks.py:43-45 | rows below the start get the log "None"; the others are unchanged |
| SchedulerTasks.PurgedRowsStillLogged | app/scheduler_tasks.py:40-43 | `log != ''` rejects only an empty or NULL log, so after a purge every row below the start still counts as logged |
| SchedulerTasks.PurgeDecision | app/scheduler_tasks.py:37-51 | the run raises exactly on an empty table, or past the limit with no logged row; it does nothing exactly when the largest id is within the limit; otherwise it purges from the cutoff |
| SchedulerTasks.PurgeLogs | app/scheduler_tasks.py:35-51 | only logs change; no event changes unless the run purges; when it purges, exactly the events below the cutoff get "None" |
| SchedulerTasks.PurgeKeepsInvariants | app/scheduler_tasks.py:43 | purging keeps ids increasing and every OK event closed |
| SchedulerTasks.CutoffFromNewestLogged | app/scheduler_tasks.py:39-43 | when the newest row has a log, the purge starts at the largest id minus N |
| SchedulerTasks.PurgeIdempotent | app/scheduler_tasks.py:40-45 | purging twice with no new events gives what purging once gave |
| SchedulerTasks.CutoffStable | app/scheduler_tasks.py:40-45 | a purge leaves the cutoff it was computed from unchanged |
| Store.RewriteKeyFile | app/client_mgt.py:163-169 | the line-by-line rewrite of `remove` leaves exactly the lines not containing `CLIENT:<name>`, in order |
| Store.Database.CheckPending | app/client_mgt.py:149-156 | the events become the swept table; clients and keys are unchanged; the invariant holds |
| Store.Database.SyncStart | app/unicloud.py:535-549 | unknown client: 500 and no change; otherwise 200 and the sweep followed by the insert |
| Store.Database.SyncEnd | app/unicloud.py:551-568 | unknown client: 500 and no change; otherwise 201 and the close of every matching row |
| Store.Database.UpdateSyncStatus | app/client_mgt.py:138-147 | writes only when the cached label differs, and reports whether it wrote |
| Store.Database.RefreshSyncStatus | app/scheduler_tasks.py:7-18 | the loop over listed clients leaves exactly the refreshed table; events and keys are unchanged |
| Store.Database.PurgeLogs | app/scheduler_tasks.py:35-51 | the outcome is the purge decision and the events are the purged table |
| Store.Database.AddToDb | app/client_mgt.py:70-82 | appends the new client row and nothing else |
| Store.Database.AddToKeyfile | app/client_mgt.py:84-91 | appends the client's key line and nothing else |
| Store.Database.Add | app/client_mgt.py:57-91 | "ui" adds the row and the key line; "join" adds the row only; any other type changes nothing; for "ui" with no key the row (key text "None") is committed, no line is written, and `ok` is false |
| Store.Database.Activate | app/client_mgt.py:93-102 | the client's rows become Active and its key line is appended; with no key the append fails after the update |
| Store.Database.SetThreshold | app/client_mgt.py:104-110 | only the client's threshold changes |
| Store.Database.Remove | app/client_mgt.py:158-169 | the client's rows are deleted, the key file keeps exactly the untagged lines in order, unique names stay unique, and the events are unchanged |
| Store.Database.Register | app/unicloud.py:279-301 | 500 and no change for a missing field or an existing name; otherwise 200 and a Registered row; names stay unique |

## Left out

- Flask routing, templates, BasicAuth, file browsing and the Jinja filters are UI and presentation plumbing. The response bodies are reduced to status codes.
- The APScheduler setup, its intervals and `atexit` are timer and concurrency infrastructure. Each job is one synchronous run, and no two requests interleave.
- `scheduler_tasks_share_update_size`, `ShareMgt` and the share routes depend on code and a filesystem that are not part of this model.
- SQLite connections, `CREATE TABLE`, `commit` and `VACUUM` are storage I/O. Each statement is an atomic update of the state.
- SQL text building and its injection hazards are not modelled, because the model holds the tables directly.
- `time.time()` is the parameter `now`.
- Store.Database.RefreshSyncStatus: the source reads the clock once per client; the model uses one `now` for the whole run.
- Store.Database.RefreshSyncStatus: stated only for tables with unique names, the state `Register` and `Remove` maintain (a direct `Add` does not check the name; its UI caller checks `exist()` first). With duplicate names the source reads the first row's threshold for each duplicate.
- Form parsing is out of the model. An `int()` of a missing or malformed `start_ts`, `end_ts`, `limit`, `id` or threshold raises before any statement runs, and the model takes these values as integers.
- `info`'s `avg_duration` value is float formatting. `ClientInfo` carries the other fields; the model keeps only when that formatting raises.
- `lastseen` and `list_clients` are unused by the engine. `status()` enters only through the row that `client_status` reads.
- The `client_process`, `del_process`, `activate_process` and threshold UI routes are out of the model. `client_info_ui` and `homestats` are out of the model too. The registry operations these routes call are modelled.
- The `id` column of `clients` is never read by the engine.
- Rows with an equal `start_ts` come out in an order SQLite leaves open. The model fixes one order, and its lemmas do not depend on it.
- Opening and truncating the key file is file I/O. The file is its sequence of lines, and the leading newline `add_to_keyfile` writes is taken as the line break before the appended line.

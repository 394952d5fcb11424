/** The state unicloud keeps in SQLite and in its authorized-keys file, and the operations that
    change it. Each method runs the statements of one source function in order; the functions of
    ClientMgt, Unicloud and SchedulerTasks say what each statement does to the tables. */
module Store {
  import opened Tables
  import ClientMgt
  import Unicloud
  import SchedulerTasks

  /** The rewrite loop of `remove`: each line of the key file is written back unless it contains
      `CLIENT:<name>`. */
  method RewriteKeyFile(lines: seq<string>, name: string) returns (kept: seq<string>)
    ensures kept == ClientMgt.KeepKeyLines(lines, name)
  {
    kept := [];
    var i := 0;
    while i < |lines|
      invariant 0 <= i <= |lines|
      invariant kept == ClientMgt.KeepKeyLines(lines[..i], name)
    {
      ClientMgt.KeepKeyLinesAppend(lines[..i], [lines[i]], name);
      assert lines[..i + 1] == lines[..i] + [lines[i]];
      if !ClientMgt.Contains(lines[i], ClientMgt.ClientTag(name)) {
        kept := kept + [lines[i]];
      }
      i := i + 1;
    }
    assert lines[..|lines|] == lines;
  }

  class Database {
    /** The `events` table, in insertion order. */
    var events: seq<Event>
    /** The `clients` table, in insertion order. */
    var clients: seq<ClientRow>
    /** The lines of the authorized-keys file. */
    var authorizedKeys: seq<string>

    ghost predicate Valid()
      reads this
    {
      && IdsIncreasing(events)
      && OkEventsClosed(events)
      && ClientMgt.KnownStatuses(clients)
    }

    constructor ()
      ensures Valid()
      ensures events == [] && clients == [] && authorizedKeys == []
    {
      events, clients, authorizedKeys := [], [], [];
    }

    // -------------------------------------------------------------------------
    // Event lifecycle
    // -------------------------------------------------------------------------

    /** `check_pending`: the client's SYNCING events become KO with the interruption log. */
    method CheckPending(name: string)
      requires Valid()
      modifies this
      ensures Valid()
      ensures events == ClientMgt.SweepPending(old(events), name)
      ensures clients == old(clients) && authorizedKeys == old(authorizedKeys)
    {
      ClientMgt.SweepKeepsInvariants(events, name);
      if ClientMgt.HasPending(events, name) {
        events := ClientMgt.SweepPending(events, name);
      }
    }

    /** `sync_start`: 500 for an unknown client; otherwise sweep, insert a SYNCING event, 200. */
    method SyncStart(client: string, share: Option<string>, startTs: int) returns (code: int)
      requires Valid()
      modifies this
      ensures Valid()
      ensures clients == old(clients) && authorizedKeys == old(authorizedKeys)
      ensures ClientMgt.Exist(clients, client) == 0 ==> code == 500 && events == old(events)
      ensures ClientMgt.Exist(clients, client) > 0 ==>
        code == 200 && events == Unicloud.OpenEvent(old(events), client, share, startTs)
    {
      if ClientMgt.Exist(clients, client) == 0 {
        return 500;
      }
      CheckPending(client);
      var e := Unicloud.NewSyncEvent(events, client, share, startTs);
      AppendNextIdKeepsIncreasing(events, e);
      events := events + [e];
      code := 200;
    }

    /** `sync_end`: 500 for an unknown client; otherwise close every event of the client with that
        start timestamp and answer 201, even when no row matched. */
    method SyncEnd(client: string, startTs: int, status: Option<string>, syncStatus: Option<string>,
                   log: Option<string>, endTs: int) returns (code: int)
      requires Valid()
      modifies this
      ensures Valid()
      ensures clients == old(clients) && authorizedKeys == old(authorizedKeys)
      ensures ClientMgt.Exist(clients, client) == 0 ==> code == 500 && events == old(events)
      ensures ClientMgt.Exist(clients, client) > 0 ==>
        code == 201 && events == Unicloud.CloseEvents(old(events), client, startTs, status, syncStatus, log, endTs)
    {
      if ClientMgt.Exist(clients, client) == 0 {
        return 500;
      }
      Unicloud.CloseEventsKeepsInvariants(events, client, startTs, status, syncStatus, log, endTs);
      events := Unicloud.CloseEvents(events, client, startTs, status, syncStatus, log, endTs);
      code := 201;
    }

    // -------------------------------------------------------------------------
    // Cached sync status
    // -------------------------------------------------------------------------

    /** `update_sync_status(s)`: writes `s` only when the cached label differs; `wrote` says whether it did. */
    method UpdateSyncStatus(name: string, s: string) returns (wrote: bool)
      requires Valid() && ClientMgt.Exist(clients, name) > 0
      modifies this
      ensures Valid()
      ensures wrote == ClientMgt.NeedsWrite(old(clients), name, s)
      ensures clients == ClientMgt.UpdateSyncStatus(old(clients), name, s)
      ensures events == old(events) && authorizedKeys == old(authorizedKeys)
    {
      var current := ClientMgt.SyncStatusDb(clients, name);
      wrote := current != Some(s);
      if wrote {
        clients := ClientMgt.SetSyncStatus(clients, name, s);
      }
    }

    /** `scheduler_tasks_update_sync_status`: for each client with a threshold, evaluate and cache. */
    method RefreshSyncStatus(now: int)
      requires Valid() && ClientMgt.UniqueNames(clients)
      modifies this
      ensures Valid() && ClientMgt.UniqueNames(clients)
      ensures events == old(events) && authorizedKeys == old(authorizedKeys)
      ensures clients == SchedulerTasks.Refreshed(old(clients), events, now)
    {
      var names := ClientMgt.ListClientsThreshold(clients);
      var cur := clients;
      ghost var target := SchedulerTasks.Refreshed(clients, events, now);
      var i := 0;
      while i < |names|
        invariant 0 <= i <= |names|
        invariant SchedulerTasks.RefreshedFor(clients, cur, target, names[..i])
        modifies {}
      {
        SchedulerTasks.RefreshStep(clients, cur, events, now, target, names, i);
        var sync := ClientMgt.SyncStatusReal(cur, events, names[i], now);
        cur := ClientMgt.UpdateSyncStatus(cur, names[i], ClientMgt.Label(sync));
        i := i + 1;
      }
      assert names[..i] == names;
      SchedulerTasks.RefreshDone(clients, cur, events, now, target);
      clients := cur;
    }

    // -------------------------------------------------------------------------
    // Log retention
    // -------------------------------------------------------------------------

    /** `scheduler_tasks_purge_logs` with retention count `maxLogEvents`. */
    method PurgeLogs(maxLogEvents: nat) returns (run: SchedulerTasks.PurgeRun)
      requires Valid()
      modifies this
      ensures Valid()
      ensures run == SchedulerTasks.PurgeDecision(old(events), maxLogEvents)
      ensures events == SchedulerTasks.PurgeLogs(old(events), maxLogEvents)
      ensures clients == old(clients) && authorizedKeys == old(authorizedKeys)
    {
      SchedulerTasks.PurgeKeepsInvariants(events, maxLogEvents);
      if |events| == 0 {
        return SchedulerTasks.Crashed;
      }
      var maxId := MaxId(events);
      if maxId > maxLogEvents {
        var start := SchedulerTasks.Cutoff(events, maxLogEvents);
        if start.None? {
          return SchedulerTasks.Crashed;
        }
        events := SchedulerTasks.PurgeBelow(events, start.value);
        run := SchedulerTasks.Purged(start.value);
      } else {
        run := SchedulerTasks.NotReached;
      }
    }

    // -------------------------------------------------------------------------
    // Registry
    // -------------------------------------------------------------------------

    /** `add_to_db`. */
    method AddToDb(name: string, sshKey: Option<string>, registerType: string, share: Option<string>, now: int)
      requires Valid()
      modifies this
      ensures Valid()
      ensures clients == old(clients) + [ClientMgt.NewClientRow(name, sshKey, registerType, share, now)]
      ensures events == old(events) && authorizedKeys == old(authorizedKeys)
    {
      clients := clients + [ClientMgt.NewClientRow(name, sshKey, registerType, share, now)];
    }

    /** `add_to_keyfile`: appends the client's forced-command key line. */
    method AddToKeyfile(sshKey: string, name: string)
      requires Valid()
      modifies this
      ensures Valid()
      ensures authorizedKeys == old(authorizedKeys) + [ClientMgt.KeyLine(sshKey, name)]
      ensures events == old(events) && clients == old(clients)
    {
      authorizedKeys := authorizedKeys + [ClientMgt.KeyLine(sshKey, name)];
    }

    /** `add`: "ui" inserts the row and the key line, "join" only the row, any other type nothing.
        A missing key is stored as the text "None"; for "ui" the key-line append then raises after
        the insert was committed, and `ok` is false. */
    method Add(name: string, sshKey: Option<string>, registerType: string, share: Option<string>, now: int)
      returns (ok: bool)
      requires Valid()
      modifies this
      ensures Valid()
      ensures ok == (registerType != "ui" || sshKey.Some?)
      ensures clients == if registerType == "ui" || registerType == "join"
        then old(clients) + [ClientMgt.NewClientRow(name, sshKey, registerType, share, now)]
        else old(clients)
      ensures authorizedKeys == if registerType == "ui" && sshKey.Some?
        then old(authorizedKeys) + [ClientMgt.KeyLine(sshKey.value, name)]
        else old(authorizedKeys)
      ensures events == old(events)
    {
      ok := registerType != "ui" || sshKey.Some?;
      if registerType == "ui" {
        AddToDb(name, sshKey, registerType, share, now);
        if sshKey.Some? {
          AddToKeyfile(sshKey.value, name);
        }
      } else if registerType == "join" {
        AddToDb(name, sshKey, registerType, share, now);
      }
    }

    /** `activate`: sets the rows of `name` to Active, then appends the key line. A missing key makes
        the append raise after the update was committed; `ok` is false then. */
    method Activate(name: string, sshKey: Option<string>) returns (ok: bool)
      requires Valid()
      modifies this
      ensures Valid()
      ensures clients == ClientMgt.SetActive(old(clients), name)
      ensures ok == sshKey.Some?
      ensures authorizedKeys == if ok then old(authorizedKeys) + [ClientMgt.KeyLine(sshKey.value, name)]
                                else old(authorizedKeys)
      ensures events == old(events)
    {
      clients := ClientMgt.SetActive(clients, name);
      ok := sshKey.Some?;
      if ok {
        AddToKeyfile(sshKey.value, name);
      }
    }

    /** `set_threshold`. */
    method SetThreshold(name: string, t: int)
      requires Valid()
      modifies this
      ensures Valid()
      ensures clients == ClientMgt.SetThreshold(old(clients), name, t)
      ensures events == old(events) && authorizedKeys == old(authorizedKeys)
    {
      clients := ClientMgt.SetThreshold(clients, name, t);
    }

    /** `remove`: deletes the rows of `name`, then rewrites the key file line by line, keeping the
        lines that do not contain `CLIENT:<name>`. Events are left alone. */
    method Remove(name: string)
      requires Valid()
      modifies this
      ensures Valid()
      ensures clients == ClientMgt.DeleteClient(old(clients), name)
      ensures authorizedKeys == ClientMgt.KeepKeyLines(old(authorizedKeys), name)
      ensures ClientMgt.UniqueNames(old(clients)) ==> ClientMgt.UniqueNames(clients)
      ensures events == old(events)
    {
      if ClientMgt.UniqueNames(clients) {
        ClientMgt.DeleteKeepsUnique(clients, name);
      }
      clients := ClientMgt.DeleteClient(clients, name);
      authorizedKeys := RewriteKeyFile(authorizedKeys, name);
    }

    /** `client_register`: 500 for a missing name or key or an existing name; otherwise a "join"
        add and 200. Names stay unique. */
    method Register(name: Option<string>, sshKey: Option<string>, share: Option<string>, now: int)
      returns (code: int)
      requires Valid()
      modifies this
      ensures Valid()
      ensures code == Unicloud.RegisterCode(Unicloud.Register(old(clients), name, sshKey))
      ensures clients == if Unicloud.Register(old(clients), name, sshKey) == Unicloud.Accepted
        then old(clients) + [ClientMgt.NewClientRow(name.value, sshKey, "join", share, now)]
        else old(clients)
      ensures ClientMgt.UniqueNames(old(clients)) ==> ClientMgt.UniqueNames(clients)
      ensures events == old(events) && authorizedKeys == old(authorizedKeys)
    {
      var d := Unicloud.Register(clients, name, sshKey);
      if d == Unicloud.Accepted {
        if ClientMgt.UniqueNames(clients) {
          ClientMgt.AddFreshKeepsUnique(clients, ClientMgt.NewClientRow(name.value, sshKey, "join", share, now));
        }
        var _ := Add(name.value, sshKey, "join", share, now);
      }
      code := Unicloud.RegisterCode(d);
    }
  }
}

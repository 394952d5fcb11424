/** The background jobs of app/scheduler_tasks.py, each as one synchronous run: the sync-status
    refresh and log retention. */
module SchedulerTasks {
  import opened Tables
  import ClientMgt

  // ---------------------------------------------------------------------------
  // scheduler_tasks_update_sync_status
  // ---------------------------------------------------------------------------

  /** The clients table a refresh run should leave at `now`: each client with a threshold carries
      its current label, each client with threshold 0 keeps its row untouched. */
  function Refreshed(clients: seq<ClientRow>, es: seq<Event>, now: int): (r: seq<ClientRow>)
    requires OkEventsClosed(es)
    ensures ClientMgt.SameNames(clients, r)
    ensures forall i :: 0 <= i < |r| && clients[i].threshold == 0 ==> r[i] == clients[i]
    ensures forall i :: 0 <= i < |r| && clients[i].threshold != 0 ==>
      r[i] == clients[i].(syncStatus := Some(ClientMgt.Label(
                ClientMgt.Classify(es, clients[i].threshold, clients[i].name, now))))
  {
    seq(|clients|, i requires 0 <= i < |clients| =>
      if clients[i].threshold == 0 then clients[i]
      else clients[i].(syncStatus := Some(ClientMgt.Label(
             ClientMgt.Classify(es, clients[i].threshold, clients[i].name, now)))))
  }

  /** A second run at the same time changes nothing more. */
  lemma RefreshedIdempotent(clients: seq<ClientRow>, es: seq<Event>, now: int)
    requires OkEventsClosed(es)
    ensures Refreshed(Refreshed(clients, es, now), es, now) == Refreshed(clients, es, now)
  {
  }

  /** A refresh run part way: the clients whose names are in `done` carry their new label. */
  ghost predicate RefreshedFor(start: seq<ClientRow>, cur: seq<ClientRow>, target: seq<ClientRow>, done: seq<string>) {
    |cur| == |start| == |target|
    && forall j :: 0 <= j < |cur| ==> cur[j] == if start[j].name in done then target[j] else start[j]
  }

  /** One iteration of the job's loop: `update_sync_status` with the label computed for the next
      listed client brings exactly that client's row to its refreshed value. */
  lemma RefreshStep(start: seq<ClientRow>, cur: seq<ClientRow>, es: seq<Event>, now: int,
                    target: seq<ClientRow>, names: seq<string>, i: nat)
    requires OkEventsClosed(es) && ClientMgt.UniqueNames(start)
    requires target == Refreshed(start, es, now) && names == ClientMgt.ListClientsThreshold(start)
    requires i < |names| && RefreshedFor(start, cur, target, names[..i])
    ensures ClientMgt.Exist(cur, names[i]) > 0
    ensures var tag := ClientMgt.Label(ClientMgt.SyncStatusReal(cur, es, names[i], now));
      RefreshedFor(start, ClientMgt.UpdateSyncStatus(cur, names[i], tag), target, names[..i + 1])
  {
    assert names[..i + 1] == names[..i] + [names[i]];
    var k := ListedRow(start, names[i]);
    RefreshRow(start, cur, es, now, target, names[..i], k);
  }

  /** Refreshing the row at `k` of the starting table, by its name, adds that name to the done list. */
  lemma RefreshRow(start: seq<ClientRow>, cur: seq<ClientRow>, es: seq<Event>, now: int,
                   target: seq<ClientRow>, done: seq<string>, k: nat)
    requires OkEventsClosed(es) && ClientMgt.UniqueNames(start)
    requires target == Refreshed(start, es, now)
    requires RefreshedFor(start, cur, target, done)
    requires k < |start| && start[k].threshold != 0
    ensures ClientMgt.Exist(cur, start[k].name) > 0
    ensures var name := start[k].name;
      var tag := ClientMgt.Label(ClientMgt.SyncStatusReal(cur, es, name, now));
      RefreshedFor(start, ClientMgt.UpdateSyncStatus(cur, name, tag), target, done + [name])
  {
    var name := start[k].name;
    assert ClientMgt.SameNames(start, cur) by {
      forall j | 0 <= j < |cur| ensures cur[j].name == start[j].name {
        assert target[j].name == start[j].name;
      }
    }
    assert ClientMgt.UniqueNames(cur);
    ClientMgt.UniqueRow(cur, k);
    assert cur[k].threshold == start[k].threshold;
    var tag := ClientMgt.Label(ClientMgt.Classify(es, start[k].threshold, name, now));
    var next := ClientMgt.UpdateSyncStatus(cur, name, tag);
    assert next[k] == target[k] by {
      var upd := cur[k].(syncStatus := Some(tag));
      assert upd == target[k];
      if ClientMgt.NeedsWrite(cur, name, tag) {
        assert next == ClientMgt.SetSyncStatus(cur, name, tag);
      } else {
        assert cur[k].syncStatus == Some(tag);
      }
    }
    assert forall j :: 0 <= j < |next| && j != k ==> start[j].name != name && next[j] == cur[j];
    MarkDone(start, cur, next, target, done, k);
  }

  /** The done list grows by the name at `k` when only row `k` moved, to its target. */
  lemma MarkDone(start: seq<ClientRow>, cur: seq<ClientRow>, next: seq<ClientRow>, target: seq<ClientRow>,
                 done: seq<string>, k: nat)
    requires RefreshedFor(start, cur, target, done)
    requires k < |start| && |next| == |cur| && next[k] == target[k]
    requires forall j :: 0 <= j < |next| && j != k ==> start[j].name != start[k].name && next[j] == cur[j]
    ensures RefreshedFor(start, next, target, done + [start[k].name])
  {
    var name := start[k].name;
    forall j | 0 <= j < |next| ensures next[j] == if start[j].name in done + [name] then target[j] else start[j] {
      if j != k {
        assert start[j].name in done + [name] <==> start[j].name in done;
      }
    }
  }

  /** A listed name comes from a row with a threshold. */
  lemma ListedRow(clients: seq<ClientRow>, name: string) returns (k: nat)
    requires name in ClientMgt.ListClientsThreshold(clients)
    ensures k < |clients| && clients[k].name == name && clients[k].threshold != 0
  {
    k :| 0 <= k < |clients| && clients[k].name == name && clients[k].threshold != 0;
  }

  /** Once every listed client has been handled the table is the refreshed one. */
  lemma RefreshDone(start: seq<ClientRow>, cur: seq<ClientRow>, es: seq<Event>, now: int, target: seq<ClientRow>)
    requires OkEventsClosed(es) && ClientMgt.UniqueNames(start)
    requires target == Refreshed(start, es, now)
    requires RefreshedFor(start, cur, target, ClientMgt.ListClientsThreshold(start))
    ensures cur == target
    ensures ClientMgt.UniqueNames(cur)
  {
    var names := ClientMgt.ListClientsThreshold(start);
    forall j | 0 <= j < |cur| ensures cur[j] == target[j] {
      if start[j].threshold != 0 {
        assert start[j].name in names;
      } else if start[j].name in names {
        var k :| 0 <= k < |start| && start[k].name == start[j].name && start[k].threshold != 0;
      }
    }
    assert ClientMgt.SameNames(start, cur);
  }

  // ---------------------------------------------------------------------------
  // scheduler_tasks_purge_logs
  // ---------------------------------------------------------------------------

  /** `log != ''`: false for an empty log and for NULL; "None" left by an earlier purge counts. */
  predicate HasLog(e: Event) {
    e.log.Some? && e.log.value != ""
  }

  /** `select max(id - N) from events where log != ''`; None stands for SQL NULL. */
  function Cutoff(es: seq<Event>, n: int): (c: Option<int>)
    ensures c.None? <==> forall i :: 0 <= i < |es| ==> !HasLog(es[i])
    ensures c.Some? ==> exists i :: 0 <= i < |es| && HasLog(es[i]) && c.value == es[i].id - n
    ensures c.Some? ==> forall i :: 0 <= i < |es| && HasLog(es[i]) ==> es[i].id - n <= c.value
  {
    if es == [] then None
    else
      var rest := Cutoff(es[1..], n);
      assert forall i :: 1 <= i < |es| ==> es[i] == es[1..][i - 1];
      if !HasLog(es[0]) then rest
      else if rest.Some? then Some(Max(es[0].id - n, rest.value))
      else Some(es[0].id - n)
  }

  /** `update events set log='None' where id < start`. */
  function PurgeBelow(es: seq<Event>, start: int): (r: seq<Event>)
    ensures |r| == |es|
    ensures forall i :: 0 <= i < |r| && es[i].id < start ==> r[i] == es[i].(log := Some(PURGED_LOG))
    ensures forall i :: 0 <= i < |r| && es[i].id >= start ==> r[i] == es[i]
  {
    seq(|es|, i requires 0 <= i < |es| => if es[i].id < start then es[i].(log := Some(PURGED_LOG)) else es[i])
  }

  /** `log != ''` is false only for an empty log and for NULL; a purged row's "None" is still a
      log, so after a purge every row below the start counts as logged. */
  lemma PurgedRowsStillLogged(es: seq<Event>, start: int)
    ensures forall e: Event :: !HasLog(e.(log := None)) && !HasLog(e.(log := Some("")))
    ensures var r := PurgeBelow(es, start);
      forall i :: 0 <= i < |es| ==> (HasLog(r[i]) <==> es[i].id < start || HasLog(es[i]))
  {
  }

  /** How a purge run ends. `Crashed` is Python raising TypeError before any update: on an empty
      table (`None > int`) or when no row has a log (`'%d' % None`). */
  datatype PurgeRun = NotReached | Purged(start: int) | Crashed

  function PurgeDecision(es: seq<Event>, maxLogEvents: int): (run: PurgeRun)
    ensures run == Crashed <==> |es| == 0 || (MaxId(es) > maxLogEvents && Cutoff(es, maxLogEvents).None?)
    ensures run == NotReached <==> |es| > 0 && MaxId(es) <= maxLogEvents
    ensures run.Purged? ==> Some(run.start) == Cutoff(es, maxLogEvents)
  {
    if |es| == 0 then Crashed
    else if MaxId(es) > maxLogEvents then
      match Cutoff(es, maxLogEvents)
      case None => Crashed
      case Some(start) => Purged(start)
    else NotReached
  }

  /** The events table after one purge run. */
  function PurgeLogs(es: seq<Event>, maxLogEvents: int): (r: seq<Event>)
    ensures |r| == |es|
    ensures forall i :: 0 <= i < |r| ==> r[i] == es[i].(log := r[i].log)
    ensures !PurgeDecision(es, maxLogEvents).Purged? ==> r == es
    ensures PurgeDecision(es, maxLogEvents).Purged? ==>
      forall i :: 0 <= i < |r| ==>
        r[i].log == if es[i].id < PurgeDecision(es, maxLogEvents).start then Some(PURGED_LOG) else es[i].log
  {
    match PurgeDecision(es, maxLogEvents)
    case Purged(start) => PurgeBelow(es, start)
    case _ => es
  }

  /** Purging keeps the table invariants: it touches no id and no status. */
  lemma PurgeKeepsInvariants(es: seq<Event>, maxLogEvents: int)
    ensures IdsIncreasing(es) ==> IdsIncreasing(PurgeLogs(es, maxLogEvents))
    ensures OkEventsClosed(es) ==> OkEventsClosed(PurgeLogs(es, maxLogEvents))
  {
    var r := PurgeLogs(es, maxLogEvents);
    assert forall i :: 0 <= i < |r| ==> r[i].id == es[i].id && r[i].status == es[i].status && r[i].endTs == es[i].endTs;
  }

  /** When the newest row has a log, the cutoff is the largest id minus the retention count:
      with max id 10000 and N = 5000, the rows below 5000 lose their logs. */
  lemma CutoffFromNewestLogged(es: seq<Event>, n: int)
    requires IdsIncreasing(es) && |es| > 0 && HasLog(es[|es| - 1])
    requires MaxId(es) > n
    ensures PurgeDecision(es, n) == Purged(MaxId(es) - n)
  {
    var last := |es| - 1;
    var c := Cutoff(es, n);
    var k :| 0 <= k < |es| && es[k].id == MaxId(es);
    assert k == last;
  }

  /** Running the purge twice with no new events leaves what running it once left. */
  lemma {:induction false} PurgeIdempotent(es: seq<Event>, n: nat)
    ensures PurgeLogs(PurgeLogs(es, n), n) == PurgeLogs(es, n)
  {
    var d := PurgeDecision(es, n);
    if d.Purged? {
      var r := PurgeBelow(es, d.start);
      assert PurgeLogs(es, n) == r;
      SameIds(es, r);
      CutoffStable(es, n, d.start);
      assert PurgeDecision(r, n) == d;
      PurgeBelowTwice(es, d.start);
    }
  }

  /** Blanking the logs below the same start twice blanks nothing more. */
  lemma PurgeBelowTwice(es: seq<Event>, start: int)
    ensures PurgeBelow(PurgeBelow(es, start), start) == PurgeBelow(es, start)
  {
  }

  /** The rows a purge blanks lie below the cutoff, and the row that set it keeps its log,
      so the cutoff computed afterwards is the same. */
  lemma {:induction false} CutoffStable(es: seq<Event>, n: nat, start: int)
    requires Cutoff(es, n) == Some(start)
    ensures Cutoff(PurgeBelow(es, start), n) == Some(start)
  {
    var k :| 0 <= k < |es| && HasLog(es[k]) && start == es[k].id - n;
    var r := PurgeBelow(es, start);
    PurgeKeepsNewestLogged(es, start, k);
    assert r[k].id - n == start;
    CutoffAt(r, n, k);
  }

  /** The logged row with the largest id is not below the purge start, so it keeps both its log
      and its place as the newest logged row. */
  lemma {:induction false} PurgeKeepsNewestLogged(es: seq<Event>, start: int, k: nat)
    requires k < |es| && HasLog(es[k]) && start <= es[k].id
    requires forall i :: 0 <= i < |es| && HasLog(es[i]) ==> es[i].id <= es[k].id
    ensures var r := PurgeBelow(es, start);
      r[k] == es[k] && forall i :: 0 <= i < |r| && HasLog(r[i]) ==> r[i].id <= r[k].id
  {
    var r := PurgeBelow(es, start);
    forall i | 0 <= i < |r| && HasLog(r[i]) ensures r[i].id <= r[k].id {
      if es[i].id >= start {
        assert r[i] == es[i];
      }
    }
  }

  /** The cutoff is set by the logged row with the largest id. */
  lemma {:induction false} CutoffAt(es: seq<Event>, n: int, k: nat)
    requires k < |es| && HasLog(es[k])
    requires forall i :: 0 <= i < |es| && HasLog(es[i]) ==> es[i].id <= es[k].id
    ensures Cutoff(es, n) == Some(es[k].id - n)
  {
    var c := Cutoff(es, n);
    var j :| 0 <= j < |es| && HasLog(es[j]) && c.value == es[j].id - n;
  }
}

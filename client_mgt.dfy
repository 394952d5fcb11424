/** The registry and the freshness evaluator of `ClientMgt` (app/client_mgt.py) as pure
    functions over the two tables. Each SQL statement of the source is one function here:
    a SELECT is a read, an UPDATE or DELETE returns the new table. The class `Database`
    in store.dfy applies them to its state. */
module ClientMgt {
  import opened Tables

  // ---------------------------------------------------------------------------
  // Reading the clients table
  // ---------------------------------------------------------------------------

  /** `exist()`: `select count(name) from clients where name = <name>`. */
  function Exist(clients: seq<ClientRow>, name: string): (n: nat)
    ensures n == 0 <==> forall i :: 0 <= i < |clients| ==> clients[i].name != name
    ensures n <= |clients|
  {
    if clients == [] then 0
    else (if clients[0].name == name then 1 else 0) + Exist(clients[1..], name)
  }

  /** Position of the row that `query_db(...)[0]` reads for a `where name = <name>` query. */
  function FirstIndex(clients: seq<ClientRow>, name: string): (k: nat)
    requires Exist(clients, name) > 0
    ensures k < |clients| && clients[k].name == name
    ensures forall j :: 0 <= j < k ==> clients[j].name != name
  {
    if clients[0].name == name then 0 else 1 + FirstIndex(clients[1..], name)
  }

  /** The row a read by name sees: one with that name, and with unique names the only one. */
  function Row(clients: seq<ClientRow>, name: string): (r: ClientRow)
    requires Exist(clients, name) > 0
    ensures r in clients && r.name == name
    ensures UniqueNames(clients) ==> forall i :: 0 <= i < |clients| && clients[i].name == name ==> r == clients[i]
  {
    clients[FirstIndex(clients, name)]
  }

  /** The table has no UNIQUE constraint on `name`; registration keeps names unique. */
  ghost predicate UniqueNames(clients: seq<ClientRow>) {
    forall i, j :: 0 <= i < j < |clients| ==> clients[i].name != clients[j].name
  }

  /** The only statuses the registry writes. */
  ghost predicate KnownStatuses(clients: seq<ClientRow>) {
    forall i :: 0 <= i < |clients| ==> clients[i].status == ACTIVE || clients[i].status == REGISTERED
  }

  /** Two tables whose rows carry the same names, position by position. */
  ghost predicate SameNames(a: seq<ClientRow>, b: seq<ClientRow>) {
    |a| == |b| && forall i :: 0 <= i < |a| ==> a[i].name == b[i].name
  }

  /** Reads by name see the same rows in tables that differ only outside the names. */
  lemma {:induction false} SameNamesSameRows(a: seq<ClientRow>, b: seq<ClientRow>, name: string)
    requires SameNames(a, b)
    ensures Exist(a, name) == Exist(b, name)
    ensures Exist(a, name) > 0 ==> FirstIndex(a, name) == FirstIndex(b, name)
  {
    if a != [] {
      assert SameNames(a[1..], b[1..]) by {
        forall i | 0 <= i < |a[1..]| ensures a[1..][i].name == b[1..][i].name {
          assert a[1..][i] == a[i + 1] && b[1..][i] == b[i + 1];
        }
      }
      SameNamesSameRows(a[1..], b[1..], name);
    }
  }

  /** With unique names, the row read by name is the one row that has it. */
  lemma UniqueRow(clients: seq<ClientRow>, j: nat)
    requires UniqueNames(clients) && j < |clients|
    ensures Exist(clients, clients[j].name) > 0
    ensures FirstIndex(clients, clients[j].name) == j
  {
  }

  /** `sync_status(type='db')`: the cached label of the client. */
  function SyncStatusDb(clients: seq<ClientRow>, name: string): (s: Option<string>)
    requires Exist(clients, name) > 0
    ensures UniqueNames(clients) ==>
      forall i :: 0 <= i < |clients| && clients[i].name == name ==> s == clients[i].syncStatus
  {
    Row(clients, name).syncStatus
  }

  /** `list_clients_threshold`: `select name from clients where threshold != 0`, in table order. */
  function ListClientsThreshold(clients: seq<ClientRow>): (names: seq<string>)
    ensures |names| <= |clients|
    ensures forall n :: n in names <==> exists i :: 0 <= i < |clients| && clients[i].name == n && clients[i].threshold != 0
  {
    if clients == [] then []
    else
      var rest := ListClientsThreshold(clients[1..]);
      assert forall i :: 1 <= i < |clients| ==> clients[i] == clients[1..][i - 1];
      if clients[0].threshold != 0 then [clients[0].name] + rest else rest
  }

  // ---------------------------------------------------------------------------
  // Freshness classification
  // ---------------------------------------------------------------------------

  datatype SyncClass = InSync | OutOfSync | NeverSynced

  /** The label the source returns and caches on the client row. */
  function Label(c: SyncClass): (s: string)
    ensures c == InSync <==> s == "In Sync"
    ensures c == OutOfSync <==> s == "Out of Sync"
    ensures c == NeverSynced <==> s == "Never synced"
  {
    match c
    case InSync => "In Sync"
    case OutOfSync => "Out of Sync"
    case NeverSynced => "Never synced"
  }

  /** An event of `name` with the given status, or with any status when `status` is None. */
  predicate Matches(e: Event, name: string, status: Option<string>) {
    e.client == name && (status.None? || e.status == status.value)
  }

  /** The matching event with the largest id. This is the row both
      `select max(id), end_ts ... and status='OK'` (SQLite takes the bare column `end_ts`
      from the row holding the maximum) and `... order by id desc limit 1` read. */
  function Latest(es: seq<Event>, name: string, status: Option<string>): (r: Option<Event>)
    ensures r.None? <==> forall i :: 0 <= i < |es| ==> !Matches(es[i], name, status)
    ensures r.Some? ==> r.value in es && Matches(r.value, name, status)
    ensures r.Some? ==> forall i :: 0 <= i < |es| && Matches(es[i], name, status) ==> es[i].id <= r.value.id
  {
    if es == [] then None
    else
      var rest := Latest(es[1..], name, status);
      assert forall i :: 1 <= i < |es| ==> es[i] == es[1..][i - 1];
      if !Matches(es[0], name, status) then rest
      else if rest.Some? && rest.value.id >= es[0].id then rest
      else Some(es[0])
  }

  /** `sync_status(type != 'db')` once the threshold has been read: classification against the
      OK event with the greatest id; the elapsed time may equal the threshold and still be in sync. */
  function Classify(es: seq<Event>, threshold: int, name: string, now: int): (c: SyncClass)
    requires OkEventsClosed(es)
    ensures c == NeverSynced <==> forall i :: 0 <= i < |es| ==> !Matches(es[i], name, Some(OK))
    ensures c != NeverSynced ==>
      exists k :: 0 <= k < |es| && Matches(es[k], name, Some(OK))
        && (forall i :: 0 <= i < |es| && Matches(es[i], name, Some(OK)) ==> es[i].id <= es[k].id)
        && (c == InSync <==> now - es[k].endTs.value <= threshold)
  {
    match Latest(es, name, Some(OK))
    case None => NeverSynced
    case Some(e) => if now - e.endTs.value <= threshold then InSync else OutOfSync
  }

  /** The evaluation as the source runs it: the threshold comes from the client's row. */
  function SyncStatusReal(clients: seq<ClientRow>, es: seq<Event>, name: string, now: int): (c: SyncClass)
    requires Exist(clients, name) > 0 && OkEventsClosed(es)
    ensures UniqueNames(clients) ==> forall i :: 0 <= i < |clients| && clients[i].name == name ==>
      c == Classify(es, clients[i].threshold, name, now)
  {
    Classify(es, Row(clients, name).threshold, name, now)
  }

  /** With unique ids, the OK event of greatest id decides, and the boundary is inclusive:
      `threshold` seconds after its end the client is in sync, one second later it is not. */
  lemma ClassifyBoundary(es: seq<Event>, k: nat, threshold: int)
    requires IdsIncreasing(es) && OkEventsClosed(es)
    requires k < |es| && es[k].status == OK
    requires forall i :: 0 <= i < |es| && Matches(es[i], es[k].client, Some(OK)) ==> es[i].id <= es[k].id
    ensures Classify(es, threshold, es[k].client, es[k].endTs.value + threshold) == InSync
    ensures Classify(es, threshold, es[k].client, es[k].endTs.value + threshold + 1) == OutOfSync
  {
    var name := es[k].client;
    var r := Latest(es, name, Some(OK));
    assert Matches(es[k], name, Some(OK));
    assert r.Some?;
    var j :| 0 <= j < |es| && es[j] == r.value;
    assert es[j].id == es[k].id;
    assert j == k;
  }

  /** The classification ignores every event that is not an OK event of the client. */
  lemma {:induction false} LatestIgnoresOthers(es: seq<Event>, e: Event, name: string, status: Option<string>)
    requires !Matches(e, name, status)
    ensures Latest(es + [e], name, status) == Latest(es, name, status)
  {
    if es != [] {
      assert (es + [e])[1..] == es[1..] + [e];
      LatestIgnoresOthers(es[1..], e, name, status);
    } else {
      assert (es + [e])[1..] == [];
    }
  }

  /** Scenario: alice, threshold 120, one OK event ending at 1000 + 50. */
  lemma ScenarioAlice()
    ensures var es := [Event(1, "alice", "s", Some("log"), 1000, Some(1050), Some(50), Some("In Sync"), OK)];
      && Classify(es, 120, "alice", 1169) == InSync
      && Classify(es, 120, "alice", 1170) == InSync
      && Classify(es, 120, "alice", 1171) == OutOfSync
      && Classify(es, 120, "bob", 1169) == NeverSynced
  {
    var es := [Event(1, "alice", "s", Some("log"), 1000, Some(1050), Some(50), Some("In Sync"), OK)];
    assert es[1..] == [];
    assert Latest(es, "alice", Some(OK)) == Some(es[0]);
    assert Latest(es, "bob", Some(OK)) == None;
  }

  /** The event with the greatest id decides even when an older event ended later. */
  lemma GreatestIdNotLatestEnd()
    ensures var es := [ Event(1, "c", "s", None, 100, Some(5000), Some(4900), None, OK),
                        Event(2, "c", "s", None, 200, Some(300), Some(100), None, OK) ];
      Classify(es, 1000, "c", 5100) == OutOfSync
  {
    var es := [ Event(1, "c", "s", None, 100, Some(5000), Some(4900), None, OK),
                Event(2, "c", "s", None, 200, Some(300), Some(100), None, OK) ];
    assert Latest(es[1..], "c", Some(OK)) == Some(es[1]);
  }

  // ---------------------------------------------------------------------------
  // update_sync_status
  // ---------------------------------------------------------------------------

  /** `update clients set sync_status = <s> where name = <name>`. */
  function SetSyncStatus(clients: seq<ClientRow>, name: string, s: string): (r: seq<ClientRow>)
    ensures SameNames(clients, r)
    ensures forall i :: 0 <= i < |r| && clients[i].name == name ==> r[i] == clients[i].(syncStatus := Some(s))
    ensures forall i :: 0 <= i < |r| && clients[i].name != name ==> r[i] == clients[i]
  {
    seq(|clients|, i requires 0 <= i < |clients| =>
      if clients[i].name == name then clients[i].(syncStatus := Some(s)) else clients[i])
  }

  /** `update_sync_status` writes only when the cached label differs (a NULL differs from any label). */
  predicate NeedsWrite(clients: seq<ClientRow>, name: string, s: string)
    requires Exist(clients, name) > 0
  {
    SyncStatusDb(clients, name) != Some(s)
  }

  /** The table after one `update_sync_status(s)`. */
  function UpdateSyncStatus(clients: seq<ClientRow>, name: string, s: string): (r: seq<ClientRow>)
    requires Exist(clients, name) > 0
    ensures SameNames(clients, r) && Exist(r, name) > 0
    ensures SyncStatusDb(r, name) == Some(s)
    ensures r != clients ==> NeedsWrite(clients, name, s)
    ensures NeedsWrite(clients, name, s) ==> r == SetSyncStatus(clients, name, s)
    ensures forall i :: 0 <= i < |r| && clients[i].name != name ==> r[i] == clients[i]
  {
    if NeedsWrite(clients, name, s) then
      var r := SetSyncStatus(clients, name, s);
      SameNamesSameRows(clients, r, name);
      r
    else clients
  }

  /** After one call the cached label is `s`, so a second call with the same `s` writes nothing
      and changes nothing: two calls give at most one write. */
  lemma UpdateSyncStatusOnce(clients: seq<ClientRow>, name: string, s: string)
    requires Exist(clients, name) > 0
    ensures var c1 := UpdateSyncStatus(clients, name, s);
      && Exist(c1, name) > 0
      && SyncStatusDb(c1, name) == Some(s)
      && !NeedsWrite(c1, name, s)
      && UpdateSyncStatus(c1, name, s) == c1
  {
    var c1 := UpdateSyncStatus(clients, name, s);
    if NeedsWrite(clients, name, s) {
      SameNamesSameRows(clients, c1, name);
    }
  }

  // ---------------------------------------------------------------------------
  // check_pending
  // ---------------------------------------------------------------------------

  predicate IsPendingOf(e: Event, name: string) {
    e.client == name && e.status == SYNCING
  }

  /** `select * from events where client = <name> and status = 'SYNCING'` is non-empty. */
  predicate HasPending(es: seq<Event>, name: string) {
    exists i :: 0 <= i < |es| && IsPendingOf(es[i], name)
  }

  /** `update events set status='KO', log='Sync was interrupted' where client=<name> and status='SYNCING'`. */
  function SweepPending(es: seq<Event>, name: string): (r: seq<Event>)
    ensures |r| == |es|
    ensures forall i :: 0 <= i < |r| ==> !IsPendingOf(r[i], name)
    ensures forall i :: 0 <= i < |r| && IsPendingOf(es[i], name) ==> r[i] == es[i].(status := KO, log := Some(INTERRUPTED))
    ensures forall i :: 0 <= i < |r| && !IsPendingOf(es[i], name) ==> r[i] == es[i]
  {
    seq(|es|, i requires 0 <= i < |es| =>
      if IsPendingOf(es[i], name) then es[i].(status := KO, log := Some(INTERRUPTED)) else es[i])
  }

  /** `check_pending` as a whole: the guarded update, which is the sweep in both branches. */
  function CheckPending(es: seq<Event>, name: string): (r: seq<Event>)
    ensures r == SweepPending(es, name)
    ensures r != es <==> HasPending(es, name)
  {
    if HasPending(es, name) then SweepPending(es, name) else es
  }

  /** A second `check_pending` changes nothing. */
  lemma CheckPendingIdempotent(es: seq<Event>, name: string)
    ensures CheckPending(CheckPending(es, name), name) == CheckPending(es, name)
  {
  }

  /** The sweep renames no id and creates no OK event, so the table invariants survive it. */
  lemma SweepKeepsInvariants(es: seq<Event>, name: string)
    ensures IdsIncreasing(es) ==> IdsIncreasing(SweepPending(es, name))
    ensures OkEventsClosed(es) ==> OkEventsClosed(SweepPending(es, name))
  {
  }

  // ---------------------------------------------------------------------------
  // info
  // ---------------------------------------------------------------------------

  /** The positions of the events `Matches` picks out. */
  ghost function MatchingRows(es: seq<Event>, name: string, status: Option<string>): set<nat> {
    set i: nat | i < |es| && Matches(es[i], name, status)
  }

  /** `select count(status) from events where client = <name> [and status = <st>]`: the number of
      the client's events (with that status, when one is given). */
  function Count(es: seq<Event>, name: string, status: Option<string>): (n: nat)
    ensures n == |MatchingRows(es, name, status)|
  {
    if es == [] then 0
    else
      var init := es[..|es| - 1];
      var last := |es| - 1;
      assert MatchingRows(es, name, status) ==
        MatchingRows(init, name, status) + (if Matches(es[last], name, status) then {last} else {});
      Count(init, name, status) + (if Matches(es[last], name, status) then 1 else 0)
  }

  datatype LastSeen = Never | Seen(endTs: Option<int>)

  datatype ClientInfo = ClientInfo(
    share: string, ok: nat, ko: nat, total: nat, lastSeen: LastSeen,
    joindate: int, status: string, sshKey: string, threshold: int)

  /** `avg(duration)` of the client's events is NULL: it has events, and none has a duration. */
  predicate NoDuration(es: seq<Event>, name: string) {
    forall i :: 0 <= i < |es| && es[i].client == name ==> es[i].duration.None?
  }

  /** `info()` without the value of `avg_duration`: counts of the client's events and the fields of
      its row. None is the TypeError of formatting a NULL average, raised when the client has events
      and none of them has a duration. */
  function Info(clients: seq<ClientRow>, es: seq<Event>, name: string): (r: Option<ClientInfo>)
    requires Exist(clients, name) > 0
    ensures r.None? <==> Count(es, name, None) > 0 && NoDuration(es, name)
    ensures r.Some? ==> r.value.ok == Count(es, name, Some(OK)) && r.value.ko == Count(es, name, Some(KO))
    ensures r.Some? ==> r.value.total == r.value.ok + r.value.ko
    ensures r.Some? ==> (r.value.lastSeen == Never <==> Count(es, name, None) == 0)
  {
    var row := Row(clients, name);
    var ok := Count(es, name, Some(OK));
    var ko := Count(es, name, Some(KO));
    var last := Latest(es, name, None);
    CountZero(es, name, None);
    if last.Some? && NoDuration(es, name) then None
    else
      Some(ClientInfo(row.share, ok, ko, ok + ko,
        if last.None? then Never else Seen(last.value.endTs),
        row.joindate, row.status, row.sshKey, row.threshold))
  }

  /** A count is zero exactly when no event matches. */
  lemma CountZero(es: seq<Event>, name: string, status: Option<string>)
    ensures Count(es, name, status) == 0 <==> forall i :: 0 <= i < |es| ==> !Matches(es[i], name, status)
  {
    if exists i :: 0 <= i < |es| && Matches(es[i], name, status) {
      var i :| 0 <= i < |es| && Matches(es[i], name, status);
      assert i in MatchingRows(es, name, status);
    }
  }

  /** The positions of the client's events whose status is none of OK, KO and SYNCING: `sync_end`
      stores whatever status text the client sends, and "None" when it sends none. */
  ghost function OtherStatusRows(es: seq<Event>, name: string): set<nat> {
    set i: nat | i < |es| && es[i].client == name && es[i].status != OK && es[i].status != KO && es[i].status != SYNCING
  }

  /** The client's events split into OK, KO, SYNCING and any other status, so `total` = ok + ko
      leaves out exactly the SYNCING events and those with another status. */
  lemma TotalExcludesSyncing(es: seq<Event>, name: string)
    ensures Count(es, name, Some(OK)) + Count(es, name, Some(KO)) + Count(es, name, Some(SYNCING))
            + |OtherStatusRows(es, name)| == Count(es, name, None)
  {
    var ok, ko, sy := MatchingRows(es, name, Some(OK)), MatchingRows(es, name, Some(KO)), MatchingRows(es, name, Some(SYNCING));
    var other := OtherStatusRows(es, name);
    assert ok * ko == {} && (ok + ko) * sy == {} && (ok + ko + sy) * other == {};
    assert MatchingRows(es, name, None) == ok + ko + sy + other;
  }

  /** After `check_pending` nothing of the client is SYNCING, so the `total` that `info` reports
      counts every event of the client except those with a status other than OK, KO and SYNCING. */
  lemma TotalAfterCheckPending(es: seq<Event>, name: string)
    ensures var r := CheckPending(es, name);
      Count(r, name, Some(OK)) + Count(r, name, Some(KO)) + |OtherStatusRows(es, name)| == Count(es, name, None)
  {
    var r := CheckPending(es, name);
    TotalExcludesSyncing(r, name);
    SweptRows(es, r, name);
  }

  /** The sweep moves no event to another client and leaves no other status than KO in place of SYNCING. */
  lemma SweptRows(es: seq<Event>, r: seq<Event>, name: string)
    requires r == SweepPending(es, name)
    ensures MatchingRows(r, name, Some(SYNCING)) == {}
    ensures OtherStatusRows(r, name) == OtherStatusRows(es, name)
    ensures MatchingRows(r, name, None) == MatchingRows(es, name, None)
  {
    assert forall i :: 0 <= i < |r| ==> r[i].client == es[i].client;
    assert forall i :: 0 <= i < |r| && r[i].client == name ==>
      r[i].status != SYNCING && (r[i].status == es[i].status || (es[i].status == SYNCING && r[i].status == KO));
  }

  // ---------------------------------------------------------------------------
  // Registry mutations
  // ---------------------------------------------------------------------------

  /** The row `add_to_db` inserts: threshold 0, no cached label, status by registration type. */
  function NewClientRow(name: string, sshKey: Option<string>, registerType: string, share: Option<string>, now: int): (row: ClientRow)
    ensures row.name == name && row.threshold == 0 && row.syncStatus.None? && row.joindate == now
    ensures row.sshKey == Text(sshKey) && row.share == Text(share)
    ensures row.status == ACTIVE <==> registerType == "ui"
    ensures row.status == REGISTERED <==> registerType != "ui"
  {
    ClientRow(name, Text(sshKey), if registerType == "ui" then ACTIVE else REGISTERED, Text(share), 0, None, now)
  }

  /** Inserting a name that does not exist yet keeps names unique. */
  lemma AddFreshKeepsUnique(clients: seq<ClientRow>, row: ClientRow)
    requires UniqueNames(clients) && Exist(clients, row.name) == 0
    ensures UniqueNames(clients + [row])
  {
    var r := clients + [row];
    forall i, j | 0 <= i < j < |r| ensures r[i].name != r[j].name {
      assert r[i] == clients[i];
    }
  }

  /** `update clients set status='Active' where name = <name>`. */
  function SetActive(clients: seq<ClientRow>, name: string): (r: seq<ClientRow>)
    ensures SameNames(clients, r)
    ensures forall i :: 0 <= i < |r| && clients[i].name == name ==> r[i] == clients[i].(status := ACTIVE)
    ensures forall i :: 0 <= i < |r| && clients[i].name != name ==> r[i] == clients[i]
  {
    seq(|clients|, i requires 0 <= i < |clients| =>
      if clients[i].name == name then clients[i].(status := ACTIVE) else clients[i])
  }

  /** `update clients set threshold = <t> where name = <name>`. */
  function SetThreshold(clients: seq<ClientRow>, name: string, t: int): (r: seq<ClientRow>)
    ensures SameNames(clients, r)
    ensures forall i :: 0 <= i < |r| && clients[i].name == name ==> r[i] == clients[i].(threshold := t)
    ensures forall i :: 0 <= i < |r| && clients[i].name != name ==> r[i] == clients[i]
  {
    seq(|clients|, i requires 0 <= i < |clients| =>
      if clients[i].name == name then clients[i].(threshold := t) else clients[i])
  }

  /** `delete from clients where name = <name>`: the other rows, in order. */
  function DeleteClient(clients: seq<ClientRow>, name: string): (r: seq<ClientRow>)
    ensures |r| == |clients| - Exist(clients, name)
    ensures forall i :: 0 <= i < |r| ==> r[i].name != name && r[i] in clients
    ensures forall i :: 0 <= i < |clients| && clients[i].name != name ==> clients[i] in r
  {
    if clients == [] then []
    else
      var rest := DeleteClient(clients[1..], name);
      assert forall i :: 1 <= i < |clients| ==> clients[i] == clients[1..][i - 1];
      if clients[0].name == name then rest else [clients[0]] + rest
  }

  /** Deleting distributes over concatenation, so the remaining rows keep their order. */
  lemma {:induction false} DeleteClientAppend(a: seq<ClientRow>, b: seq<ClientRow>, name: string)
    ensures DeleteClient(a + b, name) == DeleteClient(a, name) + DeleteClient(b, name)
  {
    if a == [] {
      assert a + b == b;
    } else {
      var c := a + b;
      assert c[0] == a[0] && c[1..] == a[1..] + b;
      var head := if a[0].name == name then [] else [a[0]];
      DeleteClientAppend(a[1..], b, name);
      var x, y := DeleteClient(a[1..], name), DeleteClient(b, name);
      assert DeleteClient(c, name) == head + (x + y);
      assert DeleteClient(a, name) == head + x;
      ConcatAssoc(head, x, y);
    }
  }

  /** Deleting a client keeps the names of the remaining rows unique. */
  lemma {:induction false} DeleteKeepsUnique(clients: seq<ClientRow>, name: string)
    requires UniqueNames(clients)
    ensures UniqueNames(DeleteClient(clients, name))
  {
    if clients != [] {
      var tail := clients[1..];
      assert forall k :: 0 <= k < |tail| ==> tail[k] == clients[k + 1];
      DeleteKeepsUnique(tail, name);
      var rest := DeleteClient(tail, name);
      if clients[0].name != name {
        forall k | 0 <= k < |rest| ensures rest[k].name != clients[0].name {
          var m :| 0 <= m < |tail| && tail[m] == rest[k];
        }
        ConsUnique(clients[0], rest);
      }
    }
  }

  lemma ConsUnique(row: ClientRow, rest: seq<ClientRow>)
    requires UniqueNames(rest)
    requires forall k :: 0 <= k < |rest| ==> rest[k].name != row.name
    ensures UniqueNames([row] + rest)
  {
    var r := [row] + rest;
    forall i, j | 0 <= i < j < |r| ensures r[i].name != r[j].name {
      assert r[j] == rest[j - 1];
      if i > 0 {
        assert r[i] == rest[i - 1];
      }
    }
  }

  /** Associativity as a lemma of its own: asserted inline inside DeleteClientAppend, next to
      DeleteClient's quantified contract, the same fact costs the solver far more. */
  lemma ConcatAssoc(a: seq<ClientRow>, b: seq<ClientRow>, c: seq<ClientRow>)
    ensures a + (b + c) == (a + b) + c
  {
  }

  // ---------------------------------------------------------------------------
  // The authorized-keys file, as its sequence of lines
  // ---------------------------------------------------------------------------

  const AUTH_COMMAND := "command=\"/usr/bin/unison -server\""

  /** The marker that ends a client's key line and that `remove` searches for. */
  function ClientTag(name: string): string { "CLIENT:" + name }

  /** The line `add_to_keyfile` appends for a client: the forced command that limits the key to
      unison, the key, and the client's tag. */
  function KeyLine(sshKey: string, name: string): (line: string)
    ensures |line| >= |ClientTag(name)| && line[|line| - |ClientTag(name)|..] == ClientTag(name)
    ensures |line| > |AUTH_COMMAND| + |sshKey| + 1
    ensures line[..|AUTH_COMMAND| + 1] == AUTH_COMMAND + " "
    ensures line[|AUTH_COMMAND| + 1..|AUTH_COMMAND| + 1 + |sshKey|] == sshKey
  {
    AUTH_COMMAND + " " + sshKey + " " + ClientTag(name)
  }

  /** Python's `sub in s`. */
  predicate Contains(s: string, sub: string) {
    exists i :: 0 <= i <= |s| - |sub| && OccursAt(s, sub, i)
  }

  predicate OccursAt(s: string, sub: string, i: int)
    requires 0 <= i <= |s| - |sub|
  {
    s[i..i + |sub|] == sub
  }

  /** The line written for a client is one that its removal drops. */
  lemma KeyLineIsTagged(sshKey: string, name: string)
    ensures Contains(KeyLine(sshKey, name), ClientTag(name))
  {
    var line := KeyLine(sshKey, name);
    var i := |line| - |ClientTag(name)|;
    assert OccursAt(line, ClientTag(name), i);
  }

  /** The lines `remove` writes back: those not containing `CLIENT:<name>`, in order. */
  function KeepKeyLines(lines: seq<string>, name: string): (r: seq<string>)
    ensures |r| <= |lines|
    ensures forall i :: 0 <= i < |r| ==> !Contains(r[i], ClientTag(name)) && r[i] in lines
    ensures forall i :: 0 <= i < |lines| && !Contains(lines[i], ClientTag(name)) ==> lines[i] in r
  {
    if lines == [] then []
    else
      var rest := KeepKeyLines(lines[1..], name);
      assert forall i :: 1 <= i < |lines| ==> lines[i] == lines[1..][i - 1];
      if Contains(lines[0], ClientTag(name)) then rest else [lines[0]] + rest
  }

  /** Filtering distributes over concatenation, so the kept lines stay in their original order. */
  lemma {:induction false} KeepKeyLinesAppend(a: seq<string>, b: seq<string>, name: string)
    ensures KeepKeyLines(a + b, name) == KeepKeyLines(a, name) + KeepKeyLines(b, name)
  {
    if a == [] {
      assert a + b == b;
    } else {
      assert (a + b)[1..] == a[1..] + b;
      KeepKeyLinesAppend(a[1..], b, name);
    }
  }

  /** The match is on a substring: removing "bob" also drops the key line of "bobby". */
  lemma RemoveBobDropsBobby()
    ensures KeepKeyLines([KeyLine("k1", "bobby"), "other"], "bob") == ["other"]
  {
    var line := KeyLine("k1", "bobby");
    var i := |AUTH_COMMAND| + 4;
    assert OccursAt(line, ClientTag("bob"), i);
    assert [KeyLine("k1", "bobby"), "other"][1..] == ["other"];
    assert !Contains("other", ClientTag("bob"));
  }
}

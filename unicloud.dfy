/** The decisions and table statements of the request handlers in app/unicloud.py:
    the sync start/end statements, client status, event pages and the events listing.
    HTTP status codes are returned as integers. */
module Unicloud {
  import opened Tables
  import ClientMgt

  // ---------------------------------------------------------------------------
  // sync_start / sync_end
  // ---------------------------------------------------------------------------

  /** The row `sync_start` inserts: only client, start_ts, share and status are given. */
  function NewSyncEvent(es: seq<Event>, client: string, share: Option<string>, startTs: int): (e: Event)
    ensures e.client == client && e.share == Text(share) && e.startTs == startTs && e.status == SYNCING
    ensures e.log.None? && e.endTs.None? && e.duration.None? && e.syncStatus.None?
    ensures forall i :: 0 <= i < |es| ==> es[i].id < e.id
  {
    Event(NextId(es), client, Text(share), None, startTs, None, None, None, SYNCING)
  }

  /** The events table after `sync_start` for an existing client: the pending sweep, then the insert. */
  function OpenEvent(es: seq<Event>, client: string, share: Option<string>, startTs: int): (r: seq<Event>)
    ensures r == ClientMgt.CheckPending(es, client) + [NewSyncEvent(es, client, share, startTs)]
  {
    var swept := ClientMgt.CheckPending(es, client);
    assert forall i :: 0 <= i < |es| ==> swept[i].id == es[i].id;
    assert |swept| == 0 <==> |es| == 0;
    SameIds(es, swept);
    swept + [NewSyncEvent(swept, client, share, startTs)]
  }

  /** After `sync_start` the client has exactly one SYNCING event: the new last row, whose id
      exceeds every earlier id; the earlier rows are the swept table. */
  lemma OpenEventLeavesOnePending(es: seq<Event>, client: string, share: Option<string>, startTs: int)
    requires IdsIncreasing(es)
    ensures var r := OpenEvent(es, client, share, startTs);
      && |r| == |es| + 1
      && r[..|es|] == ClientMgt.SweepPending(es, client)
      && ClientMgt.IsPendingOf(r[|es|], client)
      && (forall i :: 0 <= i < |r| && ClientMgt.IsPendingOf(r[i], client) ==> i == |es|)
      && (forall i :: 0 <= i < |es| ==> es[i].id < r[|es|].id)
      && IdsIncreasing(r)
  {
    var r := OpenEvent(es, client, share, startTs);
    var swept := ClientMgt.SweepPending(es, client);
    assert r[..|es|] == swept;
    assert forall i :: 0 <= i < |es| ==> r[i] == swept[i];
    ClientMgt.SweepKeepsInvariants(es, client);
    AppendNextIdKeepsIncreasing(swept, r[|es|]);
  }

  /** Scenario: bob's orphan SYNCING event from 500 is swept to KO when bob starts at 900. */
  lemma ScenarioBob()
    ensures var orphan := Event(1, "bob", "s", None, 500, None, None, None, SYNCING);
      OpenEvent([orphan], "bob", Some("s"), 900) ==
        [ orphan.(status := KO, log := Some(INTERRUPTED)),
          Event(2, "bob", "s", None, 900, None, None, None, SYNCING) ]
  {
    var orphan := Event(1, "bob", "s", None, 500, None, None, None, SYNCING);
    assert ClientMgt.IsPendingOf([orphan][0], "bob");
  }

  /** The events table after `sync_end` for an existing client: every row of the client with that
      start timestamp is overwritten, whatever its status; the duration may be negative. */
  function CloseEvents(es: seq<Event>, client: string, startTs: int, status: Option<string>,
                       syncStatus: Option<string>, log: Option<string>, endTs: int): (r: seq<Event>)
    ensures |r| == |es|
    ensures forall i :: 0 <= i < |r| && es[i].client == client && es[i].startTs == startTs ==>
      r[i] == es[i].(status := Text(status), syncStatus := Some(Text(syncStatus)), endTs := Some(endTs),
                     duration := Some(endTs - es[i].startTs), log := Some(Text(log)))
    ensures forall i :: 0 <= i < |r| && !(es[i].client == client && es[i].startTs == startTs) ==> r[i] == es[i]
  {
    seq(|es|, i requires 0 <= i < |es| =>
      if es[i].client == client && es[i].startTs == startTs
      then es[i].(status := Text(status), syncStatus := Some(Text(syncStatus)), endTs := Some(endTs),
                  duration := Some(endTs - startTs), log := Some(Text(log)))
      else es[i])
  }

  /** Closing keeps ids and leaves every OK row with an end timestamp. */
  lemma CloseEventsKeepsInvariants(es: seq<Event>, client: string, startTs: int, status: Option<string>,
                                   syncStatus: Option<string>, log: Option<string>, endTs: int)
    requires IdsIncreasing(es) && OkEventsClosed(es)
    ensures var r := CloseEvents(es, client, startTs, status, syncStatus, log, endTs);
      IdsIncreasing(r) && OkEventsClosed(r)
  {
  }

  /** A close for a start timestamp no row has leaves the table as it was (yet answers 201). */
  lemma CloseWithoutMatchChangesNothing(es: seq<Event>, client: string, startTs: int, status: Option<string>,
                                        syncStatus: Option<string>, log: Option<string>, endTs: int)
    requires forall i :: 0 <= i < |es| ==> !(es[i].client == client && es[i].startTs == startTs)
    ensures CloseEvents(es, client, startTs, status, syncStatus, log, endTs) == es
  {
  }

  /** Closing before the start is recorded as is, with a negative duration. */
  lemma NegativeDurationAccepted()
    ensures var e := Event(1, "c", "s", None, 900, None, None, None, SYNCING);
      CloseEvents([e], "c", 900, Some(OK), Some("In Sync"), Some("done"), 800)[0].duration == Some(-100)
  {
  }

  // ---------------------------------------------------------------------------
  // client_status, event_id, client_register
  // ---------------------------------------------------------------------------

  /** `client_status`: 404 for an unknown client, 200 only if its stored status is "OK", else 401. */
  function ClientStatusCode(clients: seq<ClientRow>, name: string): (code: int)
    ensures code == 404 <==> ClientMgt.Exist(clients, name) == 0
    ensures code == 200 <==> ClientMgt.Exist(clients, name) > 0 && ClientMgt.Row(clients, name).status == "OK"
    ensures code == 404 || code == 200 || code == 401
  {
    if ClientMgt.Exist(clients, name) == 0 then 404
    else if ClientMgt.Row(clients, name).status == "OK" then 200
    else 401
  }

  /** The registry only writes "Active" and "Registered", so no existing client ever gets 200. */
  lemma ExistingClientsGet401(clients: seq<ClientRow>, name: string)
    requires ClientMgt.KnownStatuses(clients) && ClientMgt.Exist(clients, name) > 0
    ensures ClientStatusCode(clients, name) == 401
  {
    assert ClientMgt.Row(clients, name) == clients[ClientMgt.FirstIndex(clients, name)];
  }

  datatype EventPage = LogPage(event: Event) | NotFound404

  /** `event_id`: the event is shown if it exists and is not SYNCING; otherwise 404. */
  function EventView(es: seq<Event>, id: int): (p: EventPage)
    ensures p.LogPage? ==> p.event in es && p.event.id == id && p.event.status != SYNCING
    ensures p.NotFound404? ==> forall i :: 0 <= i < |es| && es[i].id == id ==> es[i].status == SYNCING
  {
    if es == [] then NotFound404
    else if es[0].id == id && es[0].status != SYNCING then LogPage(es[0])
    else
      var rest := EventView(es[1..], id);
      assert forall i :: 1 <= i < |es| ==> es[i] == es[1..][i - 1];
      rest
  }

  /** With unique ids the page shows the one event with that id. */
  lemma EventViewShowsTheEvent(es: seq<Event>, k: nat)
    requires IdsIncreasing(es) && k < |es|
    ensures EventView(es, es[k].id) == (if es[k].status == SYNCING then NotFound404 else LogPage(es[k]))
  {
    var p := EventView(es, es[k].id);
    if p.LogPage? {
      var j :| 0 <= j < |es| && es[j] == p.event;
      assert j == k;
    }
  }

  datatype RegisterDecision = Incomplete | AlreadyExists | Accepted

  /** `client_register`: both name and key are required, and an existing name is refused. */
  function Register(clients: seq<ClientRow>, name: Option<string>, sshKey: Option<string>): (d: RegisterDecision)
    ensures d == Incomplete <==> name.None? || sshKey.None?
    ensures d == AlreadyExists <==> name.Some? && sshKey.Some? && ClientMgt.Exist(clients, name.value) > 0
    ensures d == Accepted <==> name.Some? && sshKey.Some? && ClientMgt.Exist(clients, name.value) == 0
  {
    if name.Some? && sshKey.Some? then
      if ClientMgt.Exist(clients, name.value) > 0 then AlreadyExists else Accepted
    else Incomplete
  }

  /** The answer of `client_register`: 200 only for an added client, 500 for both refusals. */
  function RegisterCode(d: RegisterDecision): (code: int)
    ensures code == 200 <==> d == Accepted
    ensures code == 500 <==> d.Incomplete? || d.AlreadyExists?
  {
    if d == Accepted then 200 else 500
  }

  // ---------------------------------------------------------------------------
  // The events listing
  // ---------------------------------------------------------------------------

  /** One column condition of the listing query: no condition, or `column = '<text>'`. */
  datatype Field = All | Only(text: string)

  datatype Selection = Selection(client: Field, status: Field, syncStatus: Field)

  /** A form value is no condition only when it is "ALL"; anything else, a missing value included,
      is compared as text ('%s' renders None as "None"). */
  function FieldOf(v: Option<string>): Field {
    if v == Some("ALL") then All else Only(Text(v))
  }

  /** The eight query branches of `events`, in the source's order. They cover every combination,
      and each constrains exactly the fields not given as "ALL"; the one exception is a request with
      no field at all, which lists everything. */
  function SelectQuery(client: Option<string>, status: Option<string>, syncStatus: Option<string>): (sel: Selection)
    ensures sel == if client.None? && status.None? && syncStatus.None? then Selection(All, All, All)
                   else Selection(FieldOf(client), FieldOf(status), FieldOf(syncStatus))
  {
    var allC, allS, allY := client == Some("ALL"), status == Some("ALL"), syncStatus == Some("ALL");
    var c, s, y := Only(Text(client)), Only(Text(status)), Only(Text(syncStatus));
    if (allC && allS && allY) || (client.None? && status.None? && syncStatus.None?) then Selection(All, All, All)
    else if !allC && allS && allY then Selection(c, All, All)
    else if !allC && !allS && allY then Selection(c, s, All)
    else if !allC && !allY && allS then Selection(c, All, y)
    else if !allC && !allS && !allY then Selection(c, s, y)
    else if !allS && allC && allY then Selection(All, s, All)
    else if !allY && allC && allS then Selection(All, All, y)
    else Selection(All, s, y)
  }

  /** The WHERE clause. `sync_status = 'x'` is false on a NULL column. */
  predicate Selected(e: Event, sel: Selection) {
    && (sel.client.Only? ==> e.client == sel.client.text)
    && (sel.status.Only? ==> e.status == sel.status.text)
    && (sel.syncStatus.Only? ==> e.syncStatus == Some(sel.syncStatus.text))
  }

  /** Which rows a request lists: all of them when no field is given; otherwise each field other
      than "ALL" must equal its column as text, a missing field matching only the text "None" and
      a sync_status condition never matching a NULL column. */
  lemma SelectQueryMatches(client: Option<string>, status: Option<string>, syncStatus: Option<string>, e: Event)
    ensures Selected(e, SelectQuery(client, status, syncStatus)) <==>
      (client.None? && status.None? && syncStatus.None?) ||
      (&& (client != Some("ALL") ==> e.client == Text(client))
       && (status != Some("ALL") ==> e.status == Text(status))
       && (syncStatus != Some("ALL") ==> e.syncStatus.Some? && e.syncStatus.value == Text(syncStatus)))
  {
  }

  /** The rows a selection keeps, in table order: each selected row as often as the table holds
      it, and no other row. */
  function Filter(es: seq<Event>, sel: Selection): (r: seq<Event>)
    ensures forall i :: 0 <= i < |r| ==> Selected(r[i], sel)
    ensures forall e :: multiset(r)[e] == if Selected(e, sel) then multiset(es)[e] else 0
  {
    if es == [] then []
    else
      var rest := Filter(es[1..], sel);
      assert es == [es[0]] + es[1..];
      if Selected(es[0], sel) then [es[0]] + rest else rest
  }

  ghost predicate SortedDesc(s: seq<Event>) {
    forall i, j :: 0 <= i < j < |s| ==> s[i].startTs >= s[j].startTs
  }

  /** Inserts `e` into a list sorted by descending start_ts, below every row that started later. */
  function Insert(e: Event, s: seq<Event>): (r: seq<Event>)
    ensures multiset(r) == multiset(s) + multiset{e}
  {
    if s == [] then [e]
    else if s[0].startTs > e.startTs then
      assert s == [s[0]] + s[1..];
      [s[0]] + Insert(e, s[1..])
    else [e] + s
  }

  lemma {:induction false} InsertSorted(e: Event, s: seq<Event>)
    requires SortedDesc(s)
    ensures SortedDesc(Insert(e, s))
  {
    if s != [] && s[0].startTs > e.startTs {
      var tail := s[1..];
      var rest := Insert(e, tail);
      assert SortedDesc(tail) by {
        forall i, j | 0 <= i < j < |tail| ensures tail[i].startTs >= tail[j].startTs {
          assert tail[i] == s[i + 1] && tail[j] == s[j + 1];
        }
      }
      InsertSorted(e, tail);
      assert rest[0].startTs <= s[0].startTs by {
        if tail != [] { assert tail[0] == s[1]; }
      }
      var r := [s[0]] + rest;
      forall i, j | 0 <= i < j < |r| ensures r[i].startTs >= r[j].startTs {
        assert r[j] == rest[j - 1];
        if i > 0 {
          assert r[i] == rest[i - 1];
        } else if j > 1 {
          assert rest[0].startTs >= rest[j - 1].startTs;
        }
      }
    }
  }

  /** `order by start_ts desc`. Rows with equal start_ts come out in some order (SQLite leaves it open). */
  function SortByStartDesc(s: seq<Event>): (r: seq<Event>)
    ensures SortedDesc(r)
    ensures multiset(r) == multiset(s)
  {
    if s == [] then []
    else
      assert s == [s[0]] + s[1..];
      InsertSorted(s[0], SortByStartDesc(s[1..]));
      Insert(s[0], SortByStartDesc(s[1..]))
  }

  /** The number of rows `limit <n>` keeps: a missing limit is 50, a negative one means no limit. */
  function RowLimit(limit: Option<int>, available: nat): (n: nat)
    ensures n <= available
    ensures limit.None? ==> n == if available < 50 then available else 50
    ensures limit.Some? && limit.value < 0 ==> n == available
    ensures limit.Some? && limit.value >= 0 ==> n == if limit.value < available then limit.value else available
  {
    var l := if limit.None? then 50 else limit.value;
    if l < 0 || l > available then available else l
  }

  /** `events`: the selected rows, newest start first, cut to the limit. The listing holds only
      selected rows, is ordered by start_ts descending, holds as many rows as the limit allows, and
      every selected row it leaves out started no later than any it shows. */
  function ListEvents(es: seq<Event>, client: Option<string>, status: Option<string>,
                      syncStatus: Option<string>, limit: Option<int>): (r: seq<Event>)
    ensures var sel := SelectQuery(client, status, syncStatus);
      var selected := Filter(es, sel);
      && (forall i :: 0 <= i < |r| ==> Selected(r[i], sel))
      && SortedDesc(r)
      && (limit.None? ==> |r| == if |selected| < 50 then |selected| else 50)
      && (limit.Some? && limit.value < 0 ==> |r| == |selected|)
      && (limit.Some? && limit.value >= 0 ==> |r| == if limit.value < |selected| then limit.value else |selected|)
      && multiset(r) <= multiset(selected)
      && (forall e :: e in multiset(selected) - multiset(r) ==>
            forall i :: 0 <= i < |r| ==> e.startTs <= r[i].startTs)
  {
    var sel := SelectQuery(client, status, syncStatus);
    var selected := Filter(es, sel);
    var sorted := SortByStartDesc(selected);
    assert |sorted| == |multiset(sorted)| == |multiset(selected)| == |selected|;
    var k := RowLimit(limit, |sorted|);
    SortedPrefixIsTop(sorted, k);
    PrefixSelected(selected, sorted, k, sel);
    sorted[..k]
  }

  /** A prefix of a descending list holds its latest rows; the rest started no later. */
  lemma SortedPrefixIsTop(sorted: seq<Event>, k: nat)
    requires SortedDesc(sorted) && k <= |sorted|
    ensures SortedDesc(sorted[..k])
    ensures multiset(sorted[..k]) <= multiset(sorted)
    ensures forall e :: e in multiset(sorted) - multiset(sorted[..k]) ==>
      forall i :: 0 <= i < k ==> e.startTs <= sorted[..k][i].startTs
  {
    var r := sorted[..k];
    assert sorted == r + sorted[k..];
    assert multiset(sorted) == multiset(r) + multiset(sorted[k..]);
    forall e | e in multiset(sorted) - multiset(r)
      ensures forall i :: 0 <= i < k ==> e.startTs <= r[i].startTs
    {
      assert e in multiset(sorted[k..]);
      var j :| 0 <= j < |sorted[k..]| && sorted[k..][j] == e;
      assert sorted[k + j] == e;
    }
  }

  lemma PrefixSelected(selected: seq<Event>, sorted: seq<Event>, k: nat, sel: Selection)
    requires forall i :: 0 <= i < |selected| ==> Selected(selected[i], sel)
    requires multiset(sorted) == multiset(selected) && k <= |sorted|
    ensures forall i :: 0 <= i < k ==> Selected(sorted[..k][i], sel)
  {
    forall i | 0 <= i < k ensures Selected(sorted[..k][i], sel) {
      assert sorted[..k][i] in multiset(sorted);
      InMultisetSelected(selected, sorted[..k][i], sel);
    }
  }

  lemma InMultisetSelected(selected: seq<Event>, e: Event, sel: Selection)
    requires forall i :: 0 <= i < |selected| ==> Selected(selected[i], sel)
    requires e in multiset(selected)
    ensures Selected(e, sel)
  {
    var j :| 0 <= j < |selected| && selected[j] == e;
  }

  /** With a limit at least the number of selected rows, a negative one, or no limit and at most
      50 selected rows, every selected row is listed, as often as the table holds it. */
  lemma ListEventsComplete(es: seq<Event>, client: Option<string>, status: Option<string>,
                           syncStatus: Option<string>, limit: Option<int>)
    requires var n := |Filter(es, SelectQuery(client, status, syncStatus))|;
      (limit.None? && n <= 50) || (limit.Some? && (limit.value < 0 || limit.value >= n))
    ensures var r := ListEvents(es, client, status, syncStatus, limit);
      forall e :: multiset(r)[e] == if Selected(e, SelectQuery(client, status, syncStatus)) then multiset(es)[e] else 0
  {
    var sel := SelectQuery(client, status, syncStatus);
    var selected := Filter(es, sel);
    var sorted := SortByStartDesc(selected);
    assert |sorted| == |multiset(sorted)| == |multiset(selected)| == |selected|;
    assert sorted[..|sorted|] == sorted;
    assert ListEvents(es, client, status, syncStatus, limit) == sorted;
    forall e ensures multiset(sorted)[e] == if Selected(e, sel) then multiset(es)[e] else 0 {
      assert multiset(sorted)[e] == multiset(selected)[e];
    }
  }
}

/** The two SQLite tables of unicloud, `events` and `clients`, as records.
    A nullable column is an `Option`; a column the code always fills is a plain value. */
module Tables {

  datatype Option<T> = None | Some(value: T)

  /** How Python's `'%s' % v` renders an optional request field: a missing field
      (`None`) becomes the four-letter text "None". */
  function Text(v: Option<string>): (s: string)
    ensures v.Some? ==> s == v.value
    ensures v.None? ==> s == "None"
  {
    match v
    case Some(x) => x
    case None => "None"
  }

  /** Event statuses written by the server itself. */
  const SYNCING := "SYNCING"
  const OK := "OK"
  const KO := "KO"

  /** Log text written when an interrupted sync is swept to KO. */
  const INTERRUPTED := "Sync was interrupted"

  /** Log text written by log retention. */
  const PURGED_LOG := "None"

  /** Client lifecycle statuses written by the registry. */
  const ACTIVE := "Active"
  const REGISTERED := "Registered"

  /** One row of `events`. `id` is the integer primary key; `log`, `end_ts`, `duration`
      and `sync_status` stay NULL until the event is closed. */
  datatype Event = Event(
    id: int,
    client: string,
    share: string,
    log: Option<string>,
    startTs: int,
    endTs: Option<int>,
    duration: Option<int>,
    syncStatus: Option<string>,
    status: string)

  /** One row of `clients`. `sync_status` is the cached freshness label, NULL until first written. */
  datatype ClientRow = ClientRow(
    name: string,
    sshKey: string,
    status: string,
    share: string,
    threshold: int,
    syncStatus: Option<string>,
    joindate: int)

  /** Ids are positive and grow with the position in the table: the order rows were inserted. */
  ghost predicate IdsIncreasing(es: seq<Event>) {
    && (forall i :: 0 <= i < |es| ==> es[i].id > 0)
    && (forall i, j :: 0 <= i < j < |es| ==> es[i].id < es[j].id)
  }

  /** Every event the client reported as OK carries its end timestamp (sync_end writes both). */
  ghost predicate OkEventsClosed(es: seq<Event>) {
    forall i :: 0 <= i < |es| && es[i].status == OK ==> es[i].endTs.Some?
  }

  function Max(a: int, b: int): int { if a < b then b else a }

  /** `select max(id) from events` on a non-empty table. */
  function MaxId(es: seq<Event>): (m: int)
    requires |es| > 0
    ensures forall i :: 0 <= i < |es| ==> es[i].id <= m
    ensures exists i :: 0 <= i < |es| && es[i].id == m
  {
    if |es| == 1 then es[0].id
    else
      var rest := MaxId(es[1..]);
      assert forall i :: 1 <= i < |es| ==> es[i] == es[1..][i - 1];
      Max(es[0].id, rest)
  }

  /** The id SQLite gives the next row of an `INTEGER PRIMARY KEY` table:
      one more than the largest id, or 1 in an empty table. */
  function NextId(es: seq<Event>): (n: int)
    ensures forall i :: 0 <= i < |es| ==> es[i].id < n
    ensures IdsIncreasing(es) ==> n > 0
  {
    if |es| == 0 then 1 else MaxId(es) + 1
  }

  /** Appending a row under the next id keeps the ids increasing. */
  lemma AppendNextIdKeepsIncreasing(es: seq<Event>, e: Event)
    requires IdsIncreasing(es)
    requires e.id == NextId(es)
    ensures IdsIncreasing(es + [e])
  {
    var r := es + [e];
    forall i, j | 0 <= i < j < |r| ensures r[i].id < r[j].id {
      if j == |es| {
        assert r[i] == es[i];
      } else {
        assert r[i] == es[i] && r[j] == es[j];
      }
    }
  }

  /** Tables whose ids agree row by row have the same largest and next id. */
  lemma SameIds(a: seq<Event>, b: seq<Event>)
    requires |a| == |b| && forall i :: 0 <= i < |a| ==> a[i].id == b[i].id
    ensures |a| > 0 ==> MaxId(a) == MaxId(b)
    ensures NextId(a) == NextId(b)
  {
    if |a| > 0 {
      var i :| 0 <= i < |a| && a[i].id == MaxId(a);
      var j :| 0 <= j < |b| && b[j].id == MaxId(b);
      assert a[j].id <= MaxId(a) && b[i].id <= MaxId(b);
    }
  }
}

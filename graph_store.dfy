/** Saving a diagram (data/db.js, `saveGraph`): the stored graph record is
    replaced wholesale, and the previous content is archived in an
    append-only log, but only when the tables, the links or the name
    changed. Storage is a map from graph id to record plus the log
    sequence; what the storage calls can fail with is a parameter. */
module GraphStore {
  import opened Optional

  /** A JSON value: the table and link dictionaries and the box are opaque
      payloads, compared only structurally. */
  datatype Json =
    | JNull
    | JBool(b: bool)
    | JNum(n: int)
    | JStr(s: string)
    | JArr(items: seq<Json>)
    | JObj(members: map<string, Json>)

  /** A stored graph record; `extra` holds any key besides the six that
      `saveGraph` writes. */
  datatype Graph = Graph(
    id: string,
    tableDict: Json,
    linkDict: Json,
    box: Json,
    name: string,
    updatedAt: int,
    extra: map<string, Json>)

  /** The part of a graph whose change is worth a log entry. */
  datatype Content = Content(tableDict: Json, linkDict: Json, name: string)

  /** An archived previous version of graph `graphId`. */
  datatype LogEntry = LogEntry(
    graphId: string,
    updatedAt: int,
    tableDict: Json,
    linkDict: Json,
    name: string)

  /** The argument of `saveGraph`. */
  datatype SaveRequest = SaveRequest(
    id: string,
    name: string,
    tableDict: Json,
    linkDict: Json,
    box: Json)

  /** Which of the three storage calls fail for reasons outside this code
      (the storage itself): `graphs.get`, `graphs.put`, `logs.add`. The key
      clash that makes `logs.add` reject is not one of these: it follows
      from the log itself (`Logged`). */
  datatype Faults = Faults(getFails: bool, putFails: bool, addFails: bool)

  /** The notification shown at the end: "Save success" or "Save failed". */
  datatype Outcome = SaveSuccess | SaveFailed

  datatype Store = Store(graphs: map<string, Graph>, logs: seq<LogEntry>)

  /** The `logJson` literal: the part of a record whose change is logged. */
  function ContentOf(g: Graph): Content
  {
    Content(g.tableDict, g.linkDict, g.name)
  }

  /** The content a save request asks to store. */
  function Requested(req: SaveRequest): Content
  {
    Content(req.tableDict, req.linkDict, req.name)
  }

  /** The record `graphs.put` writes, stamped with the time of the call. */
  function NewRecord(req: SaveRequest, now: int): (g: Graph)
    ensures g.id == req.id && ContentOf(g) == Requested(req)
    ensures g.box == req.box && g.updatedAt == now && g.extra == map[]
  {
    Graph(req.id, req.tableDict, req.linkDict, req.box, req.name, now, map[])
  }

  /** The log entry archiving `prev` under graph id `id`. */
  function Archive(id: string, prev: Graph): (e: LogEntry)
    ensures e.graphId == id && e.updatedAt == prev.updatedAt
    ensures e.tableDict == prev.tableDict && e.linkDict == prev.linkDict && e.name == prev.name
  {
    LogEntry(id, prev.updatedAt, prev.tableDict, prev.linkDict, prev.name)
  }

  /** The diff of the new content against the old has more than one part,
      that is, they differ: in the tables, in the links or in the name. */
  predicate Changed(prev: Graph, req: SaveRequest)
  {
    ContentOf(prev) != Requested(req)
  }

  /** The log's primary key is `graphId` (schema `logs: 'graphId'`, not
      auto-incremented): an entry for graph `id` is already stored. */
  predicate Logged(logs: seq<LogEntry>, id: string)
  {
    exists k | 0 <= k < |logs| :: logs[k].graphId == id
  }

  /** The log holds at most one entry per graph, as its primary key demands. */
  ghost predicate OnePerGraph(logs: seq<LogEntry>)
  {
    forall i, j :: 0 <= i < j < |logs| ==> logs[i].graphId != logs[j].graphId
  }

  /** One call of `saveGraph` on store `st` at time `now`: the new store
      and the notification. */
  function Save(st: Store, req: SaveRequest, now: int, faults: Faults): (r: (Store, Outcome))
    ensures st.logs <= r.0.logs && |r.0.logs| <= |st.logs| + 1
    ensures r.1 == SaveSuccess ==> req.id in st.graphs && req.id in r.0.graphs && r.0.graphs[req.id] == NewRecord(req, now)
    ensures r.0.graphs.Keys <= st.graphs.Keys + {req.id}
  {
    if faults.getFails then (st, SaveFailed)
    else
      var data := if req.id in st.graphs then Some(st.graphs[req.id]) else None;
      if faults.putFails then (st, SaveFailed)
      else
        var graphs := st.graphs[req.id := NewRecord(req, now)];
        match data
        case None => (Store(graphs, st.logs), SaveFailed)
        case Some(prev) =>
          var logs := if Changed(prev, req) && !faults.addFails && !Logged(st.logs, req.id)
                      then st.logs + [Archive(req.id, prev)]
                      else st.logs;
          (Store(graphs, logs), SaveSuccess)
  }

  /** The log only grows, by at most one entry per call, and existing entries
      are never touched. */
  lemma LogIsAppendOnly(st: Store, req: SaveRequest, now: int, faults: Faults)
    ensures var logs := Save(st, req, now, faults).0.logs;
      |st.logs| <= |logs| <= |st.logs| + 1 && logs[..|st.logs|] == st.logs
  {
  }

  /** An entry is added exactly when a previous record was read, the put
      went through, the content changed, the graph has no entry yet (else
      the key clash rejects the add) and the (unawaited) add succeeded. */
  lemma LogAddedIff(st: Store, req: SaveRequest, now: int, faults: Faults)
    ensures var logs := Save(st, req, now, faults).0.logs;
      |logs| == |st.logs| + 1 <==>
        !faults.getFails && !faults.putFails && req.id in st.graphs &&
        Changed(st.graphs[req.id], req) && !faults.addFails && !Logged(st.logs, req.id)
  {
  }

  /** Every save keeps the log at one entry per graph. */
  lemma LogKeepsOnePerGraph(st: Store, req: SaveRequest, now: int, faults: Faults)
    requires OnePerGraph(st.logs)
    ensures OnePerGraph(Save(st, req, now, faults).0.logs)
  {
    var logs := Save(st, req, now, faults).0.logs;
    if |logs| == |st.logs| + 1 {
      assert !Logged(st.logs, req.id);
      assert logs[|st.logs|].graphId == req.id;
      forall i, j | 0 <= i < j < |logs| ensures logs[i].graphId != logs[j].graphId {
        if j == |st.logs| {
          assert logs[i] == st.logs[i];
        } else {
          assert logs[i] == st.logs[i] && logs[j] == st.logs[j];
        }
      }
    }
  }

  /** Once a graph has an archived version, no later save archives another
      one, however its content changes; the save still reports success when
      the get and put go through. */
  lemma LaterChangesNotArchived(st: Store, req: SaveRequest, now: int, faults: Faults)
    requires Logged(st.logs, req.id)
    ensures Save(st, req, now, faults).0.logs == st.logs
    ensures Save(st, req, now, faults).1 == SaveSuccess <==>
      !faults.getFails && !faults.putFails && req.id in st.graphs
  {
  }

  /** The added entry archives the previous record's content and time. */
  lemma AddedEntryArchivesPrevious(st: Store, req: SaveRequest, now: int, faults: Faults)
    requires |Save(st, req, now, faults).0.logs| == |st.logs| + 1
    ensures req.id in st.graphs
    ensures Save(st, req, now, faults).0.logs[|st.logs|] == Archive(req.id, st.graphs[req.id])
  {
  }

  /** The notification is "success" exactly when the get and the put
      succeeded and a previous record existed; the log add has no say. */
  lemma OutcomeIff(st: Store, req: SaveRequest, now: int, faults: Faults)
    ensures Save(st, req, now, faults).1 == SaveSuccess <==>
      !faults.getFails && !faults.putFails && req.id in st.graphs
    ensures Save(st, req, now, faults).1 == Save(st, req, now, faults.(addFails := !faults.addFails)).1
  {
  }

  /** Once the put went through, the record is exactly the new one (nothing
      of the previous record survives) and no other graph changed; before
      that, nothing changed at all. */
  lemma PutReplacesRecord(st: Store, req: SaveRequest, now: int, faults: Faults)
    ensures var r := Save(st, req, now, faults).0;
      if !faults.getFails && !faults.putFails
      then r.graphs == st.graphs[req.id := NewRecord(req, now)]
      else r == st
  {
  }

  /** A first save of a graph (no previous record) still stores it, but is
      reported as failed and logs nothing. */
  lemma FirstSaveStoresButFails(st: Store, req: SaveRequest, now: int, faults: Faults)
    requires req.id !in st.graphs && !faults.getFails && !faults.putFails
    ensures Save(st, req, now, faults).0 == Store(st.graphs[req.id := NewRecord(req, now)], st.logs)
    ensures Save(st, req, now, faults).1 == SaveFailed
  {
  }

  /** Only the content decides: two previous records with the same tables,
      links and name (whatever their box, time or other keys) lead to the
      same log. */
  lemma OnlyContentDecides(st: Store, other: Graph, req: SaveRequest, now: int, faults: Faults)
    requires req.id in st.graphs && ContentOf(other) == ContentOf(st.graphs[req.id])
    requires other.updatedAt == st.graphs[req.id].updatedAt
    ensures Save(st, req, now, faults).0.logs ==
      Save(st.(graphs := st.graphs[req.id := other]), req, now, faults).0.logs
  {
  }

  /** Saving the same content twice: the second save archives nothing, and
      reading the record back gives what was saved. */
  lemma ResaveIsNotLogged(st: Store, req: SaveRequest, t1: int, t2: int, box2: Json, faults: Faults)
    requires !faults.getFails && !faults.putFails
    ensures var s1 := Save(st, req, t1, faults).0;
      var s2 := Save(s1, req.(box := box2), t2, faults);
      s2.0.logs == s1.logs && s2.1 == SaveSuccess &&
      ContentOf(s2.0.graphs[req.id]) == Requested(req) && s2.0.graphs[req.id].box == box2
  {
    var s1 := Save(st, req, t1, faults).0;
    assert s1.graphs[req.id] == NewRecord(req, t1);
  }

  /** The two collections `saveGraph` works on. */
  class GraphDb {
    var graphs: map<string, Graph>
    var logs: seq<LogEntry>

    /** The log's primary key is never duplicated. */
    ghost predicate Valid()
      reads this
    {
      OnePerGraph(logs)
    }

    constructor (graphs: map<string, Graph>, logs: seq<LogEntry>)
      requires OnePerGraph(logs)
      ensures Valid() && this.graphs == graphs && this.logs == logs
    {
      this.graphs := graphs;
      this.logs := logs;
    }

    /** `saveGraph`, with the clock reading `now` and the storage faults as
        parameters. */
    method SaveGraph(req: SaveRequest, now: int, faults: Faults) returns (outcome: Outcome)
      requires Valid()
      modifies this
      ensures Valid()
      ensures (Store(graphs, logs), outcome) == Save(Store(old(graphs), old(logs)), req, now, faults)
      ensures old(logs) <= logs
    {
      ghost var st := Store(graphs, logs);
      LogKeepsOnePerGraph(st, req, now, faults);
      if faults.getFails {
        return SaveFailed;
      }
      var data := if req.id in graphs then Some(graphs[req.id]) else None;
      if faults.putFails {
        return SaveFailed;
      }
      graphs := graphs[req.id := NewRecord(req, now)];
      if data.None? {
        // reading `data.tableDict` throws
        return SaveFailed;
      }
      var logJson := ContentOf(data.value);
      if Requested(req) != logJson {
        // `logs.add` is not awaited: a rejection (storage fault, or an
        // entry for this graph already under the key) only loses the entry
        if !faults.addFails && !Logged(logs, req.id) {
          logs := logs + [Archive(req.id, data.value)];
        }
      }
      outcome := SaveSuccess;
    }
  }
}

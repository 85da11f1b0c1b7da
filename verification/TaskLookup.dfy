/** Looking a task up in a view, said of the log the view was built from. */
module TaskLookup {
  import opened Results
  import opened Entries
  import opened Tasks
  import Admission
  import BrowsableRows
  import Ledger
  import ReverseIndex
  import Store
  import TaskSafety
  import Views

  /** The node is a genuine task post, and `h` is its entry with its id. */
  ghost predicate Wrote(derive: string -> string, n: Node, h: TaskEntry) {
    && Admission.Genuine(derive, n) && n.value.entry.body.Post? && n.value.entry.body.content.TaskContent?
    && Admission.HasId(n, h.id)
    && h.timestamp == n.value.entry.timestamp && h.agentId == n.value.entry.agentId
    && h.refs == n.value.entry.refs && h.payload == n.value.entry.body.content.task
  }

  lemma StoredMeansWrote(derive: string -> string, n: Node, p: Stored)
    ensures BrowsableRows.IsPost(derive, n) && BrowsableRows.StoredOf(derive, n) == p && IsTask(p) ==>
              Wrote(derive, n, AsTask(p))
  {
    hide Ledger.NodeId;
    Admission.PostMeansGenuine(derive, n);
    if n.writerKey.Some? { Admission.NodeHasId(n); }
  }

  lemma WroteMeansStored(derive: string -> string, n: Node, h: TaskEntry) returns (p: Stored)
    requires Wrote(derive, n, h)
    ensures IsTask(p) && AsTask(p) == h
    ensures BrowsableRows.IsPost(derive, n) && BrowsableRows.StoredOf(derive, n) == p
  {
    hide Ledger.NodeId;
    Admission.PostMeansGenuine(derive, n);
    Admission.NodeHasId(n);
    p := Stored(h.id, n.value.entry);
  }

  /** The history a lookup reduces. */
  ghost function History(derive: string -> string, nodes: seq<Node>, rows: Store.Rows, taskId: string): seq<TaskEntry>
    requires ReverseIndex.Reached(derive, nodes, rows)
  {
    TaskSafety.HistoriesAreTasks(derive, nodes, rows, taskId);
    AsTasks(Views.RefsIn(rows, Task, taskId))
  }

  /** It holds exactly the entries of genuine task posts of the log that have the id, or refer to it. */
  lemma {:induction false} HistoryExactlyWhen(derive: string -> string, nodes: seq<Node>, rows: Store.Rows,
                                              taskId: string, h: TaskEntry)
    requires ReverseIndex.Reached(derive, nodes, rows)
    ensures h in History(derive, nodes, rows, taskId) <==>
              (exists n :: n in nodes && Wrote(derive, n, h)) && (h.id == taskId || taskId in h.refs)
  {
    hide Wrote, ReverseIndex.Reached, BrowsableRows.IsPost, BrowsableRows.StoredOf, Views.RefsIn;
    TaskSafety.HistoriesAreTasks(derive, nodes, rows, taskId);
    var found := Views.RefsIn(rows, Task, taskId);
    var history := AsTasks(found);
    if h in history {
      var i :| 0 <= i < |history| && history[i] == h;
      var p := found[i];
      assert p in found && AsTask(p) == h;
      ReverseIndex.FoundRefs(derive, nodes, rows, Task, taskId, p);
      var n :| n in nodes && BrowsableRows.IsPost(derive, n) && BrowsableRows.StoredOf(derive, n) == p;
      StoredMeansWrote(derive, n, p);
    }
    if (exists n :: n in nodes && Wrote(derive, n, h)) && (h.id == taskId || taskId in h.refs) {
      var n :| n in nodes && Wrote(derive, n, h);
      var p := WroteMeansStored(derive, n, h);
      ReverseIndex.FoundRefs(derive, nodes, rows, Task, taskId, p);
      var i :| 0 <= i < |found| && found[i] == p;
      assert history[i] == h;
    }
  }

  /** Two entries of a log with one id are one entry. */
  lemma {:induction false} OneEntryPerId(derive: string -> string, nodes: seq<Node>, m: Node, n: Node, g: TaskEntry,
                                         h: TaskEntry)
    requires BrowsableRows.DistinctPositions(nodes) && m in nodes && n in nodes
    requires Wrote(derive, m, g) && Wrote(derive, n, h) && g.id == h.id
    ensures g == h
  {
    hide Wrote, BrowsableRows.DistinctPositions, BrowsableRows.IsPost, BrowsableRows.StoredOf;
    var p := WroteMeansStored(derive, m, g);
    var q := WroteMeansStored(derive, n, h);
    assert p in BrowsableRows.PostsOf(derive, nodes) && q in BrowsableRows.PostsOf(derive, nodes);
    BrowsableRows.IdNamesPost(derive, nodes, p, q);
  }

  lemma CreateIsInside(entries: seq<TaskEntry>, k: int)
    requires TaskSafety.IsCreate(entries, k)
    ensures 0 <= k < |entries| && entries[k].refs == [] && entries[k] in entries
  {
  }

  /** A lookup reports a task exactly if the log has a genuine task post with that id that refers
      to nothing; and what it reports is that task, under its id, its title, its description, its
      assignee and its time. */
  lemma {:induction false} LookupExactlyWhen(c: Clock, derive: string -> string, nodes: seq<Node>, rows: Store.Rows,
                                             taskId: string, now: int)
    requires ReverseIndex.Reached(derive, nodes, rows)
    ensures var r := Reported(c, History(derive, nodes, rows, taskId), now);
      && (r.Some? <==> exists n, h :: n in nodes && Wrote(derive, n, h) && h.id == taskId && h.refs == [])
      && (r.Some? ==> forall n, h | n in nodes && Wrote(derive, n, h) && h.id == taskId ::
            && r.value.id == taskId && r.value.timestamp == h.timestamp
            && r.value.title == h.payload.title && r.value.description == h.payload.description
            && r.value.assignedTo == h.payload.assignedTo)
  {
    hide Wrote, Reported, History, TaskSafety.IsCreate;
    var entries := History(derive, nodes, rows, taskId);
    TaskSafety.CreateEntryIsReported(c, entries, now);
    forall h ensures h in entries <==>
        (exists n :: n in nodes && Wrote(derive, n, h)) && (h.id == taskId || taskId in h.refs) {
      HistoryExactlyWhen(derive, nodes, rows, taskId, h);
    }
    if Reported(c, entries, now).Some? {
      var k :| TaskSafety.IsCreate(entries, k);
      CreateIsInside(entries, k);
      var g := entries[k];
      var m :| m in nodes && Wrote(derive, m, g);
      forall n, h | n in nodes && Wrote(derive, n, h) && h.id == taskId ensures h == g {
        OneEntryPerId(derive, nodes, m, n, g, h);
      }
    }
    if n, h :| n in nodes && Wrote(derive, n, h) && h.id == taskId && h.refs == [] { assert h in entries; }
  }
}

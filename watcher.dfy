/**
  DirWatcher's poll tick as the source runs it: two snapshot sets updated in
  place, a forward loop over the walk of the source tree, a reconciliation
  loop over the source set that collects vanished entries in a garbage list,
  and a deferred erase of that list. Each loop is proved against the
  functions of module Snapshot.

  The walk (recursive_directory_iterator) and the existence checks
  (fs::exists) are inputs: the walk as a sequence of entries, and the set of
  paths that exist when the reconciliation pass runs.
 */
module Watcher {
  import opened CallbackBase
  import opened Callback
  import opened Snapshot

  class DirWatcher {
    var sourceContent: map<Path, Entry>
    var replicaContent: map<Path, Entry>
    var garbage: seq<Path>
    /** The replica root handed to every report_action call. */
    const replica: Path

    function Snap(): Snapshots
      reads this`sourceContent, this`replicaContent
    {
      Snapshots(sourceContent, replicaContent)
    }

    /** Between ticks: every source path is in replica_content and the garbage list is empty. */
    ghost predicate Valid()
      reads this
    {
      Included(Snap()) && garbage == []
    }

    constructor (replica: Path)
      ensures Valid() && Snap() == Empty && this.replica == replica
    {
      sourceContent := map[];
      replicaContent := map[];
      garbage := [];
      this.replica := replica;
    }

    /**
      The forward pass: a path missing from source_content is emplaced into
      both sets and reported created; a known path whose live timestamp is
      newer is reported modified and left as stored.
     */
    method ForwardPass(walk: seq<DirEntry>) returns (events: seq<Event>)
      modifies this`sourceContent, this`replicaContent
      ensures Forward(old(Snap()), walk) == Pass(Snap(), events)
    {
      events := [];
      ghost var start := Snap();
      for i := 0 to |walk|
        invariant Forward(start, walk[..i]) == Pass(Snap(), events)
      {
        var entry := walk[i];
        ghost var prev := Snap();
        ghost var reported := events;
        if entry.path !in sourceContent {
          sourceContent := sourceContent[entry.path := Entry(entry.kind, entry.mtime)];
          if entry.path !in replicaContent {
            replicaContent := replicaContent[entry.path := Entry(entry.kind, entry.mtime)];
          }
          if entry.kind == Regular {
            events := events + [Event(Create, Regular, entry.path)];
          } else if entry.kind == Directory {
            events := events + [Event(Create, Directory, entry.path)];
          }
        } else if entry.mtime > sourceContent[entry.path].mtime {
          if entry.kind == Regular {
            events := events + [Event(Modify, Regular, entry.path)];
          } else if entry.kind == Directory {
            events := events + [Event(Modify, Directory, entry.path)];
          }
        }
        assert Snap() == Insert(prev, entry);
        assert events == reported + Classify(prev.source, entry);
        assert walk[..i + 1][..i] == walk[..i];
      }
      assert walk[..|walk|] == walk;
    }

    /**
      The reconciliation pass: every source entry that is in replica_content
      and no longer exists is reported deleted with its stored kind (files and
      directories only) and appended to the garbage list. The sets are not
      touched while they are iterated. The order in which std::set visits its
      entries is left open.
     */
    method Reconcile(present: set<Path>) returns (events: seq<Event>)
      modifies this`garbage
      ensures forall p :: p in garbage <==> p in old(garbage) || p in Gone(Snap(), present)
      ensures forall e :: e in events <==> e in DeleteEvents(Snap(), present)
      ensures forall a, b | 0 <= a < b < |events| :: events[a].path != events[b].path
    {
      events := [];
      ghost var s := Snap();
      ghost var before := garbage;
      var source, known := sourceContent, replicaContent;
      var todo := source.Keys;
      while todo != {}
        invariant todo <= s.source.Keys
        invariant forall q :: q in garbage <==> q in before || (q !in todo && Collects(s, present, q))
        invariant DeletesReported(s, present, todo, events)
        decreases |todo|
      {
        var p :| p in todo;
        var entry := source[p];
        DeletesReportedStep(s, present, todo, events, p);
        if p in known && p !in present {
          if entry.kind == Regular {
            events := events + [Event(Delete, Regular, p)];
          } else if entry.kind == Directory {
            events := events + [Event(Delete, Directory, p)];
          }
          garbage := garbage + [p];
        }
        todo := todo - {p};
      }
      DeletesReportedDone(s, present, events);
    }

    /** The deferred erase: every collected path leaves source_content, then the list is cleared. */
    method EraseGarbage()
      modifies this`sourceContent, this`garbage
      ensures sourceContent == old(sourceContent) - (set p | p in old(garbage))
      ensures garbage == []
    {
      var collected := garbage;
      for j := 0 to |collected|
        invariant sourceContent == old(sourceContent) - (set p | p in collected[..j])
      {
        assert forall x :: x in collected[..j + 1] <==> x in collected[..j] || x == collected[j];
        sourceContent := sourceContent - {collected[j]};
      }
      assert collected[..|collected|] == collected;
      garbage := [];
    }

    /**
      The second half of a tick: the reconciliation pass and then the erase.
      Vanished paths leave source_content; replica_content is untouched.
     */
    method Sweep(present: set<Path>) returns (deletions: seq<Event>)
      requires garbage == []
      modifies this`sourceContent, this`garbage
      ensures garbage == []
      ensures sourceContent == old(sourceContent) - Gone(old(Snap()), present)
      ensures forall e :: e in deletions <==> e in DeleteEvents(old(Snap()), present)
      ensures forall a, b | 0 <= a < b < |deletions| :: deletions[a].path != deletions[b].path
    {
      deletions := Reconcile(present);
      assert (set p | p in garbage) == Gone(old(Snap()), present);
      EraseGarbage();
    }

    /**
      One tick of run_internal after its sleep: the forward pass, the
      reconciliation pass and the erase. The events are the forward pass's,
      in walk order, followed by one DELETE per vanished file or directory;
      the effects are the report_action calls for them, in the same order.
     */
    method Tick(walk: seq<DirEntry>, present: set<Path>) returns (events: seq<Event>, effects: seq<Effect>)
      requires Valid()
      modifies this
      ensures Valid()
      ensures Snap() == AfterTick(old(Snap()), walk, present)
      ensures var f := Forward(old(Snap()), walk);
        && |f.events| <= |events| && events[..|f.events|] == f.events
        && (forall e :: e in events[|f.events|..] <==> e in DeleteEvents(f.snap, present))
        && (forall a, b | |f.events| <= a < b < |events| :: events[a].path != events[b].path)
      ensures forall a, b | 0 <= a < b < |events| :: events[a].action == Delete ==> events[b].action == Delete
      ensures effects == Replicate(events, replica)
    {
      ghost var s := Snap();
      var forward := ForwardPass(walk);
      var deletions := Sweep(present);
      TickInvariant(s, walk, present);
      events := forward + deletions;
      assert events[..|forward|] == forward && events[|forward|..] == deletions;
      forall a, b | 0 <= a < b < |events| && events[a].action == Delete
        ensures events[b].action == Delete
      {
        assert events[a] !in forward;
        assert events[b] in deletions;
      }
      effects := Replicate(events, replica);
    }
  }
}

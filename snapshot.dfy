/**
  The diff engine of DirWatcher::run_internal as functions on values: one
  poll tick compares the walk of the source tree with the two snapshot sets
  and yields the change events and the snapshots that follow. The class in
  module Watcher runs the same tick with loops and is proved against these
  functions.

  A std::set of directory_entry is ordered and compared by path only, so a
  snapshot is a map from path to the kind and the modification time the entry
  had when it was inserted.
 */
module Snapshot {
  import opened CallbackBase
  import opened SeqUtil

  /** A stored directory_entry: its kind and its timestamp at insertion. */
  datatype Entry = Entry(kind: FileKind, mtime: int)

  /** A directory_entry as the recursive walk yields it. */
  datatype DirEntry = DirEntry(path: Path, kind: FileKind, mtime: int)

  /** source_content and replica_content. */
  datatype Snapshots = Snapshots(source: map<Path, Entry>, replica: map<Path, Entry>)

  /** The snapshots after a pass and the events it reported, in order. */
  datatype Pass = Pass(snap: Snapshots, events: seq<Event>)

  const Empty: Snapshots := Snapshots(map[], map[])

  function Stored(w: DirEntry): Entry {
    Entry(w.kind, w.mtime)
  }

  /** The kinds the watcher reports: is_regular_file or is_directory. */
  predicate Reported(k: FileKind) {
    k == Regular || k == Directory
  }

  function Paths(walk: seq<DirEntry>): set<Path> {
    set w | w in walk :: w.path
  }

  /** A recursive directory walk visits each path once. */
  predicate DistinctPaths(walk: seq<DirEntry>) {
    forall i, j | 0 <= i < j < |walk| :: walk[i].path != walk[j].path
  }

  /** Every path of source_content is also in replica_content. */
  predicate Included(s: Snapshots) {
    s.source.Keys <= s.replica.Keys
  }

  /**
    The forward pass's verdict on one walked entry: CREATE for a path the
    source snapshot lacks, MODIFY for a known path whose live timestamp is
    strictly newer than the stored one, tagged with the live kind; nothing
    otherwise, and nothing for a kind that is neither file nor directory.
   */
  function Classify(source: map<Path, Entry>, w: DirEntry): (r: seq<Event>)
    ensures |r| <= 1
    ensures r != [] <==> Reported(w.kind) && (w.path !in source || w.mtime > source[w.path].mtime)
    ensures forall e | e in r ::
      e.path == w.path && e.file == w.kind && e.action == (if w.path in source then Modify else Create)
  {
    if w.path !in source then
      if Reported(w.kind) then [Event(Create, w.kind, w.path)] else []
    else if w.mtime > source[w.path].mtime then
      if Reported(w.kind) then [Event(Modify, w.kind, w.path)] else []
    else
      []
  }

  /**
    The snapshot update for one walked entry: emplace into both sets when the
    path is new to source_content. emplace never replaces, so a path that is
    still in replica_content keeps its old entry there, and a known path is
    left exactly as stored.
   */
  function Insert(s: Snapshots, w: DirEntry): (r: Snapshots)
    ensures r.source.Keys == s.source.Keys + {w.path}
    ensures s.replica.Keys <= r.replica.Keys <= s.replica.Keys + {w.path}
    ensures Included(s) ==> Included(r)
    ensures forall p | p in s.source :: r.source[p] == s.source[p]
    ensures forall p | p in s.replica :: r.replica[p] == s.replica[p]
    ensures w.path !in s.source ==> r.source[w.path] == Stored(w) && w.path in r.replica
  {
    if w.path in s.source then s
    else
      Snapshots(
        s.source[w.path := Stored(w)],
        if w.path in s.replica then s.replica else s.replica[w.path := Stored(w)])
  }

  /** The forward pass over the walk, entry by entry. */
  function Forward(s: Snapshots, walk: seq<DirEntry>): (r: Pass)
    ensures r.snap.source.Keys == s.source.Keys + Paths(walk)
    ensures s.replica.Keys <= r.snap.replica.Keys <= s.replica.Keys + Paths(walk)
    ensures Included(s) ==> Included(r.snap)
    ensures forall p | p in s.source :: r.snap.source[p] == s.source[p]
    ensures forall p | p in s.replica :: r.snap.replica[p] == s.replica[p]
    ensures forall e | e in r.events :: (e.action == Create || e.action == Modify) && Reported(e.file)
    decreases |walk|
  {
    if walk == [] then Pass(s, [])
    else
      var init := walk[..|walk| - 1];
      var w := walk[|walk| - 1];
      assert walk == init + [w];
      assert Paths(walk) == Paths(init) + {w.path};
      var prev := Forward(s, init);
      Pass(Insert(prev.snap, w), prev.events + Classify(prev.snap.source, w))
  }

  /** The reference definition: each walked entry judged against the snapshot before the tick. */
  function ClassifyAll(source: map<Path, Entry>, walk: seq<DirEntry>): seq<Event> {
    Flatten((w: DirEntry) => Classify(source, w), walk)
  }

  /**
    With distinct paths, the forward pass judges every entry against the
    snapshot as it was before the tick, and a new path is stored with the
    kind and timestamp the walk gave it.
   */
  lemma {:induction false} ForwardIsPointwise(s: Snapshots, walk: seq<DirEntry>)
    requires DistinctPaths(walk)
    ensures Forward(s, walk).events == ClassifyAll(s.source, walk)
    ensures forall i | 0 <= i < |walk| && walk[i].path !in s.source ::
      Forward(s, walk).snap.source[walk[i].path] == Stored(walk[i])
  {
    if walk != [] {
      var init := walk[..|walk| - 1];
      var w := walk[|walk| - 1];
      assert walk == init + [w];
      assert DistinctPaths(init);
      ForwardIsPointwise(s, init);
      var prev := Forward(s, init);
      assert forall x | x in init :: x.path != w.path;
      assert w.path !in Paths(init);
      assert Classify(prev.snap.source, w) == Classify(s.source, w);
      assert ClassifyAll(s.source, walk) == ClassifyAll(s.source, init) + Classify(s.source, w);
      forall i | 0 <= i < |walk| && walk[i].path !in s.source
        ensures Forward(s, walk).snap.source[walk[i].path] == Stored(walk[i])
      {
        if i < |init| {
          assert walk[i] == init[i];
        }
      }
    }
  }

  /** An event of the reference definition belongs to the one walked entry with its path. */
  lemma ClassifyAllOrigin(source: map<Path, Entry>, walk: seq<DirEntry>, e: Event, i: nat)
    requires DistinctPaths(walk) && i < |walk|
    requires e in ClassifyAll(source, walk) && e.path == walk[i].path
    ensures e in Classify(source, walk[i])
  {
    FlattenFrom((w: DirEntry) => Classify(source, w), walk, e);
    var j :| 0 <= j < |walk| && e in Classify(source, walk[j]);
    assert walk[j].path == e.path;
  }

  /** The reference definition reports each path at most once. */
  lemma {:induction false} ClassifyAllDistinct(source: map<Path, Entry>, walk: seq<DirEntry>)
    requires DistinctPaths(walk)
    ensures forall a, b | 0 <= a < b < |ClassifyAll(source, walk)| ::
      ClassifyAll(source, walk)[a].path != ClassifyAll(source, walk)[b].path
  {
    if walk != [] {
      var init := walk[..|walk| - 1];
      var w := walk[|walk| - 1];
      assert DistinctPaths(init);
      ClassifyAllDistinct(source, init);
      var prefix := ClassifyAll(source, init);
      var last := Classify(source, w);
      var all := ClassifyAll(source, walk);
      assert all == prefix + last;
      forall a, b | 0 <= a < b < |all| ensures all[a].path != all[b].path {
        if b >= |prefix| {
          FlattenFrom((x: DirEntry) => Classify(source, x), init, prefix[a]);
          var j :| 0 <= j < |init| && prefix[a] in Classify(source, init[j]);
          assert init[j] == walk[j];
          assert last[b - |prefix|] == all[b];
        }
      }
    }
  }

  /**
    What the forward pass reports for walked entry i (paths distinct): a
    CREATE exactly when its path is new and its kind is reported, a MODIFY
    exactly when its path is known and its live timestamp is strictly newer,
    and no event at all for any other kind; no path is reported twice.
   */
  lemma ForwardReports(s: Snapshots, walk: seq<DirEntry>, i: nat)
    requires DistinctPaths(walk) && i < |walk|
    ensures Event(Create, walk[i].kind, walk[i].path) in Forward(s, walk).events
      <==> walk[i].path !in s.source && Reported(walk[i].kind)
    ensures Event(Modify, walk[i].kind, walk[i].path) in Forward(s, walk).events
      <==> walk[i].path in s.source && walk[i].mtime > s.source[walk[i].path].mtime && Reported(walk[i].kind)
    ensures !Reported(walk[i].kind) ==>
      forall e | e in Forward(s, walk).events :: e.path != walk[i].path
    ensures forall a, b | 0 <= a < b < |Forward(s, walk).events| ::
      Forward(s, walk).events[a].path != Forward(s, walk).events[b].path
  {
    ForwardIsPointwise(s, walk);
    ClassifyAllDistinct(s.source, walk);
    var w := walk[i];
    var f := (x: DirEntry) => Classify(s.source, x);
    var evs := Forward(s, walk).events;
    forall e | e in evs && e.path == w.path ensures e in Classify(s.source, w) {
      ClassifyAllOrigin(s.source, walk, e, i);
    }
    if Classify(s.source, w) != [] {
      FlattenHas(f, walk, i, Classify(s.source, w)[0]);
    }
  }

  /**
    A cold start (both sets empty) reports a CREATE for every file and
    directory of the walk and nothing else.
   */
  lemma ColdStart(walk: seq<DirEntry>)
    requires DistinctPaths(walk)
    ensures forall e | e in Forward(Empty, walk).events :: e.action == Create
    ensures forall i | 0 <= i < |walk| ::
      Event(Create, walk[i].kind, walk[i].path) in Forward(Empty, walk).events <==> Reported(walk[i].kind)
  {
    forall i | 0 <= i < |walk|
      ensures Event(Create, walk[i].kind, walk[i].path) in Forward(Empty, walk).events <==> Reported(walk[i].kind)
    {
      ForwardReports(Empty, walk, i);
    }
    ForwardIsPointwise(Empty, walk);
    forall e | e in Forward(Empty, walk).events ensures e.action == Create {
      FlattenFrom((x: DirEntry) => Classify(Empty.source, x), walk, e);
    }
  }

  /**
    The reconciliation pass's test for one snapshot path: it is in
    replica_content and no longer exists on disk.
   */
  predicate Collects(s: Snapshots, present: set<Path>, p: Path) {
    p in s.source && p in s.replica && p !in present
  }

  /** The paths the reconciliation pass collects for the deferred erase. */
  function Gone(s: Snapshots, present: set<Path>): (g: set<Path>)
    ensures g <= s.source.Keys
    ensures g !! present
  {
    set p | p in s.source && Collects(s, present, p)
  }

  /** The DELETE event for a snapshot path, tagged with the stored kind. */
  function DeleteEvent(s: Snapshots, p: Path): Event
    requires p in s.source
  {
    Event(Delete, s.source[p].kind, p)
  }

  /** The DELETE events of the reconciliation pass: the collected files and directories. */
  function DeleteEvents(s: Snapshots, present: set<Path>): (r: set<Event>)
    ensures forall e | e in r ::
      e.action == Delete && e.path in Gone(s, present) && e.file == s.source[e.path].kind && Reported(e.file)
    ensures forall p | p in Gone(s, present) && Reported(s.source[p].kind) ::
      Event(Delete, s.source[p].kind, p) in r
  {
    set p | p in Gone(s, present) && Reported(s.source[p].kind) :: DeleteEvent(s, p)
  }

  /** The DELETE event the reconciliation pass reports for snapshot path p, if any. */
  function DeleteStep(s: Snapshots, present: set<Path>, p: Path): seq<Event>
    requires p in s.source
  {
    if Collects(s, present, p) && Reported(s.source[p].kind) then [DeleteEvent(s, p)] else []
  }

  /**
    While the snapshot paths in todo are still to be visited, the events
    reported so far are the DELETE events of the visited paths, once each.
   */
  ghost predicate DeletesReported(s: Snapshots, present: set<Path>, todo: set<Path>, events: seq<Event>) {
    && (forall e | e in events :: e.path in s.source && e.path !in todo && e in DeleteStep(s, present, e.path))
    && (forall p | p in s.source && p !in todo && DeleteStep(s, present, p) != [] :: DeleteEvent(s, p) in events)
    && (forall a, b | 0 <= a < b < |events| :: events[a].path != events[b].path)
  }

  /** Visiting one more snapshot path adds its DELETE event, if it has one, and keeps DeletesReported. */
  lemma DeletesReportedStep(s: Snapshots, present: set<Path>, todo: set<Path>, events: seq<Event>, p: Path)
    requires DeletesReported(s, present, todo, events)
    requires p in todo && p in s.source
    ensures DeletesReported(s, present, todo - {p}, events + DeleteStep(s, present, p))
  {
  }

  /** A finished reconciliation pass has reported exactly the DELETE events. */
  lemma DeletesReportedDone(s: Snapshots, present: set<Path>, events: seq<Event>)
    requires DeletesReported(s, present, {}, events)
    ensures forall e :: e in events <==> e in DeleteEvents(s, present)
  {
  }

  /**
    While every snapshot path is in replica_content, the replica_content
    guard of the reconciliation pass always holds: it collects exactly the
    snapshot paths that no longer exist and deletes each file or directory
    among them, with its stored kind.
   */
  lemma DeleteEventsExact(s: Snapshots, present: set<Path>)
    requires Included(s)
    ensures Gone(s, present) == s.source.Keys - present
    ensures forall e: Event :: e in DeleteEvents(s, present) <==>
      && e.action == Delete
      && e.path in s.source && e.path !in present
      && e.file == s.source[e.path].kind && Reported(e.file)
  {
  }

  /** Both snapshots at the end of a tick: the forward pass, then the deferred erase. */
  function AfterTick(s: Snapshots, walk: seq<DirEntry>, present: set<Path>): (r: Snapshots)
    ensures r.source.Keys <= s.source.Keys + Paths(walk)
    ensures s.replica.Keys <= r.replica.Keys <= s.replica.Keys + Paths(walk)
    ensures forall p | p in r.source :: p in present || p !in r.replica
  {
    var f := Forward(s, walk).snap;
    Snapshots(f.source - Gone(f, present), f.replica)
  }

  /**
    A tick keeps every source path in replica_content; replica_content never
    shrinks and never changes a stored entry; the source snapshot ends up
    holding the known and walked paths that still exist, with every entry it
    already had unchanged.
   */
  lemma TickInvariant(s: Snapshots, walk: seq<DirEntry>, present: set<Path>)
    requires Included(s)
    ensures Included(AfterTick(s, walk, present))
    ensures s.replica.Keys <= AfterTick(s, walk, present).replica.Keys
    ensures forall p | p in s.replica :: AfterTick(s, walk, present).replica[p] == s.replica[p]
    ensures AfterTick(s, walk, present).source.Keys == (s.source.Keys + Paths(walk)) * present
    ensures forall p | p in AfterTick(s, walk, present).source && p in s.source ::
      AfterTick(s, walk, present).source[p] == s.source[p]
  {
  }

  /**
    A tick is silent when every walked path is known with a stored timestamp
    at least as new and every known path still exists; the snapshots are then
    left as they were.
   */
  lemma {:induction false} QuietTick(s: Snapshots, walk: seq<DirEntry>, present: set<Path>)
    requires forall w | w in walk :: w.path in s.source && w.mtime <= s.source[w.path].mtime
    requires s.source.Keys <= present
    ensures Forward(s, walk) == Pass(s, [])
    ensures DeleteEvents(s, present) == {}
    ensures AfterTick(s, walk, present) == s
  {
    if walk != [] {
      var init := walk[..|walk| - 1];
      assert walk == init + [walk[|walk| - 1]];
      QuietTick(s, init, present);
    }
    assert Gone(s, present) == {};
    assert s.source - {} == s.source;
  }

  /**
    Two ticks over the same walk, all of whose paths exist and none of whose
    known entries got newer: the second tick reports nothing and changes
    nothing.
   */
  lemma SecondTickQuiet(s: Snapshots, walk: seq<DirEntry>, present: set<Path>)
    requires Included(s) && DistinctPaths(walk) && Paths(walk) <= present
    requires forall w | w in walk && w.path in s.source :: w.mtime <= s.source[w.path].mtime
    ensures var s1 := AfterTick(s, walk, present);
      && Forward(s1, walk) == Pass(s1, [])
      && DeleteEvents(s1, present) == {}
      && AfterTick(s1, walk, present) == s1
  {
    var f := Forward(s, walk).snap;
    var s1 := AfterTick(s, walk, present);
    ForwardIsPointwise(s, walk);
    TickInvariant(s, walk, present);
    DeleteEventsExact(f, present);
    forall w | w in walk ensures w.path in s1.source && w.mtime <= s1.source[w.path].mtime {
      var i :| 0 <= i < |walk| && walk[i] == w;
      assert w.path in Paths(walk);
    }
    QuietTick(s1, walk, present);
  }

  /**
    The stored entry is never refreshed: once a known entry's live timestamp
    exceeds the stored one, every later tick reports it modified again.
   */
  lemma ModifyRepeats(s: Snapshots, walk: seq<DirEntry>, present: set<Path>, i: nat)
    requires Included(s) && DistinctPaths(walk) && i < |walk|
    requires walk[i].path in s.source && walk[i].path in present && Reported(walk[i].kind)
    requires walk[i].mtime > s.source[walk[i].path].mtime
    ensures AfterTick(s, walk, present).source[walk[i].path] == s.source[walk[i].path]
    ensures Event(Modify, walk[i].kind, walk[i].path) in Forward(s, walk).events
    ensures Event(Modify, walk[i].kind, walk[i].path) in Forward(AfterTick(s, walk, present), walk).events
  {
    TickInvariant(s, walk, present);
    assert walk[i].path in Paths(walk);
    ForwardReports(s, walk, i);
    ForwardReports(AfterTick(s, walk, present), walk, i);
  }
}

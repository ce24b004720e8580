# DirSynchronizer in Dafny

DirSynchronizer polls a source directory tree and mirrors it into a replica
directory. A single background loop (`DirWatcher::run_internal`) sleeps, then
runs one tick. Each tick does three things:

- a forward pass over a recursive walk of the source tree, which detects
  creations and modifications;
- a reconciliation pass over the stored source snapshot, which detects
  deletions and collects them in a garbage list;
- a deferred erase of that list.

Every change is handed to a callback (`DirWatcherCallback::report_action`).
The callback logs one INFO record and performs one filesystem mutation on the
replica: a file copy, a recursive copy, a remove or a recursive remove.

The model has four modules:

- `CallbackBase` (callback_base.dfy): the `action_t`/`file_t` enumerations,
  the change event, and the label functions `get_action_str` and
  `get_file_str`. Their `runtime_error` throws are modelled as `Err` values.
  The module also holds the base class's `log`.
- `Callback` (callback.dfy): `get_filename` (including `rfind` returning -1
  when there is no `/`), the destination path, and `report_action`. The log
  record and the filesystem call are returned as a sequence of `Effect`
  values, in the order the source performs them. The module also holds the
  override of `log` with its severities.
- `Snapshot` (snapshot.dfy): one tick as functions on values, with lemmas
  about them. `std::set<fs::directory_entry>` orders and compares entries by
  path only, so each snapshot is a `map` from path to a kind and a timestamp.
  The stored timestamp is the one the entry carried when it was inserted: the
  model takes `directory_entry::last_write_time` to be the value cached in the
  entry (see "## Left out" for a library that re-reads it). `emplace` never
  replaces an existing element, and the model keeps that.
- `Watcher` (watcher.dfy): the class `DirWatcher`. Its fields are
  `source_content`, `replica_content`, the `garbage` list and the replica
  root. Its loops are the forward pass, the reconciliation pass and the erase.
  Each loop is proved against the functions of `Snapshot`. `Tick` runs one
  iteration of `run_internal` after the sleep. Its events are the arguments
  of the `report_action` calls it makes, in order, and its effects are what
  those calls do.

The recursive directory walk and `fs::exists` are inputs to `Tick`. The walk
is a sequence of `DirEntry` values (path, kind, live timestamp); `fs::exists`
is the set of paths that exist when the reconciliation pass runs.

### Behaviour worth knowing

- **Stored entries are never updated.** Nothing in main.cpp:143-197 writes a
  stored `directory_entry`: `emplace` (main.cpp:148-149) only inserts, and
  the only removal is the erase at main.cpp:195. With a timestamp cached at
  insertion, a known entry whose live timestamp has become newer is reported
  MODIFY at main.cpp:161-172 on that tick and on every later tick
  (`Snapshot.ModifyRepeats`).
- **Directories are logged after the mutation, files before it.** For a
  regular file `logf` precedes `copy_file`/`remove` (main.cpp:216-217,
  221-222); for a directory it follows `copy`/`remove_all`
  (main.cpp:228-230, 234-235).
- **Entries of other kinds are skipped silently.** An entry that is neither
  a regular file nor a directory gets no `report_action` call
  (main.cpp:150-159, 163-172, 180-189), and `log` (main.cpp:239-249) has no
  caller in the file. Such entries are still inserted into both sets
  (main.cpp:148-149).
- **MODIFY is logged as created.** MODIFY shares CREATE's branches at
  main.cpp:212-218 and 224-231, so it is logged "has been created in Replica"
  (`Callback.ModifyReplicatedAsCreate`).
- **The replica is flat.** The destination is the replica root, '/', and the
  basename (main.cpp:217, 222, 228, 234), so nested entries with the same
  name are written to the same replica path (`Callback.FlatteningCollides`).

## Model

| member | source | states |
|---|---|---|
| CallbackBase.ActionStr | DirSynchronizer/main.cpp:27-42 | fails with "Unexpected action has been detected" exactly for UNEXPECTED_ACTION; otherwise a non-empty verb |
| CallbackBase.FileStr | DirSynchronizer/main.cpp:44-57 | fails with "Action has been detected for unexpected file type" exactly for UNEXPECTED_FILE; otherwise a non-empty label |
| CallbackBase.LabelsDistinct | DirSynchronizer/main.cpp:27-57 | different actions get different verbs and different kinds get different labels |
| CallbackBase.BaseLog | DirSynchronizer/main.cpp:63-66 | succeeds exactly when both enumerators are expected; the file-kind failure takes precedence because the stream evaluates the kind label first |
| Callback.RFind | DirSynchronizer/main.cpp:206 | the index of the last occurrence of the character, or -1 when there is none; no later position holds it |
| Callback.GetFilename | DirSynchronizer/main.cpp:204-208 | the result is the longest '/'-free suffix of the input: it is a suffix, has no '/', and is preceded by '/' when shorter than the input |
| Callback.Destination | DirSynchronizer/main.cpp:217-234 | every destination is the replica root, a '/', and a component without '/' |
| Callback.BasenameOfJoin | DirSynchronizer/main.cpp:204-208 | the basename of dir + "/" + name is name whenever name has no '/' |
| Callback.DestinationKeepsBasename | DirSynchronizer/main.cpp:217-234 | the replica file has the basename of the source entry |
| Callback.FlatteningCollides | DirSynchronizer/main.cpp:217-234 | two source entries with the same basename in different directories are written to the same replica path |
| Callback.ReplicaMessage | DirSynchronizer/main.cpp:216-235 | the INFO message starts with the kind label and ends with " \| " and the full source path |
| Callback.ReportAction | DirSynchronizer/main.cpp:210-237 | unexpected pairs do nothing; otherwise one INFO log record (first for a file, last for a directory) and one mutation of the destination: a remove exactly for DELETE, a recursive operation exactly for a directory, and copies from the source path with overwrite |
| Callback.ReportActionMessage | DirSynchronizer/main.cpp:216-235 | the log record is "<kind> <basename> has been created in Replica \| <path>" or "... deleted from Replica ..." |
| Callback.ModifyReplicatedAsCreate | DirSynchronizer/main.cpp:212-218 | MODIFY produces the same effects as CREATE, including the "created" message |
| Callback.Replicate | DirSynchronizer/main.cpp:150-189 | one report_action call per event, in order: at most two effects per event, and exactly two per event when and only when every event is handled |
| Callback.ReplicateHandled | DirSynchronizer/main.cpp:150-189 | when every event is handled, the i-th event's two effects sit at positions 2i and 2i+1 of the tick's effects |
| Callback.LogLine | DirSynchronizer/main.cpp:239-249 | WARNING exactly when the action or the kind is unexpected, INFO exactly otherwise; never reaches a throwing label |
| Callback.LogLineAgreesWithBase | DirSynchronizer/main.cpp:63-66 | the override's INFO line is the base line without "The "; the base fails exactly where the override warns |
| Snapshot.Classify | DirSynchronizer/main.cpp:145-173 | at most one event: present exactly for a file or directory whose path is new or whose live timestamp is strictly newer; CREATE for a new path, MODIFY for a known one, with the walk's path and kind |
| Snapshot.Insert | DirSynchronizer/main.cpp:145-149 | a new path is stored in the source set, and in the replica set if absent there; existing entries of both sets never change |
| Snapshot.Forward | DirSynchronizer/main.cpp:143-174 | afterwards the source set holds the old paths plus the walked ones; the replica set grows only by walked paths; inclusion is kept; stored entries never change; only CREATE/MODIFY of files and directories are reported |
| Snapshot.ForwardIsPointwise | DirSynchronizer/main.cpp:143-174 | with distinct walked paths, the forward pass reports what judging each entry against the pre-tick snapshot reports, in walk order, and stores new paths with their walked kind and timestamp |
| Snapshot.ClassifyAllOrigin | DirSynchronizer/main.cpp:143-174 | an event of the forward pass comes from the walked entry with its path |
| Snapshot.ClassifyAllDistinct | DirSynchronizer/main.cpp:143-174 | with distinct walked paths, no path is reported twice in the forward pass |
| Snapshot.ForwardReports | DirSynchronizer/main.cpp:145-173 | CREATE exactly for new files and directories, MODIFY exactly for known ones with a strictly newer timestamp, nothing for other kinds, each path at most once |
| Snapshot.ColdStart | DirSynchronizer/main.cpp:143-159 | from empty sets every event is a CREATE, and each walked file or directory gets one |
| Snapshot.Gone | DirSynchronizer/main.cpp:176-191 | the collected paths are stored source paths that no longer exist |
| Snapshot.DeleteEvents | DirSynchronizer/main.cpp:176-191 | the reconciliation pass's events: each is a DELETE of a collected path, tagged with its stored kind, which is a file or directory; every collected file or directory has one |
| Snapshot.DeletesReportedStep | DirSynchronizer/main.cpp:176-191 | visiting one more stored path adds its DELETE, if any, and keeps the events exactly the DELETEs of the visited paths, each path once |
| Snapshot.DeletesReportedDone | DirSynchronizer/main.cpp:176-192 | after visiting every stored path, the events are exactly the DELETE events of the tick |
| Snapshot.DeleteEventsExact | DirSynchronizer/main.cpp:176-192 | while the source set is included in the replica set, the collected paths are exactly the stored paths that no longer exist, and the DELETEs are exactly those that are files or directories, tagged with the stored kind |
| Snapshot.AfterTick | DirSynchronizer/main.cpp:143-197 | both sets after a tick: the source set holds only known or walked paths; the replica set only grows, by walked paths; every path left in the source set exists or is absent from the replica set |
| Snapshot.TickInvariant | DirSynchronizer/main.cpp:143-197 | a tick keeps the source set included in the replica set; the replica set never shrinks or changes an entry; the source set ends as the old and walked paths that still exist, with old entries unchanged |
| Snapshot.QuietTick | DirSynchronizer/main.cpp:143-197 | when nothing is new, newer or gone, a tick reports nothing and changes nothing |
| Snapshot.SecondTickQuiet | DirSynchronizer/main.cpp:143-197 | a second tick over the same unchanged tree reports nothing and changes nothing |
| Snapshot.ModifyRepeats | DirSynchronizer/main.cpp:161-173 | stored timestamps are never refreshed: a modified entry keeps its stored value and is reported MODIFY again on the next tick |
| Watcher.DirWatcher.constructor | DirSynchronizer/main.cpp:88-98 | both sets and the garbage list start empty, with the given replica root |
| Watcher.DirWatcher.ForwardPass | DirSynchronizer/main.cpp:143-174 | the sets and the events after the loop are those of the forward-pass function |
| Watcher.DirWatcher.Reconcile | DirSynchronizer/main.cpp:176-192 | afterwards the garbage list holds exactly its old paths and the collected ones; reports exactly the DELETE events, each path once, without touching either set |
| Watcher.DirWatcher.EraseGarbage | DirSynchronizer/main.cpp:193-197 | every listed path leaves the source set; the list is cleared |
| Watcher.DirWatcher.Sweep | DirSynchronizer/main.cpp:176-197 | the source set loses exactly the collected paths; the DELETE events are reported once per path |
| Watcher.DirWatcher.Tick | DirSynchronizer/main.cpp:140-198 | keeps the class invariant; the new sets are those of the tick function; the events are the forward pass's, in walk order, followed by the DELETEs, so no DELETE precedes a CREATE or MODIFY; the effects are the callback's effects for each event in order |

## Left out

- The background thread, `stop_flag`, the sleep between ticks, `run`,
  `join`, `stop`, the destructor, the single-instance guard, the signal
  handler and `main` (main.cpp:100-134, 254-276). `Tick` is one loop
  iteration after the sleep.
- Filesystem primitives. The walk, `fs::exists`, `copy_file`, `copy`,
  `remove` and `remove_all` are an input sequence, an input set and returned
  `Effect` values. Filesystem errors are not modelled. In the source
  nothing in `run_internal` (main.cpp:138-199) catches an exception, and it runs as a `std::thread` (main.cpp:117). So an
  error thrown by the walk, `fs::exists`, `copy_file`, `copy`, `remove` or
  `remove_all` leaves the thread function, and `std::terminate` ends the
  process.
- The logger (Logger.h is not part of this model). Timestamps, source
  locations, sinks and the throw when no logger exists are left out. A record
  is a severity and a message.
- `default: return nullptr` in the label functions. Every enumerator is
  handled, so that branch cannot be reached.
- Watcher.DirWatcher.Reconcile: visits the stored paths in an unspecified
  order and states its events as a set with distinct paths. It does not
  state std::set's path order.
- Watcher.DirWatcher.Sweep: states its DELETE events as a set with distinct
  paths, for the same reason. It does not state std::set's path order.
- Watcher.DirWatcher.Tick: states its DELETE events as a set and does not
  state their path order, for the same reason.
- Snapshot.Classify / Snapshot.ModifyRepeats: the model compares the live
  timestamp with the one cached in the stored entry when it was inserted, as
  a library whose `directory_entry` caches `last_write_time` does. A library
  whose `directory_entry::last_write_time` re-reads the file (libstdc++)
  compares two fresh reads of the same path at main.cpp:161. There MODIFY
  fires only when the file changes between the two reads, and
  `Snapshot.ModifyRepeats` does not describe it.
- CallbackBase.BaseLog: returns only the error for an unexpected enumerator.
  It does not model the text already written to `std::cout` when the label
  throws. C++17 evaluates `<<` left to right, so "The " is written before
  `get_file_str` throws, and "The <kind> <name> has been " before
  `get_action_str` throws (main.cpp:65).
- Callback.RFind: returns the index as an unbounded integer. It does not
  model the truncation of `size_t` to `int` for strings longer than
  2^31 - 1 characters.
- The kind of a DELETE is the kind stored with the entry when it was first
  walked. Re-querying the status of a vanished path is not modelled.
- Timestamps are integers. Clock resolution and filesystem clock types are
  not modelled.

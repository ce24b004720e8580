/**
  DirWatcherCallback: how one change event becomes a log record and one
  mutation of the replica tree. The filesystem calls (copy_file, copy,
  remove, remove_all) and the logger's output are returned as data, in the
  order the source performs them.
 */
module Callback {
  import opened CallbackBase
  import opened SeqUtil

  /** Logger::severity_t */
  datatype Severity = Info | Warning | Error | Fatal | Debug

  /** One call to Logger::logf, without the source location. */
  datatype Record = Record(severity: Severity, message: string)

  /** What report_action does, as data. Copies carry their overwrite option. */
  datatype Effect =
    | Log(rec: Record)
    | CopyFile(src: Path, dst: Path, overwrite: bool)
    | CopyTree(src: Path, dst: Path, overwrite: bool)
    | Remove(dst: Path)
    | RemoveAll(dst: Path)
  {
    /** Every effect other than a log record changes the replica tree. */
    predicate IsMutation() {
      !Log?
    }
  }

  /**
    std::string::rfind stored into an int: the index of the last occurrence
    of c, or -1 when there is none (npos converted to int).
   */
  function RFind(s: string, c: char): (r: int)
    ensures -1 <= r < |s|
    ensures 0 <= r ==> s[r] == c
    ensures forall j | r < j < |s| :: s[j] != c
  {
    if s == [] then -1
    else if s[|s| - 1] == c then |s| - 1
    else RFind(s[..|s| - 1], c)
  }

  /**
    get_filename: the part of s after its last '/', or all of s when it has
    no '/'. The result is the longest suffix of s without a '/'.
   */
  function GetFilename(s: string): (r: string)
    ensures '/' !in r
    ensures |r| <= |s| && s[|s| - |r|..] == r
    ensures |r| < |s| ==> s[|s| - |r| - 1] == '/'
    ensures '/' !in s ==> r == s
  {
    s[RFind(s, '/') + 1..]
  }

  /** The replica path report_action writes to: the root, '/', the basename. */
  function Destination(root: Path, path: Path): (r: Path)
    ensures |r| > |root| && r[..|root| + 1] == root + "/"
    ensures '/' !in r[|root| + 1..]
  {
    root + "/" + GetFilename(path)
  }

  /** The basename of "dir/name" is name, whatever dir is. */
  lemma BasenameOfJoin(dir: Path, name: string)
    requires '/' !in name
    ensures GetFilename(dir + "/" + name) == name
  {
    var s := dir + "/" + name;
    assert s[|dir|] == '/';
    assert forall j | |dir| < j < |s| :: s[j] == name[j - |dir| - 1];
    assert RFind(s, '/') == |dir|;
    assert s[|dir| + 1..] == name;
  }

  /**
    Destinations keep the basename: the file written in the replica has the
    name of the source entry.
   */
  lemma DestinationKeepsBasename(root: Path, path: Path)
    ensures GetFilename(Destination(root, path)) == GetFilename(path)
  {
    BasenameOfJoin(root, GetFilename(path));
  }

  /**
    The mapping is flat: entries with the same basename in different source
    directories are written to the same replica path.
   */
  lemma FlatteningCollides(root: Path, dir1: Path, dir2: Path, name: string)
    requires '/' !in name
    ensures Destination(root, dir1 + "/" + name) == Destination(root, dir2 + "/" + name) == root + "/" + name
  {
    BasenameOfJoin(dir1, name);
    BasenameOfJoin(dir2, name);
  }

  /** Where the log record sits among the two effects: first for a file, last for a directory. */
  function LogIndex(k: FileKind): nat {
    if k == Regular then 0 else 1
  }

  /** The INFO message report_action logs for a handled event. */
  function ReplicaMessage(k: FileKind, path: Path, deleted: bool): (r: string)
    requires k != UnexpectedFile
    ensures |r| > |FileStr(k).value| + |path| + 3
    ensures r[..|FileStr(k).value|] == FileStr(k).value
    ensures r[|r| - |path| - 3..] == " | " + path
  {
    FileStr(k).value + " " + GetFilename(path)
      + (if deleted then " has been deleted from Replica" else " has been created in Replica")
      + " | " + path
  }

  /**
    report_action: a regular file is logged and then copied (create, modify)
    or removed (delete); a directory is copied recursively or removed with all
    its contents and then logged. Any pair with an unexpected enumerator does
    nothing.
   */
  function ReportAction(a: Action, k: FileKind, path: Path, root: Path): (r: seq<Effect>)
    ensures |r| == (if Handled(a, k) then 2 else 0)
    ensures Handled(a, k) ==> r[LogIndex(k)].Log? && r[LogIndex(k)].rec.severity == Info
    ensures Handled(a, k) ==>
      var m := r[1 - LogIndex(k)];
      && m.IsMutation()
      && m.dst == Destination(root, path)
      && ((m.Remove? || m.RemoveAll?) <==> a == Delete)
      && ((m.CopyTree? || m.RemoveAll?) <==> k == Directory)
      && ((m.CopyFile? || m.CopyTree?) ==> m.src == path && m.overwrite)
  {
    var dst := Destination(root, path);
    if a == UnexpectedAction then []
    else
      match k
      case Regular =>
        if a == Delete then [Log(Record(Info, ReplicaMessage(k, path, true))), Remove(dst)]
        else [Log(Record(Info, ReplicaMessage(k, path, false))), CopyFile(path, dst, true)]
      case Directory =>
        if a == Delete then [RemoveAll(dst), Log(Record(Info, ReplicaMessage(k, path, true)))]
        else [CopyTree(path, dst, true), Log(Record(Info, ReplicaMessage(k, path, false)))]
      case UnexpectedFile => []
  }

  /**
    The record report_action logs names the kind, the basename and the full
    source path, and says whether the entry was created in or deleted from
    the replica.
   */
  lemma ReportActionMessage(a: Action, k: FileKind, path: Path, root: Path)
    requires Handled(a, k)
    ensures ReportAction(a, k, path, root)[LogIndex(k)] == Log(Record(Info, ReplicaMessage(k, path, a == Delete)))
  {
  }

  /** A modification is replicated, and logged, exactly like a creation. */
  lemma ModifyReplicatedAsCreate(k: FileKind, path: Path, root: Path)
    ensures ReportAction(Modify, k, path, root) == ReportAction(Create, k, path, root)
    ensures k != UnexpectedFile ==>
      Log(Record(Info, ReplicaMessage(k, path, false))) in ReportAction(Modify, k, path, root)
  {
  }

  /**
    The replication of a sequence of events: one report_action call each, in
    order. At most two effects per event, and exactly two per event when and
    only when every event is handled.
   */
  function Replicate(events: seq<Event>, root: Path): (r: seq<Effect>)
    ensures |r| <= 2 * |events|
    ensures |r| == 2 * |events| <==> forall e | e in events :: Handled(e.action, e.file)
  {
    var f := (e: Event) => ReportAction(e.action, e.file, e.path, root);
    FlattenLength(f, events, 2);
    Flatten(f, events)
  }

  /**
    When every event is handled, the i-th event's two effects sit at 2*i and
    2*i+1: one log record and one mutation of its destination per event.
   */
  lemma ReplicateHandled(events: seq<Event>, root: Path, i: nat)
    requires forall e | e in events :: Handled(e.action, e.file)
    requires i < |events|
    ensures |Replicate(events, root)| == 2 * |events|
    ensures Replicate(events, root)[2 * i..2 * i + 2]
      == ReportAction(events[i].action, events[i].file, events[i].path, root)
  {
    FlattenPairs((e: Event) => ReportAction(e.action, e.file, e.path, root), events, i);
  }

  /**
    DirWatcherCallback::log: WARNING exactly when the action or the file kind
    is unexpected, INFO otherwise; every label it asks for exists, so it never
    reaches a throwing branch of the label functions.
   */
  function LogLine(a: Action, k: FileKind, name: string): (r: Record)
    ensures r.severity == Warning <==> !Handled(a, k)
    ensures r.severity == Info <==> Handled(a, k)
  {
    if a == UnexpectedAction && k == UnexpectedFile then
      Record(Warning, "Unexpected action has been detected for unexpected file type: " + name)
    else if a == UnexpectedAction then
      Record(Warning, "Unexpected action has been detected for " + FileStr(k).value + " " + name)
    else if k == UnexpectedFile then
      Record(Warning, "Unexpected file " + name + " has been " + ActionStr(a).value)
    else
      Record(Info, FileStr(k).value + " " + name + " has been " + ActionStr(a).value)
  }

  /**
    On the pairs both accept, the override's INFO line is the base class's
    line without its leading "The "; on the others the base class fails and
    the override warns.
   */
  lemma LogLineAgreesWithBase(a: Action, k: FileKind, name: string)
    ensures BaseLog(a, k, name).Ok? ==> BaseLog(a, k, name).value == "The " + LogLine(a, k, name).message
    ensures BaseLog(a, k, name).Err? <==> LogLine(a, k, name).severity == Warning
  {
  }
}

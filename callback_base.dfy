/**
  The vocabulary shared by the watcher and its callback: the action and file
  enumerations of DirWatcherCallbackBase, the change event handed to
  report_action, and the two label functions that turn an enumerator into the
  text used in log messages.
 */
module CallbackBase {

  /** A generic path string, '/'-separated. */
  type Path = string

  /** action_t */
  datatype Action = Create | Modify | Delete | UnexpectedAction

  /** file_t */
  datatype FileKind = Directory | Regular | UnexpectedFile

  /** The arguments of one report_action call, without the replica root. */
  datatype Event = Event(action: Action, file: FileKind, path: Path)

  /** A value, or the message of the runtime_error the source throws. */
  datatype Result<T> = Ok(value: T) | Err(error: string)

  const UnexpectedActionError: string := "Unexpected action has been detected"
  const UnexpectedFileError: string := "Action has been detected for unexpected file type"

  /** The pairs report_action replicates: a real action on a file or directory. */
  predicate Handled(a: Action, k: FileKind) {
    a != UnexpectedAction && k != UnexpectedFile
  }

  /** get_action_str: the past-tense verb, or a failure for UNEXPECTED_ACTION. */
  function ActionStr(a: Action): (r: Result<string>)
    ensures r.Err? <==> a == UnexpectedAction
    ensures r.Err? ==> r.error == UnexpectedActionError
    ensures r.Ok? ==> |r.value| > 0
  {
    match a
    case Create => Ok("created")
    case Modify => Ok("modified")
    case Delete => Ok("deleted")
    case UnexpectedAction => Err(UnexpectedActionError)
  }

  /** get_file_str: the label of a file kind, or a failure for UNEXPECTED_FILE. */
  function FileStr(k: FileKind): (r: Result<string>)
    ensures r.Err? <==> k == UnexpectedFile
    ensures r.Err? ==> r.error == UnexpectedFileError
    ensures r.Ok? ==> |r.value| > 0
  {
    match k
    case Directory => Ok("Directory")
    case Regular => Ok("Regular file")
    case UnexpectedFile => Err(UnexpectedFileError)
  }

  /** Different enumerators get different labels, so a log line names its action and kind unambiguously. */
  lemma LabelsDistinct(a: Action, b: Action, k: FileKind, l: FileKind)
    ensures ActionStr(a).Ok? && ActionStr(a) == ActionStr(b) ==> a == b
    ensures FileStr(k).Ok? && FileStr(k) == FileStr(l) ==> k == l
  {
  }

  /**
    The base class's log: "The <kind> <name> has been <verb>". The kind label
    is evaluated first (left to right along the stream), so when both
    enumerators are unexpected the file-kind failure is the one raised.
   */
  function BaseLog(a: Action, k: FileKind, name: string): (r: Result<string>)
    ensures r.Ok? <==> Handled(a, k)
    ensures k == UnexpectedFile ==> r == Err(UnexpectedFileError)
    ensures k != UnexpectedFile && a == UnexpectedAction ==> r == Err(UnexpectedActionError)
  {
    var file := FileStr(k);
    if file.Err? then Err(file.error)
    else
      var action := ActionStr(a);
      if action.Err? then Err(action.error)
      else Ok("The " + file.value + " " + name + " has been " + action.value)
  }
}

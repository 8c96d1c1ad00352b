/** The value types of the `model` package that the detectors and the
    file-context evaluator produce and consume. */
module Model {

  /** One entry of an ancestry chain, nearest ancestor first. */
  datatype Process = Process(command: string, pid: int)

  /** The kinds of launch source the modelled detectors can report. */
  datatype SourceType = Shell | Cron

  /** A scored source attribution. The confidence is an exact real number. */
  datatype Source = Source(sourceType: SourceType, name: string, confidence: real)

  /** A snapshot of a process's file-descriptor usage and held locks.
      `lockedFiles` holds device:inode identifiers. */
  datatype FileContext = FileContext(
    openFiles: nat,
    fileLimit: int,
    lockedFiles: seq<string>,
    watchedDirs: seq<string>)

  /** True when a sequence holds no element twice. */
  predicate NoDuplicates<T(==)>(s: seq<T>) {
    forall i, j :: 0 <= i < j < |s| ==> s[i] != s[j]
  }

  /** The commands of an ancestry chain, in order; the PIDs are dropped. */
  function Commands(ancestry: seq<Process>): (r: seq<string>)
    ensures |r| == |ancestry|
    ensures forall i :: 0 <= i < |ancestry| ==> r[i] == ancestry[i].command
  {
    seq(|ancestry|, i requires 0 <= i < |ancestry| => ancestry[i].command)
  }
}

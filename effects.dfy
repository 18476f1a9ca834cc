/** The file-system effects of the copy stage, recorded as a log, and the
    property that every copy keeps its source file's name. */
module Effects {
  import opened Paths

  /** A file-system effect: os.makedirs of a path, or shutil.copy2. */
  datatype Action = MakeDirs(path: string) | CopyFile(src: string, dst: string)

  /** A copy whose destination has the same basename as its source; a
      directory creation trivially qualifies. */
  predicate KeepsName(a: Action)
  {
    a.CopyFile? ==> Basename(a.dst) == Basename(a.src)
  }

  /** The actions of `log` that do not keep their name. */
  function Renamed(log: seq<Action>): set<Action>
  {
    set a | a in log && !KeepsName(a)
  }

  /** Renamed is empty exactly when every action of the log keeps its name. */
  lemma RenamedEmptyMeans(log: seq<Action>)
    ensures Renamed(log) == {} <==> forall i :: 0 <= i < |log| ==> KeepsName(log[i])
  {
    if Renamed(log) == {} {
      forall i | 0 <= i < |log|
        ensures KeepsName(log[i])
      {
        assert log[i] !in Renamed(log);
      }
    } else {
      var a :| a in Renamed(log);
    }
  }

  /** Renamed distributes over the concatenation of logs. */
  lemma RenamedConcat(s: seq<Action>, t: seq<Action>)
    ensures Renamed(s + t) == Renamed(s) + Renamed(t)
  {
  }

  lemma DirsRenameNothing(d1: string, d2: string)
    ensures Renamed([MakeDirs(d1), MakeDirs(d2)]) == {}
  {
  }

  /** A copy into `dir` under the source's own basename keeps the name. */
  lemma CopyIntoRenamesNothing(dir: string, src: string)
    ensures Renamed([CopyFile(src, Join(dir, Basename(src)))]) == {}
  {
    BasenameIsLastComponent(src);
    BasenameOfJoin(dir, Basename(src));
  }

  /** The logs of `logs`, one after the other. */
  function Flatten(logs: seq<seq<Action>>): seq<Action>
    decreases |logs|
  {
    if |logs| == 0 then [] else Flatten(logs[..|logs| - 1]) + logs[|logs| - 1]
  }

  lemma FlattenAppend(logs: seq<seq<Action>>, log: seq<Action>)
    ensures Flatten(logs + [log]) == Flatten(logs) + log
  {
    assert (logs + [log])[..|logs|] == logs;
  }

  /** Logs none of which renames a file flatten to a log that renames none. */
  lemma {:induction false} FlattenRenamesNothing(logs: seq<seq<Action>>)
    requires forall i :: 0 <= i < |logs| ==> Renamed(logs[i]) == {}
    ensures Renamed(Flatten(logs)) == {}
    decreases |logs|
  {
    if |logs| > 0 {
      FlattenRenamesNothing(logs[..|logs| - 1]);
      RenamedConcat(Flatten(logs[..|logs| - 1]), logs[|logs| - 1]);
    }
  }
}

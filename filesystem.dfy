/** The abstract filesystem the archival sweep works on: the working tree below
    ROOT_PATH, the flat archive directory TEMP_PATH, the clock, the log, and the
    environment that decides which filesystem calls fail. */
module FileSystem {

  /** One entry of the working tree or of the archive. `mtime` is the
      last-modified time in milliseconds since the epoch. */
  datatype Node =
    | File(name: string, mtime: int)
    | Dir(name: string, mtime: int, children: seq<Node>)

  /** The components of a path after ROOT_PATH: ROOT_PATH/a/b is [a, b]. */
  type Path = seq<string>

  /** The last component of a path (Path.getFileName). */
  function FileName(p: Path): string
    requires p != []
  {
    p[|p| - 1]
  }

  /** Which of the two archive steps ran: the file variant or the folder variant. */
  datatype Kind = FileKind | FolderKind

  /** What a sweep records. Moved, MoveFailed, Deleted and DeleteFailed stand for
      the logger's info and error messages; Checked records one age test with the
      threshold it used, which the program computes but does not log. */
  datatype Event =
    | Checked(source: Path, threshold: int)
    | Moved(kind: Kind, source: Path)
    | MoveFailed(kind: Kind, source: Path)
    | Deleted(kind: Kind, entry: string)
    | DeleteFailed(kind: Kind, entry: string)

  /** True of the events that name a path of the working tree. */
  predicate TouchesTree(e: Event) {
    e.Checked? || e.Moved? || e.MoveFailed?
  }

  /** The environment of one sweep: the calls that throw, and how far the clock
      moves on after each age test.
      - unstatable: Files.getLastModifiedTime throws (for example a dangling link);
      - unlistable: Files.newDirectoryStream throws (for example permission denied);
      - unmovable:  Files.move throws for this source;
      - undeletable: archive entries that deleting cannot remove;
      - ticks: milliseconds that pass after the age test logged at a given log
        position (0 if absent). Every age test has its own position, so any
        forward-running clock is covered, also when one path is tested twice. */
  datatype Env = Env(
    unstatable: set<Path>,
    unlistable: set<Path>,
    unmovable: set<Path>,
    undeletable: set<string>,
    ticks: map<nat, nat>)

  function Elapsed(env: Env, position: nat): nat {
    if position in env.ticks then env.ticks[position] else 0
  }

  /** Everything a sweep changes besides the working tree: the archive directory
      (entry name to entry), the clock and the log. */
  datatype State = State(archive: map<string, Node>, now: int, log: seq<Event>)

  /** The result of handling one node, or a run of siblings: the new state, the
      entries that are still in the working tree (for one node: [] when it was
      moved away, otherwise what is left of it), and false when an exception
      propagates out of it. */
  datatype Outcome = Outcome(st: State, kept: seq<Node>, ok: bool)

  /** Every entry of the archive sits under its own name. */
  ghost predicate ArchiveKeyed(archive: map<string, Node>) {
    forall k :: k in archive ==> archive[k].name == k
  }

  /** The paths of the archive attempts (successful or not) in a log, in order. */
  function Attempts(log: seq<Event>): seq<Path>
  {
    if log == [] then []
    else (if log[0].Moved? || log[0].MoveFailed? then [log[0].source] else []) + Attempts(log[1..])
  }

  /** The paths of the moves that landed in a log. */
  function MovedPaths(log: seq<Event>): set<Path>
  {
    set e | e in log && e.Moved? :: e.source
  }

  lemma MovedPathsAppend(a: seq<Event>, b: seq<Event>)
    ensures MovedPaths(a + b) == MovedPaths(a) + MovedPaths(b)
  {
    assert forall e :: e in a + b <==> e in a || e in b;
  }

  /** The paths of the age tests at exactly `depth` components, in order. */
  function ChecksAt(log: seq<Event>, depth: nat): seq<Path>
  {
    if log == [] then []
    else (if log[0].Checked? && |log[0].source| == depth then [log[0].source] else []) + ChecksAt(log[1..], depth)
  }

  /** The thresholds of the age tests in a log never decrease, and none exceeds `bound`. */
  ghost predicate ThresholdsSorted(log: seq<Event>, bound: int) {
    (forall i :: 0 <= i < |log| && log[i].Checked? ==> log[i].threshold <= bound) &&
    (forall i, j :: 0 <= i < j < |log| && log[i].Checked? && log[j].Checked? ==> log[i].threshold <= log[j].threshold)
  }

  lemma {:induction false} AttemptsAppend(a: seq<Event>, b: seq<Event>)
    ensures Attempts(a + b) == Attempts(a) + Attempts(b)
  {
    if a == [] {
      assert a + b == b;
    } else {
      var head := if a[0].Moved? || a[0].MoveFailed? then [a[0].source] else [];
      assert (a + b)[0] == a[0];
      assert (a + b)[1..] == a[1..] + b;
      assert Attempts(a + b) == head + Attempts(a[1..] + b);
      AttemptsAppend(a[1..], b);
      assert head + (Attempts(a[1..]) + Attempts(b)) == (head + Attempts(a[1..])) + Attempts(b);
    }
  }

  lemma {:induction false} ChecksAtAppend(a: seq<Event>, b: seq<Event>, depth: nat)
    ensures ChecksAt(a + b, depth) == ChecksAt(a, depth) + ChecksAt(b, depth)
  {
    if a == [] {
      assert a + b == b;
    } else {
      assert (a + b)[0] == a[0];
      assert (a + b)[1..] == a[1..] + b;
      ChecksAtAppend(a[1..], b, depth);
    }
  }

  /** A log in which every path is longer than `depth` has no age test at `depth`. */
  lemma {:induction false} ChecksAtDeeper(log: seq<Event>, depth: nat)
    requires forall e :: e in log && e.Checked? ==> |e.source| > depth
    ensures ChecksAt(log, depth) == []
  {
    if log != [] {
      assert log[0] in log;
      assert forall e :: e in log[1..] ==> e in log;
      ChecksAtDeeper(log[1..], depth);
    }
  }

  /** A log without move events has no archive attempts. */
  lemma {:induction false} AttemptsNone(log: seq<Event>)
    requires forall e :: e in log ==> !e.Moved? && !e.MoveFailed?
    ensures Attempts(log) == []
  {
    if log != [] {
      assert log[0] in log;
      assert forall e :: e in log[1..] ==> e in log;
      AttemptsNone(log[1..]);
    }
  }
}

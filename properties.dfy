/** What one sweep does, stated over the reference functions of Traversal. */
module Properties {
  import opened FileSystem
  import opened Threshold
  import opened Archive
  import opened Traversal

  /** The paths of the children d.children[i..] below `path`, in listing order. */
  function ChildPaths(path: Path, cs: seq<Node>): seq<Path>
  {
    if cs == [] then [] else [path + [cs[0].name]] + ChildPaths(path, cs[1..])
  }

  /** The events a call added to a log that it extended. */
  function Delta(before: State, after: State): seq<Event>
    requires before.log <= after.log
  {
    after.log[|before.log|..]
  }

  lemma DeltaSplit(a: seq<Event>, b: seq<Event>, c: seq<Event>)
    requires a <= b && b <= c
    ensures c[|a|..] == b[|a|..] + c[|b|..]
  {
  }

  lemma PrefixTrans(p: Path, q: Path, s: Path)
    requires p <= q && q <= s
    ensures p <= s
  {
  }

  // ---------------------------------------------------------------------------
  // Which paths a node's handling touches

  /** Every tree event of `delta` is at `path` or below it. */
  ghost predicate Under(delta: seq<Event>, path: Path) {
    forall e :: e in delta && TouchesTree(e) ==> path <= e.source
  }

  /** Every tree event of `delta` is strictly below `path`. */
  ghost predicate Below(delta: seq<Event>, path: Path) {
    forall e :: e in delta && TouchesTree(e) ==> path <= e.source && |e.source| > |path|
  }

  /** No archive attempt in `delta` is at `path` or above it. */
  ghost predicate NotAttemptedAt(delta: seq<Event>, path: Path) {
    forall e :: e in delta && (e.Moved? || e.MoveFailed?) ==> |e.source| > |path|
  }

  /** The three events of a check followed by an archive step: all are about
      `path`, the first is the only age test, and the move is logged exactly
      when it landed. */
  lemma ThreeEvents(ev: seq<Event>, path: Path, t: int, kind: Kind, moved: bool)
    requires |ev| == 3 && ev[0] == Checked(path, t) && (ev[1].Deleted? || ev[1].DeleteFailed?)
    requires ev[2] == (if moved then Moved(kind, path) else MoveFailed(kind, path))
    ensures forall e :: e in ev && TouchesTree(e) ==> e.source == path
    ensures ChecksAt(ev, |path|) == [path]
    ensures moved <==> Moved(kind, path) in ev
  {
    assert ev[1..][1..] == [ev[2]];
    assert [ev[2]][1..] == [];
    assert ChecksAt([ev[2]], |path|) == [];
    assert ChecksAt(ev[1..], |path|) == [];
    assert forall e :: e in ev ==> e == ev[0] || e == ev[1] || e == ev[2];
  }

  /** An age test at `path` followed by an archive step of the node there: the
      three events are all about `path`, the first is the only age test. */
  lemma {:induction false} CheckThenArchive(st: State, kind: Kind, path: Path, n: Node, days: int, env: Env)
    requires path != []
    ensures var a := ArchiveNode(Check(st, path, days, env), kind, path, n, env);
      && st.log <= a.st.log
      && (forall e :: e in Delta(st, a.st) && TouchesTree(e) ==> e.source == path)
      && ChecksAt(Delta(st, a.st), |path|) == [path]
      && (a.kept == [] <==> Moved(kind, path) in Delta(st, a.st))
  {
    var t := CalculateDeletionThreshold(st.now, days);
    var st1 := Check(st, path, days, env);
    ArchiveNodeLog(st1, kind, path, n, env);
    var a := ArchiveNode(st1, kind, path, n, env);
    var ev := Delta(st, a.st);
    assert |ev| == 3 && ev[0] == Checked(path, t);
    assert ev[1] == a.st.log[|st1.log|] && ev[2] == a.st.log[|st1.log| + 1];
    ThreeEvents(ev, path, t, kind, a.kept == []);
  }

  /** Handling a folder writes events only for it and its descendants; one that
      does not qualify at its own check is never itself archived; it is tested
      exactly once unless its stat fails; and it leaves the working tree exactly
      when its move is logged. */
  lemma {:induction false} SubfolderEvents(st: State, path: Path, n: Node, days: int, env: Env)
    requires path != []
    decreases n, Width(n) + 2
    ensures var r := HandleSubfolder(st, path, n, days, env);
      && Under(Delta(st, r.st), path)
      && ((path in env.unstatable || !IsOlderThanThreshold(n.mtime, st.now, days)) ==> NotAttemptedAt(Delta(st, r.st), path))
      && ((path !in env.unstatable && IsOlderThanThreshold(n.mtime, st.now, days)) ==> Attempts(Delta(st, r.st)) == [path])
      && ChecksAt(Delta(st, r.st), |path|) == (if path in env.unstatable then [] else [path])
      && (r.kept == [] <==> Moved(FolderKind, path) in Delta(st, r.st))
  {
    var r := HandleSubfolder(st, path, n, days, env);
    if path in env.unstatable {
      assert Delta(st, r.st) == [];
    } else if IsOlderThanThreshold(n.mtime, st.now, days) {
      CheckThenArchive(st, FolderKind, path, n, days, env);
      QualifyingAttempted(st, FolderKind, path, n, days, env);
    } else if n.File? || path in env.unlistable {
      var t := CalculateDeletionThreshold(st.now, days);
      assert Delta(st, r.st) == [Checked(path, t)];
    } else {
      ListedFolderEvents(st, path, n, days, env);
    }
  }

  /** The part of SubfolderEvents for a folder that stays and is listed. */
  lemma {:induction false} ListedFolderEvents(st: State, path: Path, n: Node, days: int, env: Env)
    requires path != [] && n.Dir? && path !in env.unstatable && path !in env.unlistable
    requires !IsOlderThanThreshold(n.mtime, st.now, days)
    decreases n, Width(n) + 1
    ensures var r := HandleSubfolder(st, path, n, days, env);
      && Under(Delta(st, r.st), path)
      && NotAttemptedAt(Delta(st, r.st), path)
      && ChecksAt(Delta(st, r.st), |path|) == [path]
      && Moved(FolderKind, path) !in Delta(st, r.st)
  {
    var t := CalculateDeletionThreshold(st.now, days);
    var st1 := Check(st, path, days, env);
    var rc := HandleChildren(st1, path, n, 0, days, env);
    var r := HandleSubfolder(st, path, n, days, env);
    assert r == Outcome(rc.st, [Dir(n.name, n.mtime, rc.kept)], rc.ok);
    ChildrenEvents(st1, path, n, 0, days, env);
    var dc := Delta(st1, rc.st);
    DeltaSplit(st.log, st1.log, rc.st.log);
    assert Delta(st, r.st) == [Checked(path, t)] + dc;
    CheckThenBelow(Delta(st, r.st), path, t, dc);
    ChecksAtOne(path, t);
    ChecksAtAppend([Checked(path, t)], dc, |path|);
    ChecksAtDeeper(dc, |path|);
  }

  /** An age test at `path` followed by events strictly below it. */
  lemma CheckThenBelow(delta: seq<Event>, path: Path, t: int, rest: seq<Event>)
    requires delta == [Checked(path, t)] + rest && Below(rest, path)
    ensures Under(delta, path) && NotAttemptedAt(delta, path)
    ensures Moved(FolderKind, path) !in delta
    ensures forall e :: e in rest && e.Checked? ==> |e.source| > |path|
  {
    assert path[..|path|] == path;
  }

  /** A lone age test is one test at its own depth. */
  lemma ChecksAtOne(path: Path, t: int)
    ensures ChecksAt([Checked(path, t)], |path|) == [path]
  {
    assert [Checked(path, t)][1..] == [];
  }

  lemma {:induction false} FileEvents(st: State, path: Path, n: Node, days: int, env: Env)
    requires path != []
    ensures var r := HandleFile(st, path, n, days, env);
      && (forall e :: e in Delta(st, r.st) && TouchesTree(e) ==> e.source == path)
      && ((path in env.unstatable || !IsOlderThanThreshold(n.mtime, st.now, days)) ==> NotAttemptedAt(Delta(st, r.st), path))
      && ((path !in env.unstatable && IsOlderThanThreshold(n.mtime, st.now, days)) ==> Attempts(Delta(st, r.st)) == [path])
      && ChecksAt(Delta(st, r.st), |path|) == (if path in env.unstatable then [] else [path])
      && (r.kept == [] <==> Moved(FileKind, path) in Delta(st, r.st))
  {
    var r := HandleFile(st, path, n, days, env);
    if path in env.unstatable {
      assert Delta(st, r.st) == [];
    } else if IsOlderThanThreshold(n.mtime, st.now, days) {
      CheckThenArchive(st, FileKind, path, n, days, env);
      QualifyingAttempted(st, FileKind, path, n, days, env);
    } else {
      assert Delta(st, r.st) == [Checked(path, CalculateDeletionThreshold(st.now, days))];
    }
  }

  lemma {:induction false} EntryEvents(st: State, path: Path, n: Node, days: int, env: Env)
    requires path != []
    decreases n, Width(n) + 3
    ensures var r := HandleEntry(st, path, n, days, env);
      && Under(Delta(st, r.st), path)
      && ((path in env.unstatable || !IsOlderThanThreshold(n.mtime, st.now, days)) ==> NotAttemptedAt(Delta(st, r.st), path))
      && ((path !in env.unstatable && IsOlderThanThreshold(n.mtime, st.now, days)) ==> Attempts(Delta(st, r.st)) == [path])
      && ChecksAt(Delta(st, r.st), |path|) == (if path in env.unstatable then [] else [path])
      && (r.kept == [] <==> Moved(if n.Dir? then FolderKind else FileKind, path) in Delta(st, r.st))
  {
    if n.Dir? {
      SubfolderEvents(st, path, n, days, env);
    } else {
      FileEvents(st, path, n, days, env);
    }
  }

  /** Handling the children of `d` touches only strict descendants of `path`,
      and when no exception escapes each child is tested exactly once, in
      listing order. */
  lemma {:induction false} ChildrenEvents(st: State, path: Path, d: Node, i: nat, days: int, env: Env)
    requires d.Dir? && i <= |d.children|
    decreases d, |d.children| - i
    ensures var r := HandleChildren(st, path, d, i, days, env);
      && Below(Delta(st, r.st), path)
      && (r.ok ==> ChecksAt(Delta(st, r.st), |path| + 1) == ChildPaths(path, d.children[i..]))
  {
    var r := HandleChildren(st, path, d, i, days, env);
    if i == |d.children| {
      assert Delta(st, r.st) == [];
    } else {
      var c := d.children[i];
      var q := path + [c.name];
      var rc := HandleEntry(st, q, c, days, env);
      ChildrenStep(st, path, d, i, days, env, rc);
      var dc := Delta(st, rc.st);
      EntryEvents(st, q, c, days, env);
      ChildBelow(dc, path, q);
      if rc.ok {
        ChildrenEvents(rc.st, path, d, i + 1, days, env);
        var rest := HandleChildren(rc.st, path, d, i + 1, days, env);
        assert r == Outcome(rest.st, rc.kept + rest.kept, rest.ok);
        DeltaSplit(st.log, rc.st.log, rest.st.log);
        var dr := Delta(rc.st, rest.st);
        assert Delta(st, r.st) == dc + dr;
        BelowAppend(dc, dr, path);
        if r.ok {
          assert ChecksAt(dc, |path| + 1) == [q];
          assert d.children[i..][1..] == d.children[i + 1..];
          assert ChildPaths(path, d.children[i..]) == [q] + ChildPaths(path, d.children[i + 1..]);
          ChecksAtAppend(dc, dr, |path| + 1);
        }
      } else {
        assert Delta(st, r.st) == dc;
      }
    }
  }

  /** Events under a child's path are strictly below its parent's. */
  lemma ChildBelow(delta: seq<Event>, path: Path, q: Path)
    requires |q| == |path| + 1 && path <= q && Under(delta, q)
    ensures Below(delta, path)
  {
    forall e | e in delta && TouchesTree(e)
      ensures path <= e.source && |e.source| > |path|
    {
      PrefixTrans(path, q, e.source);
    }
  }

  lemma BelowAppend(a: seq<Event>, b: seq<Event>, path: Path)
    requires Below(a, path) && Below(b, path)
    ensures Below(a + b, path)
  {
  }

  // ---------------------------------------------------------------------------
  // The folder rule and the file rule

  /** A folder that qualifies at its check moves as one unit: no descendant is
      tested or attempted, no exception escapes, and when the move lands the
      archive entry under its file name is the whole folder as it was. */
  lemma {:induction false} QualifyingFolderMovesWhole(st: State, path: Path, n: Node, days: int, env: Env)
    requires path != [] && path !in env.unstatable && IsOlderThanThreshold(n.mtime, st.now, days)
    ensures var r := HandleSubfolder(st, path, n, days, env);
      && r.ok && (r.kept == [] || r.kept == [n])
      && (forall e :: e in Delta(st, r.st) && TouchesTree(e) ==> e.source == path)
      && (r.kept == [] <==> Moved(FolderKind, path) in Delta(st, r.st))
      && (r.kept == [] ==> r.st.archive == st.archive[FileName(path) := n])
  {
    var st1 := Check(st, path, days, env);
    CheckThenArchive(st, FolderKind, path, n, days, env);
    ArchiveNodeLog(st1, FolderKind, path, n, env);
    ArchiveNodeEffect(st1, FolderKind, path, n, env);
  }

  /** A folder that does not qualify stays in the working tree under its own
      name and time and is never itself attempted; when nothing throws, each of
      its children is tested exactly once, in listing order. */
  lemma {:induction false} OtherFolderVisitsChildren(st: State, path: Path, n: Node, days: int, env: Env)
    requires path != [] && n.Dir? && !IsOlderThanThreshold(n.mtime, st.now, days)
    ensures var r := HandleSubfolder(st, path, n, days, env);
      && |r.kept| == 1 && r.kept[0].Dir? && r.kept[0].name == n.name && r.kept[0].mtime == n.mtime
      && NotAttemptedAt(Delta(st, r.st), path)
      && (r.ok ==> ChecksAt(Delta(st, r.st), |path| + 1) == ChildPaths(path, n.children))
  {
    var r := HandleSubfolder(st, path, n, days, env);
    SubfolderEvents(st, path, n, days, env);
    if r.ok {
      var t := CalculateDeletionThreshold(st.now, days);
      var st1 := Check(st, path, days, env);
      ChildrenEvents(st1, path, n, 0, days, env);
      var rc := HandleChildren(st1, path, n, 0, days, env);
      DeltaSplit(st.log, st1.log, rc.st.log);
      assert Delta(st, r.st) == [Checked(path, t)] + Delta(st1, rc.st);
      ChecksAtAppend([Checked(path, t)], Delta(st1, rc.st), |path| + 1);
      assert [Checked(path, t)][1..] == [];
      assert ChecksAt([Checked(path, t)], |path| + 1) == [];
      assert n.children[0..] == n.children;
    }
  }

  /** The comparison is strict: an entry whose time equals the threshold of its
      own check is never archived itself, folder or file. */
  lemma {:induction false} AtThresholdStays(st: State, path: Path, n: Node, days: int, env: Env)
    requires path != [] && n.mtime == CalculateDeletionThreshold(st.now, days)
    ensures var r := HandleEntry(st, path, n, days, env);
      |r.kept| == 1 && path !in Attempts(Delta(st, r.st))
  {
    AtThresholdNotOlder(st.now, days);
    var r := HandleEntry(st, path, n, days, env);
    EntryEvents(st, path, n, days, env);
    AttemptsLonger(Delta(st, r.st), |path|);
  }

  /** Attempts in a log whose attempts are all longer than `k` are longer than `k`. */
  lemma {:induction false} AttemptsLonger(log: seq<Event>, k: nat)
    requires forall e :: e in log && (e.Moved? || e.MoveFailed?) ==> |e.source| > k
    ensures forall p :: p in Attempts(log) ==> |p| > k
  {
    if log != [] {
      assert log[0] in log;
      assert forall e :: e in log[1..] ==> e in log;
      AttemptsLonger(log[1..], k);
    }
  }

  // ---------------------------------------------------------------------------
  // Which errors end the traversal

  /** Traversal faults are stat and listing failures; delete and move failures
      are swallowed. */
  predicate TraversalSound(env: Env) {
    env.unstatable == {} && env.unlistable == {}
  }

  /** Without stat or listing failures nothing escapes from a listed entry,
      whatever moves and deletes fail and however the clock runs. */
  lemma {:induction false} EntryNeverThrows(st: State, path: Path, n: Node, days: int, env: Env)
    requires path != [] && TraversalSound(env)
    decreases n, Width(n) + 2
    ensures HandleEntry(st, path, n, days, env).ok
  {
    if n.Dir? {
      var st1 := Check(st, path, days, env);
      if !IsOlderThanThreshold(n.mtime, st.now, days) {
        ChildrenNeverThrow(st1, path, n, 0, days, env);
      }
    }
  }

  lemma {:induction false} ChildrenNeverThrow(st: State, path: Path, d: Node, i: nat, days: int, env: Env)
    requires d.Dir? && i <= |d.children| && TraversalSound(env)
    decreases d, |d.children| - i
    ensures HandleChildren(st, path, d, i, days, env).ok
  {
    if i < |d.children| {
      var c := d.children[i];
      EntryNeverThrows(st, path + [c.name], c, days, env);
      var rc := HandleEntry(st, path + [c.name], c, days, env);
      ChildrenNeverThrow(rc.st, path, d, i + 1, days, env);
    }
  }

  /** A failing stat of a listed entry ends the listing loop there: the
      remaining siblings are neither tested nor changed. */
  lemma {:induction false} StatFailureStopsSiblings(st: State, path: Path, d: Node, i: nat, days: int, env: Env)
    requires d.Dir? && i < |d.children| && path + [d.children[i].name] in env.unstatable
    ensures var r := HandleChildren(st, path, d, i, days, env);
      && !r.ok && r.st == st && r.kept == d.children[i..]
  {
    var c := d.children[i];
    assert HandleEntry(st, path + [c.name], c, days, env) == Outcome(st, [c], false);
    assert d.children[i..] == [c] + d.children[i + 1..];
  }

  /** A folder that stays and cannot be listed makes newDirectoryStream throw
      out of handleSubfolder, whether or not it has entries; so does a regular
      file reached through the folder rule (NotDirectoryException). Its age
      test is all that happened. */
  lemma {:induction false} ListingFailureEnds(st: State, path: Path, n: Node, days: int, env: Env)
    requires path != [] && path !in env.unstatable && !IsOlderThanThreshold(n.mtime, st.now, days)
    requires n.File? || path in env.unlistable
    ensures var r := HandleSubfolder(st, path, n, days, env);
      !r.ok && r.st == Check(st, path, days, env) && r.kept == [n]
  {
  }

  /** A listed folder throws exactly when its listing loop throws, and its
      state is the loop's: a failure below it passes through it unchanged. */
  lemma ListedThrowsWithLoop(st: State, path: Path, n: Node, days: int, env: Env)
    requires path != [] && n.Dir? && path !in env.unstatable && path !in env.unlistable
    requires !IsOlderThanThreshold(n.mtime, st.now, days)
    ensures var r := HandleSubfolder(st, path, n, days, env);
      var l := HandleChildren(Check(st, path, days, env), path, n, 0, days, env);
      r.ok == l.ok && r.st == l.st
  {
  }

  /** A child that throws ends the listing loop: the loop throws too, with the
      child's state, and the later siblings stay as they were. */
  lemma ChildFailureEndsLoop(st: State, path: Path, d: Node, i: nat, days: int, env: Env)
    requires d.Dir? && i < |d.children|
    requires !HandleEntry(st, path + [d.children[i].name], d.children[i], days, env).ok
    ensures var rc := HandleEntry(st, path + [d.children[i].name], d.children[i], days, env);
      var r := HandleChildren(st, path, d, i, days, env);
      !r.ok && r.st == rc.st && r.kept == rc.kept + d.children[i + 1..]
  {
  }

  // ---------------------------------------------------------------------------
  // An independent description of what gets archived

  /** The entries below `path` that a sweep with a fixed threshold `t` archives:
      every entry older than `t` none of whose ancestors is, in depth-first
      order. */
  function Frontier(path: Path, n: Node, t: int): seq<Path>
    decreases n, Width(n) + 1
  {
    if n.mtime < t then [path]
    else if n.File? then []
    else FrontierFrom(path, n, 0, t)
  }

  function FrontierFrom(path: Path, d: Node, i: nat, t: int): seq<Path>
    requires d.Dir? && i <= |d.children|
    decreases d, |d.children| - i
  {
    if i == |d.children| then []
    else Frontier(path + [d.children[i].name], d.children[i], t) + FrontierFrom(path, d, i + 1, t)
  }

  /** The clock does not move during the sweep. */
  predicate Frozen(env: Env) {
    forall i :: i in env.ticks ==> env.ticks[i] == 0
  }

  /** Archiving one node is one attempt at its own path. */
  lemma {:induction false} ArchiveAttempt(st: State, kind: Kind, path: Path, n: Node, env: Env)
    requires path != []
    ensures var r := ArchiveNode(st, kind, path, n, env);
      r.ok && r.st.now == st.now && st.log <= r.st.log && Attempts(Delta(st, r.st)) == [path]
  {
    ArchiveNodeLog(st, kind, path, n, env);
    var r := ArchiveNode(st, kind, path, n, env);
    var x, y := r.st.log[|st.log|], r.st.log[|st.log| + 1];
    assert Delta(st, r.st) == [x, y];
    assert [x, y][1..] == [y];
    assert [y][1..] == [];
    assert Attempts([y]) == [path];
  }

  /** An age test that the entry passes, followed by its archive step, is one
      attempt, at the entry's own path, whatever the clock and the faults. */
  lemma {:induction false} QualifyingAttempted(st: State, kind: Kind, path: Path, n: Node, days: int, env: Env)
    requires path != []
    ensures var a := ArchiveNode(Check(st, path, days, env), kind, path, n, env);
      st.log <= a.st.log && Attempts(Delta(st, a.st)) == [path]
  {
    var t := CalculateDeletionThreshold(st.now, days);
    var st1 := Check(st, path, days, env);
    ArchiveAttempt(st1, kind, path, n, env);
    var a := ArchiveNode(st1, kind, path, n, env);
    DeltaSplit(st.log, st1.log, a.st.log);
    assert Delta(st, a.st) == [Checked(path, t)] + Delta(st1, a.st);
    AttemptsAppend([Checked(path, t)], Delta(st1, a.st));
    assert [Checked(path, t)][1..] == [];
    assert Attempts([Checked(path, t)]) == [];
  }

  /** With a frozen clock and no stat or listing failures, the archive attempts
      of a sweep of an entry are exactly its frontier, each once, in order,
      whatever deletes and moves fail. */
  lemma {:induction false} AttemptsAreFrontier(st: State, path: Path, n: Node, days: int, env: Env)
    requires path != [] && TraversalSound(env) && Frozen(env)
    decreases n, Width(n) + 2
    ensures var r := HandleEntry(st, path, n, days, env);
      && r.ok && r.st.now == st.now
      && Attempts(Delta(st, r.st)) == Frontier(path, n, CalculateDeletionThreshold(st.now, days))
  {
    var t := CalculateDeletionThreshold(st.now, days);
    var r := HandleEntry(st, path, n, days, env);
    var st1 := Check(st, path, days, env);
    assert st1.now == st.now && Delta(st, st1) == [Checked(path, t)];
    assert Attempts([Checked(path, t)]) == [] by {
      assert [Checked(path, t)][1..] == [];
    }
    if IsOlderThanThreshold(n.mtime, st.now, days) {
      var kind := if n.Dir? then FolderKind else FileKind;
      if n.Dir? {
        assert r == HandleSubfolder(st, path, n, days, env);
      } else {
        assert r == HandleFile(st, path, n, days, env);
      }
      assert r == ArchiveNode(st1, kind, path, n, env);
      ArchiveAttempt(st1, kind, path, n, env);
      DeltaSplit(st.log, st1.log, r.st.log);
      assert Delta(st, r.st) == [Checked(path, t)] + Delta(st1, r.st);
      AttemptsAppend([Checked(path, t)], Delta(st1, r.st));
    } else if n.File? {
      assert Delta(st, r.st) == [Checked(path, t)];
    } else {
      FrontierChildren(st1, path, n, 0, days, env);
      var rc := HandleChildren(st1, path, n, 0, days, env);
      assert r == HandleSubfolder(st, path, n, days, env);
      assert r.st == rc.st;
      DeltaSplit(st.log, st1.log, rc.st.log);
      assert Delta(st, r.st) == [Checked(path, t)] + Delta(st1, rc.st);
      AttemptsAppend([Checked(path, t)], Delta(st1, rc.st));
    }
  }

  lemma {:induction false} FrontierChildren(st: State, path: Path, d: Node, i: nat, days: int, env: Env)
    requires d.Dir? && i <= |d.children| && TraversalSound(env) && Frozen(env)
    decreases d, |d.children| - i
    ensures var r := HandleChildren(st, path, d, i, days, env);
      && r.ok && r.st.now == st.now
      && Attempts(Delta(st, r.st)) == FrontierFrom(path, d, i, CalculateDeletionThreshold(st.now, days))
  {
    var r := HandleChildren(st, path, d, i, days, env);
    if i == |d.children| {
      assert Delta(st, r.st) == [];
    } else {
      var c := d.children[i];
      var q := path + [c.name];
      AttemptsAreFrontier(st, q, c, days, env);
      var rc := HandleEntry(st, q, c, days, env);
      FrontierChildren(rc.st, path, d, i + 1, days, env);
      var rest := HandleChildren(rc.st, path, d, i + 1, days, env);
      DeltaSplit(st.log, rc.st.log, rest.st.log);
      assert Delta(st, r.st) == Delta(st, rc.st) + Delta(rc.st, rest.st);
      AttemptsAppend(Delta(st, rc.st), Delta(rc.st, rest.st));
    }
  }
}

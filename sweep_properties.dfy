/** Invariants a sweep keeps, and what a whole sweep over the configured folder
    names does. */
module SweepProperties {
  import opened FileSystem
  import opened Threshold
  import opened Archive
  import opened Traversal
  import opened Properties

  // ---------------------------------------------------------------------------
  // The threshold moves forward

  /** The age tests logged so far used non-decreasing thresholds, none later
      than the threshold the clock gives now. */
  ghost predicate Ordered(st: State, days: int) {
    ThresholdsSorted(st.log, CalculateDeletionThreshold(st.now, days))
  }

  lemma CheckOrdered(st: State, path: Path, days: int, env: Env)
    requires Ordered(st, days)
    ensures Ordered(Check(st, path, days, env), days)
  {
    ThresholdMonotone(st.now, Check(st, path, days, env).now, days);
  }

  lemma {:induction false} ArchiveOrdered(st: State, kind: Kind, path: Path, n: Node, days: int, env: Env)
    requires path != [] && Ordered(st, days)
    ensures Ordered(ArchiveNode(st, kind, path, n, env).st, days)
  {
    ArchiveNodeLog(st, kind, path, n, env);
    var r := ArchiveNode(st, kind, path, n, env);
    var log := r.st.log;
    assert forall i :: |st.log| <= i < |log| ==> !log[i].Checked?;
    assert forall i :: 0 <= i < |st.log| ==> log[i] == st.log[i];
  }

  /** Because the threshold is recomputed from a clock that only runs forward,
      the thresholds of successive age tests never decrease. */
  lemma {:induction false} SubfolderOrdered(st: State, path: Path, n: Node, days: int, env: Env)
    requires path != [] && Ordered(st, days)
    decreases n, Width(n) + 1
    ensures Ordered(HandleSubfolder(st, path, n, days, env).st, days)
  {
    if path !in env.unstatable {
      var st1 := Check(st, path, days, env);
      CheckOrdered(st, path, days, env);
      if IsOlderThanThreshold(n.mtime, st.now, days) {
        ArchiveOrdered(st1, FolderKind, path, n, days, env);
      } else if n.Dir? && path !in env.unlistable {
        ChildrenOrdered(st1, path, n, 0, days, env);
      }
    }
  }

  lemma {:induction false} ChildrenOrdered(st: State, path: Path, d: Node, i: nat, days: int, env: Env)
    requires d.Dir? && i <= |d.children| && Ordered(st, days)
    decreases d, |d.children| - i
    ensures Ordered(HandleChildren(st, path, d, i, days, env).st, days)
  {
    if i < |d.children| {
      var c := d.children[i];
      var q := path + [c.name];
      if c.Dir? {
        SubfolderOrdered(st, q, c, days, env);
      } else if q !in env.unstatable {
        CheckOrdered(st, q, days, env);
        if IsOlderThanThreshold(c.mtime, st.now, days) {
          ArchiveOrdered(Check(st, q, days, env), FileKind, q, c, days, env);
        }
      }
      var rc := HandleEntry(st, q, c, days, env);
      if rc.ok {
        ChildrenOrdered(rc.st, path, d, i + 1, days, env);
      }
    }
  }

  lemma {:induction false} SweepOrdered(root: map<string, Node>, st: State, names: seq<string>, days: int, env: Env)
    requires Ordered(st, days)
    decreases |names|
    ensures Ordered(AutoMoveAndDeleteFiles(root, st, names, days, env).st, days)
  {
    if names != [] && names[0] in root {
      SubfolderOrdered(st, [names[0]], root[names[0]], days, env);
      var o := HandleSubfolder(st, [names[0]], root[names[0]], days, env);
      if o.ok {
        SweepOrdered(Replace(root, names[0], o.kept), o.st, names[1..], days, env);
      }
    }
  }

  /** A sweep that starts with an empty log logs its age tests with
      non-decreasing thresholds. */
  lemma SweepThresholdsNonDecreasing(root: map<string, Node>, now: int, archive: map<string, Node>, names: seq<string>, days: int, env: Env)
    ensures var log := AutoMoveAndDeleteFiles(root, State(archive, now, []), names, days, env).st.log;
      forall i, j :: 0 <= i < j < |log| && log[i].Checked? && log[j].Checked? ==> log[i].threshold <= log[j].threshold
  {
    SweepOrdered(root, State(archive, now, []), names, days, env);
  }

  // ---------------------------------------------------------------------------
  // Flat archive: every entry under its file name

  /** Every top-level entry sits under its own name. */
  ghost predicate RootKeyed(root: map<string, Node>) {
    forall k :: k in root ==> root[k].name == k
  }

  lemma {:induction false} SubfolderKeyed(st: State, path: Path, n: Node, days: int, env: Env)
    requires path != [] && n.name == FileName(path) && ArchiveKeyed(st.archive)
    decreases n, Width(n) + 1
    ensures ArchiveKeyed(HandleSubfolder(st, path, n, days, env).st.archive)
  {
    if path !in env.unstatable {
      var st1 := Check(st, path, days, env);
      if IsOlderThanThreshold(n.mtime, st.now, days) {
        ArchiveNodeKeyed(st1, FolderKind, path, n, env);
      } else if n.Dir? && path !in env.unlistable {
        ChildrenKeyed(st1, path, n, 0, days, env);
      }
    }
  }

  lemma {:induction false} ChildrenKeyed(st: State, path: Path, d: Node, i: nat, days: int, env: Env)
    requires d.Dir? && i <= |d.children| && ArchiveKeyed(st.archive)
    decreases d, |d.children| - i
    ensures ArchiveKeyed(HandleChildren(st, path, d, i, days, env).st.archive)
  {
    if i < |d.children| {
      var c := d.children[i];
      var q := path + [c.name];
      if c.Dir? {
        SubfolderKeyed(st, q, c, days, env);
      } else if q !in env.unstatable && IsOlderThanThreshold(c.mtime, st.now, days) {
        ArchiveNodeKeyed(Check(st, q, days, env), FileKind, q, c, env);
      }
      var rc := HandleEntry(st, q, c, days, env);
      if rc.ok {
        ChildrenKeyed(rc.st, path, d, i + 1, days, env);
      }
    }
  }

  /** A sweep keeps the archive keyed: every entry sits under its own name,
      and the working tree keeps its top-level entries under their names too.
      Where a moved entry lands is stated by EndState.SweepArchive. */
  lemma {:induction false} SweepKeyed(root: map<string, Node>, st: State, names: seq<string>, days: int, env: Env)
    requires RootKeyed(root) && ArchiveKeyed(st.archive)
    decreases |names|
    ensures var r := AutoMoveAndDeleteFiles(root, st, names, days, env);
      RootKeyed(r.root) && ArchiveKeyed(r.st.archive)
  {
    if names != [] && names[0] in root {
      var name := names[0];
      SubfolderKeyed(st, [name], root[name], days, env);
      var o := HandleSubfolder(st, [name], root[name], days, env);
      var root1 := Replace(root, name, o.kept);
      assert RootKeyed(root1);
      if o.ok {
        SweepKeyed(root1, o.st, names[1..], days, env);
      }
    }
  }

  // ---------------------------------------------------------------------------
  // The configured names, in list order

  /** A configured name whose walk throws, at any depth, ends the sweep with
      the state the walk left; no later name is looked at. */
  lemma WalkFailureEndsSweep(root: map<string, Node>, st: State, name: string, b: seq<string>, days: int, env: Env)
    requires name in root && !HandleSubfolder(st, [name], root[name], days, env).ok
    ensures var o := HandleSubfolder(st, [name], root[name], days, env);
      var r := AutoMoveAndDeleteFiles(root, st, [name] + b, days, env);
      !r.ok && r.st == o.st && r.root == Replace(root, name, o.kept)
  {
    assert ([name] + b)[0] == name;
  }

  /** Once a prefix of the names has thrown, the names after it are never
      looked at. */
  lemma {:induction false} AbortSkipsRest(root: map<string, Node>, st: State, a: seq<string>, b: seq<string>, days: int, env: Env)
    requires !AutoMoveAndDeleteFiles(root, st, a, days, env).ok
    decreases |a|
    ensures AutoMoveAndDeleteFiles(root, st, a + b, days, env) == AutoMoveAndDeleteFiles(root, st, a, days, env)
  {
    assert a != [];
    assert (a + b)[0] == a[0] && (a + b)[1..] == a[1..] + b;
    if a[0] in root {
      var o := HandleSubfolder(st, [a[0]], root[a[0]], days, env);
      if o.ok {
        AbortSkipsRest(Replace(root, a[0], o.kept), o.st, a[1..], b, days, env);
      }
    }
  }

  /** A sweep that got through its first name went on from what handling that
      name left. */
  lemma SweepStep(root: map<string, Node>, st: State, names: seq<string>, days: int, env: Env) returns (o: Outcome)
    requires names != [] && AutoMoveAndDeleteFiles(root, st, names, days, env).ok
    ensures names[0] in root && o == HandleSubfolder(st, [names[0]], root[names[0]], days, env) && o.ok
    ensures AutoMoveAndDeleteFiles(root, st, names, days, env)
      == AutoMoveAndDeleteFiles(Replace(root, names[0], o.kept), o.st, names[1..], days, env)
  {
    o := HandleSubfolder(st, [names[0]], root[names[0]], days, env);
  }

  /** Two name lists with the same first name start the same way. */
  lemma SweepStepSame(root: map<string, Node>, st: State, a: seq<string>, c: seq<string>, days: int, env: Env)
    requires a != [] && c != [] && a[0] == c[0] && a[0] in root
    requires HandleSubfolder(st, [a[0]], root[a[0]], days, env).ok
    ensures var o := HandleSubfolder(st, [a[0]], root[a[0]], days, env);
      AutoMoveAndDeleteFiles(root, st, c, days, env)
        == AutoMoveAndDeleteFiles(Replace(root, a[0], o.kept), o.st, c[1..], days, env)
  {
  }

  /** Names are handled in list order: a sweep over a + b is a sweep over a
      followed, if it did not throw, by a sweep over b on the result. */
  lemma {:induction false} SweepSplits(root: map<string, Node>, st: State, a: seq<string>, b: seq<string>, days: int, env: Env)
    requires AutoMoveAndDeleteFiles(root, st, a, days, env).ok
    decreases |a|
    ensures var r := AutoMoveAndDeleteFiles(root, st, a, days, env);
      AutoMoveAndDeleteFiles(root, st, a + b, days, env) == AutoMoveAndDeleteFiles(r.root, r.st, b, days, env)
  {
    var ab := a + b;
    if a == [] {
      assert ab == b;
      assert AutoMoveAndDeleteFiles(root, st, a, days, env) == Sweep(root, st, true);
    } else {
      assert ab[0] == a[0] && ab[1..] == a[1..] + b;
      var o := SweepStep(root, st, a, days, env);
      var root1 := Replace(root, a[0], o.kept);
      var r1 := AutoMoveAndDeleteFiles(root1, o.st, a[1..], days, env);
      SweepStepSame(root, st, a, ab, days, env);
      SweepSplits(root1, o.st, a[1..], b, days, env);
      assert AutoMoveAndDeleteFiles(root, st, ab, days, env) == AutoMoveAndDeleteFiles(root1, o.st, a[1..] + b, days, env);
      assert AutoMoveAndDeleteFiles(root1, o.st, a[1..] + b, days, env) == AutoMoveAndDeleteFiles(r1.root, r1.st, b, days, env);
    }
  }

  /** A configured name missing from ROOT_PATH ends the sweep there: its stat
      throws and no later name is looked at. */
  lemma {:induction false} MissingFolderAborts(root: map<string, Node>, st: State, a: seq<string>, x: string, b: seq<string>, days: int, env: Env)
    requires x !in root
    ensures var r := AutoMoveAndDeleteFiles(root, st, a + [x] + b, days, env);
      !r.ok && r == AutoMoveAndDeleteFiles(root, st, a + [x], days, env)
  {
    var ra := AutoMoveAndDeleteFiles(root, st, a, days, env);
    assert a + [x] + b == a + ([x] + b);
    if ra.ok {
      SweepSplits(root, st, a, [x] + b, days, env);
      SweepSplits(root, st, a, [x], days, env);
      assert ([x] + b)[0] == x;
    } else {
      AbortSkipsRest(root, st, a, [x] + b, days, env);
      AbortSkipsRest(root, st, a, [x], days, env);
    }
  }

  /** With no stat or listing failures a sweep over distinct names of folders
      in ROOT_PATH runs to its end, whatever moves and deletes fail. */
  lemma {:induction false} SweepCompletes(root: map<string, Node>, st: State, names: seq<string>, days: int, env: Env)
    requires TraversalSound(env)
    requires forall j :: 0 <= j < |names| ==> names[j] in root && root[names[j]].Dir?
    requires forall j, k :: 0 <= j < k < |names| ==> names[j] != names[k]
    decreases |names|
    ensures AutoMoveAndDeleteFiles(root, st, names, days, env).ok
  {
    if names != [] {
      var name := names[0];
      EntryNeverThrows(st, [name], root[name], days, env);
      var o := HandleSubfolder(st, [name], root[name], days, env);
      var root1 := Replace(root, name, o.kept);
      forall j | 0 <= j < |names[1..]|
        ensures names[1..][j] in root1 && root1[names[1..][j]].Dir?
      {
        assert names[1..][j] == names[j + 1] != name;
      }
      SweepCompletes(root1, o.st, names[1..], days, env);
    }
  }

  /** A configured name that is a regular file and does not qualify fails at
      the listing (NotDirectoryException): the sweep ends there and nothing in
      the working tree or the archive has changed. */
  lemma TopLevelFileAborts(root: map<string, Node>, st: State, names: seq<string>, days: int, env: Env)
    requires names != [] && names[0] in root && root[names[0]].File?
    requires [names[0]] !in env.unstatable && !IsOlderThanThreshold(root[names[0]].mtime, st.now, days)
    ensures var r := AutoMoveAndDeleteFiles(root, st, names, days, env);
      !r.ok && r.root == root && r.st.archive == st.archive
  {
    var name := names[0];
    assert HandleSubfolder(st, [name], root[name], days, env) == Outcome(Check(st, [name], days, env), [root[name]], false);
    assert Replace(root, name, [root[name]]) == root;
  }

  /** Every tree event of `delta` is below ROOT_PATH/name for one of `names`. */
  ghost predicate WithinNames(delta: seq<Event>, names: seq<string>) {
    forall e :: e in delta && TouchesTree(e) ==> e.source != [] && e.source[0] in names
  }

  lemma UnderName(delta: seq<Event>, name: string, names: seq<string>)
    requires Under(delta, [name]) && name in names
    ensures WithinNames(delta, names)
  {
    forall e | e in delta && TouchesTree(e)
      ensures e.source != [] && e.source[0] in names
    {
      assert [name] <= e.source;
      assert e.source[0] == name;
    }
  }

  /** Only entries below ROOT_PATH/name for a configured name are ever tested
      or moved. */
  lemma {:induction false} SweepTouchesOnlyConfigured(root: map<string, Node>, st: State, names: seq<string>, days: int, env: Env)
    decreases |names|
    ensures var r := AutoMoveAndDeleteFiles(root, st, names, days, env);
      WithinNames(Delta(st, r.st), names)
  {
    var r := AutoMoveAndDeleteFiles(root, st, names, days, env);
    if names == [] || names[0] !in root {
      assert Delta(st, r.st) == [];
    } else {
      var name := names[0];
      SubfolderEvents(st, [name], root[name], days, env);
      var o := HandleSubfolder(st, [name], root[name], days, env);
      UnderName(Delta(st, o.st), name, names);
      if o.ok {
        var root1 := Replace(root, name, o.kept);
        SweepTouchesOnlyConfigured(root1, o.st, names[1..], days, env);
        assert r == AutoMoveAndDeleteFiles(root1, o.st, names[1..], days, env);
        DeltaSplit(st.log, o.st.log, r.st.log);
        assert Delta(st, r.st) == Delta(st, o.st) + Delta(o.st, r.st);
        assert forall k :: k in names[1..] ==> k in names;
      } else {
        assert r.st == o.st;
      }
    }
  }
}

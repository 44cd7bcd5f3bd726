/** What a walk leaves behind, stated against the log it writes: the working
    tree is the tree with every subtree that was moved cut away, and the
    archive is what the log's deletions and moves make of it. Both hold on
    every path of the walk, also when it stops early. */
module EndState {
  import opened FileSystem
  import opened Threshold
  import opened Archive
  import opened Traversal
  import opened Properties
  import opened SweepProperties

  datatype Option<T> = None | Some(value: T)

  /** No folder of the tree holds two entries of the same name, as on a real
      file system. */
  ghost predicate DistinctNames(n: Node)
    decreases n
  {
    n.Dir? ==>
      && (forall j, k :: 0 <= j < k < |n.children| ==> n.children[j].name != n.children[k].name)
      && (forall j :: 0 <= j < |n.children| ==> DistinctNames(n.children[j]))
  }

  function Names(cs: seq<Node>): set<string> {
    set c | c in cs :: c.name
  }

  // ---------------------------------------------------------------------------
  // The working tree left behind

  /** What is left of node `n`, found at `path`, once the subtrees at the paths
      in `moved` have gone: nothing when `n` itself went, otherwise `n` with
      what is left of each child. */
  function Remains(path: Path, n: Node, moved: set<Path>): (r: seq<Node>)
    decreases n, Width(n) + 1
    ensures |r| <= 1
  {
    if path in moved then []
    else if n.File? then [n]
    else [Dir(n.name, n.mtime, RemainsFrom(path, n, 0, moved))]
  }

  /** What is left of children i.. of folder `d`, in their order. */
  function RemainsFrom(path: Path, d: Node, i: nat, moved: set<Path>): seq<Node>
    requires d.Dir? && i <= |d.children|
    decreases d, |d.children| - i
  {
    if i == |d.children| then []
    else Remains(path + [d.children[i].name], d.children[i], moved) + RemainsFrom(path, d, i + 1, moved)
  }

  lemma {:induction false} RemainsNone(path: Path, n: Node)
    decreases n, Width(n) + 1
    ensures Remains(path, n, {}) == [n]
  {
    if n.Dir? {
      RemainsFromNone(path, n, 0);
      assert n.children[0..] == n.children;
    }
  }

  lemma {:induction false} RemainsFromNone(path: Path, d: Node, i: nat)
    requires d.Dir? && i <= |d.children|
    decreases d, |d.children| - i
    ensures RemainsFrom(path, d, i, {}) == d.children[i..]
  {
    if i < |d.children| {
      RemainsNone(path + [d.children[i].name], d.children[i]);
      RemainsFromNone(path, d, i + 1);
      assert d.children[i..] == [d.children[i]] + d.children[i + 1..];
    }
  }

  /** The two sets agree on `path` and everything below it. */
  ghost predicate SameBelow(path: Path, m1: set<Path>, m2: set<Path>) {
    forall p :: path <= p ==> (p in m1 <==> p in m2)
  }

  /** The two sets agree below `path` in the entries called `names`. */
  ghost predicate SameAmong(path: Path, names: set<string>, m1: set<Path>, m2: set<Path>) {
    forall p :: path <= p && |p| > |path| && p[|path|] in names ==> (p in m1 <==> p in m2)
  }

  lemma ChildComponent(path: Path, name: string, p: Path)
    requires path + [name] <= p
    ensures path <= p && |p| > |path| && p[|path|] == name
  {
    var q := path + [name];
    assert p[..|q|] == q;
    assert p[..|path|] == q[..|path|];
    assert q[..|path|] == path;
    assert p[|path|] == q[|path|];
  }

  lemma NamesSplit(d: Node, i: nat)
    requires d.Dir? && i < |d.children|
    ensures Names(d.children[i..]) == {d.children[i].name} + Names(d.children[i + 1..])
  {
    assert d.children[i..] == [d.children[i]] + d.children[i + 1..];
  }

  /** Remains looks at no path outside the subtree at `path`. */
  lemma {:induction false} RemainsFrame(path: Path, n: Node, m1: set<Path>, m2: set<Path>)
    requires SameBelow(path, m1, m2)
    decreases n, Width(n) + 1
    ensures Remains(path, n, m1) == Remains(path, n, m2)
  {
    assert path[..|path|] == path;
    if n.Dir? {
      RemainsFromFrame(path, n, 0, m1, m2);
    }
  }

  lemma {:induction false} RemainsFromFrame(path: Path, d: Node, i: nat, m1: set<Path>, m2: set<Path>)
    requires d.Dir? && i <= |d.children| && SameAmong(path, Names(d.children[i..]), m1, m2)
    decreases d, |d.children| - i
    ensures RemainsFrom(path, d, i, m1) == RemainsFrom(path, d, i, m2)
  {
    if i < |d.children| {
      var c := d.children[i];
      var q := path + [c.name];
      NamesSplit(d, i);
      forall p | q <= p
        ensures p in m1 <==> p in m2
      {
        ChildComponent(path, c.name, p);
      }
      RemainsFrame(q, c, m1, m2);
      RemainsFromFrame(path, d, i + 1, m1, m2);
    }
  }

  lemma DistinctChild(d: Node, i: nat)
    requires d.Dir? && DistinctNames(d) && i < |d.children|
    ensures DistinctNames(d.children[i]) && d.children[i].name !in Names(d.children[i + 1..])
  {
    var c := d.children[i];
    forall c' | c' in d.children[i + 1..]
      ensures c'.name != c.name
    {
      var k :| 0 <= k < |d.children[i + 1..]| && d.children[i + 1..][k] == c';
      assert d.children[i + 1 + k] == c';
    }
  }

  /** Every tree event of `delta` is below `path`, in one of the entries called
      `names`. */
  ghost predicate Within(delta: seq<Event>, path: Path, names: set<string>) {
    forall e :: e in delta && TouchesTree(e) ==> path <= e.source && |e.source| > |path| && e.source[|path|] in names
  }

  lemma ChildWithin(delta: seq<Event>, path: Path, name: string, names: set<string>)
    requires Under(delta, path + [name]) && name in names
    ensures Within(delta, path, names)
  {
    forall e | e in delta && TouchesTree(e)
      ensures path <= e.source && |e.source| > |path| && e.source[|path|] in names
    {
      ChildComponent(path, name, e.source);
    }
  }

  lemma WithinJoin(a: seq<Event>, b: seq<Event>, path: Path, names: set<string>, fewer: set<string>)
    requires Within(a, path, names) && Within(b, path, fewer) && fewer <= names
    ensures Within(a + b, path, names)
  {
  }

  /** The tree events of the listing loop from child i on are in children i.. . */
  lemma {:induction false} ChildrenWithin(st: State, path: Path, d: Node, i: nat, days: int, env: Env)
    requires d.Dir? && i <= |d.children|
    decreases d, |d.children| - i
    ensures var r := HandleChildren(st, path, d, i, days, env);
      Within(Delta(st, r.st), path, Names(d.children[i..]))
  {
    var r := HandleChildren(st, path, d, i, days, env);
    if i == |d.children| {
      assert Delta(st, r.st) == [];
    } else {
      var c := d.children[i];
      var q := path + [c.name];
      var rc := HandleEntry(st, q, c, days, env);
      EntryEvents(st, q, c, days, env);
      NamesSplit(d, i);
      var dc := Delta(st, rc.st);
      ChildWithin(dc, path, c.name, Names(d.children[i..]));
      if rc.ok {
        ChildrenWithin(rc.st, path, d, i + 1, days, env);
        var rest := HandleChildren(rc.st, path, d, i + 1, days, env);
        assert r.st == rest.st;
        DeltaSplit(st.log, rc.st.log, rest.st.log);
        assert Delta(st, r.st) == dc + Delta(rc.st, rest.st);
        WithinJoin(dc, Delta(rc.st, rest.st), path, Names(d.children[i..]), Names(d.children[i + 1..]));
      } else {
        assert r.st == rc.st;
      }
    }
  }

  lemma MovedUnder(delta: seq<Event>, q: Path)
    requires Under(delta, q)
    ensures forall p :: p in MovedPaths(delta) ==> q <= p
  {
  }

  lemma MovedWithin(delta: seq<Event>, path: Path, names: set<string>)
    requires Within(delta, path, names)
    ensures forall p :: p in MovedPaths(delta) ==> path <= p && |p| > |path| && p[|path|] in names
  {
  }

  lemma EntryMovesUnder(st: State, path: Path, n: Node, days: int, env: Env)
    requires path != []
    ensures var r := HandleEntry(st, path, n, days, env);
      forall p :: p in MovedPaths(Delta(st, r.st)) ==> path <= p
  {
    EntryEvents(st, path, n, days, env);
    MovedUnder(Delta(st, HandleEntry(st, path, n, days, env).st), path);
  }

  lemma ChildrenMovesWithin(st: State, path: Path, d: Node, i: nat, days: int, env: Env)
    requires d.Dir? && i <= |d.children|
    ensures var r := HandleChildren(st, path, d, i, days, env);
      forall p :: p in MovedPaths(Delta(st, r.st)) ==> path <= p && |p| > |path| && p[|path|] in Names(d.children[i..])
  {
    ChildrenWithin(st, path, d, i, days, env);
    MovedWithin(Delta(st, HandleChildren(st, path, d, i, days, env).st), path, Names(d.children[i..]));
  }

  /** The moves of one child and those of its later siblings do not meet. */
  lemma SiblingsApart(path: Path, name: string, later: set<string>, mc: set<Path>, mr: set<Path>)
    requires forall p :: p in mc ==> path + [name] <= p
    requires forall p :: p in mr ==> path <= p && |p| > |path| && p[|path|] in later
    requires name !in later
    ensures SameBelow(path + [name], mc + mr, mc)
    ensures SameAmong(path, later, mc + mr, mr)
    ensures SameAmong(path, later, mc, {})
  {
    forall p | p in mc
      ensures p[|path|] == name
    {
      ChildComponent(path, name, p);
    }
    forall p | path + [name] <= p
      ensures p[|path|] == name
    {
      ChildComponent(path, name, p);
    }
  }

  /** The path of a single archive step is moved exactly when the step
      succeeded. */
  lemma ThreeMoved(ev: seq<Event>, path: Path, t: int, kind: Kind, moved: bool)
    requires |ev| == 3 && ev[0] == Checked(path, t) && (ev[1].Deleted? || ev[1].DeleteFailed?)
    requires ev[2] == (if moved then Moved(kind, path) else MoveFailed(kind, path))
    ensures MovedPaths(ev) == if moved then {path} else {}
  {
    assert forall e :: e in ev ==> e == ev[0] || e == ev[1] || e == ev[2];
  }

  lemma {:induction false} CheckArchiveMoved(st: State, kind: Kind, path: Path, n: Node, days: int, env: Env)
    requires path != []
    ensures var a := ArchiveNode(Check(st, path, days, env), kind, path, n, env);
      && st.log <= a.st.log
      && MovedPaths(Delta(st, a.st)) == if a.kept == [] then {path} else {}
  {
    var t := CalculateDeletionThreshold(st.now, days);
    var st1 := Check(st, path, days, env);
    ArchiveNodeLog(st1, kind, path, n, env);
    var a := ArchiveNode(st1, kind, path, n, env);
    var ev := Delta(st, a.st);
    assert |ev| == 3 && ev[0] == Checked(path, t);
    assert ev[1] == a.st.log[|st1.log|] && ev[2] == a.st.log[|st1.log| + 1];
    ThreeMoved(ev, path, t, kind, a.kept == []);
  }

  lemma OneCheckMovesNothing(st: State, st1: State, path: Path, t: int)
    requires st.log <= st1.log && Delta(st, st1) == [Checked(path, t)]
    ensures MovedPaths(Delta(st, st1)) == {}
  {
    assert forall e :: e in Delta(st, st1) ==> e == Checked(path, t);
  }

  /** handleFile leaves the file in place unless it was moved. */
  lemma {:induction false} FileRemains(st: State, path: Path, n: Node, days: int, env: Env)
    requires path != []
    ensures var r := HandleFile(st, path, n, days, env);
      r.kept == Remains(path, n, MovedPaths(Delta(st, r.st)))
  {
    var r := HandleFile(st, path, n, days, env);
    if path in env.unstatable {
      assert Delta(st, r.st) == [];
      assert MovedPaths([]) == {};
      RemainsNone(path, n);
    } else if IsOlderThanThreshold(n.mtime, st.now, days) {
      CheckArchiveMoved(st, FileKind, path, n, days, env);
      RemainsNone(path, n);
    } else {
      OneCheckMovesNothing(st, r.st, path, CalculateDeletionThreshold(st.now, days));
      RemainsNone(path, n);
    }
  }

  /** What handleSubfolder keeps of a folder is the folder with every moved
      subtree cut away, whether the walk of it finished or threw. */
  lemma {:induction false} SubfolderRemains(st: State, path: Path, n: Node, days: int, env: Env)
    requires path != [] && DistinctNames(n)
    decreases n, Width(n) + 2
    ensures var r := HandleSubfolder(st, path, n, days, env);
      r.kept == Remains(path, n, MovedPaths(Delta(st, r.st)))
  {
    var r := HandleSubfolder(st, path, n, days, env);
    if path in env.unstatable {
      assert Delta(st, r.st) == [];
      assert MovedPaths([]) == {};
      RemainsNone(path, n);
    } else if IsOlderThanThreshold(n.mtime, st.now, days) {
      CheckArchiveMoved(st, FolderKind, path, n, days, env);
      RemainsNone(path, n);
    } else if n.File? || path in env.unlistable {
      OneCheckMovesNothing(st, r.st, path, CalculateDeletionThreshold(st.now, days));
      RemainsNone(path, n);
    } else {
      ListedRemains(st, path, n, days, env);
    }
  }

  lemma {:induction false} ListedRemains(st: State, path: Path, n: Node, days: int, env: Env)
    requires path != [] && n.Dir? && DistinctNames(n)
    requires path !in env.unstatable && path !in env.unlistable && !IsOlderThanThreshold(n.mtime, st.now, days)
    decreases n, Width(n) + 1
    ensures var r := HandleSubfolder(st, path, n, days, env);
      r.kept == Remains(path, n, MovedPaths(Delta(st, r.st)))
  {
    var st1 := Check(st, path, days, env);
    var rc := HandleChildren(st1, path, n, 0, days, env);
    var r := HandleSubfolder(st, path, n, days, env);
    assert r == Outcome(rc.st, [Dir(n.name, n.mtime, rc.kept)], rc.ok);
    ChildrenRemains(st1, path, n, 0, days, env);
    ChildrenMovesWithin(st1, path, n, 0, days, env);
    var dc := Delta(st1, rc.st);
    DeltaSplit(st.log, st1.log, rc.st.log);
    assert Delta(st, r.st) == [Checked(path, CalculateDeletionThreshold(st.now, days))] + dc;
    MovedPathsAppend([Checked(path, CalculateDeletionThreshold(st.now, days))], dc);
    assert MovedPaths(Delta(st, r.st)) == MovedPaths(dc);
  }

  lemma {:induction false} EntryRemains(st: State, path: Path, n: Node, days: int, env: Env)
    requires path != [] && DistinctNames(n)
    decreases n, Width(n) + 3
    ensures var r := HandleEntry(st, path, n, days, env);
      r.kept == Remains(path, n, MovedPaths(Delta(st, r.st)))
  {
    if n.Dir? {
      SubfolderRemains(st, path, n, days, env);
    } else {
      FileRemains(st, path, n, days, env);
    }
  }

  /** The listing loop keeps, in order, what is left of each child: of the
      children it handled, those parts that were not moved; of the children
      after one that threw, all of them as they were. */
  lemma {:induction false} ChildrenRemains(st: State, path: Path, d: Node, i: nat, days: int, env: Env)
    requires d.Dir? && i <= |d.children| && DistinctNames(d)
    decreases d, |d.children| - i
    ensures var r := HandleChildren(st, path, d, i, days, env);
      r.kept == RemainsFrom(path, d, i, MovedPaths(Delta(st, r.st)))
  {
    var r := HandleChildren(st, path, d, i, days, env);
    if i == |d.children| {
      assert Delta(st, r.st) == [];
    } else {
      var c := d.children[i];
      var q := path + [c.name];
      var later := Names(d.children[i + 1..]);
      var rc := HandleEntry(st, q, c, days, env);
      DistinctChild(d, i);
      EntryRemains(st, q, c, days, env);
      EntryMovesUnder(st, q, c, days, env);
      var dc := Delta(st, rc.st);
      var mc := MovedPaths(dc);
      if !rc.ok {
        assert r == Outcome(rc.st, rc.kept + d.children[i + 1..], false);
        KeptAfterStop(path, d, i, mc);
      } else {
        var rest := HandleChildren(rc.st, path, d, i + 1, days, env);
        assert r == Outcome(rest.st, rc.kept + rest.kept, rest.ok);
        ChildrenRemains(rc.st, path, d, i + 1, days, env);
        ChildrenMovesWithin(rc.st, path, d, i + 1, days, env);
        var dr := Delta(rc.st, rest.st);
        DeltaSplit(st.log, rc.st.log, rest.st.log);
        assert Delta(st, r.st) == dc + dr;
        MovedPathsAppend(dc, dr);
        KeptJoin(path, d, i, mc, MovedPaths(dr));
      }
    }
  }

  /** After child i threw: what is left of it, then its later siblings whole. */
  lemma KeptAfterStop(path: Path, d: Node, i: nat, mc: set<Path>)
    requires d.Dir? && i < |d.children| && d.children[i].name !in Names(d.children[i + 1..])
    requires forall p :: p in mc ==> path + [d.children[i].name] <= p
    ensures RemainsFrom(path, d, i, mc) == Remains(path + [d.children[i].name], d.children[i], mc) + d.children[i + 1..]
  {
    SiblingsApart(path, d.children[i].name, Names(d.children[i + 1..]), mc, {});
    RemainsFromFrame(path, d, i + 1, mc, {});
    RemainsFromNone(path, d, i + 1);
  }

  /** The moves in child i and those in its later siblings act apart. */
  lemma KeptJoin(path: Path, d: Node, i: nat, mc: set<Path>, mr: set<Path>)
    requires d.Dir? && i < |d.children| && d.children[i].name !in Names(d.children[i + 1..])
    requires forall p :: p in mc ==> path + [d.children[i].name] <= p
    requires forall p :: p in mr ==> path <= p && |p| > |path| && p[|path|] in Names(d.children[i + 1..])
    ensures RemainsFrom(path, d, i, mc + mr)
      == Remains(path + [d.children[i].name], d.children[i], mc) + RemainsFrom(path, d, i + 1, mr)
  {
    var c := d.children[i];
    SiblingsApart(path, c.name, Names(d.children[i + 1..]), mc, mr);
    RemainsFrame(path + [c.name], c, mc + mr, mc);
    RemainsFromFrame(path, d, i + 1, mc + mr, mr);
  }

  // ---------------------------------------------------------------------------
  // The archive left behind

  /** Where a moved path's node is looked up: in one subtree, found at `at`, or
      in the whole ROOT_PATH. */
  datatype Base = Subtree(at: Path, node: Node) | Top(root: map<string, Node>)

  /** The node at `p`, found by descending from `n` at `path`. */
  function SubtreeAt(path: Path, n: Node, p: Path): Option<Node>
    decreases n, Width(n) + 1
  {
    if p == path then Some(n)
    else if n.File? || !(path < p) then None
    else ChildAt(path, n, p, 0)
  }

  /** The node at `p`, looked up in the first of children i.. of `d` that has
      the name `p` takes below `path`. */
  function ChildAt(path: Path, d: Node, p: Path, i: nat): Option<Node>
    requires d.Dir? && i <= |d.children| && path < p
    decreases d, |d.children| - i
  {
    if i == |d.children| then None
    else if d.children[i].name == p[|path|] then SubtreeAt(path + [d.children[i].name], d.children[i], p)
    else ChildAt(path, d, p, i + 1)
  }

  function Lookup(b: Base, p: Path): Option<Node> {
    match b
    case Subtree(at, n) => SubtreeAt(at, n, p)
    case Top(root) => if p != [] && p[0] in root then SubtreeAt([p[0]], root[p[0]], p) else None
  }

  /** What one log event does to the archive. A move places the node found at
      its source under the source's file name; a folder deletion removes the
      entry unless it cannot be removed; a file deletion removes it (a failed
      one or one of a missing entry is logged otherwise). */
  function Step(archive: map<string, Node>, e: Event, b: Base, env: Env): map<string, Node> {
    match e
    case Moved(_, p) =>
      if p == [] then archive
      else (match Lookup(b, p) case Some(m) => archive[FileName(p) := m] case None => archive)
    case Deleted(FolderKind, name) => if name in env.undeletable then archive else archive - {name}
    case Deleted(FileKind, name) => archive - {name}
    case _ => archive
  }

  /** The archive after the events of `log`, in order. */
  function Replay(archive: map<string, Node>, log: seq<Event>, b: Base, env: Env): map<string, Node>
    decreases |log|
  {
    if log == [] then archive else Replay(Step(archive, log[0], b, env), log[1..], b, env)
  }

  lemma {:induction false} ReplayAppend(archive: map<string, Node>, l1: seq<Event>, l2: seq<Event>, b: Base, env: Env)
    decreases |l1|
    ensures Replay(archive, l1 + l2, b, env) == Replay(Replay(archive, l1, b, env), l2, b, env)
  {
    if l1 != [] {
      assert (l1 + l2)[0] == l1[0] && (l1 + l2)[1..] == l1[1..] + l2;
      ReplayAppend(Step(archive, l1[0], b, env), l1[1..], l2, b, env);
    } else {
      assert l1 + l2 == l2;
    }
  }

  /** Only the moved paths are looked up. */
  lemma {:induction false} ReplayAgree(archive: map<string, Node>, log: seq<Event>, b1: Base, b2: Base, env: Env)
    requires forall e :: e in log && e.Moved? ==> Lookup(b1, e.source) == Lookup(b2, e.source)
    decreases |log|
    ensures Replay(archive, log, b1, env) == Replay(archive, log, b2, env)
  {
    if log != [] {
      assert log[0] in log;
      assert Step(archive, log[0], b1, env) == Step(archive, log[0], b2, env);
      assert forall e :: e in log[1..] ==> e in log;
      ReplayAgree(Step(archive, log[0], b1, env), log[1..], b1, b2, env);
    }
  }

  lemma ReplayOneCheck(archive: map<string, Node>, log: seq<Event>, b: Base, env: Env)
    requires |log| == 1 && log[0].Checked?
    ensures Replay(archive, log, b, env) == archive
  {
    assert log[1..] == [];
  }

  lemma ReplayThree(archive: map<string, Node>, ev: seq<Event>, b: Base, env: Env)
    requires |ev| == 3 && ev[0].Checked?
    ensures Replay(archive, ev, b, env) == Step(Step(archive, ev[1], b, env), ev[2], b, env)
  {
    var a1 := Step(archive, ev[1], b, env);
    assert ev[1..][0] == ev[1] && ev[1..][1..] == [ev[2]];
    assert [ev[2]][1..] == [];
    assert Replay(archive, ev, b, env) == Replay(archive, ev[1..], b, env);
    assert Replay(archive, ev[1..], b, env) == Replay(a1, [ev[2]], b, env);
  }

  /** Each delete step does what its log event says. */
  lemma DeleteReplays(st: State, kind: Kind, name: string, b: Base, env: Env)
    ensures var d := DeleteFromTemp(st, kind, name, env);
      Step(st.archive, d.log[|st.log|], b, env) == d.archive
  {
    var d := DeleteFromTemp(st, kind, name, env);
    if kind == FileKind && name in st.archive && name !in d.archive {
      assert d.archive == st.archive - {name};
    }
  }

  /** Each move does what its log event says. */
  lemma MoveReplays(st: State, kind: Kind, path: Path, n: Node, env: Env)
    requires path != []
    ensures var r := MoveToTemp(st, kind, path, n, env);
      Step(st.archive, r.st.log[|st.log|], Subtree(path, n), env) == r.st.archive
  {
  }

  /** One age test and archive step replay on the archive as their log says. */
  lemma {:induction false} CheckArchiveReplays(st: State, kind: Kind, path: Path, n: Node, days: int, env: Env)
    requires path != []
    ensures var a := ArchiveNode(Check(st, path, days, env), kind, path, n, env);
      && st.log <= a.st.log
      && a.st.archive == Replay(st.archive, Delta(st, a.st), Subtree(path, n), env)
  {
    var st1 := Check(st, path, days, env);
    var b := Subtree(path, n);
    var d := DeleteFromTemp(st1, kind, FileName(path), env);
    var a := ArchiveNode(st1, kind, path, n, env);
    ArchiveNodeLog(st1, kind, path, n, env);
    DeleteReplays(st1, kind, FileName(path), b, env);
    MoveReplays(d, kind, path, n, env);
    var ev := Delta(st, a.st);
    assert |ev| == 3 && ev[0].Checked?;
    assert ev[1] == d.log[|st1.log|] && ev[2] == a.st.log[|d.log|];
    ReplayThree(st.archive, ev, b, env);
  }

  lemma {:induction false} FileArchive(st: State, path: Path, n: Node, days: int, env: Env)
    requires path != []
    ensures var r := HandleFile(st, path, n, days, env);
      r.st.archive == Replay(st.archive, Delta(st, r.st), Subtree(path, n), env)
  {
    var r := HandleFile(st, path, n, days, env);
    if path in env.unstatable {
      assert Delta(st, r.st) == [];
    } else if IsOlderThanThreshold(n.mtime, st.now, days) {
      CheckArchiveReplays(st, FileKind, path, n, days, env);
    } else {
      ReplayOneCheck(st.archive, Delta(st, r.st), Subtree(path, n), env);
    }
  }

  /** The archive after handleSubfolder is its log replayed on the archive
      before it, each move placing the subtree found at its source. */
  lemma {:induction false} SubfolderArchive(st: State, path: Path, n: Node, days: int, env: Env)
    requires path != [] && DistinctNames(n)
    decreases n, Width(n) + 2
    ensures var r := HandleSubfolder(st, path, n, days, env);
      r.st.archive == Replay(st.archive, Delta(st, r.st), Subtree(path, n), env)
  {
    var r := HandleSubfolder(st, path, n, days, env);
    if path in env.unstatable {
      assert Delta(st, r.st) == [];
    } else if IsOlderThanThreshold(n.mtime, st.now, days) {
      CheckArchiveReplays(st, FolderKind, path, n, days, env);
    } else if n.File? || path in env.unlistable {
      ReplayOneCheck(st.archive, Delta(st, r.st), Subtree(path, n), env);
    } else {
      ListedArchive(st, path, n, days, env);
    }
  }

  lemma {:induction false} ListedArchive(st: State, path: Path, n: Node, days: int, env: Env)
    requires path != [] && n.Dir? && DistinctNames(n)
    requires path !in env.unstatable && path !in env.unlistable && !IsOlderThanThreshold(n.mtime, st.now, days)
    decreases n, Width(n) + 1
    ensures var r := HandleSubfolder(st, path, n, days, env);
      r.st.archive == Replay(st.archive, Delta(st, r.st), Subtree(path, n), env)
  {
    var b := Subtree(path, n);
    var st1 := Check(st, path, days, env);
    var rc := HandleChildren(st1, path, n, 0, days, env);
    var r := HandleSubfolder(st, path, n, days, env);
    assert r.st == rc.st;
    ChildrenArchive(st1, path, n, 0, days, env);
    var c1 := [Checked(path, CalculateDeletionThreshold(st.now, days))];
    DeltaSplit(st.log, st1.log, rc.st.log);
    assert Delta(st, r.st) == c1 + Delta(st1, rc.st);
    ReplayAppend(st.archive, c1, Delta(st1, rc.st), b, env);
    ReplayOneCheck(st.archive, c1, b, env);
  }

  lemma {:induction false} EntryArchive(st: State, path: Path, n: Node, days: int, env: Env)
    requires path != [] && DistinctNames(n)
    decreases n, Width(n) + 3
    ensures var r := HandleEntry(st, path, n, days, env);
      r.st.archive == Replay(st.archive, Delta(st, r.st), Subtree(path, n), env)
  {
    if n.Dir? {
      SubfolderArchive(st, path, n, days, env);
    } else {
      FileArchive(st, path, n, days, env);
    }
  }

  lemma {:induction false} ChildAtFinds(path: Path, d: Node, p: Path, i: nat, j: nat)
    requires d.Dir? && i <= j < |d.children| && path < p
    requires d.children[j].name == p[|path|]
    requires forall k :: i <= k < j ==> d.children[k].name != p[|path|]
    decreases j - i
    ensures ChildAt(path, d, p, i) == SubtreeAt(path + [d.children[j].name], d.children[j], p)
  {
    if i < j {
      ChildAtFinds(path, d, p, i + 1, j);
    }
  }

  /** Below child i, looking up from the folder and from the child agree. */
  lemma SubtreeChild(path: Path, d: Node, i: nat, p: Path)
    requires d.Dir? && DistinctNames(d) && i < |d.children|
    requires path + [d.children[i].name] <= p
    ensures SubtreeAt(path, d, p) == SubtreeAt(path + [d.children[i].name], d.children[i], p)
  {
    ChildComponent(path, d.children[i].name, p);
    assert path < p;
    ChildAtFinds(path, d, p, 0, i);
  }

  lemma ChildLookups(delta: seq<Event>, path: Path, d: Node, i: nat)
    requires d.Dir? && DistinctNames(d) && i < |d.children|
    requires forall p :: p in MovedPaths(delta) ==> path + [d.children[i].name] <= p
    ensures forall e :: e in delta && e.Moved? ==>
      Lookup(Subtree(path + [d.children[i].name], d.children[i]), e.source) == Lookup(Subtree(path, d), e.source)
  {
    forall e | e in delta && e.Moved?
      ensures Lookup(Subtree(path + [d.children[i].name], d.children[i]), e.source) == Lookup(Subtree(path, d), e.source)
    {
      assert e.source in MovedPaths(delta);
      SubtreeChild(path, d, i, e.source);
    }
  }

  lemma ChildReplay(archive: map<string, Node>, delta: seq<Event>, path: Path, d: Node, i: nat, env: Env)
    requires d.Dir? && DistinctNames(d) && i < |d.children|
    requires forall p :: p in MovedPaths(delta) ==> path + [d.children[i].name] <= p
    ensures Replay(archive, delta, Subtree(path + [d.children[i].name], d.children[i]), env)
      == Replay(archive, delta, Subtree(path, d), env)
  {
    ChildLookups(delta, path, d, i);
    ReplayAgree(archive, delta, Subtree(path + [d.children[i].name], d.children[i]), Subtree(path, d), env);
  }

  /** The archive after the listing loop is its log replayed, each move looked
      up in the listed folder. */
  lemma {:induction false} ChildrenArchive(st: State, path: Path, d: Node, i: nat, days: int, env: Env)
    requires d.Dir? && i <= |d.children| && DistinctNames(d)
    decreases d, |d.children| - i
    ensures var r := HandleChildren(st, path, d, i, days, env);
      r.st.archive == Replay(st.archive, Delta(st, r.st), Subtree(path, d), env)
  {
    var r := HandleChildren(st, path, d, i, days, env);
    var b := Subtree(path, d);
    if i == |d.children| {
      assert Delta(st, r.st) == [];
    } else {
      var c := d.children[i];
      var q := path + [c.name];
      var rc := HandleEntry(st, q, c, days, env);
      DistinctChild(d, i);
      EntryArchive(st, q, c, days, env);
      EntryMovesUnder(st, q, c, days, env);
      var dc := Delta(st, rc.st);
      ChildReplay(st.archive, dc, path, d, i, env);
      if rc.ok {
        var rest := HandleChildren(rc.st, path, d, i + 1, days, env);
        assert r == Outcome(rest.st, rc.kept + rest.kept, rest.ok);
        ChildrenArchive(rc.st, path, d, i + 1, days, env);
        DeltaSplit(st.log, rc.st.log, rest.st.log);
        assert Delta(st, r.st) == dc + Delta(rc.st, rest.st);
        ReplayAppend(st.archive, dc, Delta(rc.st, rest.st), b, env);
      } else {
        assert r == Outcome(rc.st, rc.kept + d.children[i + 1..], false);
      }
    }
  }

  // ---------------------------------------------------------------------------
  // The whole sweep

  /** ROOT_PATH once the subtrees at the paths in `moved` have gone: a
      top-level entry that went is missing, any other is what is left of it. */
  function TreeAfter(root: map<string, Node>, moved: set<Path>): map<string, Node> {
    map k | k in root && Remains([k], root[k], moved) != [] :: Remains([k], root[k], moved)[0]
  }

  /** The configured names are listed once each. */
  predicate NamesOnce(names: seq<string>) {
    forall j, k :: 0 <= j < k < |names| ==> names[j] != names[k]
  }

  lemma TreeAfterNone(root: map<string, Node>)
    ensures TreeAfter(root, {}) == root
  {
    forall k | k in root
      ensures Remains([k], root[k], {}) == [root[k]]
    {
      RemainsNone([k], root[k]);
    }
  }

  lemma TopComponent(k: string, p: Path)
    requires [k] <= p
    ensures p != [] && p[0] == k
  {
    assert p[..1] == [k];
  }

  /** Replacing one top-level entry by what is left of it, then cutting away
      the moves elsewhere, is cutting away all the moves at once. */
  lemma TreeAfterStep(root: map<string, Node>, name: string, mo: set<Path>, mr: set<Path>)
    requires name in root
    requires forall p :: p in mo ==> [name] <= p
    requires forall p :: p in mr ==> p != [] && p[0] != name
    ensures TreeAfter(Replace(root, name, Remains([name], root[name], mo)), mr) == TreeAfter(root, mo + mr)
  {
    var kept := Remains([name], root[name], mo);
    var root1 := Replace(root, name, kept);
    forall k | k in root
      ensures Remains([k], root[k], mo + mr) == (if k in root1 then Remains([k], root1[k], mr) else [])
    {
      if k == name {
        forall p | [name] <= p
          ensures p in mo + mr <==> p in mo
        {
          TopComponent(name, p);
        }
        RemainsFrame([name], root[name], mo + mr, mo);
        if kept != [] {
          forall p | [name] <= p
            ensures p in mr <==> p in {}
          {
            TopComponent(name, p);
          }
          RemainsFrame([name], root1[name], mr, {});
          RemainsNone([name], root1[name]);
        }
      } else {
        forall p | [k] <= p
          ensures p in mo + mr <==> p in mr
        {
          TopComponent(k, p);
          if p in mo {
            TopComponent(name, p);
          }
        }
        RemainsFrame([k], root[k], mo + mr, mr);
      }
    }
    assert root1.Keys <= root.Keys;
  }

  lemma NotLater(names: seq<string>)
    requires names != [] && NamesOnce(names)
    ensures names[0] !in names[1..] && NamesOnce(names[1..])
  {
    forall j | 0 <= j < |names[1..]|
      ensures names[1..][j] != names[0]
    {
      assert names[1..][j] == names[j + 1];
    }
  }

  lemma MovedNames(delta: seq<Event>, names: seq<string>)
    requires WithinNames(delta, names)
    ensures forall p :: p in MovedPaths(delta) ==> p != [] && p[0] in names
  {
  }

  lemma SubfolderMovesUnder(st: State, path: Path, n: Node, days: int, env: Env)
    requires path != []
    ensures var r := HandleSubfolder(st, path, n, days, env);
      forall p :: p in MovedPaths(Delta(st, r.st)) ==> path <= p
  {
    SubfolderEvents(st, path, n, days, env);
    MovedUnder(Delta(st, HandleSubfolder(st, path, n, days, env).st), path);
  }

  lemma SweepMovesWithin(root: map<string, Node>, st: State, names: seq<string>, days: int, env: Env)
    ensures var r := AutoMoveAndDeleteFiles(root, st, names, days, env);
      forall p :: p in MovedPaths(Delta(st, r.st)) ==> p != [] && p[0] in names
  {
    SweepTouchesOnlyConfigured(root, st, names, days, env);
    MovedNames(Delta(st, AutoMoveAndDeleteFiles(root, st, names, days, env).st), names);
  }

  /** A move below the configured entry `name` is looked up in it. */
  lemma TopLookups(delta: seq<Event>, root: map<string, Node>, name: string)
    requires name in root
    requires forall p :: p in MovedPaths(delta) ==> [name] <= p
    ensures forall e :: e in delta && e.Moved? ==>
      Lookup(Subtree([name], root[name]), e.source) == Lookup(Top(root), e.source)
  {
    forall e | e in delta && e.Moved?
      ensures Lookup(Subtree([name], root[name]), e.source) == Lookup(Top(root), e.source)
    {
      assert e.source in MovedPaths(delta);
      TopComponent(name, e.source);
    }
  }

  /** Moves in the later entries do not see the replaced one. */
  lemma LaterLookups(delta: seq<Event>, root: map<string, Node>, name: string, kept: seq<Node>, later: seq<string>)
    requires name !in later
    requires forall p :: p in MovedPaths(delta) ==> p != [] && p[0] in later
    ensures forall e :: e in delta && e.Moved? ==>
      Lookup(Top(Replace(root, name, kept)), e.source) == Lookup(Top(root), e.source)
  {
    forall e | e in delta && e.Moved?
      ensures Lookup(Top(Replace(root, name, kept)), e.source) == Lookup(Top(root), e.source)
    {
      assert e.source in MovedPaths(delta);
    }
  }

  /** The configured top-level entries that are left after the sweep are
      what is left of them once every subtree it moved is cut away; the
      other entries are untouched. This holds also when the sweep aborted. */
  lemma {:induction false} SweepRemains(root: map<string, Node>, st: State, names: seq<string>, days: int, env: Env)
    requires NamesOnce(names) && forall k :: k in names && k in root ==> DistinctNames(root[k])
    decreases |names|
    ensures var r := AutoMoveAndDeleteFiles(root, st, names, days, env);
      r.root == TreeAfter(root, MovedPaths(Delta(st, r.st)))
  {
    var r := AutoMoveAndDeleteFiles(root, st, names, days, env);
    if names == [] || names[0] !in root {
      assert Delta(st, r.st) == [];
      assert MovedPaths([]) == {};
      TreeAfterNone(root);
    } else {
      var name := names[0];
      var o := HandleSubfolder(st, [name], root[name], days, env);
      SubfolderRemains(st, [name], root[name], days, env);
      SubfolderMovesUnder(st, [name], root[name], days, env);
      var d0 := Delta(st, o.st);
      var root1 := Replace(root, name, o.kept);
      NotLater(names);
      if o.ok {
        assert r == AutoMoveAndDeleteFiles(root1, o.st, names[1..], days, env);
        SweepRemains(root1, o.st, names[1..], days, env);
        SweepMovesWithin(root1, o.st, names[1..], days, env);
        var dr := Delta(o.st, r.st);
        DeltaSplit(st.log, o.st.log, r.st.log);
        assert Delta(st, r.st) == d0 + dr;
        MovedPathsAppend(d0, dr);
        TreeAfterStep(root, name, MovedPaths(d0), MovedPaths(dr));
      } else {
        assert r == Sweep(root1, o.st, false);
        TreeAfterNone(root1);
        TreeAfterStep(root, name, MovedPaths(d0), {});
        assert MovedPaths(d0) + {} == MovedPaths(d0);
      }
    }
  }

  /** The archive after the sweep is its log replayed on the archive before
      it, each move placing the subtree of ROOT_PATH found at its source: a
      deeper node lands flat, under its own file name. */
  lemma {:induction false} SweepArchive(root: map<string, Node>, st: State, names: seq<string>, days: int, env: Env)
    requires NamesOnce(names) && forall k :: k in names && k in root ==> DistinctNames(root[k])
    decreases |names|
    ensures var r := AutoMoveAndDeleteFiles(root, st, names, days, env);
      r.st.archive == Replay(st.archive, Delta(st, r.st), Top(root), env)
  {
    var r := AutoMoveAndDeleteFiles(root, st, names, days, env);
    if names == [] || names[0] !in root {
      assert Delta(st, r.st) == [];
    } else {
      var name := names[0];
      var o := HandleSubfolder(st, [name], root[name], days, env);
      SubfolderArchive(st, [name], root[name], days, env);
      SubfolderMovesUnder(st, [name], root[name], days, env);
      var d0 := Delta(st, o.st);
      TopLookups(d0, root, name);
      ReplayAgree(st.archive, d0, Subtree([name], root[name]), Top(root), env);
      var root1 := Replace(root, name, o.kept);
      NotLater(names);
      if o.ok {
        assert r == AutoMoveAndDeleteFiles(root1, o.st, names[1..], days, env);
        SweepArchive(root1, o.st, names[1..], days, env);
        SweepMovesWithin(root1, o.st, names[1..], days, env);
        var dr := Delta(o.st, r.st);
        LaterLookups(dr, root, name, o.kept, names[1..]);
        ReplayAgree(o.st.archive, dr, Top(root1), Top(root), env);
        DeltaSplit(st.log, o.st.log, r.st.log);
        assert Delta(st, r.st) == d0 + dr;
        ReplayAppend(st.archive, d0, dr, Top(root), env);
      } else {
        assert r.st == o.st;
      }
    }
  }
}

/** The depth-first sweep as functions of the state: the reference behaviour
    that the Sweeper class implements step by step. */
module Traversal {
  import opened FileSystem
  import opened Threshold
  import opened Archive

  /** Number of children, used to order the mutual recursion. */
  function Width(n: Node): nat {
    if n.Dir? then |n.children| else 0
  }

  /** One age test: read the clock, record the threshold, and let the clock run
      on until the next test. */
  function Check(st: State, path: Path, days: int, env: Env): (r: State)
    ensures r.archive == st.archive && r.now >= st.now
    ensures r.log == st.log + [Checked(path, CalculateDeletionThreshold(st.now, days))]
  {
    State(st.archive, st.now + Elapsed(env, |st.log|), st.log + [Checked(path, CalculateDeletionThreshold(st.now, days))])
  }

  /** handleFile: a file is archived when it is itself old enough and otherwise
      left alone. A failing stat propagates. */
  function HandleFile(st: State, path: Path, n: Node, days: int, env: Env): (r: Outcome)
    requires path != []
    ensures path in env.unstatable ==> r == Outcome(st, [n], false)
    ensures path !in env.unstatable ==> r.ok && (r.kept == [] || r.kept == [n])
    ensures !IsOlderThanThreshold(n.mtime, st.now, days) ==> r.kept == [n] && r.st.archive == st.archive
    ensures st.now <= r.st.now && st.log <= r.st.log
  {
    if path in env.unstatable then Outcome(st, [n], false)
    else
      var st1 := Check(st, path, days, env);
      if IsOlderThanThreshold(n.mtime, st.now, days) then ArchiveNode(st1, FileKind, path, n, env)
      else Outcome(st1, [n], true)
  }

  /** handleSubfolder, and the body of the top-level loop, which is the same
      code: a folder that is old enough is archived whole; otherwise its
      children are handled in order. A failing stat or listing propagates.
      Listing a regular file fails (NotDirectoryException). What is kept of a
      folder is a folder of the same name and time. */
  function HandleSubfolder(st: State, path: Path, n: Node, days: int, env: Env): (r: Outcome)
    requires path != []
    decreases n, Width(n) + 1
    ensures st.now <= r.st.now && st.log <= r.st.log
    ensures r.kept == [] || (|r.kept| == 1 && r.kept[0].name == n.name && r.kept[0].mtime == n.mtime && r.kept[0].Dir? == n.Dir?)
  {
    if path in env.unstatable then Outcome(st, [n], false)
    else
      var st1 := Check(st, path, days, env);
      if IsOlderThanThreshold(n.mtime, st.now, days) then
        ArchiveNode(st1, FolderKind, path, n, env)
      else if n.File? || path in env.unlistable then Outcome(st1, [n], false)
      else
        var r := HandleChildren(st1, path, n, 0, days, env);
        Outcome(r.st, [Dir(n.name, n.mtime, r.kept)], r.ok)
  }

  /** The files.isDirectory dispatch for one listed child. */
  function HandleEntry(st: State, path: Path, n: Node, days: int, env: Env): (r: Outcome)
    requires path != []
    decreases n, Width(n) + 2
    ensures st.now <= r.st.now && st.log <= r.st.log
    ensures |r.kept| <= 1
  {
    if n.Dir? then HandleSubfolder(st, path, n, days, env) else HandleFile(st, path, n, days, env)
  }

  /** The listing loop over children i.. of `d`. When a child's handling throws,
      the loop stops: the rest of the children stay as they are. */
  function HandleChildren(st: State, path: Path, d: Node, i: nat, days: int, env: Env): (r: Outcome)
    requires d.Dir? && i <= |d.children|
    decreases d, |d.children| - i
    ensures st.now <= r.st.now && st.log <= r.st.log
    ensures |r.kept| <= |d.children| - i
  {
    if i == |d.children| then Outcome(st, [], true)
    else
      var c := d.children[i];
      var r := HandleEntry(st, path + [c.name], c, days, env);
      if !r.ok then Outcome(r.st, r.kept + d.children[i + 1..], false)
      else
        var rest := HandleChildren(r.st, path, d, i + 1, days, env);
        Outcome(rest.st, r.kept + rest.kept, rest.ok)
  }

  /** One step of the listing loop, for the class that runs it. */
  lemma ChildrenStep(st: State, path: Path, d: Node, i: nat, days: int, env: Env, r: Outcome)
    requires d.Dir? && i < |d.children|
    requires r == HandleEntry(st, path + [d.children[i].name], d.children[i], days, env)
    ensures !r.ok ==> HandleChildren(st, path, d, i, days, env) == Outcome(r.st, r.kept + d.children[i + 1..], false)
    ensures r.ok ==> var rest := HandleChildren(r.st, path, d, i + 1, days, env);
      HandleChildren(st, path, d, i, days, env) == Outcome(rest.st, r.kept + rest.kept, rest.ok)
  {
  }

  /** The working tree and state after a sweep, and false when it aborted. */
  datatype Sweep = Sweep(root: map<string, Node>, st: State, ok: bool)

  /** Put what is left of a top-level folder back into ROOT_PATH. */
  function Replace(root: map<string, Node>, name: string, kept: seq<Node>): (r: map<string, Node>)
    ensures kept == [] ==> name !in r
    ensures kept != [] ==> name in r && r[name] == kept[0]
    ensures forall k :: k != name ==> (k in r <==> k in root) && (k in r ==> r[k] == root[k])
  {
    if kept == [] then root - {name} else root[name := kept[0]]
  }

  /** autoMoveAndDeleteFiles: the configured names in list order. A name that is
      not in ROOT_PATH fails its stat (NoSuchFileException), and any propagated
      failure ends the sweep; what was done so far stays done. Only the
      configured top-level entries change. */
  function AutoMoveAndDeleteFiles(root: map<string, Node>, st: State, names: seq<string>, days: int, env: Env): (r: Sweep)
    decreases |names|
    ensures st.now <= r.st.now && st.log <= r.st.log
    ensures r.root.Keys <= root.Keys
    ensures forall k :: k in root && k !in names ==> k in r.root && r.root[k] == root[k]
  {
    if names == [] then Sweep(root, st, true)
    else
      var name := names[0];
      if name !in root then Sweep(root, st, false)
      else
        var o := HandleSubfolder(st, [name], root[name], days, env);
        var root1 := Replace(root, name, o.kept);
        if !o.ok then Sweep(root1, o.st, false)
        else AutoMoveAndDeleteFiles(root1, o.st, names[1..], days, env)
  }
}

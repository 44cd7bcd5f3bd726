/** The archive steps: clear the same-named entry of TEMP_PATH, then move the
    source into TEMP_PATH under its own file name with REPLACE_EXISTING. None of
    them lets an exception escape: every failure becomes a log event. */
module Archive {
  import opened FileSystem

  /** True when `name` in the archive is a directory that still has entries: a
      target that neither Files.deleteIfExists nor a replacing Files.move accepts. */
  predicate NonEmptyDirAt(archive: map<string, Node>, name: string) {
    name in archive && archive[name].Dir? && archive[name].children != []
  }

  /** deleteFolderFromTemp: walk TEMP_PATH/name and delete it bottom-up. A missing
      entry makes Files.walk throw, which is logged. File::delete reports failure
      only by its result, which is ignored, so an entry that cannot be removed
      stays and the step is still logged as a deletion. */
  function DeleteFolderFromTemp(st: State, name: string, env: Env): (r: State)
    ensures r.now == st.now && |r.log| == |st.log| + 1 && r.log[..|st.log|] == st.log
    ensures r.archive.Keys <= st.archive.Keys
    ensures forall k :: k in r.archive ==> r.archive[k] == st.archive[k]
    ensures name in r.archive <==> name in st.archive && name in env.undeletable
    ensures forall k :: k in st.archive && k != name ==> k in r.archive
    ensures r.log[|st.log|] == (if name in st.archive then Deleted(FolderKind, name) else DeleteFailed(FolderKind, name))
  {
    if name !in st.archive then
      st.(log := st.log + [DeleteFailed(FolderKind, name)])
    else if name in env.undeletable then
      st.(log := st.log + [Deleted(FolderKind, name)])
    else
      st.(archive := st.archive - {name}, log := st.log + [Deleted(FolderKind, name)])
  }

  /** deleteFileFromTemp: Files.deleteIfExists(TEMP_PATH/name). A missing entry
      is not an error. A non-empty directory (DirectoryNotEmptyException) or an
      entry that cannot be removed makes it throw, which is logged. */
  function DeleteFileFromTemp(st: State, name: string, env: Env): (r: State)
    ensures r.now == st.now && |r.log| == |st.log| + 1 && r.log[..|st.log|] == st.log
    ensures r.archive.Keys <= st.archive.Keys
    ensures forall k :: k in r.archive ==> r.archive[k] == st.archive[k]
    ensures name in r.archive <==> name in st.archive && (name in env.undeletable || NonEmptyDirAt(st.archive, name))
    ensures forall k :: k in st.archive && k != name ==> k in r.archive
    ensures r.log[|st.log|].DeleteFailed? <==> name in r.archive
  {
    if name !in st.archive then
      st.(log := st.log + [Deleted(FileKind, name)])
    else if name in env.undeletable || NonEmptyDirAt(st.archive, name) then
      st.(log := st.log + [DeleteFailed(FileKind, name)])
    else
      st.(archive := st.archive - {name}, log := st.log + [Deleted(FileKind, name)])
  }

  /** moveFileToTemp and moveFolderToTemp (identical but for the log text):
      Files.move(source, TEMP_PATH/fileName(source), REPLACE_EXISTING). The
      destination depends on the file name only, never on the depth of the
      source. On success the source has left the working tree (kept == []). */
  function MoveToTemp(st: State, kind: Kind, path: Path, n: Node, env: Env): (r: Outcome)
    requires path != []
    ensures r.ok
    ensures r.st.now == st.now && |r.st.log| == |st.log| + 1 && r.st.log[..|st.log|] == st.log
    ensures r.kept == [] <==> path !in env.unmovable && !NonEmptyDirAt(st.archive, FileName(path))
    ensures r.kept == [] ==> r.st.archive == st.archive[FileName(path) := n] && r.st.log[|st.log|] == Moved(kind, path)
    ensures r.kept != [] ==> r.kept == [n] && r.st.archive == st.archive && r.st.log[|st.log|] == MoveFailed(kind, path)
  {
    var target := FileName(path);
    if path in env.unmovable || NonEmptyDirAt(st.archive, target) then
      Outcome(st.(log := st.log + [MoveFailed(kind, path)]), [n], true)
    else
      Outcome(st.(archive := st.archive[target := n], log := st.log + [Moved(kind, path)]), [], true)
  }

  /** The delete step that goes with each kind of move. */
  function DeleteFromTemp(st: State, kind: Kind, name: string, env: Env): State {
    match kind
    case FolderKind => DeleteFolderFromTemp(st, name, env)
    case FileKind => DeleteFileFromTemp(st, name, env)
  }

  /** One archive step of the traversal: delete from the archive, then move. The
      move is attempted whatever the delete did. */
  function ArchiveNode(st: State, kind: Kind, path: Path, n: Node, env: Env): (r: Outcome)
    requires path != []
    ensures r.ok && r.st.now == st.now && (r.kept == [] || r.kept == [n])
    ensures r.kept == [] ==> FileName(path) in r.st.archive && r.st.archive[FileName(path)] == n
  {
    MoveToTemp(DeleteFromTemp(st, kind, FileName(path), env), kind, path, n, env)
  }

  /** An archive step logs two events: the delete step's, then the attempt to
      move `path`, which is a success exactly when the node left the working
      tree. It never throws and never reads the clock. */
  lemma {:induction false} ArchiveNodeLog(st: State, kind: Kind, path: Path, n: Node, env: Env)
    requires path != []
    ensures var r := ArchiveNode(st, kind, path, n, env);
      && r.ok && r.st.now == st.now
      && (r.kept == [] || r.kept == [n])
      && r.st.log == st.log + [r.st.log[|st.log|], r.st.log[|st.log| + 1]]
      && (r.st.log[|st.log|].Deleted? || r.st.log[|st.log|].DeleteFailed?)
      && r.st.log[|st.log| + 1] == (if r.kept == [] then Moved(kind, path) else MoveFailed(kind, path))
  {
    var d := DeleteFromTemp(st, kind, FileName(path), env);
    var r := MoveToTemp(d, kind, path, n, env);
    assert d.log == st.log + [d.log[|st.log|]];
    assert r.st.log == d.log + [r.st.log[|d.log|]];
  }

  /** After a successful step the archive holds exactly the moved node under its
      file name and is otherwise unchanged, whatever was there before; after a
      failed one the only possible change is that the old entry is gone. */
  lemma {:induction false} ArchiveNodeEffect(st: State, kind: Kind, path: Path, n: Node, env: Env)
    requires path != []
    ensures var r := ArchiveNode(st, kind, path, n, env);
      && (r.kept == [] ==> r.st.archive == st.archive[FileName(path) := n])
      && (r.kept != [] ==> r.st.archive == st.archive || r.st.archive == st.archive - {FileName(path)})
  {
    var name := FileName(path);
    var d := DeleteFromTemp(st, kind, name, env);
    var r := MoveToTemp(d, kind, path, n, env);
    if r.kept == [] {
      assert r.st.archive == d.archive[name := n];
      assert r.st.archive == st.archive[name := n];
    } else {
      if name in d.archive {
        assert d.archive == st.archive;
      } else {
        assert d.archive == st.archive - {name};
      }
    }
  }

  /** A folder step always lands, unless the old entry cannot be removed or the
      source cannot be moved. */
  lemma FolderStepLands(st: State, path: Path, n: Node, env: Env)
    requires path != [] && FileName(path) !in env.undeletable && path !in env.unmovable
    ensures ArchiveNode(st, FolderKind, path, n, env).kept == []
  {
  }

  /** Deleting an entry the archive does not have never throws out of the step
      and never blocks the move that follows it. */
  lemma AbsentEntryDoesNotBlock(st: State, kind: Kind, path: Path, n: Node, env: Env)
    requires path != [] && FileName(path) !in st.archive && path !in env.unmovable
    ensures var r := ArchiveNode(st, kind, path, n, env);
      r.ok && r.kept == [] && r.st.archive == st.archive[FileName(path) := n]
  {
  }

  /** A file whose name is taken in the archive by a non-empty directory is never
      archived: deleteIfExists and the replacing move both refuse that target,
      and the archive keeps the directory. */
  lemma FileBlockedByNonEmptyDir(st: State, path: Path, n: Node, env: Env)
    requires path != [] && NonEmptyDirAt(st.archive, FileName(path))
    ensures var r := ArchiveNode(st, FileKind, path, n, env);
      r.kept == [n] && r.st.archive == st.archive
      && r.st.log == st.log + [DeleteFailed(FileKind, FileName(path)), MoveFailed(FileKind, path)]
  {
  }

  /** Two archive steps for the same file name, both successful: one entry is
      left under that name, the second node, and no other entry changes. */
  lemma {:induction false} SameNameTwice(st: State, k1: Kind, p1: Path, n1: Node, k2: Kind, p2: Path, n2: Node, env: Env)
    requires p1 != [] && p2 != [] && FileName(p1) == FileName(p2)
    requires ArchiveNode(st, k1, p1, n1, env).kept == []
    requires ArchiveNode(ArchiveNode(st, k1, p1, n1, env).st, k2, p2, n2, env).kept == []
    ensures var r := ArchiveNode(ArchiveNode(st, k1, p1, n1, env).st, k2, p2, n2, env);
      r.st.archive.Keys == st.archive.Keys + {FileName(p1)}
      && r.st.archive[FileName(p1)] == n2
      && forall k :: k in st.archive && k != FileName(p1) ==> r.st.archive[k] == st.archive[k]
  {
    var r1 := ArchiveNode(st, k1, p1, n1, env);
    ArchiveNodeEffect(st, k1, p1, n1, env);
    ArchiveNodeLog(st, k1, p1, n1, env);
    ArchiveNodeEffect(r1.st, k2, p2, n2, env);
  }

  /** Archiving keeps every archive entry under its own name, provided the moved
      node carries the file name of its path. */
  lemma {:induction false} ArchiveNodeKeyed(st: State, kind: Kind, path: Path, n: Node, env: Env)
    requires path != [] && n.name == FileName(path) && ArchiveKeyed(st.archive)
    ensures ArchiveKeyed(ArchiveNode(st, kind, path, n, env).st.archive)
  {
    ArchiveNodeEffect(st, kind, path, n, env);
  }
}
